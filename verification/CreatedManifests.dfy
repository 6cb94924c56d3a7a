/** What the runtime manifest shows after a compound object has been created. */
module CreatedManifests {
  import opened Text
  import opened Lists
  import opened Order
  import opened Paths
  import opened Avus
  import opened Catalogues
  import opened Trees
  import opened Spaces
  import opened PathSpaces
  import opened Rows
  import opened RuntimeTree
  import opened Selections
  import opened Snapshots
  import opened Identities
  import opened Objects
  import opened Compounds
  import opened Retries
  import opened Preflights
  import opened Manifests
  import Listing

  // ---------------------------------------------------------------- a tree of paths as a snapshot

  ghost function TreeSpace(info: map<Path, Info>): Space<Path> {
    Space(Parent, q => q in info && info[q].entry.isDir, q => SortedChildren(info.Keys, q), q => |q|,
          LongestPath(info.Keys))
  }

  ghost function MetasOf(info: map<Path, Info>): Metas<Path> {
    map q | q in info :: info[q].metas
  }

  /** Each path is filed under itself, and under collections only. */
  ghost predicate Filed(info: map<Path, Info>) {
    && (forall q :: q in info ==> info[q].entry.path == q)
    && (forall q :: q in info && q != "/" && Parent(q) in info ==> info[Parent(q)].entry.isDir)
  }

  lemma TreeSpaceGood(info: map<Path, Info>)
    ensures WellFormed(TreeSpace(info)) && IsPathSpace(TreeSpace(info))
  {
    var sp := TreeSpace(info);
    forall p: Path ensures GoodKids(sp, p) {
      var cs := SortedChildren(info.Keys, p);
      StrictlySortedIsDistinct(cs);
      forall c | c in cs ensures Parent(c) == p && |p| < |c| <= sp.bound {
        assert c in Elems(cs);
      }
    }
  }

  lemma OnlyCollectionsHaveChildren(info: map<Path, Info>, p: Path)
    requires Filed(info) && p in info
    ensures SortedChildren(info.Keys, p) != [] ==> info[p].entry.isDir
    ensures forall c :: c in SortedChildren(info.Keys, p) ==> c in info && c in ChildKeys(info.Keys, p)
  {
    forall c | c in SortedChildren(info.Keys, p) ensures c in info && c in ChildKeys(info.Keys, p) {
      assert c in Elems(SortedChildren(info.Keys, p));
    }
    if SortedChildren(info.Keys, p) != [] {
      var c := SortedChildren(info.Keys, p)[0];
      assert c in SortedChildren(info.Keys, p);
    }
  }

  lemma SameTree(a: Tree, b: Tree)
    requires a.entry == b.entry && a.metas == b.metas && |a.children| == |b.children|
    requires forall i :: 0 <= i < |a.children| ==> a.children[i] == b.children[i]
    ensures a == b
  {
    assert a.children == b.children;
  }

  lemma {:induction false} TreeIsSnapshot(info: map<Path, Info>, p: Path)
    requires Filed(info) && p in info && WellFormed(TreeSpace(info))
    ensures TreeOf(info, p) == SnapshotOf(TreeSpace(info), MetasOf(info), p)
    decreases Below(info.Keys, p)
  {
    var sp, metas := TreeSpace(info), MetasOf(info);
    var cs := SortedChildren(info.Keys, p);
    OnlyCollectionsHaveChildren(info, p);
    var a, b := TreeOf(info, p), SnapshotOf(sp, metas, p);
    assert |b.children| == |cs|;
    forall i | 0 <= i < |cs| ensures a.children[i] == b.children[i] {
      assert cs[i] in cs;
      BelowShrinks(info.Keys, p, cs[i]);
      TreeIsSnapshot(info, cs[i]);
    }
    SameTree(a, b);
  }

  /** The control entries are told by their names alone. */
  ghost predicate ByName(control: Entry -> bool) {
    forall p: Path, isDir :: control(Entry(p, isDir)) == NamedControl(p)
  }

  lemma RuntimeRulesByName(root: Path)
    ensures ByName(Strict(RuntimeRules(root)).control) && ByName(ControlEntry())
  {
    var strict, rules := Strict(RuntimeRules(root)), RuntimeRules(root);
    forall p: Path, isDir ensures strict.control(Entry(p, isDir)) == NamedControl(p) {
      var e: Entry := Entry(p, isDir);
      assert strict.control(e) == (rules.control(e) || IsIgnored(rules, e));
      assert !rules.ignores(e);
    }
  }

  ghost function ControlEntry(): Entry -> bool { (e: Entry) => NamedControl(e.path) }

  lemma {:induction false} HiddenSame(sp: Space<Path>, control: Entry -> bool, sp': Space<Path>,
                                      control': Entry -> bool, root: Path, q: Path)
    requires IsPathSpace(sp) && IsPathSpace(sp')
    requires ByName(control) && ByName(control')
    ensures Hidden(sp, control, root, q) <==> Hidden(sp', control', root, q)
    decreases |q|
  {
    if q != root && q != "/" {
      HiddenSame(sp, control, sp', control', root, Parent(q));
    }
  }

  /** Keys closed upwards below the root are all in the subtree of the tree's own space. */
  lemma TreeHoldsKeys(info: map<Path, Info>, root: Path, q: Path)
    requires Filed(info) && WellFormed(TreeSpace(info)) && root in info
    requires forall k :: k in info && k != root ==> k != "/" && Parent(k) in info
    requires forall k :: k in info ==> k == root || Descends(root, k)
    ensures q in Subtree(TreeSpace(info), root) <==> q in info
  {
    var sp := TreeSpace(info);
    TreeSpaceGood(info);
    if q in info {
      forall k | k in info && k != root ensures k in sp.kids(Parent(k)) && sp.isDir(Parent(k)) {
        assert k in ChildKeys(info.Keys, Parent(k));
        assert k in Elems(SortedChildren(info.Keys, Parent(k)));
      }
      assert Complete(sp, info.Keys, root);
      ClimbsIsDescent(sp, root, q);
      SubtreeComplete(sp, info.Keys, root, root, q);
    }
    if q in Subtree(sp, root) {
      SubtreeWithin(sp, info, root, q);
    }
  }

  lemma {:induction false} SubtreeWithin(sp: Space<Path>, info: map<Path, Info>, p: Path, q: Path)
    requires sp == TreeSpace(info) && WellFormed(sp) && p in info && q in Subtree(sp, p)
    ensures q in info
    decreases sp.bound - sp.rank(p)
  {
    if q != p {
      var c := OneOfMembers(sp, p, sp.kids(p), q);
      assert GoodKids(sp, p);
      assert c in Elems(SortedChildren(info.Keys, p));
      SubtreeWithin(sp, info, c, q);
    }
  }

  // ---------------------------------------------------------------- a manifest of a given catalogue

  /** The filesystem answers from the catalogue. */
  ghost predicate AnswersFrom(env: Environment, sp: Space<Path>, m: Metas<Path>) {
    forall q :: q in m ==> env.stat(q) == Got(Entry(q, sp.isDir(q))) && env.list(q) == Got(m[q])
  }

  /** The querier answers from the catalogue: every tagged path below the root, each once. */
  ghost predicate QueriedFrom(rows: seq<Listing.PathRow>, sp: Space<Path>, m: Metas<Path>, root: Path) {
    && EachOnce(rows)
    && (forall i :: 0 <= i < |rows| ==> RowFrom(rows[i], sp, m))
    && (forall q :: q in m && Descends(root, q) && Listing.HasAnyId(m[q]) ==> RowAt(rows, q))
  }

  ghost predicate RowFrom(row: Listing.PathRow, sp: Space<Path>, m: Metas<Path>) {
    row.path in m && row.isDir == sp.isDir(row.path) && (Listing.HasAnyId(row.avus) <==> Listing.HasAnyId(m[row.path]))
  }

  ghost predicate RowAt(rows: seq<Listing.PathRow>, q: Path) {
    exists i :: 0 <= i < |rows| && rows[i].path == q
  }

  /** The filesystem and the querier both answer from the catalogue. */
  ghost predicate Served(env: Environment, rows: Listing.Kind -> seq<Listing.PathRow>, sp: Space<Path>, m: Metas<Path>,
                         root: Path)
  {
    AnswersFrom(env, sp, m) && QueriedFrom(Listing.AllRows(rows, Listing.All), sp, m, root)
  }

  // ---------------------------------------------------------------- what the patterns let through

  ghost function KindAt(sp: Space<Path>, q: Path): Listing.Kind {
    if sp.isDir(q) then Listing.Collections else Listing.DataObjects
  }

  /** The catalogue's answer to the query of a recursive listing for one kind: the entries of that kind
      with an id whose path matches the pattern, each once, and maybe others of that kind that match. */
  ghost predicate AnswersPattern(rows: seq<Listing.PathRow>, sp: Space<Path>, m: Metas<Path>, kind: Listing.Kind,
                                 collection: Path)
  {
    && EachOnce(rows)
    && (forall i :: 0 <= i < |rows| ==> MatchedRow(rows[i], sp, m, kind, collection))
    && (forall q :: Wanted(sp, m, kind, collection, q) ==> RowAt(rows, q))
  }

  ghost predicate MatchedRow(row: Listing.PathRow, sp: Space<Path>, m: Metas<Path>, kind: Listing.Kind,
                             collection: Path)
  {
    RowFrom(row, sp, m) && KindAt(sp, row.path) == kind && Listing.Like(Listing.LikePattern(kind, collection), row.path)
  }

  ghost predicate Wanted(sp: Space<Path>, m: Metas<Path>, kind: Listing.Kind, collection: Path, q: Path) {
    && q in m && Listing.HasAnyId(m[q]) && KindAt(sp, q) == kind
    && Listing.Like(Listing.LikePattern(kind, collection), q)
  }

  ghost predicate AnswersPatterns(rows: Listing.Kind -> seq<Listing.PathRow>, sp: Space<Path>, m: Metas<Path>,
                                  collection: Path)
  {
    forall kind :: AnswersPattern(rows(kind), sp, m, kind, collection)
  }

  ghost predicate InScope(scope: Listing.Scope, isDir: bool) {
    scope.All? || (scope.Compound? <==> isDir)
  }

  lemma RowsOfScope(rows: Listing.Kind -> seq<Listing.PathRow>, scope: Listing.Scope)
    ensures Listing.AllRows(rows, scope) ==
            (if scope.Objects? then [] else rows(Listing.Collections))
            + (if scope.Compound? then [] else rows(Listing.DataObjects))
  {
    var c, d := Listing.Collections, Listing.DataObjects;
    assert Listing.RowsOfKinds(rows, []) == [];
    assert [c][..0] == [] && [d][..0] == [] && [c, d][..1] == [c];
    assert Listing.RowsOfKinds(rows, [c]) == rows(c) && Listing.RowsOfKinds(rows, [d]) == rows(d);
  }

  /** The rows of both kinds, one after the other: still each path once. */
  lemma KindsApart(a: seq<Listing.PathRow>, b: seq<Listing.PathRow>)
    requires EachOnce(a) && EachOnce(b)
    requires forall i, j :: 0 <= i < |a| && 0 <= j < |b| ==> a[i].path != b[j].path
    ensures EachOnce(a + b)
  {
    DistinctAppend(PathsOfRows(a), PathsOfRows(b));
    assert PathsOfRows(a + b) == PathsOfRows(a) + PathsOfRows(b);
  }

  lemma AllRowsOnce(rows: Listing.Kind -> seq<Listing.PathRow>, sp: Space<Path>, m: Metas<Path>, collection: Path,
                    scope: Listing.Scope)
    requires AnswersPatterns(rows, sp, m, collection)
    ensures EachOnce(Listing.AllRows(rows, scope))
  {
    var a, b := rows(Listing.Collections), rows(Listing.DataObjects);
    RowsOfScope(rows, scope);
    assert AnswersPattern(a, sp, m, Listing.Collections, collection);
    assert AnswersPattern(b, sp, m, Listing.DataObjects, collection);
    forall i, j | 0 <= i < |a| && 0 <= j < |b| ensures a[i].path != b[j].path {
      assert MatchedRow(a[i], sp, m, Listing.Collections, collection);
      assert MatchedRow(b[j], sp, m, Listing.DataObjects, collection);
    }
    KindsApart(a, b);
    assert a + [] == a && [] + b == b;
  }

  /** Which rows there are at a path. */
  lemma RowsAt(rows: Listing.Kind -> seq<Listing.PathRow>, sp: Space<Path>, m: Metas<Path>, collection: Path,
               scope: Listing.Scope, row: Listing.PathRow)
    requires AnswersPatterns(rows, sp, m, collection)
    requires row in Listing.AllRows(rows, scope)
    ensures InScope(scope, row.isDir) && MatchedRow(row, sp, m, KindAt(sp, row.path), collection)
  {
    RowsOfScope(rows, scope);
    var kind := Listing.DataObjects;
    if !scope.Objects? && row in rows(Listing.Collections) {
      kind := Listing.Collections;
    }
    assert row in rows(kind);
    var i :| 0 <= i < |rows(kind)| && rows(kind)[i] == row;
    assert AnswersPattern(rows(kind), sp, m, kind, collection);
    assert MatchedRow(rows(kind)[i], sp, m, kind, collection);
  }

  lemma WantedHasRow(rows: Listing.Kind -> seq<Listing.PathRow>, sp: Space<Path>, m: Metas<Path>, collection: Path,
                     scope: Listing.Scope, q: Path)
    requires AnswersPatterns(rows, sp, m, collection)
    requires Wanted(sp, m, KindAt(sp, q), collection, q) && InScope(scope, sp.isDir(q))
    ensures RowAt(Listing.AllRows(rows, scope), q)
  {
    var kind := KindAt(sp, q);
    var all, mine := Listing.AllRows(rows, scope), rows(kind);
    RowsOfScope(rows, scope);
    assert AnswersPattern(mine, sp, m, kind, collection);
    var i :| 0 <= i < |mine| && mine[i].path == q;
    assert mine[i] in all;
    var j :| 0 <= j < |all| && all[j] == mine[i];
  }

  lemma TopNotScanned(rows: Listing.Kind -> seq<Listing.PathRow>, sp: Space<Path>, m: Metas<Path>, collection: Path,
                      scope: Listing.Scope)
    requires AnswersPatterns(rows, sp, m, collection)
    ensures "/" !in Listing.FullScan(rows, collection, true, scope)
  {
    var top: Path := "/";
    var all, keep := Listing.AllRows(rows, scope), Listing.Keep(collection, true);
    AllRowsOnce(rows, sp, m, collection, scope);
    AddRowsExact(keep, map[], all);
    forall i | 0 <= i < |all| && all[i].path == top ensures !keep(all[i]) {
      RowsAt(rows, sp, m, collection, scope, all[i]);
      Listing.RootPatternMissesRoot(KindAt(sp, top));
      Listing.ScopeIsDescent(top, collection, true);
      Listing.KeepMeans(collection, true, all[i]);
    }
  }

  /** Patterns and filters together: a full recursive scan holds exactly the catalogue's tagged strict
      descendants of the collection in scope; under "/" only those data objects not directly in it. */
  lemma ScanOfCatalogue(rows: Listing.Kind -> seq<Listing.PathRow>, sp: Space<Path>, m: Metas<Path>, collection: Path,
                        scope: Listing.Scope, p: Path)
    requires AnswersPatterns(rows, sp, m, collection)
    ensures p in Listing.FullScan(rows, collection, true, scope) <==>
              && p in m && Descends(collection, p) && Listing.HasAnyId(m[p]) && InScope(scope, sp.isDir(p))
              && (collection != "/" || (!sp.isDir(p) && Parent(p) != "/"))
  {
    var all := Listing.AllRows(rows, scope);
    AllRowsOnce(rows, sp, m, collection, scope);
    if p == "/" {
      TopNotScanned(rows, sp, m, collection, scope);
      return;
    }
    Listing.FullScanExact(rows, collection, true, scope, p);
    if Descends(collection, p) {
      Listing.LikeReachesIff(KindAt(sp, p), collection, p);
    }
    if p in Listing.FullScan(rows, collection, true, scope) {
      var i :| 0 <= i < |all| && Listing.HasAnyId(all[i].avus) && all[i].path == p;
      RowsAt(rows, sp, m, collection, scope, all[i]);
    } else if p in m && Descends(collection, p) && Wanted(sp, m, KindAt(sp, p), collection, p)
              && InScope(scope, sp.isDir(p)) {
      WantedHasRow(rows, sp, m, collection, scope, p);
      var i :| 0 <= i < |all| && all[i].path == p;
      RowsAt(rows, sp, m, collection, scope, all[i]);
    }
  }

  /** Below any collection but "/", the queries answer from the catalogue as the manifest needs it. */
  lemma PatternsSuffice(rows: Listing.Kind -> seq<Listing.PathRow>, sp: Space<Path>, m: Metas<Path>, root: Path)
    requires AnswersPatterns(rows, sp, m, root) && root != "/"
    ensures QueriedFrom(Listing.AllRows(rows, Listing.All), sp, m, root)
  {
    var all := Listing.AllRows(rows, Listing.All);
    AllRowsOnce(rows, sp, m, root, Listing.All);
    forall i | 0 <= i < |all| ensures RowFrom(all[i], sp, m) {
      RowsAt(rows, sp, m, root, Listing.All, all[i]);
    }
    forall q | q in m && Descends(root, q) && Listing.HasAnyId(m[q]) ensures RowAt(all, q) {
      Listing.LikeReachesIff(KindAt(sp, q), root, q);
      WantedHasRow(rows, sp, m, root, Listing.All, q);
    }
  }

  // ---------------------------------------------------------------- what the rows tell

  lemma LoneTagged(s: seq<Avu>)
    requires Lone(s)
    ensures Listing.HasAnyId(s) <==> Tag(s) != ""
  {
    IdIsFirstId(s);
    if Listing.HasAnyId(s) {
      var i :| 0 <= i < |s| && IsId(s[i]) && TrimSpace(s[i].value) != "";
      FilterMembers(IsId, s, s[i]);
      assert Ids(s) == [s[i]];
    }
    if Tag(s) != "" {
      var a := Ids(s)[0];
      assert a in Ids(s);
      FilterMembers(IsId, s, a);
      var i :| 0 <= i < |s| && s[i] == a;
    }
  }

  lemma TaggedAre(rows: Listing.Kind -> seq<Listing.PathRow>, sp: Space<Path>, m: Metas<Path>, root: Path, q: Path)
    requires QueriedFrom(Listing.AllRows(rows, Listing.All), sp, m, root) && root != "/"
    ensures q in TaggedEntries(rows, root) <==> q in m && Descends(root, q) && Listing.HasAnyId(m[q])
    ensures q in TaggedEntries(rows, root) ==> TaggedEntries(rows, root)[q] == Entry(q, sp.isDir(q))
  {
    var all, keep := Listing.AllRows(rows, Listing.All), Listing.Keep(root, true);
    AddRowsExact(keep, map[], all);
    if q in TaggedEntries(rows, root) {
      var i :| 0 <= i < |all| && keep(all[i]) && all[i].path == q;
      Listing.KeepMeans(root, true, all[i]);
      Listing.ScopeIsDescent(q, root, true);
      assert RowFrom(all[i], sp, m);
    }
    if q in m && Descends(root, q) && Listing.HasAnyId(m[q]) {
      assert RowAt(all, q);
      var i :| 0 <= i < |all| && all[i].path == q;
      assert RowFrom(all[i], sp, m);
      Listing.ScopeIsDescent(q, root, true);
      Listing.KeepMeans(root, true, all[i]);
      assert keep(all[i]);
    }
  }

  lemma {:induction false} AncestorsThere(sp: Space<Path>, keys: set<Path>, a: Path, q: Path)
    requires IsPathSpace(sp) && Complete(sp, keys, "/") && q in keys && Descends(a, q)
    ensures a in keys && sp.isDir(a)
    decreases |q|
  {
    if Parent(q) != a {
      AncestorsThere(sp, keys, a, Parent(q));
    }
  }

  ghost predicate InfoFrom(info: map<Path, Info>, sp: Space<Path>, m: Metas<Path>) {
    forall q :: q in info ==> q in m && info[q] == Info(Entry(q, sp.isDir(q)), m[q])
  }

  /** Keys that reach the root without a gap. */
  ghost predicate Gapless(keys: set<Path>, root: Path) {
    && root in keys
    && (forall k :: k in keys && k != root ==> k != "/" && Parent(k) in keys)
    && (forall k :: k in keys ==> k == root || Descends(root, k))
  }

  lemma CoverIsGapless(keys: set<Path>, root: Path, tagged: set<Path>)
    requires Covers(keys, root, tagged) && forall p :: p in tagged ==> Descends(root, p)
    ensures Gapless(keys, root)
  {
    CoveredShape(root, tagged, keys);
    assert InTree(root, tagged, root);
    forall k | k in keys && k != root ensures Parent(k) in keys {
      assert InTree(root, tagged, k);
      var p :| p in tagged && Between(root, k, p);
      if Parent(k) != root {
        if k != p {
          DescendsTransitive(Parent(k), k, p);
        }
        assert Between(root, Parent(k), p);
        assert InTree(root, tagged, Parent(k));
      }
    }
  }

  ghost function ShownInfo(env: Environment, root: Path, entries: map<Path, Entry>): map<Path, Info>
    requires Listed(root, entries)
  {
    InfoFor(TreeKeys(root, entries.Keys), Want(env, root, RootInfo(env, root, true), entries))
  }

  /** The tree behind the manifest records what the catalogue holds. */
  lemma InfoIsFromCatalogue(env: Environment, rows: Listing.Kind -> seq<Listing.PathRow>, sp: Space<Path>,
                            m: Metas<Path>, root: Path)
    requires IsPathSpace(sp) && Complete(sp, m.Keys, "/") && AnswersFrom(env, sp, m)
    requires QueriedFrom(Listing.AllRows(rows, Listing.All), sp, m, root) && root != "/"
    requires root in m && sp.isDir(root)
    ensures Listed(root, TaggedEntries(rows, root))
    ensures var info := ShownInfo(env, root, TaggedEntries(rows, root));
      && InfoFrom(info, sp, m) && Gapless(info.Keys, root)
      && (forall q :: q in info && !sp.isDir(q) ==> q in TaggedEntries(rows, root))
      && TaggedEntries(rows, root).Keys <= info.Keys
  {
    FoundAreListed(rows, root);
    var entries := TaggedEntries(rows, root);
    var keys := TreeKeys(root, entries.Keys);
    CoverIsGapless(keys, root, entries.Keys);
    forall q | q in keys
      ensures q in m && Want(env, root, RootInfo(env, root, true), entries)(q) == Info(Entry(q, sp.isDir(q)), m[q])
      ensures !sp.isDir(q) ==> q in entries
    {
      assert InTree(root, entries.Keys, q);
      KeyIsFromCatalogue(env, rows, sp, m, root, entries, q);
      WantedIsFrom(env, sp, m, root, entries, q);
    }
    forall q | q in entries ensures q in keys {
      assert Between(root, q, q) && InTree(root, entries.Keys, q);
    }
  }

  lemma KeyIsFromCatalogue(env: Environment, rows: Listing.Kind -> seq<Listing.PathRow>, sp: Space<Path>,
                           m: Metas<Path>, root: Path, entries: map<Path, Entry>, q: Path)
    requires IsPathSpace(sp) && Complete(sp, m.Keys, "/") && AnswersFrom(env, sp, m)
    requires QueriedFrom(Listing.AllRows(rows, Listing.All), sp, m, root) && root != "/"
    requires root in m && sp.isDir(root)
    requires entries == TaggedEntries(rows, root) && InTree(root, entries.Keys, q)
    ensures q in m && (!sp.isDir(q) ==> q in entries)
    ensures q in entries ==> entries[q] == Entry(q, sp.isDir(q))
  {
    if q != root {
      var p :| p in entries.Keys && Between(root, q, p);
      TaggedAre(rows, sp, m, root, p);
      TaggedAre(rows, sp, m, root, q);
      if q != p {
        AncestorsThere(sp, m.Keys, q, p);
      }
    } else {
      TaggedAre(rows, sp, m, root, q);
    }
  }

  lemma WantedIsFrom(env: Environment, sp: Space<Path>, m: Metas<Path>, root: Path, entries: map<Path, Entry>, q: Path)
    requires AnswersFrom(env, sp, m) && root in m && sp.isDir(root) && q in m
    requires q in entries ==> entries[q] == Entry(q, sp.isDir(q))
    ensures Want(env, root, RootInfo(env, root, true), entries)(q) == Info(Entry(q, sp.isDir(q)), m[q])
  {
  }

  lemma SameEntries(rows: Listing.Kind -> seq<Listing.PathRow>, rows': Listing.Kind -> seq<Listing.PathRow>,
                    sp: Space<Path>, m: Metas<Path>, root: Path)
    requires root != "/" && QueriedFrom(Listing.AllRows(rows, Listing.All), sp, m, root)
    requires QueriedFrom(Listing.AllRows(rows', Listing.All), sp, m, root)
    ensures TaggedEntries(rows, root) == TaggedEntries(rows', root)
  {
    var a, b := TaggedEntries(rows, root), TaggedEntries(rows', root);
    forall q ensures (q in a <==> q in b) && (q in a ==> a[q] == b[q]) {
      TaggedAre(rows, sp, m, root, q);
      TaggedAre(rows', sp, m, root, q);
    }
    assert a == b;
  }

  lemma SameInfo(a: map<Path, Info>, b: map<Path, Info>, sp: Space<Path>, m: Metas<Path>)
    requires InfoFrom(a, sp, m) && InfoFrom(b, sp, m) && a.Keys == b.Keys
    ensures a == b
  {
    forall q | q in a ensures a[q] == b[q] {
      assert q in b;
    }
  }

  lemma ShownKeys(env: Environment, root: Path, entries: map<Path, Entry>)
    requires Listed(root, entries)
    ensures ShownInfo(env, root, entries).Keys == TreeKeys(root, entries.Keys)
  {
  }

  lemma SameShown(env: Environment, env': Environment, entries: map<Path, Entry>, sp: Space<Path>, m: Metas<Path>,
                  root: Path)
    requires Listed(root, entries)
    requires InfoFrom(ShownInfo(env, root, entries), sp, m) && InfoFrom(ShownInfo(env', root, entries), sp, m)
    ensures ShownInfo(env, root, entries) == ShownInfo(env', root, entries)
  {
    ShownKeys(env, root, entries);
    ShownKeys(env', root, entries);
    SameInfo(ShownInfo(env, root, entries), ShownInfo(env', root, entries), sp, m);
  }

  ghost predicate SameManifest(env: Environment, rows: Listing.Kind -> seq<Listing.PathRow>, env': Environment,
                               rows': Listing.Kind -> seq<Listing.PathRow>, root: Path)
  {
    && Listed(root, TaggedEntries(rows, root)) && Listed(root, TaggedEntries(rows', root))
    && ManifestOf(env, root, TaggedEntries(rows, root)) == ManifestOf(env', root, TaggedEntries(rows', root))
  }

  /** The manifest is a function of the catalogue alone: filesystems and queriers that answer from it,
      in whatever order and on whatever pages, lead to the same one. */
  lemma CatalogueDecides(env: Environment, rows: Listing.Kind -> seq<Listing.PathRow>, env': Environment,
                         rows': Listing.Kind -> seq<Listing.PathRow>, sp: Space<Path>, m: Metas<Path>, root: Path)
    requires IsPathSpace(sp) && Complete(sp, m.Keys, "/") && root != "/" && root in m && sp.isDir(root)
    requires Served(env, rows, sp, m, root)
    requires Served(env', rows', sp, m, root)
    ensures SameManifest(env, rows, env', rows', root)
  {
    InfoIsFromCatalogue(env, rows, sp, m, root);
    InfoIsFromCatalogue(env', rows', sp, m, root);
    SameEntries(rows, rows', sp, m, root);
    SameShown(env, env', TaggedEntries(rows, root), sp, m, root);
    assert env.list(root) == env'.list(root);
    ManifestIsShown(env, root, TaggedEntries(rows, root));
    ManifestIsShown(env', root, TaggedEntries(rows', root));
  }

  // ---------------------------------------------------------------- what the manifest shows

  lemma FiledFrom(info: map<Path, Info>, sp: Space<Path>, m: Metas<Path>)
    requires InfoFrom(info, sp, m) && IsPathSpace(sp) && Complete(sp, m.Keys, "/")
    ensures Filed(info)
  {
    forall q | q in info && q != "/" && Parent(q) in info ensures info[Parent(q)].entry.isDir {
      assert q in m.Keys;
    }
  }

  /** The nodes of a tree of paths: every key that nothing hides. */
  lemma TreeNodes(info: map<Path, Info>, root: Path, rules: Rules<Path>)
    requires Filed(info) && Gapless(info.Keys, root) && WellFormed(TreeSpace(info))
    ensures var nodes := Visible(rules, TreeOf(info, root));
      && Distinct(PathsOfTrees(nodes))
      && (forall q :: q in PathsOfTrees(nodes) <==> q in info && !Hidden(TreeSpace(info), rules.control, root, q))
      && Snaps(TreeSpace(info), MetasOf(info), nodes)
  {
    var own := TreeSpace(info);
    TreeIsSnapshot(info, root);
    VisibleOfSnapshot(own, MetasOf(info), rules, root);
    SubtreeSound(own, root);
    var seen := Seen(own, rules.control, root);
    FilterDistinct(seen, Subtree(own, root));
    forall q ensures q in Filter(seen, Subtree(own, root)) <==> q in info && !Hidden(own, rules.control, root, q) {
      FilterMembers(seen, Subtree(own, root), q);
      TreeHoldsKeys(info, root, q);
    }
  }

  lemma SnapsAreFrom(info: map<Path, Info>, sp: Space<Path>, m: Metas<Path>, nodes: seq<Tree>)
    requires InfoFrom(info, sp, m) && WellFormed(TreeSpace(info)) && Snaps(TreeSpace(info), MetasOf(info), nodes)
    requires forall i :: 0 <= i < |nodes| ==> nodes[i].entry.path in info
    ensures forall i :: 0 <= i < |nodes| ==> NodeFrom(nodes[i], sp, m)
  {
    forall i | 0 <= i < |nodes| ensures NodeFrom(nodes[i], sp, m) {
      var q := nodes[i].entry.path;
      assert nodes[i] == SnapshotOf(TreeSpace(info), MetasOf(info), q);
    }
  }

  /** The nodes of the manifest's tree: every key that no control entry hides. */
  lemma TreeShows(info: map<Path, Info>, sp: Space<Path>, m: Metas<Path>, root: Path)
    requires InfoFrom(info, sp, m) && Gapless(info.Keys, root) && IsPathSpace(sp) && Complete(sp, m.Keys, "/")
    ensures var nodes := Visible(Strict(RuntimeRules(root)), TreeOf(info, root));
      && Distinct(PathsOfTrees(nodes))
      && (forall q :: q in PathsOfTrees(nodes) <==> q in info && !Hidden(sp, ControlEntry(), root, q))
      && (forall i :: 0 <= i < |nodes| ==> NodeFrom(nodes[i], sp, m))
  {
    var rules := Strict(RuntimeRules(root));
    FiledFrom(info, sp, m);
    TreeSpaceGood(info);
    TreeNodes(info, root, rules);
    RuntimeRulesByName(root);
    var nodes := Visible(rules, TreeOf(info, root));
    forall q ensures q in PathsOfTrees(nodes) <==> q in info && !Hidden(sp, ControlEntry(), root, q) {
      HiddenSame(TreeSpace(info), rules.control, sp, ControlEntry(), root, q);
    }
    forall i | 0 <= i < |nodes| ensures nodes[i].entry.path in info {
      assert PathsOfTrees(nodes)[i] in PathsOfTrees(nodes);
    }
    SnapsAreFrom(info, sp, m, nodes);
  }

  ghost predicate NodeFrom(n: Tree, sp: Space<Path>, m: Metas<Path>) {
    var q := n.entry.path;
    q in m && n.entry == Entry(q, sp.isDir(q)) && n.metas == m[q]
  }

  /** The paths that a manifest lists are these, each with its stored id. */
  ghost predicate ShowsExactly(members: seq<ManifestNode<Path>>, shown: Path -> bool, sp: Space<Path>, m: Metas<Path>) {
    && Distinct(MapSeq(MemberPath, members))
    && (forall q :: q in MapSeq(MemberPath, members) <==> shown(q))
    && (forall i :: 0 <= i < |members| ==>
          var q := members[i].path;
          && q in m && members[i].isDir == sp.isDir(q) && members[i].drsID == Tag(m[q])
          && ShowsWhatIsStored(members[i], m[q]))
  }

  lemma MirrorLists(relative: Path -> string, members: seq<ManifestNode<Path>>, nodes: seq<Tree>, shown: Path -> bool,
                    sp: Space<Path>, m: Metas<Path>)
    requires Mirrors(relative, members, nodes) && Distinct(PathsOfTrees(nodes))
    requires forall q :: q in PathsOfTrees(nodes) <==> shown(q)
    requires forall i :: 0 <= i < |nodes| ==> NodeFrom(nodes[i], sp, m)
    ensures ShowsExactly(members, shown, sp, m)
  {
    assert MapSeq(MemberPath, members) == PathsOfTrees(nodes);
    forall i | 0 <= i < |members|
      ensures var q := members[i].path;
        && q in m && members[i].isDir == sp.isDir(q) && members[i].drsID == Tag(m[q])
        && ShowsWhatIsStored(members[i], m[q])
    {
      assert NodeFrom(nodes[i], sp, m);
      NodeShowsStored(relative, nodes[i], members[i].children);
    }
  }

  /** The data objects that the manifest of a created compound shows: those selected, and those that
      had an id before and are not at or under a control entry. */
  ghost predicate Exposed(sp: Space<Path>, rules: Rules<Path>, base: Metas<Path>, q: Path)
    requires WellFormed(sp)
  {
    || q in Chosen(sp, rules)
    || (&& q in base && Descends(rules.root, q) && !sp.isDir(q) && Tag(base[q]) != ""
        && !Hidden(sp, ControlEntry(), rules.root, q))
  }

  ghost predicate DataShown(members: seq<ManifestNode<Path>>, sp: Space<Path>, rules: Rules<Path>, base: Metas<Path>,
                            m: Metas<Path>)
    requires WellFormed(sp)
  {
    && Distinct(MapSeq(MemberPath, members))
    && (forall i :: 0 <= i < |members| && !members[i].isDir ==>
          var q := members[i].path;
          && Exposed(sp, rules, base, q) && q in m && members[i].drsID == Tag(m[q]) != ""
          && ShowsWhatIsStored(members[i], m[q]))
    && (forall q :: Exposed(sp, rules, base, q) ==>
          exists i :: 0 <= i < |members| && members[i].path == q && !members[i].isDir)
  }

  /** A visible, tagged data object is exposed, and the other way round. */
  lemma ExposedIff(sp: Space<Path>, rules: Rules<Path>, env: Derived<Path>, guid: nat -> string,
                   spelling: Path -> string, base: Metas<Path>, m: Metas<Path>, id: string, q: Path)
    requires IsPathSpace(sp) && WellFormed(sp) && GoodSupply(guid, spelling)
    requires ByName(rules.control)
    requires NoBlankIds(base, Chosen(sp, rules)) && sp.isDir(rules.root)
    requires CompoundCreated(env, guid, base, m, rules.root, Chosen(sp, rules), id)
    requires forall k :: k in m ==> Lone(m[k])
    ensures Exposed(sp, rules, base, q) <==>
              && q in m && Descends(rules.root, q) && Listing.HasAnyId(m[q]) && !sp.isDir(q)
              && !Hidden(sp, ControlEntry(), rules.root, q)
  {
    var root, ps := rules.root, Chosen(sp, rules);
    AttemptKeeps(env, guid, spelling, base, m, root, ps);
    DoneIsTagged(env, guid, spelling, base, m, ps);
    FilterMembers(Selects(sp, rules), Subtree(sp, root), q);
    SubtreeSound(sp, root);
    ClimbsIsDescent(sp, root, q);
    RuntimeRulesByName(root);
    HiddenSame(sp, rules.control, sp, ControlEntry(), root, q);
    if q in m {
      LoneTagged(m[q]);
    }
  }

  /** A creation that finished without a node error. */
  ghost predicate CompoundCreated<K(!new)>(env: Derived<K>, guid: nat -> string, base: Metas<K>, m: Metas<K>, root: K,
                                           ps: seq<K>, id: string)
  {
    root !in ps && CreationOutcome(env, guid, base, m, root, ps, id, [])
  }

  /** The members of a manifest are the nodes of its tree. */
  lemma MembersShow(info: map<Path, Info>, sp: Space<Path>, m: Metas<Path>, root: Path, shown: Path -> bool)
    requires InfoFrom(info, sp, m) && Gapless(info.Keys, root) && IsPathSpace(sp) && Complete(sp, m.Keys, "/")
    requires forall q :: shown(q) <==> q in info && !Hidden(sp, ControlEntry(), root, q)
    requires !NamedControl(root)
    ensures var n := BuildPreflightNode(RuntimeRules(root), RelativeTo(root), TreeOf(info, root));
      n.Some? && ShowsExactly(Members(n.value), shown, sp, m)
  {
    TreeShows(info, sp, m, root);
    MembersMirror(RuntimeRules(root), RelativeTo(root), TreeOf(info, root));
    assert TreeOf(info, root).entry.path == root;
    var n := BuildPreflightNode(RuntimeRules(root), RelativeTo(root), TreeOf(info, root));
    var nodes := Visible(Strict(RuntimeRules(root)), TreeOf(info, root));
    MirrorLists(RelativeTo(root), Members(n.value), nodes, shown, sp, m);
  }

  /** The runtime manifest of a created compound: it carries the id that was returned, and its data
      objects are those exposed, each with its stored id. */
  ghost predicate ShowsCreated(env: Environment, rows: Listing.Kind -> seq<Listing.PathRow>, sp: Space<Path>,
                               rules: Rules<Path>, base: Metas<Path>, m: Metas<Path>, id: string)
    requires WellFormed(sp)
  {
    && Listed(rules.root, TaggedEntries(rows, rules.root))
    && var r := ManifestOf(env, rules.root, TaggedEntries(rows, rules.root));
      && r.Some? && r.value.rootDrsID == id && !r.value.warnsNoRootID && !r.value.warnsNoMarker
      && DataShown(Members(r.value.manifest), sp, rules, base, m)
  }

  /** After a creation without failures the runtime manifest carries the id that was returned, and its
      data objects are exactly those selected at creation plus those that had an id before and do not
      lie at or under a control entry, each with its stored id. */
  lemma CreatedManifest(sp: Space<Path>, rules: Rules<Path>, derived: Derived<Path>, guid: nat -> string,
                        spelling: Path -> string, base: Metas<Path>, m: Metas<Path>, id: string, env: Environment,
                        rows: Listing.Kind -> seq<Listing.PathRow>)
    requires IsPathSpace(sp) && WellFormed(sp) && Complete(sp, m.Keys, "/") && GoodSupply(guid, spelling)
    requires ByName(rules.control)
    requires rules.root != "/" && sp.isDir(rules.root) && !NamedControl(rules.root)
    requires NoBlankIds(base, Chosen(sp, rules))
    requires CompoundCreated(derived, guid, base, m, rules.root, Chosen(sp, rules), id)
    requires forall k :: k in m ==> Lone(m[k])
    requires Served(env, rows, sp, m, rules.root)
    ensures ShowsCreated(env, rows, sp, rules, base, m, id)
  {
    var root := rules.root;
    InfoIsFromCatalogue(env, rows, sp, m, root);
    var entries := TaggedEntries(rows, root);
    var info := ShownInfo(env, root, entries);
    var shown := (q: Path) => q in info && !Hidden(sp, ControlEntry(), root, q);
    MembersShow(info, sp, m, root, shown);
    forall q ensures Exposed(sp, rules, base, q) <==> shown(q) && !sp.isDir(q) {
      ExposedIff(sp, rules, derived, guid, spelling, base, m, id, q);
      TaggedAre(rows, sp, m, root, q);
    }
    forall q | shown(q) && !sp.isDir(q) ensures q in m && Tag(m[q]) != "" {
      TaggedAre(rows, sp, m, root, q);
      LoneTagged(m[q]);
    }
    ManifestIsShown(env, root, entries);
    var n := BuildPreflightNode(RuntimeRules(root), RelativeTo(root), TreeOf(info, root));
    ShownData(Members(n.value), shown, sp, rules, base, m, entries);
  }

  lemma KeptIsLone(c: Catalogue<Path>, sp: Space<Path>, rules: Rules<Path>)
    requires Kept(c) && WellFormed(sp) && forall q :: q in Subtree(sp, rules.root) ==> q in c.metas
    ensures forall k :: k in c.metas ==> Lone(c.metas[k])
    ensures NoBlankIds(c.metas, Chosen(sp, rules))
  {
    forall q | q in Chosen(sp, rules) ensures q in c.metas {
      FilterMembers(Selects(sp, rules), Subtree(sp, rules.root), q);
    }
  }

  /** A compound creation and the manifest built afterwards, from any filesystem and querier that answer
      from the catalogue as creation has left it. */
  method CreateThenShow(c: Catalogue<Path>, derived: Derived<Path>, sp: Space<Path>, rules: Rules<Path>)
    returns (r: Outcome<Path>)
    requires c.Valid() && Kept(c) && forall p: Path :: c.spelling(p) == p
    requires IsPathSpace(sp) && WellFormed(sp) && Complete(sp, c.metas.Keys, "/")
    requires forall q :: q in Subtree(sp, rules.root) ==> q in c.metas
    requires ByName(rules.control) && !NamedControl(rules.root)
    modifies c
    ensures r.Finished? && r.nodeErrors == [] ==>
              forall env, rows :: Served(env, rows, sp, c.metas, rules.root) ==>
                ShowsCreated(env, rows, sp, rules, old(c.metas), c.metas, r.id)
    ensures c.failures == old(c.failures) ==>
              (r.Finished? && r.nodeErrors == [] <==>
                 old(MayStart(c, sp, rules.root) && AcceptsAll(derived, c.metas, c.spelling, Chosen(sp, rules))))
  {
    ghost var base := c.metas;
    KeptIsLone(c, sp, rules);
    r := CreateCompound(c, derived, sp, rules);
    if r.Finished? && r.nodeErrors == [] {
      RootNotChosen(sp, rules);
      AttemptKeeps(derived, c.guid, c.spelling, base, c.metas, rules.root, Chosen(sp, rules));
      forall env: Environment, rows: Listing.Kind -> seq<Listing.PathRow>
        | Served(env, rows, sp, c.metas, rules.root)
        ensures ShowsCreated(env, rows, sp, rules, base, c.metas, r.id)
      {
        CreatedManifest(sp, rules, derived, c.guid, c.spelling, base, c.metas, r.id, env, rows);
      }
    }
  }

  lemma ManifestIsShown(env: Environment, root: Path, entries: map<Path, Entry>)
    requires Listed(root, entries)
    ensures var t, metas := TreeOf(ShownInfo(env, root, entries), root), AnsweredMetas(env.list(root));
      var n := BuildPreflightNode(RuntimeRules(root), RelativeTo(root), t);
      && (n.Some? <==> ManifestOf(env, root, entries).Some?)
      && (n.Some? ==> var r := ManifestOf(env, root, entries).value;
            && r.rootPath == root && r.manifest == n.value && r.rootDrsID == Tag(metas)
            && (r.warnsNoRootID <==> Tag(metas) == "") && (r.warnsNoMarker <==> !HasCompoundMarker(metas)))
  {
  }

  lemma ShownData(members: seq<ManifestNode<Path>>, shown: Path -> bool, sp: Space<Path>, rules: Rules<Path>,
                  base: Metas<Path>, m: Metas<Path>, entries: map<Path, Entry>)
    requires WellFormed(sp) && ShowsExactly(members, shown, sp, m)
    requires forall q :: Exposed(sp, rules, base, q) <==> shown(q) && !sp.isDir(q)
    requires forall q :: q in m && shown(q) && !sp.isDir(q) ==> Tag(m[q]) != ""
    ensures DataShown(members, sp, rules, base, m)
  {
    var paths := MapSeq(MemberPath, members);
    forall i | 0 <= i < |members| && !members[i].isDir
      ensures var q := members[i].path;
        && Exposed(sp, rules, base, q) && q in m && members[i].drsID == Tag(m[q]) != ""
        && ShowsWhatIsStored(members[i], m[q])
    {
      assert paths[i] in paths;
    }
    forall q | Exposed(sp, rules, base, q)
      ensures exists i :: 0 <= i < |members| && members[i].path == q && !members[i].isDir
    {
      assert q in paths;
      var i :| 0 <= i < |paths| && paths[i] == q;
      assert members[i].path == q;
    }
  }
}
