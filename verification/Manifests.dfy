/** The runtime manifest of a compound object: built from the tagged paths that a query returns, it is
    a function of the catalogue alone. */
module Manifests {
  import opened Options
  import opened Text
  import opened Paths
  import opened Avus
  import opened Trees
  import opened Rows
  import opened RuntimeTree
  import opened Selections
  import opened Preflights
  import opened Identities
  import opened Lists
  import Listing

  const IGNORE_FILE := ".drsignore"

  /** `isDefaultExcludedCompoundEntry`. */
  predicate NamedControl(p: Path) {
    p != "/" &&
    (PathShape(p);
     EqualFold(TrimSpace(Base(p)), IGNORE_FILE))
  }

  /** Control files are told by their names alone, in any case. */
  lemma ControlIff(p: Path)
    requires p != "/"
    ensures '/' in p && (NamedControl(p) <==> EqualFold(Base(p), ".drsignore"))
  {
    PathShape(p);
    TrimSpaceFixed(Base(p));
  }

  lemma ControlNames()
    ensures EqualFold(".drsignore", ".drsignore") && EqualFold(".DRSIgnore", ".drsignore")
    ensures !EqualFold("drsignore", ".drsignore") && !EqualFold(".gitignores", ".drsignore")
    ensures !EqualFold(".drsignord", ".drsignore")
  {
    assert ".drsignord"[9] != ".drsignore"[9];
  }

  function RuntimeRules(root: Path): Rules<Path> {
    Rules(root, (e: Entry) => NamedControl(e.path), (e: Entry) => false)
  }

  function RelativeTo(root: Path): Path -> string {
    (p: Path) => RelativePath(root, p)
  }

  // ---------------------------------------------------------------- from heap nodes

  /** `buildPreflightNode` on the nodes that the runtime builder leaves on the heap. */
  method PreflightOfNode(n: PathNode, rules: Rules<Path>, relative: Path -> string, ghost owned: set<PathNode>,
                         ghost t: Tree)
    returns (r: Option<ManifestNode<Path>>)
    requires Represents(owned, n, t)
    ensures r == BuildPreflightNode(rules, relative, t)
    decreases t
  {
    var entry, metas := n.info.entry, n.info.metas;
    if rules.control(entry) || IsIgnored(rules, entry) {
      return None;
    }
    var children: seq<ManifestNode<Path>> := [];
    for i := 0 to |n.children|
      invariant children == BuildPreflightNodes(rules, relative, t.children[..i])
    {
      var child := PreflightOfNode(n.children[i], rules, relative, owned, t.children[i]);
      PreflightStep(rules, relative, t.children, i);
      if child.Some? {
        children := children + [child.value];
      }
    }
    assert t.children[..|t.children|] == t.children;
    r := Some(ShownNode(relative, Tree(entry, metas, []), children));
  }

  lemma {:induction false} PreflightAppend(rules: Rules<Path>, relative: Path -> string, a: seq<Tree>, b: seq<Tree>)
    ensures BuildPreflightNodes(rules, relative, a + b) ==
            BuildPreflightNodes(rules, relative, a) + BuildPreflightNodes(rules, relative, b)
    decreases |a|
  {
    if a == [] {
      assert a + b == b;
    } else {
      assert (a + b)[1..] == a[1..] + b;
      PreflightAppend(rules, relative, a[1..], b);
    }
  }

  lemma PreflightStep(rules: Rules<Path>, relative: Path -> string, ts: seq<Tree>, i: nat)
    requires i < |ts|
    ensures var child := BuildPreflightNode(rules, relative, ts[i]);
      BuildPreflightNodes(rules, relative, ts[..i + 1]) ==
      BuildPreflightNodes(rules, relative, ts[..i]) + if child.Some? then [child.value] else []
  {
    assert ts[..i + 1] == ts[..i] + [ts[i]];
    PreflightAppend(rules, relative, ts[..i], [ts[i]]);
    assert [ts[i]][1..] == [];
  }

  // ---------------------------------------------------------------- what the manifest is

  datatype RuntimeManifest = RuntimeManifest(
    rootPath: Path, rootDrsID: string, warnsNoRootID: bool, warnsNoMarker: bool, manifest: ManifestNode<Path>)

  datatype ManifestResult = Built(value: RuntimeManifest) | PathRequired | RootStatFailed | NotACollection
    | RootListFailed | QueryRefused | TreeFailed | NothingGenerated

  /** The listing entries as tree entries. */
  function EntriesOf(found: Listing.Entries): map<Path, Entry> {
    map p | p in found :: Entry(p, found[p].isDir)
  }

  /** The root, the tagged paths and everything between. */
  ghost function TreeKeys(root: Path, tagged: set<Path>): (keys: set<Path>)
    requires forall p :: p in tagged ==> Descends(root, p)
    ensures Covers(keys, root, tagged) && root in keys
    decreases tagged
  {
    if tagged == {} then
      CoversNothing(root);
      {root}
    else
      var p :| p in tagged;
      var others := tagged - {p};
      assert others + {p} == tagged && Descends(root, p);
      CoversOneMore(TreeKeys(root, others), root, others, p);
      TreeKeys(root, others) + Chain(root, p)
  }

  lemma SameCover(a: set<Path>, b: set<Path>, root: Path, tagged: set<Path>)
    requires Covers(a, root, tagged) && Covers(b, root, tagged)
    ensures a == b
  {
    forall q ensures q in a <==> q in b {
      assert q in a <==> InTree(root, tagged, q);
    }
  }

  ghost function RootInfo(env: Environment, root: Path, isDir: bool): Info {
    Info(Entry(root, isDir), AnsweredMetas(env.list(root)))
  }

  /** The tree behind the runtime manifest. */
  ghost function ManifestTree(env: Environment, root: Path, isDir: bool, entries: map<Path, Entry>): Tree
    requires Listed(root, entries)
  {
    var keys := TreeKeys(root, entries.Keys);
    TreeOf(InfoFor(keys, Want(env, root, RootInfo(env, root, isDir), entries)), root)
  }

  /** The manifest with what the root's own triples say. */
  function RootedAt(root: Path, metas: seq<Avu>, manifest: ManifestNode<Path>): RuntimeManifest {
    var id := DrsIdFromMetadata(metas);
    RuntimeManifest(root, id, id == "", !HasCompoundMarker(metas), manifest)
  }

  ghost function ManifestOf(env: Environment, root: Path, entries: map<Path, Entry>): Option<RuntimeManifest>
    requires Listed(root, entries)
  {
    var n := BuildPreflightNode(RuntimeRules(root), RelativeTo(root), ManifestTree(env, root, true, entries));
    var metas := AnsweredMetas(env.list(root));
    if n.None? then None
    else Some(RootedAt(root, metas, n.value))
  }

  // ---------------------------------------------------------------- what its nodes show

  ghost predicate FromInfo(info: map<Path, Info>, n: Tree) {
    n.entry.path in info && info[n.entry.path] == Info(n.entry, n.metas)
  }

  ghost predicate AllFromInfo(info: map<Path, Info>, nodes: seq<Tree>) {
    forall i :: 0 <= i < |nodes| ==> FromInfo(info, nodes[i])
  }

  lemma {:induction false} ForestFromInfo(rules: Rules<Path>, info: map<Path, Info>, ts: seq<Tree>)
    requires forall i :: 0 <= i < |ts| ==> AllFromInfo(info, Visible(rules, ts[i]))
    ensures AllFromInfo(info, VisibleAll(rules, ts))
  {
    if ts != [] {
      assert AllFromInfo(info, Visible(rules, ts[0]));
      forall i | 0 <= i < |ts[1..]| ensures AllFromInfo(info, Visible(rules, ts[1..][i])) {
        assert ts[1..][i] == ts[i + 1];
      }
      ForestFromInfo(rules, info, ts[1..]);
    }
  }

  /** The nodes of the tree of a set of paths are what is recorded about these paths. */
  lemma {:induction false} TreeFromInfo(rules: Rules<Path>, info: map<Path, Info>, p: Path)
    requires p in info && forall q :: q in info ==> info[q].entry.path == q
    ensures AllFromInfo(info, Visible(rules, TreeOf(info, p)))
    decreases Below(info.Keys, p)
  {
    var t, cs := TreeOf(info, p), SortedChildren(info.Keys, p);
    forall i | 0 <= i < |t.children| ensures AllFromInfo(info, Visible(rules, t.children[i])) {
      assert cs[i] in Elems(cs);
      BelowShrinks(info.Keys, p, cs[i]);
      TreeFromInfo(rules, info, cs[i]);
    }
    ForestFromInfo(rules, info, t.children);
    assert FromInfo(info, t);
  }

  /** What the filesystem has said about a path in the manifest: its kind, and its triples. */
  ghost predicate ShowsListed(env: Environment, root: Path, entries: map<Path, Entry>, n: ManifestNode<Path>) {
    var q := n.path;
    && n.isDir == (if q == root then true else if q in entries then entries[q].isDir
                   else if env.stat(q).Got? then env.stat(q).value.isDir else true)
    && (q == root || q in entries || env.stat(q).Got? ==> ShowsWhatIsStored(n, AnsweredMetas(env.list(q))))
    && (if q == root then n.relativePath == ""
        else Descends(root, q) && q == WithoutTrailingSlash(root) + "/" + n.relativePath)
  }

  lemma MembersFromTree(env: Environment, root: Path, entries: map<Path, Entry>, members: seq<ManifestNode<Path>>,
                        nodes: seq<Tree>, info: map<Path, Info>)
    requires Sane(env) && Listed(root, entries) && Mirrors(RelativeTo(root), members, nodes) && AllFromInfo(info, nodes)
    requires info == InfoFor(TreeKeys(root, entries.Keys), Want(env, root, RootInfo(env, root, true), entries))
    ensures forall i :: 0 <= i < |members| ==> ShowsListed(env, root, entries, members[i])
  {
    forall i | 0 <= i < |members| ensures ShowsListed(env, root, entries, members[i]) {
      var t := nodes[i];
      var q := t.entry.path;
      assert FromInfo(info, t);
      NodeShowsStored(RelativeTo(root), t, members[i].children);
      if q != root {
        KeyDescends(root, entries.Keys, q);
        RelativePathSteps(root, q);
      }
    }
  }

  lemma KeyDescends(root: Path, tagged: set<Path>, q: Path)
    requires (forall p :: p in tagged ==> Descends(root, p)) && q in TreeKeys(root, tagged) && q != root
    ensures Descends(root, q)
  {
    assert InTree(root, tagged, q);
    var p :| p in tagged && Between(root, q, p);
  }

  lemma ManifestShowsListed(env: Environment, root: Path, entries: map<Path, Entry>)
    requires Sane(env) && Listed(root, entries)
    ensures var r := ManifestOf(env, root, entries);
      r.Some? ==> forall n :: n in Members(r.value.manifest) ==> ShowsListed(env, root, entries, n)
  {
    var rules, t := RuntimeRules(root), ManifestTree(env, root, true, entries);
    var info := InfoFor(TreeKeys(root, entries.Keys), Want(env, root, RootInfo(env, root, true), entries));
    WantedPaths(env, root, RootInfo(env, root, true), entries);
    TreeFromInfo(Strict(rules), info, root);
    MembersMirror(rules, RelativeTo(root), t);
    var n := BuildPreflightNode(rules, RelativeTo(root), t);
    if n.Some? {
      MembersFromTree(env, root, entries, Members(n.value), Visible(Strict(rules), t), info);
    }
  }

  /** The tagged paths that a full scan below the root finds. */
  ghost function TaggedEntries(rows: Listing.Kind -> seq<Listing.PathRow>, root: Path): map<Path, Entry> {
    EntriesOf(Listing.FullScan(rows, root, true, Listing.All))
  }

  lemma FoundAreListed(rows: Listing.Kind -> seq<Listing.PathRow>, root: Path)
    requires EachOnce(Listing.AllRows(rows, Listing.All)) && root != "/"
    ensures Listed(root, TaggedEntries(rows, root))
  {
    var all, keep := Listing.AllRows(rows, Listing.All), Listing.Keep(root, true);
    AddRowsExact(keep, map[], all);
    forall p | p in TaggedEntries(rows, root) ensures Descends(root, p) {
      var i :| 0 <= i < |all| && keep(all[i]) && all[i].path == p;
      Listing.KeepMeans(root, true, all[i]);
      Listing.ScopeIsDescent(p, root, true);
    }
  }

  /** Nothing the manifest needs is refused by the filesystem. */
  ghost predicate Answers(env: Environment, root: Path, tagged: set<Path>) {
    && env.stat(root).Got? && !env.list(root).Failed?
    && forall q {:trigger InTree(root, tagged, q)} :: InTree(root, tagged, q) && q != root ==>
         env.stat(q).Got? && !env.list(q).Failed?
  }

  /** `BuildCompoundRuntimeManifest`. */
  method BuildRuntimeManifest(env: Environment, q: Listing.Querier, ghost rows: Listing.Kind -> seq<Listing.PathRow>,
                              root: Path)
    returns (r: ManifestResult)
    requires Sane(env) && Listing.ServesAll(q, rows) && EachOnce(Listing.AllRows(rows, Listing.All))
    ensures root == "/" <==> r.PathRequired?
    ensures root != "/" ==> Listed(root, TaggedEntries(rows, root))
    ensures r.Built? ==> root != "/" && ManifestOf(env, root, TaggedEntries(rows, root)) == Some(r.value)
    ensures r.Built? ==>
              forall n :: n in Members(r.value.manifest) ==> ShowsListed(env, root, TaggedEntries(rows, root), n)
    ensures r.Built? ==>
              var id := Tag(AnsweredMetas(env.list(root)));
              && r.value.rootPath == root && r.value.rootDrsID == id && (r.value.warnsNoRootID <==> id == "")
              && (r.value.warnsNoMarker <==> !HasCompoundMarker(AnsweredMetas(env.list(root))))
    ensures root != "/" && Answers(env, root, TaggedEntries(rows, root).Keys) ==>
              (r.NotACollection? <==> !env.stat(root).value.isDir) &&
              (r.Built? <==> env.stat(root).value.isDir && !NamedControl(root))
  {
    if root == "/" {
      return PathRequired;
    }
    FoundAreListed(rows, root);
    var rootStat := env.stat(root);
    if !rootStat.Got? {
      return RootStatFailed;
    }
    if !rootStat.value.isDir {
      return NotACollection;
    }
    var rootListing := env.list(root);
    if rootListing.Failed? {
      return RootListFailed;
    }
    var metas := AnsweredMetas(rootListing);
    var scan := Listing.QueryEntriesBounded(q, rows, root, true, Listing.All, 0);
    if !scan.Scanned? {
      return QueryRefused;
    }
    var entries := EntriesOf(scan.entries);
    assert scan.entries == Listing.FullScan(rows, root, true, Listing.All);
    var rootInfo := Info(rootStat.value, metas);
    assert rootInfo == RootInfo(env, root, true);
    var built, keys, owned := BuildRuntimeTree(env, root, rootInfo, entries);
    if !built.Ok? {
      return TreeFailed;
    }
    SameCover(keys, TreeKeys(root, entries.Keys), root, entries.Keys);
    ghost var t := ManifestTree(env, root, true, entries);
    var n := PreflightOfNode(built.value, RuntimeRules(root), RelativeTo(root), owned, t);
    if n.None? {
      return NothingGenerated;
    }
    ManifestShowsListed(env, root, entries);
    r := Built(RootedAt(root, metas, n.value));
  }

  /** Some row tells of a tagged entry. */
  ghost predicate Tells(rows: seq<Listing.PathRow>, p: Path, isDir: bool) {
    exists i :: 0 <= i < |rows| && rows[i].path == p && rows[i].isDir == isDir && Listing.HasAnyId(rows[i].avus)
  }

  /** The entries found are those told of strictly below the root. */
  lemma FoundAreTold(rows: Listing.Kind -> seq<Listing.PathRow>, root: Path, p: Path)
    requires EachOnce(Listing.AllRows(rows, Listing.All)) && root != "/"
    ensures var found := TaggedEntries(rows, root);
      && (p in found ==> Descends(root, p) && Tells(Listing.AllRows(rows, Listing.All), p, found[p].isDir))
      && (forall isDir :: Descends(root, p) && Tells(Listing.AllRows(rows, Listing.All), p, isDir) ==>
            p in found && found[p] == Entry(p, isDir))
  {
    var all, keep := Listing.AllRows(rows, Listing.All), Listing.Keep(root, true);
    var found := TaggedEntries(rows, root);
    AddRowsExact(keep, map[], all);
    FoundAreListed(rows, root);
    if p in found {
      var i :| 0 <= i < |all| && keep(all[i]) && all[i].path == p;
      Listing.KeepMeans(root, true, all[i]);
    }
    forall isDir | Descends(root, p) && Tells(all, p, isDir) ensures p in found && found[p] == Entry(p, isDir) {
      var i :| 0 <= i < |all| && all[i].path == p && all[i].isDir == isDir && Listing.HasAnyId(all[i].avus);
      Listing.ScopeIsDescent(p, root, true);
      Listing.KeepMeans(root, true, all[i]);
      assert keep(all[i]);
    }
  }

  /** The manifest is canonical: which entries the querier tells of decides it, not their order, their
      split into pages or the order of the triples within an entry. */
  lemma ManifestIsCanonical(env: Environment, root: Path, rows: Listing.Kind -> seq<Listing.PathRow>,
                            rows': Listing.Kind -> seq<Listing.PathRow>)
    requires root != "/"
    requires EachOnce(Listing.AllRows(rows, Listing.All)) && EachOnce(Listing.AllRows(rows', Listing.All))
    requires var all, all' := Listing.AllRows(rows, Listing.All), Listing.AllRows(rows', Listing.All);
      forall p, isDir :: Tells(all, p, isDir) <==> Tells(all', p, isDir)
    ensures Listed(root, TaggedEntries(rows, root)) && Listed(root, TaggedEntries(rows', root))
    ensures ManifestOf(env, root, TaggedEntries(rows, root)) == ManifestOf(env, root, TaggedEntries(rows', root))
  {
    FoundAreListed(rows, root);
    FoundAreListed(rows', root);
    var a, b := TaggedEntries(rows, root), TaggedEntries(rows', root);
    forall p ensures (p in a <==> p in b) && (p in a ==> a[p] == b[p]) {
      FoundAreTold(rows, root, p);
      FoundAreTold(rows', root, p);
    }
    assert a == b;
  }
}
