/** Listing DRS objects under a collection: the bounded two-kind cursor loop, the full scan it
    refines, and the pages cut from either. */
module Listing {
  import opened Options
  import opened Integers
  import opened Text
  import opened Lists
  import opened Order
  import opened Paths
  import opened Avus
  import opened Rows
  import opened Scans

  type PathRow = Row<Path>
  type Entries = map<Path, ListingEntry>

  datatype Scope = All | Objects | Compound

  datatype Kind = Collections | DataObjects

  /** `drsListingEntryKinds`. */
  function KindsOf(scope: Scope): seq<Kind> {
    match scope
    case Objects => [DataObjects]
    case Compound => [Collections]
    case All => [Collections, DataObjects]
  }

  // ---------------------------------------------------------------- which entries are kept

  /** `drsListingEntryWithinScope`. */
  predicate WithinScope(p: Path, collection: Path, recursive: bool) {
    if recursive then HasPathPrefix(collection, p) else Parent(p) == collection
  }

  /** The scope filter keeps exactly the strict descendants, or exactly the children; its one slip
      is to put "/" under itself. */
  lemma ScopeIsDescent(p: Path, collection: Path, recursive: bool)
    ensures WithinScope(p, collection, recursive) <==>
              (if recursive then Descends(collection, p) else p != "/" && Parent(p) == collection)
              || (p == "/" && collection == "/")
  {
    PrefixIsDescent(collection, p);
  }

  /** `hasAnyDrsIDMatchedAVU`. */
  predicate HasAnyId(avus: seq<Avu>) {
    exists i :: 0 <= i < |avus| && IsId(avus[i]) && TrimSpace(avus[i].value) != ""
  }

  /** The two tests of the inner loop of `queryDrsListingEntriesBounded`. */
  function Keep(collection: Path, recursive: bool): PathRow -> bool {
    (row: PathRow) => WithinScope(row.path, collection, recursive) && HasAnyId(row.avus)
  }

  /** SQL's LIKE without an escape character. */
  predicate Like(pattern: string, s: string)
    decreases |pattern| + |s|
  {
    if pattern == "" then s == ""
    else if pattern[0] == '%' then Like(pattern[1..], s) || (s != "" && Like(pattern, s[1..]))
    else s != "" && (pattern[0] == '_' || pattern[0] == s[0]) && Like(pattern[1..], s[1..])
  }

  /** The pattern sent to the catalogue by a recursive listing. */
  function LikePattern(kind: Kind, collection: string): string {
    if kind == Collections then collection + "/%" else collection + "%/%"
  }

  lemma {:induction false} LikeAny(s: string)
    ensures Like("%", s)
  {
    if s == "" {
      assert "%"[1..] == "";
    } else {
      LikeAny(s[1..]);
    }
  }

  /** Literal text matches itself, wildcard characters included. */
  lemma {:induction false} LikeLiteral(text: string, pattern: string, s: string)
    requires Like(pattern, s)
    ensures Like(text + pattern, text + s)
    decreases |text|
  {
    if text == "" {
      assert text + pattern == pattern && text + s == s;
    } else {
      LikeLiteral(text[1..], pattern, s);
      var p, t := text + pattern, text + s;
      assert p[1..] == text[1..] + pattern && t[1..] == text[1..] + s;
      if p[0] == '%' {
        assert Like(p[1..], t[1..]);
        LikeSkips(p, t);
      }
    }
  }

  lemma LikeSkips(p: string, t: string)
    requires p != "" && t != "" && p[0] == '%' && Like(p[1..], t[1..])
    ensures Like(p, t)
  {
    assert Like(p, t[1..]);
  }

  lemma LikeSlashAny(rest: string)
    ensures Like("/%", "/" + rest) && Like("%/%", "/" + rest)
  {
    LikeAny(rest);
    assert ("/" + rest)[1..] == rest && "/%"[1..] == "%";
    assert "%/%"[1..] == "/%";
  }

  lemma {:induction false} LikeSlashSomewhere(s: string)
    ensures Like("%/%", s) <==> '/' in s
  {
    assert "%/%"[1..] == "/%" && "/%"[1..] == "%";
    if s != "" {
      LikeSlashSomewhere(s[1..]);
      LikeAny(s[1..]);
      assert s == [s[0]] + s[1..];
    }
  }

  /** Which strict descendants the pattern reaches. Below any collection but "/" it reaches all of
      them, and more besides; below "/" it reaches no collection, and no data object whose parent
      is "/". */
  lemma LikeReachesIff(kind: Kind, collection: Path, p: Path)
    requires Descends(collection, p)
    ensures Like(LikePattern(kind, collection), p) <==>
              collection != "/" || (kind == DataObjects && Parent(p) != "/")
  {
    if collection != "/" {
      LikeReachesBelow(kind, collection, p);
    } else {
      LikeReachesFromRoot(kind, p);
    }
  }

  lemma LikeReachesBelow(kind: Kind, collection: Path, p: Path)
    requires Descends(collection, p) && collection != "/"
    ensures Like(LikePattern(kind, collection), p)
  {
    RelativePathSteps(collection, p);
    LikeBelow(kind, collection, RelativePath(collection, p));
  }

  lemma LikeReachesFromRoot(kind: Kind, p: Path)
    requires Descends("/", p)
    ensures Like(LikePattern(kind, "/"), p) <==> kind == DataObjects && Parent(p) != "/"
  {
    RelativePathSteps("/", p);
    LikeFromRoot(RelativePath("/", p));
    RootRelative(p);
  }

  lemma LikeBelow(kind: Kind, collection: string, rel: string)
    ensures Like(LikePattern(kind, collection), collection + "/" + rel)
  {
    LikeSlashAny(rel);
    LikeLiteral(collection, "/%", "/" + rel);
    LikeLiteral(collection, "%/%", "/" + rel);
    assert collection + "/" + rel == collection + ("/" + rel);
  }

  lemma LikeFromRoot(rel: string)
    requires rel != "" && rel[0] != '/'
    ensures !Like(LikePattern(Collections, "/"), "/" + rel)
    ensures Like(LikePattern(DataObjects, "/"), "/" + rel) <==> '/' in rel
  {
    var p := "/" + rel;
    assert p[1..] == rel;
    assert LikePattern(Collections, "/") == "//%" && "//%"[1..] == "/%";
    assert LikePattern(DataObjects, "/") == "/%/%" && "/%/%"[1..] == "%/%";
    LikeSlashSomewhere(rel);
  }

  lemma RootRelative(p: Path)
    requires Descends("/", p)
    ensures '/' in RelativePath("/", p) <==> Parent(p) != "/"
  {
    RelativePathSteps("/", p);
    PathShape(p);
  }

  /** No pattern for "/" reaches "/" itself. */
  lemma RootPatternMissesRoot(kind: Kind)
    ensures !Like(LikePattern(kind, "/"), "/")
  {
    assert "/"[1..] == "" && "//%"[1..] == "/%" && "/%/%"[1..] == "%/%" && "%/%"[1..] == "/%";
    assert LikePattern(Collections, "/") == "//%" && LikePattern(DataObjects, "/") == "/%/%";
    assert !Like("/%", "");
  }

  /** "/zone" lies below "/", but neither pattern for "/" reaches it. */
  lemma RootPatternMisses()
    ensures Clean("/zone") && var zone: Path := "/zone";
      Descends("/", zone) && forall kind :: !Like(LikePattern(kind, "/"), zone)
  {
    CleanChild();
    var zone: Path := "/zone";
    forall kind ensures !Like(LikePattern(kind, "/"), zone) {
      LikeReachesIff(kind, "/", zone);
    }
  }

  lemma CleanChild()
    ensures Clean("/zone") && Dir("/zone") == "/"
  {
    assert GoodSegment("zone");
    assert Join("/", "zone") == "/zone";
    DirBaseOfJoin("/", "zone");
  }

  // ---------------------------------------------------------------- the scan over both kinds

  /** The pages the querier serves for one kind under one query limit. */
  datatype Querier = Querier(pages: (Kind, int) -> seq<Reply<Path>>)

  /** The querier serves these rows of each kind, split into pages in any way. */
  ghost predicate ServesAll(q: Querier, rows: Kind -> seq<PathRow>) {
    forall kind, limit :: Serves(q.pages(kind, limit), rows(kind))
  }

  function RowsOfKinds(rows: Kind -> seq<PathRow>, kinds: seq<Kind>): seq<PathRow> {
    if kinds == [] then []
    else RowsOfKinds(rows, kinds[..|kinds| - 1]) + rows(kinds[|kinds| - 1])
  }

  function AllRows(rows: Kind -> seq<PathRow>, scope: Scope): seq<PathRow> {
    RowsOfKinds(rows, KindsOf(scope))
  }

  /** What a full scan collects. */
  ghost function FullScan(rows: Kind -> seq<PathRow>, collection: Path, recursive: bool, scope: Scope): Entries {
    AddRows(Keep(collection, recursive), map[], AllRows(rows, scope))
  }

  /** A full scan collects exactly the tagged rows at strict descendants (or children) of the
      collection, whatever else the querier's pattern let through. */
  lemma FullScanExact(rows: Kind -> seq<PathRow>, collection: Path, recursive: bool, scope: Scope, p: Path)
    requires EachOnce(AllRows(rows, scope)) && p != "/"
    ensures p in FullScan(rows, collection, recursive, scope) <==>
              && (if recursive then Descends(collection, p) else Parent(p) == collection)
              && exists i :: 0 <= i < |AllRows(rows, scope)| && HasAnyId(AllRows(rows, scope)[i].avus)
                   && AllRows(rows, scope)[i].path == p
  {
    var all, keep := AllRows(rows, scope), Keep(collection, recursive);
    AddRowsExact(keep, map[], all);
    ScopeIsDescent(p, collection, recursive);
    if p in FullScan(rows, collection, recursive, scope) {
      var i :| 0 <= i < |all| && keep(all[i]) && all[i].path == p;
      KeepMeans(collection, recursive, all[i]);
    } else if exists i :: 0 <= i < |all| && HasAnyId(all[i].avus) && all[i].path == p {
      var i :| 0 <= i < |all| && HasAnyId(all[i].avus) && all[i].path == p;
      KeepMeans(collection, recursive, all[i]);
      assert !keep(all[i]);
    }
  }

  lemma KeepMeans(collection: Path, recursive: bool, row: PathRow)
    ensures Keep(collection, recursive)(row) <==>
              WithinScope(row.path, collection, recursive) && HasAnyId(row.avus)
  {
  }

  /** The scan after some of the kinds. */
  ghost predicate ScanSoFar(entries: Entries, hasMore: bool, rows: Kind -> seq<PathRow>, keep: PathRow -> bool,
                            kinds: seq<Kind>, maxEntries: int)
  {
    && (!hasMore ==> entries == AddRows(keep, map[], RowsOfKinds(rows, kinds)))
    && (hasMore ==> 0 < maxEntries <= |entries|)
    && (hasMore && |kinds| == 1 ==> StoppedWithin(entries, rows(kinds[0]), keep))
  }

  ghost predicate StoppedWithin(entries: Entries, rows: seq<PathRow>, keep: PathRow -> bool) {
    exists k :: 0 <= k <= |rows| && entries == AddRows(keep, map[], rows[..k])
  }

  lemma ScanStep(r: Outcome<Path>, read: nat, entries: Entries, hasMore: bool, rows: Kind -> seq<PathRow>,
                 keep: PathRow -> bool, kinds: seq<Kind>, i: nat, maxEntries: int)
    requires i < |kinds| && ScanSoFar(entries, hasMore, rows, keep, kinds[..i], maxEntries)
    requires i == 0 ==> entries == map[] && !hasMore
    requires KindResult(r, rows(kinds[i]), keep, maxEntries, entries, read)
    ensures ScanSoFar(r.entries, hasMore || r.hasMore, rows, keep, kinds[..i + 1], maxEntries)
  {
    var mine := rows(kinds[i]);
    assert kinds[..i + 1][..i] == kinds[..i];
    assert mine[..|mine|] == mine;
    AddRowsAppend(keep, map[], RowsOfKinds(rows, kinds[..i]), mine);
    AddRowsGrows(keep, entries, mine[..read]);
    if i == 0 {
      assert RowsOfKinds(rows, kinds[..0]) == [];
      assert 0 <= read <= |mine| && r.entries == AddRows(keep, map[], mine[..read]);
    }
  }

  /** One kind of the scan, in the middle of it. */
  method QueryKind(q: Querier, ghost rows: Kind -> seq<PathRow>, keep: PathRow -> bool, kinds: seq<Kind>, i: nat,
                   maxEntries: int, entries: Entries, ghost hasMore: bool)
    returns (r: Outcome<Path>)
    requires i < |kinds| && (i == 0 ==> entries == map[] && !hasMore)
    requires ServesAll(q, rows) ==> ScanSoFar(entries, hasMore, rows, keep, kinds[..i], maxEntries)
    ensures ServesAll(q, rows) ==>
              r.Scanned? && ScanSoFar(r.entries, hasMore || r.hasMore, rows, keep, kinds[..i + 1], maxEntries)
    ensures r.Scanned? && r.hasMore ==> maxEntries > 0
  {
    var limit := QueryLimit(maxEntries);
    ghost var read;
    r, read := ScanServed(q.pages(kinds[i], limit), rows(kinds[i]), keep, maxEntries, entries);
    if ServesAll(q, rows) {
      assert Serves(q.pages(kinds[i], limit), rows(kinds[i]));
      ScanStep(r, read, entries, hasMore, rows, keep, kinds, i, maxEntries);
    }
  }

  /** `queryDrsListingEntriesBounded`. Stopping early for one kind does not stop the next. */
  method QueryEntriesBounded(q: Querier, ghost rows: Kind -> seq<PathRow>, collection: Path, recursive: bool,
                             scope: Scope, maxEntries: int)
    returns (r: Outcome<Path>)
    ensures ServesAll(q, rows) ==> r.Scanned?
    ensures ServesAll(q, rows) ==>
              ScanSoFar(r.entries, r.hasMore, rows, Keep(collection, recursive), KindsOf(scope), maxEntries)
    ensures r.Scanned? && r.hasMore ==> maxEntries > 0
  {
    var keep := Keep(collection, recursive);
    var kinds := KindsOf(scope);
    var entries: Entries := map[];
    var hasMore := false;
    for i := 0 to |kinds|
      invariant ServesAll(q, rows) ==> ScanSoFar(entries, hasMore, rows, keep, kinds[..i], maxEntries)
      invariant i == 0 ==> entries == map[] && !hasMore
      invariant hasMore ==> maxEntries > 0
    {
      r := QueryKind(q, rows, keep, kinds, i, maxEntries, entries, hasMore);
      if !r.Scanned? {
        return;
      }
      entries := r.entries;
      hasMore := hasMore || r.hasMore;
    }
    assert kinds[..|kinds|] == kinds;
    r := Scanned(entries, hasMore);
  }

  // ---------------------------------------------------------------- objects

  /** The part of an `InternalDrsObject` that a listing fills in. */
  datatype DrsObject = DrsObject(path: Path, isDir: bool, fields: Fields)

  /** The object an entry describes: the last id triple names it, or else its path does. */
  function ObjectFor(p: Path, e: ListingEntry): DrsObject {
    var fields := Apply(NoFields, e.avus);
    DrsObject(p, e.isDir, if fields.id == "" then fields.(id := p) else fields)
  }

  /** `drsObjectFromListingEntry`, when it returns an object. */
  predicate YieldsObject(p: Path, e: ListingEntry) {
    HasMatchingId(e.avus, ObjectFor(p, e).fields.id)
  }

  /** `drsListingScopeIncludesObject`. */
  predicate ScopeIncludes(scope: Scope, o: DrsObject) {
    if o.isDir then scope != Objects && o.fields.isManifest else scope != Compound
  }

  /** The object listed for a path, if there is one and the scope includes it. */
  function ListedAt(entries: Entries, scope: Scope): Path -> seq<DrsObject> {
    (p: Path) =>
      if p in entries && YieldsObject(p, entries[p]) && ScopeIncludes(scope, ObjectFor(p, entries[p])) then
        [ObjectFor(p, entries[p])]
      else []
  }

  ghost function SortedPaths(keys: set<Path>): (r: seq<Path>)
    ensures StrictlySorted(r) && Elems<Path>(r) == keys
  {
    var r := SortSet(keys);
    assert forall i :: 0 <= i < |r| ==> r[i] in Elems<string>(r);
    r
  }

  /** The whole sorted listing. */
  ghost function ObjectsOf(entries: Entries, scope: Scope): seq<DrsObject> {
    FlatMap(ListedAt(entries, scope), SortedPaths(entries.Keys))
  }

  function PathOf(o: DrsObject): string { o.path }

  function PathLess(): (DrsObject, DrsObject) -> bool {
    (a: DrsObject, b: DrsObject) => Less(a.path, b.path)
  }

  lemma ListedUnderItsPath(entries: Entries, scope: Scope, p: Path)
    ensures |ListedAt(entries, scope)(p)| <= 1
    ensures forall i :: 0 <= i < |ListedAt(entries, scope)(p)| ==> ListedAt(entries, scope)(p)[i].path == p
  {
  }

  /** Objects come out in path order, no path twice. */
  lemma {:induction false} ObjectsInOrder(f: Path -> seq<DrsObject>, paths: seq<Path>)
    requires StrictlySorted(paths)
    requires forall p :: |f(p)| <= 1 && forall i :: 0 <= i < |f(p)| ==> f(p)[i].path == p
    ensures Ascending(PathLess(), FlatMap(f, paths))
    ensures forall i :: 0 <= i < |FlatMap(f, paths)| ==>
              exists k :: 0 <= k < |paths| && paths[k] == FlatMap(f, paths)[i].path
  {
    if paths != [] {
      var n := |paths| - 1;
      ObjectsInOrder(f, paths[..n]);
      var init, all := FlatMap(f, paths[..n]), FlatMap(f, paths);
      forall i | 0 <= i < |init| ensures Less(init[i].path, paths[n]) {
        var k :| 0 <= k < n && paths[..n][k] == init[i].path;
      }
      AscendingAppend(PathLess(), init, f(paths[n]));
      forall i | 0 <= i < |all| ensures exists k :: 0 <= k < |paths| && paths[k] == all[i].path {
        if i < |init| {
          var k :| 0 <= k < n && paths[..n][k] == init[i].path;
          assert paths[k] == all[i].path;
        } else {
          assert paths[n] == all[i].path;
        }
      }
    }
  }

  /** What the scope asks of an entry: its kind, and of a collection that it is marked as a compound. */
  ghost predicate IsListed(scope: Scope, isDir: bool, avus: seq<Avu>) {
    if isDir then (scope.All? || scope.Compound?) && HasCompoundMarker(avus) else scope.All? || scope.Objects?
  }

  lemma ObjectsAre(entries: Entries, scope: Scope, o: DrsObject)
    ensures o in ObjectsOf(entries, scope) <==> o.path in entries && o in ListedAt(entries, scope)(o.path)
  {
    var paths, listed := SortedPaths(entries.Keys), ListedAt(entries, scope);
    FlatMapMembers(listed, paths, o);
    if o in ObjectsOf(entries, scope) {
      var p :| p in paths && o in listed(p);
      ListedUnderItsPath(entries, scope, p);
      assert p in Elems<Path>(paths);
    }
    if o.path in entries {
      assert o.path in Elems<Path>(paths);
    }
  }

  /** Whatever its triples, an entry that the scope asks for is listed under its last id; if that one is
      blank, under its path, provided that some id triple spells the path. */
  lemma ListedUnderIff(entries: Entries, scope: Scope, p: Path, o: DrsObject)
    requires p in entries && o.path == p
    ensures var avus, last := entries[p].avus, LastId(entries[p].avus, "");
      o in ObjectsOf(entries, scope) <==>
        && IsListed(scope, entries[p].isDir, avus) && (last != "" || HasMatchingId(avus, p))
        && o == DrsObject(p, entries[p].isDir, Apply(NoFields, avus).(id := if last != "" then last else p))
  {
    var avus := entries[p].avus;
    ObjectsAre(entries, scope, o);
    ApplyNamesLastId(NoFields, avus);
    ApplyMarks(NoFields, avus);
    if LastId(avus, "") != "" {
      LastIdMatches(avus);
    }
  }

  /** An entry with one id triple is listed exactly if the scope asks for it, and then as what its
      triples read as. */
  lemma ListedIff(entries: Entries, scope: Scope, p: Path, o: DrsObject)
    requires p in entries && |Ids(entries[p].avus)| == 1 && HasAnyId(entries[p].avus) && o.path == p
    ensures o in ObjectsOf(entries, scope) <==>
              && IsListed(scope, entries[p].isDir, entries[p].avus)
              && o == DrsObject(p, entries[p].isDir, Apply(NoFields, entries[p].avus))
  {
    var e := entries[p];
    ObjectsAre(entries, scope, o);
    SingleIdNames(e.avus);
    ApplyMarks(NoFields, e.avus);
  }

  lemma EntryOfDistinct(row: PathRow)
    requires Distinct(row.avus)
    ensures EntryOf(row) == ListingEntry(row.isDir, row.avus)
  {
    UniqueKept([], row.avus);
    assert [] + row.avus == row.avus;
  }

  /** The same for a row that a full scan keeps. */
  lemma RowListedIff(rows: Kind -> seq<PathRow>, collection: Path, recursive: bool, scope: Scope, row: PathRow,
                     o: DrsObject)
    requires EachOnce(AllRows(rows, scope)) && row in AllRows(rows, scope)
    requires WithinScope(row.path, collection, recursive) && SinglyTagged(row.avus) && HasAnyId(row.avus)
    requires o.path == row.path
    ensures o in ObjectsOf(FullScan(rows, collection, recursive, scope), scope) <==>
              && IsListed(scope, row.isDir, row.avus) && o == DrsObject(row.path, row.isDir, Apply(NoFields, row.avus))
  {
    var all, keep := AllRows(rows, scope), Keep(collection, recursive);
    AddRowsExact(keep, map[], all);
    KeepMeans(collection, recursive, row);
    var i :| 0 <= i < |all| && all[i] == row;
    assert keep(all[i]);
    EntryOfDistinct(row);
    ListedIff(FullScan(rows, collection, recursive, scope), scope, row.path, o);
  }

  /** Nothing is listed that the scan has not found. */
  lemma ListedWasFound(rows: Kind -> seq<PathRow>, collection: Path, recursive: bool, scope: Scope, o: DrsObject)
    requires EachOnce(AllRows(rows, scope)) && o in ObjectsOf(FullScan(rows, collection, recursive, scope), scope)
    ensures exists row :: row in AllRows(rows, scope) && row.path == o.path
                          && WithinScope(row.path, collection, recursive) && HasAnyId(row.avus)
  {
    var all, keep := AllRows(rows, scope), Keep(collection, recursive);
    AddRowsExact(keep, map[], all);
    ObjectsAre(FullScan(rows, collection, recursive, scope), scope, o);
    var i :| 0 <= i < |all| && keep(all[i]) && all[i].path == o.path;
    KeepMeans(collection, recursive, all[i]);
    assert all[i] in all;
  }

  method SortedPathList(keys: set<Path>) returns (paths: seq<Path>)
    ensures paths == SortedPaths(keys)
  {
    var listed := SortedKeyList(keys);
    assert forall i :: 0 <= i < |listed| ==> listed[i] in Elems<string>(listed);
    paths := listed;
  }

  lemma ObjectsAscend(entries: Entries, scope: Scope)
    ensures Ascending(PathLess(), ObjectsOf(entries, scope))
  {
    var listed := ListedAt(entries, scope);
    forall p: Path
      ensures |listed(p)| <= 1 && forall i :: 0 <= i < |listed(p)| ==> listed(p)[i].path == p
    {
      ListedUnderItsPath(entries, scope, p);
    }
    ObjectsInOrder(listed, SortedPaths(entries.Keys));
  }

  /** `listDrsObjectsUnderCollectionBounded` after the query. */
  method BuildObjects(entries: Entries, scope: Scope) returns (objects: seq<DrsObject>)
    ensures objects == ObjectsOf(entries, scope)
    ensures Ascending(PathLess(), objects)
  {
    var paths := SortedPathList(entries.Keys);
    objects := [];
    var listed := ListedAt(entries, scope);
    for i := 0 to |paths|
      invariant objects == FlatMap(listed, paths[..i])
    {
      FlatMapStep(listed, paths, i);
      objects := objects + listed(paths[i]);
    }
    assert paths[..|paths|] == paths;
    ObjectsAscend(entries, scope);
  }

  /** `sortDrsObjects`: the list is in path order already and has no path twice, so that the order of
      ids never comes into it. */
  method SortDrsObjects(objects: seq<DrsObject>) returns (r: seq<DrsObject>)
    requires Ascending(PathLess(), objects)
    ensures r == objects
  {
    r := SortBy(objects, PathOf);
    assert forall i, j :: 0 <= i < j < |r| ==> !Less(PathOf(r[j]), PathOf(r[i]));
    SameAscending(PathLess(), objects, r);
  }

  // ---------------------------------------------------------------- pages

  /** What a page shows; slicing beyond the end of the list panics. */
  datatype View = Panics | View(objects: seq<DrsObject>, hasMore: bool)

  /** The offset and limit arithmetic shared by the three paging functions. */
  function Window(objects: seq<DrsObject>, offset: Int64, limit: Int64, queryHasMore: bool): View
    requires offset >= 0 && limit > 0
  {
    if offset >= |objects| then View([], queryHasMore)
    else
      var sum := Wrap(offset + limit);
      var end := if sum > |objects| then |objects| else sum;
      if end < offset then Panics
      else View(objects[offset..end], queryHasMore || end < |objects|)
  }

  /** A page that does not panic shows the objects from `offset` on, `limit` of them at most, and says
      whether there are more. */
  lemma WindowExact(objects: seq<DrsObject>, offset: Int64, limit: Int64, queryHasMore: bool)
    requires offset >= 0 && limit > 0 && offset + limit <= MAX_INT64
    ensures var r := Window(objects, offset, limit, queryHasMore);
      && r.View?
      && |r.objects| == (if offset >= |objects| then 0
                         else if offset + limit >= |objects| then |objects| - offset else limit)
      && (forall i :: 0 <= i < |r.objects| ==> r.objects[i] == objects[offset + i])
      && (r.hasMore <==> queryHasMore || offset + limit < |objects|)
  {
    assert Wrap(offset + limit) == offset + limit;
  }

  /** A page panics exactly when its end does not fit an `int64` and its start is in range. */
  lemma PanicsIff(objects: seq<DrsObject>, offset: Int64, limit: Int64, queryHasMore: bool)
    requires offset >= 0 && limit > 0
    ensures Window(objects, offset, limit, queryHasMore).Panics? <==>
              offset < |objects| && offset + limit > MAX_INT64
  {
  }

  /** The page of one object from the second of two on, without a limit to speak of. */
  lemma SecondPagePanics(a: DrsObject, b: DrsObject)
    ensures Window([a, b], 1, MAX_INT64, false).Panics?
  {
    PanicsIff([a, b], 1, MAX_INT64, false);
  }

  /** The pages from `offset` on, each starting where the one before it ended. */
  function PagesFrom(objects: seq<DrsObject>, offset: Int64, limit: Int64): seq<DrsObject>
    requires 0 <= offset <= |objects| && limit > 0 && |objects| + limit <= MAX_INT64
    decreases |objects| - offset
  {
    PanicsIff(objects, offset, limit, false);
    var page := Window(objects, offset, limit, false);
    if page.hasMore then page.objects + PagesFrom(objects, offset + limit, limit) else page.objects
  }

  /** Consecutive exact pages, followed while they announce more, make up the whole listing. */
  lemma {:induction false} PagesMakeUpListing(objects: seq<DrsObject>, offset: Int64, limit: Int64)
    requires 0 <= offset <= |objects| && limit > 0 && |objects| + limit <= MAX_INT64
    ensures PagesFrom(objects, offset, limit) == objects[offset..]
    decreases |objects| - offset
  {
    PanicsIff(objects, offset, limit, false);
    assert Wrap(offset + limit) == offset + limit;
    if offset + limit < |objects| {
      PagesMakeUpListing(objects, offset + limit, limit);
      assert objects[offset..] == objects[offset..offset + limit] + objects[offset + limit..];
    }
  }

  /** A longer list than the window needs shows the same page as the whole list. */
  lemma WindowOfPrefix(objects: seq<DrsObject>, some: seq<DrsObject>, offset: Int64, limit: Int64)
    requires offset >= 0 && limit > 0 && some <= objects && offset + limit + 1 <= |some|
    requires offset + limit <= MAX_INT64
    ensures Window(some, offset, limit, true) == Window(objects, offset, limit, false)
  {
    assert some == objects[..|some|];
  }

  // ---------------------------------------------------------------- listing data objects in path order

  function LessPath(): (Path, Path) -> bool {
    (a: Path, b: Path) => Less(a, b)
  }

  ghost predicate PathOrdered(rows: seq<PathRow>) {
    Ordered(LessPath(), rows)
  }

  /** One id triple, no triple twice. */
  ghost predicate SinglyTagged(avus: seq<Avu>) {
    Distinct(avus) && |Ids(avus)| == 1
  }

  /** The kept rows are data objects with one DRS id each. */
  ghost predicate TaggedDataObjects(rows: seq<PathRow>, keep: PathRow -> bool) {
    forall r :: r in rows && keep(r) ==> !r.isDir && SinglyTagged(r.avus)
  }

  ghost predicate OrderedDataObjects(rows: Kind -> seq<PathRow>, collection: Path, recursive: bool) {
    && PathOrdered(rows(DataObjects))
    && TaggedDataObjects(rows(DataObjects), Keep(collection, recursive))
  }

  lemma {:induction false} UniqueKept(existing: seq<Avu>, additions: seq<Avu>)
    requires Distinct(existing + additions)
    ensures AppendUnique(existing, additions) == existing + additions
    decreases |additions|
  {
    if additions == [] {
      assert existing + additions == existing;
    } else {
      var all := existing + additions;
      assert all[|existing|] == additions[0];
      assert forall i :: 0 <= i < |existing| ==> all[i] == existing[i];
      assert (existing + [additions[0]]) + additions[1..] == all;
      UniqueKept(existing + [additions[0]], additions[1..]);
    }
  }

  lemma SingleIdNames(avus: seq<Avu>)
    requires |Ids(avus)| == 1 && HasAnyId(avus)
    ensures var id := Apply(NoFields, avus).id; id != "" && HasMatchingId(avus, id)
  {
    ApplyNamesLastId(NoFields, avus);
    var i :| 0 <= i < |avus| && IsId(avus[i]) && TrimSpace(avus[i].value) != "";
    OnlyId(avus, i);
    assert LastId(avus, "") == TrimSpace(avus[i].value);
  }

  /** A single id that is not blank is found again under the name the object takes from it. */
  lemma TaggedYieldsObject(p: Path, isDir: bool, avus: seq<Avu>)
    requires SinglyTagged(avus) && HasAnyId(avus)
    ensures YieldsObject(p, ListingEntry(isDir, AppendUnique([], avus)))
  {
    UniqueKept([], avus);
    assert [] + avus == avus;
    SingleIdNames(avus);
  }

  function RowObject(): PathRow -> DrsObject {
    (row: PathRow) => ObjectFor(row.path, EntryOf(row))
  }

  lemma KeptRowListed(row: PathRow, entries: Entries, collection: Path, recursive: bool)
    requires Keep(collection, recursive)(row) && !row.isDir && SinglyTagged(row.avus)
    requires row.path in entries && entries[row.path] == EntryOf(row)
    ensures ListedAt(entries, Objects)(row.path) == [RowObject()(row)]
  {
    TaggedYieldsObject(row.path, row.isDir, row.avus);
  }

  lemma OrderedOnce(rows: seq<PathRow>)
    requires PathOrdered(rows)
    ensures EachOnce(rows)
  {
    forall i, j | 0 <= i < j < |rows| ensures PathsOfRows(rows)[i] != PathsOfRows(rows)[j] {
      assert LessPath()(rows[i].path, rows[j].path);
      LessAsymmetric(rows[i].path, rows[j].path);
    }
  }

  lemma SortedPathsOfOrdered(kept: seq<PathRow>, keys: set<Path>)
    requires PathOrdered(kept) && Elems<Path>(PathsOfRows(kept)) == keys
    ensures PathsOfRows(kept) == SortedPaths(keys)
  {
    var ps: seq<Path> := PathsOfRows(kept);
    forall i, j | 0 <= i < j < |ps| ensures Less(ps[i], ps[j]) {
      assert LessPath()(kept[i].path, kept[j].path);
    }
    var qs := SortedPaths(keys);
    assert Elems<string>(ps) == Elems<Path>(ps) && Elems<string>(qs) == Elems<Path>(qs);
    SortedUnique(ps, qs);
  }

  /** Scanning path-ordered, tagged data objects lists the kept rows in the order they came. */
  lemma ListingIsKeptRows(rows: seq<PathRow>, collection: Path, recursive: bool)
    requires PathOrdered(rows) && TaggedDataObjects(rows, Keep(collection, recursive))
    ensures var keep := Keep(collection, recursive);
      && ObjectsOf(AddRows(keep, map[], rows), Objects) == MapSeq(RowObject(), Filter(keep, rows))
      && |Filter(keep, rows)| == |AddRows(keep, map[], rows)|
  {
    var keep := Keep(collection, recursive);
    var kept, entries := Filter(keep, rows), AddRows(keep, map[], rows);
    OrderedOnce(rows);
    KeptKeys(keep, rows);
    FilterOrdered(LessPath(), keep, rows);
    SortedPathsOfOrdered(kept, entries.Keys);
    var paths: seq<Path> := PathsOfRows(kept);
    var objects := MapSeq(RowObject(), kept);
    forall i | 0 <= i < |paths| ensures ListedAt(entries, Objects)(paths[i]) == [objects[i]] {
      assert kept[i] in kept;
      FilterMembers(keep, rows, kept[i]);
      KeptRowListed(kept[i], entries, collection, recursive);
    }
    FlatMapOneByOne(ListedAt(entries, Objects), paths, objects);
    OrderedOnce(kept);
    DistinctSize(paths);
  }

  /** Stopping after some of the rows lists a prefix of the whole listing. */
  lemma StoppedListingIsPrefix(rows: seq<PathRow>, k: nat, collection: Path, recursive: bool)
    requires PathOrdered(rows) && TaggedDataObjects(rows, Keep(collection, recursive)) && k <= |rows|
    ensures var keep := Keep(collection, recursive);
      var some := ObjectsOf(AddRows(keep, map[], rows[..k]), Objects);
      && some <= ObjectsOf(AddRows(keep, map[], rows), Objects)
      && |some| == |AddRows(keep, map[], rows[..k])|
  {
    var keep := Keep(collection, recursive);
    ListingIsKeptRows(rows, collection, recursive);
    assert forall r :: r in rows[..k] ==> r in rows;
    ListingIsKeptRows(rows[..k], collection, recursive);
    FilterPrefix(keep, rows, k);
  }

  // ---------------------------------------------------------------- the paging functions

  datatype PageOutcome = NegativeOffset | LimitNotPositive | ListFailed | Paged(view: View, total: Option<nat>)

  /** `ListDrsObjectsUnderCollectionPage` and `ListDrsObjects`: sort everything, then cut. */
  method ListPage(q: Querier, ghost rows: Kind -> seq<PathRow>, collection: Path, recursive: bool, scope: Scope,
                  offset: Int64, limit: Int64)
    returns (r: PageOutcome)
    ensures r.NegativeOffset? <==> offset < 0
    ensures r.LimitNotPositive? <==> offset >= 0 && limit <= 0
    ensures ServesAll(q, rows) && offset >= 0 && limit > 0 ==>
              var all := ObjectsOf(FullScan(rows, collection, recursive, scope), scope);
              r == Paged(Window(all, offset, limit, false), Some(|all|))
  {
    if offset < 0 {
      return NegativeOffset;
    }
    if limit <= 0 {
      return LimitNotPositive;
    }
    var scan := QueryEntriesBounded(q, rows, collection, recursive, scope, 0);
    if !scan.Scanned? {
      return ListFailed;
    }
    var built := BuildObjects(scan.entries, scope);
    var objects := SortDrsObjects(built);
    return Paged(Window(objects, offset, limit, false), Some(|objects|));
  }

  /** `ListDrsObjectsUnderCollectionPageFast`: fetch one entry more than the page needs. */
  method ListPageFast(q: Querier, ghost rows: Kind -> seq<PathRow>, collection: Path, recursive: bool, scope: Scope,
                      offset: Int64, limit: Int64)
    returns (r: PageOutcome)
    ensures r.NegativeOffset? <==> offset < 0
    ensures r.LimitNotPositive? <==> offset >= 0 && limit <= 0
    ensures ServesAll(q, rows) && offset >= 0 && limit > 0 ==> r.Paged? && r.total == None
    ensures ServesAll(q, rows) && offset >= 0 && limit > 0 && (r.view.Panics? || !r.view.hasMore) ==>
              r.view == Window(ObjectsOf(FullScan(rows, collection, recursive, scope), scope), offset, limit, false)
    ensures ServesAll(q, rows) && offset >= 0 && limit > 0 && scope == Objects
            && OrderedDataObjects(rows, collection, recursive) ==>
              r.view == Window(ObjectsOf(FullScan(rows, collection, recursive, scope), scope), offset, limit, false)
  {
    if offset < 0 {
      return NegativeOffset;
    }
    if limit <= 0 {
      return LimitNotPositive;
    }
    var fetchLimit := Wrap(offset + limit + 1);
    var scan := QueryEntriesBounded(q, rows, collection, recursive, scope, fetchLimit);
    if !scan.Scanned? {
      return ListFailed;
    }
    var built := BuildObjects(scan.entries, scope);
    var objects := SortDrsObjects(built);
    r := Paged(Window(objects, offset, limit, scan.hasMore), None);
    if ServesAll(q, rows) {
      FastPageExact(scan, rows, collection, recursive, scope, offset, limit);
    }
  }

  /** Why the fast page can be trusted. */
  lemma FastPageExact(scan: Outcome<Path>, rows: Kind -> seq<PathRow>, collection: Path, recursive: bool, scope: Scope,
                      offset: Int64, limit: Int64)
    requires offset >= 0 && limit > 0 && scan.Scanned?
    requires ScanSoFar(scan.entries, scan.hasMore, rows, Keep(collection, recursive), KindsOf(scope),
                       Wrap(offset + limit + 1))
    ensures var exact := Window(ObjectsOf(FullScan(rows, collection, recursive, scope), scope), offset, limit, false);
      var fast := Window(ObjectsOf(scan.entries, scope), offset, limit, scan.hasMore);
      && (fast.Panics? || !fast.hasMore ==> fast == exact)
      && (scope == Objects && OrderedDataObjects(rows, collection, recursive) ==> fast == exact)
  {
    if scan.hasMore {
      OpenWindow(ObjectsOf(scan.entries, scope), offset, limit);
      if scope == Objects && OrderedDataObjects(rows, collection, recursive) {
        StoppedPageExact(scan.entries, rows, collection, recursive, offset, limit);
      }
    }
  }

  lemma PositiveWrap(offset: Int64, limit: Int64)
    requires offset >= 0 && limit > 0 && 0 < Wrap(offset + limit + 1)
    ensures Wrap(offset + limit + 1) == offset + limit + 1 && offset + limit <= MAX_INT64
  {
  }

  lemma OpenWindow(objects: seq<DrsObject>, offset: Int64, limit: Int64)
    requires offset >= 0 && limit > 0 && 0 < Wrap(offset + limit + 1)
    ensures Window(objects, offset, limit, true).View? && Window(objects, offset, limit, true).hasMore
  {
    PanicsIff(objects, offset, limit, true);
  }

  lemma ObjectRows(rows: Kind -> seq<PathRow>)
    ensures AllRows(rows, Objects) == rows(DataObjects)
  {
    assert [DataObjects][..0] == [];
    assert [] + rows(DataObjects) == rows(DataObjects);
  }

  lemma StoppedPageExact(entries: Entries, rows: Kind -> seq<PathRow>, collection: Path, recursive: bool,
                         offset: Int64, limit: Int64)
    requires offset >= 0 && limit > 0 && OrderedDataObjects(rows, collection, recursive)
    requires StoppedWithin(entries, rows(DataObjects), Keep(collection, recursive))
    requires 0 < Wrap(offset + limit + 1) <= |entries|
    ensures Window(ObjectsOf(entries, Objects), offset, limit, true) ==
            Window(ObjectsOf(FullScan(rows, collection, recursive, Objects), Objects), offset, limit, false)
  {
    var keep, mine := Keep(collection, recursive), rows(DataObjects);
    ObjectRows(rows);
    var k :| 0 <= k <= |mine| && entries == AddRows(keep, map[], mine[..k]);
    StoppedListingIsPrefix(mine, k, collection, recursive);
    var all := ObjectsOf(FullScan(rows, collection, recursive, Objects), Objects);
    assert all == ObjectsOf(AddRows(keep, map[], mine), Objects);
    PositiveWrap(offset, limit);
    WindowOfPrefix(all, ObjectsOf(entries, Objects), offset, limit);
  }
}
