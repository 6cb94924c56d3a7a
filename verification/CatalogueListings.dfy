/** Listings of a catalogue: which objects a page shows, and how a compound object that has just been
    created shows up in them. */
module CatalogueListings {
  import opened Options
  import opened Text
  import opened Integers
  import opened Lists
  import opened Order
  import opened Paths
  import opened Avus
  import opened Catalogues
  import opened Spaces
  import opened Rows
  import opened Selections
  import opened Snapshots
  import opened Identities
  import opened Objects
  import opened Compounds
  import opened Retries
  import opened CreatedManifests
  import Listing

  // ---------------------------------------------------------------- a listing of a given catalogue

  /** The place asked for: below the collection, or directly in it. */
  ghost predicate IsPlaced(p: Path, collection: Path, recursive: bool) {
    p != "/" && if recursive then Descends(collection, p) else Parent(p) == collection
  }

  /** A row tells of an entry with its DRS triples, and maybe others. */
  ghost predicate RowHolds(row: Listing.PathRow, sp: Space<Path>, m: Metas<Path>) {
    && row.path != "/" && row.path in m && row.isDir == sp.isDir(row.path)
    && Distinct(row.avus) && DrsOnly(row.avus) == DrsOnly(m[row.path])
  }

  ghost predicate HasRow(rows: seq<Listing.PathRow>, q: Path) {
    exists row :: row in rows && row.path == q
  }

  /** The querier answers a listing from the catalogue. */
  ghost predicate ListsFrom(rows: Listing.Kind -> seq<Listing.PathRow>, sp: Space<Path>, m: Metas<Path>,
                            collection: Path, recursive: bool, scope: Listing.Scope)
  {
    && EachOnce(Listing.AllRows(rows, scope))
    && (forall row :: row in Listing.AllRows(rows, scope) ==> RowHolds(row, sp, m))
    && (forall q :: q in m && IsPlaced(q, collection, recursive) && Tag(m[q]) != "" && InScope(scope, sp.isDir(q)) ==>
          HasRow(Listing.AllRows(rows, scope), q))
  }

  /** The object that stands for a tagged path. */
  ghost function ObjectAt(sp: Space<Path>, m: Metas<Path>, p: Path): Listing.DrsObject
    requires p in m
  {
    Listing.DrsObject(p, sp.isDir(p), Apply(NoFields, m[p]))
  }

  /** A listing should show the path: it has an id, lies where it was asked for, and is of the kind asked
      for; a collection must be a compound object. */
  ghost predicate ShouldList(sp: Space<Path>, m: Metas<Path>, collection: Path, recursive: bool, scope: Listing.Scope,
                             p: Path)
  {
    && p in m && IsPlaced(p, collection, recursive) && Tag(m[p]) != ""
    && if sp.isDir(p) then scope != Listing.Objects && HasCompoundMarker(m[p]) else scope != Listing.Compound
  }

  lemma {:induction false} MarkerIsDrs(s: seq<Avu>)
    ensures HasCompoundMarker(DrsOnly(s)) <==> HasCompoundMarker(s)
  {
    var d := DrsOnly(s);
    if HasCompoundMarker(s) {
      var i :| 0 <= i < |s| && Carries(s[i], COMPOUND_MANIFEST);
      FilterMembers(IsDrsMetadata, s, s[i]);
      var j :| 0 <= j < |d| && d[j] == s[i];
    }
    if HasCompoundMarker(d) {
      var i :| 0 <= i < |d| && Carries(d[i], COMPOUND_MANIFEST);
      assert d[i] in d;
      FilterMembers(IsDrsMetadata, s, d[i]);
      var j :| 0 <= j < |s| && s[j] == d[i];
    }
  }

  /** The same DRS triples read as the same object. */
  lemma SameDrs(a: seq<Avu>, s: seq<Avu>)
    requires DrsOnly(a) == DrsOnly(s)
    ensures Ids(a) == Ids(s) && Tag(a) == Tag(s) && Apply(NoFields, a) == Apply(NoFields, s)
    ensures HasCompoundMarker(a) <==> HasCompoundMarker(s)
  {
    FilterTwice(IsId, IsDrsMetadata, a);
    FilterTwice(IsId, IsDrsMetadata, s);
    IdIsFirstId(a);
    IdIsFirstId(s);
    ApplySkipsOthers(NoFields, a);
    ApplySkipsOthers(NoFields, s);
    MarkerIsDrs(a);
    MarkerIsDrs(s);
  }

  lemma RowTags(row: Listing.PathRow, sp: Space<Path>, m: Metas<Path>)
    requires RowHolds(row, sp, m) && Lone(m[row.path])
    ensures Listing.HasAnyId(row.avus) <==> Tag(m[row.path]) != ""
    ensures Listing.HasAnyId(row.avus) ==> Listing.SinglyTagged(row.avus)
    ensures Apply(NoFields, row.avus) == Apply(NoFields, m[row.path])
    ensures HasCompoundMarker(row.avus) <==> HasCompoundMarker(m[row.path])
  {
    SameDrs(row.avus, m[row.path]);
    LoneTagged(row.avus);
    IdIsFirstId(row.avus);
  }

  lemma PlacedIff(p: Path, collection: Path, recursive: bool)
    requires p != "/"
    ensures Listing.WithinScope(p, collection, recursive) <==> IsPlaced(p, collection, recursive)
  {
    Listing.ScopeIsDescent(p, collection, recursive);
  }

  /** A full scan lists exactly the catalogue's objects in place and scope, each as its triples read. */
  lemma ListingOfCatalogue(rows: Listing.Kind -> seq<Listing.PathRow>, sp: Space<Path>, m: Metas<Path>,
                           collection: Path, recursive: bool, scope: Listing.Scope, o: Listing.DrsObject)
    requires ListsFrom(rows, sp, m, collection, recursive, scope) && forall q :: q in m ==> Lone(m[q])
    ensures o in Listing.ObjectsOf(Listing.FullScan(rows, collection, recursive, scope), scope) <==>
              ShouldList(sp, m, collection, recursive, scope, o.path) && o == ObjectAt(sp, m, o.path)
  {
    var all := Listing.AllRows(rows, scope);
    if o in Listing.ObjectsOf(Listing.FullScan(rows, collection, recursive, scope), scope) {
      Listing.ListedWasFound(rows, collection, recursive, scope, o);
      var row :| row in all && row.path == o.path && Listing.WithinScope(row.path, collection, recursive)
                 && Listing.HasAnyId(row.avus);
      RowDecides(rows, sp, m, collection, recursive, scope, row, o);
    } else if ShouldList(sp, m, collection, recursive, scope, o.path) {
      assert HasRow(all, o.path);
      var row :| row in all && row.path == o.path;
      RowDecides(rows, sp, m, collection, recursive, scope, row, o);
    }
  }

  lemma RowDecides(rows: Listing.Kind -> seq<Listing.PathRow>, sp: Space<Path>, m: Metas<Path>, collection: Path,
                   recursive: bool, scope: Listing.Scope, row: Listing.PathRow, o: Listing.DrsObject)
    requires ListsFrom(rows, sp, m, collection, recursive, scope) && forall q :: q in m ==> Lone(m[q])
    requires row in Listing.AllRows(rows, scope) && o.path == row.path
    requires IsPlaced(row.path, collection, recursive) || Listing.WithinScope(row.path, collection, recursive)
    requires row.path in m && (Listing.HasAnyId(row.avus) || Tag(m[row.path]) != "")
    ensures o in Listing.ObjectsOf(Listing.FullScan(rows, collection, recursive, scope), scope) <==>
              ShouldList(sp, m, collection, recursive, scope, o.path) && o == ObjectAt(sp, m, o.path)
  {
    assert RowHolds(row, sp, m);
    PlacedIff(row.path, collection, recursive);
    RowTags(row, sp, m);
    Listing.RowListedIff(rows, collection, recursive, scope, row, o);
  }

  /** A list of objects in path order that holds exactly what should be listed. */
  ghost predicate IsListing(objects: seq<Listing.DrsObject>, sp: Space<Path>, m: Metas<Path>, collection: Path,
                            recursive: bool, scope: Listing.Scope)
  {
    && Ascending(Listing.PathLess(), objects)
    && forall o :: o in objects <==>
         ShouldList(sp, m, collection, recursive, scope, o.path) && o == ObjectAt(sp, m, o.path)
  }

  /** A page of a catalogue: cut, at offset and limit, from the sorted list of exactly the objects that
      should be listed. */
  method ListPageOfCatalogue(q: Listing.Querier, ghost rows: Listing.Kind -> seq<Listing.PathRow>,
                             ghost sp: Space<Path>, ghost m: Metas<Path>, collection: Path, recursive: bool,
                             scope: Listing.Scope, offset: Int64, limit: Int64)
    returns (r: Listing.PageOutcome, ghost all: seq<Listing.DrsObject>)
    requires Listing.ServesAll(q, rows) && ListsFrom(rows, sp, m, collection, recursive, scope)
    requires (forall p :: p in m ==> Lone(m[p])) && offset >= 0 && limit > 0
    ensures IsListing(all, sp, m, collection, recursive, scope)
    ensures r == Listing.Paged(Listing.Window(all, offset, limit, false), Some(|all|))
  {
    all := Listing.ObjectsOf(Listing.FullScan(rows, collection, recursive, scope), scope);
    forall o ensures o in all <==>
                       ShouldList(sp, m, collection, recursive, scope, o.path) && o == ObjectAt(sp, m, o.path)
    {
      ListingOfCatalogue(rows, sp, m, collection, recursive, scope, o);
    }
    Listing.ObjectsAscend(Listing.FullScan(rows, collection, recursive, scope), scope);
    r := Listing.ListPage(q, rows, collection, recursive, scope, offset, limit);
  }

  // ---------------------------------------------------------------- a compound object just created

  lemma MarkedRootReads(s: seq<Avu>, id: string)
    requires id != "" && Trimmed(id) && Lone(MarkedRoot(s, id))
    ensures var t := MarkedRoot(s, id);
      && Tag(t) == id && HasCompoundMarker(t)
      && Apply(NoFields, t).id == id && Apply(NoFields, t).isManifest
  {
    var t, a, b := MarkedRoot(s, id), Avu(ID, id, DRS_UNIT), Avu(COMPOUND_MANIFEST, "true", DRS_UNIT);
    UnitIsDrs(a);
    UnitIsDrs(b);
    assert t[|t| - 2] == a && t[|t| - 1] == b;
    FilterMembers(IsId, t, a);
    assert a in Ids(t) && Ids(t) == [a];
    IdIsFirstId(t);
    TrimSpaceFixed(id);
    LoneIdNames(t);
    ApplyMarks(NoFields, t);
  }

  /** A collection made compound is listed, wherever it is asked for, as a manifest under the id returned. */
  method CreateThenList(c: Catalogue<Path>, derived: Derived<Path>, sp: Space<Path>, rules: Rules<Path>)
    returns (r: Outcome<Path>)
    requires c.Valid() && Kept(c) && WellFormed(sp)
    requires forall q :: q in Subtree(sp, rules.root) ==> q in c.metas
    modifies c
    ensures r.Finished? && r.nodeErrors == [] ==>
              forall rows, collection, recursive, scope ::
                ListsFrom(rows, sp, c.metas, collection, recursive, scope)
                && IsPlaced(rules.root, collection, recursive) && scope != Listing.Objects ==>
                  ListsRoot(rows, sp, c.metas, collection, recursive, scope, rules.root, r.id)
    ensures c.failures == old(c.failures) ==>
              (r.Finished? && r.nodeErrors == [] <==>
                 old(MayStart(c, sp, rules.root) && AcceptsAll(derived, c.metas, c.spelling, Chosen(sp, rules))))
  {
    KeptIsLone(c, sp, rules);
    r := CreateCompound(c, derived, sp, rules);
    if r.Finished? && r.nodeErrors == [] {
      MarkedRootReads(old(c.metas[rules.root]), r.id);
      forall rows: Listing.Kind -> seq<Listing.PathRow>, collection: Path, recursive: bool, scope: Listing.Scope
        | ListsFrom(rows, sp, c.metas, collection, recursive, scope)
          && IsPlaced(rules.root, collection, recursive) && scope != Listing.Objects
        ensures ListsRoot(rows, sp, c.metas, collection, recursive, scope, rules.root, r.id)
      {
        ListingOfCatalogue(rows, sp, c.metas, collection, recursive, scope, ObjectAt(sp, c.metas, rules.root));
      }
    }
  }

  ghost predicate ListsRoot(rows: Listing.Kind -> seq<Listing.PathRow>, sp: Space<Path>, m: Metas<Path>,
                            collection: Path, recursive: bool, scope: Listing.Scope, root: Path, id: string)
  {
    && root in m
    && var o := ObjectAt(sp, m, root);
      && o in Listing.ObjectsOf(Listing.FullScan(rows, collection, recursive, scope), scope)
      && o.isDir && o.fields.id == id && o.fields.isManifest
  }
}
