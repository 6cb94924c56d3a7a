/** Finding a DRS object by its id: a cursor loop that stops at the second match. The key type is left
    generic. */
module Lookup {
  import opened Text
  import opened Lists
  import opened Avus
  import opened Catalogues
  import opened Rows
  import opened Scans
  import opened Identities
  import opened Objects

  datatype LookupResult<K> = IdRequired | SearchFailed | CursorLost | NotFoundById | Ambiguous | FoundAt(path: K)

  /** `hasMatchingDrsIDMatchedAVU` on one row. */
  function Matching<K>(id: string): Row<K> -> bool {
    (row: Row<K>) => HasMatchingId(row.avus, id)
  }

  /** The answer that the number of matching entries calls for. */
  function Decide<K>(matches: seq<Row<K>>): LookupResult<K> {
    if matches == [] then NotFoundById
    else if |matches| == 1 then FoundAt(matches[0].path)
    else Ambiguous
  }

  lemma DecideByPrefix<K>(id: string, some: seq<Row<K>>, all: seq<Row<K>>)
    requires some <= all
    ensures |Filter(Matching(id), some)| > 1 ==> Decide(Filter(Matching(id), all)) == Ambiguous
  {
    FilterPrefix(Matching(id), all, |some|);
    assert all[..|some|] == some;
  }

  /** One page of the loop. */
  method AddMatches<K>(id: string, matches: seq<Row<K>>, rows: seq<Row<K>>) returns (r: seq<Row<K>>)
    ensures r == matches + Filter(Matching(id), rows)
  {
    r := matches;
    for i := 0 to |rows|
      invariant r == matches + Filter(Matching(id), rows[..i])
    {
      assert rows[..i + 1] == rows[..i] + [rows[i]];
      FilterAppend(Matching(id), rows[..i], [rows[i]]);
      if HasMatchingId(rows[i].avus, id) {
        r := r + [rows[i]];
      }
    }
    assert rows[..|rows|] == rows;
  }

  /** The search of `GetDrsObjectByID`: though it stops at the second match, it answers as the matching
      entries of all pages call for, however the pages are cut. */
  method FindById<K>(pages: seq<Reply<K>>, drsID: string, ghost rows: seq<Row<K>>) returns (r: LookupResult<K>)
    ensures TrimSpace(drsID) == "" ==> r.IdRequired?
    ensures TrimSpace(drsID) != "" && Serves(pages, rows) ==> r == Decide(Filter(Matching(TrimSpace(drsID)), rows))
  {
    var id := TrimSpace(drsID);
    if id == "" {
      return IdRequired;
    }
    var matches: seq<Row<K>> := [];
    var cursor := 0;
    while true
      invariant cursor <= |pages|
      invariant cursor > 0 ==> pages[cursor - 1].Replied? && pages[cursor - 1].page.more
      invariant matches == Filter(Matching(id), RowsOf(pages[..cursor]))
      decreases |pages| - cursor
    {
      if Serves(pages, rows) {
        PageFacts(pages, rows, cursor);
      }
      var reply := Query(pages, cursor);
      if reply.QueryFailed? {
        return SearchFailed;
      }
      var page := reply.page;
      FilterAppend(Matching(id), RowsOf(pages[..cursor]), page.rows);
      RowsOfStep(pages, cursor);
      RowsOfPrefix(pages, cursor + 1);
      matches := AddMatches(id, matches, page.rows);
      if |matches| > 1 || !page.more {
        if Serves(pages, rows) {
          DecideByPrefix(id, RowsOf(pages[..cursor + 1]), rows);
        }
        break;
      }
      if !page.next {
        return CursorLost;
      }
      cursor := cursor + 1;
    }
    r := Decide(matches);
  }

  lemma PageFacts<K>(pages: seq<Reply<K>>, rows: seq<Row<K>>, cursor: nat)
    requires Serves(pages, rows) && cursor <= |pages|
    requires cursor > 0 ==> pages[cursor - 1].Replied? && pages[cursor - 1].page.more
    ensures cursor < |pages| && Truthful(pages[cursor], cursor < |pages| - 1)
    ensures !pages[cursor].page.more ==> RowsOf(pages[..cursor + 1]) == rows
  {
    if cursor > 0 {
      assert Truthful(pages[cursor - 1], cursor - 1 < |pages| - 1);
    }
    assert Truthful(pages[cursor], cursor < |pages| - 1);
    assert pages[..|pages|] == pages;
  }

  // ---------------------------------------------------------------- lookup against a catalogue

  /** The triples the id query matches: the name and the value, in any unit. */
  function ById(id: string): Avu -> bool {
    (a: Avu) => a.name == ID && a.value == id
  }

  /** The querier answers the id query from the catalogue. */
  ghost predicate AnswersIdQuery<K(!new)>(rows: seq<Row<K>>, m: Metas<K>, id: string) {
    && EachOnce(rows)
    && (forall i :: 0 <= i < |rows| ==> rows[i].path in m && rows[i].avus == Filter(ById(id), m[rows[i].path]))
    && (forall p :: p in m && Filter(ById(id), m[p]) != [] ==> exists i :: 0 <= i < |rows| && rows[i].path == p)
  }

  /** A path carries the id if a DRS triple spells it out. */
  ghost predicate CarriesId(s: seq<Avu>, id: string) {
    exists i :: 0 <= i < |s| && IsId(s[i]) && s[i].value == id
  }

  lemma MatchingIff(s: seq<Avu>, id: string)
    requires TrimSpace(id) == id
    ensures HasMatchingId(Filter(ById(id), s), id) <==> CarriesId(s, id)
  {
    var f := Filter(ById(id), s);
    if HasMatchingId(f, id) {
      var i :| 0 <= i < |f| && IsId(f[i]) && TrimSpace(f[i].value) == id;
      assert f[i] in f;
      FilterMembers(ById(id), s, f[i]);
      var j :| 0 <= j < |s| && s[j] == f[i];
      assert IsId(s[j]) && s[j].value == id;
    }
    if CarriesId(s, id) {
      var i :| 0 <= i < |s| && IsId(s[i]) && s[i].value == id;
      FilterMembers(ById(id), s, s[i]);
      assert ById(id)(s[i]) && s[i] in f;
      var j :| 0 <= j < |f| && f[j] == s[i];
      assert IsId(f[j]) && TrimSpace(f[j].value) == id;
    }
  }

  /** The matching entries are those that carry the id, each once. */
  lemma MatchesExact<K(!new)>(rows: seq<Row<K>>, m: Metas<K>, id: string)
    requires AnswersIdQuery(rows, m, id) && TrimSpace(id) == id
    ensures var matches := PathsOfRows(Filter(Matching(id), rows));
      Distinct(matches) && forall p :: p in matches <==> p in m && CarriesId(m[p], id)
  {
    var f := Filter(Matching(id), rows);
    var matches := PathsOfRows(f);
    EachOnceFilter(Matching(id), rows);
    forall p ensures p in matches <==> p in m && CarriesId(m[p], id) {
      if p in matches {
        var i :| 0 <= i < |f| && f[i].path == p;
        assert f[i] in f;
        FilterMembers(Matching(id), rows, f[i]);
        MatchingIff(m[p], id);
      }
      if p in m && CarriesId(m[p], id) {
        MatchingIff(m[p], id);
        assert Filter(ById(id), m[p]) != [];
        var i :| 0 <= i < |rows| && rows[i].path == p;
        FilterMembers(Matching(id), rows, rows[i]);
        var j :| 0 <= j < |f| && f[j] == rows[i];
        assert matches[j] == p;
      }
    }
  }

  /** What the answer tells of the catalogue: that one path alone carries the id, that none does, or that
      more than one do. */
  lemma AnswerTells<K(!new)>(rows: seq<Row<K>>, m: Metas<K>, id: string)
    requires AnswersIdQuery(rows, m, id) && TrimSpace(id) == id
    ensures match Decide(Filter(Matching(id), rows))
            case FoundAt(p) => p in m && CarriesId(m[p], id) && forall q :: q in m && CarriesId(m[q], id) ==> q == p
            case NotFoundById => forall q :: q in m ==> !CarriesId(m[q], id)
            case Ambiguous =>
              exists p, q :: p in m && q in m && p != q && CarriesId(m[p], id) && CarriesId(m[q], id)
            case _ => false
  {
    MatchesExact(rows, m, id);
    var f := Filter(Matching(id), rows);
    var matches := PathsOfRows(f);
    assert |matches| == |f|;
    if |f| == 1 {
      assert matches[0] == f[0].path;
    } else if |f| > 1 {
      assert matches[0] in matches && matches[1] in matches;
    }
  }

  lemma EachOnceFilter<K>(keep: Row<K> -> bool, rows: seq<Row<K>>)
    requires EachOnce(rows)
    ensures EachOnce(Filter(keep, rows))
  {
    var f := Filter(keep, rows);
    if rows != [] {
      assert PathsOfRows(rows[1..]) == PathsOfRows(rows)[1..];
      EachOnceFilter(keep, rows[1..]);
      if keep(rows[0]) {
        var g := Filter(keep, rows[1..]);
        forall j | 0 <= j < |g| ensures g[j].path != rows[0].path {
          assert g[j] in g;
          FilterMembers(keep, rows[1..], g[j]);
          var i :| 0 <= i < |rows[1..]| && rows[1..][i] == g[j];
          assert PathsOfRows(rows)[i + 1] != PathsOfRows(rows)[0];
        }
        assert PathsOfRows(f) == [rows[0].path] + PathsOfRows(g);
      }
    }
  }

  lemma CarriedIsTag(s: seq<Avu>, id: string)
    requires Lone(s) && CarriesId(s, id) && TrimSpace(id) == id
    ensures Tag(s) == id
  {
    var i :| 0 <= i < |s| && IsId(s[i]) && s[i].value == id;
    FilterMembers(IsId, s, s[i]);
    assert Ids(s) == [s[i]];
    IdIsFirstId(s);
  }

  /** In a catalogue that keeps its ids in order, looking up an id that a path carries finds that path. */
  lemma CarriedResolves<K(!new)>(original: Metas<K>, m: Metas<K>, guid: nat -> string, spelling: K -> string,
                                 issued: nat, rows: seq<Row<K>>, p: K, id: string)
    requires Sound(original, m, guid, spelling, issued) && AnswersIdQuery(rows, m, id)
    requires id != "" && TrimSpace(id) == id && p in m && CarriesId(m[p], id)
    ensures Decide(Filter(Matching(id), rows)) == FoundAt(p)
  {
    MatchesExact(rows, m, id);
    var f := Filter(Matching(id), rows);
    var matches := PathsOfRows(f);
    CarriedIsTag(m[p], id);
    forall q | q in matches ensures q == p {
      CarriedIsTag(m[q], id);
    }
    OnlyOne(matches, p);
    assert f[0].path == matches[0];
  }

  // ---------------------------------------------------------------- the object behind an id

  datatype Retrieval<K> = NotRetrieved(search: LookupResult<K>) | RetrievalFailed | Retrieved(path: K, fields: Fields)

  /** `internalDrsObjectFromEntry`: what the triples leave open is taken from the entry. */
  function Hydrated(m: seq<Avu>, spelling: string, checksum: string): Fields {
    var f := Apply(NoFields, m);
    f.(id := if f.id == "" then spelling else f.id, version := if f.version == "" then checksum else f.version)
  }

  /** `statEntry` and `drsObjectFromEntry`. A manifest's checksum is one more call that may fail. */
  method Retrieve<K(==,!new)>(c: Catalogue<K>, checksum: K -> string, p: K) returns (r: Retrieval<K>)
    modifies c`failures
    ensures c.failures >= old(c.failures) && !r.NotRetrieved?
    ensures r.Retrieved? ==> p in c.metas && r == Retrieved(p, Hydrated(c.metas[p], c.spelling(p), checksum(p)))
    ensures c.failures == old(c.failures) ==> (r.Retrieved? <==> p in c.metas && Resolves(c.metas[p], c.spelling(p)))
  {
    r := RetrievalFailed;
    var ok := c.Attempt();
    if !ok {
      return;
    }
    var listing := c.ListMetadata(p);
    if !listing.Got? {
      return;
    }
    ok := c.Attempt();
    if ok && Resolves(listing.value, c.spelling(p)) {
      if Apply(NoFields, listing.value).isManifest {
        ok := c.Attempt();
      }
      if ok {
        r := Retrieved(p, Hydrated(listing.value, c.spelling(p), checksum(p)));
      }
    }
  }

  /** Whatever its triples, an object is found at its path exactly if its last id is not blank or some id triple
      spells the path; it goes by that id, or by the path. Its version is the last one, or the checksum. */
  lemma ReadUnder(m: seq<Avu>, spelling: string, checksum: string)
    ensures var last := LastId(m, "");
      && (Resolves(m, spelling) <==> last != "" || HasMatchingId(m, spelling))
      && Hydrated(m, spelling, checksum).id == if last != "" then last else spelling
    ensures var last := LastBy(Carrying(VERSION), TrimmedValue, m, "");
      Hydrated(m, spelling, checksum).version == if last != "" then last else checksum
  {
    ApplyNamesLastId(NoFields, m);
    ApplyTakesLast(NoFields, m, VERSION);
    if LastId(m, "") != "" {
      LastIdMatches(m);
    }
  }

  /** `GetDrsObjectByID`. */
  method GetObjectById<K(==,!new)>(c: Catalogue<K>, checksum: K -> string, pages: seq<Reply<K>>, drsID: string,
                                   ghost rows: seq<Row<K>>)
    returns (r: Retrieval<K>)
    modifies c`failures
    ensures c.failures >= old(c.failures)
    ensures TrimSpace(drsID) != "" && Serves(pages, rows) ==>
              var d := Decide(Filter(Matching(TrimSpace(drsID)), rows));
              if d.FoundAt? then
                && !r.NotRetrieved?
                && (r.Retrieved? ==>
                      d.path in c.metas
                      && r == Retrieved(d.path, Hydrated(c.metas[d.path], c.spelling(d.path), checksum(d.path))))
                && (c.failures == old(c.failures) ==>
                      (r.Retrieved? <==> d.path in c.metas && Resolves(c.metas[d.path], c.spelling(d.path))))
              else r == NotRetrieved(d)
  {
    var found := FindById(pages, drsID, rows);
    if !found.FoundAt? {
      return NotRetrieved(found);
    }
    r := Retrieve(c, checksum, found.path);
  }

  lemma CarriedIsRead(m: seq<Avu>, spelling: string, checksum: string, id: string)
    requires Lone(m) && CarriesId(m, id) && TrimSpace(id) == id && id != "" && Tag(m) != spelling
    ensures Resolves(m, spelling) && Hydrated(m, spelling, checksum).id == id
  {
    CarriedIsTag(m, id);
    ResolvesIff(m, spelling);
    LoneIdNames(m);
  }

  /** An id that a path carries, looked up: nothing failing, it resolves to that path, under that id. */
  method FindCarried<K(==,!new)>(c: Catalogue<K>, checksum: K -> string, pages: seq<Reply<K>>, drsID: string,
                                 ghost p: K, ghost rows: seq<Row<K>>)
    returns (r: Retrieval<K>)
    requires Kept(c) && Serves(pages, rows) && AnswersIdQuery(rows, c.metas, drsID)
    requires drsID != "" && Trimmed(drsID) && p in c.metas && CarriesId(c.metas[p], drsID)
    modifies c`failures
    ensures c.failures >= old(c.failures)
    ensures !r.NotRetrieved? && (r.Retrieved? ==> r.path == p && r.fields.id == drsID)
    ensures r.Retrieved? ==> r.fields == Hydrated(c.metas[p], c.spelling(p), checksum(p))
    ensures c.failures == old(c.failures) ==> r.Retrieved?
  {
    TrimSpaceFixed(drsID);
    CarriedResolves(c.original, c.metas, c.guid, c.spelling, c.issued, rows, p, drsID);
    CarriedIsRead(c.metas[p], c.spelling(p), checksum(p), drsID);
    r := GetObjectById(c, checksum, pages, drsID, rows);
  }

  /** Creation as a lookup sees it: what is left in the catalogue carries the new id. */
  method CreateCarried<K(==,!new)>(c: Catalogue<K>, env: Derived<K>, p: K, mimeType: string, description: string,
                                   aliases: seq<string>)
    returns (created: Creation)
    requires c.Valid() && Kept(c) && p in c.metas
    modifies c
    ensures Kept(c) && c.failures >= old(c.failures)
    ensures created.Created? ==>
              ReadsCreated(env, p, mimeType, description, aliases, created.id, old(c.metas)[p], c.metas[p])
    ensures created.Created? ==>
              && c.metas == old(AfterCreation(c, env, p, mimeType, description, aliases))
              && created.id == c.guid(old(c.issued)) && created.id != "" && Trimmed(created.id)
              && CarriesId(c.metas[p], created.id)
    ensures c.failures == old(c.failures) ==>
              (created.Created? <==> old(MayCreateAs(c, env, p, mimeType, description, aliases)))
  {
    ghost var s := c.metas[p];
    created := CreateDrsObject(c, env, p, mimeType, description, aliases);
    if created.Created? {
      PrintedCarriesId(NewFields(env, p, mimeType, description, aliases, created.id), s);
      OnlyAtIs(c.metas, old(c.metas), p);
    }
  }

  lemma OnlyAtIs<K(!new)>(m: Metas<K>, base: Metas<K>, p: K)
    requires OnlyAt(m, base, p)
    ensures m == base[p := m[p]]
  {
  }

  /** The object is not one yet, and none of the triples to be written is there or comes twice. */
  ghost predicate MayCreateAs<K(!new)>(c: Catalogue<K>, env: Derived<K>, p: K, mimeType: string, description: string,
                                       aliases: seq<string>)
    requires p in c.metas
    reads c
  {
    && c.spelling(p) != "/" && !AlreadyDrs(c.metas[p], c.spelling(p))
    && Distinct(c.metas[p] + Printed(env, p, mimeType, description, aliases, c.guid(c.issued)))
  }

  /** Creation, and then the id it returned looked up. Nothing failing, creation succeeds exactly for an
      object that is not one yet, if all its triples are new; and what the id resolves to is the object
      it was created on, under that id. */
  method CreateThenFind<K(==,!new)>(c: Catalogue<K>, env: Derived<K>, p: K, mimeType: string, description: string,
                                    aliases: seq<string>, checksum: K -> string, pages: seq<Reply<K>>,
                                    ghost rows: seq<Row<K>>)
    returns (created: Creation, r: Retrieval<K>)
    requires c.Valid() && Kept(c) && p in c.metas && Serves(pages, rows)
    requires AnswersIdQuery(rows, AfterCreation(c, env, p, mimeType, description, aliases), c.guid(c.issued))
    modifies c
    ensures created.Created? ==> !r.NotRetrieved? && (r.Retrieved? ==> r.path == p && r.fields.id == created.id)
    ensures created.Created? && r.Retrieved? ==>
              FoundAs(env, p, mimeType, description, aliases, created.id, old(c.metas)[p], checksum(p), r.fields)
    ensures c.failures == old(c.failures) ==>
              && (created.Created? <==> old(MayCreateAs(c, env, p, mimeType, description, aliases)))
              && (created.Created? <==> r.Retrieved?)
  {
    created := CreateCarried(c, env, p, mimeType, description, aliases);
    r := RetrievalFailed;
    if created.Created? {
      r := FindCarried(c, checksum, pages, created.id, p, rows);
      HydratedIsFound(env, p, mimeType, description, aliases, created.id, old(c.metas)[p], c.metas[p], c.spelling(p),
                      checksum(p));
    }
  }

  /** What a client that looks up a new object is told: what creation was asked for, and as the version
      the checksum of the object where none was derived. */
  ghost predicate FoundAs<K>(env: Derived<K>, p: K, mimeType: string, description: string, aliases: seq<string>,
                             id: string, s: seq<Avu>, checksum: string, f: Fields)
  {
    var o := Apply(NoFields, s);
    var version := if env.checksum(p) == "" then o.version else TrimSpace(env.checksum(p));
    && f.id == id
    && f.version == (if version == "" then checksum else version)
    && f.mimeType == (if TrimSpace(mimeType) != "" then TrimSpace(mimeType)
                      else if env.mime(p) == "" then o.mimeType else TrimSpace(env.mime(p)))
    && f.description == (if TrimSpace(description) == "" then o.description else TrimSpace(description))
    && f.aliases == o.aliases + Filter(NotBlank(), MapSeq(Trim(), aliases))
    && f.isManifest == o.isManifest
  }

  lemma HydratedIsFound<K>(env: Derived<K>, p: K, mimeType: string, description: string, aliases: seq<string>,
                           id: string, s: seq<Avu>, t: seq<Avu>, spelling: string, checksum: string)
    requires id != "" && ReadsCreated(env, p, mimeType, description, aliases, id, s, t)
    ensures FoundAs(env, p, mimeType, description, aliases, id, s, checksum, Hydrated(t, spelling, checksum))
  {
  }

  /** The catalogue as a creation that succeeds leaves it. */
  ghost function AfterCreation<K(!new)>(c: Catalogue<K>, env: Derived<K>, p: K, mimeType: string, description: string,
                                        aliases: seq<string>): Metas<K>
    requires p in c.metas
    reads c
  {
    c.metas[p := c.metas[p] + Printed(env, p, mimeType, description, aliases, c.guid(c.issued))]
  }

  lemma PrintedCarriesId(o: Fields, s: seq<Avu>)
    ensures CarriesId(s + MetadataForObject(o), o.id)
  {
    PrintedIds(o);
    UnitIsDrs(Avu(ID, o.id, DRS_UNIT));
    assert (s + MetadataForObject(o))[|s|] == Avu(ID, o.id, DRS_UNIT);
  }
}
