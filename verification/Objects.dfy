/** The operations on one DRS object: create, update a field, replace the aliases, remove; and the two
    writers that compound creation is built from. Every triple is one write that may fail. */
module Objects {
  import opened Options
  import opened Text
  import opened Lists
  import opened Avus
  import opened Catalogues
  import opened Identities

  /** What the code derives from a data object rather than from its metadata: a MIME type from its
      name, never white space alone, and a checksum in normal form; "" when there is none. */
  datatype Derived<!K> = Derived(mime: K -> string, checksum: K -> string)

  function NewFields<K>(env: Derived<K>, p: K, mimeType: string, description: string, aliases: seq<string>,
                        id: string): Fields {
    Fields(id, env.checksum(p), if TrimSpace(mimeType) != "" then TrimSpace(mimeType) else env.mime(p),
           TrimSpace(description), NormalizedAliases(aliases), false)
  }

  function Printed<K>(env: Derived<K>, p: K, mimeType: string, description: string, aliases: seq<string>,
                      id: string): seq<Avu>
  {
    MetadataForObject(NewFields(env, p, mimeType, description, aliases, id))
  }

  /** The guard of creation: the object is named by something other than its path, or is a manifest. */
  predicate AlreadyDrs(m: seq<Avu>, spelling: string) {
    var f := Apply(NoFields, m);
    (f.id != "" && f.id != spelling) || f.isManifest
  }

  lemma LoneIdNames(m: seq<Avu>)
    requires Lone(m)
    ensures Apply(NoFields, m).id == Tag(m)
  {
    ApplyNamesLastId(NoFields, m);
    LastByOnly(IsId, TrimmedValue, m, "");
    IdIsFirstId(m);
  }

  /** With one id at most, the guard of creation lets through exactly what has no id and no marker. */
  lemma AlreadyDrsIff(m: seq<Avu>, spelling: string)
    requires Lone(m) && Tag(m) != spelling
    ensures AlreadyDrs(m, spelling) <==> Tag(m) != "" || HasCompoundMarker(m)
  {
    LoneIdNames(m);
    ApplyMarks(NoFields, m);
  }

  // ---------------------------------------------------------------- printed triples

  predicate AllDrs(m: seq<Avu>) {
    forall i :: 0 <= i < |m| ==> IsDrsMetadata(m[i])
  }

  lemma PrintedAreDrs(o: Fields)
    ensures AllDrs(MetadataForObject(o))
  {
    assert AllDrs(PrintedScalars(o)) && AllDrs(AliasAvus(NormalizedAliases(o.aliases))) && AllDrs(PrintedMarker(o));
  }

  lemma ScalarIds(o: Fields)
    ensures Ids(PrintedScalars(o)) == [Avu(ID, o.id, DRS_UNIT)]
  {
    var m := PrintedScalars(o);
    var id := Avu(ID, o.id, DRS_UNIT);
    UnitIsDrs(id);
    assert m == [id] + m[1..];
    FilterNone(IsId, m[1..]);
    FilterCons(IsId, id, m[1..]);
  }

  /** The id is printed first, and printed once. */
  lemma PrintedIds(o: Fields)
    ensures MetadataForObject(o) != [] && MetadataForObject(o)[0] == Avu(ID, o.id, DRS_UNIT)
    ensures Ids(MetadataForObject(o)) == [Avu(ID, o.id, DRS_UNIT)]
  {
    var a, b, c := PrintedScalars(o), AliasAvus(NormalizedAliases(o.aliases)), PrintedMarker(o);
    ScalarIds(o);
    FilterNone(IsId, b);
    FilterNone(IsId, c);
    FilterAppend(IsId, a, b);
    FilterAppend(IsId, a + b, c);
  }

  lemma AliasAvusDistinct(aliases: seq<string>)
    ensures Distinct(AliasAvus(aliases)) <==> Distinct(aliases)
  {
    var m := AliasAvus(aliases);
    forall i, j | 0 <= i < j < |m| ensures m[i] == m[j] <==> aliases[i] == aliases[j] {
    }
    if Distinct(m) {
      forall i, j | 0 <= i < j < |aliases| ensures aliases[i] != aliases[j] {
        assert m[i] != m[j];
      }
    }
  }

  lemma ScalarsDistinct(o: Fields)
    ensures Distinct(PrintedScalars(o))
    ensures forall i :: 0 <= i < |PrintedScalars(o)| ==>
              !PrintedScalars(o)[i].name.ALIAS? && !PrintedScalars(o)[i].name.COMPOUND_MANIFEST?
  {
  }

  lemma PartsDistinct(scalars: seq<Avu>, aliases: seq<Avu>, marker: seq<Avu>)
    requires Distinct(scalars) && |marker| <= 1
    requires forall i :: 0 <= i < |scalars| ==> !scalars[i].name.ALIAS? && !scalars[i].name.COMPOUND_MANIFEST?
    requires forall i :: 0 <= i < |aliases| ==> aliases[i].name.ALIAS?
    requires forall i :: 0 <= i < |marker| ==> marker[i].name.COMPOUND_MANIFEST?
    ensures Distinct(scalars + aliases + marker) <==> Distinct(aliases)
  {
    DistinctAppend(scalars, aliases);
    DistinctAppend(scalars + aliases, marker);
  }

  /** Only a repeated alias prints a triple twice. */
  lemma PrintedDistinct(o: Fields)
    ensures Distinct(MetadataForObject(o)) <==> Distinct(NormalizedAliases(o.aliases))
  {
    ScalarsDistinct(o);
    AliasAvusDistinct(NormalizedAliases(o.aliases));
    PartsDistinct(PrintedScalars(o), AliasAvus(NormalizedAliases(o.aliases)), PrintedMarker(o));
  }

  // ---------------------------------------------------------------- create

  datatype Creation = Created(id: string) | RefusedAsDrs | CreateFailed

  /** What creation relies on: `printed` renders an id as DRS triples, one of which is that id. */
  ghost predicate PrintsIds(printed: string -> seq<Avu>) {
    forall id :: id != "" && Trimmed(id) ==> AllDrs(printed(id)) && Ids(printed(id)) == [Avu(ID, id, DRS_UNIT)]
  }

  lemma CreatedLegit(s: seq<Avu>, avus: seq<Avu>, id: string)
    requires Lone(s) && Tag(s) == "" && id != "" && Trimmed(id)
    requires AllDrs(avus) && Ids(avus) == [Avu(ID, id, DRS_UNIT)]
    ensures forall t :: GrowsInto(s, avus, t) ==> Legit(s, t, id)
  {
    forall t | GrowsInto(s, avus, t) ensures Legit(s, t, id) {
      GrowthLegit(s, avus, t, id);
    }
  }

  /** The writing part of creation. */
  method WriteNewObject<K(==,!new)>(c: Catalogue<K>, p: K, s: seq<Avu>, avus: seq<Avu>, id: string, ghost before: nat)
    returns (ok: bool)
    requires c.Valid() && p in c.metas && c.metas[p] == s && c.issued == before + 1 && id == c.guid(before)
    modifies c`metas, c`failures, c`history
    ensures c.Valid() && c.failures >= old(c.failures)
    ensures OnlyAt(c.metas, old(c.metas), p) && GrowsInto(s, avus, c.metas[p])
    ensures Since(c.history, old(c.history), old(c.metas), p, Upto(s, c.metas[p]))
    ensures ok ==> c.metas[p] == s + avus
    ensures c.failures == old(c.failures) ==> (ok <==> Distinct(s + avus)) && AsFarAsNew(s, avus, c.metas[p])
    ensures (&& GoodSupply(c.guid, c.spelling) && Sound(c.original, old(c.metas), c.guid, c.spelling, before)
             && AllSound(c.original, old(c.history), c.guid, c.spelling, before)
             && AllDrs(avus) && Ids(avus) == [Avu(ID, id, DRS_UNIT)] && Tag(s) == "") ==> Kept(c)
  {
    ghost var base, h0 := c.metas, c.history;
    ok := c.AddAll(p, avus);
    if GoodSupply(c.guid, c.spelling) && Sound(c.original, base, c.guid, c.spelling, before)
       && AllSound(c.original, h0, c.guid, c.spelling, before)
       && AllDrs(avus) && Ids(avus) == [Avu(ID, id, DRS_UNIT)] && Tag(s) == "" {
      CreatedLegit(s, avus, id);
      NextIsAvailable(c.original, base, c.guid, c.spelling, before);
      StaysKept(c.original, h0, c.history, base, c.metas, p, Upto(s, c.metas[p]), c.guid, c.spelling, before,
                c.issued, id);
    }
  }

  lemma OneMoreIssued<K(!new)>(original: Metas<K>, metas: Metas<K>, history: seq<Metas<K>>, guid: nat -> string,
                               spelling: K -> string, issued: nat)
    requires Sound(original, metas, guid, spelling, issued) && AllSound(original, history, guid, spelling, issued)
    ensures Sound(original, metas, guid, spelling, issued + 1)
    ensures AllSound(original, history, guid, spelling, issued + 1)
  {
    forall i | 0 <= i < |history| ensures Sound(original, history[i], guid, spelling, issued + 1) {
      assert Sound(original, history[i], guid, spelling, issued);
    }
  }

  lemma IssueKeeps<K(!new)>(c: Catalogue<K>, before: nat)
    requires GoodSupply(c.guid, c.spelling) && c.issued == before + 1
    requires Sound(c.original, c.metas, c.guid, c.spelling, before)
    requires AllSound(c.original, c.history, c.guid, c.spelling, before)
    ensures Kept(c) && Available(c.metas, c.guid, c.spelling, c.issued, c.guid(before))
  {
    OneMoreIssued(c.original, c.metas, c.history, c.guid, c.spelling, before);
    NextIsAvailable(c.original, c.metas, c.guid, c.spelling, before);
  }

  /** The guards of creation, in the source's order: the path, a stat, the listing, the refusal. */
  method MayCreate<K(==,!new)>(c: Catalogue<K>, p: K) returns (r: Creation, s: seq<Avu>)
    modifies c`failures
    ensures c.failures >= old(c.failures)
    ensures r.Created? ==> p in c.metas && s == c.metas[p]
    ensures r.Created? ==> c.spelling(p) != "/" && !AlreadyDrs(s, c.spelling(p))
    ensures r.RefusedAsDrs? ==> p in c.metas && c.spelling(p) != "/" && AlreadyDrs(c.metas[p], c.spelling(p))
    ensures c.failures == old(c.failures) && p in c.metas ==>
              (r.Created? <==> c.spelling(p) != "/" && !AlreadyDrs(c.metas[p], c.spelling(p)))
  {
    r, s := CreateFailed, [];
    if c.spelling(p) == "/" {
      return;
    }
    var ok := c.Attempt();
    if !ok {
      return;
    }
    var listing := c.ListMetadata(p);
    if listing.Got? {
      s := listing.value;
      r := if AlreadyDrs(s, c.spelling(p)) then RefusedAsDrs else Created("");
    }
  }

  /** Creation, whatever triples it prints for the new id. */
  method CreateWith<K(==,!new)>(c: Catalogue<K>, p: K, printed: string -> seq<Avu>) returns (r: Creation)
    requires c.Valid()
    modifies c
    ensures c.Valid() && c.failures >= old(c.failures) && old(c.issued) <= c.issued <= old(c.issued) + 1
    ensures p !in old(c.metas) || c.spelling(p) == "/" ==>
              r.CreateFailed? && c.metas == old(c.metas) && c.history == old(c.history)
    ensures p in old(c.metas) ==>
              CreatedAsPrinted(c, p, r, printed(c.guid(old(c.issued))), old(c.metas), old(c.history), old(c.issued),
                               c.failures == old(c.failures))
    ensures old(Kept(c)) && PrintsIds(printed) ==> Kept(c)
  {
    var s;
    r, s := MayCreate(c, p);
    if !r.Created? {
      return;
    }
    r := CreateFailed;
    ghost var before := c.issued;
    var ok, id := c.NewGuid();
    if !ok {
      return;
    }
    ok := c.Attempt();
    if !ok {
      if old(Kept(c)) {
        IssueKeeps(c, before);
      }
      return;
    }
    if old(Kept(c)) {
      AlreadyDrsIff(s, c.spelling(p));
    }
    ok := WriteNewObject(c, p, s, printed(id), id, before);
    if ok {
      r := Created(id);
    }
  }

  /** How creation leaves the triples of its path. */
  ghost predicate CreatedAsPrinted<K(!new)>(c: Catalogue<K>, p: K, r: Creation, avus: seq<Avu>, metas: Metas<K>,
                                            history: seq<Metas<K>>, issued: nat, nothingFailed: bool)
    requires p in metas
    reads c
  {
    var s := metas[p];
    && OnlyAt(c.metas, metas, p) && GrowsInto(s, avus, c.metas[p])
    && Since(c.history, history, metas, p, Upto(s, c.metas[p]))
    && (r.Created? ==> !AlreadyDrs(s, c.spelling(p)) && r.id == c.guid(issued) && c.issued == issued + 1
                       && c.metas[p] == s + avus)
    && (r.RefusedAsDrs? ==> AlreadyDrs(s, c.spelling(p)))
    && (AlreadyDrs(s, c.spelling(p)) ==> !r.Created? && c.metas == metas && c.history == history)
    && (nothingFailed ==> (r.Created? <==> c.spelling(p) != "/" && !AlreadyDrs(s, c.spelling(p)) && Distinct(s + avus)))
    && (nothingFailed && c.spelling(p) != "/" && !AlreadyDrs(s, c.spelling(p)) ==> AsFarAsNew(s, avus, c.metas[p]))
  }

  lemma PrintedPrintsIds<K>(env: Derived<K>, p: K, mimeType: string, description: string, aliases: seq<string>)
    ensures PrintsIds(id => Printed(env, p, mimeType, description, aliases, id))
  {
    forall id: string | id != "" && Trimmed(id)
      ensures var m := Printed(env, p, mimeType, description, aliases, id);
        AllDrs(m) && Ids(m) == [Avu(ID, id, DRS_UNIT)]
    {
      PrintedAreDrs(NewFields(env, p, mimeType, description, aliases, id));
      PrintedIds(NewFields(env, p, mimeType, description, aliases, id));
    }
  }

  /** What creation leaves reads as what it was asked for: the new id, the object's checksum as version,
      the MIME type given or else derived, and the description and aliases given; what is blank leaves
      the field as it was. */
  ghost predicate ReadsCreated<K>(env: Derived<K>, p: K, mimeType: string, description: string, aliases: seq<string>,
                                  id: string, s: seq<Avu>, t: seq<Avu>)
  {
    var o, f := Apply(NoFields, s), Apply(NoFields, t);
    && f.id == id
    && f.version == (if env.checksum(p) == "" then o.version else TrimSpace(env.checksum(p)))
    && f.mimeType == (if TrimSpace(mimeType) != "" then TrimSpace(mimeType)
                      else if env.mime(p) == "" then o.mimeType else TrimSpace(env.mime(p)))
    && f.description == (if TrimSpace(description) == "" then o.description else TrimSpace(description))
    && f.aliases == o.aliases + Filter(NotBlank(), MapSeq(Trim(), aliases))
    && f.isManifest == o.isManifest
  }

  lemma TrimTwice(s: string)
    ensures TrimSpace(TrimSpace(s)) == TrimSpace(s)
  {
    TrimSpaceTrims(s);
    TrimSpaceFixed(TrimSpace(s));
  }

  lemma CreatedReadsBack<K>(env: Derived<K>, p: K, mimeType: string, description: string, aliases: seq<string>,
                            id: string, s: seq<Avu>)
    requires Trimmed(id)
    ensures ReadsCreated(env, p, mimeType, description, aliases, id, s,
                         s + Printed(env, p, mimeType, description, aliases, id))
  {
    var f := NewFields(env, p, mimeType, description, aliases, id);
    ApplyAppend(NoFields, s, MetadataForObject(f));
    PrintOver(Apply(NoFields, s), f);
    TrimSpaceFixed(id);
    TrimTwice(mimeType);
    TrimTwice(description);
    AliasesKept(aliases);
    AliasesKept(f.aliases);
    NormalizedAliasesFixed(f.aliases);
  }

  /** `CreateDrsObjectFromDataObject`. */
  method CreateDrsObject<K(==,!new)>(c: Catalogue<K>, env: Derived<K>, p: K, mimeType: string, description: string,
                                     aliases: seq<string>)
    returns (r: Creation)
    requires c.Valid()
    modifies c
    ensures c.Valid() && c.failures >= old(c.failures) && old(c.issued) <= c.issued <= old(c.issued) + 1
    ensures p !in old(c.metas) || c.spelling(p) == "/" ==>
              r.CreateFailed? && c.metas == old(c.metas) && c.history == old(c.history)
    ensures p in old(c.metas) ==>
              CreatedAsPrinted(c, p, r, Printed(env, p, mimeType, description, aliases, c.guid(old(c.issued))),
                               old(c.metas), old(c.history), old(c.issued), c.failures == old(c.failures))
    ensures p in old(c.metas) && r.Created? && Trimmed(r.id) ==>
              ReadsCreated(env, p, mimeType, description, aliases, r.id, old(c.metas)[p], c.metas[p])
    ensures old(Kept(c)) ==> Kept(c)
  {
    ghost var s := if p in c.metas then c.metas[p] else [];
    if Trimmed(c.guid(c.issued)) {
      CreatedReadsBack(env, p, mimeType, description, aliases, c.guid(c.issued), s);
    }
    PrintedPrintsIds(env, p, mimeType, description, aliases);
    r := CreateWith(c, p, id => Printed(env, p, mimeType, description, aliases, id));
  }

  // ---------------------------------------------------------------- replace one attribute

  function Sparing(name: Name): Avu -> bool { (a: Avu) => !Carries(a, name) }

  /** The triples left once an attribute has been cleared. */
  function Rest(name: Name, s: seq<Avu>): seq<Avu> { Filter(Sparing(name), s) }

  /** What a path may hold while an attribute is being replaced. */
  ghost predicate Replacing(name: Name, s: seq<Avu>, adds: seq<Avu>, t: seq<Avu>) {
    PrunedFrom(Carrying(name), s, t) || GrowsInto(Rest(name, s), adds, t)
  }

  ghost function Replacements(name: Name, s: seq<Avu>, adds: seq<Avu>): seq<Avu> -> bool {
    t => Replacing(name, s, adds, t)
  }

  predicate AllCarry(adds: seq<Avu>, name: Name) {
    forall i :: 0 <= i < |adds| ==> Carries(adds[i], name)
  }

  predicate Identifies(name: Name, adds: seq<Avu>, id: string) {
    name.ID? ==> |adds| == 1 && TrimSpace(adds[0].value) == id && id != ""
  }

  lemma ClearedDistinct(name: Name, s: seq<Avu>, adds: seq<Avu>)
    requires Distinct(s) && AllCarry(adds, name)
    ensures Distinct(Rest(name, s) + adds) <==> Distinct(adds)
  {
    FilterDistinct(Sparing(name), s);
    DistinctAppend(Rest(name, s), adds);
    forall a | a in Rest(name, s) ensures a !in adds {
      FilterMembers(Sparing(name), s, a);
    }
  }

  lemma Cleared(name: Name, s: seq<Avu>)
    ensures Pruned(Carrying(name), s, |Filter(Carrying(name), s)|) == Rest(name, s)
    ensures PrunedFrom(Carrying(name), s, s)
  {
    PruningKeepsRest(Carrying(name), s, |Filter(Carrying(name), s)|, Sparing(name));
    assert s == Pruned(Carrying(name), s, 0);
  }

  lemma ShortGrowth(s: seq<Avu>, adds: seq<Avu>, t: seq<Avu>)
    requires GrowsInto(s, adds, t)
    ensures t != s + adds && |adds| <= 1 ==> t == s
  {
    if t != s + adds && |adds| <= 1 {
      assert |t| < |s + adds| ==> |t| == |s|;
      assert |t| == |s + adds| ==> t == s + adds;
    }
  }

  /** List the triples, delete those that carry the attribute, write the new ones. */
  method ClearAndWrite<K(==,!new)>(c: Catalogue<K>, p: K, name: Name, adds: seq<Avu>) returns (ok: bool)
    requires c.Valid() && p in c.metas && AllCarry(adds, name)
    modifies c`metas, c`failures, c`history
    ensures c.Valid() && c.failures >= old(c.failures)
    ensures OnlyAt(c.metas, old(c.metas), p) && Replacing(name, old(c.metas)[p], adds, c.metas[p])
    ensures ok ==> c.metas[p] == Rest(name, old(c.metas)[p]) + adds
    ensures !ok && |adds| <= 1 ==> PrunedFrom(Carrying(name), old(c.metas)[p], c.metas[p])
    ensures c.failures == old(c.failures) ==>
              (ok <==> Distinct(adds)) && AsFarAsNew(Rest(name, old(c.metas)[p]), adds, c.metas[p])
    ensures Since(c.history, old(c.history), old(c.metas), p, Replacements(name, old(c.metas)[p], adds))
  {
    ghost var base, h0 := c.metas, c.history;
    ghost var s := c.metas[p];
    Cleared(name, s);
    ClearedDistinct(name, s, adds);
    var listing := c.ListMetadata(p);
    if !listing.Got? {
      return false;
    }
    ghost var k;
    ok, k := c.DeleteAll(p, listing.value, Carrying(name));
    if ok {
      ghost var base1, h1 := c.metas, c.history;
      ok := c.AddAll(p, adds);
      ShortGrowth(Rest(name, s), adds, c.metas[p]);
      SinceBoth(c.history, h1, h0, base1, base, p, Prunings(Carrying(name), s), Upto(Rest(name, s), c.metas[p]),
                Replacements(name, s, adds));
    }
  }

  /** The step shared by the field update, the alias update and `upsertDrsMetadata`. */
  method ReplaceAttribute<K(==,!new)>(c: Catalogue<K>, p: K, name: Name, adds: seq<Avu>, ghost id: string)
    returns (ok: bool)
    requires c.Valid() && p in c.metas && AllCarry(adds, name) && !name.Other?
    modifies c`metas, c`failures, c`history
    ensures c.Valid() && c.failures >= old(c.failures)
    ensures OnlyAt(c.metas, old(c.metas), p) && Replacing(name, old(c.metas)[p], adds, c.metas[p])
    ensures ok ==> c.metas[p] == Rest(name, old(c.metas)[p]) + adds
    ensures !ok && |adds| <= 1 ==> PrunedFrom(Carrying(name), old(c.metas)[p], c.metas[p])
    ensures c.failures == old(c.failures) ==>
              (ok <==> Distinct(adds)) && AsFarAsNew(Rest(name, old(c.metas)[p]), adds, c.metas[p])
    ensures Since(c.history, old(c.history), old(c.metas), p, Replacements(name, old(c.metas)[p], adds))
    ensures old(Kept(c)) && MayTake(old(c.metas), p, c.guid, c.spelling, c.issued, id) && Identifies(name, adds, id) ==>
              Kept(c)
  {
    ghost var base, h0 := c.metas, c.history;
    ok := ClearAndWrite(c, p, name, adds);
    if old(Kept(c)) && MayTake(base, p, c.guid, c.spelling, c.issued, id) && Identifies(name, adds, id) {
      ReplacedLegit(name, base[p], adds, id);
      StaysKept(c.original, h0, c.history, base, c.metas, p, Replacements(name, base[p], adds), c.guid, c.spelling,
                c.issued, c.issued, id);
    }
  }

  lemma ReplacedLegit(name: Name, s: seq<Avu>, adds: seq<Avu>, id: string)
    requires Lone(s) && AllCarry(adds, name) && !name.Other?
    requires Identifies(name, adds, id)
    ensures forall t :: Replacements(name, s, adds)(t) ==> Legit(s, t, id)
  {
    var rest := Rest(name, s);
    Cleared(name, s);
    assert PrunedFrom(Carrying(name), s, rest);
    PrunedLegit(Carrying(name), s, rest);
    if name.ID? {
      FilterAll(IsId, adds);
      NoIdsLeft(s);
    } else {
      FilterNone(IsId, adds);
    }
    forall t | Replacing(name, s, adds, t) ensures Legit(s, t, id) {
      if PrunedFrom(Carrying(name), s, t) {
        PrunedLegit(Carrying(name), s, t);
      } else {
        GrowthLegit(rest, adds, t, id);
      }
    }
  }

  lemma ReplacingConserves(name: Name, s: seq<Avu>, adds: seq<Avu>, t: seq<Avu>)
    requires AllCarry(adds, name) && !name.Other? && Replacing(name, s, adds, t)
    ensures NonDrs(t) == NonDrs(s)
  {
    var rest := Rest(name, s);
    Cleared(name, s);
    assert PrunedFrom(Carrying(name), s, rest);
    PruningConserves(Carrying(name), s, rest);
    if !PrunedFrom(Carrying(name), s, t) {
      GrowthConserves(rest, adds, t);
    } else {
      PruningConserves(Carrying(name), s, t);
    }
  }

  lemma NoIdsLeft(s: seq<Avu>)
    ensures Ids(Rest(ID, s)) == []
  {
    if Ids(Rest(ID, s)) != [] {
      var a := Ids(Rest(ID, s))[0];
      assert a in Ids(Rest(ID, s));
      FilterMembers(IsId, Rest(ID, s), a);
      FilterMembers(Sparing(ID), s, a);
    }
  }

  // ---------------------------------------------------------------- updates

  /** What finding an object by its path comes down to: its metadata names it. */
  predicate Resolves(m: seq<Avu>, spelling: string) {
    var f := Apply(NoFields, m);
    HasMatchingId(m, if f.id == "" then spelling else f.id)
  }

  lemma ResolvesIff(m: seq<Avu>, spelling: string)
    requires Lone(m) && Tag(m) != spelling
    ensures Resolves(m, spelling) <==> Tag(m) != ""
  {
    LoneIdNames(m);
    IdIsFirstId(m);
    if Ids(m) == [] {
      forall i | 0 <= i < |m| ensures !IsId(m[i]) {
        FilterMembers(IsId, m, m[i]);
      }
    } else {
      FilterMembers(IsId, m, Ids(m)[0]);
    }
  }

  /** `GetDrsObjectByIRODSPath`, as far as it decides whether the update goes on. A manifest's
      checksum is one more call that may fail. */
  method ResolveByPath<K(==,!new)>(c: Catalogue<K>, p: K) returns (ok: bool)
    modifies c`failures
    ensures c.failures >= old(c.failures)
    ensures ok ==> p in c.metas && c.spelling(p) != "/" && Resolves(c.metas[p], c.spelling(p))
    ensures c.failures == old(c.failures) ==>
              (ok <==> p in c.metas && c.spelling(p) != "/" && Resolves(c.metas[p], c.spelling(p)))
  {
    if c.spelling(p) == "/" {
      return false;
    }
    ok := c.Attempt();
    if !ok {
      return;
    }
    var listing := c.ListMetadata(p);
    if !listing.Got? {
      return false;
    }
    ok := c.Attempt();
    if ok {
      ok := Resolves(listing.value, c.spelling(p));
      if ok && Apply(NoFields, listing.value).isManifest {
        ok := c.Attempt();
      }
    }
  }

  /** `drsMetadataAttributeName`, and the refusal of the alias field before it. */
  function UpdatableAttribute(field: string): (r: Option<Name>)
    ensures r.Some? ==> r.value in {MIME_TYPE, VERSION, DESCRIPTION}
  {
    var f := TrimSpace(field);
    if f == "mimeType" || f == "mime-type" || f == "mime" then Some(MIME_TYPE)
    else if f == "version" then Some(VERSION)
    else if f == "description" then Some(DESCRIPTION)
    else None
  }

  function ValueAvus(name: Name, value: string): seq<Avu> {
    if TrimSpace(value) == "" then [] else [Avu(name, TrimSpace(value), DRS_UNIT)]
  }

  lemma OneCarries(name: Name, value: string)
    ensures AllCarry([Avu(name, value, DRS_UNIT)], name)
  {
    UnitIsDrs(Avu(name, value, DRS_UNIT));
  }

  lemma ValueAvusCarry(name: Name, value: string)
    ensures AllCarry(ValueAvus(name, value), name) && Distinct(ValueAvus(name, value))
  {
    OneCarries(name, TrimSpace(value));
  }

  /** Every update touches one path, and leaves it in some stage of the replacement. */
  ghost predicate UpdatedAt<K(!new)>(c: Catalogue<K>, p: K, name: Name, adds: seq<Avu>, metas: Metas<K>,
                                     history: seq<Metas<K>>)
    requires p in metas
    reads c
  {
    && OnlyAt(c.metas, metas, p) && Replacing(name, metas[p], adds, c.metas[p])
    && Since(c.history, history, metas, p, Replacements(name, metas[p], adds))
  }

  /** Both updates: find the object, then replace one attribute. */
  method UpdateAttribute<K(==,!new)>(c: Catalogue<K>, p: K, name: Name, adds: seq<Avu>) returns (ok: bool)
    requires c.Valid() && AllCarry(adds, name) && !name.Other? && !name.ID?
    modifies c
    ensures c.Valid() && c.failures >= old(c.failures) && c.issued == old(c.issued)
    ensures p !in old(c.metas) ==> !ok && c.metas == old(c.metas) && c.history == old(c.history)
    ensures p in old(c.metas) ==>
              && UpdatedAt(c, p, name, adds, old(c.metas), old(c.history))
              && (ok ==> c.metas[p] == Rest(name, old(c.metas)[p]) + adds)
              && (ok ==> Resolves(old(c.metas)[p], c.spelling(p)))
              && (c.failures == old(c.failures) ==>
                    && (ok <==> c.spelling(p) != "/" && Resolves(old(c.metas)[p], c.spelling(p)) && Distinct(adds))
                    && (c.spelling(p) != "/" && Resolves(old(c.metas)[p], c.spelling(p)) ==>
                          AsFarAsNew(Rest(name, old(c.metas)[p]), adds, c.metas[p])))
    ensures old(Kept(c)) ==> Kept(c)
  {
    if p in c.metas {
      Cleared(name, c.metas[p]);
    }
    ok := ResolveByPath(c, p);
    if ok {
      ok := ReplaceAttribute(c, p, name, adds, "");
    }
  }

  /** The fields that can be updated, by the names a client may give them. */
  ghost predicate IsUpdatable(field: string) {
    field == "version" || field == "description" || field == "mimeType" || field == "mime-type" || field == "mime"
  }

  /** `o` with the named field set. */
  ghost function WithField(o: Fields, field: string, value: string): Fields {
    if field == "version" then o.(version := value)
    else if field == "description" then o.(description := value)
    else o.(mimeType := value)
  }

  lemma OneLeft(name: Name, s: seq<Avu>, value: string)
    requires !name.Other?
    ensures |Filter(Carrying(name), Rest(name, s) + ValueAvus(name, value))| == if TrimSpace(value) == "" then 0 else 1
  {
    FilterAppend(Carrying(name), Rest(name, s), ValueAvus(name, value));
    forall a | a in Rest(name, s) ensures !Carrying(name)(a) {
      FilterMembers(Sparing(name), s, a);
    }
    FilterNone(Carrying(name), Rest(name, s));
    ValueAvusCarry(name, value);
  }

  /** The field that a client names is the one that is read back as the new value, trimmed; its attribute is
      there once, and not at all where the value is blank. */
  lemma UpdateReadsBack(field: string, s: seq<Avu>, value: string)
    ensures UpdatableAttribute(field).Some? <==> IsUpdatable(TrimSpace(field))
    ensures UpdatableAttribute(field).Some? ==>
              var name := UpdatableAttribute(field).value;
              var t := Rest(name, s) + ValueAvus(name, value);
              && Apply(NoFields, t) == WithField(Apply(NoFields, s), TrimSpace(field), TrimSpace(value))
              && |Filter(Carrying(name), t)| == if TrimSpace(value) == "" then 0 else 1
  {
    if UpdatableAttribute(field).Some? {
      var name := UpdatableAttribute(field).value;
      UpdatedFieldReadsBack(name, s, value);
      OneLeft(name, s, value);
    }
  }

  /** `UpdateDrsObjectMetadataField`. */
  method UpdateField<K(==,!new)>(c: Catalogue<K>, p: K, field: string, value: string) returns (ok: bool)
    requires c.Valid()
    modifies c
    ensures c.Valid() && c.failures >= old(c.failures) && c.issued == old(c.issued)
    ensures p !in old(c.metas) || UpdatableAttribute(field).None? ==>
              !ok && c.metas == old(c.metas) && c.history == old(c.history)
    ensures p in old(c.metas) && ok ==>
              && p in c.metas && IsUpdatable(TrimSpace(field))
              && Apply(NoFields, c.metas[p]) ==
                 WithField(Apply(NoFields, old(c.metas)[p]), TrimSpace(field), TrimSpace(value))
              && |Filter(Carrying(UpdatableAttribute(field).value), c.metas[p])| ==
                 (if TrimSpace(value) == "" then 0 else 1)
    ensures p in old(c.metas) && c.failures == old(c.failures) ==>
              (ok <==> IsUpdatable(TrimSpace(field)) && c.spelling(p) != "/"
                       && Resolves(old(c.metas)[p], c.spelling(p)))
    ensures p in old(c.metas) && UpdatableAttribute(field).Some? ==>
              var name := UpdatableAttribute(field).value;
              && UpdatedAt(c, p, name, ValueAvus(name, value), old(c.metas), old(c.history))
              && (ok ==> c.metas[p] == Rest(name, old(c.metas)[p]) + ValueAvus(name, value))
              && (c.failures == old(c.failures) ==>
                    (ok <==> c.spelling(p) != "/" && Resolves(old(c.metas)[p], c.spelling(p))))
    ensures old(Kept(c)) ==> Kept(c)
  {
    var attribute := UpdatableAttribute(field);
    UpdateReadsBack(field, if p in c.metas then c.metas[p] else [], value);
    if attribute.None? {
      ok := ResolveByPath(c, p);
      return false;
    }
    ValueAvusCarry(attribute.value, value);
    ok := UpdateAttribute(c, p, attribute.value, ValueAvus(attribute.value, value));
  }

  lemma AliasAvusCarry(aliases: seq<string>)
    ensures AllCarry(AliasAvus(aliases), ALIAS)
  {
    forall i | 0 <= i < |aliases| ensures Carries(AliasAvus(aliases)[i], ALIAS) {
      UnitIsDrs(AliasAvus(aliases)[i]);
    }
  }

  /** `UpdateDrsObjectAliases`. A repeated alias is not ignored, whatever the source's comment says:
      the catalogue refuses the second copy and the update fails half done. */
  method UpdateAliases<K(==,!new)>(c: Catalogue<K>, p: K, aliases: seq<string>) returns (ok: bool)
    requires c.Valid()
    modifies c
    ensures c.Valid() && c.failures >= old(c.failures) && c.issued == old(c.issued)
    ensures p !in old(c.metas) ==> !ok && c.metas == old(c.metas) && c.history == old(c.history)
    ensures p in old(c.metas) ==>
              var adds := AliasAvus(NormalizedAliases(aliases));
              && UpdatedAt(c, p, ALIAS, adds, old(c.metas), old(c.history))
              && (ok ==> c.metas[p] == Rest(ALIAS, old(c.metas)[p]) + adds)
              && (c.failures == old(c.failures) ==>
                    && (ok <==> c.spelling(p) != "/" && Resolves(old(c.metas)[p], c.spelling(p))
                                && Distinct(NormalizedAliases(aliases)))
                    && (c.spelling(p) != "/" && Resolves(old(c.metas)[p], c.spelling(p)) ==>
                          AsFarAsNew(Rest(ALIAS, old(c.metas)[p]), adds, c.metas[p])))
    ensures p in old(c.metas) && ok ==>
              p in c.metas && Apply(NoFields, c.metas[p]) ==
                Apply(NoFields, old(c.metas)[p]).(aliases := Filter(NotBlank(), MapSeq(Trim(), aliases)))
    ensures old(Kept(c)) ==> Kept(c)
  {
    var names := NormalizedAliases(aliases);
    AliasesKept(aliases);
    UpdatedAliasesReadBack(if p in c.metas then c.metas[p] else [], aliases);
    AliasAvusCarry(names);
    AliasAvusDistinct(names);
    ok := UpdateAttribute(c, p, ALIAS, AliasAvus(names));
  }

  lemma TwoNames()
    ensures NormalizedAliases(["a", "a"]) == ["a", "a"] && !Distinct(["a", "a"])
  {
    var s := ["a", "a"];
    assert s[0] == s[1];
    TrimSpaceFixed("a");
    assert s[1..] == ["a"] && ["a"][1..] == [] && NormalizedAliases([]) == [];
    assert NormalizedAliases(["a"]) == ["a"];
  }

  /** Asked for the alias "a" twice, the update clears the old aliases, writes one "a" and fails. */
  lemma RepeatedAlias(s: seq<Avu>, t: seq<Avu>)
    requires Distinct(t) && AsFarAsNew(Rest(ALIAS, s), AliasAvus(NormalizedAliases(["a", "a"])), t)
    ensures !Distinct(NormalizedAliases(["a", "a"]))
    ensures t == Rest(ALIAS, s) + [Avu(ALIAS, "a", DRS_UNIT)]
  {
    var a := Avu(ALIAS, "a", DRS_UNIT);
    var adds := AliasAvus(["a", "a"]);
    TwoNames();
    UnitIsDrs(a);
    FilterMembers(Sparing(ALIAS), s, a);
    var k := |t| - |Rest(ALIAS, s)|;
    assert t == Rest(ALIAS, s) + adds[..k];
    DistinctAppend(Rest(ALIAS, s), adds[..k]);
    AliasAvusDistinct(["a", "a"]);
    assert adds[..2] == adds && adds[..1] == [a] && adds[..0] == [];
  }

  /** `upsertDrsMetadata`. */
  method Upsert<K(==,!new)>(c: Catalogue<K>, p: K, name: Name, value: string) returns (ok: bool)
    requires c.Valid() && p in c.metas && !name.Other?
    modifies c
    ensures c.Valid() && c.failures >= old(c.failures) && c.issued == old(c.issued)
    ensures UpdatedAt(c, p, name, ValueAvus(name, value), old(c.metas), old(c.history))
    ensures ok ==> c.metas[p] == Rest(name, old(c.metas)[p]) + ValueAvus(name, value)
    ensures !ok ==> PrunedFrom(Carrying(name), old(c.metas)[p], c.metas[p])
    ensures c.failures == old(c.failures) ==> ok
    ensures (&& old(Kept(c))
             && (name.ID? ==> TrimSpace(value) != ""
                              && MayTake(old(c.metas), p, c.guid, c.spelling, c.issued, TrimSpace(value)))) ==> Kept(c)
  {
    ValueAvusCarry(name, value);
    TrimSpaceTrims(value);
    TrimSpaceFixed(TrimSpace(value));
    ok := ReplaceAttribute(c, p, name, ValueAvus(name, value), if name.ID? then TrimSpace(value) else "");
  }

  // ---------------------------------------------------------------- what an update means to a reader

  /** `o` with one attribute's field taken from `src`. */
  function Overwrite(o: Fields, src: Fields, name: Name): Fields {
    match name
    case ID => o.(id := src.id)
    case VERSION => o.(version := src.version)
    case MIME_TYPE => o.(mimeType := src.mimeType)
    case DESCRIPTION => o.(description := src.description)
    case ALIAS => o.(aliases := src.aliases)
    case COMPOUND_MANIFEST => o.(isManifest := src.isManifest)
    case Other(_) => o
  }

  lemma AssignCommutes(o: Fields, src: Fields, name: Name, other: Name, value: string)
    ensures Overwrite(Assign(Overwrite(o, src, name), other, value), src, name) ==
            Overwrite(Assign(o, other, value), src, name)
    ensures other != name ==>
              Assign(Overwrite(o, src, name), other, value) == Overwrite(Assign(o, other, value), src, name)
  {
  }

  lemma OverwriteTwice(o: Fields, src: Fields, name: Name)
    ensures Overwrite(Overwrite(o, src, name), src, name) == Overwrite(o, src, name)
  {
  }

  lemma OverwriteCommutes(o: Fields, src: Fields, name: Name, a: Avu)
    ensures Overwrite(ApplyOne(Overwrite(o, src, name), a), src, name) == Overwrite(ApplyOne(o, a), src, name)
    ensures !Carries(a, name) ==> ApplyOne(Overwrite(o, src, name), a) == Overwrite(ApplyOne(o, a), src, name)
  {
    AssignCommutes(o, src, name, a.name, TrimSpace(a.value));
    OverwriteTwice(o, src, name);
  }

  lemma {:induction false} ReadCleared(o: Fields, src: Fields, name: Name, s: seq<Avu>)
    ensures Apply(Overwrite(o, src, name), Rest(name, s)) == Overwrite(Apply(o, s), src, name)
    decreases |s|
  {
    if s != [] {
      var o1 := ApplyOne(o, s[0]);
      OverwriteCommutes(o, src, name, s[0]);
      ReadCleared(o1, src, name, s[1..]);
      if Carries(s[0], name) {
        assert Overwrite(o1, src, name) == Overwrite(o, src, name);
      } else {
        FilterCons(Sparing(name), s[0], s[1..]);
        assert s == [s[0]] + s[1..];
        assert Rest(name, s)[1..] == Rest(name, s[1..]);
      }
    }
  }

  lemma {:induction false} ReadNew(o: Fields, src: Fields, name: Name, adds: seq<Avu>)
    requires AllCarry(adds, name)
    ensures Apply(Overwrite(o, src, name), adds) == Overwrite(o, Apply(src, adds), name)
    decreases |adds|
  {
    if adds != [] {
      ReadNew(o, ApplyOne(src, adds[0]), name, adds[1..]);
      assert ApplyOne(Overwrite(o, src, name), adds[0]) == Overwrite(o, ApplyOne(src, adds[0]), name);
    }
  }

  /** Replacing an attribute changes that field and no other, and the new triples alone decide it. */
  lemma ReplacedReadsBack(name: Name, s: seq<Avu>, adds: seq<Avu>)
    requires AllCarry(adds, name)
    ensures Apply(NoFields, Rest(name, s) + adds) == Overwrite(Apply(NoFields, s), Apply(NoFields, adds), name)
  {
    var none := NoFields;
    ReadCleared(none, none, name, s);
    assert Overwrite(none, none, name) == none;
    ApplyAppend(none, Rest(name, s), adds);
    ReadNew(Apply(none, s), none, name, adds);
  }

  /** A field update is read back as the trimmed value, whatever the triples were. */
  lemma UpdatedFieldReadsBack(name: Name, s: seq<Avu>, value: string)
    requires name in {MIME_TYPE, VERSION, DESCRIPTION}
    ensures var v, o := TrimSpace(value), Apply(NoFields, s);
      Apply(NoFields, Rest(name, s) + ValueAvus(name, value)) ==
      match name case MIME_TYPE => o.(mimeType := v) case VERSION => o.(version := v) case _ => o.(description := v)
  {
    var v := TrimSpace(value);
    ValueAvusCarry(name, value);
    ReplacedReadsBack(name, s, ValueAvus(name, value));
    TrimSpaceTrims(value);
    TrimSpaceFixed(v);
    ApplyPrinted(NoFields, v);
    if v != "" {
      var m := [Avu(name, v, DRS_UNIT)];
      assert m[1..] == [];
      assert Apply(NoFields, m) == ApplyOne(NoFields, m[0]);
    }
  }

  /** An alias update is read back as the trimmed, non-blank aliases in the order given. */
  lemma UpdatedAliasesReadBack(s: seq<Avu>, aliases: seq<string>)
    ensures Apply(NoFields, Rest(ALIAS, s) + AliasAvus(NormalizedAliases(aliases))) ==
            Apply(NoFields, s).(aliases := NormalizedAliases(aliases))
  {
    var names := NormalizedAliases(aliases);
    AliasAvusCarry(names);
    ReplacedReadsBack(ALIAS, s, AliasAvus(names));
    ApplyAliases(NoFields, names);
    assert [] + names == names;
  }

  // ---------------------------------------------------------------- remove

  /** `RemoveSingleDrsObjectFromDataObject`. */
  method RemoveDrsObject<K(==,!new)>(c: Catalogue<K>, p: K) returns (ok: bool)
    requires c.Valid()
    modifies c
    ensures c.Valid() && c.failures >= old(c.failures) && c.issued == old(c.issued)
    ensures p !in old(c.metas) ==> !ok && c.metas == old(c.metas) && c.history == old(c.history)
    ensures p in old(c.metas) ==>
              var s := old(c.metas)[p];
              && OnlyAt(c.metas, old(c.metas), p) && PrunedFrom(IsDrsMetadata, s, c.metas[p])
              && Since(c.history, old(c.history), old(c.metas), p, Prunings(IsDrsMetadata, s))
              && (ok ==> c.metas[p] == NonDrs(s))
              && (HasCompoundMarker(s) ==> !ok && c.metas == old(c.metas) && c.history == old(c.history))
              && (c.failures == old(c.failures) ==> (ok <==> c.spelling(p) != "/" && !HasCompoundMarker(s)))
    ensures old(Kept(c)) ==> Kept(c)
  {
    ok := false;
    ghost var base, h0 := c.metas, c.history;
    if p in c.metas {
      NothingPruned(c.metas[p]);
      ApplyMarks(NoFields, c.metas[p]);
    }
    if c.spelling(p) == "/" {
      return;
    }
    ok := c.Attempt();
    if !ok {
      return;
    }
    var listing := c.ListMetadata(p);
    if !listing.Got? {
      return false;
    }
    if Apply(NoFields, listing.value).isManifest {
      return false;
    }
    ok := DeleteDrs(c, p, listing.value);
  }

  lemma NothingPruned(s: seq<Avu>)
    ensures PrunedFrom(IsDrsMetadata, s, s)
  {
    assert s == Pruned(IsDrsMetadata, s, 0);
  }

  /** The loop shared by removal and by stripping: delete the DRS triples of one listing. */
  method DeleteDrs<K(==,!new)>(c: Catalogue<K>, p: K, listed: seq<Avu>) returns (ok: bool)
    requires c.Valid() && p in c.metas && c.metas[p] == listed
    modifies c`metas, c`failures, c`history
    ensures c.Valid() && c.failures >= old(c.failures)
    ensures OnlyAt(c.metas, old(c.metas), p) && PrunedFrom(IsDrsMetadata, listed, c.metas[p])
    ensures Since(c.history, old(c.history), old(c.metas), p, Prunings(IsDrsMetadata, listed))
    ensures ok ==> c.metas[p] == NonDrs(listed)
    ensures c.failures == old(c.failures) ==> ok
    ensures old(Kept(c)) ==> Kept(c)
  {
    ghost var base, h0, k := c.metas, c.history, 0;
    ok, k := c.DeleteAll(p, listed, IsDrsMetadata);
    PruningKeepsRest(IsDrsMetadata, listed, k, (a: Avu) => !IsDrsMetadata(a));
    if old(Kept(c)) {
      forall t | PrunedFrom(IsDrsMetadata, listed, t) ensures Legit(listed, t, "") {
        PrunedLegit(IsDrsMetadata, listed, t);
      }
      StaysKept(c.original, h0, c.history, base, c.metas, p, Prunings(IsDrsMetadata, listed), c.guid, c.spelling,
                c.issued, c.issued, "");
    }
  }

  // ---------------------------------------------------------------- completeness

  function Missing(s: seq<Avu>, name: Name, value: string): seq<Avu> {
    if HasValue(s, name) || TrimSpace(value) == "" then [] else [Avu(name, value, DRS_UNIT)]
  }

  /** What `ensureDataObjectDrsCompleteness` adds to a listing. */
  function Completion<K>(env: Derived<K>, p: K, s: seq<Avu>): seq<Avu> {
    Missing(s, MIME_TYPE, env.mime(p)) + Missing(s, VERSION, env.checksum(p))
  }

  /** Whether a value has to be added for an attribute. */
  predicate Lacks(s: seq<Avu>, name: Name, derived: string) {
    !HasValue(s, name) && TrimSpace(derived) != ""
  }

  lemma ReadMissing(s: seq<Avu>, o: Fields, name: Name, derived: string)
    requires name == MIME_TYPE || name == VERSION
    ensures Apply(o, Missing(s, name, derived)) ==
            if !Lacks(s, name, derived) then o
            else if name == VERSION then o.(version := TrimSpace(derived)) else o.(mimeType := TrimSpace(derived))
  {
    var m := Missing(s, name, derived);
    ApplyPrinted(o, derived);
    if m != [] {
      assert m[1..] == [];
      assert Apply(o, m) == ApplyOne(o, m[0]);
    }
  }

  /** `t` reads as `s` does, but that a MIME type and a version it lacked are those derived for it. */
  ghost predicate ReadsCompleted<K>(env: Derived<K>, p: K, s: seq<Avu>, t: seq<Avu>) {
    var o := Apply(NoFields, s);
    Apply(NoFields, t) ==
    o.(mimeType := if Lacks(s, MIME_TYPE, env.mime(p)) then TrimSpace(env.mime(p)) else o.mimeType,
       version := if Lacks(s, VERSION, env.checksum(p)) then TrimSpace(env.checksum(p)) else o.version)
  }

  lemma CompletedReadsBack<K>(env: Derived<K>, p: K, s: seq<Avu>)
    ensures ReadsCompleted(env, p, s, s + Completion(env, p, s))
  {
    var o := Apply(NoFields, s);
    var a, b := Missing(s, MIME_TYPE, env.mime(p)), Missing(s, VERSION, env.checksum(p));
    ApplyAppend(NoFields, s, a + b);
    ApplyAppend(o, a, b);
    ReadMissing(s, o, MIME_TYPE, env.mime(p));
    ReadMissing(s, Apply(o, a), VERSION, env.checksum(p));
  }

  lemma MissingIsNew(s: seq<Avu>, name: Name, value: string)
    requires !name.Other?
    ensures AllDrs(Missing(s, name, value)) && Distinct(Missing(s, name, value))
    ensures forall a :: a in Missing(s, name, value) ==> a.name == name && a !in s
  {
    UnitIsDrs(Avu(name, value, DRS_UNIT));
  }

  lemma TwoNewParts(s: seq<Avu>, a: seq<Avu>, b: seq<Avu>, name: Name, name': Name)
    requires Distinct(s) && Distinct(a) && Distinct(b) && AllDrs(a) && AllDrs(b)
    requires name != name' && !name.ID? && !name'.ID?
    requires forall x :: x in a ==> x.name == name && x !in s
    requires forall x :: x in b ==> x.name == name' && x !in s
    ensures Distinct(s + (a + b)) && AllDrs(a + b) && Ids(a + b) == []
  {
    DistinctAppend(a, b);
    DistinctAppend(s, a + b);
    FilterNone(IsId, a + b);
  }

  lemma CompletionIsNew<K>(env: Derived<K>, p: K, s: seq<Avu>)
    requires Distinct(s)
    ensures Distinct(s + Completion(env, p, s)) && AllDrs(Completion(env, p, s)) && Ids(Completion(env, p, s)) == []
  {
    MissingIsNew(s, MIME_TYPE, env.mime(p));
    MissingIsNew(s, VERSION, env.checksum(p));
    TwoNewParts(s, Missing(s, MIME_TYPE, env.mime(p)), Missing(s, VERSION, env.checksum(p)), MIME_TYPE, VERSION);
  }

  lemma GrowingLegit(s: seq<Avu>, more: seq<Avu>)
    requires Lone(s) && AllDrs(more) && Ids(more) == []
    ensures forall t :: GrowsInto(s, more, t) ==> Legit(s, t, "")
  {
    forall t | GrowsInto(s, more, t) ensures Legit(s, t, "") {
      GrowthLegit(s, more, t, "");
    }
  }

  /** Write the first triples, then, after `calls` more calls that may fail, the others. */
  method WriteInTurn<K(==,!new)>(c: Catalogue<K>, p: K, first: seq<Avu>, calls: nat, second: seq<Avu>)
    returns (ok: bool)
    requires c.Valid() && p in c.metas && Distinct(c.metas[p] + (first + second))
    modifies c`metas, c`failures, c`history
    ensures c.Valid() && c.failures >= old(c.failures)
    ensures OnlyAt(c.metas, old(c.metas), p) && GrowsInto(old(c.metas)[p], first + second, c.metas[p])
    ensures Since(c.history, old(c.history), old(c.metas), p, Upto(old(c.metas)[p], c.metas[p]))
    ensures ok ==> c.metas[p] == old(c.metas)[p] + (first + second)
    ensures c.failures == old(c.failures) ==> ok
  {
    ghost var base, h0, s := c.metas, c.history, c.metas[p];
    assert s + (first + second) == s + first + second;
    DistinctAppend(s + first, second);
    ok := c.AddAll(p, first);
    ghost var base1, h1 := c.metas, c.history;
    if !ok {
      return;
    }
    for i := 0 to calls
      invariant c.metas == base1 && c.history == h1 && c.failures >= old(c.failures)
      invariant c.Valid()
    {
      ok := c.Attempt();
      if !ok {
        return;
      }
    }
    ok := c.AddAll(p, second);
    SinceBoth(c.history, h1, h0, base1, base, p, Upto(s, s + first), Upto(s + first, c.metas[p]), Upto(s, c.metas[p]));
  }

  /** `ensureDataObjectDrsCompleteness`, but for what it keeps true; the checksum takes a stat and a
      computation. */
  method WriteCompletion<K(==,!new)>(c: Catalogue<K>, env: Derived<K>, p: K) returns (ok: bool)
    requires c.Valid() && p in c.metas
    modifies c`metas, c`failures, c`history
    ensures c.Valid() && c.failures >= old(c.failures)
    ensures var s := old(c.metas)[p];
      && OnlyAt(c.metas, old(c.metas), p) && GrowsInto(s, Completion(env, p, s), c.metas[p])
      && Since(c.history, old(c.history), old(c.metas), p, Upto(s, c.metas[p]))
      && (ok ==> c.metas[p] == s + Completion(env, p, s) && ReadsCompleted(env, p, s, c.metas[p]))
    ensures c.failures == old(c.failures) ==> ok
  {
    CompletionIsNew(env, p, c.metas[p]);
    var listing := c.ListMetadata(p);
    if !listing.Got? {
      return false;
    }
    var metas := listing.value;
    CompletedReadsBack(env, p, metas);
    var calls := if HasValue(metas, VERSION) then 0 else 2;
    ok := WriteInTurn(c, p, Missing(metas, MIME_TYPE, env.mime(p)), calls, Missing(metas, VERSION, env.checksum(p)));
  }

  /** `ensureDataObjectDrsCompleteness`: no triple is written for an attribute that has a value. */
  method EnsureCompleteness<K(==,!new)>(c: Catalogue<K>, env: Derived<K>, p: K) returns (ok: bool)
    requires c.Valid() && p in c.metas
    modifies c
    ensures c.Valid() && c.failures >= old(c.failures) && c.issued == old(c.issued)
    ensures var s := old(c.metas)[p];
      && OnlyAt(c.metas, old(c.metas), p) && GrowsInto(s, Completion(env, p, s), c.metas[p])
      && Since(c.history, old(c.history), old(c.metas), p, Upto(s, c.metas[p]))
      && (ok ==> c.metas[p] == s + Completion(env, p, s))
      && (ok ==> ReadsCompleted(env, p, s, c.metas[p]))
    ensures c.failures == old(c.failures) ==> ok
    ensures old(Kept(c)) ==> Kept(c)
  {
    ghost var base, h0, s := c.metas, c.history, c.metas[p];
    ok := WriteCompletion(c, env, p);
    if old(Kept(c)) {
      ghost var more := Completion(env, p, s);
      CompletionIsNew(env, p, s);
      GrowingLegit(s, more);
      StaysKept(c.original, h0, c.history, base, c.metas, p, Upto(s, c.metas[p]), c.guid, c.spelling, c.issued,
                c.issued, "");
    }
  }
}
