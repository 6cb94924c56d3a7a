/** Creating a compound object from a collection: decorate the selected data objects, then mark the
    root, with any write free to fail. The key type is left generic. */
module Compounds {
  import opened Text
  import opened Lists
  import opened Avus
  import opened Catalogues
  import opened Trees
  import opened Spaces
  import opened Selections
  import opened Snapshots
  import opened Identities
  import opened Objects

  // ---------------------------------------------------------------- one data object

  /** What creation would add to a data object whose triples are `s`. */
  function NodePlan<K>(env: Derived<K>, p: K, s: seq<Avu>, id: string): seq<Avu> {
    if Tag(s) == "" then Printed(env, p, "", "", [], id) else Completion(env, p, s)
  }

  /** Of the id triples, if there are any, the first is not blank. A path with one id at most has none
      that is blank; a removal that stopped half way may have left other DRS triples without an id. */
  ghost predicate NoBlankId(s: seq<Avu>) {
    Ids(s) != [] ==> Tag(s) != ""
  }

  /** Creation can never give the object an id. */
  ghost predicate Blocked(s: seq<Avu>, spelling: string) {
    Tag(s) == "" && (spelling == "/" || HasCompoundMarker(s))
  }

  /** What is written to a new object after its id. */
  function DerivedAvus<K>(env: Derived<K>, p: K): seq<Avu> {
    Optional(VERSION, env.checksum(p)) + Optional(MIME_TYPE, env.mime(p))
  }

  /** Creation, nothing failing, gets by the object: it has an id, or it can be given one and none of
      the triples to be written with it is there already. */
  ghost predicate Accepts<K>(env: Derived<K>, p: K, s: seq<Avu>, spelling: string) {
    Tag(s) != "" || (!Blocked(s, spelling) && forall a :: a in DerivedAvus(env, p) ==> a !in s)
  }

  lemma PrintsValues(o: Fields)
    ensures o.version != "" ==> Avu(VERSION, o.version, DRS_UNIT) in MetadataForObject(o)
    ensures o.mimeType != "" ==> Avu(MIME_TYPE, o.mimeType, DRS_UNIT) in MetadataForObject(o)
  {
    var v, m := Avu(VERSION, o.version, DRS_UNIT), Avu(MIME_TYPE, o.mimeType, DRS_UNIT);
    assert o.version != "" ==> v in Optional(VERSION, o.version);
    assert o.mimeType != "" ==> m in Optional(MIME_TYPE, o.mimeType);
  }

  lemma ValueIn(s: seq<Avu>, name: Name, value: string)
    requires Avu(name, value, DRS_UNIT) in s && TrimSpace(value) != ""
    ensures HasValue(s, name)
  {
    UnitIsDrs(Avu(name, value, DRS_UNIT));
    var i :| 0 <= i < |s| && s[i] == Avu(name, value, DRS_UNIT);
    assert Carries(s[i], name);
  }

  lemma TrimSpaceEmpty()
    ensures TrimSpace("") == ""
  {
  }

  /** A new object is complete as printed. */
  lemma CompletionAfterPrinting<K>(env: Derived<K>, p: K, s: seq<Avu>, id: string)
    ensures Completion(env, p, s + Printed(env, p, "", "", [], id)) == []
  {
    var o := NewFields(env, p, "", "", [], id);
    TrimSpaceEmpty();
    assert o.mimeType == env.mime(p) && o.version == env.checksum(p);
    PrintsValues(o);
    var t := s + MetadataForObject(o);
    if TrimSpace(env.mime(p)) != "" {
      TrimSpaceEmpty();
      ValueIn(t, MIME_TYPE, env.mime(p));
    }
    if TrimSpace(env.checksum(p)) != "" {
      ValueIn(t, VERSION, env.checksum(p));
    }
  }

  lemma NewObjectPrints<K>(env: Derived<K>, p: K, id: string)
    ensures Printed(env, p, "", "", [], id) == [Avu(ID, id, DRS_UNIT)] + DerivedAvus(env, p)
  {
    TrimSpaceEmpty();
    var o := NewFields(env, p, "", "", [], id);
    assert o.description == "" && o.mimeType == env.mime(p) && NormalizedAliases(o.aliases) == [];
  }

  lemma NoIdNotDrs(s: seq<Avu>, spelling: string)
    requires Ids(s) == [] && spelling != ""
    ensures Tag(s) == "" && (AlreadyDrs(s, spelling) <==> HasCompoundMarker(s))
  {
    IdIsFirstId(s);
    AlreadyDrsIff(s, spelling);
  }

  lemma IdIsNew(s: seq<Avu>, id: string)
    requires Ids(s) == []
    ensures Avu(ID, id, DRS_UNIT) !in s
  {
    UnitIsDrs(Avu(ID, id, DRS_UNIT));
    FilterMembers(IsId, s, Avu(ID, id, DRS_UNIT));
  }

  /** When the triples of a new object are all new: what has been derived must not be there already. */
  lemma PrintedIsNewIff<K>(env: Derived<K>, p: K, s: seq<Avu>, id: string)
    requires Ids(s) == [] && Distinct(s)
    ensures Distinct(s + Printed(env, p, "", "", [], id)) <==> forall a :: a in DerivedAvus(env, p) ==> a !in s
  {
    var o := NewFields(env, p, "", "", [], id);
    NewObjectPrints(env, p, id);
    PrintedDistinct(o);
    assert o.aliases == [] && NormalizedAliases([]) == [];
    IdIsNew(s, id);
    DistinctAppend(s, Printed(env, p, "", "", [], id));
  }

  /** The guard and the catalogue between them let through what `Accepts` says. */
  lemma AcceptsIff<K>(env: Derived<K>, p: K, s: seq<Avu>, id: string, spelling: string)
    requires NoBlankId(s) && Distinct(s) && spelling != ""
    ensures Accepts(env, p, s, spelling) <==>
              || Tag(s) != ""
              || (spelling != "/" && !AlreadyDrs(s, spelling) && Distinct(s + Printed(env, p, "", "", [], id)))
    ensures Tag(s) == "" ==> (Blocked(s, spelling) <==> spelling == "/" || AlreadyDrs(s, spelling))
  {
    if Tag(s) == "" {
      NoIdNotDrs(s, spelling);
      PrintedIsNewIff(env, p, s, id);
    }
  }

  /** A removal that fails after the id has gone leaves the version behind; creation then fails on the
      object even if no call does. */
  lemma HalfRemoved<K>(env: Derived<K>, p: K, id: string, spelling: string)
    requires env.checksum(p) != "" && TrimSpace(id) != ""
    ensures var v := Avu(VERSION, env.checksum(p), DRS_UNIT);
      && Distinct([Avu(ID, id, DRS_UNIT), v]) && Lone([Avu(ID, id, DRS_UNIT), v])
      && PrunedFrom(IsDrsMetadata, [Avu(ID, id, DRS_UNIT), v], [v])
      && Lone([v]) && !Accepts(env, p, [v], spelling)
  {
    var a, v := Avu(ID, id, DRS_UNIT), Avu(VERSION, env.checksum(p), DRS_UNIT);
    var s := [a, v];
    UnitIsDrs(a);
    UnitIsDrs(v);
    assert s == [a] + [v] && s[1..] == [v];
    FilterNone(IsId, [v]);
    FilterCons(IsId, a, [v]);
    FilterAll(IsDrsMetadata, s);
    assert Pruned(IsDrsMetadata, s, 1) == Pruned(IsDrsMetadata, s[1..], 0);
    IdIsFirstId(s);
    IdIsFirstId([v]);
    assert v in DerivedAvus(env, p);
  }

  lemma PlanLegit<K>(env: Derived<K>, p: K, s: seq<Avu>, t: seq<Avu>, id: string)
    requires Lone(s) && Distinct(s) && id != "" && Trimmed(id) && GrowsInto(s, NodePlan(env, p, s, id), t)
    ensures Legit(s, t, id)
  {
    if Tag(s) == "" {
      PrintedAreDrs(NewFields(env, p, "", "", [], id));
      PrintedIds(NewFields(env, p, "", "", [], id));
      CreatedLegit(s, Printed(env, p, "", "", [], id), id);
    } else {
      CompletionIsNew(env, p, s);
      GrowingLegit(s, Completion(env, p, s));
    }
  }

  /** The half of the creation loop's body that deals with an object without an id. */
  method CreateNode<K(==,!new)>(c: Catalogue<K>, env: Derived<K>, p: K, s: seq<Avu>) returns (ok: bool)
    requires c.Valid() && p in c.metas && c.metas[p] == s && Tag(s) == ""
    modifies c
    ensures c.Valid() && c.failures >= old(c.failures) && old(c.issued) <= c.issued <= old(c.issued) + 1
    ensures var more := Printed(env, p, "", "", [], c.guid(old(c.issued)));
      && OnlyAt(c.metas, old(c.metas), p) && GrowsInto(s, more, c.metas[p])
      && Since(c.history, old(c.history), old(c.metas), p, Upto(s, c.metas[p]))
      && (ok ==> c.metas[p] == s + more)
      && (c.failures == old(c.failures) ==>
            (ok <==> c.spelling(p) != "/" && !AlreadyDrs(s, c.spelling(p)) && Distinct(s + more)))
      && (c.failures == old(c.failures) && NoBlankId(s) && GoodSupply(c.guid, c.spelling) ==>
            Attempted(env, p, s, c.metas[p], c.spelling(p), ok))
    ensures old(Kept(c)) ==> Kept(c)
  {
    ghost var id := c.guid(c.issued);
    var r := CreateDrsObject(c, env, p, "", "", []);
    ok := r.Created?;
    if c.failures == old(c.failures) && NoBlankId(s) && GoodSupply(c.guid, c.spelling) {
      CreationAttempted(env, p, s, c.metas[p], id, c.spelling(p), ok);
    }
  }

  /** The body of the creation loop. */
  method ProcessNode<K(==,!new)>(c: Catalogue<K>, env: Derived<K>, node: TreeAt<K>) returns (ok: bool)
    requires c.Valid() && node.entry.path in c.metas && c.metas[node.entry.path] == node.metas
    modifies c
    ensures c.Valid() && c.failures >= old(c.failures) && old(c.issued) <= c.issued <= old(c.issued) + 1
    ensures var p, s := node.entry.path, node.metas;
      && OnlyAt(c.metas, old(c.metas), p)
      && GrowsInto(s, NodePlan(env, p, s, c.guid(old(c.issued))), c.metas[p])
      && Since(c.history, old(c.history), old(c.metas), p, Upto(s, c.metas[p]))
      && (ok ==> c.metas[p] == s + NodePlan(env, p, s, c.guid(old(c.issued))))
      && (c.failures == old(c.failures) ==>
            (ok <==> || Tag(s) != ""
                     || (&& c.spelling(p) != "/" && !AlreadyDrs(s, c.spelling(p))
                         && Distinct(s + Printed(env, p, "", "", [], c.guid(old(c.issued)))))))
      && (c.failures == old(c.failures) && NoBlankId(s) && GoodSupply(c.guid, c.spelling) ==>
            Attempted(env, p, s, c.metas[p], c.spelling(p), ok))
    ensures old(Kept(c)) ==> Kept(c)
  {
    var p, s := node.entry.path, node.metas;
    ghost var base, h0, id := c.metas, c.history, c.guid(c.issued);
    if Tag(s) == "" {
      ok := CreateNode(c, env, p, s);
      if !ok {
        return;
      }
      CompletionAfterPrinting(env, p, s, id);
    }
    ghost var base1, h1 := c.metas, c.history;
    ok := EnsureCompleteness(c, env, p);
    SinceBoth(c.history, h1, h0, base1, base, p, Upto(s, base1[p]), Upto(base1[p], c.metas[p]), Upto(s, c.metas[p]));
    if Tag(s) != "" {
      PrefixKeepsTag(s, c.metas[p]);
    }
  }

  /** An id, once there, stays: only the first id triple counts, and triples are only appended. */
  lemma PrefixKeepsTag(s: seq<Avu>, t: seq<Avu>)
    requires s <= t && Tag(s) != ""
    ensures Tag(t) == Tag(s)
  {
    assert t == s + t[|s|..];
    FilterAppend(IsId, s, t[|s|..]);
    IdIsFirstId(s);
    IdIsFirstId(t);
  }

  /** What an attempt at one object comes to when no call fails: whether it gets by is decided by what
      was there; and even if it does not, the object is left without an id only if it is blocked. */
  ghost predicate Attempted<K>(env: Derived<K>, p: K, s: seq<Avu>, t: seq<Avu>, spelling: string, ok: bool) {
    && (ok <==> Accepts(env, p, s, spelling))
    && (Tag(t) == "" <==> Blocked(s, spelling))
  }

  lemma CreationAttempted<K>(env: Derived<K>, p: K, s: seq<Avu>, t: seq<Avu>, id: string, spelling: string, ok: bool)
    requires NoBlankId(s) && Tag(s) == "" && Distinct(s) && spelling != "" && id != "" && Trimmed(id)
    requires ok <==> spelling != "/" && !AlreadyDrs(s, spelling) && Distinct(s + Printed(env, p, "", "", [], id))
    requires GrowsInto(s, Printed(env, p, "", "", [], id), t)
    requires spelling != "/" && !AlreadyDrs(s, spelling) ==> AsFarAsNew(s, Printed(env, p, "", "", [], id), t)
    requires spelling == "/" || AlreadyDrs(s, spelling) ==> t == s
    ensures Attempted(env, p, s, t, spelling, ok)
  {
    AcceptsIff(env, p, s, id, spelling);
    if !Blocked(s, spelling) {
      var o := NewFields(env, p, "", "", [], id);
      PrintedIds(o);
      IdIsNew(s, id);
      assert t != s;
      FirstIsId(s, o, t);
    }
  }

  /** The id is written first, so that an object which has got any triple has got its id. */
  lemma FirstIsId(s: seq<Avu>, o: Fields, t: seq<Avu>)
    requires Ids(s) == [] && o.id != "" && Trimmed(o.id) && GrowsInto(s, MetadataForObject(o), t) && t != s
    ensures Tag(t) == o.id
  {
    var id := Avu(ID, o.id, DRS_UNIT);
    PrintedIds(o);
    UnitIsDrs(id);
    var k := |t| - |s|;
    assert k == 0 ==> t == s;
    var more := MetadataForObject(o)[..k];
    assert t == s + more && more == [id] + more[1..];
    FilterAppend(IsId, s, more);
    FilterCons(IsId, id, more[1..]);
    IdIsFirstId(t);
    TrimSpaceFixed(o.id);
  }

  // ---------------------------------------------------------------- all data objects

  /** The object has been given some beginning of its plan. */
  ghost predicate NodeStage<K(!new)>(env: Derived<K>, guid: nat -> string, p: K, s: seq<Avu>, t: seq<Avu>) {
    exists n: nat :: GrowsInto(s, NodePlan(env, p, s, guid(n)), t)
  }

  ghost predicate NodeDone<K(!new)>(env: Derived<K>, guid: nat -> string, p: K, s: seq<Avu>, t: seq<Avu>) {
    exists n: nat :: t == s + NodePlan(env, p, s, guid(n))
  }

  ghost predicate NodesStage<K(!new)>(env: Derived<K>, guid: nat -> string, base: Metas<K>, m: Metas<K>, ps: seq<K>) {
    && m.Keys == base.Keys
    && forall q :: q in m ==> if q in ps then NodeStage(env, guid, q, base[q], m[q]) else m[q] == base[q]
  }

  ghost predicate NodesDone<K(!new)>(env: Derived<K>, guid: nat -> string, base: Metas<K>, m: Metas<K>, ps: seq<K>) {
    forall q :: q in ps ==> q in base && q in m && NodeDone(env, guid, q, base[q], m[q])
  }

  /** All but those that are reported have been given their whole plan. */
  ghost predicate NodesDoneBut<K(!new)>(env: Derived<K>, guid: nat -> string, base: Metas<K>, m: Metas<K>, ps: seq<K>,
                                        errors: seq<K>)
  {
    forall q :: q in ps && q !in errors ==> q in base && q in m && NodeDone(env, guid, q, base[q], m[q])
  }

  /** On the way from `base` to `m`, appending only. */
  ghost predicate OnTheWay<K(!new)>(base: Metas<K>, x: Metas<K>, m: Metas<K>, ps: seq<K>) {
    && x.Keys == base.Keys == m.Keys
    && forall q :: q in x ==> if q in ps then base[q] <= x[q] && x[q] <= m[q] else x[q] == base[q]
  }

  ghost predicate NodesHistory<K(!new)>(h1: seq<Metas<K>>, h0: seq<Metas<K>>, base: Metas<K>, m: Metas<K>, ps: seq<K>) {
    && h0 <= h1
    && forall i :: |h0| <= i < |h1| ==> OnTheWay(base, h1[i], m, ps)
  }

  lemma OneMoreNode<K(!new)>(env: Derived<K>, guid: nat -> string, h2: seq<Metas<K>>, h1: seq<Metas<K>>,
                             h0: seq<Metas<K>>, base: Metas<K>, m1: Metas<K>, m: Metas<K>, ps: seq<K>, p: K, n: nat)
    requires NodesStage(env, guid, base, m1, ps) && NodesHistory(h1, h0, base, m1, ps)
    requires p !in ps && OnlyAt(m, m1, p) && Since(h2, h1, m1, p, Upto(m1[p], m[p]))
    requires GrowsInto(m1[p], NodePlan(env, p, m1[p], guid(n)), m[p])
    ensures NodesStage(env, guid, base, m, ps + [p]) && NodesHistory(h2, h0, base, m, ps + [p])
  {
    assert NodeStage(env, guid, p, base[p], m[p]);
    forall i | |h0| <= i < |h2| ensures OnTheWay(base, h2[i], m, ps + [p]) {
      if i < |h1| {
        assert h2[i] == h1[i];
      }
    }
  }

  lemma OneMoreDone<K(!new)>(env: Derived<K>, guid: nat -> string, base: Metas<K>, m1: Metas<K>, m: Metas<K>,
                             ps: seq<K>, p: K, n: nat, errors: seq<K>, ok: bool)
    requires NodesDoneBut(env, guid, base, m1, ps, errors) && NodesStage(env, guid, base, m1, ps)
    requires p !in ps && OnlyAt(m, m1, p) && (ok ==> m[p] == m1[p] + NodePlan(env, p, m1[p], guid(n)))
    ensures NodesDoneBut(env, guid, base, m, ps + [p], if ok then errors else errors + [p])
  {
    if ok {
      assert NodeDone(env, guid, p, base[p], m[p]);
    }
  }

  lemma StaysAvailable<K(!new)>(base: Metas<K>, m: Metas<K>, p: K, guid: nat -> string, spelling: K -> string,
                                i0: nat, i1: nat, id: string)
    requires Available(base, guid, spelling, i0, id) && id != "" && i0 <= i1
    requires OnlyAt(m, base, p) && Legit(base[p], m[p], guid(i0))
    ensures Available(m, guid, spelling, i1, id)
  {
  }

  ghost predicate NodesIn<K(!new)>(metas: Metas<K>, nodes: seq<TreeAt<K>>) {
    forall i :: 0 <= i < |nodes| ==> nodes[i].entry.path in metas && metas[nodes[i].entry.path] == nodes[i].metas
  }

  ghost predicate NoBlankIds<K(!new)>(metas: Metas<K>, ps: seq<K>) {
    forall q :: q in ps ==> q in metas && NoBlankId(metas[q])
  }

  ghost predicate AcceptsAll<K(!new)>(env: Derived<K>, metas: Metas<K>, spelling: K -> string, ps: seq<K>) {
    forall q :: q in ps ==> q in metas && Accepts(env, q, metas[q], spelling(q))
  }

  /** What an attempt at these objects comes to when no call fails: those that report an error, and
      those that are left without an id, are decided by what was there. */
  ghost predicate NodesAttempted<K(!new)>(env: Derived<K>, spelling: K -> string, base: Metas<K>, m: Metas<K>,
                                          ps: seq<K>, errors: seq<K>)
  {
    && (forall e :: e in errors ==> e in ps)
    && (forall q :: q in ps ==> q in base && q in m && Attempted(env, q, base[q], m[q], spelling(q), q !in errors))
  }

  lemma NoErrorsIff<K(!new)>(env: Derived<K>, spelling: K -> string, base: Metas<K>, m: Metas<K>, ps: seq<K>,
                             errors: seq<K>)
    requires NodesAttempted(env, spelling, base, m, ps, errors)
    ensures errors == [] <==> AcceptsAll(env, base, spelling, ps)
  {
    if errors != [] {
      assert errors[0] in errors;
    }
  }

  lemma OneMoreAttempted<K(!new)>(env: Derived<K>, spelling: K -> string, base: Metas<K>, m1: Metas<K>, m: Metas<K>,
                                  ps: seq<K>, p: K, errors: seq<K>, ok: bool)
    requires NodesAttempted(env, spelling, base, m1, ps, errors) && OnlyAt(m, m1, p) && p !in ps
    requires p in base && Attempted(env, p, base[p], m[p], spelling(p), ok)
    ensures NodesAttempted(env, spelling, base, m, ps + [p], if ok then errors else errors + [p])
  {
  }

  /** The creation loop: each object on its own, going on past failures. */
  method ProcessNodes<K(==,!new)>(c: Catalogue<K>, env: Derived<K>, nodes: seq<TreeAt<K>>, ghost drsID: string)
    returns (errors: seq<K>)
    requires c.Valid() && NodesIn(c.metas, nodes) && Distinct(PathsOfTrees(nodes))
    modifies c
    ensures c.Valid() && c.failures >= old(c.failures) && c.issued >= old(c.issued)
    ensures NodesStage(env, c.guid, old(c.metas), c.metas, PathsOfTrees(nodes))
    ensures NodesHistory(c.history, old(c.history), old(c.metas), c.metas, PathsOfTrees(nodes))
    ensures NodesDoneBut(env, c.guid, old(c.metas), c.metas, PathsOfTrees(nodes), errors)
    ensures forall e :: e in errors ==> e in PathsOfTrees(nodes)
    ensures c.failures == old(c.failures) && GoodSupply(c.guid, c.spelling)
            && NoBlankIds(old(c.metas), PathsOfTrees(nodes)) ==>
              NodesAttempted(env, c.spelling, old(c.metas), c.metas, PathsOfTrees(nodes), errors)
    ensures old(Kept(c)) ==> Kept(c)
    ensures old(Kept(c)) && drsID != "" && Available(old(c.metas), c.guid, c.spelling, old(c.issued), drsID) ==>
              Available(c.metas, c.guid, c.spelling, c.issued, drsID)
  {
    errors := [];
    ghost var base, h0, all := c.metas, c.history, PathsOfTrees(nodes);
    for i := 0 to |nodes|
      invariant c.Valid() && c.failures >= old(c.failures) && c.issued >= old(c.issued)
      invariant NodesStage(env, c.guid, base, c.metas, all[..i])
      invariant NodesHistory(c.history, h0, base, c.metas, all[..i])
      invariant NodesDoneBut(env, c.guid, base, c.metas, all[..i], errors)
      invariant forall e :: e in errors ==> e in all
      invariant c.failures == old(c.failures) && GoodSupply(c.guid, c.spelling) && NoBlankIds(base, all) ==>
                  NodesAttempted(env, c.spelling, base, c.metas, all[..i], errors)
      invariant old(Kept(c)) ==> Kept(c)
      invariant old(Kept(c)) && drsID != "" && Available(base, c.guid, c.spelling, old(c.issued), drsID) ==>
                  Available(c.metas, c.guid, c.spelling, c.issued, drsID)
    {
      var node := nodes[i];
      var p := node.entry.path;
      ghost var m1, h1, n := c.metas, c.history, c.issued;
      NextPath(all, i);
      assert all[i] == p && m1[p] == node.metas;
      var ok := ProcessNode(c, env, node);
      OneMoreNode(env, c.guid, c.history, h1, h0, base, m1, c.metas, all[..i], p, n);
      if old(Kept(c)) && drsID != "" && Available(m1, c.guid, c.spelling, n, drsID) {
        PlanLegit(env, p, m1[p], c.metas[p], c.guid(n));
        StaysAvailable(m1, c.metas, p, c.guid, c.spelling, n, c.issued, drsID);
      }
      OneMoreDone(env, c.guid, base, m1, c.metas, all[..i], p, n, errors, ok);
      if c.failures == old(c.failures) && GoodSupply(c.guid, c.spelling) && NoBlankIds(base, all) {
        OneMoreAttempted(env, c.spelling, base, m1, c.metas, all[..i], p, errors, ok);
      }
      if !ok {
        errors := errors + [p];
      }
    }
    assert all[..|nodes|] == all;
  }

  lemma NextPath<K>(ps: seq<K>, i: nat)
    requires Distinct(ps) && i < |ps|
    ensures ps[..i + 1] == ps[..i] + [ps[i]] && ps[i] !in ps[..i]
  {
  }

  // ---------------------------------------------------------------- the root

  lemma MarkerIsCarried(s: seq<Avu>)
    ensures HasCompoundMarker(s) <==> Filter(Carrying(COMPOUND_MANIFEST), s) != []
  {
    if HasCompoundMarker(s) {
      var i :| 0 <= i < |s| && Carries(s[i], COMPOUND_MANIFEST);
      FilterMembers(Carrying(COMPOUND_MANIFEST), s, s[i]);
    } else {
      FilterNone(Carrying(COMPOUND_MANIFEST), s);
    }
  }

  lemma IdsAreCarried(s: seq<Avu>)
    ensures Filter(Carrying(ID), s) == Ids(s)
  {
    FilterSame(Carrying(ID), IsId, s);
  }

  /** Replacing one attribute leaves every other as it is. */
  lemma ReplacingSpares(name: Name, other: Name, s: seq<Avu>, adds: seq<Avu>, t: seq<Avu>)
    requires name != other && AllCarry(adds, name) && Replacing(name, s, adds, t)
    ensures Filter(Carrying(other), t) == Filter(Carrying(other), s)
  {
    if PrunedFrom(Carrying(name), s, t) {
      var k: nat :| k <= |Filter(Carrying(name), s)| && t == Pruned(Carrying(name), s, k);
      PruningKeepsRest(Carrying(name), s, k, Carrying(other));
    } else {
      var rest := Rest(name, s);
      var more := t[|rest|..];
      assert t == rest + more;
      forall i | 0 <= i < |more| ensures more[i] == adds[i] {
        assert t[|rest| + i] == (rest + adds)[|rest| + i];
      }
      FilterAppend(Carrying(other), rest, more);
      FilterNone(Carrying(other), more);
      FilterTwice(Carrying(other), Sparing(name), s);
    }
  }

  lemma NoneLeft(name: Name, s: seq<Avu>)
    ensures Filter(Carrying(name), Rest(name, s)) == []
  {
    var f := Filter(Carrying(name), Rest(name, s));
    if f != [] {
      assert f[0] in f;
      FilterMembers(Carrying(name), Rest(name, s), f[0]);
      FilterMembers(Sparing(name), s, f[0]);
    }
  }

  /** What a finished replacement leaves of its attribute. */
  lemma ReplacedHas(name: Name, s: seq<Avu>, adds: seq<Avu>)
    requires AllCarry(adds, name)
    ensures Filter(Carrying(name), Rest(name, s) + adds) == adds
  {
    FilterAppend(Carrying(name), Rest(name, s), adds);
    NoneLeft(name, s);
    FilterAll(Carrying(name), adds);
  }

  /** A root that carries the marker carries its id. */
  ghost function MarkedTagged(drsID: string, idOk: bool): seq<Avu> -> bool {
    t => HasCompoundMarker(t) && idOk ==> Tag(t) == drsID
  }

  /** Until the marker is written the root is unmarked; from then on it has the id, if that was written. */
  lemma MarkerComesLast(s: seq<Avu>, s1: seq<Avu>, drsID: string, idOk: bool)
    requires !HasCompoundMarker(s) && (idOk ==> Tag(s1) == drsID)
    ensures forall t :: Replacements(ID, s, ValueAvus(ID, drsID))(t) ==> MarkedTagged(drsID, idOk)(t)
    ensures forall t :: Replacements(COMPOUND_MANIFEST, s1, ValueAvus(COMPOUND_MANIFEST, "true"))(t) ==>
              MarkedTagged(drsID, idOk)(t)
  {
    ValueAvusCarry(ID, drsID);
    ValueAvusCarry(COMPOUND_MANIFEST, "true");
    forall t | Replacing(ID, s, ValueAvus(ID, drsID), t) ensures !HasCompoundMarker(t) {
      ReplacingSpares(ID, COMPOUND_MANIFEST, s, ValueAvus(ID, drsID), t);
      MarkerIsCarried(s);
      MarkerIsCarried(t);
    }
    forall t | Replacing(COMPOUND_MANIFEST, s1, ValueAvus(COMPOUND_MANIFEST, "true"), t) ensures Tag(t) == Tag(s1) {
      ReplacingSpares(COMPOUND_MANIFEST, ID, s1, ValueAvus(COMPOUND_MANIFEST, "true"), t);
      SameIdsSameTag(s1, t);
    }
  }

  lemma SameIdsSameTag(s: seq<Avu>, t: seq<Avu>)
    requires Filter(Carrying(ID), t) == Filter(Carrying(ID), s)
    ensures Tag(t) == Tag(s)
  {
    IdsAreCarried(s);
    IdsAreCarried(t);
    IdIsFirstId(s);
    IdIsFirstId(t);
  }

  /** A root's triples once both writes are done: its old ids are gone, the id and the marker are last. */
  function MarkedRoot(s: seq<Avu>, drsID: string): seq<Avu> {
    Rest(ID, s) + [Avu(ID, drsID, DRS_UNIT), Avu(COMPOUND_MANIFEST, "true", DRS_UNIT)]
  }

  lemma BothWritten(s: seq<Avu>, drsID: string)
    requires !HasCompoundMarker(s)
    ensures var s1 := Rest(ID, s) + [Avu(ID, drsID, DRS_UNIT)];
      Rest(COMPOUND_MANIFEST, s1) + [Avu(COMPOUND_MANIFEST, "true", DRS_UNIT)] == MarkedRoot(s, drsID)
  {
    var rest, id := Rest(ID, s), [Avu(ID, drsID, DRS_UNIT)];
    forall i | 0 <= i < |rest + id| ensures Sparing(COMPOUND_MANIFEST)((rest + id)[i]) {
      if i < |rest| {
        assert rest[i] in rest;
        FilterMembers(Sparing(ID), s, rest[i]);
      }
    }
    FilterAll(Sparing(COMPOUND_MANIFEST), rest + id);
    Regroup(rest, id, [Avu(COMPOUND_MANIFEST, "true", DRS_UNIT)]);
  }

  /** The two writes that end compound creation. The marker goes on even if the id did not. */
  method MarkRoot<K(==,!new)>(c: Catalogue<K>, root: K, drsID: string) returns (idOk: bool, markOk: bool)
    requires c.Valid() && root in c.metas && drsID != "" && Trimmed(drsID)
    requires !HasCompoundMarker(c.metas[root])
    modifies c
    ensures c.Valid() && c.failures >= old(c.failures) && c.issued == old(c.issued)
    ensures OnlyAt(c.metas, old(c.metas), root)
    ensures Since(c.history, old(c.history), old(c.metas), root, MarkedTagged(drsID, idOk))
    ensures markOk <==> HasCompoundMarker(c.metas[root])
    ensures idOk ==> Tag(c.metas[root]) == drsID
    ensures idOk && markOk ==> c.metas[root] == MarkedRoot(old(c.metas[root]), drsID)
    ensures !idOk && old(Ids(c.metas[root])) == [] ==> Ids(c.metas[root]) == []
    ensures old(Ids(c.metas[root])) == [] ==>
              (HasCompoundMarker(c.metas[root]) && Tag(c.metas[root]) == "" <==> markOk && !idOk)
    ensures NonDrs(c.metas[root]) == old(NonDrs(c.metas[root]))
    ensures c.failures == old(c.failures) ==> idOk && markOk
    ensures old(Kept(c)) && MayTake(old(c.metas), root, c.guid, c.spelling, c.issued, drsID) ==> Kept(c)
  {
    ghost var base, h0, s := c.metas, c.history, c.metas[root];
    TrimSpaceFixed(drsID);
    idOk := Upsert(c, root, ID, drsID);
    ghost var base1, h1, s1 := c.metas, c.history, c.metas[root];
    assert ValueAvus(ID, drsID) == [Avu(ID, drsID, DRS_UNIT)];
    RootGetsId(s, s1, drsID, idOk);
    ValueAvusCarry(ID, drsID);
    ReplacingConserves(ID, s, ValueAvus(ID, drsID), s1);
    TrueIsTrimmed();
    BothWritten(s, drsID);
    markOk := Upsert(c, root, COMPOUND_MANIFEST, "true");
    IdIsFirstId(c.metas[root]);
    RootGetsMark(s1, c.metas[root], markOk);
    ValueAvusCarry(COMPOUND_MANIFEST, "true");
    ReplacingConserves(COMPOUND_MANIFEST, s1, ValueAvus(COMPOUND_MANIFEST, "true"), c.metas[root]);
    MarkerComesLast(s, s1, drsID, idOk);
    SinceBoth(c.history, h1, h0, base1, base, root, Replacements(ID, s, ValueAvus(ID, drsID)),
              Replacements(COMPOUND_MANIFEST, s1, ValueAvus(COMPOUND_MANIFEST, "true")), MarkedTagged(drsID, idOk));
  }

  lemma TrueIsTrimmed()
    ensures TrimSpace("true") == "true"
  {
    TrimSpaceFixed("true");
  }

  lemma RootGetsId(s: seq<Avu>, t: seq<Avu>, drsID: string, ok: bool)
    requires drsID != "" && TrimSpace(drsID) == drsID && !HasCompoundMarker(s)
    requires Replacing(ID, s, [Avu(ID, drsID, DRS_UNIT)], t)
    requires ok ==> t == Rest(ID, s) + [Avu(ID, drsID, DRS_UNIT)]
    requires !ok ==> PrunedFrom(Carrying(ID), s, t)
    ensures !HasCompoundMarker(t)
    ensures ok ==> Tag(t) == drsID
    ensures !ok && Ids(s) == [] ==> Ids(t) == []
  {
    var adds := [Avu(ID, drsID, DRS_UNIT)];
    OneCarries(ID, drsID);
    ReplacingSpares(ID, COMPOUND_MANIFEST, s, adds, t);
    MarkerIsCarried(s);
    MarkerIsCarried(t);
    IdsAreCarried(s);
    IdsAreCarried(t);
    if ok {
      ReplacedHas(ID, s, adds);
      IdIsFirstId(t);
    } else if Ids(s) == [] {
      var k: nat :| k <= |Filter(Carrying(ID), s)| && t == Pruned(Carrying(ID), s, k);
      assert k == 0;
    }
  }

  lemma RootGetsMark(s: seq<Avu>, t: seq<Avu>, ok: bool)
    requires !HasCompoundMarker(s)
    requires Replacing(COMPOUND_MANIFEST, s, ValueAvus(COMPOUND_MANIFEST, "true"), t)
    requires ok ==> t == Rest(COMPOUND_MANIFEST, s) + ValueAvus(COMPOUND_MANIFEST, "true")
    requires !ok ==> PrunedFrom(Carrying(COMPOUND_MANIFEST), s, t)
    ensures HasCompoundMarker(t) <==> ok
    ensures Tag(t) == Tag(s) && Ids(t) == Ids(s)
  {
    var adds := [Avu(COMPOUND_MANIFEST, "true", DRS_UNIT)];
    TrueIsTrimmed();
    assert adds == ValueAvus(COMPOUND_MANIFEST, "true");
    OneCarries(COMPOUND_MANIFEST, "true");
    ReplacingSpares(COMPOUND_MANIFEST, ID, s, adds, t);
    MarkerIsCarried(s);
    MarkerIsCarried(t);
    IdsAreCarried(s);
    IdsAreCarried(t);
    IdIsFirstId(s);
    IdIsFirstId(t);
    if ok {
      ReplacedHas(COMPOUND_MANIFEST, s, adds);
    } else {
      var k: nat :| k <= |Filter(Carrying(COMPOUND_MANIFEST), s)| && t == Pruned(Carrying(COMPOUND_MANIFEST), s, k);
      assert k == 0;
    }
  }

  // ---------------------------------------------------------------- the guards

  lemma {:induction false} SnapshotLeaves<K(!new)>(sp: Space<K>, metas: Metas<K>, p: K)
    requires WellFormed(sp)
    ensures LeafData(SnapshotOf(sp, metas, p))
    decreases sp.bound - sp.rank(p)
  {
    if sp.isDir(p) {
      var cs := sp.kids(p);
      forall i | 0 <= i < |cs| ensures LeafData(SnapshotOf(sp, metas, cs[i])) {
        assert GoodKids(sp, p) && cs[i] in cs;
        SnapshotLeaves(sp, metas, cs[i]);
      }
    }
  }

  /** A collection strictly below the root is a compound object. Nothing is said of those above it. */
  ghost predicate Nested<K(!new)>(sp: Space<K>, metas: Metas<K>, root: K)
    requires WellFormed(sp)
  {
    exists q :: q in Subtree(sp, root) && q != root && sp.isDir(q) && q in metas && HasCompoundMarker(metas[q])
  }

  lemma EverythingSeen<K(!new)>(sp: Space<K>, root: K, sub: seq<K>)
    ensures Filter(Seen(sp, Everything(root).control, root), sub) == sub
  {
    var seen := Seen(sp, Everything(root).control, root);
    forall i | 0 <= i < |sub| ensures seen(sub[i]) {
      NothingHidden(sp, root, root, sub[i]);
    }
    FilterAll(seen, sub);
  }

  lemma SplitFirst<K(!new)>(sp: Space<K>, metas: Metas<K>, t: TreeAt<K>, below: seq<TreeAt<K>>)
    requires WellFormed(sp) && Snaps(sp, metas, [t] + below) && Distinct(PathsOfTrees([t] + below))
    ensures PathsOfTrees([t] + below) == [t.entry.path] + PathsOfTrees(below)
    ensures t.entry.path !in PathsOfTrees(below) && Snaps(sp, metas, below)
  {
    BelowPaths(t, below);
    DistinctAppend([t.entry.path], PathsOfTrees(below));
    assert t.entry.path in [t.entry.path];
    forall i | 0 <= i < |below| ensures below[i] == SnapshotOf(sp, metas, below[i].entry.path) {
      assert ([t] + below)[i + 1] == below[i];
    }
  }

  /** Nothing is hidden when nothing controls: the nodes of a snapshot are its subtree. */
  lemma AllNodes<K(!new)>(sp: Space<K>, metas: Metas<K>, root: K)
    requires WellFormed(sp)
    ensures var below := VisibleAll(Everything(root), SnapshotOf(sp, metas, root).children);
      && Subtree(sp, root) == [root] + PathsOfTrees(below)
      && root !in PathsOfTrees(below)
      && Snaps(sp, metas, below)
  {
    VisibleOfSnapshot(sp, metas, Everything(root), root);
    SubtreeSound(sp, root);
    EverythingSeen(sp, root, Subtree(sp, root));
    var t := SnapshotOf(sp, metas, root);
    SplitFirst(sp, metas, t, VisibleAll(Everything(root), t.children));
  }

  lemma CompoundAt<K(!new)>(sp: Space<K>, metas: Metas<K>, n: TreeAt<K>)
    requires WellFormed(sp) && n == SnapshotOf(sp, metas, n.entry.path) && n.entry.path in metas
    ensures IsCompound(n) <==> sp.isDir(n.entry.path) && HasCompoundMarker(metas[n.entry.path])
  {
  }

  lemma NestedIff<K(!new)>(sp: Space<K>, metas: Metas<K>, root: K)
    requires WellFormed(sp) && forall q :: q in Subtree(sp, root) ==> q in metas
    ensures CompoundBelow(SnapshotOf(sp, metas, root).children) <==> Nested(sp, metas, root)
  {
    var t := SnapshotOf(sp, metas, root);
    SnapshotLeaves(sp, metas, root);
    CompoundBelowIff(root, t.children);
    AllNodes(sp, metas, root);
    NestedAmong(sp, metas, root, VisibleAll(Everything(root), t.children));
  }

  lemma NestedAmong<K(!new)>(sp: Space<K>, metas: Metas<K>, root: K, below: seq<TreeAt<K>>)
    requires WellFormed(sp) && forall q :: q in Subtree(sp, root) ==> q in metas
    requires Subtree(sp, root) == [root] + PathsOfTrees(below) && root !in PathsOfTrees(below)
    requires Snaps(sp, metas, below)
    ensures SomeCompound(below) <==> Nested(sp, metas, root)
  {
    var paths := PathsOfTrees(below);
    if SomeCompound(below) {
      var i :| 0 <= i < |below| && IsCompound(below[i]);
      assert paths[i] in paths;
      CompoundAt(sp, metas, below[i]);
    }
    if Nested(sp, metas, root) {
      var q :| q in Subtree(sp, root) && q != root && sp.isDir(q) && q in metas && HasCompoundMarker(metas[q]);
      assert q in paths;
      var i :| 0 <= i < |below| && paths[i] == q;
      CompoundAt(sp, metas, below[i]);
    }
  }

  lemma BelowPaths<K>(t: TreeAt<K>, below: seq<TreeAt<K>>)
    ensures PathsOfTrees([t] + below) == [t.entry.path] + PathsOfTrees(below)
  {
    MapSeqCons(PathOfTree, t, below);
  }

  lemma {:induction false} NothingHidden<K>(sp: Space<K>, root: K, p: K, q: K)
    ensures !Hidden(sp, Everything(root).control, p, q)
    decreases sp.rank(q)
  {
    if q != p && sp.rank(sp.up(q)) < sp.rank(q) {
      NothingHidden(sp, root, p, sp.up(q));
    }
  }

  datatype Outcome<K> = Refused | CallFailed | AlreadyCompound | DescendantCompound
    | Finished(id: string, nodeErrors: seq<K>)

  /** What the guards leave to be done. */
  ghost predicate Planned<K(!new)>(sp: Space<K>, rules: Rules<K>, metas: Metas<K>, nodes: seq<TreeAt<K>>)
    requires WellFormed(sp)
  {
    && NodesIn(metas, nodes) && Distinct(PathsOfTrees(nodes))
    && forall q :: q in PathsOfTrees(nodes) <==> q in Chosen(sp, rules)
  }

  lemma PlannedNodes<K(!new)>(sp: Space<K>, rules: Rules<K>, metas: Metas<K>, nodes: seq<TreeAt<K>>)
    requires WellFormed(sp) && forall q :: q in Subtree(sp, rules.root) ==> q in metas
    requires multiset(nodes) == multiset(ChosenData(rules, SnapshotOf(sp, metas, rules.root)))
    ensures Planned(sp, rules, metas, nodes)
  {
    var chosen := ChosenData(rules, SnapshotOf(sp, metas, rules.root));
    ChosenIsSelected(sp, metas, rules);
    MapSeqMultiset(PathOfTree, nodes, chosen);
    DistinctByMultiset(PathsOfTrees(chosen), PathsOfTrees(nodes));
    forall q ensures q in PathsOfTrees(nodes) <==> q in Chosen(sp, rules) {
      assert q in PathsOfTrees(nodes) <==> q in multiset(PathsOfTrees(nodes));
      assert q in PathsOfTrees(chosen) <==> q in multiset(PathsOfTrees(chosen));
    }
    forall i | 0 <= i < |nodes| ensures nodes[i].entry.path in metas && metas[nodes[i].entry.path] == nodes[i].metas {
      assert nodes[i] in multiset(chosen);
      var j :| 0 <= j < |chosen| && chosen[j] == nodes[i];
      var q := PathsOfTrees(chosen)[j];
      assert q in Chosen(sp, rules);
      FilterMembers(Selects(sp, rules), Subtree(sp, rules.root), q);
    }
  }

  /** The guards of creation, in the source's order. */
  method Guards<K(==,!new)>(c: Catalogue<K>, sp: Space<K>, root: K) returns (r: Outcome<K>, t: TreeAt<K>)
    requires WellFormed(sp) && forall q :: q in Subtree(sp, root) ==> q in c.metas
    modifies c`failures
    ensures c.failures >= old(c.failures)
    ensures r.Finished? ==> MayStart(c, sp, root) && t == SnapshotOf(sp, c.metas, root)
    ensures r.Finished? || r.CallFailed? || Refuses(c, sp, root, r)
    ensures c.failures == old(c.failures) <==> !r.CallFailed?
  {
    t := Tree(Entry(root, false), [], []);
    assert root in Subtree(sp, root);
    if c.spelling(root) == "/" {
      return Refused, t;
    }
    var ok := c.Attempt();
    if !ok {
      return CallFailed, t;
    }
    if !sp.isDir(root) {
      return Refused, t;
    }
    var built := BuildSnapshot(c, sp, root);
    if built.NotBuilt? {
      return CallFailed, t;
    }
    t := built.tree;
    NestedIff(sp, c.metas, root);
    if HasCompoundMarker(t.metas) {
      return AlreadyCompound, t;
    }
    if CompoundBelow(t.children) {
      return DescendantCompound, t;
    }
    r := Finished("", []);
  }

  /** A new id, which no path carries. */
  method FreshId<K(==,!new)>(c: Catalogue<K>) returns (ok: bool, id: string)
    modifies c`failures, c`issued
    ensures c.failures >= old(c.failures) && old(c.issued) <= c.issued && (ok <==> c.failures == old(c.failures))
    ensures ok ==> id == c.guid(old(c.issued))
    ensures old(Kept(c)) ==> Kept(c)
    ensures old(Kept(c)) && ok ==> Available(c.metas, c.guid, c.spelling, c.issued, id)
  {
    ghost var kept, before := Kept(c), c.issued;
    ok, id := c.NewGuid();
    if ok && kept {
      IssueKeeps(c, before);
    }
  }

  /** The root keeps the id it has, or is promised a new one. */
  method ChooseId<K(==,!new)>(c: Catalogue<K>, root: K, metas: seq<Avu>) returns (ok: bool, drsID: string)
    requires root in c.metas && metas == c.metas[root] && GoodSupply(c.guid, c.spelling)
    modifies c`failures, c`issued
    ensures c.failures >= old(c.failures) && old(c.issued) <= c.issued && (ok <==> c.failures == old(c.failures))
    ensures ok ==> RootId(c.guid, Tag(metas), drsID)
    ensures old(Kept(c)) ==> Kept(c)
    ensures old(Kept(c)) && ok ==> MayTake(c.metas, root, c.guid, c.spelling, c.issued, drsID)
  {
    ok, drsID := true, Tag(metas);
    TagIsTrimmed(metas);
    if drsID == "" {
      ok, drsID := FreshId(c);
    }
  }

  /** Everything that comes before the first write, up to the ordered list of data objects. */
  method Plan<K(==,!new)>(c: Catalogue<K>, sp: Space<K>, rules: Rules<K>)
    returns (r: Outcome<K>, nodes: seq<TreeAt<K>>)
    requires WellFormed(sp) && GoodSupply(c.guid, c.spelling)
    requires forall q :: q in Subtree(sp, rules.root) ==> q in c.metas
    modifies c`failures, c`issued
    ensures c.failures >= old(c.failures) && old(c.issued) <= c.issued
    ensures r.Finished? || r.CallFailed? || Refuses(c, sp, rules.root, r)
    ensures r.Finished? ==>
              && MayStart(c, sp, rules.root)
              && Planned(sp, rules, c.metas, nodes)
              && RootId(c.guid, Tag(c.metas[rules.root]), r.id)
    ensures c.failures == old(c.failures) <==> !r.CallFailed?
    ensures old(Kept(c)) ==> Kept(c)
    ensures old(Kept(c)) && r.Finished? ==> MayTake(c.metas, rules.root, c.guid, c.spelling, c.issued, r.id)
  {
    var t;
    nodes := [];
    r, t := Guards(c, sp, rules.root);
    if !r.Finished? {
      return;
    }
    r := CallFailed;
    var ok, drsID := ChooseId(c, rules.root, t.metas);
    if !ok {
      return;
    }
    ok := c.Attempt();
    if !ok {
      return;
    }
    nodes := CreationDataNodes(rules, t, c.spelling);
    PlannedNodes(sp, rules, c.metas, nodes);
    r := Finished(drsID, []);
  }

  ghost predicate RootId(guid: nat -> string, tag: string, id: string) {
    id != "" && Trimmed(id) && if tag == "" then exists n: nat :: id == guid(n) else id == tag
  }

  ghost predicate MayStart<K(!new)>(c: Catalogue<K>, sp: Space<K>, root: K)
    requires WellFormed(sp)
    reads c
  {
    && sp.isDir(root) && c.spelling(root) != "/" && root in c.metas
    && !HasCompoundMarker(c.metas[root]) && !Nested(sp, c.metas, root)
  }

  /** Why creation refuses, in the order of its guards. */
  ghost predicate Refuses<K(!new)>(c: Catalogue<K>, sp: Space<K>, root: K, r: Outcome<K>)
    requires WellFormed(sp)
    reads c
  {
    root in c.metas &&
    if c.spelling(root) == "/" || !sp.isDir(root) then r.Refused?
    else if HasCompoundMarker(c.metas[root]) then r.AlreadyCompound?
    else Nested(sp, c.metas, root) && r.DescendantCompound?
  }

  lemma TagIsTrimmed(m: seq<Avu>)
    ensures Trimmed(Tag(m))
  {
    IdIsFirstId(m);
    if Ids(m) != [] {
      TrimSpaceTrims(Ids(m)[0].value);
    }
  }

  // ---------------------------------------------------------------- creation

  /** The catalogue as creation leaves it, and what the node errors say about it. */
  ghost predicate CreationOutcome<K(!new)>(env: Derived<K>, guid: nat -> string, base: Metas<K>, m: Metas<K>, root: K,
                                           ps: seq<K>, id: string, errors: seq<K>)
  {
    && root in base && root in m
    && NodesStage(env, guid, base, m[root := base[root]], ps)
    && NodesDoneBut(env, guid, base, m, ps, errors)
    && ((forall e :: e in errors ==> e == root) ==> NodesDone(env, guid, base, m, ps))
    && ((exists e :: e in errors && e != root) ==> m[root] == base[root])
    && (errors == [] ==> Tag(m[root]) == id && HasCompoundMarker(m[root]) && m[root] == MarkedRoot(base[root], id))
    && (HasCompoundMarker(m[root]) && Tag(m[root]) != id ==> root in errors)
    && ((forall e :: e in errors ==> e == root) && Tag(m[root]) != id ==>
          |errors| == if HasCompoundMarker(m[root]) then 1 else 2)
    && NonDrs(m[root]) == NonDrs(base[root])
    && RootId(guid, Tag(base[root]), id)
  }

  /** One state on the way: data objects only grow towards what they end as, and the root is not
      touched before all of them have got there. */
  ghost predicate DuringCreation<K(!new)>(env: Derived<K>, guid: nat -> string, base: Metas<K>, x: Metas<K>,
                                          m: Metas<K>, root: K, ps: seq<K>)
  {
    && root in base && root in x && root in m
    && OnTheWay(base, x[root := base[root]], m[root := base[root]], ps)
    && (x[root] != base[root] ==> NodesDone(env, guid, base, x, ps))
  }

  ghost predicate CreationHistory<K(!new)>(env: Derived<K>, guid: nat -> string, h1: seq<Metas<K>>, h0: seq<Metas<K>>,
                                           base: Metas<K>, m: Metas<K>, root: K, ps: seq<K>)
  {
    && h0 <= h1
    && forall i :: |h0| <= i < |h1| ==> DuringCreation(env, guid, base, h1[i], m, root, ps)
  }

  lemma BeforeTheRoot<K(!new)>(env: Derived<K>, guid: nat -> string, h1: seq<Metas<K>>, h0: seq<Metas<K>>,
                               base: Metas<K>, m: Metas<K>, root: K, ps: seq<K>)
    requires NodesHistory(h1, h0, base, m, ps) && root in base && root !in ps && m.Keys == base.Keys
    requires m[root] == base[root]
    ensures CreationHistory(env, guid, h1, h0, base, m, root, ps)
  {
    assert m[root := base[root]] == m;
    forall i | |h0| <= i < |h1| ensures DuringCreation(env, guid, base, h1[i], m, root, ps) {
      assert OnTheWay(base, h1[i], m, ps);
      assert h1[i][root := base[root]] == h1[i];
    }
  }

  lemma AfterTheRoot<K(!new)>(env: Derived<K>, guid: nat -> string, h2: seq<Metas<K>>, h1: seq<Metas<K>>,
                              h0: seq<Metas<K>>, base: Metas<K>, m1: Metas<K>, m: Metas<K>, root: K, ps: seq<K>,
                              mid: seq<Avu> -> bool)
    requires CreationHistory(env, guid, h1, h0, base, m1, root, ps) && root in base && root !in ps && root in m1
    requires m1.Keys == base.Keys && m1[root] == base[root]
    requires OnTheWay(base, m1, m1, ps) && NodesDone(env, guid, base, m1, ps)
    requires OnlyAt(m, m1, root) && Since(h2, h1, m1, root, mid)
    ensures CreationHistory(env, guid, h2, h0, base, m, root, ps)
  {
    assert m[root := base[root]] == m1 && m1[root := base[root]] == m1;
    forall i | |h0| <= i < |h2| ensures DuringCreation(env, guid, base, h2[i], m, root, ps) {
      if i < |h1| {
        assert h2[i] == h1[i] && DuringCreation(env, guid, base, h1[i], m1, root, ps);
      } else {
        assert OnlyAt(h2[i], m1, root);
        assert h2[i][root := base[root]] == m1;
      }
    }
  }

  lemma SamePaths<K(!new)>(env: Derived<K>, guid: nat -> string, h1: seq<Metas<K>>, h0: seq<Metas<K>>, base: Metas<K>,
                           m: Metas<K>, spelling: K -> string, a: seq<K>, b: seq<K>, errors: seq<K>)
    requires forall q :: q in a <==> q in b
    ensures NodesStage(env, guid, base, m, a) ==> NodesStage(env, guid, base, m, b)
    ensures NodesDone(env, guid, base, m, a) ==> NodesDone(env, guid, base, m, b)
    ensures NodesDoneBut(env, guid, base, m, a, errors) ==> NodesDoneBut(env, guid, base, m, b, errors)
    ensures NodesAttempted(env, spelling, base, m, a, errors) ==> NodesAttempted(env, spelling, base, m, b, errors)
    ensures NodesHistory(h1, h0, base, m, a) ==> NodesHistory(h1, h0, base, m, b)
  {
    if NodesHistory(h1, h0, base, m, a) {
      forall i | |h0| <= i < |h1| ensures OnTheWay(base, h1[i], m, b) {
        assert OnTheWay(base, h1[i], m, a);
      }
    }
  }

  lemma StageIsOnTheWay<K(!new)>(env: Derived<K>, guid: nat -> string, base: Metas<K>, m: Metas<K>, ps: seq<K>)
    requires NodesStage(env, guid, base, m, ps)
    ensures OnTheWay(base, m, m, ps)
  {
  }

  /** In no state has the root been touched. */
  ghost predicate RootUntouched<K(!new)>(h1: seq<Metas<K>>, h0: seq<Metas<K>>, base: Metas<K>, root: K) {
    && h0 <= h1 && root in base
    && forall i :: |h0| <= i < |h1| ==> root in h1[i] && h1[i][root] == base[root]
  }

  /** In no state is the root marked without having this id. */
  ghost predicate NeverMarkedWithout<K(!new)>(h1: seq<Metas<K>>, h0: seq<Metas<K>>, root: K, id: string) {
    && h0 <= h1
    && forall i :: |h0| <= i < |h1| && root in h1[i] && HasCompoundMarker(h1[i][root]) ==> Tag(h1[i][root]) == id
  }

  lemma StillUntouched<K(!new)>(h1: seq<Metas<K>>, h0: seq<Metas<K>>, base: Metas<K>, m: Metas<K>, root: K, ps: seq<K>)
    requires NodesHistory(h1, h0, base, m, ps) && root in base && root !in ps
    ensures RootUntouched(h1, h0, base, root)
  {
    forall i | |h0| <= i < |h1| ensures root in h1[i] && h1[i][root] == base[root] {
      assert OnTheWay(base, h1[i], m, ps);
    }
  }

  lemma MarkedTaggedThroughout<K(!new)>(h2: seq<Metas<K>>, h1: seq<Metas<K>>, h0: seq<Metas<K>>, base: Metas<K>,
                                        m1: Metas<K>, root: K, ps: seq<K>, id: string)
    requires NodesHistory(h1, h0, base, m1, ps) && root in base && root !in ps && !HasCompoundMarker(base[root])
    requires Since(h2, h1, m1, root, MarkedTagged(id, true))
    ensures NeverMarkedWithout(h2, h0, root, id)
  {
    forall i | |h0| <= i < |h2|
      ensures root in h2[i] && HasCompoundMarker(h2[i][root]) ==> Tag(h2[i][root]) == id
    {
      if i < |h1| {
        assert OnTheWay(base, h1[i], m1, ps) && h2[i] == h1[i];
      }
    }
  }

  lemma OutcomeWithoutRoot<K(!new)>(env: Derived<K>, guid: nat -> string, base: Metas<K>, m: Metas<K>, root: K,
                                    ps: seq<K>, id: string, errors: seq<K>)
    requires NodesStage(env, guid, base, m, ps) && NodesDoneBut(env, guid, base, m, ps, errors)
    requires root in base && root !in ps && !HasCompoundMarker(base[root]) && RootId(guid, Tag(base[root]), id)
    requires errors != [] && forall e :: e in errors ==> e in ps
    ensures CreationOutcome(env, guid, base, m, root, ps, id, errors)
  {
    assert m[root := base[root]] == m;
    assert errors[0] in errors && errors[0] != root;
  }

  function RootErrors<K>(root: K, idOk: bool, markOk: bool): seq<K> {
    (if idOk then [] else [root]) + (if markOk then [] else [root])
  }

  lemma OutcomeWithRoot<K(!new)>(env: Derived<K>, guid: nat -> string, base: Metas<K>, m1: Metas<K>, m: Metas<K>,
                                 root: K, ps: seq<K>, id: string, idOk: bool, markOk: bool)
    requires NodesStage(env, guid, base, m1, ps) && NodesDoneBut(env, guid, base, m1, ps, [])
    requires root in base && root !in ps && RootId(guid, Tag(base[root]), id)
    requires OnlyAt(m, m1, root) && NonDrs(m[root]) == NonDrs(m1[root])
    requires (markOk <==> HasCompoundMarker(m[root])) && (idOk ==> Tag(m[root]) == id)
    requires idOk && markOk ==> m[root] == MarkedRoot(m1[root], id)
    ensures CreationOutcome(env, guid, base, m, root, ps, id, RootErrors(root, idOk, markOk))
  {
    assert m[root := base[root]] == m1;
  }

  lemma RootAsideAttempted<K(!new)>(env: Derived<K>, spelling: K -> string, base: Metas<K>, m1: Metas<K>, m: Metas<K>,
                                    root: K, ps: seq<K>)
    requires NodesAttempted(env, spelling, base, m1, ps, []) && OnlyAt(m, m1, root) && root !in ps
    ensures NodesAttempted(env, spelling, base, m, ps, [])
  {
  }

  /** The data objects, as the list of selected paths tells it. */
  method DecorateNodes<K(==,!new)>(c: Catalogue<K>, env: Derived<K>, root: K, nodes: seq<TreeAt<K>>, drsID: string,
                                   ghost ps: seq<K>)
    returns (errors: seq<K>)
    requires c.Valid() && NodesIn(c.metas, nodes) && Distinct(PathsOfTrees(nodes))
    requires forall q :: q in PathsOfTrees(nodes) <==> q in ps
    requires root in c.metas && root !in ps && drsID != ""
    modifies c
    ensures c.Valid() && c.failures >= old(c.failures) && c.issued >= old(c.issued)
    ensures NodesStage(env, c.guid, old(c.metas), c.metas, ps)
    ensures NodesDoneBut(env, c.guid, old(c.metas), c.metas, ps, errors)
    ensures NodesHistory(c.history, old(c.history), old(c.metas), c.metas, ps)
    ensures CreationHistory(env, c.guid, c.history, old(c.history), old(c.metas), c.metas, root, ps)
    ensures forall e :: e in errors ==> e in ps
    ensures c.failures == old(c.failures) && GoodSupply(c.guid, c.spelling) && NoBlankIds(old(c.metas), ps) ==>
              NodesAttempted(env, c.spelling, old(c.metas), c.metas, ps, errors)
    ensures old(Kept(c)) && MayTake(old(c.metas), root, c.guid, c.spelling, old(c.issued), drsID) ==>
              Kept(c) && MayTake(c.metas, root, c.guid, c.spelling, c.issued, drsID)
  {
    ghost var base, h0 := c.metas, c.history;
    errors := ProcessNodes(c, env, nodes, drsID);
    SamePaths(env, c.guid, c.history, h0, base, c.metas, c.spelling, PathsOfTrees(nodes), ps, errors);
    BeforeTheRoot(env, c.guid, c.history, h0, base, c.metas, root, ps);
  }

  /** The writing part of creation: the data objects, then, only if none of them failed, the root. */
  method Decorate<K(==,!new)>(c: Catalogue<K>, env: Derived<K>, root: K, nodes: seq<TreeAt<K>>, drsID: string,
                              ghost ps: seq<K>)
    returns (errors: seq<K>)
    requires c.Valid() && NodesIn(c.metas, nodes) && Distinct(PathsOfTrees(nodes))
    requires forall q :: q in PathsOfTrees(nodes) <==> q in ps
    requires root in c.metas && root !in ps && !HasCompoundMarker(c.metas[root])
    requires RootId(c.guid, Tag(c.metas[root]), drsID)
    modifies c
    ensures c.Valid() && c.failures >= old(c.failures) && c.issued >= old(c.issued)
    ensures CreationOutcome(env, c.guid, old(c.metas), c.metas, root, ps, drsID, errors)
    ensures CreationHistory(env, c.guid, c.history, old(c.history), old(c.metas), c.metas, root, ps)
    ensures errors == [] ==> NeverMarkedWithout(c.history, old(c.history), root, drsID)
    ensures (exists e :: e in errors && e != root) ==> RootUntouched(c.history, old(c.history), old(c.metas), root)
    ensures c.failures == old(c.failures) && GoodSupply(c.guid, c.spelling) && NoBlankIds(old(c.metas), ps) ==>
              NodesAttempted(env, c.spelling, old(c.metas), c.metas, ps, errors)
    ensures old(Kept(c)) && MayTake(old(c.metas), root, c.guid, c.spelling, old(c.issued), drsID) ==> Kept(c)
  {
    ghost var base, h0 := c.metas, c.history;
    errors := DecorateNodes(c, env, root, nodes, drsID, ps);
    ghost var m1, h1 := c.metas, c.history;
    if errors != [] {
      OutcomeWithoutRoot(env, c.guid, base, m1, root, ps, drsID, errors);
      StillUntouched(h1, h0, base, m1, root, ps);
      return;
    }
    StageIsOnTheWay(env, c.guid, base, m1, ps);
    var idOk, markOk := MarkRoot(c, root, drsID);
    AfterTheRoot(env, c.guid, c.history, h1, h0, base, m1, c.metas, root, ps, MarkedTagged(drsID, idOk));
    OutcomeWithRoot(env, c.guid, base, m1, c.metas, root, ps, drsID, idOk, markOk);
    if idOk {
      MarkedTaggedThroughout(c.history, h1, h0, base, m1, root, ps, drsID);
    }
    errors := RootErrors(root, idOk, markOk);
    if c.failures == old(c.failures) && GoodSupply(c.guid, c.spelling) && NoBlankIds(base, ps) {
      RootAsideAttempted(env, c.spelling, base, m1, c.metas, root, ps);
    }
  }

  /** `CreateCompoundDrsObjectFromCollection`. */
  method CreateCompound<K(==,!new)>(c: Catalogue<K>, env: Derived<K>, sp: Space<K>, rules: Rules<K>)
    returns (r: Outcome<K>)
    requires c.Valid() && WellFormed(sp) && GoodSupply(c.guid, c.spelling)
    requires forall q :: q in Subtree(sp, rules.root) ==> q in c.metas
    modifies c
    ensures c.Valid() && c.failures >= old(c.failures) && c.issued >= old(c.issued)
    ensures !r.Finished? ==> c.metas == old(c.metas) && c.history == old(c.history)
    ensures r.Finished? || r.CallFailed? || old(Refuses(c, sp, rules.root, r))
    ensures r.Finished? ==>
              && old(MayStart(c, sp, rules.root))
              && CreationOutcome(env, c.guid, old(c.metas), c.metas, rules.root, Chosen(sp, rules), r.id, r.nodeErrors)
              && CreationHistory(env, c.guid, c.history, old(c.history), old(c.metas), c.metas, rules.root,
                                 Chosen(sp, rules))
              && (r.nodeErrors == [] ==> NeverMarkedWithout(c.history, old(c.history), rules.root, r.id))
              && ((exists e :: e in r.nodeErrors && e != rules.root) ==>
                    RootUntouched(c.history, old(c.history), old(c.metas), rules.root))
    ensures c.failures == old(c.failures) ==>
              && !r.CallFailed? && (r.Finished? <==> old(MayStart(c, sp, rules.root)))
              && (r.Finished? && NoBlankIds(old(c.metas), Chosen(sp, rules)) ==>
                    && NodesAttempted(env, c.spelling, old(c.metas), c.metas, Chosen(sp, rules), r.nodeErrors)
                    && (r.nodeErrors == [] <==> AcceptsAll(env, old(c.metas), c.spelling, Chosen(sp, rules))))
    ensures old(Kept(c)) ==> Kept(c)
  {
    var nodes;
    r, nodes := Plan(c, sp, rules);
    if !r.Finished? {
      return;
    }
    RootNotChosen(sp, rules);
    var errors := Decorate(c, env, rules.root, nodes, r.id, Chosen(sp, rules));
    if c.failures == old(c.failures) && NoBlankIds(old(c.metas), Chosen(sp, rules)) {
      NoErrorsIff(env, c.spelling, old(c.metas), c.metas, Chosen(sp, rules), errors);
    }
    r := Finished(r.id, errors);
  }

  lemma RootNotChosen<K(!new)>(sp: Space<K>, rules: Rules<K>)
    requires WellFormed(sp) && sp.isDir(rules.root)
    ensures rules.root !in Chosen(sp, rules)
  {
    FilterMembers(Selects(sp, rules), Subtree(sp, rules.root), rules.root);
  }
}
