/** Whole runs: any operations in any order, any of their writes failing. The key type is left
    generic. */
module Runs {
  import opened Lists
  import opened Avus
  import opened Catalogues
  import opened Spaces
  import opened Selections
  import opened Snapshots
  import opened Identities
  import opened Objects
  import opened Compounds
  import opened Strips

  datatype Op<!K> =
    | Create(p: K, mimeType: string, description: string, aliases: seq<string>)
    | CreateFromCollection(rules: Rules<K>)
    | SetField(p: K, field: string, value: string)
    | SetAliases(p: K, aliases: seq<string>)
    | Remove(p: K)
    | Strip(p: K)

  // ---------------------------------------------------------------- conservation

  lemma OneConserved<K(!new)>(base: Metas<K>, m: Metas<K>, p: K)
    requires OnlyAt(m, base, p) && NonDrs(m[p]) == NonDrs(base[p])
    ensures Conserved(base, m)
  {
  }

  lemma PlanIsDrs<K>(env: Derived<K>, p: K, s: seq<Avu>, id: string)
    requires Distinct(s)
    ensures AllDrs(NodePlan(env, p, s, id))
  {
    PrintedAreDrs(NewFields(env, p, "", "", [], id));
    CompletionIsNew(env, p, s);
  }

  lemma NodeConserved<K(!new)>(env: Derived<K>, guid: nat -> string, p: K, s: seq<Avu>, t: seq<Avu>)
    requires NodeStage(env, guid, p, s, t) && Distinct(s)
    ensures NonDrs(t) == NonDrs(s)
  {
    var n: nat :| GrowsInto(s, NodePlan(env, p, s, guid(n)), t);
    PlanIsDrs(env, p, s, guid(n));
    GrowthConserves(s, NodePlan(env, p, s, guid(n)), t);
  }

  lemma CreationConserved<K(!new)>(env: Derived<K>, guid: nat -> string, base: Metas<K>, m: Metas<K>, root: K,
                                   ps: seq<K>, id: string, errors: seq<K>)
    requires CreationOutcome(env, guid, base, m, root, ps, id, errors)
    requires forall q :: q in base ==> Distinct(base[q])
    ensures Conserved(base, m)
  {
    var m' := m[root := base[root]];
    assert m'.Keys == m.Keys;
    forall q | q in m ensures NonDrs(m[q]) == NonDrs(base[q]) {
      if q != root {
        assert m'[q] == m[q];
        if q in ps {
          NodeConserved(env, guid, q, base[q], m[q]);
        }
      }
    }
  }

  lemma StripConserved<K(!new)>(base: Metas<K>, m: Metas<K>, nodes: seq<K>)
    requires Stage(base, m, nodes)
    ensures Conserved(base, m)
  {
    forall q | q in m ensures NonDrs(m[q]) == NonDrs(base[q]) {
      if q in nodes {
        PruningConserves(IsDrsMetadata, base[q], m[q]);
      }
    }
  }

  // ---------------------------------------------------------------- one operation

  /** Everything listed under a catalogued path is catalogued. */
  ghost predicate Rooted<K(!new)>(sp: Space<K>, keys: set<K>) {
    WellFormed(sp) && forall p, q :: p in keys && q in Subtree(sp, p) ==> q in keys
  }

  method PerformUpdate<K(==,!new)>(c: Catalogue<K>, op: Op<K>)
    requires c.Valid() && (op.SetField? || op.SetAliases?)
    modifies c
    ensures c.Valid() && c.failures >= old(c.failures) && Conserved(old(c.metas), c.metas)
    ensures old(Kept(c)) ==> Kept(c)
  {
    ghost var base := c.metas;
    match op
    case SetField(p, field, value) =>
      var _ := UpdateField(c, p, field, value);
      if p in base && UpdatableAttribute(field).Some? {
        var name := UpdatableAttribute(field).value;
        ValueAvusCarry(name, value);
        ReplacingConserves(name, base[p], ValueAvus(name, value), c.metas[p]);
        OneConserved(base, c.metas, p);
      }
    case SetAliases(p, aliases) =>
      var _ := UpdateAliases(c, p, aliases);
      if p in base {
        AliasAvusCarry(NormalizedAliases(aliases));
        ReplacingConserves(ALIAS, base[p], AliasAvus(NormalizedAliases(aliases)), c.metas[p]);
        OneConserved(base, c.metas, p);
      }
  }

  method PerformCreation<K(==,!new)>(c: Catalogue<K>, env: Derived<K>, sp: Space<K>, op: Op<K>)
    requires c.Valid() && Rooted(sp, c.metas.Keys) && GoodSupply(c.guid, c.spelling)
    requires op.Create? || op.CreateFromCollection?
    modifies c
    ensures c.Valid() && c.failures >= old(c.failures) && Conserved(old(c.metas), c.metas)
    ensures old(Kept(c)) ==> Kept(c)
  {
    ghost var base := c.metas;
    match op
    case Create(p, mimeType, description, aliases) =>
      ghost var avus := Printed(env, p, mimeType, description, aliases, c.guid(c.issued));
      PrintedAreDrs(NewFields(env, p, mimeType, description, aliases, c.guid(c.issued)));
      var _ := CreateDrsObject(c, env, p, mimeType, description, aliases);
      if p in base {
        GrowthConserves(base[p], avus, c.metas[p]);
        OneConserved(base, c.metas, p);
      }
    case CreateFromCollection(rules) =>
      if rules.root in c.metas {
        var r := CreateCompound(c, env, sp, rules);
        if r.Finished? {
          CreationConserved(env, c.guid, base, c.metas, rules.root, Chosen(sp, rules), r.id, r.nodeErrors);
        }
      }
  }

  method PerformCleaning<K(==,!new)>(c: Catalogue<K>, sp: Space<K>, op: Op<K>)
    requires c.Valid() && Rooted(sp, c.metas.Keys) && (op.Remove? || op.Strip?)
    modifies c
    ensures c.Valid() && c.failures >= old(c.failures) && Conserved(old(c.metas), c.metas)
    ensures old(Kept(c)) ==> Kept(c)
  {
    ghost var base := c.metas;
    match op
    case Remove(p) =>
      var _ := RemoveDrsObject(c, p);
      if p in base {
        PruningConserves(IsDrsMetadata, base[p], c.metas[p]);
        OneConserved(base, c.metas, p);
      }
    case Strip(p) =>
      var _, _ := StripDrsSemantics(c, sp, p);
      StripConserved(base, c.metas, Subtree(sp, p));
  }

  method Perform<K(==,!new)>(c: Catalogue<K>, env: Derived<K>, sp: Space<K>, op: Op<K>)
    requires c.Valid() && Rooted(sp, c.metas.Keys) && GoodSupply(c.guid, c.spelling)
    modifies c
    ensures c.Valid() && c.failures >= old(c.failures) && Conserved(old(c.metas), c.metas)
    ensures old(Kept(c)) ==> Kept(c)
  {
    if op.SetField? || op.SetAliases? {
      PerformUpdate(c, op);
    } else if op.Create? || op.CreateFromCollection? {
      PerformCreation(c, env, sp, op);
    } else {
      PerformCleaning(c, sp, op);
    }
  }

  // ---------------------------------------------------------------- runs

  /** Any run, with any failures, conserves what is not DRS metadata, and keeps the ids in order in
      every state it goes through. */
  method Run<K(==,!new)>(c: Catalogue<K>, env: Derived<K>, sp: Space<K>, ops: seq<Op<K>>)
    requires c.Valid() && Rooted(sp, c.metas.Keys) && GoodSupply(c.guid, c.spelling)
    modifies c
    ensures c.Valid() && c.failures >= old(c.failures) && Conserved(old(c.metas), c.metas)
    ensures old(Kept(c)) ==> Kept(c)
  {
    for i := 0 to |ops|
      invariant c.Valid() && c.failures >= old(c.failures) && Conserved(old(c.metas), c.metas)
      invariant old(Kept(c)) ==> Kept(c)
    {
      Perform(c, env, sp, ops[i]);
    }
  }

  /** A catalogue without DRS metadata has its ids in order. */
  lemma StartsKept<K(!new)>(c: Catalogue<K>)
    requires GoodSupply(c.guid, c.spelling) && c.metas == c.original && c.history == []
    requires forall q :: q in c.metas ==> DrsOnly(c.metas[q]) == []
    ensures Kept(c)
  {
    forall q | q in c.metas ensures Ids(c.metas[q]) == [] && Tag(c.metas[q]) == "" {
      forall i | 0 <= i < |c.metas[q]| ensures !IsId(c.metas[q][i]) {
        FilterMembers(IsDrsMetadata, c.metas[q], c.metas[q][i]);
      }
      FilterNone(IsId, c.metas[q]);
      IdIsFirstId(c.metas[q]);
    }
  }

  /** Every state that a run can reach from a catalogue without DRS metadata has at most one id on a
      path, no id on two paths, and the triples outside the DRS vocabulary as they were. */
  method RunFromBare<K(==,!new)>(metas: Metas<K>, guid: nat -> string, spelling: K -> string, env: Derived<K>,
                                 sp: Space<K>, ops: seq<Op<K>>)
    returns (c: Catalogue<K>)
    requires forall q :: q in metas ==> Distinct(metas[q]) && DrsOnly(metas[q]) == []
    requires Rooted(sp, metas.Keys) && GoodSupply(guid, spelling)
    ensures fresh(c) && Sound(metas, c.metas, guid, spelling, c.issued)
    ensures AllSound(metas, c.history, guid, spelling, c.issued)
  {
    c := new Catalogue(metas, guid, spelling);
    StartsKept(c);
    Run(c, env, sp, ops);
  }

  /** Stripping undoes every DRS write: whatever has been done, and half done, a strip that succeeds
      leaves what a strip of the original catalogue would have left. It succeeds if nothing fails from
      when it begins, `before`, unless it is asked to strip "/" or something that is not catalogued. */
  method RunThenStrip<K(==,!new)>(c: Catalogue<K>, env: Derived<K>, sp: Space<K>, ops: seq<Op<K>>, p: K)
    returns (ok: bool, ghost before: nat)
    requires c.Valid() && Rooted(sp, c.metas.Keys) && GoodSupply(c.guid, c.spelling)
    modifies c
    ensures old(c.failures) <= before <= c.failures
    ensures ok ==> Bare(old(c.metas), c.metas, Subtree(sp, p))
    ensures c.failures == before ==>
              (ok <==> c.spelling(p) != "/" && forall q :: q in Subtree(sp, p) ==> q in old(c.metas))
    ensures Conserved(old(c.metas), c.metas) && (old(Kept(c)) ==> Kept(c))
  {
    ghost var base := c.metas;
    Run(c, env, sp, ops);
    ghost var m1 := c.metas;
    before := c.failures;
    var result;
    ok, result := StripDrsSemantics(c, sp, p);
    StripConserved(m1, c.metas, Subtree(sp, p));
    if ok {
      forall q | q in Subtree(sp, p) ensures q in base && c.metas[q] == NonDrs(base[q]) {
        assert q in m1 && c.metas[q] == NonDrs(m1[q]);
      }
    }
  }
}
