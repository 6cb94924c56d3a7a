/** Stripping a subtree of its DRS metadata. The key type is left generic. */
module Strips {
  import opened Lists
  import opened Avus
  import opened Catalogues
  import opened Spaces
  import opened Identities
  import opened Objects

  class StripResult {
    var pathsVisited: nat
    var pathsWithDrsMetadata: nat
    var avusRemoved: nat

    constructor ()
      ensures pathsVisited == 0 && pathsWithDrsMetadata == 0 && avusRemoved == 0
    {
      pathsVisited, pathsWithDrsMetadata, avusRemoved := 0, 0, 0;
    }
  }

  // ---------------------------------------------------------------- stages of a strip

  /** Only these paths have lost triples, only DRS triples, and each in the order of its listing. */
  ghost predicate Stage<K(!new)>(base: Metas<K>, m: Metas<K>, nodes: seq<K>) {
    && m.Keys == base.Keys
    && forall q :: q in m ==> if q in nodes then PrunedFrom(IsDrsMetadata, base[q], m[q]) else m[q] == base[q]
  }

  ghost predicate Stages<K(!new)>(after: seq<Metas<K>>, before: seq<Metas<K>>, base: Metas<K>, m: Metas<K>,
                                  nodes: seq<K>)
  {
    && before <= after
    && Stage(base, m, nodes)
    && forall i :: |before| <= i < |after| ==> Stage(base, after[i], nodes)
  }

  /** These paths are there, and have no DRS triple left. */
  ghost predicate Bare<K>(base: Metas<K>, m: Metas<K>, nodes: seq<K>) {
    forall q :: q in nodes ==> q in base && q in m && m[q] == NonDrs(base[q])
  }

  ghost function DrsCount<K>(metas: Metas<K>): K -> nat {
    q => if q in metas then |DrsOnly(metas[q])| else 0
  }

  ghost function DrsTagged<K>(metas: Metas<K>): K -> nat {
    q => if q in metas && DrsOnly(metas[q]) != [] then 1 else 0
  }

  lemma StageWider<K(!new)>(base: Metas<K>, m: Metas<K>, a: seq<K>, all: seq<K>)
    requires Stage(base, m, a) && forall q :: q in a ==> q in all
    ensures Stage(base, m, all)
  {
    forall q | q in m && q in all ensures PrunedFrom(IsDrsMetadata, base[q], m[q]) {
      if q !in a {
        NothingPruned(m[q]);
      }
    }
  }

  lemma StagesWider<K(!new)>(h1: seq<Metas<K>>, h0: seq<Metas<K>>, base: Metas<K>, m: Metas<K>, a: seq<K>, all: seq<K>)
    requires Stages(h1, h0, base, m, a) && forall q :: q in a ==> q in all
    ensures Stages(h1, h0, base, m, all)
  {
    StageWider(base, m, a, all);
    forall i | |h0| <= i < |h1| ensures Stage(base, h1[i], all) {
      StageWider(base, h1[i], a, all);
    }
  }

  lemma StageThen<K(!new)>(base: Metas<K>, m1: Metas<K>, m: Metas<K>, a: seq<K>, b: seq<K>)
    requires Stage(base, m1, a) && Stage(m1, m, b) && forall q :: q in a ==> q !in b
    ensures Stage(base, m, a + b)
  {
    StageWider(base, m1, a, a + b);
  }

  /** A strip of `a` followed by a strip of `b` is a strip of both. */
  lemma StagesThen<K(!new)>(h2: seq<Metas<K>>, h1: seq<Metas<K>>, h0: seq<Metas<K>>, base: Metas<K>, m1: Metas<K>,
                            m: Metas<K>, a: seq<K>, b: seq<K>)
    requires Stages(h1, h0, base, m1, a) && Stages(h2, h1, m1, m, b) && Distinct(a + b)
    ensures Stages(h2, h0, base, m, a + b)
    ensures Bare(base, m1, a) && Bare(m1, m, b) ==> Bare(base, m, a + b)
    ensures Total(DrsCount(base), a + b) == Total(DrsCount(base), a) + Total(DrsCount(m1), b)
    ensures Total(DrsTagged(base), a + b) == Total(DrsTagged(base), a) + Total(DrsTagged(m1), b)
  {
    DistinctAppend(a, b);
    StageThen(base, m1, m, a, b);
    forall i | |h0| <= i < |h2| ensures Stage(base, h2[i], a + b) {
      if i < |h1| {
        assert h2[i] == h1[i];
        StageWider(base, h2[i], a, a + b);
      } else {
        StageThen(base, m1, h2[i], a, b);
      }
    }
    TotalAppend(DrsCount(base), a, b);
    TotalAppend(DrsTagged(base), a, b);
    TotalSame(DrsCount(base), DrsCount(m1), b);
    TotalSame(DrsTagged(base), DrsTagged(m1), b);
  }

  // ---------------------------------------------------------------- the strip

  /** The part of the recursion that concerns one path. */
  method StripPath<K(==,!new)>(c: Catalogue<K>, p: K, result: StripResult) returns (ok: bool)
    requires c.Valid()
    modifies c, result
    ensures c.Valid() && c.failures >= old(c.failures) && c.issued == old(c.issued)
    ensures Stages(c.history, old(c.history), old(c.metas), c.metas, [p])
    ensures ok ==> Bare(old(c.metas), c.metas, [p])
    ensures c.failures == old(c.failures) ==> (ok <==> p in c.metas)
    ensures ok ==>
              && result.pathsVisited == old(result.pathsVisited) + 1
              && result.pathsWithDrsMetadata == old(result.pathsWithDrsMetadata) + DrsTagged(old(c.metas))(p)
              && result.avusRemoved == old(result.avusRemoved) + DrsCount(old(c.metas))(p)
    ensures old(Kept(c)) ==> Kept(c)
  {
    result.pathsVisited := result.pathsVisited + 1;
    forall q | q in c.metas ensures PrunedFrom(IsDrsMetadata, c.metas[q], c.metas[q]) {
      NothingPruned(c.metas[q]);
    }
    var listing := c.ListMetadata(p);
    if !listing.Got? {
      return false;
    }
    ok := DeleteDrs(c, p, listing.value);
    if !ok {
      return;
    }
    var removedFromPath := |DrsOnly(listing.value)|;
    if removedFromPath > 0 {
      result.pathsWithDrsMetadata := result.pathsWithDrsMetadata + 1;
      result.avusRemoved := result.avusRemoved + removedFromPath;
    }
  }

  /** `stripDrsSemanticsRecursive`: it goes through the subtree until a call fails. */
  method StripRecursive<K(==,!new)>(c: Catalogue<K>, sp: Space<K>, p: K, result: StripResult) returns (ok: bool)
    requires c.Valid() && WellFormed(sp)
    modifies c, result
    ensures c.Valid() && c.failures >= old(c.failures) && c.issued == old(c.issued)
    ensures Stages(c.history, old(c.history), old(c.metas), c.metas, Subtree(sp, p))
    ensures ok ==> Bare(old(c.metas), c.metas, Subtree(sp, p))
    ensures c.failures == old(c.failures) ==> (ok <==> forall q :: q in Subtree(sp, p) ==> q in c.metas)
    ensures ok ==> Counted(result, old(result.pathsVisited), old(result.pathsWithDrsMetadata), old(result.avusRemoved),
                           old(c.metas), Subtree(sp, p))
    ensures old(Kept(c)) ==> Kept(c)
    decreases sp.bound - sp.rank(p), |sp.kids(p)| + 1
  {
    SubtreeSound(sp, p);
    assert GoodKids(sp, p);
    ghost var base, h0 := c.metas, c.history;
    ghost var visited, tagged, removed := result.pathsVisited, result.pathsWithDrsMetadata, result.avusRemoved;
    ghost var below := if sp.isDir(p) then SubtreeAll(sp, p, sp.kids(p)) else [];
    ok := StripPath(c, p, result);
    ghost var m1, h1 := c.metas, c.history;
    CountOne(result, visited, tagged, removed, base, p);
    if ok && sp.isDir(p) {
      ok := c.Attempt();
      if ok {
        ok := StripChildren(c, sp, p, sp.kids(p), result);
        StagesThen(c.history, h1, h0, base, m1, c.metas, [p], below);
        return;
      }
    }
    StagesWider(c.history, h0, base, c.metas, [p], [p] + below);
  }

  method StripChildren<K(==,!new)>(c: Catalogue<K>, sp: Space<K>, p: K, cs: seq<K>, result: StripResult)
    returns (ok: bool)
    requires c.Valid() && WellFormed(sp) && Distinct(cs) && forall k :: k in cs ==> k in sp.kids(p)
    modifies c, result
    ensures c.Valid() && c.failures >= old(c.failures) && c.issued == old(c.issued)
    ensures Stages(c.history, old(c.history), old(c.metas), c.metas, SubtreeAll(sp, p, cs))
    ensures ok ==> Bare(old(c.metas), c.metas, SubtreeAll(sp, p, cs))
    ensures c.failures == old(c.failures) ==> (ok <==> forall q :: q in SubtreeAll(sp, p, cs) ==> q in c.metas)
    ensures ok ==> Counted(result, old(result.pathsVisited), old(result.pathsWithDrsMetadata), old(result.avusRemoved),
                           old(c.metas), SubtreeAll(sp, p, cs))
    ensures old(Kept(c)) ==> Kept(c)
    decreases sp.bound - sp.rank(p), |cs|
  {
    ok := true;
    ghost var base, h0 := c.metas, c.history;
    ghost var all := SubtreeAll(sp, p, cs);
    SubtreeAllSound(sp, p, cs);
    for i := 0 to |cs|
      invariant c.Valid() && c.failures >= old(c.failures) && c.issued == old(c.issued)
      invariant Stages(c.history, h0, base, c.metas, SubtreeAll(sp, p, cs[..i]))
      invariant Bare(base, c.metas, SubtreeAll(sp, p, cs[..i]))
      invariant Counted(result, old(result.pathsVisited), old(result.pathsWithDrsMetadata), old(result.avusRemoved),
                        base, SubtreeAll(sp, p, cs[..i]))
      invariant old(Kept(c)) ==> Kept(c)
    {
      ghost var a, b := SubtreeAll(sp, p, cs[..i]), Subtree(sp, cs[i]);
      ghost var m1, h1 := c.metas, c.history;
      assert GoodKids(sp, p) && cs[i] in cs;
      SubtreeAllStep(sp, p, cs, i);
      SubtreeAllPrefix(sp, p, cs, i + 1);
      assert a + b <= all;
      DistinctPrefix(a + b, all);
      ok := StripRecursive(c, sp, cs[i], result);
      StagesThen(c.history, h1, h0, base, m1, c.metas, a, b);
      if !ok {
        StagesWider(c.history, h0, base, c.metas, a + b, all);
        return;
      }
    }
    assert cs[..|cs|] == cs;
  }

  /** The counters have grown by the nodes visited, the nodes tagged and the triples removed. */
  ghost predicate Counted<K>(result: StripResult, visited: nat, tagged: nat, removed: nat, base: Metas<K>,
                             nodes: seq<K>)
    reads result
  {
    && result.pathsVisited == visited + |nodes|
    && result.pathsWithDrsMetadata == tagged + Total(DrsTagged(base), nodes)
    && result.avusRemoved == removed + Total(DrsCount(base), nodes)
  }

  lemma TotalOne<K>(f: K -> nat, p: K)
    ensures Total(f, [p]) == f(p)
  {
    assert [p][..0] == [];
  }

  lemma CountOne<K>(result: StripResult, visited: nat, tagged: nat, removed: nat, base: Metas<K>, p: K)
    ensures result.pathsVisited == visited + 1 && result.pathsWithDrsMetadata == tagged + DrsTagged(base)(p)
            && result.avusRemoved == removed + DrsCount(base)(p) ==>
              Counted(result, visited, tagged, removed, base, [p])
  {
    TotalOne(DrsTagged(base), p);
    TotalOne(DrsCount(base), p);
  }

  /** `StripDrsSemantics`: on success nothing at or below the path has DRS metadata left, everything
      else is as it was, and the counters tell what was done. On failure it has stopped part way. */
  method StripDrsSemantics<K(==,!new)>(c: Catalogue<K>, sp: Space<K>, p: K) returns (ok: bool, result: StripResult)
    requires c.Valid() && WellFormed(sp)
    modifies c
    ensures c.Valid() && c.failures >= old(c.failures) && c.issued == old(c.issued)
    ensures Stages(c.history, old(c.history), old(c.metas), c.metas, Subtree(sp, p))
    ensures ok ==> Bare(old(c.metas), c.metas, Subtree(sp, p))
    ensures ok ==> Counted(result, 0, 0, 0, old(c.metas), Subtree(sp, p))
    ensures c.failures == old(c.failures) ==>
              (ok <==> c.spelling(p) != "/" && forall q :: q in Subtree(sp, p) ==> q in c.metas)
    ensures old(Kept(c)) ==> Kept(c)
  {
    result := new StripResult();
    forall q | q in c.metas ensures PrunedFrom(IsDrsMetadata, c.metas[q], c.metas[q]) {
      NothingPruned(c.metas[q]);
    }
    if c.spelling(p) == "/" {
      return false, result;
    }
    ok := c.Attempt();
    if ok {
      ok := StripRecursive(c, sp, p, result);
    }
  }

  lemma BareHasNoDrs(s: seq<Avu>, t: seq<Avu>)
    ensures DrsOnly(NonDrs(s)) == [] && NonDrs(NonDrs(s)) == NonDrs(s)
    ensures PrunedFrom(IsDrsMetadata, NonDrs(s), t) ==> t == NonDrs(s)
  {
    var other := (a: Avu) => !IsDrsMetadata(a);
    forall i | 0 <= i < |NonDrs(s)| ensures other(NonDrs(s)[i]) {
      assert NonDrs(s)[i] in NonDrs(s);
      FilterMembers(other, s, NonDrs(s)[i]);
    }
    FilterNone(IsDrsMetadata, NonDrs(s));
    FilterAll(other, NonDrs(s));
  }

  /** A second strip finds nothing to remove, whether or not it runs to the end. */
  lemma SecondStripRemovesNothing<K(!new)>(base: Metas<K>, m: Metas<K>, nodes: seq<K>, again: Metas<K>)
    requires Bare(base, m, nodes) && Stage(m, again, nodes)
    ensures again == m
    ensures Total(DrsCount(m), nodes) == 0 && Total(DrsTagged(m), nodes) == 0
  {
    forall q | q in nodes ensures DrsOnly(m[q]) == [] && again[q] == m[q] {
      BareHasNoDrs(base[q], again[q]);
    }
    TotalOnes(DrsCount(m), nodes, 0);
    TotalOnes(DrsTagged(m), nodes, 0);
  }
}
