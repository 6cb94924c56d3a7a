/** What every write of the DRS code keeps true of a catalogue: at most one DRS id on a path, no id on
    two paths, and the triples that are not DRS metadata untouched. The key type is left generic. */
module Identities {
  import opened Text
  import opened Lists
  import opened Avus
  import opened Catalogues

  /** The id that readers see. */
  function Tag(m: seq<Avu>): string { DrsIdFromMetadata(m) }

  ghost predicate Lone(m: seq<Avu>) {
    |Ids(m)| <= 1 && (Ids(m) != [] ==> Tag(m) != "")
  }

  /** New ids are never blank, never repeat, and never look like a path. */
  ghost predicate GoodSupply<K(!new)>(guid: nat -> string, spelling: K -> string) {
    && (forall n: nat :: guid(n) != "" && Trimmed(guid(n)))
    && (forall m: nat, n: nat :: m != n ==> guid(m) != guid(n))
    && (forall n: nat, p: K :: guid(n) != spelling(p))
    && (forall p: K :: spelling(p) != "")
  }

  ghost predicate Sound<K(!new)>(original: Metas<K>, metas: Metas<K>, guid: nat -> string, spelling: K -> string,
                                 issued: nat)
  {
    && metas.Keys == original.Keys
    && (forall p :: p in metas ==> Lone(metas[p]) && NonDrs(metas[p]) == NonDrs(original[p]))
    && (forall p :: p in metas ==> Tag(metas[p]) != spelling(p))
    && (forall p, q :: p in metas && q in metas && p != q && Tag(metas[p]) != "" ==> Tag(metas[p]) != Tag(metas[q]))
    && (forall p, n: nat :: p in metas && n >= issued ==> Tag(metas[p]) != guid(n))
  }

  ghost predicate AllSound<K(!new)>(original: Metas<K>, history: seq<Metas<K>>, guid: nat -> string,
                                    spelling: K -> string, issued: nat)
  {
    forall i :: 0 <= i < |history| ==> Sound(original, history[i], guid, spelling, issued)
  }

  /** Sound now, and after every write so far. */
  ghost predicate Kept<K(!new)>(c: Catalogue<K>)
    reads c
  {
    && GoodSupply(c.guid, c.spelling)
    && Sound(c.original, c.metas, c.guid, c.spelling, c.issued)
    && AllSound(c.original, c.history, c.guid, c.spelling, c.issued)
  }

  /** No path carries `id`, or will be given it later. */
  ghost predicate Available<K(!new)>(metas: Metas<K>, guid: nat -> string, spelling: K -> string, issued: nat,
                                     id: string)
  {
    && (forall q :: q in metas ==> Tag(metas[q]) != id && spelling(q) != id)
    && (forall n: nat :: n >= issued ==> guid(n) != id)
  }

  ghost predicate MayTake<K(!new)>(metas: Metas<K>, p: K, guid: nat -> string, spelling: K -> string, issued: nat,
                                   id: string)
  {
    p in metas && (id == "" || id == Tag(metas[p]) || Available(metas, guid, spelling, issued, id))
  }

  /** What one path's triples may turn into while it is given `id`. */
  ghost predicate Legit(s: seq<Avu>, t: seq<Avu>, id: string) {
    && Lone(t)
    && NonDrs(t) == NonDrs(s)
    && (Tag(t) == "" || Tag(t) == Tag(s) || Tag(t) == id)
  }

  lemma StepSound<K(!new)>(original: Metas<K>, base: Metas<K>, m: Metas<K>, p: K, guid: nat -> string,
                           spelling: K -> string, i0: nat, i1: nat, id: string)
    requires Sound(original, base, guid, spelling, i0) && i0 <= i1
    requires (forall q: K :: spelling(q) != "") && (forall n: nat :: guid(n) != "")
    requires MayTake(base, p, guid, spelling, i1, id)
    requires OnlyAt(m, base, p) && Legit(base[p], m[p], id)
    ensures Sound(original, m, guid, spelling, i1)
  {
  }

  lemma StaysKept<K(!new)>(original: Metas<K>, h0: seq<Metas<K>>, h1: seq<Metas<K>>, base: Metas<K>, m: Metas<K>, p: K,
                     mid: seq<Avu> -> bool, guid: nat -> string, spelling: K -> string, i0: nat, i1: nat, id: string)
    requires GoodSupply(guid, spelling) && i0 <= i1
    requires Sound(original, base, guid, spelling, i0) && AllSound(original, h0, guid, spelling, i0)
    requires MayTake(base, p, guid, spelling, i1, id)
    requires Since(h1, h0, base, p, mid)
    requires forall t :: mid(t) ==> Legit(base[p], t, id)
    requires OnlyAt(m, base, p) && mid(m[p])
    ensures Sound(original, m, guid, spelling, i1) && AllSound(original, h1, guid, spelling, i1)
  {
    StepSound(original, base, m, p, guid, spelling, i0, i1, id);
    forall i | 0 <= i < |h1| ensures Sound(original, h1[i], guid, spelling, i1) {
      if i < |h0| {
        assert h1[i] == h0[i];
      } else {
        StepSound(original, base, h1[i], p, guid, spelling, i0, i1, id);
      }
    }
  }

  lemma NextIsAvailable<K(!new)>(original: Metas<K>, metas: Metas<K>, guid: nat -> string, spelling: K -> string,
                                 issued: nat)
    requires GoodSupply(guid, spelling) && Sound(original, metas, guid, spelling, issued)
    ensures Available(metas, guid, spelling, issued + 1, guid(issued))
  {
  }

  // ---------------------------------------------------------------- one path

  ghost predicate BringsId(s: seq<Avu>, more: seq<Avu>, id: string) {
    Ids(more) != [] ==> Ids(s) == [] && |Ids(more)| == 1 && TrimSpace(Ids(more)[0].value) == id && id != ""
  }

  /** Appending DRS triples conserves the others. */
  lemma GrowthConserves(s: seq<Avu>, more: seq<Avu>, t: seq<Avu>)
    requires GrowsInto(s, more, t) && forall i :: 0 <= i < |more| ==> IsDrsMetadata(more[i])
    ensures NonDrs(t) == NonDrs(s)
  {
    var other := (a: Avu) => !IsDrsMetadata(a);
    var more' := more[..|t| - |s|];
    assert t == s + more';
    FilterAppend(other, s, more');
    FilterNone(other, more');
  }

  /** Deleting DRS triples conserves the others. */
  lemma PruningConserves(doomed: Avu -> bool, s: seq<Avu>, t: seq<Avu>)
    requires PrunedFrom(doomed, s, t) && forall a :: doomed(a) ==> IsDrsMetadata(a)
    ensures NonDrs(t) == NonDrs(s)
  {
    var k: nat :| k <= |Filter(doomed, s)| && t == Pruned(doomed, s, k);
    PruningKeepsRest(doomed, s, k, (a: Avu) => !IsDrsMetadata(a));
  }

  lemma GrowthLegit(s: seq<Avu>, more: seq<Avu>, t: seq<Avu>, id: string)
    requires Lone(s) && GrowsInto(s, more, t)
    requires forall i :: 0 <= i < |more| ==> IsDrsMetadata(more[i])
    requires BringsId(s, more, id)
    ensures Legit(s, t, id)
  {
    var k := |t| - |s|;
    var more' := more[..k];
    assert t == s + more';
    FilterAppend(IsId, s, more');
    FilterPrefix(IsId, more, k);
    GrowthConserves(s, more, t);
    IdIsFirstId(s);
    IdIsFirstId(t);
  }

  lemma PrunedLegit(doomed: Avu -> bool, s: seq<Avu>, t: seq<Avu>)
    requires Lone(s) && PrunedFrom(doomed, s, t)
    requires forall a :: doomed(a) ==> IsDrsMetadata(a)
    requires (forall a :: IsId(a) ==> doomed(a)) || (forall a :: IsId(a) ==> !doomed(a))
    ensures Legit(s, t, "")
  {
    var k: nat :| k <= |Filter(doomed, s)| && t == Pruned(doomed, s, k);
    PruningConserves(doomed, s, t);
    if forall a :: IsId(a) ==> doomed(a) {
      PruningLeavesEnd(doomed, s, k, IsId);
    } else {
      PruningKeepsRest(doomed, s, k, IsId);
    }
    IdIsFirstId(s);
    IdIsFirstId(t);
  }

  /** A catalogue whose triples outside the DRS vocabulary are those of another. */
  ghost predicate Conserved<K(!new)>(base: Metas<K>, m: Metas<K>) {
    m.Keys == base.Keys && forall q :: q in m ==> NonDrs(m[q]) == NonDrs(base[q])
  }
}
