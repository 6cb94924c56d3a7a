/** The metadata part of an iRODS catalogue: triples by path, changed one triple at a time by calls
    that may fail without effect. The key type is left generic. */
module Catalogues {
  import opened Lists
  import opened Avus

  /** What the iRODS filesystem answers to a stat or a metadata listing. */
  datatype Answer<+T> = Got(value: T) | NotFound | Failed

  type Metas<K> = map<K, seq<Avu>>

  /** A catalogue holds a set of triples for a path: adding one that is there already fails, and so
      does deleting one that is not. `failures` counts the calls that failed for another reason, so
      that a run without failures is one that leaves it unchanged. `history` records the catalogue
      after every write, and `original` what it held at first. */
  class Catalogue<K(==,!new)> {
    const guid: nat -> string
    const spelling: K -> string
    ghost const original: Metas<K>
    var metas: Metas<K>
    var issued: nat
    var failures: nat
    ghost var history: seq<Metas<K>>

    ghost predicate Valid()
      reads this
    {
      forall p :: p in metas ==> Distinct(metas[p])
    }

    constructor (metas: Metas<K>, guid: nat -> string, spelling: K -> string)
      requires forall p :: p in metas ==> Distinct(metas[p])
      ensures Valid()
      ensures this.metas == metas && original == metas && history == [] && failures == 0 && issued == 0
      ensures this.guid == guid && this.spelling == spelling
    {
      this.metas, this.original, history, failures, issued := metas, metas, [], 0, 0;
      this.guid, this.spelling := guid, spelling;
    }

    /** Any call whose answer does not depend on the metadata. */
    method Attempt() returns (ok: bool)
      modifies this`failures
      ensures failures == if ok then old(failures) else old(failures) + 1
    {
      ok := *;
      if !ok {
        failures := failures + 1;
      }
    }

    /** `newGUID`. */
    method NewGuid() returns (ok: bool, id: string)
      modifies this`failures, this`issued
      ensures failures == if ok then old(failures) else old(failures) + 1
      ensures ok ==> id == guid(old(issued)) && issued == old(issued) + 1
      ensures !ok ==> issued == old(issued)
    {
      id := "";
      ok := Attempt();
      if ok {
        id := guid(issued);
        issued := issued + 1;
      }
    }

    method ListMetadata(p: K) returns (answer: Answer<seq<Avu>>)
      modifies this`failures
      ensures answer.Got? ==> p in metas && answer.value == metas[p]
      ensures answer.NotFound? ==> p !in metas
      ensures failures == if answer.Failed? then old(failures) + 1 else old(failures)
    {
      var ok := Attempt();
      if !ok {
        return Failed;
      }
      return if p in metas then Got(metas[p]) else NotFound;
    }

    method AddMetadata(p: K, a: Avu) returns (ok: bool)
      requires Valid()
      modifies this`metas, this`failures, this`history
      ensures Valid()
      ensures ok ==> p in old(metas) && a !in old(metas)[p] && failures == old(failures)
      ensures ok ==> metas == old(metas)[p := old(metas)[p] + [a]] && history == old(history) + [metas]
      ensures !ok ==> metas == old(metas) && history == old(history)
      ensures !ok ==> failures > old(failures) || p !in metas || a in metas[p]
      ensures failures >= old(failures)
    {
      ok := Attempt();
      if !ok {
        return;
      }
      if p !in metas || a in metas[p] {
        return false;
      }
      metas := metas[p := metas[p] + [a]];
      history := history + [metas];
    }

    method DeleteMetadataByAVU(p: K, a: Avu) returns (ok: bool)
      requires Valid()
      modifies this`metas, this`failures, this`history
      ensures Valid()
      ensures ok ==> p in old(metas) && a in old(metas)[p] && failures == old(failures)
      ensures ok ==> metas == old(metas)[p := Without(old(metas)[p], a)] && history == old(history) + [metas]
      ensures !ok ==> metas == old(metas) && history == old(history)
      ensures !ok ==> failures > old(failures) || p !in metas || a !in metas[p]
      ensures failures >= old(failures)
    {
      ok := Attempt();
      if !ok {
        return;
      }
      if p !in metas || a !in metas[p] {
        return false;
      }
      FilterDistinct((x: Avu) => x != a, metas[p]);
      metas := metas[p := Without(metas[p], a)];
      history := history + [metas];
    }

    /** The loop that writes triples: it stops at the first failure, with a prefix of them written. */
    method AddAll(p: K, avus: seq<Avu>) returns (ok: bool)
      requires Valid() && p in metas
      modifies this`metas, this`failures, this`history
      ensures Valid()
      ensures OnlyAt(metas, old(metas), p) && GrowsInto(old(metas)[p], avus, metas[p])
      ensures ok <==> metas[p] == old(metas)[p] + avus
      ensures failures == old(failures) ==> (ok <==> Distinct(old(metas)[p] + avus))
      ensures failures == old(failures) ==> AsFarAsNew(old(metas)[p], avus, metas[p])
      ensures failures >= old(failures)
      ensures Since(history, old(history), old(metas), p, Upto(old(metas)[p], metas[p]))
    {
      ghost var s := metas[p];
      assert avus[..0] == [] && s + [] == s;
      assert GrowsInto(s, avus, s);
      for i := 0 to |avus|
        invariant Valid()
        invariant OnlyAt(metas, old(metas), p) && metas[p] == s + avus[..i]
        invariant failures >= old(failures)
        invariant Since(history, old(history), old(metas), p, Upto(s, metas[p]))
      {
        ok := AddMetadata(p, avus[i]);
        if !ok {
          NewTriple(s, avus, i);
          GrownPrefix(s, avus, i);
          return;
        }
        GrownPrefix(s, avus, i + 1);
        assert s + avus[..i + 1] == s + avus[..i] + [avus[i]];
      }
      assert avus[..|avus|] == avus;
      ok := true;
    }

    /** The loop that deletes the triples of a listing that some test selects: it stops at the first
        failure, after `k` of them. */
    method DeleteAll(p: K, listed: seq<Avu>, doomed: Avu -> bool) returns (ok: bool, ghost k: nat)
      requires Valid() && p in metas && metas[p] == listed
      modifies this`metas, this`failures, this`history
      ensures Valid()
      ensures k <= |Filter(doomed, listed)|
      ensures OnlyAt(metas, old(metas), p) && metas[p] == Pruned(doomed, listed, k)
      ensures ok <==> k == |Filter(doomed, listed)|
      ensures failures == old(failures) ==> ok
      ensures failures >= old(failures)
      ensures Since(history, old(history), old(metas), p, Prunings(doomed, listed))
    {
      k := 0;
      assert listed[..0] == [];
      for i := 0 to |listed|
        invariant k == |Filter(doomed, listed[..i])| <= |Filter(doomed, listed)|
        invariant Valid()
        invariant OnlyAt(metas, old(metas), p) && metas[p] == Pruned(doomed, listed, k)
        invariant failures >= old(failures)
        invariant Since(history, old(history), old(metas), p, Prunings(doomed, listed))
      {
        DoomedSoFar(doomed, listed, i);
        if doomed(listed[i]) {
          PruneOneMore(doomed, listed, k);
          ok := DeleteMetadataByAVU(p, listed[i]);
          if !ok {
            return;
          }
          k := k + 1;
        }
      }
      assert listed[..|listed|] == listed;
      ok := true;
    }
  }

  function Without(s: seq<Avu>, a: Avu): seq<Avu> {
    Filter((x: Avu) => x != a, s)
  }

  /** A sequence without its first `k` doomed elements. */
  function Pruned(doomed: Avu -> bool, s: seq<Avu>, k: nat): seq<Avu> {
    if s == [] || k == 0 then s
    else if doomed(s[0]) then Pruned(doomed, s[1..], k - 1)
    else [s[0]] + Pruned(doomed, s[1..], k)
  }

  ghost predicate PrunedFrom(doomed: Avu -> bool, s: seq<Avu>, t: seq<Avu>) {
    exists k: nat :: k <= |Filter(doomed, s)| && t == Pruned(doomed, s, k)
  }

  /** `t` is `s` with some beginning of `more` appended. */
  ghost predicate GrowsInto(s: seq<Avu>, more: seq<Avu>, t: seq<Avu>) {
    s <= t && t <= s + more
  }

  /** `t` is `s` with `more` appended up to the first triple that is there already. */
  ghost predicate AsFarAsNew(s: seq<Avu>, more: seq<Avu>, t: seq<Avu>) {
    GrowsInto(s, more, t) && (|t| < |s| + |more| ==> more[|t| - |s|] in t)
  }

  /** Between `s` and `t`, by appending. */
  ghost function Upto(s: seq<Avu>, t: seq<Avu>): seq<Avu> -> bool {
    x => s <= x && x <= t
  }

  ghost function Prunings(doomed: Avu -> bool, s: seq<Avu>): seq<Avu> -> bool {
    t => PrunedFrom(doomed, s, t)
  }

  lemma GrownPrefix(s: seq<Avu>, more: seq<Avu>, k: nat)
    requires k <= |more|
    ensures GrowsInto(s, more, s + more[..k])
  {
    assert s + more == s + more[..k] + more[k..];
  }

  /** Only the triples of `p` differ. */
  ghost predicate OnlyAt<K(!new)>(a: Metas<K>, b: Metas<K>, p: K) {
    p in a && a.Keys == b.Keys && forall q :: q in a && q != p ==> a[q] == b[q]
  }

  /** Since `before`, only the triples of `p` have been written, and each write left them as `mid`
      says. */
  ghost predicate Since<K(!new)>(after: seq<Metas<K>>, before: seq<Metas<K>>, base: Metas<K>, p: K,
                                 mid: seq<Avu> -> bool)
  {
    && before <= after
    && forall i :: |before| <= i < |after| ==> OnlyAt(after[i], base, p) && mid(after[i][p])
  }

  /** Two stretches of writes to the same path, one after the other. */
  lemma SinceBoth<K(!new)>(h2: seq<Metas<K>>, h1: seq<Metas<K>>, h0: seq<Metas<K>>, base1: Metas<K>, base: Metas<K>,
                           p: K, mid0: seq<Avu> -> bool, mid1: seq<Avu> -> bool, mid: seq<Avu> -> bool)
    requires Since(h1, h0, base, p, mid0) && OnlyAt(base1, base, p) && Since(h2, h1, base1, p, mid1)
    requires forall t :: mid0(t) || mid1(t) ==> mid(t)
    ensures Since(h2, h0, base, p, mid)
  {
    forall i | |h0| <= i < |h2| ensures OnlyAt(h2[i], base, p) && mid(h2[i][p]) {
      if i < |h1| {
        assert h2[i] == h1[i];
      }
    }
  }

  lemma NewTriple(m: seq<Avu>, avus: seq<Avu>, i: nat)
    requires i < |avus|
    ensures Distinct(m + avus) ==> avus[i] !in m + avus[..i]
  {
    var all := m + avus;
    assert all[|m| + i] == avus[i];
    if Distinct(all) {
      forall j | 0 <= j < |m| + i ensures (m + avus[..i])[j] != avus[i] {
        assert all[j] == (m + avus[..i])[j];
      }
    }
  }

  lemma WithoutAbsent(s: seq<Avu>, a: Avu)
    requires a !in s
    ensures Without(s, a) == s
  {
    FilterAll((x: Avu) => x != a, s);
  }

  lemma DoomedSoFar(doomed: Avu -> bool, s: seq<Avu>, i: nat)
    requires i < |s|
    ensures var k := |Filter(doomed, s[..i])|;
      && |Filter(doomed, s[..i + 1])| == (if doomed(s[i]) then k + 1 else k) <= |Filter(doomed, s)|
      && (doomed(s[i]) ==> Filter(doomed, s)[k] == s[i])
  {
    assert s[..i + 1] == s[..i] + [s[i]];
    assert s == s[..i + 1] + s[i + 1..];
    FilterAppend(doomed, s[..i], [s[i]]);
    FilterAppend(doomed, s[..i + 1], s[i + 1..]);
  }

  /** Deleting the next doomed triple prunes one more. */
  lemma {:induction false} PruneOneMore(doomed: Avu -> bool, s: seq<Avu>, k: nat)
    requires Distinct(s) && k < |Filter(doomed, s)|
    ensures var a := Filter(doomed, s)[k];
      a in Pruned(doomed, s, k) && Without(Pruned(doomed, s, k), a) == Pruned(doomed, s, k + 1)
  {
    var a := Filter(doomed, s)[k];
    assert s[0] !in s[1..];
    if doomed(s[0]) {
      if k == 0 {
        WithoutAbsent(s[1..], a);
      } else {
        PruneOneMore(doomed, s[1..], k - 1);
      }
    } else {
      PruneOneMore(doomed, s[1..], k);
      FilterMembers(doomed, s[1..], a);
      FilterCons((x: Avu) => x != a, s[0], Pruned(doomed, s[1..], k));
      assert Pruned(doomed, s, k + 1) == [s[0]] + Pruned(doomed, s[1..], k + 1);
      if k > 0 {
        assert Pruned(doomed, s, k) == [s[0]] + Pruned(doomed, s[1..], k);
      } else {
        assert Pruned(doomed, s, 0) == [s[0]] + s[1..];
      }
    }
  }

  /** Pruning keeps whatever is not doomed; pruned of all its doomed elements, that is all there is. */
  lemma {:induction false} PruningKeepsRest(doomed: Avu -> bool, s: seq<Avu>, k: nat, keep: Avu -> bool)
    requires k <= |Filter(doomed, s)|
    requires forall a :: keep(a) ==> !doomed(a)
    ensures Filter(keep, Pruned(doomed, s, k)) == Filter(keep, s)
    ensures k == |Filter(doomed, s)| && (forall a :: keep(a) <==> !doomed(a)) ==>
              Pruned(doomed, s, k) == Filter(keep, s)
  {
    if s != [] {
      if doomed(s[0]) {
        if k > 0 {
          PruningKeepsRest(doomed, s[1..], k - 1, keep);
        }
      } else {
        PruningKeepsRest(doomed, s[1..], k, keep);
        if k == 0 {
          if |Filter(doomed, s)| == 0 && (forall a :: keep(a) <==> !doomed(a)) {
            assert s == [s[0]] + s[1..];
          }
        } else {
          FilterCons(keep, s[0], Pruned(doomed, s[1..], k));
        }
      }
    }
  }

  /** What is left of the elements some test selects is an end of what was there. */
  lemma {:induction false} PruningLeavesEnd(doomed: Avu -> bool, s: seq<Avu>, k: nat, q: Avu -> bool)
    requires k <= |Filter(doomed, s)|
    requires forall a :: q(a) ==> doomed(a)
    ensures exists j: nat :: j <= |Filter(q, s)| && Filter(q, Pruned(doomed, s, k)) == Filter(q, s)[j..]
  {
    var all := Filter(q, s);
    if s == [] || k == 0 {
      assert all == all[0..];
    } else if doomed(s[0]) {
      PruningLeavesEnd(doomed, s[1..], k - 1, q);
      var rest := Filter(q, s[1..]);
      var j: nat :| j <= |rest| && Filter(q, Pruned(doomed, s[1..], k - 1)) == rest[j..];
      if q(s[0]) {
        assert all[j + 1..] == rest[j..];
      }
    } else {
      PruningLeavesEnd(doomed, s[1..], k, q);
      FilterCons(q, s[0], Pruned(doomed, s[1..], k));
    }
  }
}
