/** The collections and data objects of a catalogue, as `List` and `Stat` show them. The key type is
    left generic. */
module Spaces {
  import opened Lists
  import opened Catalogues
  import opened Trees

  /** `kids` is what `List` returns, in its order; `rank` grows downwards, as path lengths do. */
  datatype Space<!K> = Space(up: K -> K, isDir: K -> bool, kids: K -> seq<K>, rank: K -> nat, bound: nat)

  ghost predicate WellFormed<K(!new)>(sp: Space<K>) {
    forall p :: GoodKids(sp, p)
  }

  ghost predicate GoodKids<K(!new)>(sp: Space<K>, p: K) {
    && Distinct(sp.kids(p))
    && forall c :: c in sp.kids(p) ==> sp.up(c) == p && sp.rank(p) < sp.rank(c) <= sp.bound
  }

  /** Everything at or below `p`, each collection before its contents. */
  ghost function Subtree<K(!new)>(sp: Space<K>, p: K): seq<K>
    requires WellFormed(sp)
    decreases sp.bound - sp.rank(p), |sp.kids(p)| + 1
  {
    [p] + if sp.isDir(p) then SubtreeAll(sp, p, sp.kids(p)) else []
  }

  ghost function SubtreeAll<K(!new)>(sp: Space<K>, p: K, cs: seq<K>): seq<K>
    requires WellFormed(sp) && forall c :: c in cs ==> c in sp.kids(p)
    decreases sp.bound - sp.rank(p), |cs|
  {
    if cs == [] then []
    else
      var n := |cs| - 1;
      assert GoodKids(sp, p) && cs[n] in cs;
      SubtreeAll(sp, p, cs[..n]) + Subtree(sp, cs[n])
  }

  lemma {:induction false} SubtreeAllPrefix<K(!new)>(sp: Space<K>, p: K, cs: seq<K>, i: nat)
    requires WellFormed(sp) && i <= |cs| && forall c :: c in cs ==> c in sp.kids(p)
    ensures SubtreeAll(sp, p, cs[..i]) <= SubtreeAll(sp, p, cs)
    decreases |cs| - i
  {
    if i == |cs| {
      assert cs[..i] == cs;
    } else {
      SubtreeAllPrefix(sp, p, cs, i + 1);
      SubtreeAllStep(sp, p, cs, i);
    }
  }

  lemma SubtreeAllStep<K(!new)>(sp: Space<K>, p: K, cs: seq<K>, i: nat)
    requires WellFormed(sp) && i < |cs| && forall c :: c in cs ==> c in sp.kids(p)
    ensures SubtreeAll(sp, p, cs[..i + 1]) == SubtreeAll(sp, p, cs[..i]) + Subtree(sp, cs[i])
  {
    assert cs[..i + 1][..i] == cs[..i];
  }

  /** `q` is at or below `p`: climbing from `q` meets `p`. */
  ghost predicate Climbs<K>(sp: Space<K>, p: K, q: K)
    decreases sp.rank(q)
  {
    q == p || (sp.rank(sp.up(q)) < sp.rank(q) && Climbs(sp, p, sp.up(q)))
  }

  lemma {:induction false} ClimbsRank<K>(sp: Space<K>, p: K, q: K)
    requires Climbs(sp, p, q)
    ensures q == p || sp.rank(p) < sp.rank(q)
    decreases sp.rank(q)
  {
    if q != p {
      ClimbsRank(sp, p, sp.up(q));
    }
  }

  /** Two children of one collection have nothing below them in common. */
  lemma {:induction false} SiblingsApart<K>(sp: Space<K>, a: K, b: K, q: K)
    requires sp.up(a) == sp.up(b) && a != b
    requires sp.rank(sp.up(a)) < sp.rank(a) && sp.rank(sp.up(b)) < sp.rank(b)
    requires Climbs(sp, a, q)
    ensures !Climbs(sp, b, q)
    decreases sp.rank(q)
  {
    if Climbs(sp, b, q) {
      if q == a {
        ClimbsRank(sp, b, sp.up(a));
      } else if q == b {
        ClimbsRank(sp, a, sp.up(b));
      } else {
        SiblingsApart(sp, a, b, sp.up(q));
      }
    }
  }

  lemma {:induction false} ClimbsThrough<K>(sp: Space<K>, p: K, c: K, q: K)
    requires Climbs(sp, c, q) && sp.up(c) == p && sp.rank(p) < sp.rank(c)
    ensures Climbs(sp, p, q) && q != p
    decreases sp.rank(q)
  {
    if q != c {
      ClimbsThrough(sp, p, c, sp.up(q));
      ClimbsRank(sp, p, sp.up(q));
    }
  }

  /** What a subtree lists is at or below its top, and is listed once. */
  lemma {:induction false} SubtreeSound<K(!new)>(sp: Space<K>, p: K)
    requires WellFormed(sp)
    ensures Distinct(Subtree(sp, p))
    ensures forall q :: q in Subtree(sp, p) ==> Climbs(sp, p, q)
    decreases sp.bound - sp.rank(p), |sp.kids(p)| + 1
  {
    if sp.isDir(p) {
      assert GoodKids(sp, p);
      SubtreeAllSound(sp, p, sp.kids(p));
      DistinctAppend([p], SubtreeAll(sp, p, sp.kids(p)));
    }
  }

  lemma {:induction false} SubtreeAllSound<K(!new)>(sp: Space<K>, p: K, cs: seq<K>)
    requires WellFormed(sp) && Distinct(cs) && forall c :: c in cs ==> c in sp.kids(p)
    ensures Distinct(SubtreeAll(sp, p, cs))
    ensures forall q :: q in SubtreeAll(sp, p, cs) ==> q != p && Climbs(sp, p, q)
    ensures forall q :: q in SubtreeAll(sp, p, cs) ==> exists c :: c in cs && Climbs(sp, c, q)
    decreases sp.bound - sp.rank(p), |cs|
  {
    if cs != [] {
      var n := |cs| - 1;
      var init, c := cs[..n], cs[n];
      assert GoodKids(sp, p) && c in cs && c !in init;
      SubtreeAllSound(sp, p, init);
      SubtreeSound(sp, c);
      forall q | q in Subtree(sp, c) ensures q != p && Climbs(sp, p, q) {
        ClimbsThrough(sp, p, c, q);
      }
      forall q | q in SubtreeAll(sp, p, init) ensures q !in Subtree(sp, c) {
        var d :| d in init && Climbs(sp, d, q);
        assert d in cs && sp.up(d) == p;
        SiblingsApart(sp, d, c, q);
      }
      DistinctAppend(SubtreeAll(sp, p, init), Subtree(sp, c));
      forall q | q in SubtreeAll(sp, p, cs) ensures exists d :: d in cs && Climbs(sp, d, q) {
        if q in SubtreeAll(sp, p, init) {
          var d :| d in init && Climbs(sp, d, q);
          assert d in cs;
        } else {
          assert q in Subtree(sp, c);
        }
      }
    }
  }

  lemma {:induction false} MemberOfOne<K(!new)>(sp: Space<K>, p: K, cs: seq<K>, c: K, q: K)
    requires WellFormed(sp) && forall d :: d in cs ==> d in sp.kids(p)
    requires c in cs && q in Subtree(sp, c)
    ensures q in SubtreeAll(sp, p, cs)
    decreases |cs|
  {
    var n := |cs| - 1;
    if cs[n] != c {
      MemberOfOne(sp, p, cs[..n], c, q);
    }
  }

  lemma {:induction false} OneOfMembers<K(!new)>(sp: Space<K>, p: K, cs: seq<K>, q: K) returns (c: K)
    requires WellFormed(sp) && forall d :: d in cs ==> d in sp.kids(p)
    requires q in SubtreeAll(sp, p, cs)
    ensures c in cs && q in Subtree(sp, c)
    decreases |cs|
  {
    var n := |cs| - 1;
    c := cs[n];
    if q !in Subtree(sp, cs[n]) {
      c := OneOfMembers(sp, p, cs[..n], q);
    }
  }

  lemma {:induction false} ListedBelow<K(!new)>(sp: Space<K>, p: K, d: K, q: K)
    requires WellFormed(sp) && d in Subtree(sp, p) && sp.isDir(d) && q in sp.kids(d)
    ensures q in Subtree(sp, p)
    decreases sp.bound - sp.rank(p)
  {
    if d == p {
      assert GoodKids(sp, p);
      assert q in Subtree(sp, q);
      MemberOfOne(sp, p, sp.kids(p), q, q);
    } else {
      var c := OneOfMembers(sp, p, sp.kids(p), d);
      assert GoodKids(sp, p);
      ListedBelow(sp, c, d, q);
      MemberOfOne(sp, p, sp.kids(p), c, q);
    }
  }

  /** `List` hides nothing: every key but the topmost is listed in its parent, which is a collection. */
  ghost predicate Complete<K>(sp: Space<K>, keys: set<K>, top: K) {
    forall q :: q in keys && q != top ==>
      sp.up(q) in keys && sp.isDir(sp.up(q)) && q in sp.kids(sp.up(q))
  }

  /** Then a subtree lists everything at or below its top. */
  lemma {:induction false} SubtreeComplete<K(!new)>(sp: Space<K>, keys: set<K>, top: K, p: K, q: K)
    requires WellFormed(sp) && Complete(sp, keys, top) && q in keys && Climbs(sp, p, q)
    requires p == top || sp.rank(sp.up(top)) >= sp.rank(top)
    ensures q in Subtree(sp, p)
    decreases sp.rank(q)
  {
    if q != p {
      SubtreeComplete(sp, keys, top, p, sp.up(q));
      ListedBelow(sp, p, sp.up(q), q);
    }
  }

  // ---------------------------------------------------------------- snapshots

  /** The tree that `buildCompoundTree` reads off a catalogue that nothing changes meanwhile. */
  ghost function SnapshotOf<K(!new)>(sp: Space<K>, metas: Metas<K>, p: K): TreeAt<K>
    requires WellFormed(sp)
    decreases sp.bound - sp.rank(p)
  {
    var cs := if sp.isDir(p) then sp.kids(p) else [];
    Tree(Entry(p, sp.isDir(p)), if p in metas then metas[p] else [],
         seq(|cs|, i requires 0 <= i < |cs| => (assert GoodKids(sp, p) && cs[i] in cs; SnapshotOf(sp, metas, cs[i]))))
  }

  datatype Built<+T> = Built(tree: T) | NotBuilt

  /** `buildCompoundTree`. */
  method BuildSnapshot<K(==,!new)>(c: Catalogue<K>, sp: Space<K>, p: K) returns (r: Built<TreeAt<K>>)
    requires WellFormed(sp)
    modifies c`failures
    ensures c.failures >= old(c.failures)
    ensures c.failures == old(c.failures) <==> r.Built?
    ensures r.Built? ==> r.tree == SnapshotOf(sp, c.metas, p)
    decreases sp.bound - sp.rank(p)
  {
    var ok := c.Attempt();
    if !ok {
      return NotBuilt;
    }
    var listing := c.ListMetadata(p);
    if listing.Failed? {
      return NotBuilt;
    }
    var metas := if listing.Got? then listing.value else [];
    var children: seq<TreeAt<K>> := [];
    if sp.isDir(p) {
      ok := c.Attempt();
      if !ok {
        return NotBuilt;
      }
      var cs := sp.kids(p);
      for i := 0 to |cs|
        invariant c.failures == old(c.failures)
        invariant |children| == i && forall j :: 0 <= j < i ==> children[j] == SnapshotOf(sp, c.metas, cs[j])
      {
        assert GoodKids(sp, p) && cs[i] in cs;
        var child := BuildSnapshot(c, sp, cs[i]);
        if child.NotBuilt? {
          return NotBuilt;
        }
        children := children + [child.tree];
      }
    }
    r := Built(Tree(Entry(p, sp.isDir(p)), metas, children));
    assert children == SnapshotOf(sp, c.metas, p).children;
  }
}
