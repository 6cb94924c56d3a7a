/** Selection on the tree read off a catalogue, told in terms of the catalogue's paths. */
module Snapshots {
  import opened Lists
  import opened Catalogues
  import opened Trees
  import opened Spaces
  import opened Selections

  /** `q` lies at or under a control entry that is at or below `p`. */
  ghost predicate Hidden<K>(sp: Space<K>, control: EntryAt<K> -> bool, p: K, q: K)
    decreases sp.rank(q)
  {
    || control(Entry(q, sp.isDir(q)))
    || (q != p && sp.rank(sp.up(q)) < sp.rank(q) && Hidden(sp, control, p, sp.up(q)))
  }

  ghost function Seen<K>(sp: Space<K>, control: EntryAt<K> -> bool, p: K): K -> bool {
    q => !Hidden(sp, control, p, q)
  }

  /** Seen from one level up, no more and no less is hidden, unless the level itself is. */
  lemma {:induction false} HiddenFromAbove<K>(sp: Space<K>, control: EntryAt<K> -> bool, p: K, c: K, q: K)
    requires sp.up(c) == p && sp.rank(p) < sp.rank(c) && Climbs(sp, c, q)
    ensures q != p
    ensures Hidden(sp, control, p, q) <==> control(Entry(p, sp.isDir(p))) || Hidden(sp, control, c, q)
    decreases sp.rank(q)
  {
    ClimbsThrough(sp, p, c, q);
    if q == c {
      assert Hidden(sp, control, p, p) <==> control(Entry(p, sp.isDir(p)));
    } else {
      HiddenFromAbove(sp, control, p, c, sp.up(q));
    }
  }

  lemma {:induction false} FilterSame<T>(p: T -> bool, q: T -> bool, s: seq<T>)
    requires forall x :: x in s ==> p(x) == q(x)
    ensures Filter(p, s) == Filter(q, s)
  {
    if s != [] {
      FilterSame(p, q, s[1..]);
    }
  }

  ghost predicate Snaps<K(!new)>(sp: Space<K>, metas: Metas<K>, nodes: seq<TreeAt<K>>)
    requires WellFormed(sp)
  {
    forall i :: 0 <= i < |nodes| ==> nodes[i] == SnapshotOf(sp, metas, nodes[i].entry.path)
  }

  /** The paths of the visible nodes are those of the subtree that are not hidden, in its order, and
      each node is what the catalogue holds at its path. */
  lemma {:induction false} VisibleOfSnapshot<K(!new)>(sp: Space<K>, metas: Metas<K>, rules: Rules<K>, p: K)
    requires WellFormed(sp)
    ensures var nodes := Visible(rules, SnapshotOf(sp, metas, p));
      && PathsOfTrees(nodes) == Filter(Seen(sp, rules.control, p), Subtree(sp, p))
      && Snaps(sp, metas, nodes)
    decreases sp.bound - sp.rank(p), |sp.kids(p)| + 1
  {
    var t := SnapshotOf(sp, metas, p);
    var seen := Seen(sp, rules.control, p);
    var cs := if sp.isDir(p) then sp.kids(p) else [];
    assert GoodKids(sp, p);
    var below := SubtreeAll(sp, p, cs);
    SubtreeAllSound(sp, p, cs);
    assert Subtree(sp, p) == [p] + below;
    if rules.control(t.entry) {
      NothingSeen(sp, rules.control, p, cs);
    } else {
      VisibleOfChildren(sp, metas, rules, p, cs, t.children);
      FilterCons(seen, p, below);
      MapSeqCons(PathOfTree, t, VisibleAll(rules, t.children));
    }
  }

  lemma NothingSeen<K(!new)>(sp: Space<K>, control: EntryAt<K> -> bool, p: K, cs: seq<K>)
    requires WellFormed(sp) && Distinct(cs) && forall c :: c in cs ==> c in sp.kids(p)
    requires control(Entry(p, sp.isDir(p)))
    ensures Filter(Seen(sp, control, p), [p] + SubtreeAll(sp, p, cs)) == []
  {
    var seen, all := Seen(sp, control, p), [p] + SubtreeAll(sp, p, cs);
    forall i | 0 <= i < |all| ensures !seen(all[i]) {
      assert all[i] == p || all[i] in SubtreeAll(sp, p, cs);
      HiddenUnder(sp, control, p, cs, all[i]);
    }
    FilterNone(seen, all);
  }

  lemma HiddenUnder<K(!new)>(sp: Space<K>, control: EntryAt<K> -> bool, p: K, cs: seq<K>, q: K)
    requires WellFormed(sp) && Distinct(cs) && forall c :: c in cs ==> c in sp.kids(p)
    requires q == p || q in SubtreeAll(sp, p, cs)
    requires control(Entry(p, sp.isDir(p)))
    ensures Hidden(sp, control, p, q)
  {
    if q != p {
      SubtreeAllSound(sp, p, cs);
      var c :| c in cs && Climbs(sp, c, q);
      assert GoodKids(sp, p);
      HiddenFromAbove(sp, control, p, c, q);
    }
  }

  lemma {:induction false} VisibleOfChildren<K(!new)>(sp: Space<K>, metas: Metas<K>, rules: Rules<K>, p: K, cs: seq<K>,
                                                      ts: seq<TreeAt<K>>)
    requires WellFormed(sp) && (forall c :: c in cs ==> c in sp.kids(p))
    requires !rules.control(Entry(p, sp.isDir(p)))
    requires |ts| == |cs| && forall j :: 0 <= j < |cs| ==> ts[j] == SnapshotOf(sp, metas, cs[j])
    ensures var nodes := VisibleAll(rules, ts);
      && PathsOfTrees(nodes) == Filter(Seen(sp, rules.control, p), SubtreeAll(sp, p, cs))
      && Snaps(sp, metas, nodes)
    decreases sp.bound - sp.rank(p), |cs|
  {
    if cs != [] {
      var n := |cs| - 1;
      var c, above, here := cs[n], Seen(sp, rules.control, p), Seen(sp, rules.control, cs[n]);
      assert GoodKids(sp, p) && c in cs;
      VisibleOfChildren(sp, metas, rules, p, cs[..n], ts[..n]);
      VisibleOfSnapshot(sp, metas, rules, c);
      VisibleTake(rules, ts, n);
      SubtreeSound(sp, c);
      forall q | q in Subtree(sp, c) ensures above(q) == here(q) {
        HiddenFromAbove(sp, rules.control, p, c, q);
      }
      FilterSame(above, here, Subtree(sp, c));
      FilterAppend(above, SubtreeAll(sp, p, cs[..n]), Subtree(sp, c));
      PathsAppend(VisibleAll(rules, ts[..n]), Visible(rules, ts[n]));
    }
  }

  lemma PathsAppend<K>(a: seq<TreeAt<K>>, b: seq<TreeAt<K>>)
    ensures PathsOfTrees(a + b) == PathsOfTrees(a) + PathsOfTrees(b)
  {
  }

  /** The data objects that creation decorates: at or below the root, not at or under a control entry,
      not ignored. */
  ghost function Selects<K>(sp: Space<K>, rules: Rules<K>): K -> bool {
    q => !Hidden(sp, rules.control, rules.root, q) && !sp.isDir(q) && !IsIgnored(rules, Entry(q, sp.isDir(q)))
  }

  ghost function Chosen<K(!new)>(sp: Space<K>, rules: Rules<K>): seq<K>
    requires WellFormed(sp)
  {
    Filter(Selects(sp, rules), Subtree(sp, rules.root))
  }

  /** Selection on the tree is selection on the paths; it gives each path once, with what the
      catalogue holds there. */
  lemma ChosenIsSelected<K(!new)>(sp: Space<K>, metas: Metas<K>, rules: Rules<K>)
    requires WellFormed(sp)
    ensures var nodes := Selections.ChosenData(rules, SnapshotOf(sp, metas, rules.root));
      && PathsOfTrees(nodes) == Chosen(sp, rules)
      && Distinct(PathsOfTrees(nodes))
      && Snaps(sp, metas, nodes)
  {
    var t := SnapshotOf(sp, metas, rules.root);
    var nodes := Visible(rules, t);
    var seen := Seen(sp, rules.control, rules.root);
    var kept := (q: K) => !IsIgnored(rules, Entry(q, sp.isDir(q)));
    var data := (q: K) => !sp.isDir(q);
    VisibleOfSnapshot(sp, metas, rules, rules.root);
    MapFilter(PathOfTree, Choosing(rules), kept, nodes);
    SnapsFilter(sp, metas, Choosing(rules), nodes);
    var chosen := Filter(Choosing(rules), nodes);
    MapFilter(PathOfTree, IsData, data, chosen);
    SnapsFilter(sp, metas, IsData, chosen);
    var all := Subtree(sp, rules.root);
    var seenKept := (q: K) => kept(q) && seen(q);
    FilterBoth(kept, seen, seenKept, all);
    FilterBoth(data, seenKept, Selects(sp, rules), all);
    SubtreeSound(sp, rules.root);
    FilterDistinct(Selects(sp, rules), all);
  }

  lemma SnapsFilter<K(!new)>(sp: Space<K>, metas: Metas<K>, keep: TreeAt<K> -> bool, nodes: seq<TreeAt<K>>)
    requires WellFormed(sp) && Snaps(sp, metas, nodes)
    ensures Snaps(sp, metas, Filter(keep, nodes))
  {
    var f := Filter(keep, nodes);
    forall i | 0 <= i < |f| ensures f[i] == SnapshotOf(sp, metas, f[i].entry.path) {
      assert f[i] in f;
      FilterMembers(keep, nodes, f[i]);
    }
  }
}
