/** Which nodes of a collection tree become part of a compound object: breadth-first selection,
    depth-first exclusion, and the preflight manifest that predicts both. The key type is left
    generic. */
module Selections {
  import opened Lists
  import opened Order
  import opened Avus
  import opened Trees

  /** `isDefaultExcludedCompoundEntry` and `IsIgnored`, as tests on entries. */
  datatype Rules<!K> = Rules(root: K, control: EntryAt<K> -> bool, ignores: EntryAt<K> -> bool)

  /** The root is never ignored. */
  predicate IsIgnored<K(==)>(rules: Rules<K>, e: EntryAt<K>) {
    e.path != rules.root && rules.ignores(e)
  }

  /** The nodes that are not at or under a control entry, each before its descendants. */
  ghost function Visible<K>(rules: Rules<K>, t: TreeAt<K>): seq<TreeAt<K>>
    decreases t, 0
  {
    if rules.control(t.entry) then [] else [t] + VisibleAll(rules, t.children)
  }

  ghost function VisibleAll<K>(rules: Rules<K>, ts: seq<TreeAt<K>>): seq<TreeAt<K>>
    decreases ts, 1
  {
    if ts == [] then [] else Visible(rules, ts[0]) + VisibleAll(rules, ts[1..])
  }

  function Choosing<K(==)>(rules: Rules<K>): TreeAt<K> -> bool {
    (t: TreeAt<K>) => !IsIgnored(rules, t.entry)
  }

  function Ignoring<K(==)>(rules: Rules<K>): TreeAt<K> -> bool {
    (t: TreeAt<K>) => IsIgnored(rules, t.entry)
  }

  /** The root is selected whatever the ignore file says, unless it is a control entry itself; nothing else
      that is ignored is selected. */
  lemma RootIsSelected<K>(rules: Rules<K>, t: TreeAt<K>)
    requires t.entry.path == rules.root
    ensures var nodes := Filter(Choosing(rules), Visible(rules, t));
      && (t in nodes <==> !rules.control(t.entry))
      && forall n :: n in nodes ==> n.entry.path == rules.root || !rules.ignores(n.entry)
  {
    var all, nodes := Visible(rules, t), Filter(Choosing(rules), Visible(rules, t));
    FilterMembers(Choosing(rules), all, t);
    forall n | n in nodes ensures n.entry.path == rules.root || !rules.ignores(n.entry) {
      FilterMembers(Choosing(rules), all, n);
    }
  }

  lemma {:induction false} VisibleAllAppend<K>(rules: Rules<K>, a: seq<TreeAt<K>>, b: seq<TreeAt<K>>)
    ensures VisibleAll(rules, a + b) == VisibleAll(rules, a) + VisibleAll(rules, b)
    decreases |a|
  {
    if a == [] {
      assert a + b == b;
    } else {
      assert (a + b)[1..] == a[1..] + b;
      VisibleAllAppend(rules, a[1..], b);
    }
  }

  // ---------------------------------------------------------------- breadth-first selection

  ghost function Size<K>(t: TreeAt<K>): nat
    decreases t, 0
  {
    1 + SizeAll(t.children)
  }

  ghost function SizeAll<K>(ts: seq<TreeAt<K>>): nat
    decreases ts, 1
  {
    if ts == [] then 0 else Size(ts[0]) + SizeAll(ts[1..])
  }

  lemma {:induction false} SizeAllAppend<K>(a: seq<TreeAt<K>>, b: seq<TreeAt<K>>)
    ensures SizeAll(a + b) == SizeAll(a) + SizeAll(b)
    decreases |a|
  {
    if a == [] {
      assert a + b == b;
    } else {
      assert (a + b)[1..] == a[1..] + b;
      SizeAllAppend(a[1..], b);
    }
  }

  /** One turn of the worklist: what is still to come, with the node taken off put in its place. */
  lemma WorklistStep<K>(rules: Rules<K>, stack: seq<TreeAt<K>>)
    requires stack != []
    ensures var node, rest := stack[0], stack[1..];
      var todo := Filter(Choosing(rules), VisibleAll(rules, stack));
      && SizeAll(rest) < SizeAll(stack) && SizeAll(rest + node.children) < SizeAll(stack)
      && (rules.control(node.entry) ==> todo == Filter(Choosing(rules), VisibleAll(rules, rest)))
      && (!rules.control(node.entry) ==>
            multiset(todo) == multiset(if IsIgnored(rules, node.entry) then [] else [node])
                              + multiset(Filter(Choosing(rules), VisibleAll(rules, rest + node.children))))
  {
    var node, rest := stack[0], stack[1..];
    var keep := Choosing(rules);
    var above, below := VisibleAll(rules, rest), VisibleAll(rules, node.children);
    SizeAllAppend(rest, node.children);
    VisibleAllAppend(rules, rest, node.children);
    FilterAppend(keep, above, below);
    if !rules.control(node.entry) {
      assert VisibleAll(rules, stack) == [node] + below + above;
      FilterAppend(keep, [node] + below, above);
      FilterCons(keep, node, below);
    } else {
      assert VisibleAll(rules, stack) == above;
    }
  }

  /** `collectIncludedNodes`: the visible nodes that are not ignored, each once. */
  method CollectIncluded<K(==)>(rules: Rules<K>, t: TreeAt<K>) returns (included: seq<TreeAt<K>>)
    ensures multiset(included) == multiset(Filter(Choosing(rules), Visible(rules, t)))
  {
    included := [];
    var stack := [t];
    assert VisibleAll(rules, stack) == Visible(rules, t) by { assert stack[1..] == []; }
    ghost var all := multiset(Filter(Choosing(rules), Visible(rules, t)));
    while stack != []
      invariant multiset(included) + multiset(Filter(Choosing(rules), VisibleAll(rules, stack))) == all
      decreases SizeAll(stack)
    {
      WorklistStep(rules, stack);
      var node := stack[0];
      stack := stack[1..];
      if rules.control(node.entry) {
        continue;
      }
      if !IsIgnored(rules, node.entry) {
        included := included + [node];
      }
      stack := stack + node.children;
    }
  }

  // ---------------------------------------------------------------- depth-first exclusion

  function PathOfTree<K>(t: TreeAt<K>): K { t.entry.path }

  function PathsOfTrees<K>(ts: seq<TreeAt<K>>): seq<K> { MapSeq(PathOfTree, ts) }

  ghost function Excluded<K>(rules: Rules<K>, nodes: seq<TreeAt<K>>): seq<K> {
    PathsOfTrees(Filter(Ignoring(rules), nodes))
  }

  lemma ExcludedAppend<K>(rules: Rules<K>, a: seq<TreeAt<K>>, b: seq<TreeAt<K>>)
    ensures Excluded(rules, a + b) == Excluded(rules, a) + Excluded(rules, b)
  {
    FilterAppend(Ignoring(rules), a, b);
  }

  lemma VisibleTake<K>(rules: Rules<K>, ts: seq<TreeAt<K>>, i: nat)
    requires i < |ts|
    ensures VisibleAll(rules, ts[..i + 1]) == VisibleAll(rules, ts[..i]) + Visible(rules, ts[i])
    ensures ts[..|ts|] == ts
  {
    assert ts[..i + 1] == ts[..i] + [ts[i]];
    VisibleAllAppend(rules, ts[..i], [ts[i]]);
    assert [ts[i]][1..] == [];
  }

  /** What the first `i` of some nodes contribute. */
  ghost function ExcludedUpTo<K>(rules: Rules<K>, ts: seq<TreeAt<K>>, i: nat): seq<K>
    requires i <= |ts|
  {
    if i == 0 then [] else ExcludedUpTo(rules, ts, i - 1) + Excluded(rules, Visible(rules, ts[i - 1]))
  }

  lemma {:induction false} ExcludedUpToAll<K>(rules: Rules<K>, ts: seq<TreeAt<K>>, i: nat)
    requires i <= |ts|
    ensures Excluded(rules, VisibleAll(rules, ts[..i])) == ExcludedUpTo(rules, ts, i)
  {
    if i > 0 {
      ExcludedUpToAll(rules, ts, i - 1);
      VisibleTake(rules, ts, i - 1);
      ExcludedAppend(rules, VisibleAll(rules, ts[..i - 1]), Visible(rules, ts[i - 1]));
    }
  }

  lemma ExcludedCons<K>(rules: Rules<K>, t: TreeAt<K>, rest: seq<TreeAt<K>>)
    ensures Excluded(rules, [t] + rest) ==
            OwnPath(rules, t) + Excluded(rules, rest)
  {
    FilterCons(Ignoring(rules), t, rest);
    MapSeqCons(PathOfTree, t, Filter(Ignoring(rules), rest));
  }

  lemma NoneExcluded<K>(rules: Rules<K>, t: TreeAt<K>)
    requires rules.control(t.entry)
    ensures Excluded(rules, Visible(rules, t)) == []
  {
  }

  function OwnPath<K(==)>(rules: Rules<K>, t: TreeAt<K>): seq<K> {
    if IsIgnored(rules, t.entry) then [t.entry.path] else []
  }

  lemma ExcludedWhole<K>(rules: Rules<K>, t: TreeAt<K>)
    requires !rules.control(t.entry)
    ensures Excluded(rules, Visible(rules, t)) == OwnPath(rules, t) + ExcludedUpTo(rules, t.children, |t.children|)
  {
    ExcludedCons(rules, t, VisibleAll(rules, t.children));
    ExcludedUpToAll(rules, t.children, |t.children|);
    assert t.children[..|t.children|] == t.children;
  }

  /** `collectExcludedPaths`: the paths of the visible nodes that are ignored, outermost first. */
  method CollectExcluded<K(==)>(rules: Rules<K>, t: TreeAt<K>, excluded: seq<K>) returns (r: seq<K>)
    ensures r == excluded + Excluded(rules, Visible(rules, t))
    decreases t
  {
    r := excluded;
    if rules.control(t.entry) {
      NoneExcluded(rules, t);
      return;
    }
    if IsIgnored(rules, t.entry) {
      r := r + [t.entry.path];
    }
    ghost var own := r;
    ghost var below := ExcludedUpTo(rules, t.children, |t.children|);
    assert own == excluded + OwnPath(rules, t);
    ExcludedWhole(rules, t);
    Regroup(excluded, OwnPath(rules, t), below);
    for i := 0 to |t.children|
      invariant r == own + ExcludedUpTo(rules, t.children, i)
    {
      ghost var others := ExcludedUpTo(rules, t.children, i);
      Regroup(own, others, Excluded(rules, Visible(rules, t.children[i])));
      r := CollectExcluded(rules, t.children[i], r);
    }
  }

  lemma {:induction false} FilterSplits<T>(keep: T -> bool, drop: T -> bool, s: seq<T>)
    requires forall x :: keep(x) <==> !drop(x)
    ensures multiset(s) == multiset(Filter(keep, s)) + multiset(Filter(drop, s))
  {
    if s != [] {
      assert s == [s[0]] + s[1..];
      FilterSplits(keep, drop, s[1..]);
    }
  }

  /** Selection and exclusion between them yield every visible node, each exactly once. */
  lemma SelectionPartitions<K>(rules: Rules<K>, t: TreeAt<K>, included: seq<TreeAt<K>>)
    requires multiset(included) == multiset(Filter(Choosing(rules), Visible(rules, t)))
    ensures multiset(PathsOfTrees(included)) + multiset(Excluded(rules, Visible(rules, t))) ==
            multiset(PathsOfTrees(Visible(rules, t)))
  {
    var all := Visible(rules, t);
    var kept, dropped := Filter(Choosing(rules), all), Filter(Ignoring(rules), all);
    FilterSplits(Choosing(rules), Ignoring(rules), all);
    assert multiset(included + dropped) == multiset(all);
    MapSeqMultiset(PathOfTree, included + dropped, all);
    assert PathsOfTrees(included + dropped) == PathsOfTrees(included) + PathsOfTrees(dropped);
  }

  // ---------------------------------------------------------------- the data objects selected

  predicate IsData<K>(t: TreeAt<K>) { !t.entry.isDir }

  /** The selected data objects, outermost first. */
  ghost function ChosenData<K>(rules: Rules<K>, t: TreeAt<K>): seq<TreeAt<K>> {
    Filter(IsData, Filter(Choosing(rules), Visible(rules, t)))
  }

  /** `compoundCreationDataNodes`: the selected data objects, sorted by path. */
  method CreationDataNodes<K(==)>(rules: Rules<K>, t: TreeAt<K>, spelling: K -> string) returns (nodes: seq<TreeAt<K>>)
    ensures multiset(nodes) == multiset(ChosenData(rules, t))
    ensures SortedBy(nodes, (n: TreeAt<K>) => spelling(n.entry.path))
  {
    var included := CollectIncluded(rules, t);
    var dataNodes := [];
    for i := 0 to |included|
      invariant dataNodes == Filter(IsData, included[..i])
    {
      assert included[..i + 1] == included[..i] + [included[i]];
      FilterAppend(IsData, included[..i], [included[i]]);
      if !included[i].entry.isDir {
        dataNodes := dataNodes + [included[i]];
      }
    }
    assert included[..|included|] == included;
    FilterMultiset(IsData, included, Filter(Choosing(rules), Visible(rules, t)));
    nodes := SortBy(dataNodes, (n: TreeAt<K>) => spelling(n.entry.path));
  }

  // ---------------------------------------------------------------- nested compounds

  /** `failIfDescendantCompound`: a collection below the root that carries the compound marker. It
      does not look inside data objects, nor spare what selection leaves out. */
  predicate CompoundBelow<K>(ts: seq<TreeAt<K>>)
    decreases ts
  {
    ts != [] && (
      (ts[0].entry.isDir && (HasCompoundMarker(ts[0].metas) || CompoundBelow(ts[0].children)))
      || CompoundBelow(ts[1..]))
  }

  /** Only collections have children. */
  ghost predicate LeafData<K>(t: TreeAt<K>)
    decreases t
  {
    (t.entry.isDir || t.children == []) && forall i :: 0 <= i < |t.children| ==> LeafData(t.children[i])
  }

  ghost function Everything<K>(root: K): Rules<K> {
    Rules(root, (e: EntryAt<K>) => false, (e: EntryAt<K>) => false)
  }

  ghost predicate IsCompound<K>(n: TreeAt<K>) { n.entry.isDir && HasCompoundMarker(n.metas) }

  ghost predicate SomeCompound<K>(nodes: seq<TreeAt<K>>) {
    exists i :: 0 <= i < |nodes| && IsCompound(nodes[i])
  }

  lemma SomeCompoundAppend<K>(a: seq<TreeAt<K>>, b: seq<TreeAt<K>>)
    ensures SomeCompound(a + b) <==> SomeCompound(a) || SomeCompound(b)
  {
    if SomeCompound(a) {
      var i :| 0 <= i < |a| && IsCompound(a[i]);
      assert (a + b)[i] == a[i];
    }
    if SomeCompound(b) {
      var i :| 0 <= i < |b| && IsCompound(b[i]);
      assert (a + b)[|a| + i] == b[i];
    }
  }

  lemma {:induction false} CompoundBelowIff<K>(root: K, ts: seq<TreeAt<K>>)
    requires forall i :: 0 <= i < |ts| ==> LeafData(ts[i])
    ensures CompoundBelow(ts) <==> SomeCompound(VisibleAll(Everything(root), ts))
    decreases ts
  {
    if ts != [] {
      var all, t := Everything(root), ts[0];
      CompoundBelowIff(root, t.children);
      CompoundBelowIff(root, ts[1..]);
      SomeCompoundAppend([t], VisibleAll(all, t.children));
      SomeCompoundAppend(Visible(all, t), VisibleAll(all, ts[1..]));
      assert SomeCompound([t]) <==> IsCompound([t][0]);
    }
  }

  // ---------------------------------------------------------------- what the preflight manifest keeps

  /** The preflight cuts the tree at ignored nodes too. */
  function Strict<K(==)>(rules: Rules<K>): Rules<K> {
    Rules(rules.root, (e: EntryAt<K>) => rules.control(e) || IsIgnored(rules, e), rules.ignores)
  }

  ghost predicate AllIgnored<K>(rules: Rules<K>, nodes: seq<TreeAt<K>>) {
    forall i :: 0 <= i < |nodes| ==> IsIgnored(rules, nodes[i].entry)
  }

  /** Under an ignored node everything is ignored. */
  ghost predicate IgnoredBelow<K>(rules: Rules<K>, n: TreeAt<K>) {
    IsIgnored(rules, n.entry) ==> AllIgnored(rules, VisibleAll(rules, n.children))
  }

  ghost predicate Closed<K>(rules: Rules<K>, nodes: seq<TreeAt<K>>) {
    forall i :: 0 <= i < |nodes| ==> IgnoredBelow(rules, nodes[i])
  }

  lemma ClosedAppend<K>(rules: Rules<K>, a: seq<TreeAt<K>>, b: seq<TreeAt<K>>)
    ensures Closed(rules, a + b) <==> Closed(rules, a) && Closed(rules, b)
  {
    var s := a + b;
    if Closed(rules, s) {
      forall i | 0 <= i < |a| ensures IgnoredBelow(rules, a[i]) { assert s[i] == a[i]; }
      forall i | 0 <= i < |b| ensures IgnoredBelow(rules, b[i]) { assert s[|a| + i] == b[i]; }
    }
  }

  lemma FilterAllOrLess<T>(keep: T -> bool, s: seq<T>)
    ensures Filter(keep, s) == [] <==> forall i :: 0 <= i < |s| ==> !keep(s[i])
  {
    if Filter(keep, s) == [] {
      forall i | 0 <= i < |s| ensures !keep(s[i]) {
        FilterMembers(keep, s, s[i]);
      }
    } else {
      var x := Filter(keep, s)[0];
      assert x in Filter(keep, s);
      FilterMembers(keep, s, x);
    }
  }

  /** All nodes visible below an ignored node are ignored as soon as those next to it are closed. */
  lemma {:induction false} AllIgnoredIsClosed<K>(rules: Rules<K>, ts: seq<TreeAt<K>>)
    requires AllIgnored(rules, VisibleAll(rules, ts))
    ensures Closed(rules, VisibleAll(rules, ts))
    decreases ts
  {
    if ts != [] {
      var t, rest := ts[0], ts[1..];
      var a, b := Visible(rules, t), VisibleAll(rules, rest);
      var all := VisibleAll(rules, ts);
      assert all == a + b;
      forall i | 0 <= i < |b| ensures IsIgnored(rules, b[i].entry) { assert all[|a| + i] == b[i]; }
      AllIgnoredIsClosed(rules, rest);
      if !rules.control(t.entry) {
        var c := VisibleAll(rules, t.children);
        assert a == [t] + c;
        forall i | 0 <= i < |c| ensures IsIgnored(rules, c[i].entry) { assert all[1 + i] == c[i]; }
        AllIgnoredIsClosed(rules, t.children);
        ClosedAppend(rules, [t], c);
      }
      ClosedAppend(rules, a, b);
    }
  }

  /** The preflight keeps a part of the selection, and keeps all of it exactly when whatever lies
      under an ignored node is ignored as well. */
  lemma {:induction false} PreflightIsSelectionIff<K>(rules: Rules<K>, t: TreeAt<K>)
    ensures var kept, chosen := Visible(Strict(rules), t), Filter(Choosing(rules), Visible(rules, t));
      && |kept| <= |chosen|
      && (forall n :: n in kept ==> n in chosen)
      && (kept == chosen <==> Closed(rules, Visible(rules, t)))
    decreases t, 0
  {
    var strict, keep := Strict(rules), Choosing(rules);
    if !rules.control(t.entry) {
      var below := VisibleAll(rules, t.children);
      PreflightIsSelectionAllIff(rules, t.children);
      FilterCons(keep, t, below);
      ClosedAppend(rules, [t], below);
      if IsIgnored(rules, t.entry) {
        assert Visible(strict, t) == [];
        FilterAllOrLess(keep, below);
        if AllIgnored(rules, below) {
          AllIgnoredIsClosed(rules, t.children);
        }
        assert Closed(rules, [t]) ==> IgnoredBelow(rules, [t][0]);
      } else {
        assert Visible(strict, t) == [t] + VisibleAll(strict, t.children);
        assert Filter(keep, Visible(rules, t)) == [t] + Filter(keep, below);
        assert Filter(keep, Visible(rules, t))[1..] == Filter(keep, below);
        assert Visible(strict, t)[1..] == VisibleAll(strict, t.children);
      }
    }
  }

  lemma {:induction false} PreflightIsSelectionAllIff<K>(rules: Rules<K>, ts: seq<TreeAt<K>>)
    ensures var kept, chosen := VisibleAll(Strict(rules), ts), Filter(Choosing(rules), VisibleAll(rules, ts));
      && |kept| <= |chosen|
      && (forall n :: n in kept ==> n in chosen)
      && (kept == chosen <==> Closed(rules, VisibleAll(rules, ts)))
    decreases ts, 1
  {
    if ts != [] {
      var t, rest := ts[0], ts[1..];
      PreflightIsSelectionIff(rules, t);
      PreflightIsSelectionAllIff(rules, rest);
      var a, b := Visible(rules, t), VisibleAll(rules, rest);
      FilterAppend(Choosing(rules), a, b);
      ClosedAppend(rules, a, b);
      SameParts(Visible(Strict(rules), t), VisibleAll(Strict(rules), rest),
                Filter(Choosing(rules), a), Filter(Choosing(rules), b));
    }
  }

  lemma SameParts<T>(a: seq<T>, b: seq<T>, c: seq<T>, d: seq<T>)
    requires |a| <= |c| && |b| <= |d|
    ensures a + b == c + d <==> a == c && b == d
  {
    if a + b == c + d {
      assert |a| + |b| == |c| + |d|;
      assert a == (a + b)[..|a|] && c == (c + d)[..|c|];
      assert b == (a + b)[|a|..] && d == (c + d)[|c|..];
    }
  }
}
