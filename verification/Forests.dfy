/** Child lists that agree with a parent function. The keys are left generic: nothing here depends
    on paths being strings. */
module Forests {
  import opened Lists
  import opened Order

  ghost predicate Hangs<K>(up: K -> K, kids: map<K, seq<K>>, q: K) {
    up(q) in kids && q in kids[up(q)]
  }

  ghost predicate IsChild<K>(up: K -> K, kids: map<K, seq<K>>, root: K, q: K, c: K) {
    c in kids && c != root && up(c) == q
  }

  ghost predicate OwnChildren<K>(up: K -> K, kids: map<K, seq<K>>, root: K, q: K)
    requires q in kids
  {
    && Distinct(kids[q])
    && forall i :: 0 <= i < |kids[q]| ==> IsChild(up, kids, root, q, kids[q][i])
  }

  /** Every key but the root hangs, once, under its parent. */
  ghost predicate Linked<K(!new)>(up: K -> K, kids: map<K, seq<K>>, root: K) {
    && root in kids
    && (forall q {:trigger Hangs(up, kids, q)} :: q in kids && q != root ==> Hangs(up, kids, q))
    && (forall q {:trigger OwnChildren(up, kids, root, q)} :: q in kids ==> OwnChildren(up, kids, root, q))
  }

  ghost function WithChild<K>(kids: map<K, seq<K>>, d: K, q: K): map<K, seq<K>>
    requires d in kids
  {
    kids[d := kids[d] + [q]][q := []]
  }

  lemma AttachKeepsLinks<K(!new)>(up: K -> K, kids: map<K, seq<K>>, root: K, q: K, d: K)
    requires Linked(up, kids, root)
    requires q !in kids && d == up(q) && d in kids
    ensures Linked(up, WithChild(kids, d, q), root)
  {
    var kids' := WithChild(kids, d, q);
    forall p | p in kids' && p != root ensures Hangs(up, kids', p) {
      if p == q {
        assert kids'[d][|kids[d]|] == q;
      } else {
        assert Hangs(up, kids, p);
        assert kids[up(p)] <= kids'[up(p)];
      }
    }
    forall p | p in kids' ensures OwnChildren(up, kids', root, p) {
      if p != q {
        assert OwnChildren(up, kids, root, p);
        forall i | 0 <= i < |kids'[p]| ensures IsChild(up, kids', root, p, kids'[p][i]) {
          if i < |kids[p]| {
            assert IsChild(up, kids, root, p, kids[p][i]);
          }
        }
      }
    }
  }

  /** Reordering one list of children keeps the links. */
  lemma ReorderKeepsLinks<K(!new)>(up: K -> K, kids: map<K, seq<K>>, root: K, q: K, order: seq<K>)
    requires Linked(up, kids, root) && q in kids
    requires multiset(order) == multiset(kids[q])
    ensures Linked(up, kids[q := order], root)
  {
    var kids' := kids[q := order];
    forall p | p in kids' && p != root ensures Hangs(up, kids', p) {
      assert Hangs(up, kids, p);
      if up(p) == q {
        assert p in multiset(kids[q]);
      }
    }
    forall p | p in kids' ensures OwnChildren(up, kids', root, p) {
      assert OwnChildren(up, kids, root, p);
      if p == q {
        DistinctByMultiset(kids[q], order);
        forall i | 0 <= i < |order| ensures IsChild(up, kids', root, p, order[i]) {
          assert order[i] in multiset(order);
          var j :| 0 <= j < |kids[q]| && kids[q][j] == order[i];
          assert IsChild(up, kids, root, p, kids[p][j]);
        }
      } else {
        forall i | 0 <= i < |kids'[p]| ensures IsChild(up, kids', root, p, kids'[p][i]) {
          assert IsChild(up, kids, root, p, kids[p][i]);
        }
      }
    }
  }

  /** A child list holds exactly the keys whose parent it belongs to. */
  lemma ChildListExact<K(!new)>(up: K -> K, kids: map<K, seq<K>>, root: K, q: K)
    requires Linked(up, kids, root) && q in kids
    ensures forall c :: c in kids[q] <==> c in kids && c != root && up(c) == q
  {
    assert OwnChildren(up, kids, root, q);
    forall c | c in kids && c != root && up(c) == q ensures c in kids[q] {
      assert Hangs(up, kids, c);
    }
    forall c | c in kids[q] ensures IsChild(up, kids, root, q, c) {
      var i :| 0 <= i < |kids[q]| && kids[q][i] == c;
      assert IsChild(up, kids, root, q, kids[q][i]);
    }
  }

  ghost predicate IsLink<K>(up: K -> K, root: K, chain: seq<K>, j: nat)
    requires j < |chain|
  {
    chain[j] != root && up(chain[j]) == (if j == 0 then root else chain[j - 1])
  }

  /** Each key's parent is the one before it, the first one's is the root. */
  ghost predicate IsChain<K>(up: K -> K, root: K, chain: seq<K>) {
    forall j :: 0 <= j < |chain| ==> IsLink(up, root, chain, j)
  }

  lemma ChainStep<K>(up: K -> K, root: K, chain: seq<K>, x: K)
    requires IsChain(up, root, chain) && x != root
    requires up(x) == if chain == [] then root else chain[|chain| - 1]
    ensures IsChain(up, root, chain + [x])
  {
    forall j | 0 <= j < |chain| + 1 ensures IsLink(up, root, chain + [x], j) {
      assert j < |chain| ==> IsLink(up, root, chain, j);
    }
  }

  lemma ChainInit<K>(up: K -> K, root: K, chain: seq<K>, x: K)
    requires IsChain(up, root, chain + [x])
    ensures IsChain(up, root, chain)
    ensures up(x) == root || up(x) in Elems(chain)
  {
    forall j | 0 <= j < |chain| ensures IsLink(up, root, chain, j) {
      assert IsLink(up, root, chain + [x], j);
    }
    assert IsLink(up, root, chain + [x], |chain|);
  }

  lemma ParentInChain<K>(up: K -> K, root: K, chain: seq<K>, j: nat, keys: set<K>)
    requires IsChain(up, root, chain) && j < |chain|
    requires root in keys && Elems(chain[..j]) <= keys
    ensures up(chain[j]) in keys && chain[j] != root
  {
    assert IsLink(up, root, chain, j);
    if j > 0 {
      assert chain[..j][j - 1] in Elems(chain[..j]);
    }
  }

  // ---------------------------------------------------------------- nodes on the heap

  /** `compoundTreeNode`: what it records about its path, and the children appended so far. */
  class Node<K, V> {
    const path: K
    const info: V
    var children: seq<Node<K, V>>

    constructor (path: K, info: V)
      ensures this.path == path && this.info == info && children == []
    {
      this.path, this.info, children := path, info, [];
    }
  }

  ghost function Nodes<K, V>(nodes: map<K, Node<K, V>>): set<Node<K, V>> {
    set q | q in nodes :: nodes[q]
  }

  ghost function PathsOf<K, V>(ns: seq<Node<K, V>>): (r: seq<K>)
    ensures |r| == |ns| && forall i :: 0 <= i < |ns| ==> r[i] == ns[i].path
  {
    seq(|ns|, i requires 0 <= i < |ns| => ns[i].path)
  }

  /** The child paths recorded under each path. */
  ghost function Kids<K, V>(nodes: map<K, Node<K, V>>): map<K, seq<K>>
    reads Nodes(nodes)
  {
    map q | q in nodes :: PathsOf(nodes[q].children)
  }

  ghost predicate InIndex<K, V>(nodes: map<K, Node<K, V>>, c: Node<K, V>) {
    c.path in nodes && nodes[c.path] == c
  }

  /** `nodesByPath` is keyed by the nodes' own paths, and every child is one of its nodes. */
  ghost predicate Indexed<K(!new), V>(nodes: map<K, Node<K, V>>)
    reads Nodes(nodes)
  {
    && (forall q :: q in nodes ==> nodes[q].path == q)
    && (forall q, i :: q in nodes && 0 <= i < |nodes[q].children| ==> InIndex(nodes, nodes[q].children[i]))
  }

  ghost predicate TreeLinked<K(!new), V>(up: K -> K, nodes: map<K, Node<K, V>>, root: K)
    reads Nodes(nodes)
  {
    Indexed(nodes) && Linked(up, Kids(nodes), root)
  }

  /** Enter a node into `nodesByPath` and append it to its parent's children. */
  method Attach<K(!new), V>(up: K -> K, nodes: map<K, Node<K, V>>, root: K, node: Node<K, V>)
    returns (extended: map<K, Node<K, V>>)
    requires TreeLinked(up, nodes, root)
    requires node.path !in nodes && up(node.path) in nodes
    requires node !in Nodes(nodes) && node.children == []
    modifies {nodes[up(node.path)]}
    ensures extended == nodes[node.path := node]
    ensures TreeLinked(up, extended, root)
  {
    ghost var kids := Kids(nodes);
    var q := node.path;
    var d := up(q);
    AttachKeepsLinks(up, kids, root, q, d);
    extended := nodes[q := node];
    var parent := nodes[d];
    parent.children := parent.children + [node];
    assert PathsOf(parent.children) == kids[d] + [q];
    assert PathsOf(node.children) == [];
    forall p | p in nodes && p != d ensures nodes[p] != parent {
      assert nodes[p].path == p && nodes[d].path == d;
    }
    assert Kids(extended) == WithChild(kids, d, q);
  }

  /** What holds of `nodesByPath` between two insertions. */
  ghost predicate Growing<K(!new), V>(up: K -> K, nodes: map<K, Node<K, V>>, root: K, want: K -> V)
    reads Nodes(nodes)
  {
    && TreeLinked(up, nodes, root)
    && (forall q :: q in nodes ==> nodes[q].info == want(q))
  }

  method NewIndex<K(!new), V>(up: K -> K, root: K, rootInfo: V, ghost want: K -> V) returns (nodes: map<K, Node<K, V>>)
    requires want(root) == rootInfo
    ensures Growing(up, nodes, root, want) && nodes.Keys == {root}
    ensures fresh(Nodes(nodes))
  {
    var rootNode := new Node<K, V>(root, rootInfo);
    nodes := map[root := rootNode];
    assert PathsOf(rootNode.children) == [];
  }

  /** Make a node for a path whose parent is there, and enter it. */
  method Enter<K(!new), V>(up: K -> K, nodes: map<K, Node<K, V>>, root: K, path: K, info: V, ghost want: K -> V)
    returns (extended: map<K, Node<K, V>>)
    requires Growing(up, nodes, root, want) && path !in nodes && up(path) in nodes && want(path) == info
    modifies Nodes(nodes)
    ensures Growing(up, extended, root, want) && extended.Keys == nodes.Keys + {path}
    ensures fresh(Nodes(extended) - Nodes(nodes))
  {
    var node := new Node<K, V>(path, info);
    extended := Attach(up, nodes, root, node);
  }

  lemma RemoveAtPaths<K, V>(s: seq<Node<K, V>>, j: nat)
    requires j < |s|
    ensures multiset(PathsOf(s)) == multiset(PathsOf(RemoveAt(s, j))) + multiset{s[j].path}
  {
    RemoveAtMultiset(PathsOf(s), j);
    assert PathsOf(RemoveAt(s, j)) == RemoveAt(PathsOf(s), j);
  }

  lemma {:induction false} SamePaths<K, V>(a: seq<Node<K, V>>, b: seq<Node<K, V>>)
    requires multiset(a) == multiset(b)
    ensures multiset(PathsOf(a)) == multiset(PathsOf(b))
    decreases |a|
  {
    if a == [] {
      assert |multiset(b)| == 0;
    } else {
      assert a[0] in multiset(b);
      var j :| 0 <= j < |b| && b[j] == a[0];
      RemoveAtMultiset(a, 0);
      RemoveAtMultiset(b, j);
      SamePaths(RemoveAt(a, 0), RemoveAt(b, j));
      RemoveAtPaths(a, 0);
      RemoveAtPaths(b, j);
    }
  }

  ghost predicate SortedKids<K, V>(name: K -> string, node: Node<K, V>)
    reads node
  {
    SortedBy(PathsOf(node.children), name)
  }

  /** The first half of `sortCompoundTreeChildren`: one node's children. */
  method SortOwnChildren<K(!new), V>(up: K -> K, name: K -> string, ghost nodes: map<K, Node<K, V>>,
                                     ghost root: K, node: Node<K, V>)
    requires TreeLinked(up, nodes, root) && InIndex(nodes, node)
    modifies node
    ensures TreeLinked(up, nodes, root)
    ensures SortedKids(name, node)
  {
    ghost var kids := Kids(nodes);
    var sorted := SortBy(node.children, (n: Node<K, V>) => name(n.path));
    SamePaths(node.children, sorted);
    ReorderKeepsLinks(up, kids, root, node.path, PathsOf(sorted));
    forall i | 0 <= i < |sorted| ensures InIndex(nodes, sorted[i]) {
      assert sorted[i] in multiset(node.children);
    }
    node.children := sorted;
    forall p | p in nodes && p != node.path ensures nodes[p] != node {
      assert nodes[p].path == p;
    }
    assert Kids(nodes) == kids[node.path := PathsOf(sorted)];
  }

  /** A set of keys that contains every child of its members. */
  ghost predicate DownClosed<K(!new)>(up: K -> K, keys: set<K>, root: K, done: set<K>) {
    forall c :: c in keys && c != root && up(c) in done ==> c in done
  }

  /** The same, but for some children of one member. */
  ghost predicate DownClosedBut<K(!new)>(up: K -> K, keys: set<K>, root: K, done: set<K>, p: K, rest: seq<K>) {
    forall c :: c in keys && c != root && up(c) in done ==> c in done || (up(c) == p && c in rest)
  }

  lemma OneMoreClosed<K(!new)>(up: K -> K, keys: set<K>, root: K, done: set<K>, p: K, rest: seq<K>, sub: set<K>)
    requires rest != [] && DownClosedBut(up, keys, root, done, p, rest)
    requires DownClosed(up, keys, root, sub) && rest[0] in sub
    ensures DownClosedBut(up, keys, root, done + sub, p, rest[1..])
  {
    assert rest == [rest[0]] + rest[1..];
  }

  /** `sortCompoundTreeChildren`. `done` is the subtree that the call has sorted. */
  method SortChildren<K(!new), V>(up: K -> K, name: K -> string, ghost rank: K -> nat, ghost bound: nat,
                                  ghost nodes: map<K, Node<K, V>>, ghost root: K, node: Node<K, V>)
    returns (ghost done: set<K>)
    requires TreeLinked(up, nodes, root) && InIndex(nodes, node)
    requires forall q :: q in nodes ==> rank(q) <= bound
    requires forall q :: q in nodes && q != root ==> rank(up(q)) < rank(q)
    modifies Nodes(nodes)
    ensures TreeLinked(up, nodes, root)
    ensures node.path in done && done <= nodes.Keys
    ensures DownClosed(up, nodes.Keys, root, done)
    ensures forall q :: q in done ==> SortedKids(name, nodes[q]) && rank(node.path) <= rank(q)
    ensures forall q :: q in nodes && q !in done ==> nodes[q].children == old(nodes[q].children)
    decreases bound - rank(node.path)
  {
    SortOwnChildren(up, name, nodes, root, node);
    done := {node.path};
    var children := node.children;
    ghost var paths := PathsOf(children);
    ChildListExact(up, Kids(nodes), root, node.path);
    for i := 0 to |children|
      invariant TreeLinked(up, nodes, root)
      invariant node.children == children
      invariant forall c :: c in paths ==> c in nodes && c != root && up(c) == node.path
      invariant node.path in done && done <= nodes.Keys
      invariant forall q :: q in done ==> SortedKids(name, nodes[q]) && rank(node.path) <= rank(q)
      invariant forall q :: q in nodes && q !in done ==> nodes[q].children == old(nodes[q].children)
      invariant DownClosedBut(up, nodes.Keys, root, done, node.path, paths[i..])
    {
      var child := children[i];
      assert InIndex(nodes, child);
      assert paths[i] == child.path && child.path in paths;
      ghost var sub := SortChildren(up, name, rank, bound, nodes, root, child);
      OneMoreClosed(up, nodes.Keys, root, done, node.path, paths[i..], sub);
      done := done + sub;
    }
  }
}
