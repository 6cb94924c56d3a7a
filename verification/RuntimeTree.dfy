/** `buildCompoundRuntimeTree`: a tree rebuilt from a flat, unordered set of tagged paths. */
module RuntimeTree {
  import opened Lists
  import opened Order
  import opened Paths
  import opened Avus
  import opened Catalogues
  import opened Trees
  import opened Forests

  type PathNode = Node<Path, Info>

  /** The filesystem as the builder sees it. */
  datatype Environment = Environment(stat: Path -> Answer<Entry>, list: Path -> Answer<seq<Avu>>)

  datatype Result<+T> = Ok(value: T) | StatFailed(path: Path) | ListFailed(path: Path) | MissingParent(path: Path)

  /** A stat answers about the path it was asked for. */
  ghost predicate Sane(env: Environment) {
    forall p :: env.stat(p).Got? ==> env.stat(p).value.path == p
  }

  /** A path that was not found has no metadata; any other failure is an error. */
  function AnsweredMetas(answer: Answer<seq<Avu>>): seq<Avu> {
    if answer.Got? then answer.value else []
  }

  /** The paths the tree must hold: the root, the tagged paths, and every path between them. */
  ghost predicate InTree(root: Path, tagged: set<Path>, q: Path) {
    q == root || exists p :: p in tagged && Between(root, q, p)
  }

  ghost predicate Between(root: Path, q: Path, p: Path) {
    q == p || (Descends(root, q) && Descends(q, p))
  }

  ghost predicate Covers(keys: set<Path>, root: Path, tagged: set<Path>) {
    forall q {:trigger InTree(root, tagged, q)} :: q in keys <==> InTree(root, tagged, q)
  }

  lemma {:induction false} AncestorsAreChain(root: Path, p: Path)
    requires Descends(root, p)
    ensures IsChain(Parent, root, AncestorsBetween(root, p) + [p])
    decreases |p|
  {
    DescendsIsProperPrefix(root, p);
    var chain := AncestorsBetween(root, p);
    if Parent(p) != root {
      AncestorsAreChain(root, Parent(p));
      assert chain == AncestorsBetween(root, Parent(p)) + [Parent(p)];
    }
    ChainStep(Parent, root, chain, p);
  }

  lemma AncestorsDescend(root: Path, p: Path)
    requires Descends(root, p)
    ensures forall a :: a in AncestorsBetween(root, p) <==> Descends(root, a) && Descends(a, p)
  {
    forall a ensures a in AncestorsBetween(root, p) <==> Descends(root, a) && Descends(a, p) {
      AncestorsBetweenExact(root, p, a);
    }
  }

  /** A tagged path that sorts after all tagged paths handled so far has not been inserted yet:
      a path string sorts before every string that it begins. */
  lemma NotYetInserted(root: Path, done: set<Path>, p: Path)
    requires Descends(root, p)
    requires forall d :: d in done ==> Less(d, p)
    ensures !InTree(root, done, p)
  {
    DescendsIsProperPrefix(root, p);
    forall d | d in done ensures !Between(root, p, d) {
      LessAsymmetric(d, p);
      if Descends(p, d) {
        DescendsIsProperPrefix(p, d);
      }
    }
  }

  /** A path and its strict ancestors below the root. */
  ghost function Chain(root: Path, p: Path): (chain: set<Path>)
    requires Descends(root, p)
    ensures forall q :: q in chain <==> Between(root, q, p)
  {
    AncestorsDescend(root, p);
    Elems(AncestorsBetween(root, p)) + {p}
  }

  lemma InTreeOneMore(root: Path, done: set<Path>, p: Path, q: Path)
    ensures InTree(root, done + {p}, q) <==> InTree(root, done, q) || Between(root, q, p)
  {
    if InTree(root, done, q) && q != root {
      var d :| d in done && Between(root, q, d);
      assert d in done + {p};
    } else if Between(root, q, p) {
      assert p in done + {p};
    }
  }

  lemma CoversNothing(root: Path)
    ensures Covers({root}, root, {})
  {
  }

  lemma CoversOneMore(keys: set<Path>, root: Path, done: set<Path>, p: Path)
    requires Covers(keys, root, done) && Descends(root, p)
    ensures Covers(keys + Chain(root, p), root, done + {p})
  {
    forall q ensures q in keys + Chain(root, p) <==> InTree(root, done + {p}, q) {
      InTreeOneMore(root, done, p, q);
    }
  }

  // ---------------------------------------------------------------- the builder

  /** The insertion of one node: list its metadata, enter it, append it to its parent. */
  method InsertNode(env: Environment, root: Path, nodes: map<Path, PathNode>, entry: Entry, ghost want: Path -> Info)
    returns (r: Result<map<Path, PathNode>>)
    requires Growing(Parent, nodes, root, want)
    requires entry.path !in nodes && entry.path != root
    requires want(entry.path) == Info(entry, AnsweredMetas(env.list(entry.path)))
    modifies Nodes(nodes)
    ensures !r.StatFailed?
    ensures r.MissingParent? ==> Parent(entry.path) !in nodes
    ensures r.ListFailed? ==> r.path == entry.path && env.list(r.path).Failed?
    ensures r.Ok? ==> Growing(Parent, r.value, root, want) && r.value.Keys == nodes.Keys + {entry.path}
    ensures r.Ok? ==> fresh(Nodes(r.value) - Nodes(nodes))
  {
    var listing := env.list(entry.path);
    if listing.Failed? {
      return ListFailed(entry.path);
    }
    var parentPath := ParentRuntimeNodePath(root, entry.path);
    if parentPath !in nodes {
      return MissingParent(entry.path);
    }
    var extended := Enter(Parent, nodes, root, entry.path, Info(entry, AnsweredMetas(listing)), want);
    return Ok(extended);
  }

  /** What the tree records about a collection that no tag names. */
  ghost predicate StatsAs(env: Environment, want: Path -> Info, a: Path) {
    env.stat(a).Got? ==> want(a) == Info(env.stat(a).value, AnsweredMetas(env.list(a)))
  }

  lemma ElemsOneMore<T>(s: seq<T>, j: nat)
    requires j < |s|
    ensures Elems(s[..j + 1]) == Elems(s[..j]) + {s[j]}
    ensures s[..|s|] == s
    ensures s[j] in Elems(s)
  {
    assert s[..j + 1] == s[..j] + [s[j]];
  }

  lemma ElemsStep<T>(base: set<T>, s: seq<T>, j: nat)
    requires j < |s|
    ensures base + Elems(s[..j]) + {s[j]} == base + Elems(s[..j + 1])
  {
    ElemsOneMore(s, j);
  }

  lemma ElemsNone<T>(base: set<T>, s: seq<T>)
    ensures base + Elems(s[..0]) == base
    ensures base + Elems(s[..|s|]) == base + Elems(s)
  {
    assert s[..|s|] == s;
  }

  /** One turn of the loop over `ancestorCollectionPaths`. */
  method AddAncestor(env: Environment, root: Path, nodes: map<Path, PathNode>, ancestor: Path, ghost want: Path -> Info)
    returns (r: Result<map<Path, PathNode>>)
    requires Sane(env) && Growing(Parent, nodes, root, want) && ancestor != root
    requires ancestor !in nodes ==> StatsAs(env, want, ancestor)
    modifies Nodes(nodes)
    ensures r.MissingParent? ==> Parent(ancestor) !in nodes
    ensures r.StatFailed? ==> r.path == ancestor && !env.stat(r.path).Got?
    ensures r.ListFailed? ==> r.path == ancestor && env.list(r.path).Failed?
    ensures r.Ok? ==> Growing(Parent, r.value, root, want) && r.value.Keys == nodes.Keys + {ancestor}
    ensures r.Ok? ==> fresh(Nodes(r.value) - Nodes(nodes))
  {
    if ancestor in nodes {
      return Ok(nodes);
    }
    var answer := env.stat(ancestor);
    if !answer.Got? {
      return StatFailed(ancestor);
    }
    r := InsertNode(env, root, nodes, answer.value, want);
  }

  /** The loop over `ancestorCollectionPaths`. */
  method AddAncestors(env: Environment, root: Path, nodes: map<Path, PathNode>, ancestors: seq<Path>,
                      ghost want: Path -> Info)
    returns (r: Result<map<Path, PathNode>>)
    requires Sane(env) && Growing(Parent, nodes, root, want) && IsChain(Parent, root, ancestors)
    requires forall a :: a in ancestors && a !in nodes ==> StatsAs(env, want, a)
    modifies Nodes(nodes)
    ensures !r.MissingParent?
    ensures r.StatFailed? ==> r.path in ancestors && !env.stat(r.path).Got?
    ensures r.ListFailed? ==> r.path in ancestors && env.list(r.path).Failed?
    ensures r.Ok? ==> Growing(Parent, r.value, root, want) && r.value.Keys == nodes.Keys + Elems(ancestors)
    ensures r.Ok? ==> fresh(Nodes(r.value) - Nodes(nodes))
  {
    ElemsNone(nodes.Keys, ancestors);
    var grown := nodes;
    for j := 0 to |ancestors|
      invariant Growing(Parent, grown, root, want)
      invariant grown.Keys == nodes.Keys + Elems(ancestors[..j])
      invariant fresh(Nodes(grown) - Nodes(nodes))
    {
      ParentInChain(Parent, root, ancestors, j, grown.Keys);
      ElemsStep(nodes.Keys, ancestors, j);
      r := AddAncestor(env, root, grown, ancestors[j], want);
      if !r.Ok? {
        return;
      }
      grown := r.value;
    }
    r := Ok(grown);
  }

  /** The body of the loop over the sorted paths. Nothing in the source checks that the entry's path
      is new before the index is overwritten; callers prove it here. */
  method AddEntry(env: Environment, root: Path, nodes: map<Path, PathNode>, ancestors: seq<Path>, entry: Entry,
                  ghost want: Path -> Info)
    returns (r: Result<map<Path, PathNode>>)
    requires Sane(env) && Growing(Parent, nodes, root, want) && IsChain(Parent, root, ancestors)
    requires entry.path != root && entry.path !in nodes.Keys + Elems(ancestors)
    requires Parent(entry.path) in nodes.Keys + Elems(ancestors)
    requires forall a :: a in ancestors && a !in nodes ==> StatsAs(env, want, a)
    requires want(entry.path) == Info(entry, AnsweredMetas(env.list(entry.path)))
    modifies Nodes(nodes)
    ensures !r.MissingParent?
    ensures r.StatFailed? ==> r.path in ancestors && !env.stat(r.path).Got?
    ensures r.ListFailed? ==> r.path in ancestors + [entry.path] && env.list(r.path).Failed?
    ensures r.Ok? ==> Growing(Parent, r.value, root, want)
    ensures r.Ok? ==> r.value.Keys == nodes.Keys + Elems(ancestors) + {entry.path}
    ensures r.Ok? ==> fresh(Nodes(r.value) - Nodes(nodes))
  {
    r := AddAncestors(env, root, nodes, ancestors, want);
    if !r.Ok? {
      return;
    }
    r := InsertNode(env, root, r.value, entry, want);
  }

  lemma EntryFacts(keys: set<Path>, root: Path, done: set<Path>, p: Path, ancestors: seq<Path>)
    requires Covers(keys, root, done) && Descends(root, p) && ancestors == AncestorsBetween(root, p)
    requires forall d :: d in done ==> Less(d, p)
    ensures root != p && IsChain(Parent, root, ancestors)
    ensures Parent(p) in keys + Elems(ancestors)
    ensures p !in keys + Elems(ancestors)
    ensures forall a :: a in ancestors ==> Between(root, a, p)
    ensures Covers(keys + Elems(ancestors) + {p}, root, done + {p})
  {
    DescendsIsProperPrefix(root, p);
    AncestorsAreChain(root, p);
    ChainInit(Parent, root, ancestors, p);
    assert InTree(root, done, root);
    NotYetInserted(root, done, p);
    AncestorsDescend(root, p);
    if Descends(p, p) {
      DescendsIsProperPrefix(p, p);
    }
    CoversOneMore(keys, root, done, p);
    assert keys + Chain(root, p) == keys + Elems(ancestors) + {p};
  }

  // ---------------------------------------------------------------- the loop over the tagged paths

  /** What a listing below `root` looks like. */
  ghost predicate Listed(root: Path, entries: map<Path, Entry>) {
    forall p :: p in entries ==> entries[p].path == p && Descends(root, p)
  }

  /** What the tree records about each path. */
  ghost function Want(env: Environment, root: Path, rootInfo: Info, entries: map<Path, Entry>): Path -> Info {
    (q: Path) =>
      if q == root then rootInfo
      else if q in entries then Info(entries[q], AnsweredMetas(env.list(q)))
      else if env.stat(q).Got? then Info(env.stat(q).value, AnsweredMetas(env.list(q)))
      else Info(Entry(q, true), [])
  }

  lemma AncestorsAsWanted(env: Environment, root: Path, rootInfo: Info, entries: map<Path, Entry>,
                          keys: set<Path>, done: set<Path>, p: Path)
    requires Descends(root, p) && Covers(keys, root, done)
    requires forall a :: a in entries && Less(a, p) ==> a in done
    ensures forall a :: a in AncestorsBetween(root, p) && a !in keys ==>
              StatsAs(env, Want(env, root, rootInfo, entries), a)
  {
    forall a | a in AncestorsBetween(root, p) && a !in keys
      ensures StatsAs(env, Want(env, root, rootInfo, entries), a)
    {
      AncestorsBetweenExact(root, p, a);
      DescendsIsProperPrefix(a, p);
      DescendsIsProperPrefix(root, a);
      assert !InTree(root, done, a);
      assert a in done ==> Between(root, a, a);
    }
  }

  lemma ChainInTree(root: Path, tagged: set<Path>, p: Path, q: Path)
    requires p in tagged && Descends(root, p) && q in AncestorsBetween(root, p) + [p]
    ensures InTree(root, tagged, q) && q != root
  {
    if q != p {
      AncestorsBetweenExact(root, p, q);
    }
    assert Between(root, q, p);
    DescendsIsProperPrefix(root, q);
  }

  /** The tagged paths that the loop has handled after `i` turns. */
  ghost function Taken(keys: set<Path>, paths: seq<string>, i: nat): set<Path>
    requires i <= |paths|
  {
    set p | p in keys && p in paths[..i]
  }

  /** The next path is a key, and those handled so far are the keys that sort before it. */
  ghost predicate InOrder(keys: set<Path>, paths: seq<string>, i: nat)
    requires i < |paths|
  {
    paths[i] in keys && forall a :: a in keys ==> (a in Taken(keys, paths, i) <==> Less(a, paths[i]))
  }

  lemma SortedIsInOrder(keys: set<Path>, paths: seq<string>)
    requires paths == SortSet(keys)
    ensures Taken(keys, paths, 0) == {} && Taken(keys, paths, |paths|) == keys
    ensures forall i :: 0 <= i < |paths| ==> InOrder(keys, paths, i)
  {
    assert paths[..|paths|] == paths;
    assert forall p :: p in keys ==> p in Elems<string>(paths);
    forall i | 0 <= i < |paths| ensures InOrder(keys, paths, i) {
      assert paths[i] in Elems<string>(paths);
      forall a | a in keys ensures a in Taken(keys, paths, i) <==> Less(a, paths[i]) {
        if Less(a, paths[i]) {
          LowerElementsBefore(paths, i, a);
        }
        if a in Taken(keys, paths, i) {
          var k :| 0 <= k < i && paths[k] == a;
        }
      }
    }
  }

  lemma TakenStep(keys: set<Path>, paths: seq<string>, i: nat, p: Path)
    requires i < |paths| && p == paths[i] && p in keys
    ensures Taken(keys, paths, i + 1) == Taken(keys, paths, i) + {p}
  {
    assert paths[..i + 1] == paths[..i] + [paths[i]];
  }

  /** Everything the loop body needs to know about its path. */
  ghost predicate NextFacts(env: Environment, root: Path, keys: set<Path>, p: Path, want: Path -> Info) {
    && Descends(root, p) && root != p
    && var ancestors := AncestorsBetween(root, p);
      && IsChain(Parent, root, ancestors)
      && Parent(p) in keys + Elems(ancestors)
      && p !in keys + Elems(ancestors)
      && (forall a :: a in ancestors && a !in keys ==> StatsAs(env, want, a))
  }

  lemma LoopFacts(env: Environment, root: Path, rootInfo: Info, entries: map<Path, Entry>, want: Path -> Info,
                  keys: set<Path>, done: set<Path>, p: Path)
    requires want == Want(env, root, rootInfo, entries)
    requires Listed(root, entries) && p in entries && Covers(keys, root, done)
    requires forall a :: a in entries && Less(a, p) ==> a in done
    requires forall d :: d in done ==> Less(d, p)
    ensures NextFacts(env, root, keys, p, want)
    ensures Covers(keys + Elems(AncestorsBetween(root, p)) + {p}, root, done + {p})
    ensures want(p) == Info(entries[p], AnsweredMetas(env.list(p)))
  {
    EntryFacts(keys, root, done, p, AncestorsBetween(root, p));
    AncestorsAsWanted(env, root, rootInfo, entries, keys, done, p);
  }

  /** One turn of the loop, told by the keys before and after it. */
  ghost predicate Turn(env: Environment, root: Path, entries: map<Path, Entry>, p: string, before: set<Path>,
                       after: set<Path>, want: Path -> Info)
  {
    && p in entries && entries[p].path == p && want(p) == Info(entries[p], AnsweredMetas(env.list(p)))
    && NextFacts(env, root, before, p, want)
    && after == before + Elems(AncestorsBetween(root, p)) + {p}
  }

  ghost predicate Turns(env: Environment, root: Path, entries: map<Path, Entry>, paths: seq<string>,
                        stages: seq<set<Path>>, want: Path -> Info)
  {
    && |stages| > |paths|
    && forall i :: 0 <= i < |paths| ==> Turn(env, root, entries, paths[i], stages[i], stages[i + 1], want)
  }

  /** The keys of the index before, between and after the turns. */
  lemma PlanTurns(env: Environment, root: Path, rootInfo: Info, entries: map<Path, Entry>, paths: seq<string>,
                  want: Path -> Info)
    returns (stages: seq<set<Path>>)
    requires Listed(root, entries) && want == Want(env, root, rootInfo, entries)
    requires forall i :: 0 <= i < |paths| ==> InOrder(entries.Keys, paths, i)
    requires Taken(entries.Keys, paths, 0) == {} && Taken(entries.Keys, paths, |paths|) == entries.Keys
    ensures Turns(env, root, entries, paths, stages, want) && |stages| == |paths| + 1
    ensures stages[0] == {root} && Covers(stages[|paths|], root, entries.Keys)
  {
    stages := [{root}];
    CoversNothing(root);
    for i := 0 to |paths|
      invariant |stages| == i + 1 && stages[0] == {root}
      invariant Covers(stages[i], root, Taken(entries.Keys, paths, i))
      invariant forall j :: 0 <= j < i ==> Turn(env, root, entries, paths[j], stages[j], stages[j + 1], want)
    {
      stages := stages + [NextStage(env, root, rootInfo, entries, paths, i, stages[i], want)];
    }
  }

  ghost function NextStage(env: Environment, root: Path, rootInfo: Info, entries: map<Path, Entry>, paths: seq<string>,
                           i: nat, keys: set<Path>, want: Path -> Info): (after: set<Path>)
    requires Listed(root, entries) && want == Want(env, root, rootInfo, entries)
    requires i < |paths| && InOrder(entries.Keys, paths, i) && Covers(keys, root, Taken(entries.Keys, paths, i))
    ensures Turn(env, root, entries, paths[i], keys, after, want)
    ensures Covers(after, root, Taken(entries.Keys, paths, i + 1))
  {
    var p: Path := paths[i];
    LoopFacts(env, root, rootInfo, entries, want, keys, Taken(entries.Keys, paths, i), p);
    TakenStep(entries.Keys, paths, i, p);
    keys + Elems(AncestorsBetween(root, p)) + {p}
  }

  /** Why the builder may fail. */
  ghost predicate FailsIn(env: Environment, root: Path, tagged: set<Path>, r: Result<map<Path, PathNode>>) {
    && !r.MissingParent?
    && (r.StatFailed? ==> InTree(root, tagged, r.path) && r.path != root && !env.stat(r.path).Got?)
    && (r.ListFailed? ==> InTree(root, tagged, r.path) && r.path != root && env.list(r.path).Failed?)
  }

  /** The index after the ancestors and the entry of `p` have been added. */
  method AddNext(env: Environment, root: Path, entries: map<Path, Entry>, nodes: map<Path, PathNode>, p: Path,
                 ghost before: set<Path>, ghost after: set<Path>, ghost want: Path -> Info)
    returns (r: Result<map<Path, PathNode>>)
    requires Sane(env) && Turn(env, root, entries, p, before, after, want)
    requires Growing(Parent, nodes, root, want) && nodes.Keys == before
    modifies Nodes(nodes)
    ensures FailsIn(env, root, entries.Keys, r)
    ensures r.Ok? ==> Growing(Parent, r.value, root, want) && r.value.Keys == after
    ensures r.Ok? ==> fresh(Nodes(r.value) - Nodes(nodes))
  {
    var ancestors := AncestorCollectionPaths(root, p);
    r := AddEntry(env, root, nodes, ancestors, entries[p], want);
    if !r.Ok? {
      ChainInTree(root, entries.Keys, p, r.path);
    }
  }

  /** The loop over the sorted paths; `stages` foretells the keys of the index. */
  method AddAll(env: Environment, root: Path, entries: map<Path, Entry>, nodes: map<Path, PathNode>, paths: seq<string>,
                ghost stages: seq<set<Path>>, ghost want: Path -> Info)
    returns (r: Result<map<Path, PathNode>>)
    requires Sane(env) && Turns(env, root, entries, paths, stages, want)
    requires Growing(Parent, nodes, root, want) && nodes.Keys == stages[0]
    modifies Nodes(nodes)
    ensures FailsIn(env, root, entries.Keys, r)
    ensures r.Ok? ==> Growing(Parent, r.value, root, want) && r.value.Keys == stages[|paths|]
    ensures r.Ok? ==> fresh(Nodes(r.value) - Nodes(nodes))
  {
    var grown := nodes;
    for i := 0 to |paths|
      invariant Growing(Parent, grown, root, want) && grown.Keys == stages[i]
      invariant fresh(Nodes(grown) - Nodes(nodes))
    {
      assert Turn(env, root, entries, paths[i], stages[i], stages[i + 1], want);
      r := AddNext(env, root, entries, grown, paths[i], stages[i], stages[i + 1], want);
      if !r.Ok? {
        return;
      }
      grown := r.value;
    }
    r := Ok(grown);
  }

  /** `buildCompoundRuntimeTree` up to the final sort. */
  method BuildIndex(env: Environment, root: Path, rootInfo: Info, entries: map<Path, Entry>)
    returns (r: Result<map<Path, PathNode>>)
    requires Sane(env) && Listed(root, entries)
    ensures FailsIn(env, root, entries.Keys, r)
    ensures r.Ok? ==> Growing(Parent, r.value, root, Want(env, root, rootInfo, entries))
    ensures r.Ok? ==> Covers(r.value.Keys, root, entries.Keys)
    ensures r.Ok? ==> fresh(Nodes(r.value))
  {
    ghost var want := Want(env, root, rootInfo, entries);
    var nodes := NewIndex(Parent, root, rootInfo, want);
    var paths := SortedKeyList(entries.Keys);
    SortedIsInOrder(entries.Keys, paths);
    ghost var stages := PlanTurns(env, root, rootInfo, entries, paths, want);
    r := AddAll(env, root, entries, nodes, paths, stages, want);
  }

  // ---------------------------------------------------------------- the finished tree

  /** The heap nodes below `n` spell out the tree `t`. */
  ghost predicate Represents(owned: set<PathNode>, n: PathNode, t: Tree)
    reads owned
    decreases t
  {
    && n in owned
    && n.info == Info(t.entry, t.metas)
    && |n.children| == |t.children|
    && forall i :: 0 <= i < |t.children| ==> Represents(owned, n.children[i], t.children[i])
  }

  function Spelling(p: Path): string { p }

  ghost function InfoOf(nodes: map<Path, PathNode>): map<Path, Info> {
    map q | q in nodes :: nodes[q].info
  }

  lemma CoveredShape(root: Path, tagged: set<Path>, keys: set<Path>)
    requires Covers(keys, root, tagged)
    requires forall p :: p in tagged ==> Descends(root, p)
    ensures forall q :: q in keys ==> q == root || Descends(root, q)
  {
    forall q | q in keys && q != root ensures Descends(root, q) {
      assert InTree(root, tagged, q);
      var p :| p in tagged && Between(root, q, p);
    }
  }

  /** The children linked under a path are the ones its tree node lists. */
  lemma LinkedChildKeys(kids: map<Path, seq<Path>>, root: Path, q: Path)
    requires Linked(Parent, kids, root) && q in kids
    requires forall k :: k in kids ==> k == root || Descends(root, k)
    ensures Elems(kids[q]) == ChildKeys(kids.Keys, q)
  {
    ChildListExact(Parent, kids, root, q);
    forall c | c in ChildKeys(kids.Keys, q) ensures c != root {
      if c == root {
        RootHasNoParentBelow(root, q);
      }
    }
  }

  lemma RootHasNoParentBelow(root: Path, q: Path)
    requires root != "/" && Parent(root) == q
    ensures q != root && !Descends(root, q)
  {
    if Descends(root, q) {
      DescendsIsProperPrefix(root, q);
    }
  }

  lemma SortedPathsAreSortSet(s: seq<Path>)
    requires SortedBy(s, Spelling) && Distinct(s)
    ensures s == SortSet(Elems(s))
  {
    forall i, j | 0 <= i < j < |s| ensures !Less(s[j], s[i]) {
      assert !Less(Spelling(s[j]), Spelling(s[i]));
    }
    assert Distinct<string>(s);
    NeverDescendingIsSortSet(s);
    assert Elems<string>(s) == Elems<Path>(s);
  }

  ghost predicate AllSorted(nodes: map<Path, PathNode>)
    reads Nodes(nodes)
  {
    forall q :: q in nodes ==> SortedKids(Spelling, nodes[q])
  }

  ghost predicate Finished(nodes: map<Path, PathNode>, root: Path)
    reads Nodes(nodes)
  {
    && TreeLinked(Parent, nodes, root)
    && AllSorted(nodes)
    && (forall q :: q in nodes ==> q == root || Descends(root, q))
    && (forall q :: q in nodes ==> nodes[q].info.entry.path == q)
  }

  lemma FinishedChildren(nodes: map<Path, PathNode>, root: Path, q: Path)
    requires Finished(nodes, root) && q in nodes
    ensures PathsOf(nodes[q].children) == SortedChildren(nodes.Keys, q)
    ensures forall i :: 0 <= i < |nodes[q].children| ==> InIndex(nodes, nodes[q].children[i])
  {
    var kids := Kids(nodes);
    LinkedChildKeys(kids, root, q);
    assert OwnChildren<Path>(Parent, kids, root, q);
    SortedPathsAreSortSet(kids[q]);
    assert kids.Keys == nodes.Keys;
  }

  lemma {:induction false} BuiltTree(nodes: map<Path, PathNode>, root: Path, q: Path)
    requires Finished(nodes, root) && q in nodes
    ensures Represents(Nodes(nodes), nodes[q], TreeOf(InfoOf(nodes), q))
    decreases Below(nodes.Keys, q)
  {
    FinishedChildren(nodes, root, q);
    var info := InfoOf(nodes);
    var cs := SortedChildren(nodes.Keys, q);
    var n := nodes[q];
    assert info.Keys == nodes.Keys;
    forall i | 0 <= i < |cs| ensures Represents(Nodes(nodes), n.children[i], TreeOf(info, cs[i])) {
      assert PathsOf(n.children)[i] == cs[i] && cs[i] in Elems(cs);
      assert InIndex(nodes, n.children[i]);
      BelowShrinks(nodes.Keys, q, cs[i]);
      BuiltTree(nodes, root, cs[i]);
    }
  }

  ghost function LongestPath(keys: set<Path>): (n: nat)
    ensures forall q :: q in keys ==> |q| <= n
  {
    if keys == {} then 0
    else
      var q :| q in keys;
      var n := LongestPath(keys - {q});
      if |q| > n then |q| else n
  }

  function Length(q: Path): nat { |q| }

  lemma {:induction false} DownClosedIsAll(kids: map<Path, seq<Path>>, root: Path, done: set<Path>, q: Path)
    requires Linked(Parent, kids, root) && DownClosed(Parent, kids.Keys, root, done) && root in done
    requires forall k :: k in kids && k != root ==> k != "/"
    requires q in kids
    ensures q in done
    decreases |q|
  {
    if q != root {
      assert Hangs<Path>(Parent, kids, q);
      DownClosedIsAll(kids, root, done, Parent(q));
    }
  }

  ghost function InfoFor(keys: set<Path>, want: Path -> Info): map<Path, Info> {
    map q | q in keys :: want(q)
  }

  lemma WantedPaths(env: Environment, root: Path, rootInfo: Info, entries: map<Path, Entry>)
    requires Sane(env) && Listed(root, entries) && rootInfo.entry.path == root
    ensures forall q :: Want(env, root, rootInfo, entries)(q).entry.path == q
  {
  }

  /** The sort that ends `buildCompoundRuntimeTree`. */
  method FinishTree(nodes: map<Path, PathNode>, root: Path, ghost want: Path -> Info)
    requires Growing(Parent, nodes, root, want)
    requires forall q :: q in nodes ==> q == root || Descends(root, q)
    requires forall q :: want(q).entry.path == q
    modifies Nodes(nodes)
    ensures Represents(Nodes(nodes), nodes[root], TreeOf(InfoFor(nodes.Keys, want), root))
  {
    ghost var bound := LongestPath(nodes.Keys);
    ghost var done := SortChildren(Parent, Spelling, Length, bound, nodes, root, nodes[root]);
    forall q | q in nodes ensures SortedKids(Spelling, nodes[q]) {
      DownClosedIsAll(Kids(nodes), root, done, q);
    }
    assert InfoOf(nodes) == InfoFor(nodes.Keys, want);
    BuiltTree(nodes, root, root);
  }

  /** `buildCompoundRuntimeTree`: whatever the order in which tagged paths arrive, the result is the
      tree of the root, the tagged paths and the collections between them. It fails only when the
      filesystem does, never for want of a parent node. */
  method BuildRuntimeTree(env: Environment, root: Path, rootInfo: Info, entries: map<Path, Entry>)
    returns (r: Result<PathNode>, ghost keys: set<Path>, ghost owned: set<PathNode>)
    requires Sane(env) && Listed(root, entries) && rootInfo.entry.path == root
    ensures !r.MissingParent?
    ensures r.StatFailed? ==> InTree(root, entries.Keys, r.path) && r.path != root && !env.stat(r.path).Got?
    ensures r.ListFailed? ==> InTree(root, entries.Keys, r.path) && r.path != root && env.list(r.path).Failed?
    ensures r.Ok? ==> Covers(keys, root, entries.Keys) && root in keys
    ensures r.Ok? ==> Represents(owned, r.value, TreeOf(InfoFor(keys, Want(env, root, rootInfo, entries)), root))
  {
    keys, owned := {}, {};
    var built := BuildIndex(env, root, rootInfo, entries);
    if !built.Ok? {
      return FailureOf(built), keys, owned;
    }
    var nodes := built.value;
    keys, owned := nodes.Keys, Nodes(nodes);
    CoveredShape(root, entries.Keys, keys);
    WantedPaths(env, root, rootInfo, entries);
    FinishTree(nodes, root, Want(env, root, rootInfo, entries));
    r := Ok(nodes[root]);
  }

  function FailureOf<T, U>(r: Result<T>): Result<U>
    requires !r.Ok?
  {
    match r
    case StatFailed(p) => StatFailed(p)
    case ListFailed(p) => ListFailed(p)
    case MissingParent(p) => MissingParent(p)
  }
}
