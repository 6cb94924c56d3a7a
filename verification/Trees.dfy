/** Catalogue entries and the trees built from them. */
module Trees {
  import opened Lists
  import opened Order
  import opened Paths
  import opened Avus

  datatype EntryAt<K> = Entry(path: K, isDir: bool)

  /** `compoundTreeNode`, once built. The key type is left generic where paths do not matter. */
  datatype TreeAt<K> = Tree(entry: EntryAt<K>, metas: seq<Avu>, children: seq<TreeAt<K>>)

  type Entry = EntryAt<Path>

  type Tree = TreeAt<Path>

  /** What a tree records about one path. */
  datatype Info = Info(entry: Entry, metas: seq<Avu>)

  ghost function ChildKeys(keys: set<Path>, p: Path): set<Path> {
    set q | q in keys && q != "/" && Parent(q) == p
  }

  ghost function Below(keys: set<Path>, p: Path): set<Path> {
    set q | q in keys && Descends(p, q)
  }

  lemma BelowShrinks(keys: set<Path>, p: Path, c: Path)
    requires c in ChildKeys(keys, p)
    ensures Below(keys, c) < Below(keys, p)
  {
    forall q | q in Below(keys, c) ensures q in Below(keys, p) {
      DescendsTransitive(p, c, q);
    }
    assert c in Below(keys, p);
    if c in Below(keys, c) {
      DescendsIsProperPrefix(c, c);
    }
  }

  /** The sorted children of a path within a set of paths. */
  ghost function SortedChildren(keys: set<Path>, p: Path): (r: seq<Path>)
    ensures StrictlySorted(r) && Elems(r) == ChildKeys(keys, p)
  {
    var r := SortSet(ChildKeys(keys, p));
    assert forall i :: 0 <= i < |r| ==> r[i] in Elems(r);
    r
  }

  /** The tree of a set of paths: under each path its children, sorted. */
  ghost function TreeOf(info: map<Path, Info>, p: Path): Tree
    requires p in info
    decreases Below(info.Keys, p)
  {
    var cs := SortedChildren(info.Keys, p);
    Tree(info[p].entry, info[p].metas,
         seq(|cs|, i requires 0 <= i < |cs| =>
           (assert cs[i] in Elems(cs); BelowShrinks(info.Keys, p, cs[i]); TreeOf(info, cs[i]))))
  }
}
