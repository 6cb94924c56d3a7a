/** Spaces whose keys are catalogue paths. */
module PathSpaces {
  import opened Paths
  import opened Spaces

  /** Paths as a space: up is `path.Dir`, and a path is longer than its parent. */
  ghost predicate IsPathSpace(sp: Space<Path>) {
    forall q: Path :: sp.up(q) == Parent(q) && sp.rank(q) == |q|
  }

  lemma {:induction false} ClimbsIsDescent(sp: Space<Path>, root: Path, q: Path)
    requires IsPathSpace(sp)
    ensures Climbs(sp, root, q) <==> q == root || Descends(root, q)
    decreases |q|
  {
    if q != root && q != "/" {
      ClimbsIsDescent(sp, root, Parent(q));
    }
  }

  /** Collections list catalogued entries only. */
  ghost predicate ListsOnly(sp: Space<Path>, keys: set<Path>) {
    forall p, c :: p in keys && c in sp.kids(p) ==> c in keys
  }

  lemma {:induction false} SubtreeStaysIn(sp: Space<Path>, keys: set<Path>, p: Path, q: Path)
    requires WellFormed(sp) && ListsOnly(sp, keys) && p in keys && q in Subtree(sp, p)
    ensures q in keys
    decreases sp.bound - sp.rank(p)
  {
    if q != p {
      var c := OneOfMembers(sp, p, sp.kids(p), q);
      assert GoodKids(sp, p);
      SubtreeStaysIn(sp, keys, c, q);
    }
  }

  /** The subtree that the recursive operations go through is the path and its strict descendants. */
  lemma SubtreeIsDescent(sp: Space<Path>, keys: set<Path>, p: Path, q: Path)
    requires IsPathSpace(sp) && WellFormed(sp) && Complete(sp, keys, "/") && ListsOnly(sp, keys) && p in keys
    ensures q in Subtree(sp, p) <==> q in keys && (q == p || Descends(p, q))
  {
    var top: Path := "/";
    ClimbsIsDescent(sp, p, q);
    if q in Subtree(sp, p) {
      SubtreeSound(sp, p);
      SubtreeStaysIn(sp, keys, p, q);
    }
    if q in keys && (q == p || Descends(p, q)) {
      assert sp.rank(sp.up(top)) == sp.rank(top);
      SubtreeComplete(sp, keys, top, p, q);
    }
  }
}
