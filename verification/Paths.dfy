/** iRODS paths as character strings: what `path.Dir`, `path.Base` and the prefix tests of the DRS
    code do on the clean absolute paths a catalogue serves. */
module Paths {
  import opened Text
  import opened Order

  /** The index of the last slash. */
  function LastSlash(p: string): (i: nat)
    requires '/' in p
    ensures i < |p| && p[i] == '/' && '/' !in p[i + 1..]
  {
    if p[|p| - 1] == '/' then |p| - 1
    else
      assert p == p[..|p| - 1] + [p[|p| - 1]];
      LastSlash(p[..|p| - 1])
  }

  /** A path segment: not empty, free of slashes, not a dot segment, no white space at its ends. */
  predicate GoodSegment(s: string) {
    s != "" && '/' !in s && Trimmed(s) && s != "." && s != ".."
  }

  /** `path.Dir` of a clean path. */
  function Dir(p: string): (d: string)
    requires '/' in p
    ensures |p| > 1 ==> |d| < |p|
  {
    var i := LastSlash(p);
    if i == 0 then "/" else p[..i]
  }

  /** `path.Base` of a clean path other than "/"; iRODS calls it the entry's name. */
  function Base(p: string): string
    requires '/' in p
  {
    p[LastSlash(p) + 1..]
  }

  /** `path.Join` of a clean path and one segment. */
  function Join(d: string, seg: string): string {
    if d == "/" then "/" + seg else d + "/" + seg
  }

  /** Absolute and clean: the shape of every path in the catalogue. */
  predicate Clean(p: string)
    decreases |p|, 1
  {
    p == "/" || CleanBelow(p)
  }

  /** A good segment below a clean path. */
  predicate CleanBelow(p: string)
    decreases |p|, 0
  {
    '/' in p && |p| > 1 && GoodSegment(Base(p)) && p == Join(Dir(p), Base(p)) && Clean(Dir(p))
  }

  type Path = p: string | Clean(p) witness "/"

  lemma LastSlashUnique(p: string, i: nat)
    requires i < |p| && p[i] == '/' && '/' !in p[i + 1..]
    ensures LastSlash(p) == i
  {
    var k := LastSlash(p);
    assert forall j :: i < j < |p| ==> p[j] == p[i + 1..][j - (i + 1)];
    assert forall j :: k < j < |p| ==> p[j] == p[k + 1..][j - (k + 1)];
  }

  lemma DirBaseOfJoin(d: string, seg: string)
    requires '/' !in seg && d != ""
    ensures '/' in Join(d, seg) && Dir(Join(d, seg)) == d && Base(Join(d, seg)) == seg
  {
    var p := Join(d, seg);
    var i := if d == "/" then 0 else |d|;
    assert p[i] == '/' && p[i + 1..] == seg;
    LastSlashUnique(p, i);
    assert d != "/" ==> p[..i] == d;
  }

  lemma {:induction false} CleanShape(p: Path)
    ensures p != "" && p[0] == '/' && '/' in p && (p[|p| - 1] == '/' ==> p == "/")
    decreases |p|
  {
    if p != "/" {
      assert CleanBelow(p);
      CleanShape(Parent(p));
    }
  }

  /** `path.Dir`, total on catalogue paths. */
  function Parent(p: Path): (d: Path)
    ensures p != "/" ==> |d| < |p| && '/' in p
  {
    if p == "/" then "/" else
      assert CleanBelow(p);
      Dir(p)
  }

  lemma PathShape(p: Path)
    ensures p != ""
    ensures p != "/" ==> '/' in p && p == Join(Parent(p), Base(p)) && GoodSegment(Base(p))
  {
    assert p != "/" ==> CleanBelow(p);
  }

  /** The reference notion of strict descendant: some positive number of `path.Dir` steps leads
      from `p` to `root`. */
  ghost predicate Descends(root: Path, p: Path)
    decreases |p|
  {
    p != "/" && (Parent(p) == root || Descends(root, Parent(p)))
  }

  /** `strings.TrimRight(p, "/")` of a clean path. */
  function WithoutTrailingSlash(p: string): string {
    if p == "/" then "" else p
  }

  /** The test of the recursive listing scope: a prefix test on characters. */
  predicate HasPathPrefix(root: string, p: string) {
    HasPrefix(p, WithoutTrailingSlash(root) + "/")
  }

  lemma SlashPrefix(pre: string, s: string, b: string)
    requires pre != "" && pre[|pre| - 1] == '/' && '/' !in b
    ensures pre <= s + b <==> pre <= s
  {
    var p := s + b;
    if |pre| > |s| {
      assert |pre| <= |p| ==> p[|pre| - 1] == b[|pre| - 1 - |s|];
    } else if pre <= p {
      assert pre == p[..|pre|] == s[..|pre|];
    }
  }

  lemma SlashEnded(r: string, s: string)
    ensures r + "/" <= s + "/" <==> r == s || r + "/" <= s
  {
    var a, b := r + "/", s + "/";
    if a <= b {
      if |r| == |s| {
        assert r == a[..|r|] == b[..|s|] == s;
      } else {
        assert a == b[..|a|] == s[..|a|];
      }
    }
  }

  lemma PrefixStep(root: string, d: string, b: string)
    requires root != "" && d != "" && '/' !in b
    ensures HasPathPrefix(root, Join(d, b)) <==> root == d || HasPathPrefix(root, d)
  {
    var r, s := WithoutTrailingSlash(root), WithoutTrailingSlash(d);
    assert Join(d, b) == (s + "/") + b;
    SlashPrefix(r + "/", s + "/", b);
    SlashEnded(r, s);
    SlashEnded(r, "");
    assert "" + "/" == "/";
  }

  /** The character test decides true descent, but for "/" under itself. */
  lemma {:induction false} PrefixIsDescent(root: Path, p: Path)
    ensures HasPathPrefix(root, p) <==> Descends(root, p) || (root == "/" && p == "/")
    decreases |p|
  {
    PathShape(root);
    PathShape(p);
    if p == "/" {
      assert |WithoutTrailingSlash(root) + "/"| <= 1 ==> root == "/";
    } else {
      PathShape(Parent(p));
      PrefixIsDescent(root, Parent(p));
      PrefixStep(root, Parent(p), Base(p));
    }
  }

  lemma {:induction false} DescendsIsProperPrefix(root: Path, p: Path)
    requires Descends(root, p)
    ensures root < p && Less(root, p)
    decreases |p|
  {
    if Parent(p) != root {
      DescendsIsProperPrefix(root, Parent(p));
    }
    assert Parent(p) < p;
    PrefixLess(root, p);
  }

  lemma {:induction false} DescendsTransitive(a: Path, b: Path, p: Path)
    requires Descends(a, b) && Descends(b, p)
    ensures Descends(a, p)
    decreases |p|
  {
    if Parent(p) != b {
      DescendsTransitive(a, b, Parent(p));
    }
  }

  /** Two strict ancestors of one path are comparable. */
  lemma {:induction false} AncestorsComparable(a: Path, b: Path, p: Path)
    requires Descends(a, p) && Descends(b, p)
    ensures a == b || Descends(a, b) || Descends(b, a)
    decreases |p|
  {
    if Parent(p) != a && Parent(p) != b {
      AncestorsComparable(a, b, Parent(p));
    }
  }

  /** The strict ancestors of `p` strictly below `root`, outermost first. */
  function AncestorsBetween(root: Path, p: Path): (r: seq<Path>)
    requires Descends(root, p)
    decreases |p|
  {
    if Parent(p) == root then [] else AncestorsBetween(root, Parent(p)) + [Parent(p)]
  }

  lemma {:induction false} AncestorsBetweenExact(root: Path, p: Path, a: Path)
    requires Descends(root, p)
    ensures a in AncestorsBetween(root, p) <==> Descends(root, a) && Descends(a, p)
    decreases |p|
  {
    var d := Parent(p);
    if d == root {
      if Descends(root, a) && Descends(a, p) {
        DescendsIsProperPrefix(root, a);
        if d != a { DescendsIsProperPrefix(a, d); }
      }
    } else {
      AncestorsBetweenExact(root, d, a);
    }
  }

  // ---------------------------------------------------------------- segments

  /** `strings.Split(s, "/")`. */
  function Split(s: string): (r: seq<string>)
    ensures |r| > 0
    decreases |s|
  {
    if '/' !in s then [s] else Split(s[..LastSlash(s)]) + [s[LastSlash(s) + 1..]]
  }

  /** `relativePathFromRoot`. */
  function RelativePath(root: string, target: string): string {
    if root == target then "" else TrimPrefix(TrimPrefix(target, root), "/")
  }

  function JoinAll(root: string, segs: seq<string>): string {
    if segs == [] then root else Join(JoinAll(root, segs[..|segs| - 1]), segs[|segs| - 1])
  }

  lemma RelativePathOf(root: string, x: string)
    requires root != "" && x != "" && x[0] != '/'
    ensures RelativePath(root, WithoutTrailingSlash(root) + "/" + x) == x
  {
    var p := WithoutTrailingSlash(root) + "/" + x;
    assert |p| > |root|;
    if root == "/" {
      assert p == root + x;
    } else {
      assert p == root + ("/" + x);
      assert p[|root|..] == "/" + x;
    }
  }

  /** One more segment on a path spelled relative to `root`. */
  lemma JoinSpelling(root: string, x: string, b: string)
    requires root != "" && x != "" && x[0] != '/'
    ensures var d := WithoutTrailingSlash(root) + "/" + x;
      && Join(d, b) == WithoutTrailingSlash(root) + "/" + (x + "/" + b)
      && RelativePath(root, Join(d, b)) == x + "/" + b
  {
    var d := WithoutTrailingSlash(root) + "/" + x;
    assert |d| > 1;
    assert Join(d, b) == WithoutTrailingSlash(root) + "/" + (x + "/" + b);
    RelativePathOf(root, x + "/" + b);
  }

  /** A path strictly below `root` is the root, a slash and its relative path, and each relative
      path extends its parent's by one segment. */
  lemma {:induction false} RelativePathSteps(root: Path, p: Path)
    requires Descends(root, p)
    ensures var x := RelativePath(root, p);
      && x != "" && x[0] != '/'
      && p == WithoutTrailingSlash(root) + "/" + x
      && x == if Parent(p) == root then Base(p) else RelativePath(root, Parent(p)) + "/" + Base(p)
    decreases |p|
  {
    var d, b := Parent(p), Base(p);
    PathShape(root);
    PathShape(p);
    if d == root {
      assert Join(root, b) == WithoutTrailingSlash(root) + "/" + b;
      RelativePathOf(root, b);
    } else {
      RelativePathSteps(root, d);
      JoinSpelling(root, RelativePath(root, d), b);
    }
  }

  lemma SplitAppend(s: string, b: string)
    requires '/' !in b
    ensures Split(s + "/" + b) == Split(s) + [b]
    ensures Split(b) == [b]
  {
    var t := s + "/" + b;
    assert t[|s|] == '/' && t[|s| + 1..] == b;
    LastSlashUnique(t, |s|);
    assert t[..|s|] == s;
  }

  lemma JoinAllAppend(root: string, segs: seq<string>, b: string)
    ensures JoinAll(root, segs + [b]) == Join(JoinAll(root, segs), b)
    ensures forall i :: 0 <= i <= |segs| ==> (segs + [b])[..i] == segs[..i]
  {
    assert (segs + [b])[..|segs|] == segs;
  }

  ghost predicate SpellsAncestors(root: string, segs: seq<string>, p: string, ancestors: seq<string>) {
    && JoinAll(root, segs) == p
    && |ancestors| + 1 == |segs|
    && (forall i :: 0 <= i < |segs| ==> GoodSegment(segs[i]))
    && (forall i :: 0 <= i < |ancestors| ==> ancestors[i] == JoinAll(root, segs[..i + 1]))
  }

  lemma SpellsAncestorsBase(root: string, b: string)
    requires GoodSegment(b)
    ensures SpellsAncestors(root, Split(b), Join(root, b), [])
  {
    SplitAppend("", b);
    assert [b][..0] == [];
  }

  lemma SpellsAncestorsStep(root: string, x: string, d: string, ancestors: seq<string>, b: string)
    requires SpellsAncestors(root, Split(x), d, ancestors) && GoodSegment(b)
    ensures SpellsAncestors(root, Split(x + "/" + b), Join(d, b), ancestors + [d])
  {
    var segs := Split(x);
    SplitAppend(x, b);
    JoinAllAppend(root, segs, b);
    assert segs[..|segs|] == segs;
  }

  /** The segments of a relative path, and the ancestors that their prefixes spell. */
  lemma {:induction false} SplitSpellsAncestors(root: Path, p: Path)
    requires Descends(root, p)
    ensures SpellsAncestors(root, Split(RelativePath(root, p)), p, AncestorsBetween(root, p))
    decreases |p|
  {
    var d, b := Parent(p), Base(p);
    PathShape(p);
    RelativePathSteps(root, p);
    if d == root {
      SpellsAncestorsBase(root, b);
    } else {
      SplitSpellsAncestors(root, d);
      SpellsAncestorsStep(root, RelativePath(root, d), d, AncestorsBetween(root, d), b);
    }
  }

  /** `ancestorCollectionPaths`: split the relative path and rejoin its proper prefixes. */
  method AncestorCollectionPaths(root: Path, target: Path) returns (ancestors: seq<Path>)
    requires (root == target || Descends(root, target))
    ensures root == target ==> ancestors == []
    ensures root != target ==> ancestors == AncestorsBetween(root, target)
  {
    ancestors := [];
    if root == target {
      return;
    }
    var relative := RelativePath(root, target);
    RelativePathSteps(root, target);
    SplitSpellsAncestors(root, target);
    var segments := Split(relative);
    if |segments| <= 1 {
      return;
    }
    ghost var all := AncestorsBetween(root, target);
    ancestors := RejoinPrefixes(root, segments, target, all);
  }

  /** The loop of `ancestorCollectionPaths`, which passes over blank segments. */
  method RejoinPrefixes(root: string, segments: seq<string>, ghost target: string, ghost all: seq<string>)
    returns (ancestors: seq<string>)
    requires SpellsAncestors(root, segments, target, all)
    ensures ancestors == all
  {
    ancestors := [];
    var current := root;
    for i := 0 to |segments| - 1
      invariant current == JoinAll(root, segments[..i])
      invariant ancestors == all[..i]
    {
      var segment := segments[i];
      if TrimSpace(segment) == "" {
        continue;
      }
      assert segments[..i + 1] == segments[..i] + [segment];
      JoinAllAppend(root, segments[..i], segment);
      current := Join(current, segment);
      ancestors := ancestors + [current];
    }
  }

  /** `parentRuntimeNodePath`. */
  function ParentRuntimeNodePath(root: Path, entry: Path): Path {
    if entry == root then root else Parent(entry)
  }
}
