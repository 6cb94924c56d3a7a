/** Sequences read as sets, filtered, and keyed. */
module Lists {

  ghost predicate Distinct<T>(s: seq<T>) {
    forall i, j :: 0 <= i < j < |s| ==> s[i] != s[j]
  }

  function Elems<T>(s: seq<T>): set<T> {
    set x | x in s
  }

  lemma Regroup<T>(a: seq<T>, b: seq<T>, c: seq<T>)
    ensures a + b + c == a + (b + c)
  {
  }

  lemma ElemsEmpty<T>(s: seq<T>)
    ensures Elems(s) == {} <==> s == []
  {
    if s != [] { assert s[0] in Elems(s); }
  }

  lemma ElemsPush<T>(s: seq<T>, x: T)
    ensures Elems(s + [x]) == Elems(s) + {x}
  {
  }

  lemma TailElems<T>(a: seq<T>)
    requires a != [] && Distinct(a)
    ensures Elems(a[1..]) == Elems(a) - {a[0]}
  {
    forall x ensures x in Elems(a[1..]) <==> x in Elems(a) - {a[0]} {
      if x in Elems(a) - {a[0]} {
        var i :| 0 <= i < |a| && a[i] == x;
        assert a[1..][i - 1] == x;
      }
    }
  }

  lemma {:induction false} DistinctSize<T>(s: seq<T>)
    requires Distinct(s)
    ensures |Elems(s)| == |s|
  {
    if s != [] {
      DistinctSize(s[1..]);
      TailElems(s);
      assert s[0] in Elems(s);
    }
  }

  /** A sequence without repetitions, all of whose elements are one, is that one. */
  lemma OnlyOne<T>(s: seq<T>, x: T)
    requires Distinct(s) && x in s && forall y :: y in s ==> y == x
    ensures s == [x]
  {
    DistinctSize(s);
    assert Elems(s) == {x};
  }

  function Keys<T>(s: seq<T>, key: T -> string): (r: seq<string>)
    ensures |r| == |s| && forall i :: 0 <= i < |s| ==> r[i] == key(s[i])
  {
    seq(|s|, i requires 0 <= i < |s| => key(s[i]))
  }

  function Filter<T>(keep: T -> bool, s: seq<T>): (r: seq<T>)
    ensures |r| <= |s|
  {
    if s == [] then []
    else if keep(s[0]) then [s[0]] + Filter(keep, s[1..])
    else Filter(keep, s[1..])
  }

  lemma {:induction false} FilterMembers<T>(keep: T -> bool, s: seq<T>, x: T)
    ensures x in Filter(keep, s) <==> x in s && keep(x)
  {
    if s != [] {
      FilterMembers(keep, s[1..], x);
      assert x in s <==> x == s[0] || x in s[1..];
    }
  }

  lemma FilterCons<T>(keep: T -> bool, x: T, s: seq<T>)
    ensures Filter(keep, [x] + s) == (if keep(x) then [x] else []) + Filter(keep, s)
  {
    assert ([x] + s)[1..] == s;
  }

  lemma FilterLast<T>(keep: T -> bool, x: T, rest: seq<T>)
    ensures var f, g := Filter(keep, rest), Filter(keep, [x] + rest);
      && (f != [] ==> g != [] && g[|g| - 1] == f[|f| - 1])
      && (f == [] ==> g == if keep(x) then [x] else [])
  {
    var f, own := Filter(keep, rest), if keep(x) then [x] else [];
    FilterCons(keep, x, rest);
    assert f != [] ==> (own + f)[|own + f| - 1] == f[|f| - 1];
  }

  /** What `f` makes of the last element kept, if one is. */
  function LastBy<T, R>(keep: T -> bool, f: T -> R, s: seq<T>, otherwise: R): R {
    var kept := Filter(keep, s);
    if kept == [] then otherwise else f(kept[|kept| - 1])
  }

  lemma LastByStep<T, R>(keep: T -> bool, f: T -> R, x: T, rest: seq<T>, otherwise: R)
    ensures LastBy(keep, f, [x] + rest, otherwise) == LastBy(keep, f, rest, if keep(x) then f(x) else otherwise)
  {
    FilterLast(keep, x, rest);
  }

  lemma LastByOnly<T, R>(keep: T -> bool, f: T -> R, s: seq<T>, otherwise: R)
    requires |Filter(keep, s)| <= 1
    ensures LastBy(keep, f, s, otherwise) == if Filter(keep, s) == [] then otherwise else f(Filter(keep, s)[0])
  {
  }

  lemma {:induction false} FilterAppend<T>(keep: T -> bool, a: seq<T>, b: seq<T>)
    ensures Filter(keep, a + b) == Filter(keep, a) + Filter(keep, b)
  {
    if a == [] {
      assert a + b == b;
    } else {
      var x, rest := a[0], a[1..];
      FilterAppend(keep, rest, b);
      FilterCons(keep, x, rest + b);
      FilterCons(keep, x, rest);
      assert a + b == [x] + (rest + b) && a == [x] + rest;
    }
  }

  lemma FilterPrefix<T>(keep: T -> bool, s: seq<T>, k: nat)
    requires k <= |s|
    ensures Filter(keep, s[..k]) <= Filter(keep, s)
  {
    var a, b := s[..k], s[k..];
    assert s == a + b;
    FilterAppend(keep, a, b);
    assert Filter(keep, s) == Filter(keep, a) + Filter(keep, b);
  }

  lemma {:induction false} FilterAll<T>(keep: T -> bool, s: seq<T>)
    requires forall i :: 0 <= i < |s| ==> keep(s[i])
    ensures Filter(keep, s) == s
  {
    if s != [] {
      FilterAll(keep, s[1..]);
    }
  }

  lemma {:induction false} FilterNone<T>(keep: T -> bool, s: seq<T>)
    requires forall i :: 0 <= i < |s| ==> !keep(s[i])
    ensures Filter(keep, s) == []
  {
    if s != [] {
      FilterNone(keep, s[1..]);
    }
  }

  lemma {:induction false} FilterTwice<T>(p: T -> bool, q: T -> bool, s: seq<T>)
    requires forall i :: 0 <= i < |s| && p(s[i]) ==> q(s[i])
    ensures Filter(p, Filter(q, s)) == Filter(p, s)
  {
    if s != [] {
      FilterTwice(p, q, s[1..]);
      if q(s[0]) {
        assert Filter(q, s)[1..] == Filter(q, s[1..]);
      }
    }
  }

  lemma {:induction false} FilterDistinct<T>(keep: T -> bool, s: seq<T>)
    requires Distinct(s)
    ensures Distinct(Filter(keep, s))
  {
    if s != [] {
      FilterDistinct(keep, s[1..]);
      assert s[0] !in s[1..];
      FilterMembers(keep, s[1..], s[0]);
    }
  }

  lemma {:induction false} DistinctCounts<K>(s: seq<K>)
    ensures Distinct(s) <==> forall x :: x in s ==> multiset(s)[x] == 1
  {
    if s != [] {
      DistinctCounts(s[1..]);
      assert s == [s[0]] + s[1..];
      if Distinct(s) {
        assert s[0] !in s[1..];
        forall x | x in s ensures multiset(s)[x] == 1 {
          if x != s[0] { assert x in s[1..]; }
        }
      } else {
        DuplicateCounts(s);
      }
    }
  }

  lemma DuplicateCounts<K>(s: seq<K>)
    requires !Distinct(s)
    ensures exists x :: x in s && multiset(s)[x] != 1
  {
    var i, j :| 0 <= i < j < |s| && s[i] == s[j];
    assert s == s[..j] + s[j..];
    assert multiset(s) == multiset(s[..j]) + multiset(s[j..]);
    assert s[..j][i] in multiset(s[..j]) && s[j..][0] in multiset(s[j..]);
    assert multiset(s)[s[i]] >= 2;
  }

  lemma DistinctByMultiset<K>(s: seq<K>, t: seq<K>)
    requires Distinct(s) && multiset(s) == multiset(t)
    ensures Distinct(t)
  {
    DistinctCounts(s);
    DistinctCounts(t);
    forall x | x in t ensures multiset(t)[x] == 1 {
      assert x in multiset(t);
    }
  }

  lemma DistinctAppend<T>(a: seq<T>, b: seq<T>)
    ensures Distinct(a + b) <==> Distinct(a) && Distinct(b) && forall x :: x in a ==> x !in b
  {
    var s := a + b;
    if Distinct(s) {
      forall i, j | 0 <= i < j < |b| ensures b[i] != b[j] {
        assert s[|a| + i] == b[i] && s[|a| + j] == b[j];
      }
      forall i, j | 0 <= i < j < |a| ensures a[i] != a[j] {
        assert s[i] == a[i] && s[j] == a[j];
      }
      forall x, j | x in a && 0 <= j < |b| ensures b[j] != x {
        var i :| 0 <= i < |a| && a[i] == x;
        assert s[i] == x && s[|a| + j] == b[j];
      }
    }
    if Distinct(a) && Distinct(b) && forall x :: x in a ==> x !in b {
      forall i, j | 0 <= i < j < |s| ensures s[i] != s[j] {
        if i < |a| <= j {
          assert a[i] in a && b[j - |a|] in b;
        }
      }
    }
  }

  lemma DistinctPrefix<T>(a: seq<T>, s: seq<T>)
    requires a <= s && Distinct(s)
    ensures Distinct(a) && forall x :: x in a ==> x in s
  {
    assert s == a + s[|a|..];
    DistinctAppend(a, s[|a|..]);
  }

  function RemoveAt<T>(s: seq<T>, j: nat): seq<T>
    requires j < |s|
  {
    s[..j] + s[j + 1..]
  }

  lemma RemoveAtMultiset<T>(s: seq<T>, j: nat)
    requires j < |s|
    ensures multiset(s) == multiset(RemoveAt(s, j)) + multiset{s[j]}
    ensures multiset(RemoveAt(s, j)) == multiset(s) - multiset{s[j]}
  {
    assert s == s[..j] + [s[j]] + s[j + 1..];
  }

  ghost predicate Ascending<T>(lt: (T, T) -> bool, s: seq<T>) {
    forall i, j :: 0 <= i < j < |s| ==> lt(s[i], s[j])
  }

  ghost predicate NotDescending<T>(lt: (T, T) -> bool, s: seq<T>) {
    forall i, j :: 0 <= i < j < |s| ==> !lt(s[j], s[i])
  }

  lemma TailMultiset<T>(s: seq<T>)
    requires s != []
    ensures multiset(s[1..]) == multiset(s) - multiset{s[0]}
  {
    assert s == [s[0]] + s[1..];
  }

  lemma SameHead<T>(lt: (T, T) -> bool, s: seq<T>, r: seq<T>)
    requires Ascending(lt, s) && NotDescending(lt, r) && multiset(r) == multiset(s) && s != []
    ensures r != [] && r[0] == s[0]
  {
    assert s[0] in multiset(r);
    var j :| 0 <= j < |r| && r[j] == s[0];
    assert r[0] in multiset(s);
    var i :| 0 <= i < |s| && s[i] == r[0];
    assert i > 0 ==> lt(s[0], s[i]);
    assert j > 0 ==> !lt(r[j], r[0]);
  }

  /** An ascending sequence is the only non-descending order of its elements. */
  lemma {:induction false} SameAscending<T>(lt: (T, T) -> bool, s: seq<T>, r: seq<T>)
    requires Ascending(lt, s) && NotDescending(lt, r) && multiset(r) == multiset(s)
    ensures r == s
    decreases |s|
  {
    if s == [] {
      assert |multiset(r)| == 0;
    } else {
      SameHead(lt, s, r);
      TailMultiset(s);
      TailMultiset(r);
      SameAscending(lt, s[1..], r[1..]);
      assert s == [s[0]] + s[1..] && r == [r[0]] + r[1..];
    }
  }

  /** What comes after everything in an ascending sequence extends it. */
  lemma AscendingAppend<T>(lt: (T, T) -> bool, s: seq<T>, t: seq<T>)
    requires Ascending(lt, s) && |t| <= 1
    requires t != [] ==> forall i :: 0 <= i < |s| ==> lt(s[i], t[0])
    ensures Ascending(lt, s + t)
  {
  }

  function FlatMap<K, T>(f: K -> seq<T>, ks: seq<K>): seq<T> {
    if ks == [] then [] else FlatMap(f, ks[..|ks| - 1]) + f(ks[|ks| - 1])
  }

  lemma FlatMapStep<K, T>(f: K -> seq<T>, ks: seq<K>, i: nat)
    requires i < |ks|
    ensures FlatMap(f, ks[..i + 1]) == FlatMap(f, ks[..i]) + f(ks[i])
    ensures ks[..|ks|] == ks
  {
    assert ks[..i + 1][..i] == ks[..i];
  }

  lemma {:induction false} FlatMapOneByOne<K, T>(f: K -> seq<T>, ks: seq<K>, ts: seq<T>)
    requires |ts| == |ks| && forall i :: 0 <= i < |ks| ==> f(ks[i]) == [ts[i]]
    ensures FlatMap(f, ks) == ts
  {
    if ks != [] {
      var n := |ks| - 1;
      FlatMapOneByOne(f, ks[..n], ts[..n]);
      assert ts == ts[..n] + [ts[n]];
    }
  }

  lemma {:induction false} FilterRemoveAt<T>(keep: T -> bool, s: seq<T>, j: nat)
    requires j < |s|
    ensures multiset(Filter(keep, s)) ==
            multiset(Filter(keep, RemoveAt(s, j))) + if keep(s[j]) then multiset{s[j]} else multiset{}
  {
    var a, b := s[..j], s[j + 1..];
    assert s == a + ([s[j]] + b);
    FilterAppend(keep, a, [s[j]] + b);
    FilterCons(keep, s[j], b);
    FilterAppend(keep, a, b);
  }

  /** Filtering forgets no more than the order of a rearranged sequence. */
  lemma {:induction false} FilterMultiset<T>(keep: T -> bool, a: seq<T>, b: seq<T>)
    requires multiset(a) == multiset(b)
    ensures multiset(Filter(keep, a)) == multiset(Filter(keep, b))
    decreases |a|
  {
    if a == [] {
      assert |multiset(b)| == 0;
    } else {
      assert a[0] in multiset(b);
      var j :| 0 <= j < |b| && b[j] == a[0];
      RemoveAtMultiset(a, 0);
      RemoveAtMultiset(b, j);
      FilterMultiset(keep, RemoveAt(a, 0), RemoveAt(b, j));
      FilterRemoveAt(keep, a, 0);
      FilterRemoveAt(keep, b, j);
    }
  }

  ghost predicate Precedes<T(!new)>(s: seq<T>, x: T, y: T) {
    exists a, b :: 0 <= a < b < |s| && s[a] == x && s[b] == y
  }

  /** Filtering keeps the order. */
  lemma {:induction false} FilterOrder<T(!new)>(keep: T -> bool, s: seq<T>, i: nat, j: nat)
    requires i < j < |Filter(keep, s)|
    ensures Precedes(s, Filter(keep, s)[i], Filter(keep, s)[j])
  {
    var f, rest := Filter(keep, s), s[1..];
    var g := Filter(keep, rest);
    if !keep(s[0]) {
      FilterOrder(keep, rest, i, j);
      var a, b :| 0 <= a < b < |rest| && rest[a] == g[i] && rest[b] == g[j];
      assert s[a + 1] == f[i] && s[b + 1] == f[j];
    } else if i > 0 {
      FilterOrder(keep, rest, i - 1, j - 1);
      var a, b :| 0 <= a < b < |rest| && rest[a] == g[i - 1] && rest[b] == g[j - 1];
      assert s[a + 1] == f[i] && s[b + 1] == f[j];
    } else {
      assert f[j] == g[j - 1] && g[j - 1] in g;
      FilterMembers(keep, rest, g[j - 1]);
      var b :| 0 <= b < |rest| && rest[b] == g[j - 1];
      assert s[0] == f[0] && s[b + 1] == f[j];
    }
  }

  lemma {:induction false} FlatMapMembers<K, T>(f: K -> seq<T>, ks: seq<K>, t: T)
    ensures t in FlatMap(f, ks) <==> exists k :: k in ks && t in f(k)
  {
    if ks != [] {
      var n := |ks| - 1;
      FlatMapMembers(f, ks[..n], t);
      assert ks == ks[..n] + [ks[n]];
    }
  }

  /** What just one key contributes, and contributes once, is there once if that key is. */
  lemma {:induction false} FlatMapCount<K, T>(f: K -> seq<T>, ks: seq<K>, t: T, owner: K, owned: bool)
    requires Distinct(ks) && forall k :: multiset(f(k))[t] == if k == owner && owned then 1 else 0
    ensures multiset(FlatMap(f, ks))[t] == if owner in ks && owned then 1 else 0
  {
    if ks != [] {
      var n := |ks| - 1;
      FlatMapCount(f, ks[..n], t, owner, owned);
      assert ks == ks[..n] + [ks[n]];
      assert multiset(f(ks[n]))[t] == if ks[n] == owner && owned then 1 else 0;
    }
  }

  function MapSeq<A, B>(f: A -> B, s: seq<A>): (r: seq<B>)
    ensures |r| == |s| && forall i :: 0 <= i < |s| ==> r[i] == f(s[i])
  {
    seq(|s|, i requires 0 <= i < |s| => f(s[i]))
  }

  lemma FilterMapPush<A, B>(keep: B -> bool, f: A -> B, s: seq<A>)
    requires s != []
    ensures var n := |s| - 1;
      Filter(keep, MapSeq(f, s)) == Filter(keep, MapSeq(f, s[..n])) + if keep(f(s[n])) then [f(s[n])] else []
  {
    var n := |s| - 1;
    assert MapSeq(f, s) == MapSeq(f, s[..n]) + [f(s[n])];
    FilterAppend(keep, MapSeq(f, s[..n]), [f(s[n])]);
    assert [f(s[n])][1..] == [];
  }

  lemma MapSeqCons<A, B>(f: A -> B, x: A, s: seq<A>)
    ensures MapSeq(f, [x] + s) == [f(x)] + MapSeq(f, s)
  {
  }

  lemma MapSeqRemoveAt<A, B>(f: A -> B, s: seq<A>, j: nat)
    requires j < |s|
    ensures multiset(MapSeq(f, s)) == multiset(MapSeq(f, RemoveAt(s, j))) + multiset{f(s[j])}
  {
    RemoveAtMultiset(MapSeq(f, s), j);
    assert MapSeq(f, RemoveAt(s, j)) == RemoveAt(MapSeq(f, s), j);
  }

  /** Mapping forgets no more than the order of a rearranged sequence. */
  lemma {:induction false} MapSeqMultiset<A, B>(f: A -> B, a: seq<A>, b: seq<A>)
    requires multiset(a) == multiset(b)
    ensures multiset(MapSeq(f, a)) == multiset(MapSeq(f, b))
    decreases |a|
  {
    if a == [] {
      assert |multiset(b)| == 0;
    } else {
      assert a[0] in multiset(b);
      var j :| 0 <= j < |b| && b[j] == a[0];
      RemoveAtMultiset(a, 0);
      RemoveAtMultiset(b, j);
      MapSeqMultiset(f, RemoveAt(a, 0), RemoveAt(b, j));
      MapSeqRemoveAt(f, a, 0);
      MapSeqRemoveAt(f, b, j);
    }
  }

  lemma {:induction false} MapFilter<A, B>(f: A -> B, keep: A -> bool, keepB: B -> bool, s: seq<A>)
    requires forall i :: 0 <= i < |s| ==> keep(s[i]) == keepB(f(s[i]))
    ensures MapSeq(f, Filter(keep, s)) == Filter(keepB, MapSeq(f, s))
  {
    if s != [] {
      MapFilter(f, keep, keepB, s[1..]);
      assert s == [s[0]] + s[1..];
      MapSeqCons(f, s[0], s[1..]);
      MapSeqCons(f, s[0], Filter(keep, s[1..]));
      FilterCons(keepB, f(s[0]), MapSeq(f, s[1..]));
    }
  }

  lemma {:induction false} FilterBoth<T>(p: T -> bool, q: T -> bool, both: T -> bool, s: seq<T>)
    requires forall x :: x in s ==> both(x) == (p(x) && q(x))
    ensures Filter(p, Filter(q, s)) == Filter(both, s)
  {
    if s != [] {
      FilterBoth(p, q, both, s[1..]);
      if q(s[0]) {
        FilterCons(p, s[0], Filter(q, s[1..]));
      }
    }
  }

  function Both<T>(p: T -> bool, q: T -> bool): T -> bool { x => p(x) && q(x) }

  function ButNot<T>(p: T -> bool, q: T -> bool): T -> bool { x => p(x) && !q(x) }

  /** The elements that pass `p`, those that pass `q` first. */
  function FavouredFirst<T>(p: T -> bool, q: T -> bool, s: seq<T>): seq<T> {
    Filter(Both(p, q), s) + Filter(ButNot(p, q), s)
  }

  lemma FavouredMembers<T>(p: T -> bool, q: T -> bool, s: seq<T>, x: T)
    ensures x in FavouredFirst(p, q, s) <==> x in s && p(x)
  {
    FilterMembers(Both(p, q), s, x);
    FilterMembers(ButNot(p, q), s, x);
  }

  lemma FavouredDistinct<T>(p: T -> bool, q: T -> bool, s: seq<T>)
    requires Distinct(s)
    ensures Distinct(FavouredFirst(p, q, s))
  {
    var a, b := Filter(Both(p, q), s), Filter(ButNot(p, q), s);
    FilterDistinct(Both(p, q), s);
    FilterDistinct(ButNot(p, q), s);
    forall x | x in a ensures x !in b {
      FilterMembers(Both(p, q), s, x);
      FilterMembers(ButNot(p, q), s, x);
    }
    DistinctAppend(a, b);
  }

  lemma FavouredInFront<T>(p: T -> bool, q: T -> bool, s: seq<T>)
    ensures var f := FavouredFirst(p, q, s);
      forall i, j :: 0 <= i < j < |f| && q(f[j]) ==> q(f[i])
  {
    var a, b := Filter(Both(p, q), s), Filter(ButNot(p, q), s);
    forall i | 0 <= i < |a| ensures q(a[i]) {
      assert a[i] in a;
      FilterMembers(Both(p, q), s, a[i]);
    }
    forall i | 0 <= i < |b| ensures !q(b[i]) {
      assert b[i] in b;
      FilterMembers(ButNot(p, q), s, b[i]);
    }
  }

  /** Among those that pass the second test, and among those that do not, the order is kept. */
  lemma FavouredKeepsOrder<T(!new)>(p: T -> bool, q: T -> bool, s: seq<T>, i: nat, j: nat)
    requires i < j < |FavouredFirst(p, q, s)|
    requires q(FavouredFirst(p, q, s)[i]) == q(FavouredFirst(p, q, s)[j])
    ensures Precedes(s, FavouredFirst(p, q, s)[i], FavouredFirst(p, q, s)[j])
  {
    var f, a, b := FavouredFirst(p, q, s), Filter(Both(p, q), s), Filter(ButNot(p, q), s);
    if j < |a| {
      assert f[i] == a[i] && f[j] == a[j];
      FilterOrder(Both(p, q), s, i, j);
    } else if i >= |a| {
      assert f[i] == b[i - |a|] && f[j] == b[j - |a|];
      FilterOrder(ButNot(p, q), s, i - |a|, j - |a|);
    } else {
      assert f[i] == a[i] && f[i] in a && f[j] == b[j - |a|] && f[j] in b;
      FilterMembers(Both(p, q), s, f[i]);
      FilterMembers(ButNot(p, q), s, f[j]);
      assert false;
    }
  }

  lemma MapSeqAppend<A, B>(f: A -> B, a: seq<A>, b: seq<A>)
    ensures MapSeq(f, a + b) == MapSeq(f, a) + MapSeq(f, b)
  {
  }

  function Total<K>(f: K -> nat, ks: seq<K>): nat {
    if ks == [] then 0 else Total(f, ks[..|ks| - 1]) + f(ks[|ks| - 1])
  }

  lemma {:induction false} TotalAppend<K>(f: K -> nat, a: seq<K>, b: seq<K>)
    ensures Total(f, a + b) == Total(f, a) + Total(f, b)
    decreases |b|
  {
    if b == [] {
      assert a + b == a;
    } else {
      var n := |b| - 1;
      assert (a + b)[..|a| + n] == a + b[..n];
      TotalAppend(f, a, b[..n]);
    }
  }

  lemma {:induction false} TotalSame<K>(f: K -> nat, g: K -> nat, ks: seq<K>)
    requires forall x :: x in ks ==> f(x) == g(x)
    ensures Total(f, ks) == Total(g, ks)
  {
    if ks != [] {
      TotalSame(f, g, ks[..|ks| - 1]);
    }
  }

  lemma {:induction false} TotalOnes<K>(f: K -> nat, ks: seq<K>, n: nat)
    requires forall x :: x in ks ==> f(x) == n
    ensures Total(f, ks) == n * |ks|
  {
    if ks != [] {
      TotalOnes(f, ks[..|ks| - 1], n);
    }
  }
}
