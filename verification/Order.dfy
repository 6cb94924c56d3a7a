/** Go's string order and the sorting done by `sort.Strings` and `sort.Slice`. */
module Order {
  import opened Lists

  /** `a < b` on strings: code point by code point, a proper prefix first. */
  predicate Less(a: string, b: string) {
    b != "" && (a == "" || a[0] < b[0] || (a[0] == b[0] && Less(a[1..], b[1..])))
  }

  lemma {:induction false} LessIrreflexive(a: string)
    ensures !Less(a, a)
  {
    if a != "" {
      LessIrreflexive(a[1..]);
    }
  }

  lemma {:induction false} LessTransitive(a: string, b: string, c: string)
    requires Less(a, b) && Less(b, c)
    ensures Less(a, c)
  {
    if a != "" && a[0] == b[0] && b[0] == c[0] {
      LessTransitive(a[1..], b[1..], c[1..]);
    }
  }

  lemma LessAsymmetric(a: string, b: string)
    requires Less(a, b)
    ensures a != b && !Less(b, a)
  {
    LessIrreflexive(a);
    if Less(b, a) {
      LessTransitive(a, b, a);
    }
  }

  lemma {:induction false} LessTotal(a: string, b: string)
    ensures a == b || Less(a, b) || Less(b, a)
  {
    if a != "" && b != "" && a[0] == b[0] {
      LessTotal(a[1..], b[1..]);
      if a[1..] == b[1..] {
        assert a == [a[0]] + a[1..] == b;
      }
    }
  }

  /** A string sorts before every longer string that it begins. */
  lemma {:induction false} PrefixLess(a: string, b: string)
    requires a < b
    ensures Less(a, b)
  {
    if a != "" {
      assert a[0] == b[0];
      assert a[1..] <= b[1..];
      PrefixLess(a[1..], b[1..]);
    }
  }

  /** Where two strings first differ, the smaller character decides. */
  lemma {:induction false} LessAtDifference(a: string, b: string, k: nat)
    requires k < |a| && k < |b| && a[..k] == b[..k] && a[k] != b[k]
    ensures Less(a, b) <==> a[k] < b[k]
  {
    if k > 0 {
      assert a[0] == a[..k][0] == b[..k][0] == b[0];
      assert a[1..][..k - 1] == a[..k][1..] == b[..k][1..] == b[1..][..k - 1];
      LessAtDifference(a[1..], b[1..], k - 1);
    }
  }

  ghost predicate StrictlySorted(s: seq<string>) {
    forall i, j :: 0 <= i < j < |s| ==> Less(s[i], s[j])
  }

  lemma LowerElementsBefore(s: seq<string>, i: nat, a: string)
    requires StrictlySorted(s) && i < |s| && a in s && Less(a, s[i])
    ensures a in s[..i]
  {
    forall k | i <= k < |s| ensures s[k] != a {
      assert k == i || Less(s[i], s[k]);
      LessAsymmetric(a, s[i]);
    }
    var k :| 0 <= k < |s| && s[k] == a;
    assert s[..i][k] == a;
  }

  lemma StrictlySortedIsDistinct(s: seq<string>)
    requires StrictlySorted(s)
    ensures Distinct(s)
  {
    forall i, j | 0 <= i < j < |s| ensures s[i] != s[j] {
      LessAsymmetric(s[i], s[j]);
    }
  }

  /** The head of a strictly sorted sequence is below every other element of an equal set. */
  lemma SortedHeadsAgree(a: seq<string>, b: seq<string>)
    requires StrictlySorted(a) && StrictlySorted(b) && Elems(a) == Elems(b)
    requires a != [] && b != []
    ensures a[0] == b[0]
  {
    assert a[0] in Elems(b) && b[0] in Elems(a);
    var j :| 0 <= j < |b| && b[j] == a[0];
    var i :| 0 <= i < |a| && a[i] == b[0];
    if j > 0 && i > 0 {
      assert Less(b[0], b[j]) && Less(a[0], a[i]);
      LessAsymmetric(b[0], b[j]);
    }
  }

  /** A set has only one strictly sorted listing. */
  lemma {:induction false} SortedUnique(a: seq<string>, b: seq<string>)
    requires StrictlySorted(a) && StrictlySorted(b) && Elems(a) == Elems(b)
    ensures a == b
  {
    ElemsEmpty(a);
    ElemsEmpty(b);
    if a != [] {
      SortedHeadsAgree(a, b);
      StrictlySortedIsDistinct(a);
      StrictlySortedIsDistinct(b);
      TailElems(a);
      TailElems(b);
      SortedUnique(a[1..], b[1..]);
      assert a == [a[0]] + a[1..] && b == [b[0]] + b[1..];
    }
  }

  /** A strictly sorted listing of a finite set of strings. */
  ghost function SortSet(s: set<string>): (r: seq<string>)
    ensures StrictlySorted(r) && Elems(r) == s
  {
    if s == {} then [] else
      var x :| x in s;
      var rest := SortSet(s - {x});
      assert x !in rest by { assert x !in Elems(rest); }
      InsertSorted(x, rest);
      assert Elems(Insert(x, rest)) == s by {
        InsertElems(x, rest);
      }
      Insert(x, rest)
  }

  function Insert(x: string, s: seq<string>): (r: seq<string>) {
    if s == [] || Less(x, s[0]) then [x] + s else [s[0]] + Insert(x, s[1..])
  }

  lemma {:induction false} InsertElems(x: string, s: seq<string>)
    ensures Elems(Insert(x, s)) == Elems(s) + {x}
  {
    if s == [] || Less(x, s[0]) {
    } else {
      InsertElems(x, s[1..]);
      assert Elems(s) == Elems(s[1..]) + {s[0]} by { assert s == [s[0]] + s[1..]; }
      assert Elems([s[0]] + Insert(x, s[1..])) == {s[0]} + Elems(Insert(x, s[1..]));
    }
  }

  lemma {:induction false} InsertSorted(x: string, s: seq<string>)
    requires StrictlySorted(s) && x !in s
    ensures StrictlySorted(Insert(x, s))
  {
    var r := Insert(x, s);
    if s == [] {
    } else if Less(x, s[0]) {
      forall j | 0 < j < |r| ensures Less(r[0], r[j]) {
        if j > 1 { LessTransitive(x, s[0], s[j - 1]); }
      }
    } else {
      LessTotal(x, s[0]);
      InsertSorted(x, s[1..]);
      InsertElems(x, s[1..]);
      forall j | 0 < j < |r| ensures Less(r[0], r[j]) {
        assert r[j] in Insert(x, s[1..]);
        assert r[j] in Elems(s[1..]) + {x};
      }
    }
  }

  ghost predicate SortedBy<T>(s: seq<T>, key: T -> string) {
    forall i, j :: 0 <= i < j < |s| ==> !Less(key(s[j]), key(s[i]))
  }

  /** Where `sort.Slice` and `sort.Strings` put one more element into a sorted prefix. */
  method InsertBy<T>(x: T, s: seq<T>, key: T -> string) returns (r: seq<T>)
    requires SortedBy(s, key)
    ensures SortedBy(r, key)
    ensures multiset(r) == multiset(s) + multiset{x}
  {
    var i := 0;
    while i < |s| && !Less(key(x), key(s[i]))
      invariant 0 <= i <= |s|
      invariant forall k :: 0 <= k < i ==> !Less(key(x), key(s[k]))
    {
      i := i + 1;
    }
    r := s[..i] + [x] + s[i..];
    SortedInsertAt(x, s, key, i);
    assert s == s[..i] + s[i..];
  }

  lemma SortedInsertAt<T>(x: T, s: seq<T>, key: T -> string, i: nat)
    requires SortedBy(s, key) && i <= |s|
    requires forall k :: 0 <= k < i ==> !Less(key(x), key(s[k]))
    requires i < |s| ==> Less(key(x), key(s[i]))
    ensures SortedBy(s[..i] + [x] + s[i..], key)
  {
    var r := s[..i] + [x] + s[i..];
    forall a, b | 0 <= a < b < |r| ensures !Less(key(r[b]), key(r[a])) {
      if a == i {
        BelowRest(key(x), s, key, i, b - 1);
      }
    }
  }

  lemma BelowRest<T>(x: string, s: seq<T>, key: T -> string, i: nat, j: nat)
    requires SortedBy(s, key) && i <= j < |s| && Less(x, key(s[i]))
    ensures !Less(key(s[j]), x)
  {
    if Less(key(s[j]), x) {
      LessTransitive(key(s[j]), x, key(s[i]));
      LessIrreflexive(key(s[i]));
    }
  }

  /** The sort used for path strings, tree children and listed objects. */
  method SortBy<T>(s: seq<T>, key: T -> string) returns (r: seq<T>)
    ensures SortedBy(r, key)
    ensures multiset(r) == multiset(s)
  {
    r := [];
    for i := 0 to |s|
      invariant SortedBy(r, key)
      invariant multiset(r) == multiset(s[..i])
    {
      assert s[..i + 1] == s[..i] + [s[i]];
      r := InsertBy(s[i], r, key);
    }
    assert s[..|s|] == s;
  }

  lemma NeverDescendingIsSortSet(s: seq<string>)
    requires Distinct(s) && forall i, j :: 0 <= i < j < |s| ==> !Less(s[j], s[i])
    ensures s == SortSet(Elems(s))
  {
    forall i, j | 0 <= i < j < |s| ensures Less(s[i], s[j]) {
      LessTotal(s[i], s[j]);
    }
    SortedUnique(s, SortSet(Elems(s)));
  }

  /** Sorting elements with distinct keys lists the keys as the set has them sorted. */
  lemma SortedKeysAreSortSet<T>(s: seq<T>, key: T -> string)
    requires SortedBy(s, key) && Distinct(Keys(s, key))
    ensures Keys(s, key) == SortSet(Elems(Keys(s, key)))
  {
    var k := Keys(s, key);
    forall i, j | 0 <= i < j < |k| ensures !Less(k[j], k[i]) {
      assert !Less(key(s[j]), key(s[i]));
    }
    NeverDescendingIsSortSet(k);
  }

  /** Ranging over a map's keys visits each once, in no particular order. */
  method KeyList(keys: set<string>) returns (r: seq<string>)
    ensures Elems(r) == keys && Distinct(r)
  {
    r := [];
    var rest := keys;
    while rest != {}
      invariant Distinct(r) && Elems(r) + rest == keys && Elems(r) !! rest
      decreases rest
    {
      var x :| x in rest;
      assert x !in Elems(r);
      assert Elems(r + [x]) == Elems(r) + {x};
      r := r + [x];
      rest := rest - {x};
    }
  }

  /** Collect a map's keys and `sort.Strings` them. */
  method SortedKeyList(keys: set<string>) returns (r: seq<string>)
    ensures r == SortSet(keys)
  {
    var listed := KeyList(keys);
    r := SortBy(listed, (s: string) => s);
    SortedListing(listed, r, (s: string) => s);
  }

  lemma SortedListing(listed: seq<string>, r: seq<string>, id: string -> string)
    requires Distinct(listed) && multiset(r) == multiset(listed)
    requires SortedBy(r, id) && forall s :: id(s) == s
    ensures r == SortSet(Elems(listed))
  {
    DistinctByMultiset(listed, r);
    assert Keys(r, id) == r;
    SortedKeysAreSortSet(r, id);
    assert forall x :: x in r <==> x in multiset(r);
    assert forall x :: x in listed <==> x in multiset(listed);
    assert Elems(r) == Elems(listed);
  }
}
