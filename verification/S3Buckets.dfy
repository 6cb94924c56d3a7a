/** Which S3 bucket serves a data object: the walk up to the nearest collection that has one. */
module S3Buckets {
  import opened Text
  import opened Lists
  import opened Order
  import opened Paths
  import opened Avus
  import opened Catalogues

  const BUCKET_ATTRIBUTE := "iRODS:S3:Bucket"

  predicate IsBucketAvu(a: Avu) {
    a.name.Other? && EqualFold(a.name.name, BUCKET_ATTRIBUTE)
  }

  predicate IsLowerOrDigit(c: char) { 'a' <= c <= 'z' || '0' <= c <= '9' }

  /** `s3BucketNamePattern`. */
  predicate MatchesPattern(s: string) {
    && 3 <= |s| <= 63
    && IsLowerOrDigit(s[0]) && IsLowerOrDigit(s[|s| - 1])
    && forall i :: 0 <= i < |s| ==> IsLowerOrDigit(s[i]) || s[i] == '.' || s[i] == '-'
  }

  predicate Contains(s: string, a: char, b: char) {
    exists i :: 0 <= i < |s| - 1 && s[i] == a && s[i + 1] == b
  }

  /** `isValidS3BucketName`; `isIP` is what `net.ParseIP` accepts. */
  predicate IsValidName(s: string, isIP: string -> bool) {
    MatchesPattern(s) && !Contains(s, '.', '.') && !Contains(s, '.', '-') && !Contains(s, '-', '.') && !isIP(s)
  }

  /** The bucket that a triple names: in lower case if that makes it a valid name, as it stands if not. */
  function BucketName(value: string, isIP: string -> bool): string {
    var normalized := TrimSpace(ToLower(TrimSpace(value)));
    if IsValidName(normalized, isIP) then normalized else TrimSpace(value)
  }

  /** A valid name is named by every spelling of it, in whatever case and with white space around it. */
  lemma SpellingNames(value: string, name: string, isIP: string -> bool)
    requires IsValidName(name, isIP) && ToLower(TrimSpace(value)) == name
    ensures BucketName(value, isIP) == name
  {
    assert !IsSpace(name[0]) && !IsSpace(name[|name| - 1]);
    TrimSpaceFixed(name);
  }

  /** Anything else stays as it is, but for the white space. */
  lemma OtherNameStays(value: string, isIP: string -> bool)
    requires !IsValidName(TrimSpace(ToLower(TrimSpace(value))), isIP)
    ensures BucketName(value, isIP) == TrimSpace(value)
  {
  }

  /** Names that are valid, and names that are not: too short, a bad end, a bad letter, adjacent dots. */
  lemma ExampleNames(isIP: string -> bool)
    requires !isIP("a-b.c1")
    ensures IsValidName("a-b.c1", isIP)
    ensures !IsValidName("ab", isIP) && !IsValidName("-ab", isIP) && !IsValidName("ab-", isIP)
    ensures !IsValidName("aBc", isIP) && !IsValidName("a_b", isIP)
    ensures !IsValidName("a..b", isIP) && !IsValidName("a.-b", isIP) && !IsValidName("a-.b", isIP)
    ensures isIP("1.2.3.4") ==> !IsValidName("1.2.3.4", isIP)
  {
    assert "ab-"[2] == '-' && "aBc"[1] == 'B' && "a_b"[1] == '_';
    assert "a..b"[1] == '.' && "a..b"[2] == '.';
    assert "a.-b"[1] == '.' && "a.-b"[2] == '-';
    assert "a-.b"[1] == '-' && "a-.b"[2] == '.';
  }

  /** The attribute is told by its name in any case, in any unit. */
  lemma ExampleAttribute(units: string, value: string)
    ensures IsBucketAvu(Avu(Other("irods:s3:BUCKET"), value, units))
    ensures !IsBucketAvu(Avu(Other("irods:s3:buckets"), value, units))
  {
  }

  ghost function Image<A, B>(test: A -> bool, f: A -> B, s: seq<A>): set<B> {
    set i | 0 <= i < |s| && test(s[i]) :: f(s[i])
  }

  lemma ImageWithin<A, B>(test: A -> bool, f: A -> B, a: seq<A>, b: seq<A>)
    requires forall x :: x in a ==> x in b
    ensures Image(test, f, a) <= Image(test, f, b)
  {
    forall y | y in Image(test, f, a) ensures y in Image(test, f, b) {
      var i :| 0 <= i < |a| && test(a[i]) && f(a[i]) == y;
      assert a[i] in b;
      var j :| 0 <= j < |b| && b[j] == a[i];
    }
  }

  lemma ImageStep<A, B>(test: A -> bool, f: A -> B, s: seq<A>, i: nat)
    requires i < |s|
    ensures Image(test, f, s[..i + 1]) == Image(test, f, s[..i]) + if test(s[i]) then {f(s[i])} else {}
  {
    var before, after := s[..i], s[..i + 1];
    ImageWithin(test, f, before, after);
    assert after[i] == s[i];
    forall y | y in Image(test, f, after) ensures y in Image(test, f, before) || (test(s[i]) && y == f(s[i])) {
      var k :| 0 <= k < |after| && test(after[k]) && f(after[k]) == y;
      if k < i {
        assert before[k] == after[k];
      }
    }
  }

  function NameOf(isIP: string -> bool): Avu -> string {
    (a: Avu) => BucketName(a.value, isIP)
  }

  function NamesOne(isIP: string -> bool): Avu -> bool {
    (a: Avu) => IsBucketAvu(a) && BucketName(a.value, isIP) != ""
  }

  /** The buckets that a listing names. */
  ghost function BucketSet(metas: seq<Avu>, isIP: string -> bool): set<string> {
    Image(NamesOne(isIP), NameOf(isIP), metas)
  }

  /** The order of the triples and their repetitions do not matter. */
  lemma BucketsBySet(a: seq<Avu>, b: seq<Avu>, isIP: string -> bool)
    requires forall x :: x in a <==> x in b
    ensures BucketSet(a, isIP) == BucketSet(b, isIP)
  {
    ImageWithin(NamesOne(isIP), NameOf(isIP), a, b);
    ImageWithin(NamesOne(isIP), NameOf(isIP), b, a);
  }

  /** The loop that collects names. */
  method CollectBuckets(metas: seq<Avu>, isIP: string -> bool) returns (buckets: seq<string>)
    ensures Elems(buckets) == BucketSet(metas, isIP)
  {
    buckets := [];
    for i := 0 to |metas|
      invariant Elems(buckets) == BucketSet(metas[..i], isIP)
    {
      ImageStep(NamesOne(isIP), NameOf(isIP), metas, i);
      var avu := metas[i];
      if !IsBucketAvu(avu) {
        continue;
      }
      var bucketName := BucketName(avu.value, isIP);
      if bucketName == "" {
        continue;
      }
      ElemsPush(buckets, bucketName);
      buckets := buckets + [bucketName];
    }
    assert metas[..|metas|] == metas;
  }

  /** The deduplication of a sorted list, which compares each name with the last one kept. */
  method Deduplicate(buckets: seq<string>) returns (deduped: seq<string>)
    requires forall i, j :: 0 <= i < j < |buckets| ==> !Less(buckets[j], buckets[i])
    ensures StrictlySorted(deduped) && Elems(deduped) == Elems(buckets)
  {
    deduped := [];
    for i := 0 to |buckets|
      invariant StrictlySorted(deduped)
      invariant Elems(deduped) == Elems(buckets[..i])
      invariant deduped != [] ==> i > 0 && deduped[|deduped| - 1] == buckets[i - 1]
      invariant deduped == [] ==> i == 0
    {
      var bucket := buckets[i];
      assert buckets[..i + 1] == buckets[..i] + [bucket];
      ElemsPush(buckets[..i], bucket);
      ElemsPush(deduped, bucket);
      if deduped == [] || deduped[|deduped| - 1] != bucket {
        Extends(deduped, bucket);
        deduped := deduped + [bucket];
      }
    }
    assert buckets[..|buckets|] == buckets;
  }

  lemma Extends(s: seq<string>, x: string)
    requires StrictlySorted(s) && (s != [] ==> s[|s| - 1] != x && !Less(x, s[|s| - 1]))
    ensures StrictlySorted(s + [x])
  {
    forall i | 0 <= i < |s| ensures Less(s[i], x) {
      var last := s[|s| - 1];
      LessTotal(last, x);
      if i < |s| - 1 {
        LessTransitive(s[i], last, x);
      }
    }
  }

  /** What the catalogue answers, as sets of names. */
  ghost function BucketAnswers(list: Path -> Answer<seq<Avu>>, isIP: string -> bool): Path -> Answer<set<string>> {
    (p: Path) => if list(p).Got? then Got(BucketSet(list(p).value, isIP)) else Failed
  }

  datatype Buckets = Named(names: seq<string>) | ListingFailed

  /** `bucketsForPath`: every name once, in order. */
  method BucketsForPath(list: Path -> Answer<seq<Avu>>, isIP: string -> bool, p: Path) returns (r: Buckets)
    ensures r.ListingFailed? <==> !BucketAnswers(list, isIP)(p).Got?
    ensures r.Named? ==> StrictlySorted(r.names) && BucketAnswers(list, isIP)(p) == Got(Elems(r.names))
  {
    var listing := list(p);
    if !listing.Got? {
      return ListingFailed;
    }
    var buckets := CollectBuckets(listing.value, isIP);
    var deduped := SortAndDeduplicate(buckets);
    r := Named(deduped);
  }

  method SortAndDeduplicate(buckets: seq<string>) returns (deduped: seq<string>)
    ensures StrictlySorted(deduped) && Elems(deduped) == Elems(buckets)
  {
    var id := (s: string) => s;
    var sorted := SortBy(buckets, id);
    SameElems(sorted, buckets);
    forall i, j | 0 <= i < j < |sorted| ensures !Less(sorted[j], sorted[i]) {
      assert !Less(id(sorted[j]), id(sorted[i]));
    }
    deduped := Deduplicate(sorted);
  }

  lemma SameElems(a: seq<string>, b: seq<string>)
    requires multiset(a) == multiset(b)
    ensures Elems(a) == Elems(b)
  {
    forall x ensures x in Elems(a) <==> x in Elems(b) {
      assert x in a <==> x in multiset(a);
      assert x in b <==> x in multiset(b);
    }
  }

  // ---------------------------------------------------------------- the walk

  datatype Resolution =
    | Found(bucket: string, collection: Path, relative: string, candidates: nat)
    | NoBucket
    | WalkFailed(at: Path)

  /** Every ancestor of `p` strictly below `a` has been asked and has no bucket. */
  ghost predicate EmptyBetween(answers: Path -> Answer<set<string>>, a: Path, p: Path) {
    forall d: Path {:trigger Descends(a, d)} :: Descends(a, d) && Descends(d, p) ==> answers(d) == Got({})
  }

  lemma NothingBetween(a: Path, d: Path)
    requires a != "/"
    ensures !(Descends(Parent(a), d) && Descends(d, a))
  {
    if Descends(Parent(a), d) && Descends(d, a) {
      DescendsIsProperPrefix(Parent(a), d);
      if Parent(a) != d {
        DescendsIsProperPrefix(d, Parent(a));
      }
    }
  }

  lemma OneLevelUp(answers: Path -> Answer<set<string>>, a: Path, p: Path)
    requires a != "/" && Descends(a, p) && EmptyBetween(answers, a, p) && answers(a) == Got({})
    ensures Descends(Parent(a), p) && EmptyBetween(answers, Parent(a), p)
  {
    DescendsTransitive(Parent(a), a, p);
    forall d: Path | Descends(Parent(a), d) && Descends(d, p) ensures answers(d) == Got({}) {
      AncestorsComparable(a, d, p);
      NothingBetween(a, d);
    }
  }

  lemma NothingAboveParent(answers: Path -> Answer<set<string>>, p: Path)
    requires p != "/"
    ensures Descends(Parent(p), p) && EmptyBetween(answers, Parent(p), p)
  {
    forall d: Path ensures !(Descends(Parent(p), d) && Descends(d, p)) {
      NothingBetween(p, d);
    }
  }

  lemma CutPrefix(a: string, x: string)
    requires x != "" && x[0] != '/'
    ensures TrimPrefix(TrimPrefix(a + x, a), "/") == x
  {
    assert (a + x)[|a|..] == x;
  }

  /** Cutting a collection's path and a slash off a path below it leaves what rebuilds the path. */
  lemma RelativeRebuilds(a: Path, p: Path)
    requires a != "/" && Descends(a, p)
    ensures var relative := TrimPrefix(TrimPrefix(p, a + "/"), "/"); relative != "" && a + "/" + relative == p
  {
    RelativePathSteps(a, p);
    CutPrefix(a + "/", RelativePath(a, p));
  }

  /** The nearest ancestor with a bucket, its least bucket name, and the object's path below it. */
  ghost predicate IsNearest(answers: Path -> Answer<set<string>>, p: Path, r: Resolution) {
    match r
    case Found(bucket, collection, relative, candidates) =>
      && collection != "/" && Descends(collection, p) && EmptyBetween(answers, collection, p)
      && answers(collection).Got? && bucket in answers(collection).value
      && (forall b :: b in answers(collection).value ==> b == bucket || Less(bucket, b))
      && candidates == |answers(collection).value|
      && collection + "/" + relative == p
    case NoBucket => p == "/" || EmptyBetween(answers, "/", p)
    case WalkFailed(at) => at != "/" && Descends(at, p) && EmptyBetween(answers, at, p) && !answers(at).Got?
  }

  /** `resolveS3BucketForDataObjectPath`. */
  method ResolveBucket(list: Path -> Answer<seq<Avu>>, isIP: string -> bool, p: Path) returns (r: Resolution)
    ensures IsNearest(BucketAnswers(list, isIP), p, r)
  {
    if p == "/" {
      return NoBucket;
    }
    r := Walk(list, isIP, p, BucketAnswers(list, isIP));
  }

  /** What the walk makes of the buckets of one collection. */
  function AtCollection(names: seq<string>, current: Path, p: Path): Resolution
    requires names != []
  {
    var relative := TrimPrefix(TrimPrefix(p, current + "/"), "/");
    if relative == "" then NoBucket else Found(names[0], current, relative, |names|)
  }

  lemma NearestFound(answers: Path -> Answer<set<string>>, current: Path, p: Path, names: seq<string>)
    requires current != "/" && Descends(current, p) && EmptyBetween(answers, current, p)
    requires names != [] && StrictlySorted(names) && answers(current) == Got(Elems(names))
    ensures IsNearest(answers, p, AtCollection(names, current, p))
  {
    RelativeRebuilds(current, p);
    LeastFirst(names);
  }

  lemma NoNames(names: seq<string>)
    requires names == []
    ensures Elems(names) == {}
  {
  }

  /** Its loop. */
  method Walk(list: Path -> Answer<seq<Avu>>, isIP: string -> bool, p: Path, ghost answers: Path -> Answer<set<string>>)
    returns (r: Resolution)
    requires p != "/" && answers == BucketAnswers(list, isIP)
    ensures IsNearest(answers, p, r)
  {
    var current := Parent(p);
    NothingAboveParent(answers, p);
    while current != "/"
      invariant Descends(current, p) && EmptyBetween(answers, current, p)
      decreases |current|
    {
      var buckets := BucketsForPath(list, isIP, current);
      if buckets.ListingFailed? {
        return WalkFailed(current);
      }
      if buckets.names != [] {
        NearestFound(answers, current, p, buckets.names);
        return AtCollection(buckets.names, current, p);
      }
      NoNames(buckets.names);
      OneLevelUp(answers, current, p);
      var parent := Parent(current);
      if parent == current {
        break;
      }
      current := parent;
    }
    r := NoBucket;
  }

  lemma LeastFirst(names: seq<string>)
    requires StrictlySorted(names) && names != []
    ensures names[0] in Elems(names) && |Elems(names)| == |names|
    ensures forall b :: b in Elems(names) ==> b == names[0] || Less(names[0], b)
  {
    StrictlySortedIsDistinct(names);
    DistinctSize(names);
  }
}
