/** The https access ids that an atomic object advertises, and what becomes of them when a client
    presents one. URL merging and escaping are left uninterpreted. */
module AccessIds {
  import opened Options
  import opened Text
  import opened Lists

  const GO_REST := "irods-go-rest"
  const HTTPS_API := "irods-https-api"
  const LEGACY_PREFIX := "irods-go-rest-https-affinity-"
  const COMPOUND_ID := "irods-compound-https"

  // ---------------------------------------------------------------- printing and parsing

  /** `EffectiveHTTPSAccessProvider`. */
  function EffectiveProvider(provider: string): string {
    var p := ToLower(TrimSpace(provider));
    if p == "" then GO_REST else p
  }

  predicate IsSupported(provider: string) {
    provider == GO_REST || provider == HTTPS_API
  }

  /** `buildHTTPSDefaultAccessID`. */
  function DefaultId(provider: string): string {
    EffectiveProvider(provider) + "-https"
  }

  /** `buildHTTPSAffinityAccessID`. */
  function AffinityId(provider: string, resource: string): string {
    DefaultId(provider) + "-" + TrimSpace(resource)
  }

  datatype Parsed = Parsed(provider: string, resource: string)

  /** `ParseHTTPSAccessID`. */
  function ParseAccessId(accessID: string): Option<Parsed> {
    var id := TrimSpace(accessID);
    if id == "" || HasPrefix(id, LEGACY_PREFIX) then None
    else ParseFor(id, [GO_REST, HTTPS_API])
  }

  function ParseFor(id: string, providers: seq<string>): Option<Parsed> {
    if providers == [] then None
    else
      var defaultID := DefaultId(providers[0]);
      var prefix := defaultID + "-";
      if id == defaultID then Some(Parsed(providers[0], ""))
      else if !HasPrefix(id, prefix) then ParseFor(id, providers[1..])
      else
        var resource := TrimSpace(TrimPrefix(id, prefix));
        if resource == "" then None else Some(Parsed(providers[0], resource))
  }

  lemma LowerFixed(s: string)
    requires forall i :: 0 <= i < |s| ==> LowerChar(s[i]) == s[i]
    ensures ToLower(s) == s
  {
  }

  lemma NormalName(p: string)
    requires p != "" && Trimmed(p) && forall i :: 0 <= i < |p| ==> LowerChar(p[i]) == p[i]
    ensures EffectiveProvider(p) == p
  {
    TrimSpaceFixed(p);
    LowerFixed(p);
  }

  /** The provider names are their own normal form. */
  lemma SupportedIsNormal(p: string)
    requires IsSupported(p)
    ensures EffectiveProvider(p) == p && p != "" && !IsSpace(p[0])
  {
    NormalName(p);
  }

  /** A resource as the code names it: trimmed and not blank. */
  predicate IsResource(resource: string) {
    resource != "" && Trimmed(resource)
  }

  lemma PrefixOfSum(prefix: string, rest: string)
    ensures HasPrefix(prefix + rest, prefix) && TrimPrefix(prefix + rest, prefix) == rest
  {
    assert (prefix + rest)[|prefix|..] == rest;
  }

  lemma ParseFirst(p: string, rest: seq<string>, resource: string)
    requires EffectiveProvider(p) == p && IsResource(resource)
    ensures ParseFor(p + "-https" + "-" + resource, [p] + rest) == Some(Parsed(p, resource))
  {
    var prefix := p + "-https" + "-";
    PrefixOfSum(prefix, resource);
    TrimSpaceFixed(resource);
    assert |prefix + resource| > |DefaultId(p)|;
  }

  /** The names differ somewhere, so that neither's ids begin like the other's. */
  predicate Apart(p: string, q: string) {
    exists i :: 0 <= i < |p| && i < |q| && p[i] != q[i]
  }

  lemma ParseSecond(p: string, q: string, tail: string)
    requires EffectiveProvider(p) == p && Apart(p, q)
    ensures ParseFor(q + tail, [p, q]) == ParseFor(q + tail, [q])
  {
    var i :| 0 <= i < |p| && i < |q| && p[i] != q[i];
    var id := q + tail;
    assert id[i] == q[i] && DefaultId(p)[i] == p[i] && (DefaultId(p) + "-")[i] == p[i];
    assert [p, q][1..] == [q];
  }

  /** A resource that the go-rest provider cannot spell: its id looks like one of an older form. */
  predicate IsLegacy(provider: string, resource: string) {
    provider == GO_REST && HasPrefix(resource, "affinity-")
  }

  lemma LegacyIff(a: string, b: string, resource: string)
    ensures HasPrefix(a + resource, a + b) <==> HasPrefix(resource, b)
  {
    var id := a + resource;
    if HasPrefix(id, a + b) {
      assert resource == id[|a|..];
      assert resource[..|b|] == id[|a|..|a + b|] == (a + b)[|a|..] == b;
    }
    if HasPrefix(resource, b) {
      assert id[..|a + b|] == a + resource[..|b|];
    }
  }

  lemma ProvidersApart()
    ensures Apart(GO_REST, HTTPS_API)
  {
    assert GO_REST[6] != HTTPS_API[6];
  }

  lemma ApiIsNotLegacy(tail: string)
    ensures !HasPrefix(HTTPS_API + tail, LEGACY_PREFIX)
  {
    assert (HTTPS_API + tail)[6] != LEGACY_PREFIX[6];
  }

  lemma LegacySpelling(p: string)
    requires p == GO_REST
    ensures LEGACY_PREFIX == p + "-https" + "-" + "affinity-"
  {
  }

  lemma ParsePrinted(provider: string, resource: string)
    requires IsSupported(provider) && IsResource(resource)
    ensures ParseFor(provider + "-https" + "-" + resource, [GO_REST, HTTPS_API]) == Some(Parsed(provider, resource))
  {
    SupportedIsNormal(provider);
    if provider == GO_REST {
      ParseFirst(provider, [HTTPS_API], resource);
      assert [provider] + [HTTPS_API] == [GO_REST, HTTPS_API];
    } else {
      var p := GO_REST;
      SupportedIsNormal(p);
      ProvidersApart();
      ParseFirst(provider, [], resource);
      assert [provider] + [] == [provider];
      var tail := "-https" + "-" + resource;
      assert provider + "-https" + "-" + resource == provider + tail;
      ParseSecond(p, provider, tail);
    }
  }

  lemma ParseTrimmed(id: string)
    requires Trimmed(id) && id != ""
    ensures ParseAccessId(id) == if HasPrefix(id, LEGACY_PREFIX) then None else ParseFor(id, [GO_REST, HTTPS_API])
  {
    TrimSpaceFixed(id);
  }

  lemma AffinitySpelled(provider: string, resource: string)
    requires IsSupported(provider) && IsResource(resource)
    ensures AffinityId(provider, resource) == provider + "-https" + "-" + resource
    ensures Trimmed(AffinityId(provider, resource)) && AffinityId(provider, resource) != ""
  {
    SupportedIsNormal(provider);
    TrimSpaceFixed(resource);
    var id := provider + "-https" + "-" + resource;
    assert id[0] == provider[0] && id[|id| - 1] == resource[|resource| - 1];
  }

  lemma LegacyIdIff(provider: string, resource: string)
    requires IsSupported(provider)
    ensures HasPrefix(provider + "-https" + "-" + resource, LEGACY_PREFIX) <==> IsLegacy(provider, resource)
  {
    if provider == GO_REST {
      LegacySpelling(provider);
      LegacyIff(provider + "-https" + "-", "affinity-", resource);
    } else {
      var tail := "-https" + "-" + resource;
      assert provider + "-https" + "-" + resource == provider + tail;
      ApiIsNotLegacy(tail);
    }
  }

  /** An access id parses back to the provider and the resource it was printed from, with one
      exception, which is refused. */
  lemma ParseBackIff(provider: string, resource: string)
    requires IsSupported(provider) && IsResource(resource)
    ensures ParseAccessId(AffinityId(provider, resource)) ==
            if IsLegacy(provider, resource) then None else Some(Parsed(provider, resource))
  {
    AffinitySpelled(provider, resource);
    ParseTrimmed(AffinityId(provider, resource));
    ParsePrinted(provider, resource);
    LegacyIdIff(provider, resource);
  }

  lemma DefaultParsesBack(provider: string)
    requires IsSupported(provider)
    ensures ParseAccessId(DefaultId(provider)) == Some(Parsed(provider, ""))
  {
    SupportedIsNormal(provider);
    var id := provider + "-https";
    TrimSpaceFixed(id);
    if provider == GO_REST {
      LegacySpelling(provider);
      assert |id| < |LEGACY_PREFIX|;
    } else {
      var p := GO_REST;
      SupportedIsNormal(p);
      ProvidersApart();
      ApiIsNotLegacy("-https");
      ParseSecond(p, provider, "-https");
    }
  }

  lemma IdsApart(provider: string, a: string, b: string)
    requires IsResource(a) && IsResource(b) && AffinityId(provider, a) == AffinityId(provider, b)
    ensures a == b
  {
    var p := DefaultId(provider) + "-";
    TrimSpaceFixed(a);
    TrimSpaceFixed(b);
    assert a == (p + a)[|p|..] && b == (p + b)[|p|..];
  }

  // ---------------------------------------------------------------- replicas and hosts

  /** `normalizeStringSlice`; here also the resource names of replicas, in their order. */
  function NonBlank(names: seq<string>): (r: seq<string>)
    ensures forall i :: 0 <= i < |r| ==> IsResource(r[i])
  {
    if names == [] then []
    else
      var init, last := NonBlank(names[..|names| - 1]), TrimSpace(names[|names| - 1]);
      TrimSpaceTrims(names[|names| - 1]);
      if last == "" then init else init + [last]
  }

  /** Each name where it is first seen. */
  function FirstSeen(names: seq<string>): (r: seq<string>)
    ensures Distinct(r)
    ensures forall x :: x in r <==> x in names
  {
    if names == [] then []
    else
      var init, last := FirstSeen(names[..|names| - 1]), names[|names| - 1];
      assert names == names[..|names| - 1] + [last];
      if last in init then init else init + [last]
  }

  /** Each name is kept where it is first seen: it has come up before any that is kept after it. */
  ghost predicate SeenInOrder(names: seq<string>, r: seq<string>) {
    forall i, j :: 0 <= i < j < |r| ==> SeenBefore(names, r[i], r[j])
  }

  ghost predicate SeenBefore(names: seq<string>, x: string, y: string) {
    exists k :: 0 <= k < |names| && names[k] == x && y !in names[..k + 1]
  }

  lemma {:induction false} FirstSeenInOrder(names: seq<string>)
    ensures SeenInOrder(names, FirstSeen(names))
  {
    if names != [] {
      var n := |names| - 1;
      var init, r := FirstSeen(names[..n]), FirstSeen(names);
      FirstSeenInOrder(names[..n]);
      assert names == names[..n] + [names[n]];
      forall i, j | 0 <= i < j < |r| ensures SeenBefore(names, r[i], r[j]) {
        if j < |init| {
          assert SeenBefore(names[..n], init[i], init[j]);
          var k :| 0 <= k < n && names[..n][k] == init[i] && init[j] !in names[..n][..k + 1];
          assert names[..n][..k + 1] == names[..k + 1];
        } else {
          assert r[i] == init[i] && r[i] in names[..n];
          var k :| 0 <= k < n && names[..n][k] == r[i];
          assert r[j] == names[n] && names[..k + 1] == names[..n][..k + 1];
        }
      }
    }
  }

  function Trim(): string -> string { (s: string) => TrimSpace(s) }

  function NotBlank(): string -> bool { (s: string) => s != "" }

  /** Every name that is not blank, trimmed and in its place. */
  lemma {:induction false} NonBlankKeeps(names: seq<string>)
    ensures NonBlank(names) == Filter(NotBlank(), MapSeq(Trim(), names))
  {
    if names != [] {
      NonBlankKeeps(names[..|names| - 1]);
      FilterMapPush(NotBlank(), Trim(), names);
    }
  }

  /** The parts of an atomic object that its access methods depend on. */
  datatype Object = Object(path: string, resourceName: string, replicas: seq<string>, zone: string)

  function NamesOf(o: Object): seq<string> { o.replicas + [o.resourceName] }

  /** `objectReplicaResourceNames`. */
  method ReplicaResourceNames(o: Object) returns (result: seq<string>)
    ensures result == FirstSeen(NonBlank(NamesOf(o)))
  {
    result := [];
    var seen: set<string> := {};
    var names := NamesOf(o);
    for i := 0 to |names|
      invariant result == FirstSeen(NonBlank(names[..i]))
      invariant forall x :: x in seen <==> x in result
    {
      assert names[..i + 1][..i] == names[..i];
      var resourceName := TrimSpace(names[i]);
      ghost var before := NonBlank(names[..i]);
      if resourceName != "" {
        assert (before + [resourceName])[..|before|] == before;
        if resourceName !in seen {
          seen := seen + {resourceName};
          result := result + [resourceName];
        }
      }
    }
    assert names[..|names|] == names;
  }

  /** The resource names of an object: those of its replicas and then its own, trimmed, without blanks,
      each where it is first seen. */
  lemma ResourceNamesAre(o: Object)
    ensures var names := Filter(NotBlank(), MapSeq(Trim(), o.replicas + [o.resourceName]));
      var r := FirstSeen(NonBlank(NamesOf(o)));
      && Distinct(r) && SeenInOrder(names, r) && forall x :: x in r <==> x in names
  {
    FirstSeenInOrder(NonBlank(NamesOf(o)));
    NonBlankKeeps(NamesOf(o));
  }

  datatype Affinity = Affinity(host: string, resources: seq<string>)

  /** `normalizedResourceAffinityForLookup`. */
  function NormalizedAffinities(entries: seq<Affinity>): (r: seq<Affinity>)
    ensures forall i :: 0 <= i < |r| ==> IsResource(r[i].host)
  {
    if entries == [] then []
    else
      var host := TrimSpace(entries[0].host);
      TrimSpaceTrims(entries[0].host);
      var rest := NormalizedAffinities(entries[1..]);
      if host == "" then rest else [Affinity(host, NonBlank(entries[0].resources))] + rest
  }

  /** `containsResourceAffinityMatch`. */
  predicate Names(a: Affinity, resource: string) {
    exists i :: 0 <= i < |a.resources| && TrimSpace(a.resources[i]) == TrimSpace(resource)
                && TrimSpace(a.resources[i]) != "" && TrimSpace(a.resources[i]) != "*"
  }

  /** `isDefaultResourceAffinity`. */
  predicate IsDefault(a: Affinity) {
    a.resources == [] || exists i :: 0 <= i < |a.resources| && TrimSpace(a.resources[i]) == "*"
  }

  /** The index of the first entry that passes a test, or the length. */
  function FirstIndex<T>(test: T -> bool, entries: seq<T>): (i: nat)
    ensures i <= |entries|
  {
    if entries == [] || test(entries[0]) then 0 else 1 + FirstIndex(test, entries[1..])
  }

  lemma {:induction false} FirstIndexIs<T>(test: T -> bool, entries: seq<T>)
    ensures var i := FirstIndex(test, entries);
      (i < |entries| ==> test(entries[i])) && forall j :: 0 <= j < i ==> !test(entries[j])
  {
    if entries != [] && !test(entries[0]) {
      FirstIndexIs(test, entries[1..]);
    }
  }

  function Naming(resource: string): Affinity -> bool { (a: Affinity) => Names(a, resource) }

  function Defaulting(): Affinity -> bool { (a: Affinity) => IsDefault(a) }

  /** `hostForResourceAffinity`: the first entry that names the resource, or else the first default. */
  function HostFor(affinities: seq<Affinity>, resource: string): (string, bool) {
    if TrimSpace(resource) == "" then ("", false)
    else
      var i := FirstIndex(Naming(resource), affinities);
      var j := FirstIndex(Defaulting(), affinities);
      if i < |affinities| then (affinities[i].host, true)
      else if j < |affinities| then (affinities[j].host, false)
      else ("", false)
  }

  /** The host chosen for a resource is that of the least entry that names it; failing that, of the
      least default entry; failing that, none. */
  lemma HostIsLeast(affinities: seq<Affinity>, resource: string, k: nat)
    requires TrimSpace(resource) != "" && k < |affinities|
    ensures Names(affinities[k], resource) && (forall j :: 0 <= j < k ==> !Names(affinities[j], resource)) ==>
              HostFor(affinities, resource) == (affinities[k].host, true)
    ensures IsDefault(affinities[k]) && (forall j :: 0 <= j < k ==> !IsDefault(affinities[j]))
            && (forall j :: 0 <= j < |affinities| ==> !Names(affinities[j], resource)) ==>
              HostFor(affinities, resource) == (affinities[k].host, false)
  {
    FirstIndexIs(Naming(resource), affinities);
    FirstIndexIs(Defaulting(), affinities);
  }

  // ---------------------------------------------------------------- hosts, as configured

  /** A configured entry counts if it has a host. */
  ghost predicate HasHost(a: Affinity) { TrimSpace(a.host) != "" }

  ghost predicate HasResource(a: Affinity, resource: string) {
    exists i :: 0 <= i < |a.resources| && TrimSpace(a.resources[i]) == resource
  }

  /** It names the resource: white space aside, one of its resources is that one, and no wild card. */
  ghost predicate Dedicated(a: Affinity, resource: string) {
    HasHost(a) && IsResource(resource) && resource != "*" && HasResource(a, resource)
  }

  /** It is there for all resources: it lists none, or a wild card. */
  ghost predicate ForAll(a: Affinity) {
    HasHost(a) && (HasResource(a, "*") || forall i :: 0 <= i < |a.resources| ==> TrimSpace(a.resources[i]) == "")
  }

  function Normalized(a: Affinity): Affinity { Affinity(TrimSpace(a.host), NonBlank(a.resources)) }

  lemma TrimAgain(s: string)
    ensures TrimSpace(TrimSpace(s)) == TrimSpace(s)
  {
    TrimSpaceTrims(s);
    TrimSpaceFixed(TrimSpace(s));
  }

  lemma NormalizedHas(a: Affinity, resource: string)
    requires resource != ""
    ensures HasResource(Normalized(a), resource) <==> HasResource(a, resource)
  {
    var names := NonBlank(a.resources);
    NonBlankMembers(a.resources, resource);
    if HasResource(Normalized(a), resource) {
      var i :| 0 <= i < |names| && TrimSpace(names[i]) == resource;
      TrimSpaceFixed(names[i]);
      assert names[i] in names;
    }
    if HasResource(a, resource) {
      var i :| 0 <= i < |names| && names[i] == resource;
      TrimSpaceFixed(names[i]);
      assert TrimSpace(names[i]) == resource;
    }
  }

  lemma NamesIff(a: Affinity, resource: string)
    requires IsResource(resource)
    ensures Names(a, resource) <==> resource != "*" && HasResource(a, resource)
  {
    TrimSpaceFixed(resource);
  }

  lemma IsDefaultIff(a: Affinity)
    ensures IsDefault(Normalized(a)) <==>
              HasResource(a, "*") || forall i :: 0 <= i < |a.resources| ==> TrimSpace(a.resources[i]) == ""
  {
    NormalizedHas(a, "*");
    var names := NonBlank(a.resources);
    if names != [] {
      NonBlankMembers(a.resources, names[0]);
      assert names[0] in names;
    } else {
      forall i | 0 <= i < |a.resources| ensures TrimSpace(a.resources[i]) == "" {
        NonBlankMembers(a.resources, TrimSpace(a.resources[i]));
      }
    }
  }

  ghost predicate Stems(entries: seq<Affinity>, x: Affinity) {
    exists k :: 0 <= k < |entries| && HasHost(entries[k]) && x == Normalized(entries[k])
  }

  lemma StemsFurther(entries: seq<Affinity>, x: Affinity)
    requires entries != [] && Stems(entries[1..], x)
    ensures Stems(entries, x)
  {
    var k :| 0 <= k < |entries[1..]| && HasHost(entries[1..][k]) && x == Normalized(entries[1..][k]);
    assert entries[k + 1] == entries[1..][k];
  }

  lemma {:induction false} NormalizedAre(entries: seq<Affinity>)
    ensures forall x :: x in NormalizedAffinities(entries) ==> Stems(entries, x)
  {
    if entries != [] {
      NormalizedAre(entries[1..]);
      forall x | x in NormalizedAffinities(entries) ensures Stems(entries, x) {
        if x in NormalizedAffinities(entries[1..]) {
          StemsFurther(entries, x);
        } else {
          assert x == Normalized(entries[0]);
        }
      }
    }
  }

  /** The first entry that passes a test is the first normalised one that does. */
  lemma {:induction false} FirstNormalized(entries: seq<Affinity>, k: nat, test: Affinity -> bool) returns (i: nat)
    requires k < |entries| && HasHost(entries[k]) && test(Normalized(entries[k]))
    requires forall j :: 0 <= j < k && HasHost(entries[j]) ==> !test(Normalized(entries[j]))
    ensures var a := NormalizedAffinities(entries);
      i < |a| && a[i] == Normalized(entries[k]) && forall j :: 0 <= j < i ==> !test(a[j])
  {
    if k == 0 {
      i := 0;
    } else {
      assert entries[1..][k - 1] == entries[k];
      forall j | 0 <= j < k - 1 && HasHost(entries[1..][j]) ensures !test(Normalized(entries[1..][j])) {
        assert entries[1..][j] == entries[j + 1];
      }
      i := FirstNormalized(entries[1..], k - 1, test);
      if HasHost(entries[0]) {
        i := i + 1;
      }
    }
  }

  /** The host of a resource, told by the configuration as it was written: that of the first entry that
      names the resource; failing that, of the first that is there for all. */
  lemma HostOfConfig(entries: seq<Affinity>, resource: string, k: nat)
    requires IsResource(resource) && k < |entries|
    ensures Dedicated(entries[k], resource) && (forall j :: 0 <= j < k ==> !Dedicated(entries[j], resource)) ==>
              HostFor(NormalizedAffinities(entries), resource) == (TrimSpace(entries[k].host), true)
    ensures ForAll(entries[k]) && (forall j :: 0 <= j < k ==> !ForAll(entries[j]))
            && (forall j :: 0 <= j < |entries| ==> !Dedicated(entries[j], resource)) ==>
              HostFor(NormalizedAffinities(entries), resource) == (TrimSpace(entries[k].host), false)
  {
    var a := NormalizedAffinities(entries);
    TrimSpaceFixed(resource);
    forall j | 0 <= j < |entries| && HasHost(entries[j])
      ensures Naming(resource)(Normalized(entries[j])) <==> Dedicated(entries[j], resource)
      ensures Defaulting()(Normalized(entries[j])) <==> ForAll(entries[j])
    {
      NamesIff(Normalized(entries[j]), resource);
      NormalizedHas(entries[j], resource);
      IsDefaultIff(entries[j]);
    }
    if Dedicated(entries[k], resource) && forall j :: 0 <= j < k ==> !Dedicated(entries[j], resource) {
      var i := FirstNormalized(entries, k, Naming(resource));
      HostIsLeast(a, resource, i);
    }
    if ForAll(entries[k]) && (forall j :: 0 <= j < k ==> !ForAll(entries[j]))
       && forall j :: 0 <= j < |entries| ==> !Dedicated(entries[j], resource) {
      var i := FirstNormalized(entries, k, Defaulting());
      NormalizedAre(entries);
      forall j | 0 <= j < |a| ensures !Names(a[j], resource) {
        assert Stems(entries, a[j]);
        var l :| 0 <= l < |entries| && HasHost(entries[l]) && a[j] == Normalized(entries[l]);
        assert !Naming(resource)(Normalized(entries[l]));
      }
      HostIsLeast(a, resource, i);
    }
  }

  // ---------------------------------------------------------------- advertising

  datatype Config = Config(
    httpsSupported: bool, baseURL: string, implementation: string, affinities: seq<Affinity>,
    merge: (string, string) -> string, escape: string -> string)

  datatype AccessMethod = AccessMethod(accessID: string, region: string, cloud: string)

  /** `ResolveHTTPSAccessBaseURL`; `merge` does what is done with two URLs. */
  function BaseURL(cfg: Config, host: string): string {
    if TrimSpace(host) == "" then TrimSpace(cfg.baseURL) else cfg.merge(TrimSpace(cfg.baseURL), TrimSpace(host))
  }

  /** The URL prefix that the configuration gives a resource. */
  function BaseFor(cfg: Config, resource: string): string {
    BaseURL(cfg, HostFor(NormalizedAffinities(cfg.affinities), resource).0)
  }

  function Cloud(o: Object): string {
    if TrimSpace(o.zone) == "" then "" else "irods:" + TrimSpace(o.zone)
  }

  function MethodFor(provider: string, o: Object): string -> AccessMethod {
    (resource: string) => AccessMethod(AffinityId(provider, resource), resource, Cloud(o))
  }

  /** The resource has a base URL. */
  function Usable(cfg: Config): string -> bool { (resource: string) => TrimSpace(BaseFor(cfg, resource)) != "" }

  function HasBase(cfg: Config): string -> bool { (resource: string) => BaseFor(cfg, resource) != "" }

  /** The resource has a host of its own. */
  function Matched(cfg: Config): string -> bool {
    (resource: string) => HostFor(NormalizedAffinities(cfg.affinities), resource).1
  }

  /** `primaryReplicaResourceName`. */
  function PrimaryResource(o: Object): string {
    var names := NonBlank(o.replicas);
    if names != [] then names[0] else TrimSpace(o.resourceName)
  }

  /** The loop of `buildProviderHTTPSAccessMethods`, which collects two lists: the resources with a base
      URL, those with a host of their own first, each list in the order of the replicas. */
  method DedicatedFirst<T, R>(resources: seq<T>, usable: T -> bool, matched: T -> bool, methodFor: T -> R)
    returns (methods: seq<R>)
    ensures methods == MapSeq(methodFor, FavouredFirst(usable, matched, resources))
  {
    var dedicated: seq<R> := [];
    var fallback: seq<R> := [];
    for i := 0 to |resources|
      invariant dedicated == MapSeq(methodFor, Filter(Both(usable, matched), resources[..i]))
      invariant fallback == MapSeq(methodFor, Filter(ButNot(usable, matched), resources[..i]))
    {
      var resource := resources[i];
      assert resources[..i + 1] == resources[..i] + [resource];
      FilterAppend(Both(usable, matched), resources[..i], [resource]);
      FilterAppend(ButNot(usable, matched), resources[..i], [resource]);
      if !usable(resource) {
        continue;
      }
      if matched(resource) {
        dedicated := dedicated + [methodFor(resource)];
      } else {
        fallback := fallback + [methodFor(resource)];
      }
    }
    assert resources[..|resources|] == resources;
    methods := dedicated + fallback;
    MapSeqAppend(methodFor, Filter(Both(usable, matched), resources), Filter(ButNot(usable, matched), resources));
  }

  /** Those that pass the test come before those that do not. */
  ghost predicate InFront<T>(matched: T -> bool, shown: seq<T>) {
    forall i, j :: 0 <= i < j < |shown| && matched(shown[j]) ==> matched(shown[i])
  }

  /** Those that pass the test come first, and beyond that the order is that of the resources. */
  ghost predicate Ranked<T(!new)>(resources: seq<T>, matched: T -> bool, shown: seq<T>) {
    && InFront(matched, shown)
    && forall i, j :: 0 <= i < j < |shown| && matched(shown[i]) == matched(shown[j]) ==>
         Precedes(resources, shown[i], shown[j])
  }

  /** The same, with what it shows of the resources. */
  method ShowResources<T(!new), R>(resources: seq<T>, usable: T -> bool, matched: T -> bool, methodFor: T -> R)
    returns (methods: seq<R>, ghost shown: seq<T>)
    requires Distinct(resources)
    ensures methods == MapSeq(methodFor, shown)
    ensures Distinct(shown) && forall x :: x in shown <==> x in resources && usable(x)
    ensures Ranked(resources, matched, shown)
  {
    shown := FavouredFirst(usable, matched, resources);
    methods := DedicatedFirst(resources, usable, matched, methodFor);
    FavouredDistinct(usable, matched, resources);
    FavouredInFront(usable, matched, resources);
    forall x ensures x in shown <==> x in resources && usable(x) {
      FavouredMembers(usable, matched, resources, x);
    }
    forall i, j | 0 <= i < j < |shown| && matched(shown[i]) == matched(shown[j])
      ensures Precedes(resources, shown[i], shown[j])
    {
      FavouredKeepsOrder(usable, matched, resources, i, j);
    }
  }

  ghost predicate IsName(o: Object, resource: string) {
    exists i :: 0 <= i < |NamesOf(o)| && TrimSpace(NamesOf(o)[i]) == resource
  }

  /** The resources advertised: the object's own, each once, that pass the test. */
  ghost predicate Presentable(usable: string -> bool, o: Object, shown: seq<string>) {
    && Distinct(shown)
    && forall x :: x in shown <==> IsResource(x) && IsName(o, x) && usable(x)
  }

  /** In particular, each is a name of which `has` holds. */
  ghost predicate Proper(has: string -> bool, shown: seq<string>) {
    Distinct(shown) && forall i :: 0 <= i < |shown| ==> IsResource(shown[i]) && has(shown[i])
  }

  lemma PresentableIsProper(usable: string -> bool, has: string -> bool, o: Object, shown: seq<string>)
    requires Presentable(usable, o, shown) && forall x :: usable(x) ==> has(x)
    ensures Proper(has, shown)
  {
    forall i | 0 <= i < |shown| ensures IsResource(shown[i]) && has(shown[i]) {
      assert shown[i] in shown;
    }
  }

  lemma TrimmedNonBlank(s: string)
    ensures TrimSpace(s) != "" ==> s != ""
  {
  }

  lemma UsableHasBase(cfg: Config)
    ensures forall x :: Usable(cfg)(x) ==> HasBase(cfg)(x)
  {
    forall x ensures Usable(cfg)(x) ==> HasBase(cfg)(x) {
      TrimmedNonBlank(BaseFor(cfg, x));
    }
  }

  lemma {:induction false} NonBlankMembers(names: seq<string>, x: string)
    ensures x in NonBlank(names) <==> x != "" && exists i :: 0 <= i < |names| && TrimSpace(names[i]) == x
  {
    if names != [] {
      var n := |names| - 1;
      NonBlankMembers(names[..n], x);
      assert names == names[..n] + [names[n]];
      if x in NonBlank(names[..n]) {
        var i :| 0 <= i < n && TrimSpace(names[..n][i]) == x;
        assert names[i] == names[..n][i];
      }
      if x != "" && TrimSpace(names[n]) != x && exists i :: 0 <= i < |names| && TrimSpace(names[i]) == x {
        var i :| 0 <= i < |names| && TrimSpace(names[i]) == x;
        assert names[..n][i] == names[i];
      }
    }
  }

  lemma NamesAre(o: Object, x: string)
    ensures x in FirstSeen(NonBlank(NamesOf(o))) <==> IsResource(x) && IsName(o, x)
  {
    NonBlankMembers(NamesOf(o), x);
    if IsName(o, x) {
      var i :| 0 <= i < |NamesOf(o)| && TrimSpace(NamesOf(o)[i]) == x;
      TrimSpaceTrims(NamesOf(o)[i]);
    }
  }

  function Region(m: AccessMethod): string { m.region }

  function Regions(methods: seq<AccessMethod>): seq<string> { MapSeq(Region, methods) }

  /** One method for each of the object's resources that can be shown, and for no other. */
  method ShowNames(o: Object, resources: seq<string>, usable: string -> bool, matched: string -> bool, provider: string)
    returns (methods: seq<AccessMethod>)
    requires resources == FirstSeen(NonBlank(NamesOf(o)))
    ensures methods == MapSeq(MethodFor(provider, o), Regions(methods))
    ensures Presentable(usable, o, Regions(methods)) && Ranked(resources, matched, Regions(methods))
  {
    forall x ensures x in resources <==> IsResource(x) && IsName(o, x) {
      NamesAre(o, x);
    }
    ghost var shown;
    methods, shown := ShowResources(resources, usable, matched, MethodFor(provider, o));
    assert Regions(methods) == shown;
  }

  /** The https methods of an object under one provider: none without a resource; the one default method
      when no host is configured; otherwise one for each resource with a base URL, those with a host of
      their own first, and beyond that in the order of the replicas. */
  ghost predicate Advertised(cfg: Config, o: Object, provider: string, methods: seq<AccessMethod>) {
    if FirstSeen(NonBlank(NamesOf(o))) == [] then methods == []
    else if NormalizedAffinities(cfg.affinities) == [] then
      methods == if PrimaryResource(o) == "" then []
                 else [AccessMethod(DefaultId(provider), PrimaryResource(o), Cloud(o))]
    else
      && methods == MapSeq(MethodFor(provider, o), Regions(methods))
      && Presentable(Usable(cfg), o, Regions(methods))
      && Ranked(FirstSeen(NonBlank(NamesOf(o))), Matched(cfg), Regions(methods))
  }

  /** `buildProviderHTTPSAccessMethods`. */
  method BuildProviderMethods(cfg: Config, o: Object, provider: string) returns (methods: seq<AccessMethod>)
    ensures Advertised(cfg, o, provider, methods) && Advertises(cfg, o, provider, methods)
  {
    methods := [];
    var resources := ReplicaResourceNames(o);
    if resources == [] {
      return;
    }
    if NormalizedAffinities(cfg.affinities) == [] {
      var region := PrimaryResource(o);
      if region != "" {
        methods := [AccessMethod(DefaultId(provider), region, Cloud(o))];
      }
      return;
    }
    methods := ShowNames(o, resources, Usable(cfg), Matched(cfg), provider);
    UsableHasBase(cfg);
    PresentableIsProper(Usable(cfg), HasBase(cfg), o, Regions(methods));
  }

  /** What the methods look like one by one. */
  ghost predicate Advertises(cfg: Config, o: Object, provider: string, methods: seq<AccessMethod>) {
    methods != [] ==>
      if NormalizedAffinities(cfg.affinities) == [] then
        methods == [AccessMethod(DefaultId(provider), PrimaryResource(o), Cloud(o))] && PrimaryResource(o) != ""
      else
        methods == MapSeq(MethodFor(provider, o), Regions(methods)) && Proper(HasBase(cfg), Regions(methods))
  }

  /** The guards of `buildHTTPSAccessMethods`. */
  predicate HTTPSOn(cfg: Config, o: Object) {
    && cfg.httpsSupported && TrimSpace(cfg.baseURL) != "" && TrimSpace(o.path) != ""
    && IsSupported(EffectiveProvider(cfg.implementation))
  }

  /** `buildHTTPSAccessMethods`. */
  method BuildHTTPSMethods(cfg: Config, o: Object) returns (methods: seq<AccessMethod>)
    ensures !HTTPSOn(cfg, o) ==> methods == []
    ensures HTTPSOn(cfg, o) ==> Advertised(cfg, o, EffectiveProvider(cfg.implementation), methods)
    ensures IsAdvertisement(cfg, o, methods)
  {
    methods := [];
    if !cfg.httpsSupported || TrimSpace(cfg.baseURL) == "" || TrimSpace(o.path) == "" {
      return;
    }
    var provider := EffectiveProvider(cfg.implementation);
    if IsSupported(provider) {
      methods := BuildProviderMethods(cfg, o, provider);
    }
  }

  ghost predicate IsAdvertisement(cfg: Config, o: Object, methods: seq<AccessMethod>) {
    methods != [] ==>
      var provider := EffectiveProvider(cfg.implementation);
      && cfg.httpsSupported && TrimSpace(cfg.baseURL) != "" && IsSupported(provider)
      && Advertises(cfg, o, provider, methods)
  }

  lemma ShownDistinct(provider: string, o: Object, shown: seq<string>, methods: seq<AccessMethod>)
    requires methods == MapSeq(MethodFor(provider, o), shown) && Distinct(shown)
    requires forall i :: 0 <= i < |shown| ==> IsResource(shown[i])
    ensures DistinctIds(methods)
  {
    forall i, j | 0 <= i < j < |methods| ensures methods[i].accessID != methods[j].accessID {
      MethodIds(provider, o, shown[i], shown[j]);
    }
  }

  ghost predicate DistinctIds(methods: seq<AccessMethod>) {
    forall i, j :: 0 <= i < j < |methods| ==> methods[i].accessID != methods[j].accessID
  }

  /** No two https methods of an object share an access id. */
  lemma AccessIdsDistinct(cfg: Config, o: Object, methods: seq<AccessMethod>)
    requires IsAdvertisement(cfg, o, methods)
    ensures DistinctIds(methods)
  {
    if |methods| > 1 {
      ShownDistinct(EffectiveProvider(cfg.implementation), o, Regions(methods), methods);
    }
  }

  lemma MethodIds(provider: string, o: Object, a: string, b: string)
    requires IsResource(a) && IsResource(b) && a != b
    ensures MethodFor(provider, o)(a).accessID != MethodFor(provider, o)(b).accessID
  {
    if AffinityId(provider, a) == AffinityId(provider, b) {
      IdsApart(provider, a, b);
    }
  }

  // ---------------------------------------------------------------- resolving

  datatype Access = Url(url: string) | NotImplemented | NotFound | NoBaseURL

  /** `buildHTTPSProviderAccessURL` with tickets off. */
  function ProviderAccessURL(cfg: Config, o: Object, parsed: Parsed): Access {
    var configured := EffectiveProvider(cfg.implementation);
    if !cfg.httpsSupported || !IsSupported(configured) then NotImplemented
    else if parsed.provider != configured then NotFound
    else
      var resource := if TrimSpace(parsed.resource) == "" then PrimaryResource(o) else TrimSpace(parsed.resource);
      var base := if resource == "" then BaseURL(cfg, "") else BaseFor(cfg, resource);
      if base == "" then NoBaseURL else Url(base + cfg.escape(TrimSpace(o.path)))
  }

  /** `accessURLForObject` for an atomic object and any access id but "irods"; `others` are the access
      ids of its methods. */
  function AccessURLForObject(cfg: Config, o: Object, accessID: string, others: set<string>): Access {
    var id := TrimSpace(accessID);
    if id == COMPOUND_ID then NotFound
    else
      var parsed := ParseAccessId(accessID);
      if parsed.Some? then ProviderAccessURL(cfg, o, parsed.value)
      else if id != "" && id in others then NotImplemented
      else NotFound
  }

  lemma NotCompoundId(provider: string, tail: string)
    requires IsSupported(provider)
    ensures provider + tail != COMPOUND_ID
  {
    assert (provider + tail)[6] != COMPOUND_ID[6];
  }

  lemma AccessByParse(cfg: Config, o: Object, accessID: string, others: set<string>)
    requires TrimSpace(accessID) == accessID && accessID != "" && accessID != COMPOUND_ID && accessID in others
    ensures AccessURLForObject(cfg, o, accessID, others) ==
            if ParseAccessId(accessID).Some? then ProviderAccessURL(cfg, o, ParseAccessId(accessID).value)
            else NotImplemented
  {
  }

  lemma ResourceResolves(cfg: Config, o: Object, resource: string)
    requires cfg.httpsSupported && IsSupported(EffectiveProvider(cfg.implementation))
    requires IsResource(resource) && BaseFor(cfg, resource) != ""
    ensures ProviderAccessURL(cfg, o, Parsed(EffectiveProvider(cfg.implementation), resource)) ==
            Url(BaseFor(cfg, resource) + cfg.escape(TrimSpace(o.path)))
  {
    TrimSpaceFixed(resource);
  }

  lemma DefaultResolves(cfg: Config, o: Object)
    requires NormalizedAffinities(cfg.affinities) == [] && TrimSpace(cfg.baseURL) != ""
    requires cfg.httpsSupported && IsSupported(EffectiveProvider(cfg.implementation)) && PrimaryResource(o) != ""
    ensures ProviderAccessURL(cfg, o, Parsed(EffectiveProvider(cfg.implementation), "")) ==
            Url(BaseFor(cfg, PrimaryResource(o)) + cfg.escape(TrimSpace(o.path)))
  {
    assert BaseFor(cfg, PrimaryResource(o)) == TrimSpace(cfg.baseURL);
  }

  lemma PrintedIdShape(provider: string, tail: string)
    requires IsSupported(provider) && tail != "" && !IsSpace(tail[|tail| - 1])
    ensures var id := provider + tail; TrimSpace(id) == id && id != "" && id != COMPOUND_ID
  {
    SupportedIsNormal(provider);
    TrimSpaceFixed(provider + tail);
    NotCompoundId(provider, tail);
  }

  lemma AffinityIdShape(provider: string, resource: string)
    requires IsSupported(provider) && IsResource(resource)
    ensures var id := AffinityId(provider, resource); TrimSpace(id) == id && id != "" && id != COMPOUND_ID
  {
    AffinitySpelled(provider, resource);
    TrimSpaceFixed(AffinityId(provider, resource));
    Regroup(provider + "-https", "-", resource);
    Regroup(provider, "-https", "-" + resource);
    NotCompoundId(provider, "-https" + ("-" + resource));
  }

  lemma AffinityResolves(cfg: Config, o: Object, resource: string, others: set<string>)
    requires cfg.httpsSupported && IsSupported(EffectiveProvider(cfg.implementation))
    requires IsResource(resource) && BaseFor(cfg, resource) != ""
    requires AffinityId(EffectiveProvider(cfg.implementation), resource) in others
    ensures var provider := EffectiveProvider(cfg.implementation);
      AccessURLForObject(cfg, o, AffinityId(provider, resource), others) ==
      if IsLegacy(provider, resource) then NotImplemented
      else Url(BaseFor(cfg, resource) + cfg.escape(TrimSpace(o.path)))
  {
    var provider := EffectiveProvider(cfg.implementation);
    AffinityIdShape(provider, resource);
    ParseBackIff(provider, resource);
    AccessByParse(cfg, o, AffinityId(provider, resource), others);
    ResourceResolves(cfg, o, resource);
  }

  /** Every advertised https access id resolves to a URL with the host chosen for its resource, and
      the object's path; the ids that look like an older form are refused instead. */
  lemma AdvertisedResolves(cfg: Config, o: Object, methods: seq<AccessMethod>, i: nat, others: set<string>)
    requires IsAdvertisement(cfg, o, methods) && i < |methods|
    requires methods[i].accessID in others
    ensures AccessURLForObject(cfg, o, methods[i].accessID, others) ==
            if NormalizedAffinities(cfg.affinities) != []
               && IsLegacy(EffectiveProvider(cfg.implementation), methods[i].region) then NotImplemented
            else Url(BaseFor(cfg, methods[i].region) + cfg.escape(TrimSpace(o.path)))
  {
    var provider := EffectiveProvider(cfg.implementation);
    if NormalizedAffinities(cfg.affinities) == [] {
      SupportedIsNormal(provider);
      PrintedIdShape(provider, "-https");
      DefaultParsesBack(provider);
      DefaultResolves(cfg, o);
      AccessByParse(cfg, o, DefaultId(provider), others);
    } else {
      var resource := Regions(methods)[i];
      assert HasBase(cfg)(resource);
      assert methods[i] == AccessMethod(AffinityId(provider, resource), resource, Cloud(o));
      AffinityResolves(cfg, o, resource, others);
    }
  }

  /** The default id of the configured provider resolves, advertised or not: to the host of the object's primary
      resource, if it has one, and to the configured base if not. */
  lemma DefaultIdResolves(cfg: Config, o: Object, others: set<string>)
    requires cfg.httpsSupported && IsSupported(EffectiveProvider(cfg.implementation))
    ensures var resource := PrimaryResource(o);
      var base := if resource == "" then TrimSpace(cfg.baseURL) else BaseFor(cfg, resource);
      AccessURLForObject(cfg, o, DefaultId(cfg.implementation), others) ==
      if base == "" then NoBaseURL else Url(base + cfg.escape(TrimSpace(o.path)))
  {
    var provider := EffectiveProvider(cfg.implementation);
    SupportedIsNormal(provider);
    PrintedIdShape(provider, "-https");
    DefaultParsesBack(provider);
  }

  /** The provider goes by its name in any case, and by default it is the first. */
  lemma ProviderIds(name: string)
    ensures TrimSpace(name) == "" ==> DefaultId(name) == "irods-go-rest-https"
    ensures ToLower(TrimSpace(name)) == "irods-go-rest" ==> DefaultId(name) == "irods-go-rest-https"
    ensures ToLower(TrimSpace(name)) == "irods-https-api" ==> DefaultId(name) == "irods-https-api-https"
  {
    assert GO_REST + "-https" == "irods-go-rest-https";
    assert HTTPS_API + "-https" == "irods-https-api-https";
  }

  // ---------------------------------------------------------------- the parts of a method

  /** Every https method tells of the object's zone. */
  lemma MethodsTellZone(cfg: Config, o: Object, methods: seq<AccessMethod>, i: nat)
    requires IsAdvertisement(cfg, o, methods) && i < |methods|
    ensures methods[i].cloud == if TrimSpace(o.zone) == "" then "" else "irods:" + TrimSpace(o.zone)
  {
  }

  /** The primary resource is that of the first replica that has one, or else the object's own. */
  lemma PrimaryIs(o: Object, k: nat)
    requires k <= |o.replicas| && forall j :: 0 <= j < k ==> TrimSpace(o.replicas[j]) == ""
    ensures k < |o.replicas| && TrimSpace(o.replicas[k]) != "" ==> PrimaryResource(o) == TrimSpace(o.replicas[k])
    ensures k == |o.replicas| ==> PrimaryResource(o) == TrimSpace(o.resourceName)
  {
    NonBlankKeeps(o.replicas);
    var trimmed := MapSeq(Trim(), o.replicas);
    assert trimmed == trimmed[..k] + trimmed[k..];
    FilterAppend(NotBlank(), trimmed[..k], trimmed[k..]);
    FilterNone(NotBlank(), trimmed[..k]);
  }

  /** The URL prefix of a resource: the configured base, merged with its host if it has one. */
  lemma BaseOfConfig(cfg: Config, resource: string, k: nat)
    requires IsResource(resource) && k < |cfg.affinities|
    ensures Dedicated(cfg.affinities[k], resource)
            && (forall j :: 0 <= j < k ==> !Dedicated(cfg.affinities[j], resource)) ==>
              BaseFor(cfg, resource) == cfg.merge(TrimSpace(cfg.baseURL), TrimSpace(cfg.affinities[k].host))
    ensures ForAll(cfg.affinities[k]) && (forall j :: 0 <= j < k ==> !ForAll(cfg.affinities[j]))
            && (forall j :: 0 <= j < |cfg.affinities| ==> !Dedicated(cfg.affinities[j], resource)) ==>
              BaseFor(cfg, resource) == cfg.merge(TrimSpace(cfg.baseURL), TrimSpace(cfg.affinities[k].host))
  {
    HostOfConfig(cfg.affinities, resource, k);
    TrimAgain(cfg.affinities[k].host);
  }

  // ---------------------------------------------------------------- ids that lead nowhere

  /** The id of a compound object, and ids that were not advertised and are of no known form. */
  lemma UnknownIsNotFound(cfg: Config, o: Object, id: string, others: set<string>)
    requires TrimSpace(id) == COMPOUND_ID || (ParseAccessId(id).None? && TrimSpace(id) !in others)
    ensures AccessURLForObject(cfg, o, id, others) == NotFound
  {
  }

  /** An id of the provider that is not configured. */
  lemma OtherProviderNotFound(cfg: Config, o: Object, provider: string, resource: string, others: set<string>)
    requires cfg.httpsSupported && IsSupported(EffectiveProvider(cfg.implementation))
    requires IsSupported(provider) && provider != EffectiveProvider(cfg.implementation)
    requires IsResource(resource) && !IsLegacy(provider, resource)
    ensures AccessURLForObject(cfg, o, AffinityId(provider, resource), others) == NotFound
  {
    AffinityIdShape(provider, resource);
    ParseBackIff(provider, resource);
  }

  /** While https is off, ids that parse are answered as not implemented. */
  lemma OffIsNotImplemented(cfg: Config, o: Object, provider: string, resource: string, others: set<string>)
    requires !cfg.httpsSupported && IsSupported(provider) && IsResource(resource) && !IsLegacy(provider, resource)
    ensures AccessURLForObject(cfg, o, AffinityId(provider, resource), others) == NotImplemented
  {
    AffinityIdShape(provider, resource);
    ParseBackIff(provider, resource);
  }

  // ---------------------------------------------------------------- an id that is advertised and refused

  function OneHostConfig(): Config {
    Config(true, "https://drs", GO_REST, [Affinity("https://host", [])], (base: string, host: string) => host,
           (path: string) => path)
  }

  function AffinityNamed(): Object { Object("/zone/object", "affinity-x", [], "") }

  lemma OnlyName(o: Object, name: string)
    requires o.replicas == [] && o.resourceName == name && IsResource(name)
    ensures forall x :: IsName(o, x) <==> x == name
    ensures FirstSeen(NonBlank(NamesOf(o))) != []
  {
    assert NamesOf(o) == [name];
    TrimSpaceFixed(name);
    assert NamesOf(o)[0] == name;
    NamesAre(o, name);
  }

  lemma OneHostForAll(resource: string)
    requires IsResource(resource)
    ensures NormalizedAffinities(OneHostConfig().affinities) == [Affinity("https://host", [])]
    ensures BaseFor(OneHostConfig(), resource) == "https://host" && Usable(OneHostConfig())(resource)
  {
    var a := Affinity("https://host", []);
    TrimSpaceFixed("https://host");
    assert OneHostConfig().affinities[1..] == [];
    assert NonBlank([]) == [];
    TrimSpaceFixed(resource);
    HostIsLeast([a], resource, 0);
  }

  lemma OnlyOf(s: seq<string>, x: string)
    requires Distinct(s) && forall y :: y in s <==> y == x
    ensures s == [x]
  {
    assert x in s;
    var i :| 0 <= i < |s| && s[i] == x;
    forall j | 0 <= j < |s| ensures s[j] == x && j == i {
      assert s[j] in s;
    }
    assert s[0] == x && s[|s| - 1] == x;
  }

  lemma LegacyName(name: string)
    requires name == "affinity-x"
    ensures IsResource(name) && IsLegacy(GO_REST, name)
    ensures AffinityId(GO_REST, name) == "irods-go-rest-https-affinity-x"
  {
    var provider := GO_REST;
    SupportedIsNormal(provider);
    TrimSpaceFixed(name);
  }

  lemma HTTPSIsOn()
    ensures HTTPSOn(OneHostConfig(), AffinityNamed()) && EffectiveProvider(OneHostConfig().implementation) == GO_REST
  {
    var provider := GO_REST;
    SupportedIsNormal(provider);
    TrimSpaceFixed("https://drs");
    TrimSpaceFixed("/zone/object");
  }

  lemma OnlyShown(usable: string -> bool, methodFor: string -> AccessMethod, o: Object, name: string,
                  methods: seq<AccessMethod>)
    requires IsResource(name) && usable(name) && forall x :: IsName(o, x) <==> x == name
    requires Presentable(usable, o, Regions(methods)) && methods == MapSeq(methodFor, Regions(methods))
    ensures methods == [methodFor(name)]
  {
    OnlyOf(Regions(methods), name);
    assert [name][1..] == [];
    assert MapSeq(methodFor, [name]) == [methodFor(name)];
  }

  lemma AdvertisedParts(cfg: Config, o: Object, provider: string, methods: seq<AccessMethod>)
    requires FirstSeen(NonBlank(NamesOf(o))) != [] && NormalizedAffinities(cfg.affinities) != []
    requires Advertised(cfg, o, provider, methods)
    ensures Presentable(Usable(cfg), o, Regions(methods))
    ensures methods == MapSeq(MethodFor(provider, o), Regions(methods))
  {
  }

  lemma OnlyMethod(cfg: Config, o: Object, provider: string, name: string, usable: string -> bool,
                   methods: seq<AccessMethod>)
    requires o.replicas == [] && o.resourceName == name && IsResource(name) && usable(name)
    requires Presentable(usable, o, Regions(methods)) && methods == MapSeq(MethodFor(provider, o), Regions(methods))
    ensures methods == [MethodFor(provider, o)(name)]
  {
    OnlyName(o, name);
    OnlyShown(usable, MethodFor(provider, o), o, name, methods);
  }

  /** Any configuration in which one resource of that kind is the only one advertised. */
  lemma OnlyMethodRefused(cfg: Config, o: Object, name: string, usable: string -> bool, methods: seq<AccessMethod>)
    requires HTTPSOn(cfg, o) && EffectiveProvider(cfg.implementation) == GO_REST && IsLegacy(GO_REST, name)
    requires o.replicas == [] && o.resourceName == name && IsResource(name) && BaseFor(cfg, name) != "" && usable(name)
    requires Presentable(usable, o, Regions(methods)) && methods == MapSeq(MethodFor(GO_REST, o), Regions(methods))
    ensures |methods| == 1 && methods[0].accessID == AffinityId(GO_REST, name)
    ensures AccessURLForObject(cfg, o, methods[0].accessID, {methods[0].accessID}) == NotImplemented
  {
    OnlyMethod(cfg, o, GO_REST, name, usable, methods);
    AffinityResolves(cfg, o, name, {AffinityId(GO_REST, name)});
  }

  /** With `irods-go-rest`, one host for every resource and an object on the resource `affinity-x`, the
      one https method advertised is refused when its id is presented. */
  lemma AdvertisedButRefused(cfg: Config, o: Object, methods: seq<AccessMethod>)
    requires cfg == OneHostConfig() && o == AffinityNamed() && Advertised(cfg, o, GO_REST, methods)
    ensures HTTPSOn(cfg, o)
    ensures |methods| == 1 && methods[0].accessID == "irods-go-rest-https-affinity-x"
    ensures AccessURLForObject(cfg, o, methods[0].accessID, {methods[0].accessID}) == NotImplemented
  {
    var name := o.resourceName;
    LegacyName(name);
    HTTPSIsOn();
    OneHostForAll(name);
    OnlyName(o, name);
    AdvertisedParts(cfg, o, GO_REST, methods);
    OnlyMethodRefused(cfg, o, name, Usable(cfg), methods);
  }
}
