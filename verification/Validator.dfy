/** `DrsValidator`: a depth-first walk over a manifest graph that may have cycles. */
module Validator {
  import opened Options
  import opened Text
  import opened Lists

  /** A time as the validator sees it: its RFC 3339 rendering, and what that rendering drops. */
  datatype Time = Time(rfc3339: string, fraction: nat)

  datatype Checksum = Checksum(kind: string, value: string)

  datatype Observed = Observed(checksum: Option<Checksum>, size: int, created: Time, updated: Time)

  /** The mutable fields of an `InternalDrsObject`. */
  datatype ObjectState = ObjectState(
    size: int, created: Time, updated: Time, checksum: Option<Checksum>, version: string, contents: seq<string>)

  class DrsObject {
    const id: string
    const isManifest: bool
    var size: int
    var created: Time
    var updated: Time
    var checksum: Option<Checksum>
    var version: string
    var contents: seq<string>

    constructor (id: string, isManifest: bool, s: ObjectState)
      ensures this.id == id && this.isManifest == isManifest && State() == s
    {
      this.id, this.isManifest := id, isManifest;
      size, created, updated, checksum := s.size, s.created, s.updated, s.checksum;
      version, contents := s.version, s.contents;
    }

    ghost function State(): ObjectState
      reads this
    {
      ObjectState(size, created, updated, checksum, version, contents)
    }

    /** `applyObservedState`. */
    method ApplyObservedState(observed: Observed)
      modifies this
      ensures State() == Applied(old(State()), observed)
    {
      size := observed.size;
      created := observed.created;
      updated := observed.updated;
      checksum := observed.checksum;
      if version == "" && observed.checksum.Some? {
        version := observed.checksum.value.value;
      }
    }
  }

  /** An object after its observed state has been written back; a version is set once. */
  function Applied(s: ObjectState, o: Observed): ObjectState {
    ObjectState(o.size, o.created, o.updated, o.checksum,
                if s.version == "" && o.checksum.Some? then o.checksum.value.value else s.version,
                s.contents)
  }

  // ---------------------------------------------------------------- the resolver

  datatype Lookup = Found(obj: DrsObject) | NilObject | LookupFailed

  datatype Manifest = Manifest(schema: string, contents: seq<string>)

  datatype Reading = ReadFailed | ParseFailed | Parsed(manifest: Manifest)

  datatype Observation = ObserveFailed | NothingObserved | Saw(observed: Observed)

  /** What `DrsObjectResolver` answers. Every call about an object is about the id it was looked up
      by, so the answers are indexed by that id. */
  datatype Resolver = Resolver(
    lookup: string -> Lookup,
    read: string -> Reading,
    observe: string -> Observation,
    update: string -> bool)

  /** The resolver hands out each object under its own id. */
  ghost predicate Faithful(res: Resolver) {
    forall x :: res.lookup(x).Found? ==> res.lookup(x).obj.id == x
  }

  predicate IsManifestId(res: Resolver, x: string) {
    res.lookup(x).Found? && res.lookup(x).obj.isManifest
  }

  predicate ReadableManifest(res: Resolver, x: string) {
    IsManifestId(res, x) && res.read(x).Parsed?
  }

  /** The non-empty ids that a readable manifest lists. */
  function Successors(res: Resolver, x: string): set<string> {
    if ReadableManifest(res, x) then set c | c in res.read(x).manifest.contents && c != "" else {}
  }

  // ---------------------------------------------------------------- the report

  datatype Issue = SchemaIsEmpty | EntryMissingId(index: nat)

  datatype Finding =
    | EmptyId
    | Unresolved(id: string)
    | ResolvedToNil(id: string)
    | Unreadable(id: string)
    | Unparsable(id: string)
    | Invalid(id: string, issue: Issue)
    | NotObserved(id: string)
    | ObservedNothing(id: string)
    | NotUpdated(id: string)

  datatype Field = SizeField | CreatedTime | UpdatedTime | ChecksumType | ChecksumValue

  datatype Rendering = Decimal(n: int) | Chars(s: string)

  /** `updated` is the status "updated"; otherwise the status is empty. */
  datatype Update = Update(id: string, field: Field, before: Rendering, after: Rendering, updated: bool)

  /** `DrsManifest.Validate`. */
  function Issues(m: Manifest): seq<Issue> {
    (if TrimSpace(m.schema) == "" then [SchemaIsEmpty] else []) + MissingIds(m.contents, 0)
  }

  function MissingIds(contents: seq<string>, from: nat): seq<Issue>
    decreases |contents| - from
  {
    if from >= |contents| then []
    else if TrimSpace(contents[from]) == "" then [EntryMissingId(from)] + MissingIds(contents, from + 1)
    else MissingIds(contents, from + 1)
  }

  function InvalidFindings(id: string, issues: seq<Issue>): (r: seq<Finding>)
    ensures |r| == |issues| && forall i :: 0 <= i < |r| ==> r[i] == Invalid(id, issues[i])
  {
    seq(|issues|, i requires 0 <= i < |issues| => Invalid(id, issues[i]))
  }

  function ChecksumKind(c: Option<Checksum>): string { if c.Some? then c.value.kind else "" }

  function ChecksumText(c: Option<Checksum>): string { if c.Some? then c.value.value else "" }

  function Compared(id: string, field: Field, before: Rendering, after: Rendering, updated: bool): seq<Update> {
    if before == after then [] else [Update(id, field, before, after, updated)]
  }

  function ChecksumDifferences(id: string, c: Option<Checksum>, o: Option<Checksum>, updated: bool): seq<Update> {
    Compared(id, ChecksumType, Chars(ChecksumKind(c)), Chars(ChecksumKind(o)), updated)
    + Compared(id, ChecksumValue, Chars(ChecksumText(c)), Chars(ChecksumText(o)), updated)
  }

  /** The differences between an object and its observed state, in the order they are reported. */
  function Differences(id: string, s: ObjectState, o: Observed, updated: bool): seq<Update> {
    Compared(id, SizeField, Decimal(s.size), Decimal(o.size), updated)
    + Compared(id, CreatedTime, Chars(s.created.rfc3339), Chars(o.created.rfc3339), updated)
    + Compared(id, UpdatedTime, Chars(s.updated.rfc3339), Chars(o.updated.rfc3339), updated)
    + ChecksumDifferences(id, s.checksum, o.checksum, updated)
  }

  predicate Differs(s: ObjectState, o: Observed) {
    || s.size != o.size
    || s.created.rfc3339 != o.created.rfc3339
    || s.updated.rfc3339 != o.updated.rfc3339
    || ChecksumKind(s.checksum) != ChecksumKind(o.checksum)
    || ChecksumText(s.checksum) != ChecksumText(o.checksum)
  }

  lemma DifferencesEmpty(id: string, s: ObjectState, o: Observed, updated: bool)
    ensures Differences(id, s, o, updated) == [] <==> !Differs(s, o)
  {
  }

  // ---------------------------------------------------------------- what one visit reports and changes

  /** The findings reported at the visit of one id, its successors' visits aside. */
  function OwnFindings(res: Resolver, x: string, s: ObjectState): seq<Finding> {
    match res.lookup(x)
    case LookupFailed => [Unresolved(x)]
    case NilObject => [ResolvedToNil(x)]
    case Found(obj) =>
      if obj.isManifest then
        match res.read(x)
        case ReadFailed => [Unreadable(obj.id)]
        case ParseFailed => [Unparsable(obj.id)]
        case Parsed(m) => InvalidFindings(obj.id, Issues(m))
      else
        match res.observe(x)
        case ObserveFailed => [NotObserved(obj.id)]
        case NothingObserved => [ObservedNothing(obj.id)]
        case Saw(o) => if Differs(s, o) && !res.update(x) then [NotUpdated(obj.id)] else []
  }

  /** The metadata updates reported at the visit of one id: each has status "updated" exactly when
      `UpdateObjectMetadata` succeeded. */
  function OwnUpdates(res: Resolver, x: string, s: ObjectState): seq<Update> {
    if res.lookup(x).Found? && !IsManifestId(res, x) && res.observe(x).Saw? then
      Differences(res.lookup(x).obj.id, s, res.observe(x).observed, res.update(x))
    else []
  }

  /** What one visit leaves in the object's fields. */
  function Settled(res: Resolver, x: string, s: ObjectState): ObjectState {
    if ReadableManifest(res, x) then s.(contents := res.read(x).manifest.contents)
    else if res.lookup(x).Found? && !IsManifestId(res, x) && res.observe(x).Saw?
            && Differs(s, res.observe(x).observed) && res.update(x) then
      Applied(s, res.observe(x).observed)
    else s
  }

  // ---------------------------------------------------------------- reachability

  ghost predicate IsWalk(res: Resolver, p: seq<string>) {
    p != [] && forall i :: 0 <= i < |p| - 1 ==> p[i + 1] in Successors(res, p[i])
  }

  ghost predicate Reachable(res: Resolver, root: string, x: string) {
    exists p :: IsWalk(res, p) && p[0] == root && p[|p| - 1] == x
  }

  ghost predicate Closed(res: Resolver, ids: set<string>) {
    forall x :: x in ids ==> Successors(res, x) <= ids
  }

  lemma ReachesItself(res: Resolver, x: string)
    ensures Reachable(res, x, x)
  {
    assert IsWalk(res, [x]);
  }

  lemma ReachesThrough(res: Resolver, root: string, child: string, x: string)
    requires child in Successors(res, root) && Reachable(res, child, x)
    ensures Reachable(res, root, x)
  {
    var p :| IsWalk(res, p) && p[0] == child && p[|p| - 1] == x;
    var q := [root] + p;
    forall i | 0 <= i < |q| - 1 ensures q[i + 1] in Successors(res, q[i]) {
      assert i > 0 ==> p[i] in Successors(res, p[i - 1]);
    }
    assert IsWalk(res, q);
  }

  lemma {:induction false} WalkStaysInside(res: Resolver, ids: set<string>, p: seq<string>)
    requires Closed(res, ids) && IsWalk(res, p) && p[0] in ids
    ensures p[|p| - 1] in ids
    decreases |p|
  {
    if |p| > 1 {
      assert p[1] in Successors(res, p[0]);
      forall i | 0 <= i < |p[1..]| - 1 ensures p[1..][i + 1] in Successors(res, p[1..][i]) {
        assert p[i + 2] in Successors(res, p[i + 1]);
      }
      WalkStaysInside(res, ids, p[1..]);
    }
  }

  /** The id is in a manifest that can be read. */
  ghost predicate IsIn(res: Resolver, c: string, x: string) {
    && c != "" && res.lookup(x).Found? && res.lookup(x).obj.isManifest && res.read(x).Parsed?
    && c in res.read(x).manifest.contents
  }

  /** Whatever can be reached, other than the root, is in a manifest that can be reached. */
  lemma ReachedFrom(res: Resolver, root: string, x: string)
    requires Reachable(res, root, x) && x != root
    ensures exists y :: Reachable(res, root, y) && IsIn(res, x, y)
  {
    var p :| IsWalk(res, p) && p[0] == root && p[|p| - 1] == x;
    var n := |p| - 1;
    var q := p[..n];
    forall i | 0 <= i < |q| - 1 ensures q[i + 1] in Successors(res, q[i]) {
      assert p[i + 1] in Successors(res, p[i]);
    }
    assert IsWalk(res, q) && q[0] == root && q[|q| - 1] == p[n - 1];
    assert p[n] in Successors(res, p[n - 1]);
    assert Reachable(res, root, p[n - 1]) && IsIn(res, x, p[n - 1]);
  }

  lemma ReachesIn(res: Resolver, root: string, x: string, c: string)
    requires Reachable(res, root, x) && IsIn(res, c, x)
    ensures Reachable(res, root, c)
  {
    var p :| IsWalk(res, p) && p[0] == root && p[|p| - 1] == x;
    var q := p + [c];
    forall i | 0 <= i < |q| - 1 ensures q[i + 1] in Successors(res, q[i]) {
      assert i < |p| - 1 ==> p[i + 1] in Successors(res, p[i]);
    }
    assert IsWalk(res, q) && q[0] == root && q[|q| - 1] == c;
  }

  lemma ClosedHoldsReachable(res: Resolver, ids: set<string>, root: string)
    requires Closed(res, ids) && root in ids
    ensures forall x :: Reachable(res, root, x) ==> x in ids
  {
    forall x | Reachable(res, root, x) ensures x in ids {
      var p :| IsWalk(res, p) && p[0] == root && p[|p| - 1] == x;
      WalkStaysInside(res, ids, p);
    }
  }

  // ---------------------------------------------------------------- reports over a whole walk

  /** The findings of a walk, visit by visit. */
  function FindingsOf(res: Resolver, before: string -> ObjectState, order: seq<string>): seq<Finding> {
    if order == [] then []
    else
      var x := order[|order| - 1];
      FindingsOf(res, before, order[..|order| - 1]) + OwnFindings(res, x, before(x))
  }

  /** The metadata updates of a walk, visit by visit. */
  function UpdatesOf(res: Resolver, before: string -> ObjectState, order: seq<string>): seq<Update> {
    if order == [] then []
    else
      var x := order[|order| - 1];
      UpdatesOf(res, before, order[..|order| - 1]) + OwnUpdates(res, x, before(x))
  }

  /** The loop at the end of `validateAtomicObject`. */
  function Marked(updates: seq<Update>, id: string): (r: seq<Update>)
    ensures |r| == |updates|
    ensures forall i :: 0 <= i < |r| ==>
              r[i] == if updates[i].id == id && !updates[i].updated then updates[i].(updated := true) else updates[i]
  {
    seq(|updates|, i requires 0 <= i < |updates| =>
      if updates[i].id == id && !updates[i].updated then updates[i].(updated := true) else updates[i])
  }

  lemma MarkedDifferences(earlier: seq<Update>, id: string, s: ObjectState, o: Observed)
    requires forall i :: 0 <= i < |earlier| ==> earlier[i].id != id
    ensures Marked(earlier + Differences(id, s, o, false), id) == earlier + Differences(id, s, o, true)
  {
    var d, e := Differences(id, s, o, false), Differences(id, s, o, true);
    DifferencesAligned(id, s, o);
    var m := Marked(earlier + d, id);
    assert |m| == |earlier + e|;
    forall i | 0 <= i < |m| ensures m[i] == (earlier + e)[i] {
    }
  }

  /** `e` is `d` with the status of every update set. */
  ghost predicate Aligned(d: seq<Update>, e: seq<Update>, id: string) {
    && |d| == |e|
    && forall i :: 0 <= i < |d| ==> d[i].id == id && !d[i].updated && e[i] == d[i].(updated := true)
  }

  lemma ComparedAligned(id: string, field: Field, before: Rendering, after: Rendering)
    ensures Aligned(Compared(id, field, before, after, false), Compared(id, field, before, after, true), id)
  {
  }

  lemma DifferencesAligned(id: string, s: ObjectState, o: Observed)
    ensures Aligned(Differences(id, s, o, false), Differences(id, s, o, true), id)
  {
    ComparedAligned(id, SizeField, Decimal(s.size), Decimal(o.size));
    ComparedAligned(id, CreatedTime, Chars(s.created.rfc3339), Chars(o.created.rfc3339));
    ComparedAligned(id, UpdatedTime, Chars(s.updated.rfc3339), Chars(o.updated.rfc3339));
    ComparedAligned(id, ChecksumType, Chars(ChecksumKind(s.checksum)), Chars(ChecksumKind(o.checksum)));
    ComparedAligned(id, ChecksumValue, Chars(ChecksumText(s.checksum)), Chars(ChecksumText(o.checksum)));
  }

  lemma OwnFindingsCount(res: Resolver, x: string, s: ObjectState, y: string)
    ensures multiset(OwnFindings(res, x, s))[Unresolved(y)] ==
            if x == y && res.lookup(y).LookupFailed? then 1 else 0
  {
    var f := OwnFindings(res, x, s);
    if f != [Unresolved(x)] {
      assert Unresolved(y) !in f;
    }
  }

  /** Of these ids, each that cannot be resolved is reported as such exactly once, and no other id is. */
  ghost predicate Tells(res: Resolver, findings: seq<Finding>, ids: set<string>) {
    forall y :: multiset(findings)[Unresolved(y)] == if y in ids && res.lookup(y).LookupFailed? then 1 else 0
  }

  /** One more visit tells of one more id. */
  lemma UnresolvedOnce(res: Resolver, findings: seq<Finding>, ids: set<string>, x: string, s: ObjectState)
    requires Tells(res, findings, ids - {x}) && x in ids
    ensures Tells(res, findings + OwnFindings(res, x, s), ids)
  {
    forall y
      ensures multiset(findings + OwnFindings(res, x, s))[Unresolved(y)] ==
              if y in ids && res.lookup(y).LookupFailed? then 1 else 0
    {
      OwnFindingsCount(res, x, s, y);
      assert multiset(findings)[Unresolved(y)] == if y in ids - {x} && res.lookup(y).LookupFailed? then 1 else 0;
    }
  }

  lemma EmptyIdTellsNothing(res: Resolver, findings: seq<Finding>, ids: set<string>)
    requires Tells(res, findings, ids)
    ensures Tells(res, findings + [EmptyId], ids)
  {
    forall y
      ensures multiset(findings + [EmptyId])[Unresolved(y)] == if y in ids && res.lookup(y).LookupFailed? then 1 else 0
    {
      assert multiset(findings)[Unresolved(y)] == if y in ids && res.lookup(y).LookupFailed? then 1 else 0;
    }
  }

  /** An update has status "updated" exactly when the resolver accepted the write-back. */
  lemma {:induction false} StatusTellsSuccess(res: Resolver, before: string -> ObjectState, order: seq<string>)
    requires Faithful(res)
    ensures forall i :: 0 <= i < |UpdatesOf(res, before, order)| ==>
              var u := UpdatesOf(res, before, order)[i]; u.id in order && u.updated == res.update(u.id)
  {
    if order != [] {
      var n := |order| - 1;
      StatusTellsSuccess(res, before, order[..n]);
      var u := OwnUpdates(res, order[n], before(order[n]));
      forall i | 0 <= i < |u| ensures u[i].id == order[n] && u[i].updated == res.update(order[n]) {
        DifferencesAligned(order[n], before(order[n]), res.observe(order[n]).observed);
      }
    }
  }

  // ---------------------------------------------------------------- what the report says

  /** A field as it stands on the object, and as it was observed. */
  ghost function FieldNow(s: ObjectState, field: Field): Rendering {
    match field
    case SizeField => Decimal(s.size)
    case CreatedTime => Chars(s.created.rfc3339)
    case UpdatedTime => Chars(s.updated.rfc3339)
    case ChecksumType => Chars(if s.checksum.Some? then s.checksum.value.kind else "")
    case ChecksumValue => Chars(if s.checksum.Some? then s.checksum.value.value else "")
  }

  ghost function FieldSeen(o: Observed, field: Field): Rendering {
    match field
    case SizeField => Decimal(o.size)
    case CreatedTime => Chars(o.created.rfc3339)
    case UpdatedTime => Chars(o.updated.rfc3339)
    case ChecksumType => Chars(if o.checksum.Some? then o.checksum.value.kind else "")
    case ChecksumValue => Chars(if o.checksum.Some? then o.checksum.value.value else "")
  }

  ghost predicate SomeFieldDiffers(s: ObjectState, o: Observed) {
    exists field :: FieldNow(s, field) != FieldSeen(o, field)
  }

  lemma DiffersIff(s: ObjectState, o: Observed)
    ensures Differs(s, o) <==> SomeFieldDiffers(s, o)
  {
    if Differs(s, o) {
      var field := if s.size != o.size then SizeField
                   else if s.created.rfc3339 != o.created.rfc3339 then CreatedTime
                   else if s.updated.rfc3339 != o.updated.rfc3339 then UpdatedTime
                   else if ChecksumKind(s.checksum) != ChecksumKind(o.checksum) then ChecksumType
                   else ChecksumValue;
      assert FieldNow(s, field) != FieldSeen(o, field);
    }
  }

  /** The object is looked up, is no manifest, and its state has been observed. */
  ghost predicate Sees(res: Resolver, x: string, o: Observed) {
    res.lookup(x).Found? && !IsManifestId(res, x) && res.observe(x) == Saw(o)
  }

  /** A finding that the state of things calls for. */
  ghost predicate Called(res: Resolver, before: string -> ObjectState, f: Finding) {
    match f
    case EmptyId => false
    case Unresolved(x) => res.lookup(x).LookupFailed?
    case ResolvedToNil(x) => res.lookup(x).NilObject?
    case Unreadable(x) => IsManifestId(res, x) && res.read(x).ReadFailed?
    case Unparsable(x) => IsManifestId(res, x) && res.read(x).ParseFailed?
    case Invalid(x, SchemaIsEmpty) => ReadableManifest(res, x) && TrimSpace(res.read(x).manifest.schema) == ""
    case Invalid(x, EntryMissingId(i)) =>
      && ReadableManifest(res, x) && i < |res.read(x).manifest.contents|
      && TrimSpace(res.read(x).manifest.contents[i]) == ""
    case NotObserved(x) => res.lookup(x).Found? && !IsManifestId(res, x) && res.observe(x).ObserveFailed?
    case ObservedNothing(x) => res.lookup(x).Found? && !IsManifestId(res, x) && res.observe(x).NothingObserved?
    case NotUpdated(x) => !res.update(x) && exists o :: Sees(res, x, o) && SomeFieldDiffers(before(x), o)
  }

  /** An update that the state of things calls for, with the values before and after. */
  ghost predicate CalledUpdate(res: Resolver, before: string -> ObjectState, u: Update) {
    && u.before == FieldNow(before(u.id), u.field) && u.before != u.after && u.updated == res.update(u.id)
    && exists o :: Sees(res, u.id, o) && u.after == FieldSeen(o, u.field)
  }

  lemma {:induction false} MissingIdsCount(contents: seq<string>, from: nat, issue: Issue)
    ensures multiset(MissingIds(contents, from))[issue] ==
            if issue.EntryMissingId? && from <= issue.index < |contents| && TrimSpace(contents[issue.index]) == ""
            then 1 else 0
    decreases |contents| - from
  {
    if from < |contents| {
      MissingIdsCount(contents, from + 1, issue);
    }
  }

  lemma IssuesCount(m: Manifest, issue: Issue)
    ensures multiset(Issues(m))[issue] ==
            if (if issue.SchemaIsEmpty? then TrimSpace(m.schema) == ""
                else issue.index < |m.contents| && TrimSpace(m.contents[issue.index]) == "")
            then 1 else 0
  {
    MissingIdsCount(m.contents, 0, issue);
  }

  lemma {:induction false} InvalidFindingsCount(id: string, issues: seq<Issue>, f: Finding)
    ensures multiset(InvalidFindings(id, issues))[f] ==
            if f.Invalid? && f.id == id then multiset(issues)[f.issue] else 0
    decreases |issues|
  {
    if issues != [] {
      var n := |issues| - 1;
      InvalidFindingsCount(id, issues[..n], f);
      assert issues == issues[..n] + [issues[n]];
      assert InvalidFindings(id, issues) == InvalidFindings(id, issues[..n]) + [Invalid(id, issues[n])];
    }
  }

  lemma ManifestFindingsCalled(res: Resolver, x: string, before: string -> ObjectState, f: Finding)
    requires Faithful(res) && ReadableManifest(res, x)
    ensures multiset(InvalidFindings(x, Issues(res.read(x).manifest)))[f] ==
            if !f.EmptyId? && f.id == x && Called(res, before, f) then 1 else 0
  {
    InvalidFindingsCount(x, Issues(res.read(x).manifest), f);
    if f.Invalid? {
      IssuesCount(res.read(x).manifest, f.issue);
    }
  }

  /** One visit makes the findings called for about its id, each once, and no other. */
  lemma OwnFindingsCalled(res: Resolver, x: string, before: string -> ObjectState, f: Finding)
    requires Faithful(res)
    ensures multiset(OwnFindings(res, x, before(x)))[f] ==
            if !f.EmptyId? && f.id == x && Called(res, before, f) then 1 else 0
  {
    if ReadableManifest(res, x) {
      ManifestFindingsCalled(res, x, before, f);
    } else if res.lookup(x).Found? && !IsManifestId(res, x) && res.observe(x).Saw? {
      DiffersIff(before(x), res.observe(x).observed);
      assert Sees(res, x, res.observe(x).observed);
    }
  }

  ghost function FindingsAt(res: Resolver, before: string -> ObjectState): string -> seq<Finding> {
    x => OwnFindings(res, x, before(x))
  }

  ghost function UpdatesAt(res: Resolver, before: string -> ObjectState): string -> seq<Update> {
    x => OwnUpdates(res, x, before(x))
  }

  lemma {:induction false} ReportIsFlat(res: Resolver, before: string -> ObjectState, order: seq<string>)
    ensures FindingsOf(res, before, order) == FlatMap(FindingsAt(res, before), order)
    ensures UpdatesOf(res, before, order) == FlatMap(UpdatesAt(res, before), order)
  {
    if order != [] {
      ReportIsFlat(res, before, order[..|order| - 1]);
    }
  }

  lemma FindingsCalled(res: Resolver, before: string -> ObjectState, order: seq<string>, f: Finding)
    requires Faithful(res) && Distinct(order)
    ensures multiset(FindingsOf(res, before, order))[f] ==
            if !f.EmptyId? && f.id in order && Called(res, before, f) then 1 else 0
  {
    var called := !f.EmptyId? && Called(res, before, f);
    var id := if f.EmptyId? then "" else f.id;
    ReportIsFlat(res, before, order);
    forall x ensures multiset(FindingsAt(res, before)(x))[f] == if x == id && called then 1 else 0 {
      OwnFindingsCalled(res, x, before, f);
    }
    FlatMapCount(FindingsAt(res, before), order, f, id, called);
  }

  ghost function FieldDifference(id: string, s: ObjectState, o: Observed, updated: bool, field: Field): seq<Update> {
    Compared(id, field, FieldNow(s, field), FieldSeen(o, field), updated)
  }

  /** This is the update that the difference in its field calls for. */
  ghost predicate CallsFor(id: string, s: ObjectState, o: Observed, updated: bool, u: Update) {
    && u.id == id && u.updated == updated && u.before != u.after
    && u.before == FieldNow(s, u.field) && u.after == FieldSeen(o, u.field)
  }

  lemma FieldDifferenceCount(id: string, s: ObjectState, o: Observed, updated: bool, field: Field, u: Update)
    ensures multiset(FieldDifference(id, s, o, updated, field))[u] ==
            if u.field == field && CallsFor(id, s, o, updated, u) then 1 else 0
  {
  }

  lemma DifferencesByField(id: string, s: ObjectState, o: Observed, updated: bool)
    ensures Differences(id, s, o, updated) ==
            FieldDifference(id, s, o, updated, SizeField) + FieldDifference(id, s, o, updated, CreatedTime)
            + FieldDifference(id, s, o, updated, UpdatedTime)
            + (FieldDifference(id, s, o, updated, ChecksumType) + FieldDifference(id, s, o, updated, ChecksumValue))
  {
  }

  lemma CountFive<T>(a: seq<T>, b: seq<T>, c: seq<T>, d: seq<T>, e: seq<T>, u: T)
    ensures multiset(a + b + c + (d + e))[u] ==
            multiset(a)[u] + multiset(b)[u] + multiset(c)[u] + multiset(d)[u] + multiset(e)[u]
  {
  }

  lemma DifferencesCount(id: string, s: ObjectState, o: Observed, updated: bool, u: Update)
    ensures multiset(Differences(id, s, o, updated))[u] == if CallsFor(id, s, o, updated, u) then 1 else 0
  {
    DifferencesByField(id, s, o, updated);
    CountFive(FieldDifference(id, s, o, updated, SizeField), FieldDifference(id, s, o, updated, CreatedTime),
              FieldDifference(id, s, o, updated, UpdatedTime), FieldDifference(id, s, o, updated, ChecksumType),
              FieldDifference(id, s, o, updated, ChecksumValue), u);
    FieldDifferenceCount(id, s, o, updated, SizeField, u);
    FieldDifferenceCount(id, s, o, updated, CreatedTime, u);
    FieldDifferenceCount(id, s, o, updated, UpdatedTime, u);
    FieldDifferenceCount(id, s, o, updated, ChecksumType, u);
    FieldDifferenceCount(id, s, o, updated, ChecksumValue, u);
  }

  lemma OwnUpdatesCalled(res: Resolver, x: string, before: string -> ObjectState, u: Update)
    requires Faithful(res)
    ensures multiset(OwnUpdates(res, x, before(x)))[u] == if u.id == x && CalledUpdate(res, before, u) then 1 else 0
  {
    if res.lookup(x).Found? && !IsManifestId(res, x) && res.observe(x).Saw? {
      DifferencesCount(x, before(x), res.observe(x).observed, res.update(x), u);
      assert Sees(res, x, res.observe(x).observed);
    }
  }

  lemma UpdatesCalled(res: Resolver, before: string -> ObjectState, order: seq<string>, u: Update)
    requires Faithful(res) && Distinct(order)
    ensures multiset(UpdatesOf(res, before, order))[u] == if u.id in order && CalledUpdate(res, before, u) then 1 else 0
  {
    var called := CalledUpdate(res, before, u);
    ReportIsFlat(res, before, order);
    forall x ensures multiset(UpdatesAt(res, before)(x))[u] == if x == u.id && called then 1 else 0 {
      OwnUpdatesCalled(res, x, before, u);
    }
    FlatMapCount(UpdatesAt(res, before), order, u, u.id, called);
  }

  // ---------------------------------------------------------------- what validation leaves

  /** What a visit makes of an object: if a field differed from what was observed and the update was
      accepted, the object is as observed, its version set once; a manifest that could be read has its
      contents; nothing else changes. */
  ghost predicate LeftAs(res: Resolver, x: string, s: ObjectState, t: ObjectState) {
    if ReadableManifest(res, x) then t == s.(contents := t.contents) && t.contents == res.read(x).manifest.contents
    else if res.update(x) && exists o :: Sees(res, x, o) && SomeFieldDiffers(s, o) then
      forall o :: Sees(res, x, o) ==>
        && t.size == o.size && t.created == o.created && t.updated == o.updated && t.checksum == o.checksum
        && t.version == (if s.version == "" && o.checksum.Some? then o.checksum.value.value else s.version)
        && t.contents == s.contents
    else t == s
  }

  lemma SettledIsLeft(res: Resolver, x: string, s: ObjectState)
    ensures LeftAs(res, x, s, Settled(res, x, s))
  {
    if res.lookup(x).Found? && !IsManifestId(res, x) && res.observe(x).Saw? {
      DiffersIff(s, res.observe(x).observed);
      assert Sees(res, x, res.observe(x).observed);
    }
  }

  /** The state that validation leaves an object in. */
  ghost function Left(res: Resolver, before: string -> ObjectState): string -> ObjectState {
    x => Settled(res, x, before(x))
  }

  lemma NothingLeft(res: Resolver, x: string, s: ObjectState)
    requires res.update(x)
    ensures OwnUpdates(res, x, Settled(res, x, s)) == []
  {
    if res.lookup(x).Found? && !IsManifestId(res, x) && res.observe(x).Saw? {
      var o := res.observe(x).observed;
      DifferencesEmpty(res.lookup(x).obj.id, Settled(res, x, s), o, true);
    }
  }

  /** Validating again, where updates are accepted, finds nothing to update. */
  lemma {:induction false} SecondRunUpdatesNothing(res: Resolver, before: string -> ObjectState, order: seq<string>)
    requires forall i :: 0 <= i < |order| ==> res.update(order[i])
    ensures UpdatesOf(res, Left(res, before), order) == []
  {
    if order != [] {
      var n := |order| - 1;
      SecondRunUpdatesNothing(res, before, order[..n]);
      NothingLeft(res, order[n], before(order[n]));
    }
  }

  /** One `Validate` call: the report under construction and the shared `visited` map. */
  class Run {
    const res: Resolver
    var visited: set<string>
    var order: seq<string>
    var findings: seq<Finding>
    var updates: seq<Update>

    constructor (res: Resolver)
      ensures this.res == res && visited == {} && order == [] && findings == [] && updates == []
    {
      this.res := res;
      visited, order, findings, updates := {}, [], [], [];
    }

    /** `compareMetadataField`, and each half of `compareChecksumField`. */
    method CompareField(id: string, field: Field, before: Rendering, after: Rendering) returns (differs: bool)
      modifies this`updates
      ensures differs == (before != after)
      ensures updates == old(updates) + Compared(id, field, before, after, false)
    {
      if before == after {
        return false;
      }
      updates := updates + [Update(id, field, before, after, false)];
      return true;
    }

    /** `compareChecksumField`. */
    method CompareChecksumField(obj: DrsObject, observed: Option<Checksum>) returns (differs: bool)
      modifies this`updates
      ensures differs == (ChecksumKind(obj.checksum) != ChecksumKind(observed)
                          || ChecksumText(obj.checksum) != ChecksumText(observed))
      ensures updates == old(updates) + ChecksumDifferences(obj.id, obj.checksum, observed, false)
    {
      var d1 := CompareField(obj.id, ChecksumType, Chars(ChecksumKind(obj.checksum)), Chars(ChecksumKind(observed)));
      var d2 := CompareField(obj.id, ChecksumValue, Chars(ChecksumText(obj.checksum)), Chars(ChecksumText(observed)));
      differs := d1 || d2;
    }

    /** The comparisons of `validateAtomicObject`, none of which is skipped. */
    method CompareFields(obj: DrsObject, o: Observed) returns (needsUpdate: bool)
      modifies this`updates
      ensures needsUpdate == Differs(obj.State(), o)
      ensures updates == old(updates) + Differences(obj.id, obj.State(), o, false)
    {
      var d1 := CompareField(obj.id, SizeField, Decimal(obj.size), Decimal(o.size));
      var d2 := CompareField(obj.id, CreatedTime, Chars(obj.created.rfc3339), Chars(o.created.rfc3339));
      var d3 := CompareField(obj.id, UpdatedTime, Chars(obj.updated.rfc3339), Chars(o.updated.rfc3339));
      var d4 := CompareChecksumField(obj, o.checksum);
      needsUpdate := d1 || d2 || d3 || d4;
    }

    method MarkUpdated(id: string)
      modifies this`updates
      ensures updates == Marked(old(updates), id)
    {
      ghost var was := updates;
      for i := 0 to |updates|
        invariant |updates| == |was|
        invariant forall k :: 0 <= k < i ==> updates[k] == Marked(was, id)[k]
        invariant forall k :: i <= k < |was| ==> updates[k] == was[k]
      {
        if updates[i].id == id && !updates[i].updated {
          updates := updates[i := updates[i].(updated := true)];
        }
      }
    }

    /** `validateAtomicObject`. */
    method ValidateAtomic(x: string, obj: DrsObject)
      requires res.lookup(x) == Found(obj) && !obj.isManifest
      modifies this`findings, this`updates, obj
      ensures findings == old(findings) + OwnFindings(res, x, old(obj.State()))
      ensures obj.State() == Settled(res, x, old(obj.State()))
      ensures (forall i :: 0 <= i < |old(updates)| ==> old(updates)[i].id != obj.id) ==>
                updates == old(updates) + OwnUpdates(res, x, old(obj.State()))
    {
      ghost var s := obj.State();
      ghost var earlier := updates;
      var observation := res.observe(x);
      if observation.ObserveFailed? {
        findings := findings + [NotObserved(obj.id)];
        return;
      }
      if observation.NothingObserved? {
        findings := findings + [ObservedNothing(obj.id)];
        return;
      }
      var observed := observation.observed;
      var needsUpdate := CompareFields(obj, observed);
      DifferencesEmpty(obj.id, s, observed, false);
      DifferencesEmpty(obj.id, s, observed, true);
      if !needsUpdate {
        return;
      }
      if !res.update(x) {
        findings := findings + [NotUpdated(obj.id)];
        return;
      }
      obj.ApplyObservedState(observed);
      MarkUpdated(obj.id);
      if forall i :: 0 <= i < |earlier| ==> earlier[i].id != obj.id {
        MarkedDifferences(earlier, obj.id, s, observed);
      }
    }

    // ---------------------------------------------------------------- the recursion

    /** `ids` is a finite part of the manifest graph that no manifest leads out of; `owned` holds the
        objects its ids resolve to. */
    ghost predicate Within(ids: set<string>, owned: set<DrsObject>) {
      Closed(res, ids) && forall x :: x in ids && res.lookup(x).Found? ==> res.lookup(x).obj in owned
    }

    ghost predicate Walked()
      reads this
    {
      Distinct(order) && Elems(order) == visited
    }

    ghost predicate ObjectSettled(x: string, owned: set<DrsObject>, before: string -> ObjectState)
      reads this, owned
    {
      res.lookup(x).Found? && res.lookup(x).obj in owned ==>
        res.lookup(x).obj.State() == if x in visited then Settled(res, x, before(x)) else before(x)
    }

    /** The report is the visits' own reports in visiting order, and exactly the visited objects have
        been brought up to date. */
    ghost predicate Reported(ids: set<string>, owned: set<DrsObject>, before: string -> ObjectState)
      reads this, owned
    {
      && findings == FindingsOf(res, before, order)
      && updates == UpdatesOf(res, before, order)
      && forall x :: x in ids ==> ObjectSettled(x, owned, before)
    }

    /** Enter an id into `visited` and `VisitedDrsIDs`. */
    method Enter(x: string)
      requires Walked() && x !in visited
      modifies this`visited, this`order
      ensures Walked() && visited == old(visited) + {x} && order == old(order) + [x]
    {
      assert x !in Elems(order);
      visited := visited + {x};
      order := order + [x];
      assert Elems(order) == Elems(old(order)) + {x};
    }

    /** Every id visited since `seen` lies below `x`, and its successors have been visited too. */
    ghost predicate Explored(x: string, seen: set<string>)
      reads this
    {
      forall v :: v in visited && v !in seen ==> Reachable(res, x, v) && Successors(res, v) <= visited
    }

    /** Everything is reported but the visit of `x`, the last id entered. */
    ghost predicate Pending(x: string, ids: set<string>, owned: set<DrsObject>, before: string -> ObjectState)
      reads this, owned
    {
      && order != [] && order[|order| - 1] == x
      && findings == FindingsOf(res, before, order[..|order| - 1])
      && updates == UpdatesOf(res, before, order[..|order| - 1])
      && (forall y :: y in ids && y != x ==> ObjectSettled(y, owned, before))
      && (res.lookup(x).Found? && res.lookup(x).obj in owned ==> res.lookup(x).obj.State() == before(x))
    }

    /** What `validateRecursive` does at an id that is not a manifest. */
    method VisitLeaf(x: string, ghost ids: set<string>, ghost owned: set<DrsObject>,
                     ghost before: string -> ObjectState)
      requires Within(ids, owned) && x in ids && !IsManifestId(res, x)
      requires Walked() && x in visited && Tells(res, findings, visited - {x})
      requires Faithful(res) ==> Pending(x, ids, owned, before)
      modifies this`findings, this`updates, owned
      ensures Tells(res, findings, visited)
      ensures Faithful(res) ==> Reported(ids, owned, before)
    {
      var found := res.lookup(x);
      if found.Found? {
        VisitAtomic(x, found.obj, ids, owned, before);
      } else {
        UnresolvedOnce(res, findings, visited, x, before(x));
        findings := findings + [if found.LookupFailed? then Unresolved(x) else ResolvedToNil(x)];
      }
    }

    method VisitAtomic(x: string, obj: DrsObject, ghost ids: set<string>, ghost owned: set<DrsObject>,
                       ghost before: string -> ObjectState)
      requires Within(ids, owned) && x in ids && res.lookup(x) == Found(obj) && !obj.isManifest
      requires Walked() && x in visited && Tells(res, findings, visited - {x})
      requires Faithful(res) ==> Pending(x, ids, owned, before)
      modifies this`findings, this`updates, obj
      ensures Tells(res, findings, visited)
      ensures Faithful(res) ==> Reported(ids, owned, before)
    {
      if Faithful(res) {
        ghost var walked := order[..|order| - 1];
        StatusTellsSuccess(res, before, walked);
        assert x !in walked;
      }
      UnresolvedOnce(res, findings, visited, x, obj.State());
      ValidateAtomic(x, obj);
      forall y | Faithful(res) && y in ids && y != x ensures ObjectSettled(y, owned, before) {
        assert old(ObjectSettled(y, owned, before));
        if res.lookup(y).Found? {
          assert res.lookup(y).obj.id == y;
        }
      }
    }

    method TakeManifest(x: string, obj: DrsObject, m: Manifest)
      requires res.lookup(x) == Found(obj) && obj.isManifest && res.read(x) == Parsed(m)
      modifies this`findings, obj
      ensures findings == old(findings) + OwnFindings(res, x, old(obj.State()))
      ensures obj.State() == Settled(res, x, old(obj.State()))
    {
      obj.contents := m.contents;
      findings := findings + InvalidFindings(obj.id, Issues(m));
    }

    method SettleManifest(x: string, obj: DrsObject, m: Manifest, ghost ids: set<string>, ghost owned: set<DrsObject>,
                          ghost before: string -> ObjectState)
      requires Within(ids, owned) && x in ids && res.lookup(x) == Found(obj) && obj.isManifest
      requires res.read(x) == Parsed(m) && x in visited && Tells(res, findings, visited - {x})
      requires Elems(order) == visited && (Faithful(res) ==> Pending(x, ids, owned, before))
      modifies this`findings, obj
      ensures Tells(res, findings, visited)
      ensures Faithful(res) ==> Reported(ids, owned, before)
    {
      UnresolvedOnce(res, findings, visited, x, obj.State());
      TakeManifest(x, obj, m);
      forall y | Faithful(res) && y in ids && y != x ensures ObjectSettled(y, owned, before) {
        assert old(ObjectSettled(y, owned, before));
        if res.lookup(y).Found? {
          assert res.lookup(y).obj.id == y;
        }
      }
    }

    method RefuseManifest(x: string, obj: DrsObject, ghost ids: set<string>, ghost owned: set<DrsObject>,
                          ghost before: string -> ObjectState)
      requires Within(ids, owned) && x in ids && res.lookup(x) == Found(obj) && obj.isManifest
      requires !res.read(x).Parsed? && x in visited && Tells(res, findings, visited - {x})
      requires Elems(order) == visited && (Faithful(res) ==> Pending(x, ids, owned, before))
      modifies this`findings
      ensures Tells(res, findings, visited)
      ensures Faithful(res) ==> Reported(ids, owned, before)
    {
      UnresolvedOnce(res, findings, visited, x, obj.State());
      findings := findings + [if res.read(x).ReadFailed? then Unreadable(obj.id) else Unparsable(obj.id)];
    }

    /** What `validateManifestObject` does before it turns to the successors. */
    method OpenManifest(x: string, obj: DrsObject, ghost ids: set<string>, ghost owned: set<DrsObject>,
                        ghost before: string -> ObjectState)
      returns (contents: Option<seq<string>>)
      requires Within(ids, owned) && x in ids && res.lookup(x) == Found(obj) && obj.isManifest
      requires Elems(order) == visited && x in visited && Tells(res, findings, visited - {x})
      requires Faithful(res) ==> Pending(x, ids, owned, before)
      modifies this`findings, obj
      ensures Tells(res, findings, visited)
      ensures contents == if res.read(x).Parsed? then Some(res.read(x).manifest.contents) else None
      ensures Faithful(res) ==> Reported(ids, owned, before)
    {
      var reading := res.read(x);
      if !reading.Parsed? {
        RefuseManifest(x, obj, ids, owned, before);
        return None;
      }
      SettleManifest(x, obj, reading.manifest, ids, owned, before);
      return Some(reading.manifest.contents);
    }

    /** `validateRecursive`. */
    method ValidateRecursive(x: string, ghost ids: set<string>, ghost owned: set<DrsObject>,
                             ghost before: string -> ObjectState)
      requires Within(ids, owned) && (x == "" || x in ids)
      requires Walked() && visited <= ids && Tells(res, findings, visited)
      requires Faithful(res) ==> Reported(ids, owned, before)
      modifies this, owned
      ensures Walked() && old(visited) <= visited <= ids && Tells(res, findings, visited)
      ensures x == "" ==> order == old(order) && findings == old(findings) + [EmptyId] && updates == old(updates)
      ensures x != "" ==> x in visited && Explored(x, old(visited))
      ensures x != "" && Faithful(res) ==> Reported(ids, owned, before)
      decreases ids - visited, 1
    {
      if x == "" {
        EmptyIdTellsNothing(res, findings, visited);
        findings := findings + [EmptyId];
        return;
      }
      if x in visited {
        return;
      }
      ghost var seen := visited;
      Enter(x);
      assert order[..|order| - 1] == old(order) && visited - {x} == seen;
      ReachesItself(res, x);
      var found := res.lookup(x);
      if found.Found? && found.obj.isManifest {
        ValidateManifest(x, found.obj, ids, owned, before, seen);
      } else {
        VisitLeaf(x, ids, owned, before);
      }
    }

    /** `validateManifestObject`. */
    method ValidateManifest(x: string, obj: DrsObject, ghost ids: set<string>, ghost owned: set<DrsObject>,
                            ghost before: string -> ObjectState, ghost seen: set<string>)
      requires Within(ids, owned) && x in ids && x != "" && res.lookup(x) == Found(obj) && obj.isManifest
      requires Walked() && visited <= ids && visited == seen + {x} && x !in seen && Tells(res, findings, seen)
      requires Faithful(res) ==> Pending(x, ids, owned, before)
      modifies this, owned
      ensures Walked() && old(visited) <= visited <= ids && Tells(res, findings, visited)
      ensures Explored(x, seen)
      ensures Faithful(res) ==> Reported(ids, owned, before)
      decreases ids - visited, 3
    {
      ReachesItself(res, x);
      assert visited - {x} == seen;
      var children := OpenManifest(x, obj, ids, owned, before);
      if children.Some? {
        VisitChildren(x, children.value, ids, owned, before, seen);
      }
    }

    /** The loop of `validateManifestObject`. */
    method VisitChildren(x: string, contents: seq<string>, ghost ids: set<string>, ghost owned: set<DrsObject>,
                         ghost before: string -> ObjectState, ghost seen: set<string>)
      requires Within(ids, owned) && x in ids && ReadableManifest(res, x) && res.read(x).manifest.contents == contents
      requires Walked() && visited <= ids && visited == seen + {x} && Tells(res, findings, visited)
      requires Faithful(res) ==> Reported(ids, owned, before)
      modifies this, owned
      ensures Walked() && old(visited) <= visited <= ids && Tells(res, findings, visited)
      ensures Explored(x, seen)
      ensures Faithful(res) ==> Reported(ids, owned, before)
      decreases ids - visited, 2
    {
      ReachesItself(res, x);
      for i := 0 to |contents|
        invariant Walked() && old(visited) <= visited <= ids && Tells(res, findings, visited)
        invariant forall v :: v in visited && v !in seen ==>
                    Reachable(res, x, v) && (v == x || Successors(res, v) <= visited)
        invariant forall k :: 0 <= k < i && contents[k] != "" ==> contents[k] in visited
        invariant Faithful(res) ==> Reported(ids, owned, before)
      {
        var child := contents[i];
        if child == "" {
          continue;
        }
        assert child in Successors(res, x);
        ghost var earlier := visited;
        ValidateRecursive(child, ids, owned, before);
        forall v | v in visited && v !in earlier ensures Reachable(res, x, v) {
          ReachesThrough(res, x, child, v);
        }
      }
    }

    /** What the report and the objects come to: each finding and each update called for about what has
        been visited is reported once, and no other is; and each object visited is left as observed. */
    ghost predicate Accounted(owned: set<DrsObject>, before: string -> ObjectState)
      reads this, owned
    {
      && (forall f :: multiset(findings)[f] ==
            if !f.EmptyId? && f.id in visited && Called(res, before, f) then 1 else 0)
      && (forall u :: multiset(updates)[u] == if u.id in visited && CalledUpdate(res, before, u) then 1 else 0)
      && (forall x :: x in visited && res.lookup(x).Found? && res.lookup(x).obj in owned ==>
            LeftAs(res, x, before(x), res.lookup(x).obj.State()))
    }

    lemma ReportAccounts(ids: set<string>, owned: set<DrsObject>, before: string -> ObjectState)
      requires Faithful(res) && Reported(ids, owned, before) && Distinct(order) && Elems(order) == visited
      requires visited <= ids
      ensures Accounted(owned, before)
    {
      forall f
        ensures multiset(findings)[f] == if !f.EmptyId? && f.id in visited && Called(res, before, f) then 1 else 0
      {
        FindingsCalled(res, before, order, f);
        if !f.EmptyId? {
          assert f.id in visited <==> f.id in Elems(order);
        }
      }
      forall u ensures multiset(updates)[u] == if u.id in visited && CalledUpdate(res, before, u) then 1 else 0 {
        UpdatesCalled(res, before, order, u);
        assert u.id in visited <==> u.id in Elems(order);
      }
      forall x | x in visited && res.lookup(x).Found? && res.lookup(x).obj in owned
        ensures LeftAs(res, x, before(x), res.lookup(x).obj.State())
      {
        assert ObjectSettled(x, owned, before);
        SettledIsLeft(res, x, before(x));
      }
    }

    /** `Validate`, over any finite manifest graph: it visits exactly what can be reached, each id once,
        reports each of these that cannot be resolved once, accounts for everything else it reports, and
        leaves nothing to update behind where updates are accepted. */
    method Validate(drsId: string, ghost ids: set<string>, ghost owned: set<DrsObject>,
                    ghost before: string -> ObjectState)
      requires Within(ids, owned) && (drsId == "" || drsId in ids)
      requires visited == {} && order == [] && findings == [] && updates == []
      requires forall x :: x in ids && res.lookup(x).Found? ==> res.lookup(x).obj.State() == before(x)
      modifies this, owned
      ensures Distinct(order) && Elems(order) == visited
      ensures drsId != "" ==> forall x :: x in visited <==> Reachable(res, drsId, x)
      ensures drsId != "" ==> drsId in visited && forall x, c :: x in visited && IsIn(res, c, x) ==> c in visited
      ensures drsId != "" ==> forall x :: x in visited && x != drsId ==> exists y :: y in visited && IsIn(res, x, y)
      ensures drsId != "" ==>
                forall y :: multiset(findings)[Unresolved(y)] ==
                  if Reachable(res, drsId, y) && res.lookup(y).LookupFailed? then 1 else 0
      ensures drsId == "" ==> order == [] && findings == [EmptyId] && updates == []
      ensures drsId != "" && Faithful(res) ==>
                && Reported(ids, owned, before)
                && (forall i :: 0 <= i < |updates| ==> updates[i].updated == res.update(updates[i].id))
                && Accounted(owned, before)
                && ((forall x :: x in visited ==> res.update(x)) ==> UpdatesOf(res, Left(res, before), order) == [])
    {
      assert Tells(res, [], {});
      ValidateRecursive(drsId, ids, owned, before);
      if drsId != "" {
        ClosedHoldsReachable(res, visited, drsId);
        forall x, c | x in visited && IsIn(res, c, x) ensures c in visited {
          ReachesIn(res, drsId, x, c);
        }
        forall x | x in visited && x != drsId ensures exists y :: y in visited && IsIn(res, x, y) {
          ReachedFrom(res, drsId, x);
        }
        if Faithful(res) {
          StatusTellsSuccess(res, before, order);
          ReportAccounts(ids, owned, before);
          if forall x :: x in visited ==> res.update(x) {
            forall i | 0 <= i < |order| ensures res.update(order[i]) {
              assert order[i] in Elems(order);
            }
            SecondRunUpdatesNothing(res, before, order);
          }
        }
      }
    }
  }
}
