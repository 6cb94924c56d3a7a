/** What holds in every state of a compound creation, and of any number of attempts at one, however
    the writes fail. The key type is left generic. */
module Retries {
  import opened Text
  import opened Lists
  import opened Avus
  import opened Catalogues
  import opened Spaces
  import opened Selections
  import opened Snapshots
  import opened Identities
  import opened Objects
  import opened Compounds
  import opened Preflights

  // ---------------------------------------------------------------- one data object

  function Valued(name: Name): Avu -> bool {
    (a: Avu) => Carries(a, name) && TrimSpace(a.value) != ""
  }

  ghost function Values(name: Name, s: seq<Avu>): nat { |Filter(Valued(name), s)| }

  /** From `s` on, a value is written once at most, and never next to one that a path with an id has
      got already. A path without an id has had nothing written at all. */
  ghost predicate WrittenOnce(name: Name, s: seq<Avu>, t: seq<Avu>) {
    && Values(name, t) <= Values(name, s) + 1
    && (Tag(s) != "" && Values(name, s) > 0 ==> Values(name, t) == Values(name, s))
    && (Tag(t) == "" ==> t == s)
  }

  lemma WrittenOnceThen(name: Name, s: seq<Avu>, t: seq<Avu>, u: seq<Avu>)
    requires WrittenOnce(name, s, t) && WrittenOnce(name, t, u) && s <= t
    ensures WrittenOnce(name, s, u)
  {
    if Values(name, t) == 0 {
      assert t == s + t[|s|..];
      FilterAppend(Valued(name), s, t[|s|..]);
    }
    if Tag(s) != "" {
      PrefixKeepsTag(s, t);
    }
  }

  lemma HasValueIff(s: seq<Avu>, name: Name)
    ensures HasValue(s, name) <==> Filter(Valued(name), s) != []
  {
    var f := Filter(Valued(name), s);
    if HasValue(s, name) {
      var i :| 0 <= i < |s| && Carries(s[i], name) && TrimSpace(s[i].value) != "";
      FilterMembers(Valued(name), s, s[i]);
    }
    if f != [] {
      assert f[0] in f;
      FilterMembers(Valued(name), s, f[0]);
    }
  }

  ghost predicate OnlyNamed(m: seq<Avu>, name: Name) {
    forall i :: 0 <= i < |m| ==> m[i].name == name
  }

  lemma ValuesIn(part: seq<Avu>, own: Name, name: Name)
    requires OnlyNamed(part, own)
    ensures |Filter(Valued(name), part)| <= if name == own then |part| else 0
  {
    if name != own {
      FilterNone(Valued(name), part);
    }
  }

  lemma PrintedOnce(o: Fields, name: Name)
    requires name == MIME_TYPE || name == VERSION
    ensures |Filter(Valued(name), MetadataForObject(o))| <= 1
  {
    var a, b := [Avu(ID, o.id, DRS_UNIT)], Optional(VERSION, o.version);
    var c, d := Optional(MIME_TYPE, o.mimeType), Optional(DESCRIPTION, o.description);
    var e, f := AliasAvus(NormalizedAliases(o.aliases)), PrintedMarker(o);
    ValuesIn(a, ID, name);
    ValuesIn(b, VERSION, name);
    ValuesIn(c, MIME_TYPE, name);
    ValuesIn(d, DESCRIPTION, name);
    ValuesIn(e, ALIAS, name);
    ValuesIn(f, COMPOUND_MANIFEST, name);
    FilterAppend(Valued(name), a, b);
    FilterAppend(Valued(name), a + b, c);
    FilterAppend(Valued(name), a + b + c, d);
    FilterAppend(Valued(name), a + b + c + d, e);
    FilterAppend(Valued(name), a + b + c + d + e, f);
  }

  lemma CompletionOnce<K>(env: Derived<K>, p: K, s: seq<Avu>, name: Name)
    requires name == MIME_TYPE || name == VERSION
    ensures |Filter(Valued(name), Completion(env, p, s))| <= 1
    ensures HasValue(s, name) ==> Filter(Valued(name), Completion(env, p, s)) == []
  {
    var a, b := Missing(s, MIME_TYPE, env.mime(p)), Missing(s, VERSION, env.checksum(p));
    ValuesIn(a, MIME_TYPE, name);
    ValuesIn(b, VERSION, name);
    FilterAppend(Valued(name), a, b);
  }

  lemma GrowthOnce(name: Name, s: seq<Avu>, more: seq<Avu>, t: seq<Avu>)
    requires GrowsInto(s, more, t) && Values(name, more) <= 1
    requires Tag(s) != "" && Values(name, s) > 0 ==> Values(name, more) == 0
    requires Tag(t) == "" ==> t == s
    ensures WrittenOnce(name, s, t)
  {
    var k := |t| - |s|;
    assert t == s + more[..k];
    FilterAppend(Valued(name), s, more[..k]);
    FilterPrefix(Valued(name), more, k);
  }

  /** What every stage of decorating an object keeps: what was there, the id if there was one, that no
      id is blank, and that no MIME type or version is written twice. */
  lemma StageKeeps<K(!new)>(env: Derived<K>, guid: nat -> string, spelling: K -> string, p: K, s: seq<Avu>, t: seq<Avu>)
    requires GoodSupply(guid, spelling) && NoBlankId(s) && NodeStage(env, guid, p, s, t)
    ensures s <= t && NoBlankId(t)
    ensures Tag(s) != "" ==> Tag(t) == Tag(s)
    ensures WrittenOnce(MIME_TYPE, s, t) && WrittenOnce(VERSION, s, t)
    ensures GrowsByDerived(env, guid, p, s, t)
  {
    StageIsDerived(env, guid, p, s, t);
    var n: nat :| GrowsInto(s, NodePlan(env, p, s, guid(n)), t);
    if Tag(s) == "" {
      var o := NewFields(env, p, "", "", [], guid(n));
      if t != s {
        FirstIsId(s, o, t);
      }
      PrintedOnce(o, MIME_TYPE);
      PrintedOnce(o, VERSION);
      GrowthOnce(MIME_TYPE, s, MetadataForObject(o), t);
      GrowthOnce(VERSION, s, MetadataForObject(o), t);
    } else {
      PrefixKeepsTag(s, t);
      KeepsValues(env, p, s, t, MIME_TYPE);
      KeepsValues(env, p, s, t, VERSION);
    }
  }

  lemma KeepsValues<K>(env: Derived<K>, p: K, s: seq<Avu>, t: seq<Avu>, name: Name)
    requires name == MIME_TYPE || name == VERSION
    requires Tag(t) != "" && GrowsInto(s, Completion(env, p, s), t)
    ensures WrittenOnce(name, s, t)
  {
    CompletionOnce(env, p, s, name);
    HasValueIff(s, name);
    GrowthOnce(name, s, Completion(env, p, s), t);
  }

  // ---------------------------------------------------------------- what is written

  /** The triples that creation writes on a data object: a new id, the checksum derived for it as its
      version, and the MIME type derived for it. */
  ghost predicate IsDerived<K(!new)>(env: Derived<K>, guid: nat -> string, p: K, a: Avu) {
    || (a == Avu(VERSION, env.checksum(p), DRS_UNIT) && env.checksum(p) != "")
    || (a == Avu(MIME_TYPE, env.mime(p), DRS_UNIT) && env.mime(p) != "")
    || exists n: nat :: a == Avu(ID, guid(n), DRS_UNIT)
  }

  /** Nothing but those has been appended. */
  ghost predicate GrowsByDerived<K(!new)>(env: Derived<K>, guid: nat -> string, p: K, s: seq<Avu>, t: seq<Avu>) {
    s <= t && forall i :: |s| <= i < |t| ==> IsDerived(env, guid, p, t[i])
  }

  lemma DerivedThen<K(!new)>(env: Derived<K>, guid: nat -> string, p: K, s: seq<Avu>, t: seq<Avu>, u: seq<Avu>)
    requires GrowsByDerived(env, guid, p, s, t) && GrowsByDerived(env, guid, p, t, u)
    ensures GrowsByDerived(env, guid, p, s, u)
  {
    forall i | |s| <= i < |u| ensures IsDerived(env, guid, p, u[i]) {
      assert i < |t| ==> u[i] == t[i];
    }
  }

  lemma DerivedUpto<K(!new)>(env: Derived<K>, guid: nat -> string, p: K, s: seq<Avu>, t: seq<Avu>, u: seq<Avu>)
    requires GrowsByDerived(env, guid, p, s, u) && s <= t && t <= u
    ensures GrowsByDerived(env, guid, p, s, t) && GrowsByDerived(env, guid, p, t, u)
  {
    forall i | |s| <= i < |t| ensures IsDerived(env, guid, p, t[i]) {
      assert t[i] == u[i];
    }
  }

  lemma PlanIsDerived<K(!new)>(env: Derived<K>, guid: nat -> string, p: K, s: seq<Avu>, n: nat)
    ensures forall a :: a in NodePlan(env, p, s, guid(n)) ==> IsDerived(env, guid, p, a)
  {
    if Tag(s) == "" {
      NewObjectPrints(env, p, guid(n));
    } else {
      TrimSpaceEmpty();
    }
  }

  lemma StageIsDerived<K(!new)>(env: Derived<K>, guid: nat -> string, p: K, s: seq<Avu>, t: seq<Avu>)
    requires NodeStage(env, guid, p, s, t)
    ensures GrowsByDerived(env, guid, p, s, t)
  {
    var n: nat :| GrowsInto(s, NodePlan(env, p, s, guid(n)), t);
    PlanIsDerived(env, guid, p, s, n);
    var plan := NodePlan(env, p, s, guid(n));
    forall i | |s| <= i < |t| ensures IsDerived(env, guid, p, t[i]) {
      assert t[i] == (s + plan)[i] == plan[i - |s|] && plan[i - |s|] in plan;
    }
  }

  /** A value is derived for an object, or is not, but it is never white space alone. */
  predicate NotBlankAlone(derived: string) {
    derived == "" || TrimSpace(derived) != ""
  }

  /** What a reader finds: the value derived for the object if it had none, and its own triples as they
      were if it had one and an id. */
  ghost predicate ReadsDerived(s: seq<Avu>, t: seq<Avu>, name: Name, derived: string)
    requires name == VERSION || name == MIME_TYPE
  {
    && (!HasValue(s, name) && TrimSpace(derived) != "" ==> FieldOf(Apply(NoFields, t), name) == TrimSpace(derived))
    && (HasValue(s, name) && Tag(s) != "" && NotBlankAlone(derived) ==>
          Filter(Carrying(name), t) == Filter(Carrying(name), s))
  }

  lemma AppendedOf<K(!new)>(env: Derived<K>, guid: nat -> string, p: K, s: seq<Avu>, t: seq<Avu>, name: Name,
                            derived: string, a: Avu)
    requires GrowsByDerived(env, guid, p, s, t) && a in t[|s|..] && Carries(a, name)
    requires (name == VERSION && derived == env.checksum(p)) || (name == MIME_TYPE && derived == env.mime(p))
    ensures a == Avu(name, derived, DRS_UNIT) && derived != ""
  {
    var i :| 0 <= i < |t[|s|..]| && t[|s|..][i] == a;
    assert IsDerived(env, guid, p, t[|s| + i]);
  }

  /** A decorated object reads as derived. */
  lemma DecoratedReads<K(!new)>(env: Derived<K>, guid: nat -> string, p: K, s: seq<Avu>, t: seq<Avu>, name: Name,
                                derived: string)
    requires GrowsByDerived(env, guid, p, s, t) && WrittenOnce(name, s, t)
    requires (name == VERSION && derived == env.checksum(p)) || (name == MIME_TYPE && derived == env.mime(p))
    requires TrimSpace(derived) != "" ==> HasValue(t, name)
    ensures ReadsDerived(s, t, name, derived)
  {
    var more := t[|s|..];
    var added := Filter(Carrying(name), more);
    assert t == s + more;
    FilterAppend(Carrying(name), s, more);
    forall a | a in added ensures a == Avu(name, derived, DRS_UNIT) && derived != "" {
      FilterMembers(Carrying(name), more, a);
      AppendedOf(env, guid, p, s, t, name, derived, a);
    }
    if !HasValue(s, name) && TrimSpace(derived) != "" {
      NewValueIsAppended(s, more, t, name);
      assert added[|added| - 1] in added;
      ApplyTakesLast(NoFields, t, name);
    }
    if HasValue(s, name) && Tag(s) != "" && NotBlankAlone(derived) {
      FilterAppend(Valued(name), s, more);
      HasValueIff(s, name);
      if added != [] {
        assert added[0] in added;
        FilterMembers(Carrying(name), more, added[0]);
        FilterMembers(Valued(name), more, added[0]);
      }
    }
  }

  /** A value that was not there has been appended. */
  lemma NewValueIsAppended(s: seq<Avu>, more: seq<Avu>, t: seq<Avu>, name: Name)
    requires t == s + more && !HasValue(s, name) && HasValue(t, name)
    ensures Filter(Carrying(name), more) != []
  {
    assert forall j :: 0 <= j < |s| ==> s[j] == t[j];
    var i :| 0 <= i < |t| && Carries(t[i], name) && TrimSpace(t[i].value) != "";
    assert more[i - |s|] == t[i];
    FilterMembers(Carrying(name), more, t[i]);
  }

  ghost predicate ReadsAsDerived<K>(env: Derived<K>, p: K, s: seq<Avu>, t: seq<Avu>) {
    && ReadsDerived(s, t, VERSION, env.checksum(p)) && ReadsDerived(s, t, MIME_TYPE, env.mime(p))
    && Filter(Carrying(DESCRIPTION), t) == Filter(Carrying(DESCRIPTION), s)
    && Filter(Carrying(ALIAS), t) == Filter(Carrying(ALIAS), s)
  }

  lemma SparesOthers<K(!new)>(env: Derived<K>, guid: nat -> string, p: K, s: seq<Avu>, t: seq<Avu>, name: Name)
    requires GrowsByDerived(env, guid, p, s, t) && (name == DESCRIPTION || name == ALIAS)
    ensures Filter(Carrying(name), t) == Filter(Carrying(name), s)
  {
    var more := t[|s|..];
    assert t == s + more;
    FilterAppend(Carrying(name), s, more);
    forall i | 0 <= i < |more| ensures !Carrying(name)(more[i]) {
      assert IsDerived(env, guid, p, t[|s| + i]);
    }
    FilterNone(Carrying(name), more);
  }

  lemma FullyDecoratedReads<K(!new)>(env: Derived<K>, guid: nat -> string, p: K, s: seq<Avu>, t: seq<Avu>)
    requires GrowsByDerived(env, guid, p, s, t) && FullyDecorated(env, p, t)
    requires WrittenOnce(MIME_TYPE, s, t) && WrittenOnce(VERSION, s, t)
    ensures ReadsAsDerived(env, p, s, t)
  {
    DecoratedReads(env, guid, p, s, t, VERSION, env.checksum(p));
    DecoratedReads(env, guid, p, s, t, MIME_TYPE, env.mime(p));
    SparesOthers(env, guid, p, s, t, DESCRIPTION);
    SparesOthers(env, guid, p, s, t, ALIAS);
  }

  /** An object in the state creation is after: it has an id, and whatever could be derived for it. */
  ghost predicate FullyDecorated<K>(env: Derived<K>, p: K, t: seq<Avu>) {
    && Tag(t) != ""
    && (TrimSpace(env.mime(p)) != "" ==> HasValue(t, MIME_TYPE))
    && (TrimSpace(env.checksum(p)) != "" ==> HasValue(t, VERSION))
  }

  lemma DoneIsDecorated<K(!new)>(env: Derived<K>, guid: nat -> string, spelling: K -> string, p: K, s: seq<Avu>,
                                 t: seq<Avu>)
    requires GoodSupply(guid, spelling) && NoBlankId(s) && NodeDone(env, guid, p, s, t)
    ensures FullyDecorated(env, p, t)
  {
    var n: nat :| t == s + NodePlan(env, p, s, guid(n));
    if Tag(s) == "" {
      PrintedIds(NewFields(env, p, "", "", [], guid(n)));
      FirstIsId(s, NewFields(env, p, "", "", [], guid(n)), t);
      CompletionAfterPrinting(env, p, s, guid(n));
      NothingMissing(env, p, t);
    } else {
      PrefixKeepsTag(s, t);
      MissingAdded(s, t, MIME_TYPE, env.mime(p), [], Missing(s, VERSION, env.checksum(p)));
      MissingAdded(s, t, VERSION, env.checksum(p), Missing(s, MIME_TYPE, env.mime(p)), []);
    }
  }

  /** Creation can finish with an object and leave it without an id, if the first of its id triples was
      blank to begin with, and only then. */
  lemma DoneIsTaggedIff<K(!new)>(env: Derived<K>, guid: nat -> string, spelling: K -> string, p: K, s: seq<Avu>,
                                 t: seq<Avu>)
    requires GoodSupply(guid, spelling) && NodeDone(env, guid, p, s, t)
    ensures Tag(t) != "" <==> NoBlankId(s)
  {
    if NoBlankId(s) {
      DoneIsDecorated(env, guid, spelling, p, s, t);
    } else {
      var n: nat :| t == s + NodePlan(env, p, s, guid(n));
      FilterAppend(IsId, s, NodePlan(env, p, s, guid(n)));
      IdIsFirstId(s);
      IdIsFirstId(t);
    }
  }

  /** A blank id triple: the object passes creation's guard and is given its whole plan, and its id is
      still blank. */
  lemma BlankIdStays<K(!new)>(env: Derived<K>, guid: nat -> string, p: K, spelling: string, n: nat)
    requires spelling != "" && spelling != "/"
    ensures var s := [Avu(ID, " ", DRS_UNIT)];
      var t := s + NodePlan(env, p, s, guid(n));
      && Distinct(s) && !NoBlankId(s) && !AlreadyDrs(s, spelling)
      && NodeDone(env, guid, p, s, t) && Tag(t) == ""
  {
    var a := Avu(ID, " ", DRS_UNIT);
    var s := [a];
    var t := s + NodePlan(env, p, s, guid(n));
    UnitIsDrs(a);
    BlankIsTrimmedAway();
    assert s[1..] == [] && s == [a] + [];
    assert Apply(NoFields, s) == ApplyOne(NoFields, a);
    FilterCons(IsId, a, []);
    FilterAppend(IsId, s, NodePlan(env, p, s, guid(n)));
    IdIsFirstId(s);
    IdIsFirstId(t);
    assert NodeDone(env, guid, p, s, t);
  }

  lemma BlankIsTrimmedAway()
    ensures TrimSpace(" ") == ""
  {
    assert " "[1..] == "";
    TrimSpaceFixed("");
  }

  lemma NothingMissing<K>(env: Derived<K>, p: K, t: seq<Avu>)
    requires Completion(env, p, t) == []
    ensures TrimSpace(env.mime(p)) != "" ==> HasValue(t, MIME_TYPE)
    ensures TrimSpace(env.checksum(p)) != "" ==> HasValue(t, VERSION)
  {
    assert Missing(t, MIME_TYPE, env.mime(p)) == [];
    assert Missing(t, VERSION, env.checksum(p)) == [];
  }

  lemma MissingAdded(s: seq<Avu>, t: seq<Avu>, name: Name, value: string, a: seq<Avu>, b: seq<Avu>)
    requires t == s + (a + Missing(s, name, value) + b)
    ensures TrimSpace(value) != "" ==> HasValue(t, name)
  {
    if TrimSpace(value) != "" {
      if HasValue(s, name) {
        var i :| 0 <= i < |s| && Carries(s[i], name) && TrimSpace(s[i].value) != "";
        assert t[i] == s[i];
      } else {
        assert t[|s| + |a|] == Avu(name, value, DRS_UNIT);
        ValueIn(t, name, value);
      }
    }
  }

  // ---------------------------------------------------------------- one attempt

  ghost predicate AllTagged<K(!new)>(x: Metas<K>, ps: seq<K>) {
    forall q :: q in ps ==> q in x && Tag(x[q]) != ""
  }

  ghost predicate AllDecorated<K(!new)>(env: Derived<K>, x: Metas<K>, ps: seq<K>) {
    forall q :: q in ps ==> q in x && FullyDecorated(env, q, x[q])
  }

  lemma DoneIsTagged<K(!new)>(env: Derived<K>, guid: nat -> string, spelling: K -> string, base: Metas<K>, x: Metas<K>,
                              ps: seq<K>)
    requires GoodSupply(guid, spelling) && NoBlankIds(base, ps) && NodesDone(env, guid, base, x, ps)
    ensures AllTagged(x, ps) && AllDecorated(env, x, ps)
  {
    forall q | q in ps ensures q in x && FullyDecorated(env, q, x[q]) {
      DoneIsDecorated(env, guid, spelling, q, base[q], x[q]);
    }
  }

  /** In no state of a creation does the root carry the compound marker while a selected data object is
      without an id, or without a value that could be derived for it. */
  lemma MarkerMeansIds<K(!new)>(env: Derived<K>, guid: nat -> string, spelling: K -> string, base: Metas<K>,
                                x: Metas<K>, m: Metas<K>, root: K, ps: seq<K>)
    requires GoodSupply(guid, spelling) && NoBlankIds(base, ps)
    requires DuringCreation(env, guid, base, x, m, root, ps) && !HasCompoundMarker(base[root])
    ensures HasCompoundMarker(x[root]) ==> AllTagged(x, ps) && AllDecorated(env, x, ps)
  {
    if HasCompoundMarker(x[root]) {
      DoneIsTagged(env, guid, spelling, base, x, ps);
    }
  }

  /** What is selected and lacks an id, told by the tree and by the paths. */
  lemma ToBeAssignedIff<K(!new)>(sp: Space<K>, rules: Rules<K>, base: Metas<K>, q: K)
    requires WellFormed(sp)
    ensures q in ToBeAssigned(rules, SnapshotOf(sp, base, rules.root)) <==>
              q in Chosen(sp, rules) && Tag(if q in base then base[q] else []) == ""
  {
    var nodes := ChosenData(rules, SnapshotOf(sp, base, rules.root));
    var untagged := (p: K) => !sp.isDir(p) && Tag(if p in base then base[p] else []) == "";
    ChosenIsSelected(sp, base, rules);
    forall i | 0 <= i < |nodes| ensures NeedsId(nodes[i]) == untagged(PathOfTree(nodes[i])) {
      assert nodes[i] == SnapshotOf(sp, base, nodes[i].entry.path);
    }
    MapFilter(PathOfTree, NeedsId, untagged, nodes);
    FilterMembers(untagged, Chosen(sp, rules), q);
    FilterMembers(Selects(sp, rules), Subtree(sp, rules.root), q);
  }

  /** Creation gives new ids to exactly the data objects that the tree says are to be assigned one. */
  lemma CreationAssigns<K(!new)>(env: Derived<K>, guid: nat -> string, spelling: K -> string, sp: Space<K>,
                                 rules: Rules<K>, base: Metas<K>, m: Metas<K>, id: string, errors: seq<K>, q: K)
    requires WellFormed(sp) && GoodSupply(guid, spelling) && NoBlankIds(base, Chosen(sp, rules))
    requires CreationOutcome(env, guid, base, m, rules.root, Chosen(sp, rules), id, errors)
    requires forall e :: e in errors ==> e == rules.root
    requires q in base && q != rules.root
    ensures q in m
    ensures Tag(base[q]) == "" && Tag(m[q]) != "" <==> q in ToBeAssigned(rules, SnapshotOf(sp, base, rules.root))
  {
    ToBeAssignedIff(sp, rules, base, q);
    DoneIsTagged(env, guid, spelling, base, m, Chosen(sp, rules));
    var m' := m[rules.root := base[rules.root]];
    assert m'.Keys == m.Keys && m'[q] == m[q];
  }

  // ---------------------------------------------------------------- any number of attempts

  /** A state `x` on the way from `base` to `m`, across attempts. */
  ghost predicate Underway<K(!new)>(env: Derived<K>, guid: nat -> string, base: Metas<K>, x: Metas<K>, m: Metas<K>,
                                    root: K, ps: seq<K>)
  {
    && x.Keys == base.Keys == m.Keys && root in base
    && (forall q :: q in x && q != root && q !in ps ==> x[q] == base[q])
    && (forall q :: q in x && q in ps ==>
          GrowsByDerived(env, guid, q, base[q], x[q]) && GrowsByDerived(env, guid, q, x[q], m[q]))
    && (HasCompoundMarker(x[root]) && !HasCompoundMarker(base[root]) ==> AllDecorated(env, x, ps))
  }

  ghost predicate AllUnderway<K(!new)>(env: Derived<K>, guid: nat -> string, h1: seq<Metas<K>>, h0: seq<Metas<K>>,
                                       base: Metas<K>, m: Metas<K>, root: K, ps: seq<K>)
  {
    && h0 <= h1
    && Underway(env, guid, base, m, m, root, ps)
    && forall i :: |h0| <= i < |h1| ==> Underway(env, guid, base, h1[i], m, root, ps)
  }

  ghost predicate AllWrittenOnce<K(!new)>(base: Metas<K>, m: Metas<K>, ps: seq<K>) {
    forall q :: q in ps && q in base && q in m ==>
      WrittenOnce(MIME_TYPE, base[q], m[q]) && WrittenOnce(VERSION, base[q], m[q])
  }

  lemma AttemptKeeps<K(!new)>(env: Derived<K>, guid: nat -> string, spelling: K -> string, base: Metas<K>, m: Metas<K>,
                              root: K, ps: seq<K>)
    requires GoodSupply(guid, spelling) && NoBlankIds(base, ps) && root in base && root in m && root !in ps
    requires NodesStage(env, guid, base, m[root := base[root]], ps)
    ensures m.Keys == base.Keys
    ensures forall q :: q in m && q != root && q !in ps ==> m[q] == base[q]
    ensures forall q :: q in ps ==> q in m && GrowsByDerived(env, guid, q, base[q], m[q])
    ensures NoBlankIds(m, ps) && AllWrittenOnce(base, m, ps)
  {
    var m' := m[root := base[root]];
    assert m'.Keys == m.Keys;
    forall q | q in ps
      ensures q in m && GrowsByDerived(env, guid, q, base[q], m[q]) && NoBlankId(m[q])
              && WrittenOnce(MIME_TYPE, base[q], m[q]) && WrittenOnce(VERSION, base[q], m[q])
    {
      assert q in m' && m'[q] == m[q];
      StageKeeps(env, guid, spelling, q, base[q], m[q]);
    }
    forall q | q in m && q != root && q !in ps ensures m[q] == base[q] {
      assert m'[q] == m[q];
    }
  }

  lemma WrittenOnceAcross<K(!new)>(base: Metas<K>, m1: Metas<K>, m: Metas<K>, ps: seq<K>)
    requires base.Keys == m1.Keys && forall q :: q in ps && q in base ==> base[q] <= m1[q]
    requires AllWrittenOnce(base, m1, ps) && AllWrittenOnce(m1, m, ps)
    ensures AllWrittenOnce(base, m, ps)
  {
    forall q | q in ps && q in base && q in m
      ensures WrittenOnce(MIME_TYPE, base[q], m[q]) && WrittenOnce(VERSION, base[q], m[q])
    {
      WrittenOnceThen(MIME_TYPE, base[q], m1[q], m[q]);
      WrittenOnceThen(VERSION, base[q], m1[q], m[q]);
    }
  }

  /** One more attempt, whatever became of it. */
  lemma OneMoreAttempt<K(!new)>(env: Derived<K>, guid: nat -> string, spelling: K -> string, h2: seq<Metas<K>>,
                                h1: seq<Metas<K>>, h0: seq<Metas<K>>, base: Metas<K>, m1: Metas<K>, m: Metas<K>,
                                root: K, ps: seq<K>, id: string, errors: seq<K>)
    requires GoodSupply(guid, spelling) && NoBlankIds(m1, ps) && root !in ps
    requires AllUnderway(env, guid, h1, h0, base, m1, root, ps)
    requires !HasCompoundMarker(m1[root])
    requires CreationOutcome(env, guid, m1, m, root, ps, id, errors)
    requires CreationHistory(env, guid, h2, h1, m1, m, root, ps)
    ensures AllUnderway(env, guid, h2, h0, base, m, root, ps) && NoBlankIds(m, ps)
    ensures Underway(env, guid, base, m1, m, root, ps)
    ensures AllWrittenOnce(base, m1, ps) ==> AllWrittenOnce(base, m, ps)
  {
    AttemptKeeps(env, guid, spelling, m1, m, root, ps);
    StillUnderway(env, guid, base, m1, m1, m, root, ps);
    forall i | |h0| <= i < |h2| ensures Underway(env, guid, base, h2[i], m, root, ps) {
      if i < |h1| {
        assert h2[i] == h1[i] && Underway(env, guid, base, h1[i], m1, root, ps);
        StillUnderway(env, guid, base, h1[i], m1, m, root, ps);
      } else {
        DuringIsUnderway(env, guid, spelling, base, m1, h2[i], m, root, ps);
      }
    }
    if HasCompoundMarker(m[root]) {
      MarkedIsDecorated(env, guid, spelling, m1, m, root, ps, id, errors);
    }
    if AllWrittenOnce(base, m1, ps) {
      WrittenOnceAcross(base, m1, m, ps);
    }
  }

  lemma MarkedIsDecorated<K(!new)>(env: Derived<K>, guid: nat -> string, spelling: K -> string, base: Metas<K>,
                                   m: Metas<K>, root: K, ps: seq<K>, id: string, errors: seq<K>)
    requires GoodSupply(guid, spelling) && NoBlankIds(base, ps)
    requires CreationOutcome(env, guid, base, m, root, ps, id, errors)
    requires !HasCompoundMarker(base[root]) && HasCompoundMarker(m[root])
    ensures AllDecorated(env, m, ps)
  {
    DoneIsTagged(env, guid, spelling, base, m, ps);
  }

  /** What was on the way to `m1` is on the way to what `m1` grows into. */
  lemma StillUnderway<K(!new)>(env: Derived<K>, guid: nat -> string, base: Metas<K>, x: Metas<K>, m1: Metas<K>,
                               m: Metas<K>, root: K, ps: seq<K>)
    requires Underway(env, guid, base, x, m1, root, ps) && m.Keys == m1.Keys
    requires forall q :: q in ps ==> q in m && q in m1 && GrowsByDerived(env, guid, q, m1[q], m[q])
    ensures Underway(env, guid, base, x, m, root, ps)
    ensures forall q :: q in base && q in ps && x == m1 ==> GrowsByDerived(env, guid, q, base[q], m[q])
  {
    forall q | q in x && q in ps
      ensures GrowsByDerived(env, guid, q, x[q], m[q]) && GrowsByDerived(env, guid, q, base[q], m[q])
    {
      DerivedThen(env, guid, q, x[q], m1[q], m[q]);
      DerivedThen(env, guid, q, base[q], x[q], m[q]);
    }
  }

  lemma DuringIsUnderway<K(!new)>(env: Derived<K>, guid: nat -> string, spelling: K -> string, base: Metas<K>,
                                  m1: Metas<K>, x: Metas<K>, m: Metas<K>, root: K, ps: seq<K>)
    requires GoodSupply(guid, spelling) && NoBlankIds(m1, ps) && root !in ps
    requires Underway(env, guid, base, m1, m1, root, ps) && !HasCompoundMarker(m1[root])
    requires forall q :: q in ps ==> q in m && q in m1 && GrowsByDerived(env, guid, q, m1[q], m[q])
    requires DuringCreation(env, guid, m1, x, m, root, ps)
    ensures Underway(env, guid, base, x, m, root, ps)
  {
    MarkerMeansIds(env, guid, spelling, m1, x, m, root, ps);
    var x', m' := x[root := m1[root]], m[root := m1[root]];
    assert x'.Keys == x.Keys && m'.Keys == m.Keys;
    forall q | q in x && q != root ensures x'[q] == x[q] && m'[q] == m[q] {
    }
    forall q | q in x && q in ps
      ensures GrowsByDerived(env, guid, q, base[q], x[q]) && GrowsByDerived(env, guid, q, x[q], m[q])
    {
      assert m1[q] <= x'[q] && x'[q] <= m'[q];
      DerivedUpto(env, guid, q, m1[q], x[q], m[q]);
      DerivedThen(env, guid, q, base[q], m1[q], x[q]);
    }
  }

  /** Creation touches no collection but the root. */
  lemma NestedStays<K(!new)>(env: Derived<K>, guid: nat -> string, sp: Space<K>, rules: Rules<K>, base: Metas<K>,
                             m: Metas<K>)
    requires WellFormed(sp) && Underway(env, guid, base, m, m, rules.root, Chosen(sp, rules))
    ensures Nested(sp, m, rules.root) <==> Nested(sp, base, rules.root)
  {
    forall q | q in m && q != rules.root && sp.isDir(q) ensures m[q] == base[q] {
      FilterMembers(Selects(sp, rules), Subtree(sp, rules.root), q);
    }
  }

  // ---------------------------------------------------------------- when an attempt gets there

  ghost predicate FullSuccess<K(!new)>(env: Derived<K>, m: Metas<K>, root: K, ps: seq<K>) {
    root in m && Tag(m[root]) != "" && HasCompoundMarker(m[root]) && AllDecorated(env, m, ps)
  }

  /** One attempt without failures from here ends in full success: if the marker is there already, the
      root must have its id; if not, every selected data object must be accepted. */
  ghost predicate Ready<K(!new)>(env: Derived<K>, spelling: K -> string, m: Metas<K>, root: K, ps: seq<K>) {
    root in m && if HasCompoundMarker(m[root]) then Tag(m[root]) != "" else AcceptsAll(env, m, spelling, ps)
  }

  ghost predicate NoneBlocked<K(!new)>(m: Metas<K>, spelling: K -> string, ps: seq<K>) {
    forall q :: q in ps ==> q in m && !Blocked(m[q], spelling(q))
  }

  /** The object lacks nothing that the next attempt would need: it was accepted at first, or it has got
      its id since. */
  ghost predicate ReadyFrom<K(!new)>(env: Derived<K>, spelling: K -> string, base: Metas<K>, m: Metas<K>, q: K) {
    q in base && q in m && (Accepts(env, q, base[q], spelling(q)) || Tag(m[q]) != "")
  }

  /** Whatever attempts have left of them, objects that were accepted at first are still accepted: where
      the id has not been written, nothing has. */
  lemma StaysAccepted<K(!new)>(env: Derived<K>, spelling: K -> string, base: Metas<K>, m: Metas<K>, ps: seq<K>)
    requires base.Keys == m.Keys && AllWrittenOnce(base, m, ps)
    ensures AcceptsAll(env, m, spelling, ps) <==> forall q :: q in ps ==> ReadyFrom(env, spelling, base, m, q)
    ensures AcceptsAll(env, base, spelling, ps) ==> AcceptsAll(env, m, spelling, ps)
  {
    forall q | q in ps && q in base && q in m
      ensures Accepts(env, q, m[q], spelling(q)) <==> ReadyFrom(env, spelling, base, m, q)
    {
      assert WrittenOnce(VERSION, base[q], m[q]);
    }
  }

  /** Once an attempt has met no failure, only objects that are blocked can keep the next from success. */
  lemma AttemptHeals<K(!new)>(env: Derived<K>, guid: nat -> string, spelling: K -> string, base: Metas<K>, m: Metas<K>,
                              root: K, ps: seq<K>, id: string, errors: seq<K>)
    requires GoodSupply(guid, spelling) && NoBlankIds(base, ps) && root !in ps
    requires CreationOutcome(env, guid, base, m, root, ps, id, errors) && !HasCompoundMarker(base[root])
    requires NodesAttempted(env, spelling, base, m, ps, errors)
    ensures Ready(env, spelling, m, root, ps) <==> NoneBlocked(base, spelling, ps)
    ensures NoneBlocked(m, spelling, ps) <==> NoneBlocked(base, spelling, ps)
  {
    AttemptKeeps(env, guid, spelling, base, m, root, ps);
    forall q | q in ps
      ensures Blocked(m[q], spelling(q)) <==> Blocked(base[q], spelling(q))
      ensures Blocked(m[q], spelling(q)) <==> Tag(m[q]) == ""
    {
      assert WrittenOnce(VERSION, base[q], m[q]);
      assert Attempted(env, q, base[q], m[q], spelling(q), q !in errors);
    }
    if HasCompoundMarker(m[root]) {
      MarkedIsDecorated(env, guid, spelling, base, m, root, ps, id, errors);
    }
  }

  lemma SuccessIff<K(!new)>(env: Derived<K>, guid: nat -> string, spelling: K -> string, base: Metas<K>, m: Metas<K>,
                            root: K, ps: seq<K>, id: string, errors: seq<K>)
    requires GoodSupply(guid, spelling) && NoBlankIds(base, ps) && root !in ps
    requires CreationOutcome(env, guid, base, m, root, ps, id, errors) && !HasCompoundMarker(base[root])
    requires errors == [] <==> AcceptsAll(env, base, spelling, ps)
    requires forall e :: e in errors ==> e in ps
    ensures FullSuccess(env, m, root, ps) <==> Ready(env, spelling, base, root, ps)
    ensures errors == [] ==> Tag(m[root]) == id
  {
    if errors == [] {
      DoneIsTagged(env, guid, spelling, base, m, ps);
    } else {
      assert errors[0] in errors && errors[0] != root;
    }
  }

  /** One attempt, in the middle of a series that began with `base` and `h0`. */
  method Attempt<K(==,!new)>(c: Catalogue<K>, env: Derived<K>, sp: Space<K>, rules: Rules<K>, ghost base: Metas<K>,
                             ghost h0: seq<Metas<K>>)
    returns (r: Outcome<K>)
    requires c.Valid() && WellFormed(sp) && GoodSupply(c.guid, c.spelling)
    requires forall q :: q in Subtree(sp, rules.root) ==> q in c.metas
    requires sp.isDir(rules.root) && c.spelling(rules.root) != "/" && !Nested(sp, base, rules.root)
    requires rules.root in base && !HasCompoundMarker(base[rules.root])
    requires AllUnderway(env, c.guid, c.history, h0, base, c.metas, rules.root, Chosen(sp, rules))
    requires NoBlankIds(c.metas, Chosen(sp, rules)) && AllWrittenOnce(base, c.metas, Chosen(sp, rules))
    modifies c
    ensures c.Valid() && c.metas.Keys == old(c.metas).Keys && c.failures >= old(c.failures)
    ensures AllUnderway(env, c.guid, c.history, h0, base, c.metas, rules.root, Chosen(sp, rules))
    ensures Underway(env, c.guid, base, old(c.metas), c.metas, rules.root, Chosen(sp, rules))
    ensures NoBlankIds(c.metas, Chosen(sp, rules)) && AllWrittenOnce(base, c.metas, Chosen(sp, rules))
    ensures old(HasCompoundMarker(c.metas[rules.root])) ==> !r.Finished? && c.metas == old(c.metas)
    ensures c.failures == old(c.failures) ==>
              && (FullSuccess(env, c.metas, rules.root, Chosen(sp, rules)) <==>
                    old(Ready(env, c.spelling, c.metas, rules.root, Chosen(sp, rules))))
              && (r.Finished? <==> !old(HasCompoundMarker(c.metas[rules.root])))
              && (r.Finished? && r.nodeErrors == [] ==> Tag(c.metas[rules.root]) == r.id)
              && (r.Finished? ==>
                    (r.nodeErrors == [] <==> old(AcceptsAll(env, c.metas, c.spelling, Chosen(sp, rules)))))
              && (r.Finished? ==>
                    && (Ready(env, c.spelling, c.metas, rules.root, Chosen(sp, rules)) <==>
                          old(NoneBlocked(c.metas, c.spelling, Chosen(sp, rules))))
                    && (NoneBlocked(c.metas, c.spelling, Chosen(sp, rules)) <==>
                          old(NoneBlocked(c.metas, c.spelling, Chosen(sp, rules)))))
    ensures old(Kept(c)) ==> Kept(c)
  {
    ghost var m1, h1, ps := c.metas, c.history, Chosen(sp, rules);
    assert rules.root in Subtree(sp, rules.root);
    RootNotChosen(sp, rules);
    NestedStays(env, c.guid, sp, rules, base, m1);
    r := CreateCompound(c, env, sp, rules);
    if r.Finished? {
      OneMoreAttempt(env, c.guid, c.spelling, c.history, h1, h0, base, m1, c.metas, rules.root, ps, r.id, r.nodeErrors);
      if c.failures == old(c.failures) {
        SuccessIff(env, c.guid, c.spelling, m1, c.metas, rules.root, ps, r.id, r.nodeErrors);
        AttemptHeals(env, c.guid, c.spelling, m1, c.metas, rules.root, ps, r.id, r.nodeErrors);
      }
    }
  }

  /** No id once assigned is lost or changes. */
  ghost predicate IdsStay<K(!new)>(h1: seq<Metas<K>>, h0: seq<Metas<K>>, base: Metas<K>, m: Metas<K>, ps: seq<K>) {
    && |h0| <= |h1|
    && KeepsIds(base, m, ps)
    && forall i :: |h0| <= i < |h1| ==> KeepsIds(base, h1[i], ps) && KeepsIds(h1[i], m, ps)
  }

  ghost predicate KeepsIds<K(!new)>(x: Metas<K>, y: Metas<K>, ps: seq<K>) {
    forall q :: q in ps && q in x && Tag(x[q]) != "" ==> q in y && Tag(y[q]) == Tag(x[q])
  }

  lemma GrowthKeepsIds<K(!new)>(x: Metas<K>, y: Metas<K>, ps: seq<K>)
    requires x.Keys == y.Keys && forall q :: q in ps && q in x ==> x[q] <= y[q]
    ensures KeepsIds(x, y, ps)
  {
    forall q | q in ps && q in x && Tag(x[q]) != "" ensures Tag(y[q]) == Tag(x[q]) {
      PrefixKeepsTag(x[q], y[q]);
    }
  }

  lemma UnderwayKeepsIds<K(!new)>(env: Derived<K>, guid: nat -> string, h1: seq<Metas<K>>, h0: seq<Metas<K>>,
                                  base: Metas<K>, m: Metas<K>, root: K, ps: seq<K>)
    requires AllUnderway(env, guid, h1, h0, base, m, root, ps)
    ensures IdsStay(h1, h0, base, m, ps)
  {
    GrowthKeepsIds(base, m, ps);
    forall i | |h0| <= i < |h1| ensures KeepsIds(base, h1[i], ps) && KeepsIds(h1[i], m, ps) {
      assert Underway(env, guid, base, h1[i], m, root, ps);
      GrowthKeepsIds(base, h1[i], ps);
      GrowthKeepsIds(h1[i], m, ps);
    }
  }

  /** Any number of attempts, with any failures, and then one more; `last` and `before` are the
      catalogue and its failures when that one begins. No id once assigned changes in any state, and no
      MIME type or version is written twice; what is written is what was derived. If nothing fails in the
      last attempt, and creation accepted every object at first, it ends in full success, however the
      others failed, unless one of them got the marker written and left the root without an id. Objects
      not accepted at first keep it from success exactly if they have not got an id from an earlier
      attempt. And if nothing ever fails, two attempts are enough unless some object is blocked. */
  method Retry<K(==,!new)>(c: Catalogue<K>, env: Derived<K>, sp: Space<K>, rules: Rules<K>, attempts: nat)
    returns (r: Outcome<K>, ghost last: Metas<K>, ghost before: nat)
    requires c.Valid() && WellFormed(sp) && GoodSupply(c.guid, c.spelling)
    requires forall q :: q in Subtree(sp, rules.root) ==> q in c.metas
    requires MayStart(c, sp, rules.root) && NoBlankIds(c.metas, Chosen(sp, rules))
    modifies c
    ensures AllUnderway(env, c.guid, c.history, old(c.history), old(c.metas), c.metas, rules.root, Chosen(sp, rules))
    ensures IdsStay(c.history, old(c.history), old(c.metas), c.metas, Chosen(sp, rules))
    ensures AllWrittenOnce(old(c.metas), c.metas, Chosen(sp, rules))
    ensures FullSuccess(env, c.metas, rules.root, Chosen(sp, rules)) ==>
              forall q :: q in Chosen(sp, rules) ==>
                q in c.metas && q in old(c.metas) && ReadsAsDerived(env, q, old(c.metas)[q], c.metas[q])
    ensures old(c.failures) <= before <= c.failures
    ensures Underway(env, c.guid, old(c.metas), last, c.metas, rules.root, Chosen(sp, rules))
    ensures AllWrittenOnce(old(c.metas), last, Chosen(sp, rules))
    ensures HasCompoundMarker(last[rules.root]) ==> !r.Finished? && c.metas == last
    ensures c.failures == before ==>
              && (r.Finished? <==> !HasCompoundMarker(last[rules.root]))
              && (FullSuccess(env, c.metas, rules.root, Chosen(sp, rules)) <==>
                    if HasCompoundMarker(last[rules.root]) then Tag(last[rules.root]) != ""
                    else forall q :: q in Chosen(sp, rules) ==> ReadyFrom(env, c.spelling, old(c.metas), last, q))
    ensures c.failures == before && old(AcceptsAll(env, c.metas, c.spelling, Chosen(sp, rules))) ==>
              (FullSuccess(env, c.metas, rules.root, Chosen(sp, rules)) <==>
                 !(HasCompoundMarker(last[rules.root]) && Tag(last[rules.root]) == ""))
    ensures c.failures == old(c.failures) ==>
              (FullSuccess(env, c.metas, rules.root, Chosen(sp, rules)) <==>
                 if attempts == 0 then old(AcceptsAll(env, c.metas, c.spelling, Chosen(sp, rules)))
                 else old(NoneBlocked(c.metas, c.spelling, Chosen(sp, rules))))
    ensures old(Kept(c)) ==> Kept(c)
  {
    ghost var base, h0, ps := c.metas, c.history, Chosen(sp, rules);
    for i := 0 to attempts
      invariant c.Valid() && c.metas.Keys == base.Keys && c.failures >= old(c.failures)
      invariant AllUnderway(env, c.guid, c.history, h0, base, c.metas, rules.root, ps)
      invariant NoBlankIds(c.metas, ps) && AllWrittenOnce(base, c.metas, ps)
      invariant c.failures == old(c.failures) ==> Progress(env, c.spelling, base, c.metas, rules.root, ps, i)
      invariant old(Kept(c)) ==> Kept(c)
    {
      r := Attempt(c, env, sp, rules, base, h0);
    }
    last, before := c.metas, c.failures;
    StaysAccepted(env, c.spelling, base, last, ps);
    r := Attempt(c, env, sp, rules, base, h0);
    UnderwayKeepsIds(env, c.guid, c.history, h0, base, c.metas, rules.root, ps);
    if FullSuccess(env, c.metas, rules.root, ps) {
      SuccessReads(env, c.guid, base, c.metas, rules.root, ps);
    }
  }

  /** What full success means to a reader: values that objects lacked are those derived for them. */
  lemma SuccessReads<K(!new)>(env: Derived<K>, guid: nat -> string, base: Metas<K>, m: Metas<K>, root: K, ps: seq<K>)
    requires Underway(env, guid, base, m, m, root, ps) && AllWrittenOnce(base, m, ps) && FullSuccess(env, m, root, ps)
    ensures forall q :: q in ps ==> q in m && q in base && ReadsAsDerived(env, q, base[q], m[q])
  {
    forall q | q in ps ensures q in m && q in base && ReadsAsDerived(env, q, base[q], m[q]) {
      assert q in m && FullyDecorated(env, q, m[q]);
      FullyDecoratedReads(env, guid, q, base[q], m[q]);
    }
  }

  /** Where a series stands after some attempts without failures. */
  ghost predicate Progress<K(!new)>(env: Derived<K>, spelling: K -> string, base: Metas<K>, m: Metas<K>, root: K,
                                    ps: seq<K>, done: nat)
  {
    if done == 0 then m == base
    else
      && (Ready(env, spelling, m, root, ps) <==> NoneBlocked(base, spelling, ps))
      && (NoneBlocked(m, spelling, ps) <==> NoneBlocked(base, spelling, ps))
  }
}
