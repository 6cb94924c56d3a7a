/** The manifest of a compound object, as the preflight predicts it from a collection tree and the
    runtime view builds it from tags. The key type is left generic. */
module Preflights {
  import opened Options
  import opened Text
  import opened Lists
  import opened Avus
  import opened Trees
  import opened Identities
  import opened Selections

  /** `CompoundManifestAVU`. */
  datatype ManifestAvu = ManifestAvu(attribute: string, value: string, unit: string)

  /** `CompoundManifestNode`. */
  datatype ManifestNode<K> = ManifestNode(
    path: K, relativePath: string, isDir: bool, drsID: string, alias: string, description: string,
    metadata: seq<ManifestAvu>, willAssignDrsID: bool, children: seq<ManifestNode<K>>)

  function NameText(name: Name): string {
    match name
    case ID => "iRODS:DRS:ID"
    case VERSION => "iRODS:DRS:VERSION"
    case MIME_TYPE => "iRODS:DRS:MIME_TYPE"
    case COMPOUND_MANIFEST => "iRODS:DRS:COMPOUND_MANIFEST"
    case ALIAS => "iRODS:DRS:ALIAS"
    case DESCRIPTION => "iRODS:DRS:DESCRIPTION"
    case Other(text) => text
  }

  function ShownAvu(a: Avu): ManifestAvu {
    ManifestAvu(TrimSpace(NameText(a.name)), TrimSpace(a.value), TrimSpace(a.units))
  }

  /** `nonDrsMetadataFromMetas`. */
  function ShownMetadata(metas: seq<Avu>): seq<ManifestAvu> {
    MapSeq(ShownAvu, NonDrs(metas))
  }

  /** An alias or description: the first with a value; failing that, for a collection, its path
      relative to the root, and "." for the root itself. */
  function Shown(metas: seq<Avu>, name: Name, isDir: bool, relative: string): string {
    var own := FirstValue(metas, name);
    if own != "" || !isDir then own
    else TrimSpace(if relative == "" then "." else relative)
  }

  /** A tree node's own part of its manifest node. */
  function ShownNode<K>(relative: K -> string, t: TreeAt<K>, children: seq<ManifestNode<K>>): ManifestNode<K> {
    var rel := relative(t.entry.path);
    ManifestNode(t.entry.path, rel, t.entry.isDir, DrsIdFromMetadata(t.metas),
                 Shown(t.metas, ALIAS, t.entry.isDir, rel), Shown(t.metas, DESCRIPTION, t.entry.isDir, rel),
                 ShownMetadata(t.metas), !t.entry.isDir && DrsIdFromMetadata(t.metas) == "", children)
  }

  /** `buildPreflightNode`. */
  function BuildPreflightNode<K(==)>(rules: Rules<K>, relative: K -> string, t: TreeAt<K>): Option<ManifestNode<K>>
    decreases t, 0
  {
    if rules.control(t.entry) || IsIgnored(rules, t.entry) then None
    else Some(ShownNode(relative, t, BuildPreflightNodes(rules, relative, t.children)))
  }

  /** The loop over the children. */
  function BuildPreflightNodes<K(==)>(rules: Rules<K>, relative: K -> string, ts: seq<TreeAt<K>>): seq<ManifestNode<K>>
    decreases ts, 1
  {
    if ts == [] then []
    else
      var first := BuildPreflightNode(rules, relative, ts[0]);
      (if first.Some? then [first.value] else []) + BuildPreflightNodes(rules, relative, ts[1..])
  }

  /** The nodes of a manifest, each before its descendants. */
  ghost function Members<K>(n: ManifestNode<K>): seq<ManifestNode<K>>
    decreases n, 0
  {
    [n] + MembersOf(n.children)
  }

  ghost function MembersOf<K>(ns: seq<ManifestNode<K>>): seq<ManifestNode<K>>
    decreases ns, 1
  {
    if ns == [] then [] else Members(ns[0]) + MembersOf(ns[1..])
  }

  ghost function MembersOfOption<K>(n: Option<ManifestNode<K>>): seq<ManifestNode<K>> {
    if n.Some? then Members(n.value) else []
  }

  /** One manifest node for each tree node, in the same order. */
  ghost predicate Mirrors<K>(relative: K -> string, members: seq<ManifestNode<K>>, nodes: seq<TreeAt<K>>) {
    && |members| == |nodes|
    && forall i :: 0 <= i < |nodes| ==> members[i] == ShownNode(relative, nodes[i], members[i].children)
  }

  lemma MirrorsAppend<K>(relative: K -> string, a: seq<ManifestNode<K>>, x: seq<TreeAt<K>>, b: seq<ManifestNode<K>>,
                         y: seq<TreeAt<K>>)
    requires Mirrors(relative, a, x) && Mirrors(relative, b, y)
    ensures Mirrors(relative, a + b, x + y)
  {
  }

  lemma {:induction false} MembersMirror<K>(rules: Rules<K>, relative: K -> string, t: TreeAt<K>)
    ensures Mirrors(relative, MembersOfOption(BuildPreflightNode(rules, relative, t)), Visible(Strict(rules), t))
    decreases t, 0
  {
    if !rules.control(t.entry) && !IsIgnored(rules, t.entry) {
      MembersOfMirror(rules, relative, t.children);
    }
  }

  lemma MembersOfCons<K>(first: Option<ManifestNode<K>>, rest: seq<ManifestNode<K>>)
    ensures MembersOf((if first.Some? then [first.value] else []) + rest) == MembersOfOption(first) + MembersOf(rest)
  {
    if first.Some? {
      assert ([first.value] + rest)[1..] == rest;
    } else {
      assert [] + rest == rest;
    }
  }

  lemma {:induction false} MembersOfMirror<K>(rules: Rules<K>, relative: K -> string, ts: seq<TreeAt<K>>)
    ensures Mirrors(relative, MembersOf(BuildPreflightNodes(rules, relative, ts)), VisibleAll(Strict(rules), ts))
    decreases ts, 1
  {
    if ts != [] {
      MembersMirror(rules, relative, ts[0]);
      MembersOfMirror(rules, relative, ts[1..]);
      var first := BuildPreflightNode(rules, relative, ts[0]);
      var rest := BuildPreflightNodes(rules, relative, ts[1..]);
      MirrorsAppend(relative, MembersOfOption(first), Visible(Strict(rules), ts[0]), MembersOf(rest),
                    VisibleAll(Strict(rules), ts[1..]));
      MembersOfCons(first, rest);
    }
  }

  /** There is a manifest exactly if the root is no control entry. */
  lemma RootIsShownIff<K>(rules: Rules<K>, relative: K -> string, t: TreeAt<K>)
    requires t.entry.path == rules.root
    ensures BuildPreflightNode(rules, relative, t).Some? <==> !rules.control(t.entry)
  {
  }

  // ---------------------------------------------------------------- what a node shows

  lemma {:induction false} FirstValueAppend(a: seq<Avu>, b: seq<Avu>, name: Name)
    ensures FirstValue(a + b, name) == if FirstValue(a, name) != "" then FirstValue(a, name) else FirstValue(b, name)
  {
    if a == [] {
      assert a + b == b;
    } else {
      assert (a + b)[1..] == a[1..] + b;
      FirstValueAppend(a[1..], b, name);
    }
  }

  lemma {:induction false} FirstValueNone(m: seq<Avu>, name: Name)
    requires forall i :: 0 <= i < |m| ==> m[i].name != name
    ensures FirstValue(m, name) == ""
  {
    if m != [] {
      FirstValueNone(m[1..], name);
    }
  }

  lemma {:induction false} FirstValueSkips(m: seq<Avu>, name: Name)
    requires !name.Other?
    ensures FirstValue(DrsOnly(m), name) == FirstValue(m, name)
  {
    if m != [] {
      FirstValueSkips(m[1..], name);
      if IsDrsMetadata(m[0]) {
        FilterCons(IsDrsMetadata, m[0], m[1..]);
        assert m == [m[0]] + m[1..] && DrsOnly(m)[1..] == DrsOnly(m[1..]);
      }
    }
  }

  lemma FirstOfOne(name: Name, value: string)
    requires Trimmed(value)
    ensures FirstValue(Optional(name, value), name) == value
  {
    UnitIsDrs(Avu(name, value, DRS_UNIT));
    TrimSpaceFixed(value);
    if value != "" {
      assert Optional(name, value)[1..] == [];
    }
  }

  lemma FirstOfAliases(aliases: seq<string>)
    requires AllNamed(aliases)
    ensures FirstValue(AliasAvus(aliases), ALIAS) == if aliases == [] then "" else aliases[0]
  {
    if aliases != [] {
      UnitIsDrs(AliasAvus(aliases)[0]);
      TrimSpaceFixed(aliases[0]);
    }
  }

  /** The alias and the description found in the triples printed for an object. */
  lemma FirstPrinted(o: Fields)
    requires TrimmedObject(o)
    ensures FirstValue(MetadataForObject(o), DESCRIPTION) == o.description
    ensures FirstValue(MetadataForObject(o), ALIAS) == if o.aliases == [] then "" else o.aliases[0]
  {
    var first := [Avu(ID, o.id, DRS_UNIT)] + Optional(VERSION, o.version) + Optional(MIME_TYPE, o.mimeType);
    var described, names, marker := Optional(DESCRIPTION, o.description), AliasAvus(o.aliases), PrintedMarker(o);
    NormalizedAliasesFixed(o.aliases);
    assert MetadataForObject(o) == first + described + names + marker;
    FirstValueNone(first, DESCRIPTION);
    FirstOfOne(DESCRIPTION, o.description);
    FirstValueNone(names, DESCRIPTION);
    FirstValueNone(marker, DESCRIPTION);
    FirstValueNone(first + described, ALIAS);
    FirstOfAliases(o.aliases);
    FirstValueNone(marker, ALIAS);
    AppendThree(first, described, names, marker, DESCRIPTION);
    AppendThree(first, described, names, marker, ALIAS);
    FirstValueAppend(first, described, ALIAS);
  }

  lemma AppendThree(a: seq<Avu>, b: seq<Avu>, c: seq<Avu>, d: seq<Avu>, name: Name)
    ensures FirstValue(a + b + c + d, name) ==
            if FirstValue(a, name) != "" then FirstValue(a, name)
            else if FirstValue(b, name) != "" then FirstValue(b, name)
            else if FirstValue(c, name) != "" then FirstValue(c, name) else FirstValue(d, name)
  {
    FirstValueAppend(a, b, name);
    FirstValueAppend(a + b, c, name);
    FirstValueAppend(a + b + c, d, name);
  }

  /** What stands in for a missing alias or description: for a collection its relative path, and "."
      for the root itself. */
  ghost function StandIn<K>(n: ManifestNode<K>): string {
    if !n.isDir then "" else if n.relativePath == "" then "." else TrimSpace(n.relativePath)
  }

  /** The node shows this object. */
  ghost predicate ShowsObject<K>(n: ManifestNode<K>, o: Fields) {
    && n.drsID == o.id && !n.willAssignDrsID
    && n.alias == (if o.aliases == [] then StandIn(n) else o.aliases[0])
    && n.description == (if o.description == "" then StandIn(n) else o.description)
  }

  /** The node shows something that is not a DRS object. */
  ghost predicate ShowsBare<K>(n: ManifestNode<K>) {
    && n.drsID == "" && (n.willAssignDrsID <==> !n.isDir)
    && n.alias == StandIn(n) && n.description == StandIn(n)
  }

  /** The node lists the triples that are not DRS metadata, trimmed. */
  ghost predicate ShowsTriples(shown: seq<ManifestAvu>, m: seq<Avu>) {
    && |shown| == |m|
    && forall i :: 0 <= i < |m| ==>
         && shown[i].attribute == TrimSpace(NameText(m[i].name))
         && shown[i].value == TrimSpace(m[i].value) && shown[i].unit == TrimSpace(m[i].units)
  }

  /** A node that was made from these triples. */
  ghost predicate ShowsWhatIsStored<K>(n: ManifestNode<K>, s: seq<Avu>) {
    && ShowsTriples(n.metadata, NonDrs(s))
    && (DrsOnly(s) == [] ==> ShowsBare(n))
    && forall o :: TrimmedObject(o) && DrsOnly(s) == MetadataForObject(o) ==> ShowsObject(n, o)
  }

  lemma VocabularySpelled()
    ensures NameText(ID) == "iRODS:DRS:ID" && NameText(VERSION) == "iRODS:DRS:VERSION"
    ensures NameText(MIME_TYPE) == "iRODS:DRS:MIME_TYPE" && NameText(COMPOUND_MANIFEST) == "iRODS:DRS:COMPOUND_MANIFEST"
    ensures NameText(ALIAS) == "iRODS:DRS:ALIAS" && NameText(DESCRIPTION) == "iRODS:DRS:DESCRIPTION"
  {
  }

  lemma DotIsTrimmed()
    ensures TrimSpace(".") == "."
  {
    TrimSpaceFixed(".");
  }

  lemma TagOfStored(s: seq<Avu>)
    ensures DrsOnly(s) == [] ==> Tag(s) == ""
    ensures forall o :: TrimmedObject(o) && DrsOnly(s) == MetadataForObject(o) ==> Tag(s) == o.id
  {
    FilterTwice(IsId, IsDrsMetadata, s);
    IdIsFirstId(s);
    forall o | TrimmedObject(o) && DrsOnly(s) == MetadataForObject(o) ensures Tag(s) == o.id {
      ScalarIdFirst(o);
      TrimSpaceFixed(o.id);
    }
  }

  lemma ScalarIdFirst(o: Fields)
    ensures Ids(MetadataForObject(o)) != [] && Ids(MetadataForObject(o))[0] == Avu(ID, o.id, DRS_UNIT)
  {
    var id, m := Avu(ID, o.id, DRS_UNIT), MetadataForObject(o);
    UnitIsDrs(id);
    assert m == [id] + m[1..];
    FilterCons(IsId, id, m[1..]);
  }

  /** Every node of a manifest shows what is stored at its path. */
  lemma NodeShowsStored<K>(relative: K -> string, t: TreeAt<K>, children: seq<ManifestNode<K>>)
    ensures var n := ShownNode(relative, t, children);
      && n.path == t.entry.path && n.isDir == t.entry.isDir && n.relativePath == relative(t.entry.path)
      && ShowsWhatIsStored(n, t.metas)
  {
    var n, s := ShownNode(relative, t, children), t.metas;
    DotIsTrimmed();
    TagOfStored(s);
    FirstValueSkips(s, ALIAS);
    FirstValueSkips(s, DESCRIPTION);
    forall o | TrimmedObject(o) && DrsOnly(s) == MetadataForObject(o) ensures ShowsObject(n, o) {
      FirstPrinted(o);
    }
  }

  // ---------------------------------------------------------------- the prediction

  function MemberPath<K>(n: ManifestNode<K>): K { n.path }

  function WillAssign<K>(n: ManifestNode<K>): bool { n.willAssignDrsID }

  predicate NeedsId<K>(t: TreeAt<K>) { !t.entry.isDir && Tag(t.metas) == "" }

  /** The data objects that the manifest says will be given an id. */
  ghost function Predicted<K>(n: Option<ManifestNode<K>>): seq<K> {
    MapSeq(MemberPath, Filter(WillAssign, MembersOfOption(n)))
  }

  /** The data objects that creation gives an id: selected, and without one. */
  ghost function ToBeAssigned<K>(rules: Rules<K>, t: TreeAt<K>): seq<K> {
    PathsOfTrees(Filter(NeedsId, ChosenData(rules, t)))
  }

  lemma {:induction false} PredictedMirror<K>(relative: K -> string, members: seq<ManifestNode<K>>,
                                              nodes: seq<TreeAt<K>>)
    requires Mirrors(relative, members, nodes)
    ensures MapSeq(MemberPath, Filter(WillAssign, members)) == PathsOfTrees(Filter(NeedsId, nodes))
  {
    if nodes != [] {
      PredictedMirror(relative, members[1..], nodes[1..]);
      assert members == [members[0]] + members[1..] && nodes == [nodes[0]] + nodes[1..];
      MapSeqCons(MemberPath, members[0], Filter(WillAssign, members[1..]));
      MapSeqCons(PathOfTree, nodes[0], Filter(NeedsId, nodes[1..]));
    }
  }

  /** What the preflight predicts will be assigned; all of what will be, if whatever lies under an
      ignored entry is ignored too. */
  lemma PredictionHolds<K>(rules: Rules<K>, relative: K -> string, t: TreeAt<K>)
    ensures var predicted := Predicted(BuildPreflightNode(rules, relative, t));
      && (forall q :: q in predicted ==> q in ToBeAssigned(rules, t))
      && (Closed(rules, Visible(rules, t)) ==> predicted == ToBeAssigned(rules, t))
  {
    var kept, chosen := Visible(Strict(rules), t), Filter(Choosing(rules), Visible(rules, t));
    MembersMirror(rules, relative, t);
    PredictedMirror(relative, MembersOfOption(BuildPreflightNode(rules, relative, t)), kept);
    PreflightIsSelectionIff(rules, t);
    FilterBoth(NeedsId, IsData, NeedsId, chosen);
    forall q | q in PathsOfTrees(Filter(NeedsId, kept)) ensures q in ToBeAssigned(rules, t) {
      PathStays(NeedsId, kept, chosen, q);
    }
  }

  lemma PathStays<K>(keep: TreeAt<K> -> bool, a: seq<TreeAt<K>>, b: seq<TreeAt<K>>, q: K)
    requires (forall n :: n in a ==> n in b) && q in PathsOfTrees(Filter(keep, a))
    ensures q in PathsOfTrees(Filter(keep, b))
  {
    var f, g := Filter(keep, a), Filter(keep, b);
    var i :| 0 <= i < |f| && PathsOfTrees(f)[i] == q;
    assert f[i] in f;
    FilterMembers(keep, a, f[i]);
    FilterMembers(keep, b, f[i]);
    var j :| 0 <= j < |g| && g[j] == f[i];
    assert PathsOfTrees(g)[j] == q;
  }
}
