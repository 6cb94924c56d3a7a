/** Metadata triples: which of them are DRS metadata, what the readers make of them, and how a DRS
    object is printed as triples and read back. */
module Avus {
  import opened Text
  import opened Lists

  const DRS_UNIT := "iRODS:DRS"

  /** Attribute names: the six of the DRS vocabulary ("iRODS:DRS:ID", "iRODS:DRS:VERSION",
      "iRODS:DRS:MIME_TYPE", "iRODS:DRS:COMPOUND_MANIFEST", "iRODS:DRS:ALIAS",
      "iRODS:DRS:DESCRIPTION") and any other string. */
  datatype Name = ID | VERSION | MIME_TYPE | COMPOUND_MANIFEST | ALIAS | DESCRIPTION | Other(name: string)

  datatype Avu = Avu(name: Name, value: string, units: string)

  predicate HasDrsUnit(a: Avu) {
    a.units == "" || EqualFold(a.units, DRS_UNIT)
  }

  /** `isDrsMetadata`. */
  predicate IsDrsMetadata(a: Avu) {
    !a.name.Other? && HasDrsUnit(a)
  }

  /** The vocabulary counts in its own unit, in any case, or in none; nothing else does. */
  lemma DrsExamples(name: Name, value: string, text: string)
    requires !name.Other?
    ensures IsDrsMetadata(Avu(name, value, "")) && IsDrsMetadata(Avu(name, value, "irods:drs"))
    ensures !IsDrsMetadata(Avu(name, value, "iRODS")) && !IsDrsMetadata(Avu(name, value, "iRODS:DRX"))
    ensures !IsDrsMetadata(Avu(Other(text), value, DRS_UNIT))
  {
    assert "iRODS:DRX"[8] != DRS_UNIT[8];
  }

  /** The test of every loop that looks for one DRS attribute. */
  predicate Carries(a: Avu, name: Name) {
    a.name == name && HasDrsUnit(a)
  }

  predicate IsId(a: Avu) { Carries(a, ID) }

  function Carrying(name: Name): Avu -> bool { (a: Avu) => Carries(a, name) }

  function DrsOnly(metas: seq<Avu>): seq<Avu> { Filter(IsDrsMetadata, metas) }

  function NonDrs(metas: seq<Avu>): seq<Avu> { Filter((a: Avu) => !IsDrsMetadata(a), metas) }

  function Ids(metas: seq<Avu>): seq<Avu> { Filter(IsId, metas) }

  // ---------------------------------------------------------------- readers

  /** `drsIDFromMetadata`: the first DRS id triple decides. */
  function DrsIdFromMetadata(metas: seq<Avu>): string {
    if metas == [] then ""
    else if IsId(metas[0]) then TrimSpace(metas[0].value)
    else DrsIdFromMetadata(metas[1..])
  }

  /** `collectionHasCompoundMarker`. */
  predicate HasCompoundMarker(metas: seq<Avu>) {
    exists i :: 0 <= i < |metas| && Carries(metas[i], COMPOUND_MANIFEST)
  }

  /** `hasDrsMetadataWithValue`. */
  predicate HasValue(metas: seq<Avu>, name: Name) {
    exists i :: 0 <= i < |metas| && Carries(metas[i], name) && TrimSpace(metas[i].value) != ""
  }

  /** `aliasFromMetadata` and `descriptionFromMetadata`: the first triple with a value. */
  function FirstValue(metas: seq<Avu>, name: Name): string {
    if metas == [] then ""
    else if Carries(metas[0], name) && TrimSpace(metas[0].value) != "" then TrimSpace(metas[0].value)
    else FirstValue(metas[1..], name)
  }

  /** `hasMatchingDrsIDMetadata`. */
  predicate HasMatchingId(metas: seq<Avu>, id: string) {
    exists i :: 0 <= i < |metas| && IsId(metas[i]) && TrimSpace(metas[i].value) == id
  }

  lemma {:induction false} IdIsFirstId(metas: seq<Avu>)
    ensures DrsIdFromMetadata(metas) ==
            if Ids(metas) == [] then "" else TrimSpace(Ids(metas)[0].value)
  {
    if metas != [] && !IsId(metas[0]) {
      IdIsFirstId(metas[1..]);
    }
  }

  // ---------------------------------------------------------------- printing and reading objects

  /** The fields of an `InternalDrsObject` that its triples describe. */
  datatype Fields = Fields(
    id: string, version: string, mimeType: string, description: string, aliases: seq<string>, isManifest: bool)

  const NoFields := Fields("", "", "", "", [], false)

  /** One turn of the loop of `ApplyDrsMetadata`. */
  function ApplyOne(o: Fields, a: Avu): Fields {
    if HasDrsUnit(a) then Assign(o, a.name, TrimSpace(a.value)) else o
  }

  function Assign(o: Fields, name: Name, value: string): Fields {
    match name
    case ID => o.(id := value)
    case VERSION => o.(version := value)
    case MIME_TYPE => o.(mimeType := value)
    case DESCRIPTION => o.(description := value)
    case ALIAS => if value != "" then o.(aliases := o.aliases + [value]) else o
    case COMPOUND_MANIFEST => o.(isManifest := true)
    case Other(_) => o
  }

  function Apply(o: Fields, metas: seq<Avu>): Fields
    decreases |metas|
  {
    if metas == [] then o else Apply(ApplyOne(o, metas[0]), metas[1..])
  }

  predicate AllNamed(aliases: seq<string>) {
    forall i :: 0 <= i < |aliases| ==> aliases[i] != "" && Trimmed(aliases[i])
  }

  /** `normalizedAliases`: trim, drop blanks, keep order and duplicates. */
  function NormalizedAliases(aliases: seq<string>): (r: seq<string>)
    ensures AllNamed(r)
  {
    if aliases == [] then []
    else
      var trimmed := TrimSpace(aliases[0]);
      TrimSpaceTrims(aliases[0]);
      if trimmed != "" then [trimmed] + NormalizedAliases(aliases[1..]) else NormalizedAliases(aliases[1..])
  }

  function Trim(): string -> string { (alias: string) => TrimSpace(alias) }

  function NotBlank(): string -> bool { (alias: string) => alias != "" }

  /** Every alias that is not blank is kept, trimmed and in its place. */
  lemma {:induction false} AliasesKept(aliases: seq<string>)
    ensures NormalizedAliases(aliases) == Filter(NotBlank(), MapSeq(Trim(), aliases))
  {
    if aliases != [] {
      AliasesKept(aliases[1..]);
      assert MapSeq(Trim(), aliases)[1..] == MapSeq(Trim(), aliases[1..]);
    }
  }

  function Optional(name: Name, value: string): seq<Avu> {
    if value == "" then [] else [Avu(name, value, DRS_UNIT)]
  }

  function AliasAvus(aliases: seq<string>): (r: seq<Avu>)
    ensures |r| == |aliases|
    ensures forall i :: 0 <= i < |r| ==> r[i] == Avu(ALIAS, aliases[i], DRS_UNIT)
  {
    seq(|aliases|, i requires 0 <= i < |aliases| => Avu(ALIAS, aliases[i], DRS_UNIT))
  }

  function PrintedScalars(o: Fields): seq<Avu> {
    [Avu(ID, o.id, DRS_UNIT)] + Optional(VERSION, o.version) + Optional(MIME_TYPE, o.mimeType)
    + Optional(DESCRIPTION, o.description)
  }

  function PrintedMarker(o: Fields): seq<Avu> {
    if o.isManifest then [Avu(COMPOUND_MANIFEST, "true", DRS_UNIT)] else []
  }

  /** `metadataForObject`. */
  function MetadataForObject(o: Fields): seq<Avu> {
    PrintedScalars(o) + AliasAvus(NormalizedAliases(o.aliases)) + PrintedMarker(o)
  }

  lemma {:induction false} ApplyAppend(o: Fields, a: seq<Avu>, b: seq<Avu>)
    ensures Apply(o, a + b) == Apply(Apply(o, a), b)
    decreases |a|
  {
    if a == [] {
      assert a + b == b;
    } else {
      assert (a + b)[1..] == a[1..] + b;
      ApplyAppend(ApplyOne(o, a[0]), a[1..], b);
    }
  }

  /** Reading skips exactly the triples that `isDrsMetadata` rejects. */
  lemma {:induction false} ApplySkipsOthers(o: Fields, metas: seq<Avu>)
    ensures Apply(o, metas) == Apply(o, DrsOnly(metas))
    decreases |metas|
  {
    if metas != [] {
      ApplySkipsOthers(ApplyOne(o, metas[0]), metas[1..]);
    }
  }

  lemma ApplyOneId(o: Fields, a: Avu)
    ensures ApplyOne(o, a).id == if IsId(a) then TrimSpace(a.value) else o.id
  {
  }

  function TrimmedValue(a: Avu): string { TrimSpace(a.value) }

  /** The value of the last id triple, if there is one. */
  function LastId(metas: seq<Avu>, otherwise: string): string {
    LastBy(IsId, TrimmedValue, metas, otherwise)
  }

  /** Reading takes the last id, where `drsIDFromMetadata` takes the first. */
  lemma {:induction false} ApplyNamesLastId(o: Fields, metas: seq<Avu>)
    ensures Apply(o, metas).id == LastId(metas, o.id)
    decreases |metas|
  {
    if metas != [] {
      ApplyOneId(o, metas[0]);
      ApplyNamesLastId(ApplyOne(o, metas[0]), metas[1..]);
      LastByStep(IsId, TrimmedValue, metas[0], metas[1..], o.id);
      assert metas == [metas[0]] + metas[1..];
    }
  }

  lemma LastIdMatches(metas: seq<Avu>)
    requires LastId(metas, "") != ""
    ensures HasMatchingId(metas, LastId(metas, ""))
  {
    var ids := Filter(IsId, metas);
    var last := ids[|ids| - 1];
    FilterMembers(IsId, metas, last);
    var i :| 0 <= i < |metas| && metas[i] == last;
    assert IsId(metas[i]) && TrimSpace(metas[i].value) == LastId(metas, "");
  }

  lemma {:induction false} ApplyMarks(o: Fields, m: seq<Avu>)
    ensures Apply(o, m).isManifest <==> o.isManifest || HasCompoundMarker(m)
    decreases |m|
  {
    if m != [] {
      ApplyMarks(ApplyOne(o, m[0]), m[1..]);
      assert HasCompoundMarker(m) <==> Carries(m[0], COMPOUND_MANIFEST) || HasCompoundMarker(m[1..]) by {
        if HasCompoundMarker(m[1..]) {
          var i :| 0 <= i < |m[1..]| && Carries(m[1..][i], COMPOUND_MANIFEST);
          assert m[i + 1] == m[1..][i];
        }
        if HasCompoundMarker(m) && !Carries(m[0], COMPOUND_MANIFEST) {
          var i :| 0 <= i < |m| && Carries(m[i], COMPOUND_MANIFEST);
          assert m[1..][i - 1] == m[i];
        }
      }
    }
  }

  /** The field that a scalar attribute is read into. */
  function FieldOf(o: Fields, name: Name): string
    requires name in {ID, VERSION, MIME_TYPE, DESCRIPTION}
  {
    match name
    case ID => o.id
    case VERSION => o.version
    case MIME_TYPE => o.mimeType
    case _ => o.description
  }

  /** Of each scalar attribute, reading takes the last triple. */
  lemma {:induction false} ApplyTakesLast(o: Fields, metas: seq<Avu>, name: Name)
    requires name in {ID, VERSION, MIME_TYPE, DESCRIPTION}
    ensures FieldOf(Apply(o, metas), name) == LastBy(Carrying(name), TrimmedValue, metas, FieldOf(o, name))
    decreases |metas|
  {
    if metas != [] {
      ApplyTakesLast(ApplyOne(o, metas[0]), metas[1..], name);
      LastByStep(Carrying(name), TrimmedValue, metas[0], metas[1..], FieldOf(o, name));
      assert metas == [metas[0]] + metas[1..];
    }
  }

  lemma OnlyId(metas: seq<Avu>, i: nat)
    requires |Ids(metas)| == 1 && i < |metas| && IsId(metas[i])
    ensures Ids(metas) == [metas[i]]
  {
    FilterMembers(IsId, metas, metas[i]);
    assert metas[i] in Ids(metas);
  }

  lemma UnitIsDrs(a: Avu)
    requires a.units == DRS_UNIT
    ensures HasDrsUnit(a)
  {
  }

  lemma {:induction false} ApplyAliases(o: Fields, aliases: seq<string>)
    requires AllNamed(aliases)
    ensures Apply(o, AliasAvus(aliases)) == o.(aliases := o.aliases + aliases)
    decreases |aliases|
  {
    var m := AliasAvus(aliases);
    if aliases == [] {
      assert o.aliases + aliases == o.aliases;
    } else {
      UnitIsDrs(m[0]);
      var o1 := ApplyOne(o, m[0]);
      assert o1 == o.(aliases := o.aliases + [aliases[0]]);
      assert m[1..] == AliasAvus(aliases[1..]);
      ApplyAliases(o1, aliases[1..]);
      assert o.aliases + aliases == o1.aliases + aliases[1..];
    }
  }

  function TrimmedFields(o: Fields): Fields {
    Fields(TrimSpace(o.id), TrimSpace(o.version), TrimSpace(o.mimeType), TrimSpace(o.description),
           NormalizedAliases(o.aliases), o.isManifest)
  }

  lemma ApplyPrinted(o: Fields, v: string)
    ensures ApplyOne(o, Avu(ID, v, DRS_UNIT)) == o.(id := TrimSpace(v))
    ensures ApplyOne(o, Avu(VERSION, v, DRS_UNIT)) == o.(version := TrimSpace(v))
    ensures ApplyOne(o, Avu(MIME_TYPE, v, DRS_UNIT)) == o.(mimeType := TrimSpace(v))
    ensures ApplyOne(o, Avu(DESCRIPTION, v, DRS_UNIT)) == o.(description := TrimSpace(v))
    ensures ApplyOne(o, Avu(COMPOUND_MANIFEST, v, DRS_UNIT)) == o.(isManifest := true)
  {
  }

  lemma ApplyOptional(start: Fields, m: seq<Avu>, o: Fields, name: Name, value: string)
    requires Apply(start, m) == o
    ensures Apply(start, m + Optional(name, value)) ==
            if value == "" then o else ApplyOne(o, Avu(name, value, DRS_UNIT))
  {
    ApplyAppend(start, m, Optional(name, value));
  }

  /** What an object reads as once `o` has been printed after what read as `start`. */
  function Over(start: Fields, o: Fields): Fields {
    Fields(TrimSpace(o.id),
           if o.version == "" then start.version else TrimSpace(o.version),
           if o.mimeType == "" then start.mimeType else TrimSpace(o.mimeType),
           if o.description == "" then start.description else TrimSpace(o.description),
           start.aliases + Filter(NotBlank(), MapSeq(Trim(), o.aliases)),
           start.isManifest || o.isManifest)
  }

  lemma PrintScalars(start: Fields, o: Fields)
    ensures Apply(start, PrintedScalars(o)) ==
            Over(start, o).(aliases := start.aliases, isManifest := start.isManifest)
  {
    var m := [Avu(ID, o.id, DRS_UNIT)];
    var f := start.(id := TrimSpace(o.id));
    ApplyPrinted(start, o.id);
    assert m[1..] == [] && Apply(start, m) == f;
    ApplyOptional(start, m, f, VERSION, o.version);
    m := m + Optional(VERSION, o.version);
    ApplyPrinted(f, o.version);
    f := f.(version := if o.version == "" then f.version else TrimSpace(o.version));
    ApplyOptional(start, m, f, MIME_TYPE, o.mimeType);
    m := m + Optional(MIME_TYPE, o.mimeType);
    ApplyPrinted(f, o.mimeType);
    f := f.(mimeType := if o.mimeType == "" then f.mimeType else TrimSpace(o.mimeType));
    ApplyOptional(start, m, f, DESCRIPTION, o.description);
    ApplyPrinted(f, o.description);
  }

  /** Whatever had been read before, an object printed after it is read as its fields, trimmed; a field
      that is not printed stays. */
  lemma PrintOver(start: Fields, o: Fields)
    ensures Apply(start, MetadataForObject(o)) == Over(start, o)
  {
    var m := PrintedScalars(o);
    var names := NormalizedAliases(o.aliases);
    var f := Over(start, o).(aliases := start.aliases, isManifest := start.isManifest);
    PrintScalars(start, o);
    AliasesKept(o.aliases);
    ApplyAppend(start, m, AliasAvus(names));
    ApplyAliases(f, names);
    ApplyAppend(start, m + AliasAvus(names), PrintedMarker(o));
    ApplyPrinted(f.(aliases := f.aliases + names), "true");
  }

  /** Whatever an object's fields are, printing it and reading it back gives them trimmed. */
  lemma PrintThenRead(o: Fields)
    ensures Apply(NoFields, MetadataForObject(o)) == TrimmedFields(o)
  {
    PrintOver(NoFields, o);
    AliasesKept(o.aliases);
    assert [] + NormalizedAliases(o.aliases) == NormalizedAliases(o.aliases);
    TrimSpaceFixed("");
  }

  predicate TrimmedObject(o: Fields) {
    && o.id != "" && Trimmed(o.id)
    && Trimmed(o.version) && Trimmed(o.mimeType) && Trimmed(o.description)
    && AllNamed(o.aliases)
  }

  lemma {:induction false} NormalizedAliasesFixed(aliases: seq<string>)
    requires AllNamed(aliases)
    ensures NormalizedAliases(aliases) == aliases
  {
    if aliases != [] {
      NormalizedAliasesFixed(aliases[1..]);
    }
  }

  lemma TrimmedFieldsFixed(o: Fields)
    requires TrimmedObject(o)
    ensures TrimmedFields(o) == o
  {
    NormalizedAliasesFixed(o.aliases);
  }

  /** The triples printed for an object, interleaved in any way with triples that are not DRS
      metadata, read back as that object. */
  lemma RoundTrip(o: Fields, metas: seq<Avu>)
    requires TrimmedObject(o)
    requires DrsOnly(metas) == MetadataForObject(o)
    ensures Apply(NoFields, metas) == o
  {
    ApplySkipsOthers(NoFields, metas);
    PrintThenRead(o);
    TrimmedFieldsFixed(o);
  }
}
