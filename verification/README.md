# The DRS layer over iRODS, as a verified model

This project models the part of the repository that keeps GA4GH DRS objects as metadata on an iRODS
tree: creating, updating, removing and stripping DRS metadata, compound objects and their manifests,
listing and lookup, the manifest validator, access ids, S3 buckets, checksum normal forms and the
storage summary. It proves what these operations keep, in every state they pass through and however
their writes fail.

`dafny verify dfyconfig.toml` checks the whole project.

## How the model is laid out

| file | what it holds |
|---|---|
| Text, Integers, Decimals, Options, Lists, Order | strings as Go's library sees them, 64-bit integers, printed numbers, sequences, sorting |
| Paths, PathSpaces, Spaces, Trees | catalogue paths as character strings; collections and their contents |
| Avus, Checksums | metadata triples, printing and reading objects; checksum spellings |
| Catalogues, Identities, Objects | the mutable catalogue with failing writes; ids in order; the operations on one object |
| Selections, Snapshots, Preflights | which nodes become part of a compound, and the manifest that predicts it |
| Compounds, Retries, Strips, Runs | compound creation, repeated attempts, stripping, whole runs |
| Forests, RuntimeTree, Manifests, CreatedManifests | the runtime tree on the heap and the manifest built from it |
| Rows, Scans, Listing, CatalogueListings, Lookup | the paged querier, listing, fast pages, listings of a catalogue, lookup by id |
| Validator, AccessIds, S3Buckets, Summary | the other four protocols |

Modules whose content does not depend on what a path is are generic in the key type.

## Main results

- The runtime tree holds the root, the tagged paths and the collections between them, each once under
  its true parent, sorted; the "missing parent" errors cannot occur. The code inserts entries without
  looking whether they are there; that is safe because a path string sorts before every string it begins.
- In every state of a compound creation with arbitrary write failures, the compound marker on the root
  implies an id, and every value that can be derived, on every selected data object; the root is untouched
  in every state if an object has failed.
- Repeated creation converges: after any number of attempts with any failures, one in which nothing fails
  ends in full success, provided creation accepted every object at first, unless an earlier attempt left
  the root marked without its id. This rests on the id being written first. An object not accepted at first
  is accepted from when it has got its id, which one attempt without failures gives it unless it is blocked
  for good. Ids once assigned never change, no MIME type or version is written
  twice, and what is written is what was derived for the object.
- Any run of operations from a catalogue without DRS metadata keeps at most one id on a path and no id
  on two paths, and conserves all other triples; stripping afterwards leaves what stripping the original
  would have left.
- After a creation without failures the runtime manifest shows exactly what was selected and what was
  tagged and visible before. The manifest depends on the catalogue alone, not on row order or paging.
- The validator visits exactly the reachable ids, once each, on any finite graph, and reports each of
  them that does not resolve exactly once. Every finding and every update is called for by the state of
  things and reported once; objects are left as observed, so that a second run updates nothing.
- A manifest node shows the object stored at its path, and a listing shows exactly the catalogue's objects
  in place and scope: a collection made compound is listed under the id that was returned.
- Fast pages agree with exact pages; consecutive exact pages make up the listing; lookup is decided by
  the number of matches on all pages.

## What the proofs brought to light

- A LIKE pattern built for the collection "/" reaches no collection, and no data object directly in "/"
  (`Listing.LikeReachesIff`, `Listing.RootPatternMisses`).
- A page panics if and only if its offset is in range and offset plus limit overflows 64 bits
  (`Listing.PanicsIff`, `Listing.SecondPagePanics`).
- A base64 checksum that happens to look like hex is taken for hex; this cannot happen to digests whose
  length is no multiple of three (`Checksums.Base64NormalizesIff`, `Checksums.Base64Misread`).
- The comment above the alias update says duplicates are ignored; they are not, and a catalogue that
  refuses a triple it has already makes the update fail half done (`Objects.UpdateAliases`,
  `Objects.RepeatedAlias`).
- The marker is written even if the root's id was not. A retry is then refused as already compound, and
  the root stays without an id (`Compounds.MarkRoot`, `Retries.Attempt`, `Retries.Retry`).
- A removal that fails half way can leave a version without an id. Compound creation then fails on that
  object although no call does, because the version is there already; but it has written the id by then,
  and a second attempt succeeds (`Compounds.HalfRemoved`, `Compounds.AcceptsIff`, `Retries.AttemptHeals`).
- An object whose first id triple is blank is finished by creation and still has no id
  (`Retries.DoneIsTaggedIff`, `Retries.BlankIdStays`).
- The nesting check looks below the root only; nothing is claimed about compounds above it
  (`Compounds.NestedIff`).
- `irods-go-rest` access ids of resources named `affinity-...` are advertised, and refused when presented
  (`AccessIds.AdvertisedResolves`, `AccessIds.AdvertisedButRefused`).

## Assumptions

- Paths are absolute and clean, and their segments carry no white space at either end: the code trims
  paths everywhere. `path.Clean` and the client library's path correction are the identity on such paths.
- A catalogue holds a set of triples for a path: adding one that is there already fails. Every call may
  fail without effect; nothing else changes the catalogue during a call.
- `Stat` and `List` answer consistently, every listed entry has a metadata listing, and the querier
  returns each entry once with all of its triples on one page.
- New ids never repeat, are never blank and never look like a path (`Identities.GoodSupply`).
- A derived MIME type is empty or not white space alone.
- Theorems about the manifest after creation and about resolving a carried id take one id on each path
  at most. `Runs.RunFromBare` shows that every state reached by these operations is of this kind.
- Theorems about creation and retries take selected data objects on which a blank id triple does not come
  first (`Compounds.NoBlankId`), as it never does where a path has one id at most; `Retries.StageKeeps`
  shows that creation keeps this so.
- `sort.Slice` and `sort.Strings` are modelled by an insertion sort: any sort gives the same result on
  distinct keys (`Lists.SameAscending`).
- Strings are sequences of Unicode code points. `strings.EqualFold` is exact whenever one side is ASCII,
  `strings.ToLower` on every string whose image is ASCII.

## Model

| member | source | states |
|---|---|---|
| Paths.PrefixIsDescent | drs-support/drs_to_irods_service.go:839-849 | the character test of the recursive scope holds exactly of the strict descendants, but for "/" under itself |
| Paths.DescendsIsProperPrefix | drs-support/compound_create.go:351-391 | a strict ancestor's path string is a proper prefix of its descendant's and sorts before it |
| Paths.AncestorsBetweenExact | drs-support/compound_create.go:413-440 | the ancestor list of a path holds exactly the strict ancestors strictly below the root |
| Paths.RelativePathSteps | drs-support/compound_create.go:788-797 | root, slash and relative path rebuild a path, and a relative path extends its parent's by one segment |
| Paths.SplitSpellsAncestors | drs-support/compound_create.go:425-438 | rejoining the proper prefixes of the split relative path spells the ancestors |
| Paths.AncestorCollectionPaths | drs-support/compound_create.go:413-440 | returns the strict ancestors strictly between root and target, outermost first |
| Paths.RejoinPrefixes | drs-support/compound_create.go:430-439 | the rejoining loop returns the spelled ancestors |
| Text.TrimSpaceCuts | drs-support/drs_to_irods_service.go:158-181 | trimming cuts white space off both ends of a string and nothing else |
| Text.FoldExamples | drs-support/drs_to_irods_service.go:1094-1105 | units are compared in any case, the two letters outside ASCII that fold into it included |
| Text.LowerAndFold | drs-support/drs_to_irods_service.go:984-986 | lower-casing ASCII text leaves no capital and changes nothing but case; text compares equal in any case if and only if it is the same in lower case |
| Order.LessAtDifference | drs-support/compound_create.go:456-476 | names sort by the first character in which they differ |
| Avus.IdIsFirstId | drs-support/compound_create.go:742-756 | the id read from a listing is that of its first DRS id triple |
| Avus.ApplyNamesLastId | drs-support/drs_to_irods_service.go:158-169 | reading an object takes its last DRS id triple instead |
| Avus.ApplySkipsOthers | drs-support/drs_to_irods_service.go:158-184 | reading depends only on the triples that `isDrsMetadata` accepts |
| Avus.DrsExamples | drs-support/drs_to_irods_service.go:1094-1105 | the six attributes count in the DRS unit, in any case, or in none, and in no other; no other attribute counts |
| Avus.ApplyTakesLast | drs-support/drs_to_irods_service.go:158-184 | of version, MIME type and description, too, reading takes the last |
| Avus.AliasesKept | drs-support/drs_to_irods_service.go:1314-1324 | every alias that is not blank is kept, trimmed and in its place |
| Avus.PrintThenRead | drs-support/drs_to_irods_service.go:1042-1068 | printing any object and reading it back gives its fields trimmed |
| Avus.PrintOver | drs-support/drs_to_irods_service.go:153-187 | an object printed after other triples is read as its own fields where it has them, and as what was there before where not |
| Avus.RoundTrip | drs-support/drs_to_irods_service.go:1042-1068 | triples printed for a trimmed object, interleaved with any others, read back as that object |
| Checksums.HexRoundTrip | drs-support/drs_to_irods_service.go:988-993 | base16 encoding and decoding round trip |
| Checksums.HexDecodeIff | drs-support/drs_to_irods_service.go:984-993 | text is read as base16 of some bytes if and only if it is their lower-case text in some case |
| Checksums.LowerHexIsCanonical | drs-support/drs_to_irods_service.go:984-986 | lowering a valid hex string gives the lower-case encoding of its bytes |
| Checksums.Base64RoundTrip | drs-support/drs_to_irods_service.go:989-993 | base64 encoding and decoding round trip (section 4 of RFC 4648) |
| Checksums.AcceptedText | drs-support/drs_to_irods_service.go:989-993 | base64 text is accepted in full quanta only, and unpadded only as the text printed for its bytes |
| Checksums.Alphabets | drs-support/drs_to_irods_service.go:982-993 | the two alphabets are those of sections 4 and 8 of RFC 4648 |
| Checksums.TestVectors | drs-support/drs_to_irods_service.go:982-993 | the encoders meet test vectors of section 10 of RFC 4648 |
| Checksums.LineEndsIgnored | drs-support/drs_to_irods_service.go:989-993 | line ends within base64 text do not matter |
| Checksums.TagIgnored | drs-support/drs_to_irods_service.go:969-979 | what precedes the first colon does not matter |
| Checksums.Base64NormalizesIff | drs-support/drs_to_irods_service.go:982-993 | a base64 spelling is understood if and only if it does not look like hex |
| Checksums.Base64Misread | drs-support/drs_to_irods_service.go:982-986 | a digest whose base64 text is hex-looking is misread |
| Checksums.DigestNormalForm | drs-support/drs_to_irods_service.go:963-997 | for lengths that are no multiple of three, all spellings, tagged or not, have the lower-case hex digest as their normal form, a fixed point |
| Checksums.OtherTextStays | drs-support/drs_to_irods_service.go:988-996 | text that is neither base16 nor base64 is left as it is |
| Forests.AttachKeepsLinks | drs-support/compound_create.go:401-406 | appending a node to its parent's children keeps every parent and child link exact |
| Forests.ChildListExact | drs-support/compound_create.go:380-407 | the children of a node are exactly the keys whose parent it is, each once |
| Forests.Attach | drs-support/compound_create.go:402-406 | the append itself, on heap nodes |
| Forests.SortChildren | drs-support/compound_create.go:456-476 | the recursive in-place sort reaches every node and permutes each child list |
| RuntimeTree.NotYetInserted | drs-support/compound_create.go:353-399 | a tagged path that sorts after all those handled is not in the index yet, although nothing checks it |
| RuntimeTree.CoversOneMore | drs-support/compound_create.go:359-407 | one more tagged path adds exactly itself and its missing ancestors |
| RuntimeTree.InsertNode | drs-support/compound_create.go:390-406 | list, enter, append; a missing parent is possible only if the parent is not indexed |
| RuntimeTree.AddEntry | drs-support/compound_create.go:359-406 | with its ancestors entered first, an entry always finds its parent |
| RuntimeTree.PlanTurns | drs-support/compound_create.go:353-407 | over the sorted paths, each turn finds its parent indexed and its path not, and the keys at the end are the root, the tagged paths and all paths between |
| RuntimeTree.AddAll | drs-support/compound_create.go:353-407 | the loop enters exactly those keys, turn by turn, and never misses a parent |
| RuntimeTree.BuiltTree | drs-support/compound_create.go:330-410 | the finished heap nodes spell out the sorted tree of the keys, each key once under its true parent |
| RuntimeTree.BuildRuntimeTree | drs-support/compound_create.go:312-411 | whatever the set of tagged paths, the result is that tree; it fails only when a stat or a listing does, never for want of a parent |
| Spaces.SubtreeSound | drs-support/compound_create.go:643-652 | a recursion over listed children meets each entry at or below its top once, and nothing else |
| Spaces.SubtreeComplete | drs-support/compound_create.go:638-652 | it meets everything at or below its top |
| PathSpaces.SubtreeIsDescent | drs-support/drs_strip.go:72-83 | on paths, what a recursive operation visits is the path and its strict descendants |
| Spaces.BuildSnapshot | drs-support/compound_create.go:617-655 | the snapshot holds every listed entry with the metadata the catalogue has for it, and fails exactly when a call fails |
| Selections.CollectIncluded | drs-support/compound_create.go:692-724 | the breadth-first worklist selects the visible nodes that are not ignored, each once |
| Selections.CollectExcluded | drs-support/compound_create.go:864-879 | the depth-first walk lists the visible nodes that are ignored, outermost first |
| Selections.SelectionPartitions | drs-support/compound_create.go:692-724 | the two together yield every node that is not at or under a control entry exactly once |
| Selections.CreationDataNodes | drs-support/compound_create.go:600-615 | the nodes to decorate are the selected data objects, each once, sorted by path |
| Selections.CompoundBelowIff | drs-support/compound_create.go:661-678 | the nesting check refuses exactly when some collection strictly below the root carries the marker |
| Selections.PreflightIsSelectionIff | drs-support/compound_create.go:805-862 | the preflight keeps a part of the selection, and all of it if and only if what lies under an ignored entry is ignored too |
| Selections.RootIsSelected | drs-support/compound_create.go:691-722 | the root is selected whatever the ignore file says, unless it is a control entry; nothing else that is ignored is selected |
| Snapshots.VisibleOfSnapshot | drs-support/compound_create.go:705-720 | on a snapshot, the visible nodes are the subtree's paths not at or under a control entry, in order |
| Snapshots.ChosenIsSelected | drs-support/compound_create.go:600-615 | selection told by tree and by path agree, without repetitions |
| Preflights.MembersMirror | drs-support/compound_create.go:805-862 | the preflight manifest has one node for each kept tree node, in the same order, with that node's fields |
| Preflights.FirstPrinted | drs-support/compound_create.go:818-819 | the description and the first alias printed for an object are those found in its triples |
| Preflights.NodeShowsStored | drs-support/compound_create.go:817-847 | a node shows the id, first alias and description of the object stored at its path, a collection its relative path where it has none, and all other triples trimmed |
| Preflights.RootIsShownIff | drs-support/compound_create.go:805-815 | there is a manifest exactly if the root is no control file |
| Preflights.VocabularySpelled | drs-support/drs_to_irods_service.go:27-33 | the six attribute names |
| Preflights.PredictionHolds | drs-support/compound_create.go:849-851 | what the preflight says will be assigned an id is among what creation assigns, and is all of it under that closure |
| Retries.CreationAssigns | drs-support/compound_create.go:556-571 | creation gives new ids to exactly the selected data objects without one |
| Catalogues.Catalogue.AddAll | drs-support/drs_to_irods_service.go:250-254 | a writing loop leaves a beginning of its triples, all of them exactly when nothing fails and none is there twice |
| Catalogues.Catalogue.DeleteAll | drs-support/drs_strip.go:52-61 | a deleting loop leaves the listing without its first k doomed triples, without all of them when nothing fails |
| Catalogues.PruneOneMore | drs-support/drs_strip.go:53-60 | deleting the next doomed triple prunes one more |
| Catalogues.PruningKeepsRest | drs-support/drs_strip.go:53-60 | pruning keeps what is not doomed, in order, and is filtering once it is complete |
| Objects.AlreadyDrsIff | drs-support/drs_to_irods_service.go:215-222 | with one id at most, the guard of creation passes exactly what has neither id nor marker |
| Objects.PrintedIds | drs-support/drs_to_irods_service.go:1043-1045 | the id is the first triple printed, and is printed once |
| Objects.PrintedDistinct | drs-support/drs_to_irods_service.go:1059-1061 | an object prints a triple twice if and only if it repeats an alias |
| Objects.CreateWith | drs-support/drs_to_irods_service.go:195-257 | creation leaves a beginning of its triples; it succeeds if and only if the object is not DRS already and no triple is there twice |
| Objects.CreateDrsObject | drs-support/drs_to_irods_service.go:195-257 | the same for the triples that creation prints, with the id that is returned |
| Objects.CreatedReadsBack | drs-support/drs_to_irods_service.go:224-247 | what creation leaves reads as the new id, the object's checksum, the MIME type given or else derived, and the description and aliases given |
| Objects.ReplaceAttribute | drs-support/drs_to_irods_service.go:562-592 | clearing and rewriting one attribute goes through prunings and then appendings of one path only |
| Objects.ResolvesIff | drs-support/drs_to_irods_service.go:1135-1137 | with one id at most, a path resolves exactly if it has one |
| Objects.UpdateField | drs-support/drs_to_irods_service.go:543-595 | on success the field's old triples are gone and the trimmed value is there; it succeeds exactly on DRS objects and supported fields |
| Objects.UpdatedFieldReadsBack | drs-support/drs_to_irods_service.go:567-592 | the updated field reads back as the trimmed value, every other field as before |
| Objects.UpdateReadsBack | drs-support/drs_to_irods_service.go:1079-1092 | the field that a client names, by any of its names, is the one that is read back as the new value, its attribute there once, or not at all where the value is blank; no other name is accepted |
| Objects.UpdateAliases | drs-support/drs_to_irods_service.go:599-639 | it succeeds, nothing failing, if and only if no alias is repeated, and otherwise stops at the first repeated one; the comment says duplicates are ignored, the code does not |
| Objects.RepeatedAlias | drs-support/drs_to_irods_service.go:614-636 | asked for the alias "a" twice, it has cleared the old aliases and written one "a" when it fails |
| Objects.UpdatedAliasesReadBack | drs-support/drs_to_irods_service.go:614-636 | the aliases read back in the order given, trimmed, blanks dropped; every other field as before |
| Objects.ReplacedReadsBack | drs-support/drs_to_irods_service.go:567-592 | replacing an attribute changes that field alone |
| Objects.Upsert | drs-support/compound_create.go:758-786 | the same step for the two root attributes |
| Objects.RemoveDrsObject | drs-support/drs_to_irods_service.go:651-691 | removal leaves exactly the triples outside the DRS vocabulary, and leaves manifests alone |
| Objects.EnsureCompleteness | drs-support/compound_create.go:942-980 | adds a MIME type and a version only where there is no value, and always succeeds when nothing fails; what it leaves reads as before but for the two, which are those derived for the object |
| Identities.StaysKept | drs-support/drs_to_irods_service.go:195-257 | one path's triples may change as the operations change them without two ids on a path or one id on two paths, in any state |
| Identities.GrowthLegit | drs-support/drs_to_irods_service.go:250-254 | appending DRS triples, one id at most, keeps a path in order |
| Identities.PrunedLegit | drs-support/drs_strip.go:53-60 | deleting DRS triples keeps a path in order |
| Runs.Run | drs-support/drs_to_irods_service.go:195-691 | any operations, any writes failing: the triples outside the DRS vocabulary are conserved and the ids stay in order in every state |
| Runs.RunFromBare | drs-support/drs_to_irods_service.go:195-257 | from a catalogue without DRS metadata, every reachable state has at most one id on a path, no id on two paths, other triples unchanged |
| Runs.RunThenStrip | drs-support/drs_strip.go:20-85 | a strip after any run, with any failures in it, leaves what a strip of the original would leave; nothing failing from then on, it succeeds exactly for a catalogued subtree other than "/" |
| Runs.CreationConserved | drs-support/compound_create.go:555-597 | compound creation, partial or not, conserves what is not DRS metadata |
| Strips.StripPath | drs-support/drs_strip.go:44-66 | one path loses its DRS triples and is counted |
| Strips.StripRecursive | drs-support/drs_strip.go:44-85 | the recursion strips each path of the subtree once and nothing outside it, in every state, and counts nodes, tagged nodes and triples |
| Strips.StripChildren | drs-support/drs_strip.go:72-83 | the loop over the children does so for all of them |
| Strips.StripDrsSemantics | drs-support/drs_strip.go:20-42 | the same from zeroed counters; it succeeds, nothing failing, exactly when every path has a listing |
| Strips.StagesThen | drs-support/drs_strip.go:68-83 | a strip of one part followed by a strip of another is a strip of both, counters adding up |
| Strips.SecondStripRemovesNothing | drs-support/drs_strip.go:53-66 | a second strip changes nothing and counts nothing |
| Compounds.CompletionAfterPrinting | drs-support/compound_create.go:948-977 | an object just created lacks nothing |
| Compounds.AcceptsIff | drs-support/compound_create.go:566-571 | which objects creation gets by when no call fails: those with an id, and those without an id or a marker that do not hold a triple to be written already |
| Compounds.HalfRemoved | drs-support/drs_to_irods_service.go:684-691 | a removal that failed after the id has gone leaves an object that creation fails on |
| Compounds.CreationAttempted | drs-support/drs_to_irods_service.go:195-257 | even if creation fails there, the object has its id afterwards, unless it is "/" or carries the marker |
| Compounds.FirstIsId | drs-support/drs_to_irods_service.go:250-254 | an object that has got any triple has got its id |
| Compounds.ProcessNode | drs-support/compound_create.go:566-575 | one object goes some way through its plan by appending; nothing failing, all the way if and only if it has an id or can be created |
| Compounds.ProcessNodes | drs-support/compound_create.go:555-576 | every object does so on its own, past failures; those without an error are done, and nothing failing, the errors are exactly those of the objects creation does not get by |
| Compounds.ReplacingSpares | drs-support/compound_create.go:764-785 | replacing one attribute spares every other |
| Compounds.MarkRoot | drs-support/compound_create.go:586-591 | the marker stands if and only if its own write succeeded; on a root without an id, marker without id happens exactly when the id write fails and the marker write does not; both written, the root has lost its old ids and has the id and the marker last |
| Compounds.NestedIff | drs-support/compound_create.go:536-538 | the nesting guard told by paths |
| Compounds.PlannedNodes | drs-support/compound_create.go:553-560 | the nodes processed are the selected paths, each once, with their current metadata |
| Compounds.Guards | drs-support/compound_create.go:514-538 | the guards pass, nothing failing, exactly for an unmarked collection without nested compounds |
| Compounds.ChooseId | drs-support/compound_create.go:540-546 | the root keeps its id or is promised a new one no path carries |
| Compounds.Decorate | drs-support/compound_create.go:553-597 | data objects first; the root is written only if none failed, and is as it was in every state if one did |
| Compounds.CreateCompound | drs-support/compound_create.go:509-598 | a refusal changes nothing and says which guard refused; otherwise objects only grow towards what they end as, the root is untouched until all are done, and in every state if one of them has failed, and without errors no state on the way has the marker without the returned id; nothing failing, there are no errors if and only if every selected object is accepted |
| Retries.StageKeeps | drs-support/compound_create.go:556-576 | in every stage an object keeps its triples and its id, and a MIME type or version is written once at most, never next to one that an object with an id has |
| Retries.StageIsDerived | drs-support/compound_create.go:556-576 | nothing is ever appended to an object but a new id, the checksum derived for it as its version and the MIME type derived for it |
| Retries.DoneIsDecorated | drs-support/compound_create.go:566-575 | a finished object has an id and every value that could be derived |
| Retries.DecoratedReads | drs-support/compound_create.go:948-977 | a decorated object that had no version or MIME type reads as the one derived; one that had it, and an id, has the same triples as before |
| Retries.SuccessReads | drs-support/compound_create.go:532-598 | full success means that of every selected object, with description and aliases as they were |
| Retries.DoneIsTaggedIff | drs-support/compound_create.go:742-756 | a finished object has an id if and only if no blank id triple came first in its listing |
| Retries.BlankIdStays | drs-support/compound_create.go:556-576 | an object with a blank id triple, which creation's guard lets through, is given its whole plan and still has no id |
| Retries.MarkerMeansIds | drs-support/compound_create.go:578-591 | in no state does the root carry the marker while a selected object lacks an id or a value that could be derived |
| Retries.OneMoreAttempt | drs-support/compound_create.go:532-598 | one more attempt, whatever became of it, keeps all this across attempts |
| Retries.AttemptHeals | drs-support/compound_create.go:532-598 | after an attempt without failures the next one succeeds in full if and only if no selected object is blocked for good |
| Retries.Attempt | drs-support/compound_create.go:532-598 | an attempt without failures ends in full success if and only if the root, if marked, has its id, and if unmarked, every selected object is accepted |
| Retries.StaysAccepted | drs-support/compound_create.go:556-571 | objects that creation accepts are still accepted after any attempts; one that it does not is accepted from when it has got its id, and not before |
| Retries.Retry | drs-support/compound_create.go:532-598 | any number of attempts with any failures and then one more: ids never change in any state, no MIME type or version is written twice, what is written is what was derived, and if every object was accepted at first and nothing fails in the last attempt, that ends in full success if and only if the others did not leave the root marked without its id; what becomes of objects not accepted at first, and of runs without any failure, is exact too |
| Listing.ScopeIsDescent | drs-support/drs_to_irods_service.go:839-849 | the scope filter keeps exactly strict descendants or direct children; its one slip is "/" under itself |
| Listing.LikeReachesIff | drs-support/drs_to_irods_service.go:758-773 | below any collection but "/" the LIKE patterns reach every strict descendant; below "/" no collection, and no data object directly in it |
| Listing.RootPatternMisses | drs-support/drs_to_irods_service.go:758-773 | no pattern for "/" reaches "/zone" |
| Listing.FullScanExact | drs-support/drs_to_irods_service.go:746-819 | a full scan collects exactly the tagged entries in scope, whatever else the pattern let through |
| Scans.ScanKind | drs-support/drs_to_irods_service.go:750-812 | the cursor loop for one kind: what it has collected, and why it stopped |
| Listing.QueryEntriesBounded | drs-support/drs_to_irods_service.go:746-819 | the two-kind loop agrees with the full scan unless it stopped with enough entries |
| Rows.AddRowsExact | drs-support/drs_to_irods_service.go:780-797 | folding rows by path keeps exactly the rows that pass |
| Rows.AddRowsMerge | drs-support/drs_to_irods_service.go:780-797 | where rows repeat a path, the entry has the kind of its first row and the triples of all its rows, each once |
| Rows.OrderIrrelevant | drs-support/drs_to_irods_service.go:780-797 | which rows arrived, not in what order, decides the result |
| Listing.BuildObjects | drs-support/drs_to_irods_service.go:698-739 | the objects come out in strict path order |
| Listing.ListedIff | drs-support/drs_to_irods_service.go:698-739 | an entry with one id triple is listed exactly if its kind is asked for and, being a collection, it is marked as a compound; and then as what its triples read as |
| Listing.ListedUnderIff | drs-support/drs_to_irods_service.go:698-739 | any entry the scope asks for is listed under its last id; if that is blank, under its path, provided that some id triple spells the path |
| Listing.RowListedIff | drs-support/drs_to_irods_service.go:780-797 | the same for a row that a full scan keeps |
| Rows.AppendUniqueHolds | drs-support/drs_to_irods_service.go:790-797 | triples of two rows are joined without repetitions |
| Listing.PanicsIff | drs-support/drs_to_irods_service.go:431-441 | a page panics if and only if its start is in range and its end does not fit 64 bits |
| Listing.WindowExact | drs-support/drs_to_irods_service.go:431-446 | any other page shows the objects from the offset on, as many as the limit allows, and says whether there are more |
| Listing.SecondPagePanics | drs-support/drs_to_irods_service.go:431-441 | the page of two objects from offset 1 with the greatest limit panics |
| Listing.PagesMakeUpListing | drs-support/drs_to_irods_service.go:406-447 | consecutive exact pages make up the whole sorted listing |
| Listing.StoppedListingIsPrefix | drs-support/drs_to_irods_service.go:449-494 | on path-ordered data objects, stopping early lists a beginning of the whole listing |
| Listing.ListPage | drs-support/drs_to_irods_service.go:406-447 | a page is cut from the whole sorted listing, with its total |
| Listing.FastPageExact | drs-support/drs_to_irods_service.go:449-494 | why the bounded page can be trusted |
| Listing.ListPageFast | drs-support/drs_to_irods_service.go:449-494 | the fast page is the exact page when it announces no more, and for scope objects with a path-ordered querier always |
| CatalogueListings.ListingOfCatalogue | drs-support/drs_to_irods_service.go:698-739 | where the querier answers from a catalogue with its ids in order, a full scan lists exactly the tagged paths in place and of the kinds asked for, compound collections among them, each as its triples read |
| CatalogueListings.ListPageOfCatalogue | drs-support/drs_to_irods_service.go:406-447 | a page is cut from the sorted list of exactly those objects |
| CatalogueListings.CreateThenList | drs-support/compound_create.go:509-598 | a collection made compound is listed, wherever it is asked for, as a manifest under the id returned |
| Lookup.FindById | drs-support/drs_to_irods_service.go:274-328 | the answer is that of the number of matching entries on all pages, though the loop stops at the second match |
| Lookup.MatchesExact | drs-support/drs_to_irods_service.go:303-311 | the matching entries are exactly the paths that carry the id, each once |
| Lookup.AnswerTells | drs-support/drs_to_irods_service.go:303-328 | an id is found if and only if one path alone carries it; not found, if none does; ambiguous, if more than one do |
| Lookup.CarriedResolves | drs-support/drs_to_irods_service.go:322-341 | with ids in order, a carried id resolves to its path |
| Lookup.GetObjectById | drs-support/drs_to_irods_service.go:274-341 | the object behind an id, read from its path; nothing failing, it is found if and only if one entry matches and its metadata names it |
| Lookup.ReadUnder | drs-support/drs_to_irods_service.go:153-187 | an object is found at its path if and only if its last id is not blank or some id triple spells the path; it goes by that id, or by the path; a missing version is the checksum |
| Lookup.CreateThenFind | drs-support/drs_to_irods_service.go:195-341 | nothing failing, creation succeeds exactly for what is no object yet, its triples being new, and the id it returns resolves to the object it was created on, with the fields it was created with |
| Manifests.PreflightOfNode | drs-support/compound_create.go:805-862 | the manifest of the heap tree is the manifest of the tree it stands for |
| Manifests.BuildRuntimeManifest | drs-support/compound_create.go:254-310 | the runtime manifest is a function of the filesystem and of the set of tagged paths; it is built, nothing failing, for every collection not itself named as a control file; each node shows what is stored at its path, under its path relative to the root |
| Manifests.ManifestShowsListed | drs-support/compound_create.go:805-862 | each node of the manifest shows the triples listed at its path |
| Manifests.ControlIff | drs-support/compound_create.go:1000-1007 | control files are told by the name alone, in any case |
| Manifests.ControlNames | drs-support/compound_create.go:1000-1007 | which names those are, and some that are not |
| Manifests.ManifestIsCanonical | drs-support/compound_create.go:282-285 | queriers that tell of the same tagged entries, in any order, on any pages and with triples in any order, lead to equal manifests |
| CreatedManifests.TreeShows | drs-support/compound_create.go:339-410 | the tree behind a manifest shows exactly the keys no control entry hides, with their stored triples |
| CreatedManifests.ExposedIff | drs-support/compound_create.go:509-615 | selected or previously tagged and visible is the same as tagged and visible afterwards |
| CreatedManifests.ScanOfCatalogue | drs-support/drs_to_irods_service.go:746-819 | where the catalogue answers the LIKE queries, a full recursive scan holds exactly its tagged strict descendants of the collection in scope; under "/" only the data objects not directly in it |
| CreatedManifests.PatternsSuffice | drs-support/drs_to_irods_service.go:758-773 | below any collection but "/" those queries tell of every tagged path that a manifest needs |
| CreatedManifests.CatalogueDecides | drs-support/compound_create.go:282-285 | filesystems and queriers that answer from the same catalogue lead to the same manifest |
| CreatedManifests.CreatedManifest | drs-support/compound_create.go:254-310 | after a creation without failures the manifest carries the returned id, and its data objects are exactly the selected ones and the visible ones tagged before, each with its stored id |
| CreatedManifests.CreateThenShow | drs-support/compound_create.go:509-598 | a creation joined with the manifest built after it; nothing failing, it ends without errors if and only if it may start and every selected object is accepted |
| Validator.ClosedHoldsReachable | drs-support/drs_validator.go:217-223 | a set that manifests do not lead out of holds all that is reachable |
| Validator.UnresolvedOnce | drs-support/drs_validator.go:106-114 | one more visit reports one more id that does not resolve, once |
| Validator.StatusTellsSuccess | drs-support/drs_validator.go:153-181 | an update is marked updated exactly when the resolver accepted it |
| Validator.ReachedFrom | drs-support/drs_validator.go:217-223 | whatever is reached, but the root, is in a manifest that is reached and can be read |
| Validator.FindingsCalled | drs-support/drs_validator.go:90-224 | each finding that the state of things calls for is made once, and no other: what cannot be looked up, read, parsed, observed or updated, and each issue of a manifest |
| Validator.UpdatesCalled | drs-support/drs_validator.go:153-181 | each field that differs from what was observed is reported once, with both values, and no other |
| Validator.SettledIsLeft | drs-support/drs_validator.go:281-294 | an object whose update was accepted is left as observed, its version set once; a manifest is left with its contents; nothing else changes |
| Validator.SecondRunUpdatesNothing | drs-support/drs_validator.go:133-181 | validating again, where updates are accepted, finds nothing to update |
| Validator.Run.ValidateRecursive | drs-support/drs_validator.go:90-131 | visits exactly what it can still reach, cycles included, and terminates |
| Validator.Run.ValidateManifest | drs-support/drs_validator.go:183-224 | reads, checks and visits the entries of one manifest |
| Validator.Run.Validate | drs-support/drs_validator.go:68-88 | the visited ids are duplicate-free and exactly those reachable from the root; each of these that does not resolve is reported exactly once, whatever the resolver; with a resolver that hands out objects under their own ids, findings, updates and objects are accounted for one by one |
| AccessIds.ParseBackIff | drs-support/access_methods.go:380-423 | an access id parses back to its provider and resource, except the go-rest resources named affinity-..., which are refused |
| AccessIds.DefaultParsesBack | drs-support/access_methods.go:380-406 | the default id parses back to its provider |
| AccessIds.ReplicaResourceNames | drs-support/access_methods.go:245-274 | the resource names, trimmed, not blank, each where it is first seen |
| AccessIds.ResourceNamesAre | drs-support/access_methods.go:245-274 | these are the trimmed names of the replicas and of the object, no blanks, in the order in which they are first seen |
| AccessIds.HostIsLeast | drs-support/access_methods.go:276-296 | the host is that of the first entry naming the resource, failing that of the first default |
| AccessIds.HostOfConfig | drs-support/access_methods.go:276-340 | the same told by the configuration as written: the first entry with a host that names the resource, or else the first that lists nothing or a wild card |
| AccessIds.BaseOfConfig | drs-support/access_methods.go:425-460 | the URL prefix of a resource is the configured base merged with that host |
| AccessIds.PrimaryIs | drs-support/access_methods.go:501-514 | the primary resource is that of the first replica that has one, or else the object's own |
| AccessIds.DedicatedFirst | drs-support/access_methods.go:101-129 | the two lists hold the resources with a base URL, those with a host of their own first |
| AccessIds.BuildProviderMethods | drs-support/access_methods.go:73-130 | exactly one method for each of the object's resources that has a base URL, those with a host of their own first and beyond that in the order of the replicas; the one default when no host is configured; none without a resource |
| AccessIds.BuildHTTPSMethods | drs-support/access_methods.go:54-71 | exactly those methods when https is on, supported and has a base URL and a path; none otherwise |
| AccessIds.AccessIdsDistinct | drs-support/access_methods.go:104-129 | no two https methods of an object share an access id |
| AccessIds.MethodsTellZone | drs-support/access_methods.go:104-129 | every https method tells of the object's zone |
| AccessIds.AdvertisedResolves | internal/api_objects.go:234-334 | every advertised https id resolves to the URL of the host chosen for its resource, but for the refused ones, answered as not implemented |
| AccessIds.DefaultIdResolves | internal/api_objects.go:274-310 | the default id resolves, advertised or not: to the host of the primary resource, and without one to the configured base |
| AccessIds.ProviderIds | drs-support/access_methods.go:363-406 | the default ids, by the configured name of the provider in any case, or without one |
| AccessIds.UnknownIsNotFound | internal/api_objects.go:234-334 | the compound id and ids of no known form are not found |
| AccessIds.OtherProviderNotFound | internal/api_objects.go:234-334 | ids of the provider that is not configured are not found |
| AccessIds.OffIsNotImplemented | internal/api_objects.go:234-334 | while https is off, ids that parse are not implemented |
| AccessIds.AdvertisedButRefused | internal/api_objects.go:234-334 | a go-rest configuration, an object on the resource affinity-x and the one id advertised for it, which is answered as not implemented |
| S3Buckets.CollectBuckets | drs-support/access_methods.go:611-625 | the loop collects exactly the names the listing gives |
| S3Buckets.SpellingNames | drs-support/access_methods.go:640-656 | every spelling of a valid bucket name, in any case and with white space around it, names that bucket |
| S3Buckets.OtherNameStays | drs-support/access_methods.go:611-629 | a name that is not valid stays as it is, but for white space |
| S3Buckets.ExampleNames | drs-support/access_methods.go:648-656 | names that are valid, and names that are not |
| S3Buckets.ExampleAttribute | drs-support/access_methods.go:611-621 | the attribute is told by its name in any case |
| S3Buckets.Deduplicate | drs-support/access_methods.go:630-637 | the result is strictly sorted with the same names |
| S3Buckets.BucketsForPath | drs-support/access_methods.go:601-638 | every bucket name of a listing once, in order |
| S3Buckets.BucketsBySet | drs-support/access_methods.go:611-637 | order and repetition of the triples do not matter |
| S3Buckets.RelativeRebuilds | drs-support/access_methods.go:577-581 | collection, slash and relative key rebuild the object's path |
| S3Buckets.ResolveBucket | drs-support/access_methods.go:561-599 | the nearest ancestor other than "/" with a bucket, its least name and the number of candidates; a failing listing stops the walk there |
| Summary.SumPush | drs-support/drs_object_summary.go:161-163 | one more row adds its size exactly if it is the first about its object |
| Summary.DataObjectSummary.AppendRow | drs-support/drs_object_summary.go:128-163 | a row is passed over, stops the loop or is accumulated, as its cells say |
| Summary.DataObjectSummary.AppendRows | drs-support/drs_object_summary.go:99-167 | the totals tell of all rows so far, whatever the pages |
| Decimals.ParsePrinted | drs-support/drs_object_summary.go:195-204 | a printed number is read back, with a sign or without, exactly if 64 bits hold it |
| Summary.RowReadsBack | drs-support/drs_object_summary.go:128-163 | a row printed for a data object, its size and its DRS id is read as these |
| Summary.PassedOverIff | drs-support/drs_object_summary.go:169-174 | rows without an id or in another unit are passed over |
| Summary.QuerySummary | drs-support/drs_object_summary.go:48-86 | however the rows are paged, success exactly if no row stops the loop, and then the count of distinct ids and the sum of first sizes |
| Summary.QueryStored | drs-support/drs_object_summary.go:48-86 | over rows printed for stored data objects, it succeeds, counts each object once and sums the first size of each |
| Summary.TotalNotNegative | drs-support/drs_object_summary.go:195-204 | the total is the true sum and not negative while that fits 64 bits |
| Summary.SummaryIgnoresOrder | drs-support/drs_object_summary.go:127-164 | with one size per object the order of rows does not matter |

## Left out

- Compounds.CreateCompound: the ignore file's patterns are an arbitrary test on path and kind, and reading them is one call that may fail.
- Objects.ResolveByPath: computing the checksum of a compound's manifest is one call that may fail.
- Objects.CreateDrsObject: the MIME table and the stored or computed checksum are functions of the path; creating the checksum is one call that may fail.
- Listing.PagesMakeUpListing: asks that the listing's length plus the limit fit 64 bits; beyond that a page may panic, which is stated exactly.
- Listing.ListPageFast: nothing is claimed about fast pages that announce more for scopes other than objects, where collections are fetched before data objects.
- Listing.ObjectFor: a listed object's size, times, replicas and checksum are not modelled; neither are they when an object is looked up, but for the checksum that stands in for a missing version (`Lookup.Hydrated`).
- Validator.Run.Validate: relating the status of an update to the write-back takes a resolver that returns objects under the id asked for.
- AccessIds.AdvertisedResolves: tickets are off, and URL merging and escaping are uninterpreted functions; irods and compound access ids are not resolved.
- S3Buckets.BucketName: what `net.ParseIP` accepts is a parameter.
- Summary.QuerySummary: a response whose columns are missing is one flag; connections and locks are not modelled.
- Manifests.BuildRuntimeManifest: the JSON text and MD5 checksum of the manifest, and the account fields of the result, are not modelled; both are functions of the value shown to be canonical.
- Compound preflight: the pure parts are modelled; the method that strings them together, and `HasCompoundIgnoreFile`, are not.
- `CreateCompoundDrsObjectFromDataObject` (a deprecated wrapper), `AddDRSIgnoreTemplate`, and the irods and local access methods: single-branch facts.
- The s3 access methods built from a resolved bucket: every replica shares one access id there.
- HTTP handlers, routing, authentication, configuration files, the sampler and the command-line tools.
