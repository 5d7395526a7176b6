# Verified models of the merge, assembly, graph, template, codec and selection cores

This project models the algorithmic core of three packages of the repository and proves what that
core is for. `packages/core` merges contributions into drafts, walks dependency graphs, flattens
prompt policies and defines a template language. `packages/assembler` chooses what goes into a
prompt under a token budget and replays selection plans. `packages/ccv3` reads and writes character
cards embedded in PNG files. Code that computes by expressions is modelled by functions; code that
loops or updates state is modelled by methods and classes proved equal to those functions, and the
laws are lemmas about the functions. The modules named `...Laws` and `ContributionRules` say what the
functions mean without them: by places in lists, chains of pins, bytes, spellings and literal names.
Run `dafny verify dfyconfig.toml` to check everything.

| files | subject |
|---|---|
| `StoryMerge`, `ObjectMerge`, `ObjectLaws`, `OrderMerge` | three-way merge of scalars, reference lists, nested objects and list order |
| `Drafts`, `Contribution`, `ContributionLaws`, `ContributionOrder`, `ContributionKeys`, `ContributionRules`, `MergeRun` | a whole contribution: admission, decision, application, and its laws |
| `Sorting`, `Presentation`, `Messages`, `Assembly`, `AssemblyLaws`, `MessageLaws`, `AssemblyRun`, `Trace` | style order, system messages and what they say, budgeted admission, the trace |
| `Graph`, `GraphRun`, `Scope`, `GraphLaws` | the memoised depth-first walk of a build and its scopes |
| `Flatten`, `FlattenWalk`, `FlattenRun`, `Preset`, `PresetLaws` | flattening a policy's imports and placing its blocks |
| `Template`, `TemplateLaws`, `TemplateRun`, `CardText`, `CardLaws`, `CardRun` | the template language and the translation of card text into it |
| `Crc`, `Base64`, `Png`, `PngText`, `CodecLaws`, `PngRun` | CRC-32, Base64 (section 4 of RFC 4648), PNG chunks and text (sections 3.2, 3.4 and 4.2.7 of RFC 2083) |
| `Selection`, `SelectionLaws`, `ReplayLaws`, `FixedSelection`, `SelectionRun`, `Catalog`, `CatalogLaws`, `CatalogRun` | replaying a selection plan, the plan the fixed selector makes, and the catalog trees both work on |

## Where the code is not what its documentation says

- Reference lists (`packages/core/src/story-merge.ts:152-185`): a contribution that names a reference
  twice can make the merge drop a member that nobody removed. `StoryMerge.RepeatedReferenceLosesMember`
  is such an input; `StoryMerge.ListLawExactly` says exactly when the three-way membership law holds.
- Re-application (`packages/core/src/merge.ts:23-25`): `ContributionLaws.Reapplication` says exactly
  when merging a contribution into its own result marks everything as already applied and gives the
  result back: no applied removal uncovers a second value under the same identity, and every
  reference list that is merged stays merged. A draft that names an edge twice breaks the first,
  a proposal that names a scene of a plotline twice the second
  (`ContributionLaws.RepeatedIdentityBreaksReapplication`,
  `ContributionLaws.RepeatedReferenceBreaksReapplication`). Drafts and proposals without
  repetitions always re-apply (`ContributionLaws.DistinctAppliesOnce`).
- The fixed selector is to perform the expansions needed for its exact references
  (`packages/assembler/src/selection.ts:105-131`). It records one path for each node, the last one
  it walks, so a fragment that is an entry of two groups can be missed although another plan
  reaches it within the depth: `Catalog.SharedEntryIsMissed`. `FixedSelection.FixedPlanExactly` and
  `Catalog.FixedPlanOfCatalog` say exactly when a plan is made and accepted.
- `renderTemplate` says its output is always a valid template (`packages/core/src/template.ts:135-138`).
  Two literals that each add an odd number of braces to one run break that: `TemplateLaws.OddSeamBreaks`.
  `TemplateLaws.SubstitutionExactly` and `TemplateLaws.RenderMeansExactly` say exactly when the output
  means what was put in.

## Model

| member | source | states |
|---|---|---|
| `StoryMerge.ListLaw` | packages/core/src/story-merge.ts:152-185 | A conflict-free reference merge has no duplicates and exactly the three-way members; shared members stand in the order of the side that moved them, every other member where the draft's order has it. |
| `StoryMerge.ReferencesLaw` | packages/core/src/story-merge.ts:145-185 | Whatever values stand there: who did not change the base lets the other have it; a side that is no list, or an absent list that stands for everybody, is merged as one value; else it conflicts exactly when all three orders of the shared members differ, what is no list of names naming none; else the members merge as sets, what is shared has the order of the side that moved it, and the rest the draft's. |
| `StoryMerge.ListLawExactly` | packages/core/src/story-merge.ts:175-184 | The merged list has exactly the three-way members, each once, if and only if the names that refill the shared slots are distinct. |
| `StoryMerge.RepeatedReferenceLosesMember` | packages/core/src/story-merge.ts:179-183 | A concrete base, draft and proposal, without conflict, whose merge names one member twice and loses another that every side keeps. |
| `StoryMerge.DistinctAfterSuffices` | packages/core/src/story-merge.ts:175-184 | A proposal that names no reference twice always meets the condition. |
| `StoryMerge.SlotsCovered` | packages/core/src/story-merge.ts:179-183 | There is a name for every shared slot, so the refill never reads past the end. |
| `StoryMerge.SurvivorsInDraftOrder` | packages/core/src/story-merge.ts:175-178 | Before any reordering the merged list is the draft's surviving members in its order, then the new members in the contribution's order. |
| `StoryMerge.ListFixpointExactly` | packages/core/src/story-merge.ts:145-185 | Merging the same lists into a merged list changes nothing and conflicts with nothing if and only if the contribution moves no shared member, names each shared member once, or names them in the base's order before it repeats any; otherwise the result is not the proposed list either. |
| `StoryMerge.DistinctStaysMerged` | packages/core/src/story-merge.ts:145-185 | A proposal that names no reference twice always stays merged. |
| `StoryMerge.RepeatedReferenceMovesAgain` | packages/core/src/story-merge.ts:179-183 | The merge that repeated one member and lost another changes again when it is merged again. |
| `ObjectMerge.ReferencesByLoop` | packages/core/src/story-merge.ts:152-185 | The reference merge with its slots refilled in place computes the specified merge, conflicts and fallbacks included. |
| `ObjectMerge.RefillInPlace` | packages/core/src/story-merge.ts:179-183 | The in-place loop leaves the array as the specification refills it. |
| `ObjectMerge.MergeByLoop` | packages/core/src/story-merge.ts:201-234 | The loop over field names that fills the merged object computes the recursive merge, empty maps collapsing as they do. |
| `ObjectLaws.ConflictsExactly` | packages/core/src/story-merge.ts:186-295 | A path is reported as a conflict if and only if it names a leaf that both sides took away from the base incompatibly. |
| `ObjectLaws.PathsAreDotted` | packages/core/src/story-merge.ts:201-234 | The path of a leaf is its field names with dots between them. |
| `ObjectLaws.LeafValue` | packages/core/src/story-merge.ts:201-295 | Every leaf of a merged object holds the three-way merge of that leaf alone, however deep it lies. |
| `ObjectLaws.DisjointEditsMerge` | packages/core/src/story-merge.ts:186-234 | Edits of different leaves never conflict, and each scalar leaf takes the value of whoever edited it. |
| `ObjectLaws.MergeFixpointExactly` | packages/core/src/story-merge.ts:186-295 | Merging a change into the value it merged to gives that value again without conflicts if and only if every leaf settles, a condition on base, draft and proposal that only reference lists can fail. |
| `ObjectLaws.ObjectFixpoint` | packages/core/src/story-merge.ts:239-295 | For objects with the field their kind demands, whatever the operation: a proposed object is never lost, and merging again changes nothing if and only if the object merged as a unit or every leaf settles. |
| `ObjectLaws.RequiredFieldKeepsObject` | packages/core/src/story-merge.ts:239-295 | A scalar field that both sides have keeps the merged object from disappearing. |
| `ObjectLaws.KnowingKeepsStart` | packages/core/src/story-merge.ts:280-286 | The start field of a knowing entry survives even when it is empty. |
| `ObjectLaws.FieldsOfObject` | packages/core/src/story-merge.ts:239-288 | Which fields of which kind of object are reference lists, which are maps of them, and that every other field is one value. |
| `ObjectLaws.EmptyMapsCollapse` | packages/core/src/story-merge.ts:201-234 | A map field whose merge leaves nothing is dropped, and only the start of a knowing entry stays as an empty object. |
| `ObjectLaws.MissingObject` | packages/core/src/story-merge.ts:239-255 | An addition, a removal, or what is no object on a side merges as one value, a conflict naming the whole object; every other modification merges by its fields. |
| `OrderMerge.MergedOrderLaw` | packages/core/src/story-merge.ts:358-371 | The merged order names the working members once each. Where the proposal leaves the members all three lists share in the base's order and the draft is not the base, the draft's order leads; otherwise the proposed order does; whatever the leading list does not name follows in its working order; and it conflicts exactly when all three orders of the shared members differ. |
| `OrderMerge.OrderFixpoint` | packages/core/src/story-merge.ts:358-371 | Merging the order again leaves the merged order as it is, without conflict, given that what the proposal drops is gone and what the base had and still is there was in the draft. |
| `Drafts.ReadWrite` | packages/core/src/merge.ts:420-473 | A write replaces the first value at its own place, removing it uncovers the next, and all values at every place that does not overlap it are undisturbed; identities may repeat. |
| `Drafts.WriteKeepsUnique` | packages/core/src/story-merge.ts:298-344 | Applying a value to a draft that names no identity twice gives one that names no identity twice, and leaves no empty collection behind. |
| `Drafts.OrderReads` | packages/core/src/story-merge.ts:372-384 | Reordering a list by its identities changes no value that is read and drops what was hidden behind a repeated identity. |
| `Drafts.RemoveEmptyReads` | packages/core/src/story-merge.ts:345-356 | Removing an empty story changes no value, and doing it twice is doing it once. |
| `ContributionKeys.KeysIdentifyTargets` | packages/core/src/merge.ts:118-142 | Changes with equal keys have the same target, so the keys are injective although they are joined by colons and slashes. |
| `ContributionLaws.AdmittedIndependent` | packages/core/src/merge.ts:516-534 | The admission checks ensure that no two changes can touch the same value and that every change is well shaped. |
| `ContributionRules.ShapeExactly` | packages/core/src/merge.ts:144-250 | A change is refused for its shape if and only if base and proposal are not there as its operation asks, a proposed value does not name itself or does not fit the schema, an order names something twice, or a value a creation cannot be without is unset; the last has an error of its own. |
| `ContributionRules.AdmissionExactly` | packages/core/src/merge.ts:494-555 | A contribution is admitted if and only if there is a base of the same creation where one is needed, no two changes have one key, no variant is changed beside its slot, and every change is well shaped, changes something and was made from that base. |
| `ContributionRules.WholeValueOutcome` | packages/core/src/merge.ts:386-406 | A change of a whole value is done when the draft holds the proposal, applied when it holds the base, and else a conflict over the missing slot or over the value. |
| `ContributionRules.ObjectOutcome` | packages/core/src/merge.ts:556-603 | An object conflicts on exactly the fields whose merge conflicts, is done when the draft holds the merged object already, and is applied otherwise. |
| `ContributionRules.OrderOutcomeExactly` | packages/core/src/merge.ts:604-629 | An order change conflicts exactly when base, draft and proposal order what they share in three ways, is done when the draft has the merged order, and is applied otherwise. |
| `ContributionRules.MergeExactly` | packages/core/src/merge.ts:535-660 | A merge gives a report exactly when the contribution is admissible and its orders name what it proposes, and a result exactly when nothing conflicts and the merged draft is valid; an invalid one makes every outcome a conflict. |
| `ContributionLaws.WholeValueConflict` | packages/core/src/merge.ts:386-406 | A change of a whole value conflicts exactly when the draft left the base and does not already hold the proposal, or its slot is missing. |
| `ContributionLaws.UntouchedNeverConflicts` | packages/core/src/merge.ts:11-21 | Where the draft still holds the base value, a change never conflicts. |
| `ContributionLaws.ChangedPlaces` | packages/core/src/merge.ts:593-603 | In the result each changed place holds what its change settles on, judged against the untouched draft; a removal uncovers what the draft had behind it. |
| `ContributionLaws.Frame` | packages/core/src/merge.ts:19-21 | Every value that no change overlaps is in the result exactly what it was in the draft. |
| `ContributionLaws.OrderOfResult` | packages/core/src/merge.ts:604-629 | In the result of a successful merge every reordered list names its objects once each, and keeps the draft's order where the contribution moved nothing that all sides share and the draft did, and the proposed order otherwise. |
| `ContributionRules.OrderKept` | packages/core/src/merge.ts:420-429 | A list that no change reorders keeps the draft's order in the result, what is gone left out; what the contribution adds follows, in the order of its changes. |
| `ContributionRules.StoryExactly` | packages/core/src/story-merge.ts:345-356 | A contribution to objects or orders never leaves a story with nothing in it; any other leaves the story as it is, empty or not. |
| `ContributionLaws.Reapplication` | packages/core/src/merge.ts:23-25 | Merging a contribution into its own result marks every change already applied and gives the same result, keyed changes, field-merged objects and orders together, if and only if no applied removal uncovers a second value and every merged reference list stays merged. |
| `ContributionLaws.KeyedChangeSettles` | packages/core/src/merge.ts:386-406 | Judged again where its own result stands, a change has nothing left to do exactly when it meets that condition. |
| `ContributionLaws.DistinctAppliesOnce` | packages/core/src/merge.ts:23-25 | Drafts that name no identity twice and proposals that name no reference twice always meet the condition. |
| `ContributionLaws.RepeatedReferenceBreaksReapplication` | packages/core/src/merge.ts:23-25 | For every draft with a plotline of two scenes: proposing them in another order with one named twice merges, and merging again does not give the same report. |
| `ContributionLaws.RepeatedIdentityBreaksReapplication` | packages/core/src/merge.ts:420-429 | For every draft that names an edge twice: removing the edge merges and uncovers the other one, and merging again does not give the same report. |
| `ContributionOrder.Commutation` | packages/core/src/merge.ts:535-660 | Listing the same changes in another order is admitted or refused alike, gives every change the same outcome, and a result with the same values at every key, hidden ones included; identities may repeat. |
| `MergeRun.UpsertEntry` | packages/core/src/merge.ts:420-429 | The search-and-splice computes the replacement, removal or appending of an entry. |
| `MergeRun.Working.Apply` | packages/core/src/merge.ts:431-473 | Changing the working copy in place gives exactly the draft with that place written. |
| `MergeRun.Working.ApplyListOrder` | packages/core/src/story-merge.ts:372-384 | Reordering in place gives exactly the draft with that list in the given order. |
| `MergeRun.Admit` | packages/core/src/merge.ts:494-555 | The checks, in their order, refuse exactly what the specification refuses, with the same error. |
| `MergeRun.ApplyOrderChanges` | packages/core/src/merge.ts:604-629 | The second pass leaves the working copy and the outcomes as specified, each order judged against the copy as it is by then. |
| `MergeRun.RunMerge` | packages/core/src/merge.ts:488-660 | The whole merge with its mutable copies computes the specified report, and hands out a result only when nothing conflicts. |
| `MergeRun.VariantSlotsReady` | packages/core/src/merge.ts:453-456 | The slot that an applied variant change writes into exists when its turn comes. |
| `Crc.ByteStep` | packages/ccv3/src/bytes.ts:12-29 | Eight register steps are one table lookup on the low byte and a shift of the rest. |
| `Crc.TableTurn` | packages/ccv3/src/bytes.ts:25-27 | One turn of the table loop feeds the eight bits of one byte to the bitwise register. |
| `Crc.BuildTable` | packages/ccv3/src/bytes.ts:12-20 | The table holds, at each of 256 places, eight steps of the reflected polynomial. |
| `Crc.Crc32` | packages/ccv3/src/bytes.ts:23-29 | The table-driven loop computes the bit-by-bit checksum for every byte string and seed. |
| `Crc.ChecksumInPieces` | packages/ccv3/src/bytes.ts:22-29 | A checksum continued over a second piece is the checksum of both together. |
| `CodecLaws.EndChecksum` | packages/ccv3/src/bytes.ts:12-29 | The checksum of the type of an end chunk is AE426082, the four bytes every PNG file ends with. |
| `Base64.DecodeEncode` | packages/ccv3/src/bytes.ts:151-199 | Decoding what was encoded gives the bytes back, for every byte string. |
| `Base64.ReencodeExactly` | packages/ccv3/src/bytes.ts:173-199 | An accepted text is restored by encoding its bytes if and only if it is padded, unspaced and has no stray bits. |
| `CodecLaws.AlphabetExactly` | packages/ccv3/src/bytes.ts:142-149 | The letter of each value is the one at its place in the alphabet of section 4 of RFC 4648. |
| `CodecLaws.EncodeExactly` | packages/ccv3/src/bytes.ts:151-171 | Each three bytes, or what is left of them, have four characters: letters whose values hold the same 24 bits, and an equals sign for each byte that lacks. |
| `CodecLaws.DecodeAccepts` | packages/ccv3/src/bytes.ts:173-199 | A text is decoded if and only if, tabs, line ends and spaces apart, it is letters, not one more than a multiple of four, padded, if at all, to a multiple of four with one or two equals signs. |
| `Base64.Base64Encode` | packages/ccv3/src/bytes.ts:151-171 | The loop over groups of three and its two endings compute the specified text. |
| `Base64.Base64Decode` | packages/ccv3/src/bytes.ts:173-199 | Stripping, padding checks and the accumulator loop compute the specified bytes, or the specified error. |
| `Base64.DecodeInto` | packages/ccv3/src/bytes.ts:182-196 | The accumulator loop accepts exactly letters and fills the output exactly with the bytes they spell. |
| `Base64.BuildIndex` | packages/ccv3/src/bytes.ts:144-149 | The index holds the value of each letter and -1 elsewhere. |
| `Base64.TableIsCode` | packages/ccv3/src/bytes.ts:187-189 | Looking a character up agrees with the ranges of the alphabet, beyond the table as well. |
| `Png.U32There` | packages/ccv3/src/bytes.ts:35-50 | A 32-bit number is read back from its four bytes. |
| `Png.U32Back` | packages/ccv3/src/bytes.ts:35-50 | Any four bytes are written again from the number they hold. |
| `Png.LatinThere` | packages/ccv3/src/bytes.ts:94-118 | Bytes read as Latin-1 text are written back unchanged. |
| `Png.ReadInvertsWrite` | packages/ccv3/src/png.ts:59-110 | A chunk list is read back as it was written if and only if it is well-formed and within the limits. |
| `Png.WriteInvertsRead` | packages/ccv3/src/png.ts:59-110 | Every accepted file is written back byte for byte, and its chunks are well-formed. |
| `CodecLaws.FileExactly` | packages/ccv3/src/png.ts:94-110 | Chunks can be written if and only if every type is four letters; the file is the eight bytes of the signature and then, for each chunk, the length of its data, its type, its data, and the checksum over type and data. |
| `Png.WellFormedCons` | packages/ccv3/src/png.ts:67-90 | What the reader checks chunk by chunk amounts to the well-formedness of the whole list. |
| `PngText.TextChunkExactly` | packages/ccv3/src/png.ts:112-132 | An entry is written as some data if and only if the data is read as that entry and its text has no zero byte. |
| `CodecLaws.TextExactly` | packages/ccv3/src/png.ts:112-132 | Data is read as an entry if and only if it is a keyword of 1 to 79 characters without a zero, a zero, and the text, character by character. |
| `CodecLaws.TextChunksExactly` | packages/ccv3/src/png.ts:122-171 | Which chunk is written for an entry, which entry a chunk holds, and that exactly text chunks holding an entry under a removed keyword are taken out. |
| `PngText.ReplaceLaw` | packages/ccv3/src/png.ts:155-177 | Replacing texts leaves the other chunks unchanged and in order, puts the new texts before the end, and the entries read are the remaining ones and then the new. |
| `PngText.ReplacedTextComesBack` | packages/ccv3/src/png.ts:155-177 | The resulting file is accepted exactly when there is room for it, and the first entry under a removed keyword is the first new one. |
| `PngText.CardRoundTrip` | packages/ccv3/src/export.ts:804-812 | A card exported into any accepted picture is the card the importer takes out of it, whatever cards the picture held. |
| `CodecLaws.CardChoice` | packages/ccv3/src/import.ts:211-222 | The card is taken from the first `ccv3` entry, from the first `chara` entry only when there is none, and from nothing else. |
| `PngText.StripLaw` | packages/ccv3/src/png.ts:144-153 | Stripping always gives an accepted file of the same image chunks, is idempotent, and changes a file exactly when it held metadata. |
| `CodecLaws.StrippedKinds` | packages/ccv3/src/png.ts:144-153 | A chunk is left by stripping if and only if it is none of `tEXt`, `zTXt`, `iTXt`, `eXIf` and `tIME`. |
| `PngRun.WriteU32BE` | packages/ccv3/src/bytes.ts:45-50 | The four stores leave the big-endian bytes in place and the rest of the buffer alone. |
| `PngRun.SetBytes` | packages/ccv3/src/bytes.ts:66-76 | Copying into a buffer replaces exactly that stretch of it. |
| `PngRun.CheckOf` | packages/ccv3/src/png.ts:84-84 | The two chained checksum calls are the checksum over type and data. |
| `PngRun.EncodePngChunk` | packages/ccv3/src/png.ts:94-103 | Writing length, type, data and checksum into one buffer gives the specified chunk bytes. |
| `PngRun.ReadPngChunks` | packages/ccv3/src/png.ts:59-92 | The loop with its offset reads exactly the specified chunks, or fails with the specified error. |
| `Template.ParseThere` | packages/core/src/template.ts:94-109 | The text of a placeholder the mode knows is parsed as that placeholder. |
| `Template.ParseBack` | packages/core/src/template.ts:94-109 | Whatever is parsed as a placeholder is the text of that placeholder, and the mode knows it. |
| `TemplateLaws.PlaceholderExactly` | packages/core/src/template.ts:94-117 | Each placeholder has one spelling, in one mode, with the forms of names written out; a known kind with a name of the wrong form is told from what is no placeholder. |
| `TemplateLaws.IssuesPoint` | packages/core/src/template.ts:69-88 | Every issue points at two braces that nothing closes, or whose inside, up to the first closing ones, is no placeholder for the reason the issue gives. |
| `Template.ItemsOfText` | packages/core/src/template.ts:40-92 | A text without issues is the print of what was read from it. |
| `Template.ItemsOfPrint` | packages/core/src/template.ts:40-92 | What is printed is read back item by item, whatever braces stand beside placeholders. |
| `TemplateLaws.TokenizeRender` | packages/core/src/template.ts:135-155 | Rendering a list without empty or adjacent texts, placeholders kept, and tokenizing it gives the list back without issues. |
| `TemplateLaws.RenderTokenize` | packages/core/src/template.ts:135-155 | Tokenizing a text without issues gives such a list, whose rendering is the text. |
| `TemplateLaws.MeansExactly` | packages/core/src/template.ts:40-128 | There is exactly one issue-free text for given tokens: their print. |
| `TemplateLaws.SubstitutionExactly` | packages/core/src/template.ts:135-155 | Pieces escaped one by one mean their concatenation if and only if no brace run has two literal pieces of odd count. |
| `TemplateLaws.OddSeamBreaks` | packages/core/src/template.ts:135-138 | A brace before a placeholder, a list that renders and tokenizes back, rendered with a brace for the placeholder gives the opening of a placeholder, so the output is not always a valid template. |
| `TemplateLaws.RenderMeansExactly` | packages/core/src/template.ts:139-155 | Rendering with substitutions means the substituted pieces exactly under that seam condition. |
| `TemplateLaws.FinalizeRendered` | packages/core/src/template.ts:174-183 | Rendered text, finalized, says its pieces one after another with late placeholders bound. |
| `TemplateLaws.FinalizeEscape` | packages/core/src/template.ts:125-128 | Finalizing an escaped text gives the text back, for every string. |
| `TemplateRun.RunStep` | packages/core/src/template.ts:58-68 | Reading a run by its length in groups of four, with remainder 0 to 3, is reading it four braces at a time. |
| `TemplateRun.ReadOpening` | packages/core/src/template.ts:69-88 | An opening adds its token or its issue and moves on as specified, to the end of the text when nothing closes it. |
| `TemplateRun.TokenizeTemplate` | packages/core/src/template.ts:40-92 | The loop with its buffer computes the specified tokens and issues. |
| `TemplateRun.RenderTemplate` | packages/core/src/template.ts:139-155 | The loop computes the specified rendering. |
| `TemplateRun.FinalizeIrText` | packages/core/src/template.ts:175-183 | The loop computes the final text, or the first issue. |
| `CardLaws.RoundTripExactly` | packages/ccv3/src/text.ts:23-73 | For every card text the template tokenizes without issues and has no placeholders but the two; and the text comes back from it if and only if its recognised macros are spelled `{{char}}` and `{{user}}`. |
| `CardLaws.TemplateExactly` | packages/ccv3/src/text.ts:27-73 | The template is made stretch by stretch: `{{self}}` for what says the character, `{{user}}` for what says the user, and every other stretch with its braces escaped. |
| `CardLaws.SegmentExactly` | packages/ccv3/src/text.ts:36-71 | What a text begins with: `<bot>`, `<char>` or `<user>` in any case; a macro from two braces to the first two closing ones, known if and only if it says `char` or `user` between white space in any case; all that follows, when nothing closes it; or one character. It stands for the character or the user exactly by that spelling. |
| `CardLaws.MacroExactly` | packages/ccv3/src/text.ts:60-62 | The inside of a macro means the character if and only if it is `char` between white space, in any case, and the user if and only if it is `user`. |
| `CardLaws.TagExactly` | packages/ccv3/src/text.ts:17-49 | A tag means the character if and only if it is `<bot>` or `<char>` in any case, and the user if and only if it is `<user>`. |
| `CardText.SegmentsCover` | packages/ccv3/src/text.ts:34-71 | The segments as written are the text, and the macros among them are the recognised spellings. |
| `CardText.SegmentsSeams` | packages/ccv3/src/text.ts:51-70 | No two literal pieces of the translation share a brace run with odd counts. |
| `CardRun.EscapeMacro` | packages/ccv3/src/text.ts:62-65 | Escaping the inside of an unknown macro between escaped braces is escaping the macro as a whole. |
| `CardRun.CardTextToTemplate` | packages/ccv3/src/text.ts:27-73 | The loop computes the specified template and reports exactly the unknown macros, in order. |
| `Sorting.SortExactly` | packages/assembler/src/assemble.ts:330-337 | A list is the stable sort of another if and only if it is sorted and has the same ties in the same order. |
| `Presentation.CompareIsOrder` | packages/assembler/src/assemble.ts:314-337 | The comparison by scope, owner and path of orders is total and transitive. |
| `Presentation.CompareExactly` | packages/assembler/src/assemble.ts:308-337 | One style comes before another by scope, narration, scene, participant; then by the first use of its owner, an unknown owner counting as the first; then by the first difference of its orders, the shorter path first. |
| `Presentation.PresentExactly` | packages/assembler/src/assemble.ts:308-341 | The presentation is the one arrangement that fixes every non-style position and has the styles sorted stably; it is a permutation. |
| `Presentation.PresentByLoop` | packages/assembler/src/assemble.ts:338-341 | Handing the sorted styles to the style slots computes that arrangement. |
| `MessageLaws.ShownExactly` | packages/assembler/src/assemble.ts:308-341 | Every candidate is shown once; what is no style stands at its own place, styles stand at the places of styles in that order, and those it does not tell apart as they came. |
| `Messages.MergeLaw` | packages/assembler/src/assemble.ts:582-611 | Merging keeps all sources, attachments and text in order and every spoken message, leaves no adjacent system messages, is the identity exactly when there were none, and is idempotent. |
| `Messages.MergeAdjacentSystemMessages` | packages/assembler/src/assemble.ts:583-600 | The loop with its run buffer computes the specified merge. |
| `MessageLaws.MergeByRuns` | packages/assembler/src/assemble.ts:582-611 | The merged messages are the runs of the given ones: a message by itself stays as it is, several system messages become one with their contents joined by empty lines and their sources and attachments in order. |
| `MessageLaws.MessagesExactly` | packages/assembler/src/assemble.ts:401-415 | A runtime that takes many system messages gets them as laid out; one that takes one gets them merged, or the error when two remain apart. |
| `AssemblyLaws.QueueLaw` | packages/assembler/src/assemble.ts:471-476 | Every optional candidate is tried once, normal ones before opportunistic ones, by admission order and then place. |
| `AssemblyLaws.GreedyExactly` | packages/assembler/src/assemble.ts:471-489 | The set that is found is the only one in which each candidate of the queue is in exactly when it is admitted beside those in before it. |
| `AssemblyLaws.IncludedExactly` | packages/assembler/src/assemble.ts:423-489 | Assembly succeeds with a set if and only if the mandatory part fits, regions included, and the set follows that rule. |
| `AssemblyLaws.AdmissionLaw` | packages/assembler/src/assemble.ts:417-489 | On success every required or pinned candidate is in, no region exceeds its limit, and the cost by sources and by messages is within the input budget. |
| `AssemblyLaws.NothingMoreFits` | packages/assembler/src/assemble.ts:473-489 | With a counter monotone in the chosen set, no skipped candidate could be added to the final set. |
| `AssemblyLaws.RemainingIsImplied` | packages/assembler/src/assemble.ts:473-487 | The running remainder never refuses a candidate that region and cost would admit. |
| `MessageLaws.RegionSays` | packages/assembler/src/assemble.ts:362-385 | A region has a message exactly when it has a block or a chosen candidate; its parts are exactly the texts of its blocks, the header of examples when due, and the non-empty texts of its chosen candidates in the order they are shown, by their places; sources and attachments likewise. |
| `MessageLaws.LayoutExactly` | packages/assembler/src/assemble.ts:386-400 | Before merging the messages are the enabled main policy blocks, then for each place of the layout every history line in full or the message of the region, then the enabled policy blocks after the history. |
| `MessageLaws.EveryMessageIsSaid` | packages/assembler/src/assemble.ts:386-416 | Every message that is laid out, a line of history or a policy block as well, stands in full in a finished message, merged or not, with its sources and attachments; if it is not the system's, as it is. |
| `MessageLaws.IncludedIsSaid` | packages/assembler/src/assemble.ts:362-416 | For each place of the layout that shows the region of an included candidate, a finished system message names the candidate as a source and holds, side by side and in order, exactly the parts of the region, its text among them, and its attachments, merged or not. |
| `MessageLaws.CostExactly` | packages/assembler/src/assemble.ts:345-361 | The cost is the larger of two sums: over every line, session block, enabled policy block and chosen candidate, and over the finished messages; a region is charged with its own chosen candidates. |
| `MessageLaws.RefusalExactly` | packages/assembler/src/assemble.ts:423-470 | Which error comes first: fixed content over budget; the mandatory part over budget, blamed on required fragments exactly when the pinned ones alone would fit; a region over its limit. |
| `AssemblyRun.ChargeMandatory` | packages/assembler/src/assemble.ts:456-470 | The loop succeeds exactly when no region is over its limit, and then knows what each region uses. |
| `AssemblyRun.AdmitQueue` | packages/assembler/src/assemble.ts:473-489 | The running counts of remainder and region usage admit exactly what the sums over the included set admit. |
| `AssemblyRun.Admission` | packages/assembler/src/assemble.ts:423-489 | The whole allocation, with its errors in their order, computes the specified set. |
| `Trace.TotalIsCost` | packages/assembler/src/assemble.ts:490-552 | When no source shares its identifier with a candidate that costs anything, the included entries of the trace add up to the cost of what is included, which is within the budget. |
| `Trace.TraceAddsExactly` | packages/assembler/src/assemble.ts:503-552 | Whatever is chosen, the trace adds up to the larger of what the sources and what the messages cost, if and only if no source shares its identifier with a candidate that costs anything. |
| `Trace.DistinctAreOwn` | packages/assembler/src/prepare.ts:295-340 | Keeping all identifiers apart, as the callers do by keying what they prepare, is enough. |
| `Trace.TraceListed` | packages/assembler/src/assemble.ts:490-552 | With identifiers apart the trace lists, in order, every fragment and extra with what it counts and whether it is in, every session block, the history as one entry, every policy block, and what the messages cost beyond their sources. |
| `Trace.WriteTrace` | packages/assembler/src/assemble.ts:490-552 | The loops that record entries, look them up and sum them compute the specified trace and total. |
| `Graph.CycleIsIllegal` | packages/core/src/build.ts:110-115 | A build that reaches a cycle has paths beyond any bound, so it is not legal. |
| `Graph.PathsAreShort` | packages/core/src/build.ts:114-115 | No path from a release is longer than its cached height. |
| `Graph.LongestPath` | packages/core/src/build.ts:177-195 | Some path from a release is as long as its cached height. |
| `Graph.LegalExactly` | packages/core/src/build.ts:96-198 | A build is legal if and only if the root is given, everything it uses is sound with every dependency pinned to an input of the same name and digest and an accepted kind, no chain of pins has more than 32 links, and there are at most 5000 visits. |
| `GraphRun.Builder.Visit` | packages/core/src/build.ts:96-197 | The memoised visit errs only for illegal builds, keeps the walk sound, ends by unvisited inputs, and leaves a height within the depth that is left. |
| `GraphRun.Builder.VisitDeps` | packages/core/src/build.ts:150-196 | After all its dependencies the release has its height and is no longer in progress. |
| `GraphRun.WalkedAll` | packages/core/src/build.ts:96-198 | A finished walk has visited exactly the releases in reach and each of their dependencies once, and shows the build legal. |
| `GraphRun.WalkGraph` | packages/core/src/build.ts:92-198 | A build is accepted if and only if every dependency of everything it uses is met, by name, digest and kind, and depth and size are within the limits; then the nodes are exactly the reachable releases, the heights their longest paths, and each yanked release is warned of once. |
| `Scope.CheckScope` | packages/core/src/build.ts:242-281 | A scope is accepted if and only if no name stands for two releases in it, and its members are exactly what is in reach without derivations. |
| `Scope.CheckSources` | packages/core/src/build.ts:286-294 | The scopes of all derivation sources pass exactly when each has one release for each name. |
| `Scope.MaterialComplete` | packages/core/src/build.ts:262-277 | In a legal build a scope never meets a release that is missing. |
| `Scope.Build` | packages/core/src/build.ts:68-294 | A build passes if and only if its graph is legal and all its scopes hold; the result is what it reaches. |
| `GraphLaws.ScopesExactly` | packages/core/src/build.ts:242-294 | The scopes hold if and only if in what the root uses, and in what each source that something derives from uses, derivations left aside, every name stands for one release. |
| `GraphLaws.AcceptableExactly` | packages/core/src/preset.ts:58-195 | A policy is accepted if and only if every import of everything it uses is met, by name, digest and kind, depth and size are within the limits, and every name stands for one release. |
| `GraphLaws.UnmetRefuses` | packages/core/src/build.ts:166-194 | One dependency that is not met, anywhere in what is used, refuses the build, and the policy. |
| `Flatten.EmitLaw` | packages/core/src/preset.ts:57-181 | From a root with a height exactly the modules in reach are emitted, each once, each after everything it imports, the root last. |
| `Flatten.EmitOrder` | packages/core/src/preset.ts:57-181 | The modules come in the order of the walk without caches, imports in the order they are declared and a module after them, each at its first place in that walk. |
| `FlattenWalk.VisitEmits` | packages/core/src/preset.ts:87-181 | The visit with its caches emits as the plain dependency-first emission does. |
| `FlattenWalk.VisitLocks` | packages/core/src/preset.ts:150-156 | The lock names each visited module but the root, once. |
| `FlattenWalk.VisitSound` | packages/core/src/preset.ts:94-164 | The visit errs only for policies that are not acceptable and otherwise leaves a sound walk, heights and one release for each name. |
| `FlattenRun.Flattener.Visit` | packages/core/src/preset.ts:87-181 | The visit that updates its fields computes the specified state or error. |
| `FlattenRun.FlattenPolicy` | packages/core/src/preset.ts:58-195 | A policy is flattened if and only if it is acceptable; blocks come in dependency order and order of declaration, and the lock names each imported module once. |
| `Preset.BlocksAreDistinct` | packages/core/src/preset.ts:165-179 | Blocks of the flattened policy have different identifiers, the module's name keeping them apart. |
| `PresetLaws.BlockAtExactly` | packages/core/src/preset.ts:183-193 | A placement names a block if and only if there is a list of releases from the root, one longer than the imports of its path, in which each next one is what the import of that name of the one before pins, and the last one declares the block under the last name of the path. |
| `PresetLaws.SplitExactly` | packages/core/src/preset.ts:184-184 | A path is its names with slashes between them, and no name holds a slash. |
| `PresetLaws.BlocksExactly` | packages/core/src/preset.ts:165-179 | The flattened blocks are those of the releases, one after another, each with the name of its module, its origin and its declaration, in the order of declaration. |
| `Preset.PlacedApart` | packages/core/src/preset.ts:215-218 | No two placements give the same identifier. |
| `Preset.PlaceLaw` | packages/core/src/preset.ts:208-228 | Each block stands in the result once for each placement that names it, or once by default when none does. |
| `PresetLaws.PlaceExactly` | packages/core/src/preset.ts:201-228 | Placing gives a list if and only if every placement names a block, no two under one name, and the list holds those blocks under these names at the positions of their placements, in order, and then the blocks no placement names, in order, at their default positions. |
| `PresetLaws.PlaceFails` | packages/core/src/preset.ts:209-218 | When placing fails there is a first placement at fault: it names no block, or one under a name already given. |
| `Preset.PresetLaw` | packages/core/src/preset.ts:201-228 | The same for every block of every module in reach of the preset. |
| `Preset.PlaceByLoop` | packages/core/src/preset.ts:208-228 | The loops with their sets compute the specified placement, or its first error. |
| `Preset.ResolvePreset` | packages/core/src/preset.ts:201-238 | Exactly the acceptable policies go on to placement, on blocks in dependency order. |
| `SelectionLaws.ReplayExactly` | packages/assembler/src/selection.ts:52-67 | A replay succeeds exactly when its steps do and, if anything was expanded, all expansions together are within the directory budget. |
| `SelectionLaws.ItemsExactly` | packages/assembler/src/selection.ts:77-96 | The items pass if and only if each was shown, not finally rejected, is no container, has the form of its kind, and none comes twice. |
| `SelectionLaws.ValidExactly` | packages/assembler/src/selection.ts:46-103 | A plan is accepted if and only if it fits its catalog, its decisions replay, its items hold, and no source is taken whole and in part. |
| `SelectionLaws.AcceptedLaw` | packages/assembler/src/selection.ts:45-103 | Everything an accepted plan chose was shown at first or is reached by a trail of its own expansions no deeper than the limit, within the budget, without duplicates or overlap. |
| `ReplayLaws.InitialExactly` | packages/assembler/src/selection.ts:17-26 | What is shown at first: each node of the directory, the last of several with one key, at the depth it stands. |
| `ReplayLaws.AcceptedExactly` | packages/assembler/src/selection.ts:46-103 | A plan is accepted if and only if it is for the catalog, its decisions can be run one by one, each about something shown and each expansion of a branch that is not too deep, directory and expansions cost no more than the budget, and its items are shown, not rejected in the end, of the right form, different, and no source whole and in part. |
| `ReplayLaws.KeysIdentifyRefs` | packages/assembler/src/catalog.ts:66-72 | References have one key only when they are one reference, given that sources hold no slash and kinds of stories no colon. |
| `FixedSelection.AncestorsLead` | packages/assembler/src/selection.ts:109-117 | The recorded ancestors of a node are a path from the directory down to it. |
| `FixedSelection.DescendExactly` | packages/assembler/src/selection.ts:122-129 | Going down to what is not shown succeeds if and only if the first node of the path that lists it is within the depth; then it shows what that node and those before it list, and the expansions replay. |
| `FixedSelection.FixedPlanExactly` | packages/assembler/src/selection.ts:105-143 | Decisions are found if and only if each reference is shown by then or listed within the depth on its recorded path; the plan is accepted if and only if they are found, may be chosen together, and the expansions fit the budget. |
| `FixedSelection.ChoicesExactly` | packages/assembler/src/selection.ts:118-131 | The choices of the fixed plan are its references, selected in order. |
| `FixedSelection.OpensExactly` | packages/assembler/src/selection.ts:122-129 | It expands nothing but recorded ancestors of its references. |
| `FixedSelection.WithinDepthFindable` | packages/assembler/src/selection.ts:118-131 | References whose recorded paths are within the depth are always found. |
| `FixedSelection.SharedFragmentIsMissed` | packages/assembler/src/selection.ts:114-131 | Where a fragment stands at two depths and the deeper path is recorded, selecting it fails while a plan by hand is accepted. |
| `FixedSelection.NonePlanExactly` | packages/assembler/src/selection.ts:145-153 | The empty plan is accepted if and only if what is in directly does not overlap. |
| `Catalog.GroupInOrder` | packages/assembler/src/catalog.ts:309-331 | The node of a group, built where it is met first, leaves all trees in order: every child under its key, everything with children at one level. |
| `Catalog.CatalogIsLevelled` | packages/assembler/src/catalog.ts:309-374 | In every catalog what has children has exactly one level, although a fragment may be listed at several; the directory shows works at the top and their children below. |
| `Catalog.CatalogIsWithin` | packages/assembler/src/catalog.ts:350-366 | The directory of every catalog is within its depth. |
| `CatalogLaws.CatalogExactly` | packages/assembler/src/catalog.ts:309-388 | A catalog has the works that have something under them, in order, each with its fragments, the groups met first under it and its sources; every group in it stands once, titled and filled as its definition says; every group that is met and lists a fragment that is there stands in it; the directory shows two levels. |
| `CatalogLaws.CatalogOutcome` | packages/assembler/src/catalog.ts:309-374 | Limits are refused exactly when the depth is not from 1 to 32, and then a missing group exactly when one that is met is not defined; a directory that is shown is within its budget. |
| `Catalog.FixedPlanOfCatalog` | packages/assembler/src/selection.ts:105-143 | For every catalog that is built, the fixed selector's plan is made and accepted exactly under the condition above. |
| `Catalog.SharedEntryIsMissed` | packages/assembler/src/selection.ts:109-131 | A work with a group that holds a fragment and a group in a group that holds it too: the catalog is built, selecting the fragment fails, and a plan that expands the first group is accepted. |
| `CatalogRun.Builder.GroupNode` | packages/assembler/src/catalog.ts:309-331 | The recursion that changes the map of nodes and the set of groups computes the specified trees, or the specified error. |
| `CatalogRun.BuildContextCatalog` | packages/assembler/src/catalog.ts:309-388 | The loop over works, the trimming and the budget check compute the specified catalog. |
| `SelectionRun.ValidateSelectionPlan` | packages/assembler/src/selection.ts:46-103 | The loops with their maps and sets give the specified verdict, with the same error. |
| `SelectionRun.FixedSelectionPlan` | packages/assembler/src/selection.ts:106-143 | The loops over references and paths compute the specified plan and its verdict. |

## Left out

- ContributionLaws.Reapplication: takes as given that the schema accepts only objects with the field their kind demands (`id`, `key`, `type` or `start`), in drafts and in proposals.
- ContributionOrder.Commutation: takes as given that the final check does not depend on the positions of entries with different identities inside their lists.
- Trace.TotalIsCost: that callers keep identifiers apart is taken from `packages/assembler/src/prepare.ts`, whose admission of references is not modelled.
- AssemblyLaws.NothingMoreFits: needs a counter for which choosing more never makes the finished messages cheaper.
- Catalog.CatalogIsLevelled: takes as given that fragments, sources and sections stand under their own keys and that sections have no children; which of them are visible or direct is decided by code that is not modelled.
- FlattenRun.FlattenPolicy: takes as given that imports are pinned, as the schema of policies demands.
- Preset.PresetLaw: takes as given that names hold no `#` and that a module's blocks have different names, as the schemas demand.
- ContributionKeys.KeysIdentifyTargets: uses that slot names hold no slash, as their syntax demands.
- ContributionRules.OrderKept: is stated for lists that name no identity twice.
- Trace.TraceListed: is stated for identifiers that are apart, which callers see to.
- ReplayLaws.KeysIdentifyRefs: uses the syntax of identifiers of sources and kinds of stories.
- Digests are equality of canonical values; SHA-256, canonical JSON and Unicode normalisation are not modelled.
- Schema validation of proposed values and the final canonical check of a merged draft are the abstract predicates `accepts` and `valid`; diagnostics are not listed.
- Conflict paths are a set: their order and repetition in the report are not modelled. Sensitive flags, echoed digests and error texts are left out of outcomes.
- In builds: the visit of a default policy, local build inputs, duplicate inputs, sorting of the lock and the `via` paths. A release's own faults are data of the model.
- In assembly: rendering of fragments, locale and activation, profile capabilities other than multiple system messages. Candidates come rendered, the tokenizer is an arbitrary function to natural numbers, and reasons and regions of trace entries are dropped.
- The sort of the runtime is modelled as a stable sort by what a stable sort must give.
- The texts of catalog nodes and the JSON that is counted: costs of a directory and of an expansion are given functions.
- PNG text and strip operations and the concatenation of chunks are modelled on values, as the source mostly writes them; the buffer of a text chunk is not modelled in place.
- Lower-casing touches ASCII letters only; no other letter has a lower-case form that spells a macro. Strings are sequences of characters, not UTF-16 units.
- Offsets, lengths and token counts are unbounded integers; 32-bit wrap-around is modelled where it occurs, in the CRC, the Base64 accumulator and the length fields.
- CHARX archives, UTF-8, JSON, inflate, the Resolver, Story evaluation, publishing, diffing, and export and import field mapping.
