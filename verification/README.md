# A verified model of the JSON engine and the missing-data sweep

The meter-polling daemon carries its own JSON library: a parser, a printer, a minifier and list editing in
`src/cJSON.c`, and JSON Pointer (RFC 6901), JSON Patch (RFC 6902), JSON Merge Patch (RFC 7396) and a list
sort in `src/cJSON_Utils.c`. Its idle loop in `src/main.c` sweeps over past days and meters to fill gaps in
the stored data. This project models these parts in Dafny and proves what they are for: that reading undoes
writing, that generated patches do their job, that the fast comparison is the slow one, that buffers are
never overrun, that lists stay intact, and that the sweep covers everything. Where the code does not keep
such a promise, the exact condition under which it does is proved, with a concrete counterexample.

`dafny verify dfyconfig.toml` checks the project with Dafny 4.11.

## How it is built

Code that changes things step by step appears twice: as a function that says what it computes, and as a
method with the loops and updates of the code, proved to compute that function. The theorems are about the
functions.

- `Text`, `Json`: C strings, the two key orders, trees of items, and the documents they denote (`Abs`:
  objects become maps from folded keys).
- `Sorting`, `Ordering`, `Compare`, `Arrange`: the merge sort as a function, and as a permutation of
  positions; the two comparisons, and what the sorting one does to the documents it compares.
- `Pointer`, `PointerExact`, `Patch`, `PatchGen`, `Generator`, `PatchInverse`: pointers, patches and their
  generation; the class `PatchList` is the list being made.
- `PatchStandard`, `PatchMoves`, `MemberOrder`: RFC 6902 as a function on documents, the code held against
  it, what moving and copying do, and the order of members after an edit.
- `PatchSteps`, `PatchKeys`, `PatchFrame`, `PatchRoundTrip`: what one generated operation does, which keys
  survive the unescaping, what an operation leaves alone, and from these the exact round trip.
- `PatchSound`, `PatchStrings`: what every patch keeps. `PatchSize`: how many patches are generated.
- `MergePatch`, `MergeGen`, `MergeExact`: merge patches, their generation, and exactly when it works.
- `Rendering`, `Layout`, `Printer`: the text of a tree, its layout, and the growing buffer that holds it.
- `StringCodec`, `StringRfc`, `Parser`, `ParseBuffer`, `ParseRoundTrip`: string literals, the parser as
  functions on offsets, the parser as it runs on a buffer and links new items, and print-then-parse.
- `Grammar`, `GrammarExact`, `Lexemes`: the texts of a value with their blanks, their numbers and strings, and
  that the parser takes these and no others.
- `Minify`, `MinifyExact`, `MinifyPrint`: the in-place minifier, what it keeps, and how it treats printed text.
- `SiblingList`, `ListSort`, `ItemTree`, `Duplicate`: items on the heap with `next`, `prev` and `child`; whole
  trees of them, and the value a tree holds.
- `ItemPaths`, `ItemEdit`, `ItemSort`, `ItemCompare`, `ItemTest`, `ItemPatch`, `ItemMerge`: pointers, sorting,
  comparing, patches and merge patches on such trees.
- `Sweep`: the sweep as a step machine and as a class.

A character stands for a byte; a Dafny string for a C string without its terminator. `cs` is the case rule
(`CI` is "ignore case"). `Regular` trees have no invalid item, 32-bit integer numbers and sibling keys
distinct under the case rule; `Printable` trees have no invalid item, 32-bit integers and C strings. A tree of
items is linked (`Tree(t, false)`) if `child` and the links inside every list are intact, and whole (`Tree(t)`)
if, moreover, the head of every list points back to its tail.

## What turned out not to hold

- `decode_pointer_inplace` (`src/cJSON_Utils.c:359-390`) does not move ordinary bytes after an escape and
  misplaces slashes. `Decodable` describes the keys that survive; `DecodeEncoded` and `DecodedSameKey` are
  if-and-only-if, `SlashNotDecodable` is a key that does not. So generated patches work exactly on
  `Survivable` documents: `PatchRoundTrip`; `SlashFails` is a pair on which they do not.
- `generate_merge_patch` orders keys with `strcmp` after sorting them without regard to case
  (`src/cJSON_Utils.c:1423`). `CapitalsFail` loses a member that way; `RoundTripExactly` says when the patch
  works, `NoPatch` when there is none, `RecasedMember` what happens to a key whose case changes. The
  case-sensitive generator ignores case below the first level (`src/cJSON_Utils.c:1455`): `InnerCaseLost`.
- `cJSON_Minify` takes a quote behind an escaped backslash for an escaped quote (`src/cJSON.c:2853`).
  `MinifyAgrees` is if-and-only-if.
- `sort_object` can leave the head pointing back to another item than the last, or to none, and
  `cJSON_AddItemToArray` then cuts the list or drops the item it is given (`src/cJSON_Utils.c:595-602`,
  `src/cJSON.c:1995-2001`). `SortObject` says exactly when, by the names before the call; `SortTwo` and
  `SortThree` are examples, `SortThenAdd` says what is lost.
- So a JSON Patch with a `test` can lose what a later operation adds, with status 0: `test` sorts the objects
  it compares (`src/cJSON_Utils.c:655-657`, `828-831`). The document {"b":1,"a":2}, tested against itself and
  then given a member "c", does not have it afterwards: `TestLosesMember`, and `SpecAdds` for what the patches
  ask for. `TestThenAdd` says it of every object whose first key is not below all others. `ApplyItem` says
  exactly when the lists are whole after one patch, `ApplyItems` follows a list of patches as long as no edit
  comes after a `test` that broke a list, and `WholeAnswer` says when a successful test breaks none.
- A `move` that fails at its target has removed the item already (`src/cJSON_Utils.c:917-934`), and a
  `replace` without a value too: `FailedMove`; `OperationMeets` says what every failure leaves. Nothing can be
  moved or copied to the root, where section 4 of RFC 6902 allows it: status 9. A removal by key ignores case
  even among case-sensitive patches: `RemovalAgrees` is if-and-only-if, as is `InsertAgrees` for keys that are
  not decodable.
- The parser takes more than RFC 8259: any byte up to the space as a blank, control characters in strings,
  numbers with leading zeros or without digits on one side of the point, and four bytes behind backslash-u that
  are no hexadecimal digits, which end the string (`src/cJSON.c:623-657`). It refuses numbers of more than 63
  bytes, deep nesting and lone surrogates. `ParsesExactly`, `NumeralsExactly` and `StringsExactly` are
  if-and-only-if.
- The two comparisons disagree on numbers beside an integer: `NumbersDisagree`.
- The sweep does nothing for ever when no old day is configured (`src/main.c:2136`): `NoDaysStall`.
- `decode_array_index_from_pointer` bounds only the first byte from above (`src/cJSON_Utils.c:285`), takes an
  empty token for 0 and wraps around: `IndexAccepted` is if-and-only-if, `IndexTooGenerous` has two examples;
  `DecodeDigits` says which numbers wrap, `IndexWraps` is one.

## Model

| member | source | states |
|---|---|---|
| `Text.CompareStrings` | src/cJSON_Utils.c:83-109 | the sign of the result decides equality and strict order of the two keys under the case rule |
| `Text.LowerByTable` | src/cJSON_Utils.c:83-109 | ignoring case maps the 26 ASCII capitals to their small letters and changes no other byte |
| `Sorting.SortCorrect` | src/cJSON_Utils.c:484-593 | sorting yields the same members in non-decreasing key order, for any list and either case rule |
| `Sorting.SortFirst` | src/cJSON_Utils.c:484-593 | for any list, the last of the least keys comes first |
| `Sorting.SortLast` | src/cJSON_Utils.c:484-593 | for any list, the first of the greatest keys comes last |
| `Sorting.LeastFirst` | src/cJSON_Utils.c:498-507 | the least key of a list is at its head and nowhere else exactly when every later key is above it |
| `Sorting.GreatestLast` | src/cJSON_Utils.c:498-507 | the first greatest key is the last item exactly when every earlier key is below it |
| `Ordering.SortPicks` | src/cJSON_Utils.c:484-602 | the sort as a permutation of positions that depends on the keys alone, so lists with the same keys are reordered alike |
| `Sorting.SortDistinct` | src/cJSON_Utils.c:484-602 | with distinct sibling keys the sorted list is strictly ascending and denotes the same map |
| `Compare.CompareDoubleInt` | src/cJSON.c:546-550 | on 32-bit integers the relative tolerance never confuses two numbers |
| `Compare.CompareDoubleRelative` | src/cJSON.c:546-550 | the tolerance is relative: numbers of one sign are equal exactly if the quotient of their magnitudes is at least 1 less 2^-52, those of two signs never |
| `Compare.SortedDecides` | src/cJSON_Utils.c:604-690 | the sort-and-zip comparison says yes exactly on equal documents (objects as maps) |
| `Compare.LookupCorrect` | src/cJSON.c:3009-3132 | the lookup comparison says yes exactly on equal documents |
| `Compare.ComparisonsAgree` | src/cJSON_Utils.c:604-690 | the sort-and-zip comparison and the quadratic lookup comparison give the same answer on regular documents |
| `Compare.NumbersDisagree` | src/cJSON_Utils.c:613-623 | 1 and the double just below it are equal to `cJSON_Compare` and different to `compare_json`, which also compares `valueint` |
| `Compare.FindMember` | src/cJSON.c:1898-1928 | the walk finds the first member of that name, or runs off the end |
| `Compare.CompareItems` | src/cJSON.c:3009-3132 | the recursive comparison with its loops computes the lookup comparison |
| `Compare.CompareArrays` | src/cJSON.c:3067-3089 | arrays: elementwise, and both must end together |
| `Compare.LookUpAll` | src/cJSON.c:3091-3127 | one of the two object loops: every member is found and equal on the other side |
| `Arrange.SameAnswer` | src/cJSON_Utils.c:604-690 | sorting in place what it compares, `compare_json` answers as the comparison of values does |
| `Arrange.WholeAnswer` | src/cJSON_Utils.c:604-690 | if it answers yes, the lists of either document are all whole afterwards if and only if sorting moves no end of any list in it (`EndsEverywhere`); if it answers no, they are at least then |
| `Generator.CompareJson` | src/cJSON_Utils.c:604-690 | the recursive comparison computes the sort-and-zip comparison |
| `Generator.CompareElems` | src/cJSON_Utils.c:635-653 | its array loop |
| `Generator.CompareSortedMembers` | src/cJSON_Utils.c:655-682 | its loop over the two sorted member lists |
| `Pointer.EncodedLength` | src/cJSON_Utils.c:157-170 | the length computed is that of the escaped token |
| `Pointer.EncodeInto` | src/cJSON_Utils.c:173-196 | exactly the escaped token and a terminator are written, nothing around it |
| `Pointer.ComparePointersLoop` | src/cJSON_Utils.c:120-154 | the two-cursor loop computes the matching predicate |
| `Pointer.EncodedMatches` | src/cJSON_Utils.c:120-154 | a name matches an escaped key followed by the rest of a pointer if and only if it is that key |
| `Pointer.DecodeIndexLoop` | src/cJSON_Utils.c:274-299 | the digit loop, with its test of the first byte only and its wrap-around at 2^64 |
| `Pointer.DecodeDigits` | src/cJSON_Utils.c:274-299 | a printed number reads back as its remainder by 2^64, so as itself if and only if it fits `size_t` |
| `Pointer.IndexAccepted` | src/cJSON_Utils.c:274-299 | exactly which tokens pass for array positions |
| `Pointer.IndexTooGenerous` | src/cJSON_Utils.c:274-299 | two tokens that pass although section 4 of RFC 6901 forbids them |
| `Pointer.IndexWraps` | src/cJSON_Utils.c:274-299 | the token 18446744073709551616 passes for 0 |
| `Pointer.GetItemFromPointer` | src/cJSON_Utils.c:301-346 | the walk computes the item a pointer names |
| `Pointer.GetItem` | src/cJSON_Utils.c:301-346 | whatever a pointer leads to is an item of the tree; `LookupExact` says which |
| `Pointer.StepLoop` | src/cJSON_Utils.c:313-337 | one token: an array position in range, or the first member whose name matches |
| `Pointer.FindPointer` | src/cJSON_Utils.c:198-259 | a pointer is produced exactly for items below the root, and it spells the way to the target |
| `Pointer.PointerRoundTrip` | src/cJSON_Utils.c:198-346 | following the pointer produced for an item leads back to that very item exactly when no earlier sibling on the way has its name |
| `Pointer.RegularFirstNamed` | src/cJSON_Utils.c:301-346 | with distinct sibling keys that condition holds for every item |
| `PointerExact.MatchExact` | src/cJSON_Utils.c:120-154 | a name matches a token exactly if it is the key that the token stands for by section 4 of RFC 6901; a token with any other escape stands for none |
| `PointerExact.IndexExact` | src/cJSON_Utils.c:274-299 | a token is taken for exactly the position it stands for: the remainder of its decimal number by 2^64, if its first byte is a digit and no later byte is below one |
| `PointerExact.StepExact` | src/cJSON_Utils.c:313-337 | a step leads to a child exactly if the token names it: its position, below the length, or its key and that of no member before it |
| `PointerExact.LookupExact` | src/cJSON_Utils.c:301-346 | a pointer leads to an item exactly if its tokens, one after the other, spell the way there |
| `PointerExact.NowhereExact` | src/cJSON_Utils.c:301-346 | it leads nowhere exactly if some token names no child of the item the tokens before it lead to |
| `Patch.DecodePointerInPlace` | src/cJSON_Utils.c:359-390 | the loop on the token's array computes the (faulty) unescaping and stays inside the array |
| `Patch.DecodeEncoded` | src/cJSON_Utils.c:359-390 | unescaping undoes escaping exactly for the keys that are `Decodable` |
| `Patch.DecodedSameKey` | src/cJSON_Utils.c:359-390 | ignoring case does not save any other key |
| `Patch.PlainDecodable` | src/cJSON_Utils.c:359-390 | keys without `~` and `/` are decodable |
| `Patch.SlashNotDecodable` | src/cJSON_Utils.c:375-378 | a concrete key, `a/b`, that comes back as `a~/` |
| `ItemEdit.FindLastSlash` | src/cJSON_Utils.c:443-450 | the last slash splits a path |
| `ItemEdit.DecodeToken` | src/cJSON_Utils.c:453-453 | the copy of the last token is unescaped as above |
| `Generator.PatchList.Compose` | src/cJSON_Utils.c:1096-1134 | one operation object is appended, its path extended by the escaped suffix |
| `Generator.PatchList.Create` | src/cJSON_Utils.c:1141-1279 | the patches appended are the operations of the specification, in order |
| `Generator.PatchList.CreateElems` | src/cJSON_Utils.c:1170-1213 | the array part: common elements, leftovers removed at one fixed index, additions at `-` |
| `Generator.PatchList.CreateRemovals` | src/cJSON_Utils.c:1192-1205 | the leftovers, all removed at the same index |
| `Generator.PatchList.CreateAdditions` | src/cJSON_Utils.c:1206-1210 | the additions |
| `Generator.PatchList.CreateMembers` | src/cJSON_Utils.c:1215-1274 | the walk over the two sorted member lists |
| `Generator.PatchList.CreateMember` | src/cJSON_Utils.c:1225-1272 | one round of that walk |
| `Generator.GeneratePatches` | src/cJSON_Utils.c:1281-1294 | the generated patch document |
| `PatchGen.NothingToDo` | src/cJSON_Utils.c:1141-1279 | no operation is generated exactly if `compare_json` says that the documents are equal |
| `PatchSize.OneEach` | src/cJSON_Utils.c:1141-1279 | exactly one operation is generated for each difference: a member or element without a partner, items of different types, simple items that differ |
| `PatchRoundTrip.PatchRoundTrip` | src/cJSON_Utils.c:1141-1294 | the generated patch list, applied to any document equal to `from`, succeeds and leaves a document that compares equal to `to`, if and only if every key that is lost, new or has its item replaced is decodable (`Survivable`); the document stays sound in any case, and regular if it compares equal |
| `PatchRoundTrip.SlashFails` | src/cJSON_Utils.c:359-390 | a concrete pair of documents, {} and {"a/b":null}, whose patch succeeds and leaves {"a~/":null} |
| `PatchSound.SoundAfterPatches` | src/cJSON_Utils.c:807-1094 | no list of patches, malformed and failing ones included, makes sibling keys of a document meet or numbers leave the 32-bit integers |
| `PatchSound.SoundCompared` | src/cJSON_Utils.c:604-690 | what `compare_json` leaves of two documents is equal to what they were, with distinct keys and 32-bit integers again |
| `PatchSound.SoundAfterOp` | src/cJSON_Utils.c:807-1036 | the same for one decoded operation |
| `PatchSound.OpsSound` | src/cJSON_Utils.c:1141-1279 | the generator only emits sound values |
| `PatchSound.EqualRegular` | src/cJSON.c:3009-3132 | a sound document that compares equal to a regular one is regular |
| `PatchStandard.FindMeets` | src/cJSON_Utils.c:301-346 | a pointer leads to the same place in a tree and in the document it denotes |
| `PatchStandard.AddMeets` | src/cJSON_Utils.c:961-1025 | putting a value at a pointer gives the document, or the status 9, 10 or 11, of sections 4.1 of RFC 6902 and 4 of RFC 6901 |
| `PatchStandard.DetachMeets` | src/cJSON_Utils.c:429-482 | taking out the item at a pointer yields that item and the document without it, and fails exactly if the pointer leads nowhere |
| `PatchStandard.EraseInsert` | src/cJSON_Utils.c:887-957 | removing at a pointer and then adding there replaces the value: section 4.3 of RFC 6902 |
| `PatchStandard.OperationMeets` | src/cJSON_Utils.c:807-1036 | each of the six operations gives the status and the document of a reference definition of section 4 of RFC 6902 on documents, failures and what they leave included, wherever `Ordinary` holds: the last token names its child to the code as it does to the standard |
| `PatchStandard.PatchesMeet` | src/cJSON_Utils.c:1038-1094 | so does a list of patches, up to the first failure |
| `PatchStandard.InsertAgrees` | src/cJSON_Utils.c:1005-1018 | an addition under a key does what the standard says exactly if the key is decodable, or the key meant and the key read have that value already |
| `PatchStandard.RemovalAgrees` | src/cJSON_Utils.c:464-467 | a removal by key does exactly if no member in front of the one meant differs from it in case only |
| `PatchMoves.MoveBeside` | src/cJSON_Utils.c:906-934 | a `move` between two places in one array or object, anywhere in a document: the item is taken out of the one and put into the other, and everything else is kept |
| `PatchMoves.MoveElement` | src/cJSON_Utils.c:906-934 | an element moved within its array stands at its new position, the others keep their order, and none is lost |
| `PatchMoves.MoveMember` | src/cJSON_Utils.c:906-934 | on the tree: a member moved to another key of its object is gone from the old key and stands under the new one; all else is kept; status 5, and nothing changed, exactly if it is not there |
| `PatchMoves.CopyMember` | src/cJSON_Utils.c:906-934 | a copy from anywhere to a key of any object: the entry is the item copied, and all else is kept, the original included; status 5, and nothing changed, exactly if `from` leads nowhere |
| `PatchMoves.FailedMove` | src/cJSON_Utils.c:906-1036 | a concrete `move` that fails at its target and leaves {}: the item is lost |
| `PatchStrings.StringsAfterPatch` | src/cJSON_Utils.c:807-1036 | no patch puts a terminator inside a key or a string of the document |
| `PatchRoundTrip.RoundTrip` | src/cJSON_Utils.c:1141-1279 | where the condition holds: the same for the operations before they are packed into objects |
| `PatchRoundTrip.Fails` | src/cJSON_Utils.c:1141-1279 | where it does not: the operations fail or leave another document |
| `PatchRoundTrip.DecodableSurvivable` | src/cJSON_Utils.c:359-390 | the condition holds for all documents whose keys are decodable |
| `PatchRoundTrip.ElemsWork` | src/cJSON_Utils.c:1170-1213 | arrays: after every prefix of the loop the operations still to come lead to the target |
| `PatchRoundTrip.ElemsFail` | src/cJSON_Utils.c:1170-1213 | arrays: a common element whose patch goes wrong stays wrong to the end |
| `PatchRoundTrip.WalkWorks` | src/cJSON_Utils.c:1215-1274 | objects: with part of the map done and the rest of both sorted lists, the operations still to come lead to the target |
| `PatchRoundTrip.WalkFails` | src/cJSON_Utils.c:1215-1274 | objects: a member whose patch goes wrong stays wrong to the end of the walk |
| `PatchRoundTrip.MissedKeyFails` | src/cJSON_Utils.c:1215-1274 | objects: a last key that is not decodable always spoils the result, whatever the other operations hit by accident |
| `PatchRoundTrip.WalkKept` | src/cJSON_Utils.c:1215-1274 | an entry that no operation of the walk lands on is kept |
| `PatchKeys.CoveredDecodable` | src/cJSON_Utils.c:359-390 | keys that are covered by the landing places of the same keys, ignoring case, are decodable |
| `PatchKeys.MissedKey` | src/cJSON_Utils.c:359-390 | so among keys with an undecodable one there is one that no operation lands on |
| `PatchFrame.AddKept` | src/cJSON_Utils.c:961-1025 | adding keeps every member but the one it lands on |
| `PatchFrame.RemoveKept` | src/cJSON_Utils.c:430-481 | removing keeps every member but the one it lands on |
| `PatchFrame.ReplaceKept` | src/cJSON_Utils.c:807-1036 | replacing keeps every member but the one it lands on |
| `PatchFrame.NestedKept` | src/cJSON_Utils.c:1141-1279 | operations inside one member keep the others |
| `PatchSteps.RemoveRest` | src/cJSON_Utils.c:1192-1205 | removing n times at one index drops exactly the last n elements |
| `PatchSteps.AddRest` | src/cJSON_Utils.c:1206-1210 | additions at `-` append in order |
| `PatchSteps.OpsBelow` | src/cJSON_Utils.c:807-1036 | operations moved under a token act on that child alone and keep their outcome |
| `PatchSteps.UnderOps` | src/cJSON_Utils.c:1141-1279 | the operations for a path are those for the empty path moved under it |
| `PatchSteps.ApplyComposed` | src/cJSON_Utils.c:1096-1134 | applying a composed patch object does what its operation says |
| `PatchInverse.RemoveUndoesAdd` | src/cJSON_Utils.c:807-1036 | add then remove at one path restores the very document, order included, exactly when the parent exists and the addition is at an array position in range or under a key new even ignoring case (or at the root of an invalid document) |
| `PatchInverse.ChildInverse` | src/cJSON_Utils.c:393-481 | the same on the parent alone, and the item removed is the one added |
| `PatchInverse.GetItemPut` | src/cJSON_Utils.c:301-346 | replacing the item a pointer names does not change where the pointer leads |
| `MemberOrder.AddedLast` | src/cJSON_Utils.c:1005-1018 | a member added by a patch comes last, in the spelling of the patch; all others but the one of that key keep their order |
| `ItemEdit.FindItem` | src/cJSON_Utils.c:301-346 | on linked items, whole lists or not, the walk ends at the item the specification names |
| `ItemEdit.FindNamed` | src/cJSON.c:1898-1928 | on linked items, whole lists or not, the first child of that name; among nameless children none |
| `ItemEdit.DetachItems` | src/cJSON_Utils.c:430-481 | `detach_path` on linked items: two whole trees with complete lists, holding the item and the rest the specification names |
| `ItemEdit.CutOut` | src/cJSON.c:2205-2239 | a child taken out anywhere in a tree leaves the whole a tree, and the document without it |
| `ItemEdit.PutInto` | src/cJSON_Utils.c:975-1023 | an item put in anywhere in a tree: status, document and a whole tree, for arrays, objects and every error |
| `ItemPaths.RingGraft` | src/cJSON_Utils.c:807-1036 | if nothing outside one place has been touched and a tree stands there again, the whole is a tree |
| `ItemPaths.GraftHolds` | src/cJSON_Utils.c:807-1036 | and it holds the document with the value at that place replaced |
| `ItemPatch.AttachItems` | src/cJSON_Utils.c:961-1025 | the end of `apply_patch` on linked items |
| `ItemPatch.Become` | src/cJSON_Utils.c:784-805 | `overwrite_item` with a copied value: the root keeps its place and holds the value, with a complete list |
| `ItemSort.SortKids` | src/cJSON_Utils.c:595-602 | `sort_object` anywhere in a tree of items: the children change places with all that is below them; a whole tree is whole again if and only if the first key was below all others and the last above; if the first was not, the head points back to nothing |
| `ItemCompare.CompareTrees` | src/cJSON_Utils.c:604-690 | `compare_json` on linked items: its answer; both trees linked still, on the same items, holding what its sorting leaves; whole, if they were, if and only if neither end of any list it visits has moved |
| `ItemCompare.CompareElems` | src/cJSON_Utils.c:635-653 | its loop over two arrays |
| `ItemCompare.CompareMembers` | src/cJSON_Utils.c:655-682 | its loop over two sorted objects |
| `ItemTest.TestItem` | src/cJSON_Utils.c:828-833 | `test` on linked items: status and document of the specification; a whole document is whole afterwards if and only if `WholeTest`; the value in the patch is sorted as well |
| `ItemTest.TestThenAdd` | src/cJSON_Utils.c:828-1018 | if a `test` compares an object whose first key is not below all others, the next addition to that object is lost: the tree holds what it held before |
| `ItemTest.SpecAdds` | src/cJSON_Utils.c:828-1018 | a concrete run, the document {"b":1,"a":2} tested against itself and then given a member "c": on values both patches succeed and the member is there |
| `ItemTest.TestLosesMember` | src/cJSON_Utils.c:828-1018 | the same run on linked items: status 0, and the member is not there |
| `ItemPatch.ReadPatch` | src/cJSON_Utils.c:816-827 | path and operation of a patch, or the status of a malformed one |
| `ItemPatch.ApplyItem` | src/cJSON_Utils.c:807-1036 | one patch on linked items, `test` included: status and document of the specification; a whole document is whole afterwards if and only if `WholeAfter`, so after everything but some tests; the patch keeps its items |
| `ItemPatch.ApplyItems` | src/cJSON_Utils.c:1038-1094 | a list of patches, up to the first failure: status and document of the specification, the document linked throughout and whole in the end if `EndsWhole`; what is left of the patches; status 1 if they are no array |
| `ItemPatch.NoTestOrderly` | src/cJSON_Utils.c:1038-1094 | without a `test` the document stays whole throughout |
| `ItemPatch.PatchTree` | src/cJSON_Utils.c:1038-1294 | generated patches applied to a whole tree that holds an equal of `from` leave a whole tree; it holds an equal of `to`, with status 0, if and only if the documents are `Survivable` |
| `ItemMerge.MergeItems` | src/cJSON_Utils.c:1321-1379 | `merge_patch` on linked items: a whole tree, holding what merging gives, made of the items of the target and new ones |
| `ItemMerge.MergeKids` | src/cJSON_Utils.c:1338-1377 | its loop over the members of the patch |
| `MergePatch.MergeInto` | src/cJSON_Utils.c:1321-1379 | the loop that edits the target computes the recursive merge |
| `MergePatch.MergeCorrect` | src/cJSON_Utils.c:1321-1379 | on documents with distinct keys the result is the MergePatch function of section 2 of RFC 7396, and its keys are distinct again |
| `MemberOrder.MergedInOrder` | src/cJSON_Utils.c:1338-1377 | members that the patch does not name come first, unchanged and in their order; those it gives a value follow in its order and spelling |
| `MergePatch.RfcOneByOne` | src/cJSON_Utils.c:1338-1377 | patch members may be handled one after the other, as the loop does |
| `MergePatch.MergeIdempotent` | src/cJSON_Utils.c:1321-1379 | merging the same patch again changes nothing |
| `MergeGen.GenerateMergePatch` | src/cJSON_Utils.c:1391-1471 | the generator computes the specification, null for no patch |
| `MergeGen.GenerateWalk` | src/cJSON_Utils.c:1416-1462 | its loop over the two sorted lists |
| `MergeGen.GenerateMember` | src/cJSON_Utils.c:1418-1461 | one round: `strcmp` order, and nested objects through the entry point that ignores case |
| `MergeGen.GenerateCorrect` | src/cJSON_Utils.c:1391-1471 | the patch denotes the difference of the documents; there is none exactly for two objects that compare equal |
| `MergeGen.DifferenceWorks` | src/cJSON_Utils.c:1391-1471 | merging the difference gives the second document if and only if the change is `Expressible` (no null member appears or changes) |
| `MergeGen.MergeRoundTrip` | src/cJSON_Utils.c:1321-1471 | generate then merge gives the second document if and only if the change is expressible |
| `MergeGen.NullFreeExpressible` | src/cJSON_Utils.c:1391-1471 | a target without null members is always expressible |
| `MergeGen.LowerNeutral` | src/cJSON_Utils.c:1423-1423 | without capital letters the two key orders in the generator agree |
| `MergeGen.CapitalsFail` | src/cJSON_Utils.c:1423-1423 | a concrete pair of documents with a capital letter on which the generated patch empties the object |
| `MergeGen.RecasedMember` | src/cJSON_Utils.c:1423-1455 | a key that only changes its case: the documents compare equal, yet a patch is made, and it works exactly when the old spelling comes first |
| `MergeExact.RoundTripExactly` | src/cJSON_Utils.c:1321-1481 | generate then merge, by the entry points of either case rule, for documents with keys of any case: the result equals the second document if and only if the walk never takes out what it put in, puts in only what a merge patch can express, and calls no two different values equal (`Mergeable`); its keys are distinct |
| `MergeExact.RightDocs` | src/cJSON_Utils.c:1391-1471 | the same for a patch merged into any equal of the first document |
| `MergeExact.WalkRight` | src/cJSON_Utils.c:1416-1462 | from any point of the walk on, the rest of the patch reaches its goal if and only if the rest of the walk makes no mistake |
| `MergeExact.Settled` | src/cJSON_Utils.c:1416-1462 | what the rest of the patch does to a key that the walk does not put in: gone if it is still to be lost, else untouched |
| `MergeExact.ChangeOutcome` | src/cJSON_Utils.c:1449-1461 | a key in both objects comes out right exactly when its values are equal, if the generator calls them so, and else when the new one is not null and the two are `Mergeable`, nested objects ignoring case |
| `MergeExact.InsertOutcome` | src/cJSON_Utils.c:1442-1448 | a new member comes out right exactly when neither it nor any member inside it, arrays aside, is null |
| `MergeExact.MergeUnique` | src/cJSON_Utils.c:1321-1379 | merging keeps sibling keys distinct even if the patch repeats a key |
| `MergeExact.NoPatch` | src/cJSON_Utils.c:1463-1468 | there is no patch exactly for two objects that are equal and spell their own keys alike |
| `MergeExact.InnerCaseLost` | src/cJSON_Utils.c:1455-1455 | a key that changes its case below two others: the documents differ under the case-sensitive rule, but the case-sensitive generator makes no patch |
| `MergeExact.NeutralMergeable` | src/cJSON_Utils.c:1423-1423 | where the two key orders agree only null members can spoil the walk |
| `Rendering.RenderNulFree` | src/cJSON.c:1380-1843 | a rendering holds no terminator, so the text in a buffer ends where the offset is moved to |
| `Layout.RenderLaid` | src/cJSON.c:1552-1843 | the layout of formatted text, by a scanner that counts brackets: outside strings a line break stands only behind an opening brace, behind a comma between members and in front of a closing brace, followed by one tab for each open container, one less in front of the brace; the only other blanks are the tab behind a colon and the space behind a comma between elements |
| `Layout.RenderCompact` | src/cJSON.c:1552-1843 | unformatted text has no blank outside its strings |
| `Printer.PrintBuffer.Ensure` | src/cJSON.c:447-530 | room is granted exactly up to the limit; what was written is kept across a reallocation |
| `Printer.PrintBuffer.UpdateOffset` | src/cJSON.c:533-543 | the offset moves to the end of the text written last |
| `Printer.PrintBuffer.PutLiteral` | src/cJSON.c:1390-1415 | a word with its terminator, or failure exactly when it does not fit |
| `Printer.PrintBuffer.PrintNumber` | src/cJSON.c:553-620 | a 32-bit integer in decimal, with the offset moved behind it |
| `Printer.CountEscapes` | src/cJSON.c:938-963 | the first pass over a string counts exactly the bytes escaping adds |
| `Printer.PrintBuffer.PrintString` | src/cJSON.c:911-1030 | the quoted, escaped string and its terminator; it succeeds exactly when it fits |
| `Printer.PrintBuffer.PutEscapedBytes` | src/cJSON.c:981-1027 | the second pass writes the escaped bytes |
| `Printer.PrintBuffer.AfterBackslash` | src/cJSON.c:993-1023 | the byte or hexadecimal code behind a backslash |
| `Printer.PrintBuffer.PrintValue` | src/cJSON.c:1380-1451 | behind the text so far stands the rendering of the item, terminated, whether or not the offset has passed it; success exactly if it fits with two bytes to spare |
| `Printer.PrintBuffer.PrintChild` | src/cJSON.c:1577-1581 | after `update_offset` the buffer is the old text followed by the rendering |
| `Printer.PrintBuffer.PrintArray` | src/cJSON.c:1552-1611 | arrays; the closing bracket is written but left uncounted |
| `Printer.PrintBuffer.PrintElems` | src/cJSON.c:1575-1599 | the element loop with its separators |
| `Printer.PrintBuffer.PrintObject` | src/cJSON.c:1732-1843 | objects; the closing text is written but left uncounted |
| `Printer.PrintBuffer.PrintMembers` | src/cJSON.c:1759-1823 | the member loop |
| `Printer.PrintBuffer.PrintMember` | src/cJSON.c:1761-1820 | one member: indentation, name, colon, value, separator |
| `Printer.PrintPreallocated` | src/cJSON.c:1305-1322 | printing into a fixed buffer succeeds if and only if it holds the text and two more bytes, and then holds that text |
| `Printer.Print` | src/cJSON.c:1196-1272 | the string returned is the rendering; there is none exactly when it exceeds the `int` range |
| `StringCodec.ParseHex4` | src/cJSON.c:623-656 | four hexadecimal digits, or zero for anything else |
| `StringCodec.Utf8Inverse` | src/cJSON.c:723-770 | the bytes written for a code point are UTF-8 of section 3 of RFC 3629: reading them back gives the code point, and lead and continuation bytes are in their ranges |
| `StringCodec.ContinuationMask` | src/cJSON.c:756-761 | the masks and shifts of the C code are the six-bit arithmetic of the model |
| `StringCodec.ScanUnits` | src/cJSON.c:798-820 | pass one counts the content length less one for each escape |
| `StringCodec.UnitsShift` | src/cJSON.c:798-820 | starting to read inside an escape changes that count by at most one |
| `StringCodec.LiteralUnits` | src/cJSON.c:660-778 | a UTF-16 literal writes no more bytes than pass one set aside for its text, even when its digits are invalid and swallow a backslash |
| `StringCodec.TwoPassBound` | src/cJSON.c:781-908 | the bytes pass two writes never exceed the content length less the escapes of pass one |
| `StringRfc.DecodesByStandard` | src/cJSON.c:781-908 | for content by the grammar of section 7 of RFC 8259 the result is its meaning, surrogate pairs included |
| `StringRfc.EscapesByTable` | src/cJSON.c:623-908 | the hexadecimal digits and the short escapes, by the table of section 7 of RFC 8259 |
| `StringRfc.DecodesEscaped` | src/cJSON.c:911-1030 | decoding what the printer escaped gives the string back |
| `StringRfc.EscapeShortest` | src/cJSON.c:911-1030 | an escaped byte holds no control character and no capital, and no well-formed text for that byte without control characters is shorter |
| `Parser.SkipSpace` | src/cJSON.c:1047-1070 | skipping blanks never ends before it starts, nor at the end of a buffer with bytes left |
| `Parser.ParseValue` | src/cJSON.c:1325-1377 | parsing terminates on every input; success consumes at least one byte and stays in the buffer |
| `Parser.Parse` | src/cJSON.c:1104-1181 | an error on a nonempty buffer is reported at a position inside it |
| `Parser.ValueNesting` | src/cJSON.c:1454-1729 | whatever is parsed has at most 1000 nested containers |
| `Grammar.ParsesForm` | src/cJSON.c:1325-1729 | a text of the grammar, with any blanks wherever section 2 of RFC 8259 allows them, parses to its value and its end exactly when the nesting fits, and fails otherwise |
| `GrammarExact.ValuesExactly` | src/cJSON.c:1325-1729 | the parser takes exactly these texts: whatever it accepts is one, with that value and that end |
| `GrammarExact.ParsesExactly` | src/cJSON.c:1104-1181 | the same for the entry point: a byte order mark, blanks, a value, and, if the text must be terminated, blanks up to a terminator in the last byte |
| `Lexemes.SpelledRead` | src/cJSON.c:307-381 | `strtod` reads a number to its end and gives it its decimal meaning |
| `Lexemes.NumeralsExactly` | src/cJSON.c:307-381 | the numbers taken are exactly the decimals of at most 63 bytes; leading zeros and missing digits on one side of the point pass |
| `Lexemes.StringsExactly` | src/cJSON.c:781-908 | the strings taken are exactly those that are closed and made of pieces that are taken, and stand for their bytes up to the first terminator; four bytes behind backslash-u that are no digits pass for a terminator |
| `Lexemes.StandardString` | src/cJSON.c:781-908 | every string of section 7 of RFC 8259 is taken and has its standard meaning, cut at a terminator inside it |
| `ParseBuffer.Buffer.SkipWhitespace` | src/cJSON.c:1047-1070 | the loop and its step back |
| `ParseBuffer.Buffer.Number` | src/cJSON.c:307-381 | the number bytes copied, at most 63, and what `strtod` makes of them, stored in the item |
| `ParseBuffer.Buffer.ScanLiteral` | src/cJSON.c:798-816 | pass one |
| `ParseBuffer.Buffer.DecodeLiteral` | src/cJSON.c:827-885 | pass two computes the decoding and stays inside an output of the size set aside |
| `ParseBuffer.Buffer.DecodeStep` | src/cJSON.c:831-881 | one byte or escape of pass two |
| `ParseBuffer.Buffer.WriteLiteral` | src/cJSON.c:660-778 | one UTF-16 literal: bytes and length, or zero if it is refused |
| `ParseBuffer.Buffer.WriteUtf8` | src/cJSON.c:723-770 | the loop that writes the bytes of a code point from the last to the first |
| `ParseBuffer.Buffer.String` | src/cJSON.c:781-908 | a string literal: text stored in the item and offset, or failure and the position of the offending escape |
| `ParseBuffer.Buffer.Value` | src/cJSON.c:1325-1377 | success and offset as specified, the depth restored; the item becomes the root of a tree of new items with complete lists that holds the value |
| `ParseBuffer.Buffer.Array` | src/cJSON.c:1454-1549 | arrays, with the depth limit; the same |
| `ParseBuffer.Buffer.Elems` | src/cJSON.c:1486-1526 | the loop that links a new item and then fills it in: a forest that holds the elements so far, linked, the head not yet closed |
| `ParseBuffer.Buffer.Object` | src/cJSON.c:1614-1729 | objects, with the depth limit; the same |
| `ParseBuffer.Buffer.Members` | src/cJSON.c:1646-1707 | the loop over the members |
| `ParseBuffer.Buffer.Name` | src/cJSON.c:1670-1695 | the name, read into the item as a string and then moved, and the colon |
| `ParseBuffer.ParseText` | src/cJSON.c:1104-1181 | the public function: a tree of new items with complete lists that holds the value, and its end; or null and the position of the error |
| `ItemTree.CompleteArray` | src/cJSON.c:1528-1540 | closing the list makes the item a whole tree that holds the array |
| `ItemTree.HoldsOne` | src/cJSON.c:1325-1377 | a tree of items holds one value only |
| `ParseRoundTrip.StrtodInt` | src/cJSON.c:307-381 | reading a printed 32-bit integer gives it back and uses all of it |
| `ParseRoundTrip.ParsesQuoted` | src/cJSON.c:781-908 | parsing a printed string gives it back |
| `ParseRoundTrip.ParsesRendered` | src/cJSON.c:1325-1377 | as an instance of `ParsesForm`, at any place and depth, parsing a rendering gives the tree and its end exactly when the nesting fits, and fails otherwise |
| `ParseRoundTrip.PrintParse` | src/cJSON.c:1104-1451 | parsing the printed text, formatted or not, consumes all of it and returns the same tree with members in order, if and only if at most 1000 containers are nested |
| `Minify.SkipLine` | src/cJSON.c:2812-2823 | a line comment is skipped up to its line break |
| `Minify.SkipBlock` | src/cJSON.c:2825-2837 | a block comment is skipped up to its end, or to the terminator |
| `Minify.MinifyString` | src/cJSON.c:2839-2859 | a string is moved down; the write position never passes the read position |
| `Minify.MinifyInPlace` | src/cJSON.c:2861-2907 | the array ends up holding exactly the minified text, terminated, and no longer than the input |
| `MinifyExact.MinifiedKept` | src/cJSON.c:2861-2907 | what is kept: the bytes of the text, in order, that a classification of its positions puts inside a string or outside strings, comments and the four blanks |
| `MinifyExact.NothingToDrop` | src/cJSON.c:2861-2907 | so no blank stands outside a string of minified text, and no comment |
| `MinifyPrint.MinifiedTwice` | src/cJSON.c:2861-2907 | minifying is idempotent on every text |
| `MinifyPrint.MinifiedString` | src/cJSON.c:2839-2859 | a printed string is kept; if it ends in a backslash the minifier believes to be inside it still |
| `MinifyPrint.MinifiesValue` | src/cJSON.c:2861-2907 | reading a formatted value ends well, still inside a string, or with a differing byte, as `EndingOf` says |
| `MinifyPrint.MinifyAgrees` | src/cJSON.c:2839-2907 | minifying the formatted printout gives the unformatted one byte for byte if and only if no name or string ends in a backslash, but for the last string of nested arrays |
| `MinifyPrint.BackslashBreaks` | src/cJSON.c:2853-2857 | a concrete array on which it does not |
| `MinifyPrint.MinifiedParses` | src/cJSON.c:2861-2907 | in those cases minified output parses to the same tree |
| `SiblingList.GetItem` | src/cJSON.c:1869-1886 | the item at a position, or null |
| `SiblingList.AddItem` | src/cJSON.c:1974-2005 | appending keeps the list invariant; if the head points back to another item than the last, the list is cut there, and if it points nowhere, the item is dropped and no link of the list changes |
| `SiblingList.DetachItemViaPointer` | src/cJSON.c:2205-2239 | on any list with intact links, whole or not: the list without that item, which points nowhere; a whole list stays whole; otherwise the head points back to where it did, so to the detached item if it pointed there and that was not the last one |
| `SiblingList.DetachItem` | src/cJSON_Utils.c:393-427 | detaching by position, from a list that is whole or not; null and no change when out of range |
| `SiblingList.InsertItem` | src/cJSON.c:2281-2313 | insertion before a position, or addition at the end when past it, whatever the head points back to; the corruption test never fires |
| `SiblingList.InsertItemStrict` | src/cJSON_Utils.c:693-728 | insertion before a position, refused past the end, whatever the head points back to |
| `SiblingList.ReplaceItem` | src/cJSON.c:2315-2362 | the new item takes the place of the old one in any list with intact links; the head points back to it if it was the last one, and else to where it did, even to the old item |
| `SiblingList.DetachUndoesInsert` | src/cJSON_Utils.c:393-427 | detaching what was inserted restores the list |
| `ListSort.IsAscending` | src/cJSON_Utils.c:498-507 | the test for a sorted list |
| `ListSort.FindMiddle` | src/cJSON_Utils.c:509-521 | the two-speed walk stops at the upper middle, so both halves are nonempty and shorter |
| `ListSort.SortedEnds` | src/cJSON_Utils.c:484-593 | which items come first and last, and that they stay exactly when the first name is below all others, or the last above |
| `ListSort.Split` | src/cJSON_Utils.c:522-527 | cutting there leaves two intact lists |
| `ListSort.MergeRound` | src/cJSON_Utils.c:535-569 | one round of the merge keeps the three lists apart and the final order fixed |
| `ListSort.Merge` | src/cJSON_Utils.c:534-592 | the merged list is linked both ways and in the specified order |
| `ListSort.SortItems` | src/cJSON_Utils.c:484-593 | `sort_list` terminates; the same items come out linked both ways, in the order of the specification |
| `ListSort.SortObject` | src/cJSON_Utils.c:595-602 | `sort_object`: a permutation in non-decreasing key order; the head points back to the tail exactly if the first name was below all others and the last above; it points to the old last item if only the first condition holds, and nowhere if it does not |
| `ListSort.SortTwo` | src/cJSON_Utils.c:595-602 | the members "b", "a": the sorted head points back to nothing |
| `ListSort.SortThree` | src/cJSON_Utils.c:595-602 | the members "a", "c", "b": the sorted head points back to the middle item |
| `ListSort.SortThenAdd` | src/cJSON_Utils.c:656-657 | an object that is compared and then gets a member: the member is dropped if the first name was not below all others; else what stands behind the old last item is lost, nothing exactly if its name was above all others |
| `Duplicate.Copy` | src/cJSON.c:2729-2801 | the copy is a tree of new items with complete lists holding the same data, even if the source lacks its tail links |
| `Duplicate.CopyChildren` | src/cJSON.c:2772-2799 | its loop over the children |
| `Duplicate.CopyHolds` | src/cJSON.c:2729-2801 | copy and source hold the same JSON values |
| `Sweep.Sweeper.Poll` | src/main.c:2102-2288 | one round changes the four variables, and makes a check, as the step function says |
| `Sweep.StepAdvances` | src/main.c:2130-2277 | an active round advances by exactly one of the days*(n+1) positions, wrapping at the end; the day index stays below the number of days |
| `Sweep.RunInside` | src/main.c:2102-2288 | that invariant holds after any run of rounds of any kind |
| `Sweep.SweepCovers` | src/main.c:2102-2288 | days*(n+1) active rounds, with inactive ones anywhere between, check each enabled meter for each day exactly once, in order, with the right dates, and return to the start |
| `Sweep.RunActive` | src/main.c:2102-2128 | switched off, the sweep stands still |
| `Sweep.StuckForEver` | src/main.c:2130-2237 | with no day left, the sweep stays at an enabled meter for as long as it is enabled, whatever rounds come, and checks nothing |
| `Sweep.NoDaysStall` | src/main.c:2136-2136 | with no old days configured nothing is ever checked and no enabled meter is passed |

## Left out

- MergeGen.GenerateCorrect: that the patch is the difference of the documents assumes `CaseNeutral` ones, in which `strcmp` and the case-insensitive order agree on the keys that can meet; for all other documents `MergeExact` says what the patch does and when there is none.
- MergeGen.MergeRoundTrip: the same assumption; `RoundTripExactly` is free of it.
- ItemPatch.ApplyItem: an edit after a `test` that broke a list anywhere in the document is not followed, even if it is in another place; a patch that is no object is covered if its children have no names; a `move` whose `from` is no string, where the C code dereferences a null pointer, gives status 5.
- ItemPatch.ApplyItems: the same.
- Generator.CompareJson: works on tree values, without the sorting in place, for the generators; `ItemCompare.CompareTrees` has it.
- Generator.PatchList.Create: works on tree values, and does not show that it sorts both documents; the round trips are about a fresh copy of `from`, or another equal of it, not the one the generator has sorted.
- MergeGen.GenerateMergePatch: the same.
- Compare.CompareItems: leaves out the shortcut for two references to one item.
- Parser.Parse: which byte of a refused text is reported is computed as in the code, but stated only to lie inside the buffer.
- PatchStandard.OperationMeets: one way, for operations that are `Ordinary`; for single additions and removals by key `InsertAgrees` and `RemovalAgrees` are if-and-only-if.
- ParseBuffer.Buffer.Number: `Strtod` yields the unrounded decimal value and never infinity.
- Printer.PrintBuffer.PrintValue: assumes numbers that are 32-bit integers, and no Raw items.
- Printer.PrintBuffer.PrintNumber: the same.
- Sweep.Sweeper.Poll: database lookups, DLMS sessions and their results are not part of the model, as they do not touch the variables of the sweep; the calendar is the parameter `prev`.
- Numbers that are not 32-bit integers: the number formats of `sprintf`, rounding in `strtod`, NaN and infinity.
- Patch generation and application with case-sensitive keys as a round trip: removal always ignores case (`src/cJSON_Utils.c:466`), so it is not provided; the single operations are modelled for both rules.
- `cJSON_Delete`: items that are dropped are forgotten, not freed; a failed parse leaves its items to be deleted likewise.
- Items of type Raw, references, constant keys, custom allocators and failing allocations.
- `cJSON_PrintBuffered`, the constructors of items, the type tests and the array builders: they would add easy members only.
- The rest of the daemon: serial and socket communication, the DLMS library, Redis, SQLite, logging, the other phases of `src/main.c` and the calendar helpers in `src/comm_func.c`.
