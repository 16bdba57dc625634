# Verified models of the common library

The library under `common/` bundles a JSON package (parser, printer, minifier, JSON Patch, JSON Merge Patch and
JSON Pointer), a hash table of macros, three slot protocols shared between threads or processes, a byte ring and
a linked queue. This project models those parts in Dafny and proves what their code does, for every input, every
run and every interleaving of atomic steps.

`dafny verify dfyconfig.toml` checks the whole project.

## How it is organised

| files | part of the library |
|---|---|
| `CStrings`, `Seqs`, `Modular`, `JsonValues` | C strings, cutting sequences, ring positions, trees and the values they stand for |
| `Sorting`, `LinkedSort` | the mergesort of sibling lists, on sequences and on linked nodes |
| `Pointers`, `PointerTexts`, `PointerEncoding`, `KeyCoding` | JSON Pointer lookup, along tokens and along any text; encoding and decoding of one path segment, and exactly when one undoes the other |
| `Compare`, `Reordering`, `MemberLists` | comparing trees, and what that leaves of them; members of an object as a list |
| `Patches`, `PatchOperations`, `PatchLocality`, `PatchCoding`, `PatchRoundTrip`, `PatchLimits`, `KeyRanks`, `PatchKeeps`, `PatchMiscoded`, `PatchReordering`, `PatchExactness`, `CaseBlind`, `BlindOperations` | JSON Patch: the interpreter against RFC 6902, the generator, and exactly when applying what was generated reaches the target, minding case or not |
| `MergePatches`, `CaseFolding`, `MergeExactness` | JSON Merge Patch and its generator, keys that are folded, and exactly when merging what was generated reaches the target |
| `JsonStrings`, `JsonParser`, `ParseBuffer`, `Unicode`, `StringSpelling`, `JsonGrammar` | parsing: exactly which texts are accepted, and with which values |
| `JsonText`, `PrintBuffer`, `JsonLayout`, `JsonRoundTrip` | printing: what is written byte by byte, and that parsing undoes it |
| `Minify`, `MinifyPieces`, `MinifyPrinted` | minifying: what is left of any text, and of printed text |
| `HashBits`, `HashExpansion`, `HashHandles`, `HashTable`, `BottomUpSort`, `HashSort` | the hash table and its sort |
| `ShareMemQueue`, `MessagePool`, `SlotRing` | the three slot protocols |
| `ByteRing`, `LinkedQueue` | the byte ring and the linked queue |

A tree is a datatype whose objects keep their members in list order; `JsonValues.Abs` gives the value of a tree, with
objects as maps. Code that works on nodes, buffers and arrays in place is written as methods over classes and arrays,
each proved against a specification function; the theorems are about those functions. A function and the loop that
computes it have related names (`ParseValue` and `ParseBuffer.ParseValue`, `Merge` and `MergeLoop`).

Each protocol is a state machine: a `State`, the `Step`s of all threads, `Next`, an invariant that every enabled step
keeps, and `RunIsSafe` about every reachable state. The class beside it has the fields of the source and one method for
every atomic section, whose effect is `Next`. A semaphore or condition that makes a caller wait is a step that is not
enabled.

## Where the code departs from its intent

* `detach_path` matches keys ignoring case whatever its flag says, so a removal or a replacement can take out another
  member (`PatchMiscoded.RemovalExactly`). `PatchLimits.NearDuplicateLost` shows a generated patch that loses the wrong
  one, although the documentation promises case-sensitive patching.
* `encode_string_as_pointer` writes the escape of `/` without its `~`, so that a byte it never wrote stands there (the
  parameter `junk`), and `decode_pointer_inplace` moves no byte. `KeyCoding.DecodedExactly` says which segments with the
  escapes of RFC 6901 are decoded rightly, and `KeyCoding.RestoredExactly` which keys are read back from what is written
  for them: for ordinary junk those without `/`, and without `~` in front of their last byte. A key that is only passed
  through is compared and not decoded; `PatchCoding.PassedSelects` is about those. `PatchMiscoded.TildeKeyLost` is a run
  that adds the member `~a` under another name and returns 0.
* Together these decide JSON Patch. `PatchExactness.DiffThenPatchExactly` says for exactly which source and target the
  generated patches reach the target, when they are applied to the document they were generated from: every path must
  name its node (`PatchCoding.Coded`), and wherever a member is edited in its place, later members whose keys differ from
  it in letter case only must not be removed or replaced (`PatchExactness.Clean`). `PatchMiscoded.DiffThenPatchIff` is
  about every other document with the same value.
* Array indices are decoded with wrap-around, the empty index is zero and bytes above `9` are taken for digits;
  `Pointers.DecodeIndexExact` says exactly when the result is the one RFC 6901 asks for, and
  `Pointers.LookupFollowsTokens` exactly which lookups are right. `Pointers.EmptyTokenFindsFirst` is one that is not.
* Where its paths are read as they are meant, each operation of a patch does to the value of the document what RFC 6902
  says (`PatchOperations.ApplyFollowsRfc`; `BlindOperations.BlindFollowsRfc` with keys folded, at the entry point that
  ignores case), with two exceptions: a "move" or "copy" to the root of the document is
  refused, and a "move" or "replace" that fails may have done its remove half. A "move" whose "from" is no string hands
  NULL to `strlen`; the model gives it the status `UNDEFINED`, and `PatchOperations.UndefinedExactly` says which patches
  those are.
* A merge patch cannot add or create a null member (`MergePatches.NullMemberLost`).
* `generate_merge_patch` walks by `strcmp` two lists that were sorted ignoring case, and nested patches always ignore
  case, so it can pass the two members of a common key at different times. `MergePatches.MixedCaseLost` is a member
  lost that way at the entry point that ignores case, `MergeExactness.SensitiveLost` one at the other.
  `MergeExactness.MergeDiffThenMergeExactly` says exactly which targets are reached. With keys that differ in letter case
  only, the case-sensitive entry points can lose a member of an object that did not change (`MergeExactness.AlikeKeysLost`).
* `decode_pointer_inplace` leaves a segment whose first escape is malformed as it is, and a lookup whose escapes are
  malformed finds nothing (`PointerTexts.LookupTexts`).
* The parser takes every byte up to the space for whitespace, control bytes included, accepts leading zeros, and reads
  four bytes after `\u` that are not all digits as zero. Formatted text is indented by the arrays around an object too.
* `minify_string` takes the quote after an escaped backslash for an escaped quote. Minifying formatted text gives the
  unformatted text exactly when such a string, if any, is followed by closing brackets only.
* `cJSON_PrintPreallocated` needs the length of the text and two bytes, one more than the text and its terminator.
* The Front variants, `CommQue_Clear` and the hand-back calls of the slot ring do not look at the slot they are given;
  `SlotRing.OrderExactly` says that handing back in order is exactly what keeps a slot from being held twice.
* `os_message_release` does not look who has the slot, nor whether it is claimed. `MessagePool.FairExactly` says that
  handing slots on by their holders is exactly what keeps a slot from being had twice and a claim from scanning in vain;
  `MessagePool.OtherReleaseExample` and `MessagePool.DoubleReleaseExample` are runs in which that fails.
* Writing to the byte ring never sets its full flag, so a write that leaves no byte free empties the ring, and so does
  every write that makes the ring grow.

## Model

| member | source | states |
|---|---|---|
| CStrings.CompareStringsLoop | common/cjson/cJSON_Utils.c:81-107 | comparing byte by byte, ignoring case or not, has the sign of comparing the (lower-cased) strings as unsigned bytes |
| CStrings.CompareOrders | common/cjson/cJSON_Utils.c:81-107 | the result is negative if and only if the first string, folded by the mode, is a proper prefix of the second or has the smaller byte where they differ first; positive the other way round; zero for equal folded strings |
| CStrings.StrCmpOrders | common/cjson/cJSON_Utils.c:81-107 | the same without folding |
| CStrings.LetterLowered | common/cjson/cJSON_Utils.c:93-106 | folding takes each of the 26 capitals to its small letter |
| CStrings.OthersKept | common/cjson/cJSON_Utils.c:93-106 | and leaves every other byte as it is |
| CStrings.StrCmpTransitive | common/cjson/cJSON_Utils.c:81-107 | the comparison that sorting relies on is transitive, strictly so if either step is strict |
| Sorting.SortPermutes | common/cjson/cJSON_Utils.c:476-585 | sorting keeps exactly the same members |
| Sorting.SortSorted | common/cjson/cJSON_Utils.c:476-585 | the result is in non-decreasing key order, for every list |
| Sorting.SortOrders | common/cjson/cJSON_Utils.c:476-585 | no key of the result precedes an earlier one in the order of bytes, folded by the mode |
| Sorting.SortReversesAlike | common/cjson/cJSON_Utils.c:476-585 | sorting is not stable: members with equal keys come out in reverse order, for every list |
| LinkedSort.SortList | common/cjson/cJSON_Utils.c:476-585 | the in-place mergesort terminates and leaves a well-formed doubly linked list, NULL before its head, of the same nodes in exactly the order of the specification |
| LinkedSort.FindMiddle | common/cjson/cJSON_Utils.c:501-519 | the two pointers stop at the node after the first half, rounded up, so both halves are shorter |
| LinkedSort.MergeLists | common/cjson/cJSON_Utils.c:526-582 | merging two linked halves rewires them into the merged order with both links right |
| JsonValues.SortedStrictly | common/cjson/cJSON_Utils.c:587-594 | sorting an object keeps its value and makes distinct keys strictly increasing |
| Pointers.ComparePointers | common/cjson/cJSON_Utils.c:117-151 | the in-place comparison of a name with the escaped token at the front of a path |
| Pointers.MatchesEscaped | common/cjson/cJSON_Utils.c:117-151 | a name matches an escaped token if and only if it is that token, `~` and `/` included |
| Pointers.DecodeArrayIndex | common/cjson/cJSON_Utils.c:270-295 | the digit loop with its wrap-around and its odd acceptances |
| Pointers.DecodeIndexExact | common/cjson/cJSON_Utils.c:270-295 | the index decoded is the one RFC 6901 gives if and only if the token is none of the listed oddities |
| Pointers.DecodeWraps | common/cjson/cJSON_Utils.c:270-295 | a decimal index is decoded modulo 2^64 |
| Pointers.DecodeIndexCounterexamples | common/cjson/cJSON_Utils.c:270-295 | the empty token and `1:` are decoded as indices that RFC 6901 does not have |
| Pointers.GetItemFromPointer | common/cjson/cJSON_Utils.c:297-342 | walking the path finds the node of the specification, or none |
| Pointers.LookupReads | common/cjson/cJSON_Utils.c:270-342 | the node that looking up a path written with the escapes of RFC 6901 finds, for every tree and every token path: the one the tokens select, except that an index the decoder misreads selects the item whose index it is weighed to |
| Pointers.LookupFollowsTokens | common/cjson/cJSON_Utils.c:270-342 | that is the node RFC 6901 selects, or none, if and only if no token is misread (an index that RFC 6901 does not have, or one from 2^64 on, whose bytes weigh to the number of an item), or neither behind the first that is nor behind the child it means there is a node |
| Pointers.OneIndex | common/cjson/cJSON_Utils.c:270-342 | looking up one token in an array is right if and only if the token is none of the listed oddities or weighs to a number past the last item |
| Pointers.AgreeingIndices | common/cjson/cJSON_Utils.c:270-342 | in particular wherever every array index on the path is none of the listed oddities |
| Pointers.EmptyTokenFindsFirst | common/cjson/cJSON_Utils.c:270-295 | looking up `/` in an array finds its first item |
| PointerTexts.LookupTexts | common/cjson/cJSON_Utils.c:297-342 | along any text, in both modes: one that does not start with a slash names the node itself; otherwise the texts between slashes are followed one by one, malformed escapes and misread indices included |
| PointerTexts.MatchesText | common/cjson/cJSON_Utils.c:117-151 | a name matches a token text if and only if the text's escapes are right and it spells the name, letter case as the mode wants it |
| PointerEncoding.EncodeStringAsPointer | common/cjson/cJSON_Utils.c:154-192 | the encoder writes its bytes and terminator inside the length computed for it, leaving unwritten bytes as they were |
| PointerEncoding.EncodedPlain | common/cjson/cJSON_Utils.c:170-192 | a key without `~` and `/` is copied byte for byte |
| PointerEncoding.EncodedKeyMatches | common/cjson/cJSON_Utils.c:170-192 | the encoded key still finds its member if and only if every unwritten byte happens to be filled in |
| PointerEncoding.DecodePointerInplace | common/cjson/cJSON_Utils.c:355-387 | what the in-place decoder leaves in the string |
| PointerEncoding.DecodedBroken | common/cjson/cJSON_Utils.c:375-379 | a token whose first escape is malformed stays as it is |
| KeyCoding.DecodedExactly | common/cjson/cJSON_Utils.c:355-387 | decoding undoes the escapes of RFC 6901 if and only if the token has no `/`, and every byte that is no `~` equals the byte at its place in the escaped text |
| KeyCoding.RestoredExactly | common/cjson/cJSON_Utils.c:154-192 | decoding what was written for a key gives the key back if and only if it has no `/`, and no `~` but as its last byte (or, over junk that is `~` itself, a `~` followed by `/` only) |
| KeyCoding.MixedLeftovers | common/cjson/cJSON_Utils.c:170-192 | over leftover bytes that differ, `/` and then NUL, the key `~//` is read back, which over either of them alone it is not |
| PointerEncoding.CoderCounterexamples | common/cjson/cJSON_Utils.c:154-192 | the key `/a` is encoded to nothing, and both escapes are decoded wrongly |
| Compare.CompareJsonLoop | common/cjson/cJSON_Utils.c:596-682 | the comparing loops and the trees as sorting leaves them |
| CaseFolding.CompareDecidesFolded | common/cjson/cJSON_Utils.c:596-682 | the comparison returns true if and only if both trees, with their keys folded by the case mode, have the same value, arrays in order and objects as maps |
| CaseFolding.FoldedNothing | common/cjson/cJSON_Utils.c:81-107 | where case matters nothing is folded, so the comparison decides equality of the values themselves |
| Patches.ApplyPatchesLoop | common/cjson/cJSON_Utils.c:1028-1084 | patches are applied in order up to the first that fails, whose status is returned |
| PatchOperations.ApplyFollowsRfc | common/cjson/cJSON_Utils.c:799-1026 | each of the six operations, named by the text of its "op", succeeds exactly when sections 4.1 to 4.6 of RFC 6902 let it, and then leaves the value they define, wherever keys are unique and its paths are read as they are meant; moving or copying to the root is refused; which status a failing operation returns and what it leaves is stated on values |
| PatchOperations.RunFollowsRfc | common/cjson/cJSON_Utils.c:1057-1084 | a patch document succeeds exactly when RFC 6902 lets all its operations succeed in turn, with its result; otherwise it stops at the first that fails, with the status and the value that one leaves |
| PatchOperations.MalformedExactly | common/cjson/cJSON_Utils.c:809-824 | a patch is refused with status 2 exactly when its "path" is no string, and with 3 exactly when its "op" is then none of the six; a patch document that is no array is refused with 1 |
| BlindOperations.BlindFollowsRfc | common/cjson/cJSON_Utils.c:799-1026 | the same of each of the six operations at the entry point that ignores case, with the keys of document, patch and paths folded, for keys distinct ignoring case |
| BlindOperations.BlindRunFollowsRfc | common/cjson/cJSON_Utils.c:1028-1054 | the same of whole patch documents there, status and value where they stop included |
| PatchOperations.Adds | common/cjson/cJSON_Utils.c:951-1012 | adding at a path inserts, appends, or sets a member, at the value the path names |
| PatchOperations.Detaches | common/cjson/cJSON_Utils.c:389-473 | detaching at a path takes exactly the value the path names |
| PatchOperations.UndefinedExactly | common/cjson/cJSON_Utils.c:898-915 | which patches make `detach_path` take the length of NULL |
| Patches.CreatePatches | common/cjson/cJSON_Utils.c:1131-1269 | the generator appends to its array exactly the edits of the specification, composed as patch objects, and leaves every object it walks through sorted, in the source and in the target |
| PatchLocality.ComposedAllApply | common/cjson/cJSON_Utils.c:799-1026 | interpreting composed patch objects is applying the edits they were composed from |
| PatchLocality.DiffMovesDown | common/cjson/cJSON_Utils.c:1131-1269 | generating below a path is generating at the root and prefixing every path |
| PatchLocality.EditIsLocal | common/cjson/cJSON_Utils.c:799-1026 | an edit whose path starts with the token of a child has on the document exactly the effect it has on that child |
| PatchLocality.EditsAreLocal | common/cjson/cJSON_Utils.c:799-1026 | so has a run of edits, and siblings are not touched |
| PatchCoding.PassedSelects | common/cjson/cJSON_Utils.c:117-192 | the segment written for a key without `~` and `/` (or with `/` where the junk completes its escape) selects its member again, whatever path follows |
| PatchCoding.EmptyExactly | common/cjson/cJSON_Utils.c:1131-1269 | the generated patch is empty if and only if both values are equal |
| PatchKeeps.EditsKeep | common/cjson/cJSON_Utils.c:799-1026 | what any run of edits keeps of a member that no path names: it is not replaced, not changed unless some path enters it, and not removed unless some path detaches a key alike |
| KeyRanks.NamesLater | common/cjson/cJSON_Utils.c:154-192 | among keys that are written wrongly, a key whose segment is read as another comes before it in a well-founded order |
| KeyRanks.MatchesLater | common/cjson/cJSON_Utils.c:117-192 | so does a key whose segment is matched by the name of another |
| PatchMiscoded.MiscodedFails | common/cjson/cJSON_Utils.c:1131-1269 | if some path that generation writes does not name its node, applying the patches to any document with the value of the source fails or misses the target |
| PatchMiscoded.DiffThenPatchIff | common/cjson/cJSON_Utils.c:1131-1269 | applying the generated patches in order to any document with the value of the source returns 0 and leaves the value of the target, repeated removals at one index included, if and only if every path names its node |
| PatchMiscoded.TildeKeyLost | common/cjson/cJSON_Utils.c:355-387 | generating from `{}` to `{"~a": null}` and applying adds `~/` instead, with status 0 |
| PatchMiscoded.RemovalExactly | common/cjson/cJSON_Utils.c:422-473 | removing a member by the path generated for it removes exactly that member if and only if its key is read back from what is written for it and no earlier key equals it up to case |
| PatchLimits.NearDuplicateLost | common/cjson/cJSON_Utils.c:456-459 | generating from `{"A","a"}` to `{"A"}` and applying loses `A` and keeps `a`, with status 0 |
| PatchExactness.DiffThenPatchExactly | common/cjson/cJSON_Utils.c:1131-1269 | patching the document that the patches were generated from returns 0 and reaches the target if and only if every path names its node and no member edited in place is followed by one with an alike key that is removed or replaced, at every pair of objects walked through; while every path names its node the status is 0 |
| CaseBlind.BlindDiffThenPatch | common/cjson/cJSON_Utils.c:1028-1269 | at the entry points that ignore case, for keys distinct ignoring case: applying the generated patches to any document with the folded value of the source returns 0 and reaches the folded value of the target if and only if every path of the lower-case trees names its node, as long as no path segment that starts like a number holds an upper-case letter |
| CaseBlind.BlindReaches | common/cjson/cJSON_Utils.c:1028-1269 | in particular always when no key holds `~` or `/`, and none that starts like a number holds an upper-case letter |
| CaseBlind.DiffLower | common/cjson/cJSON_Utils.c:1131-1269 | generating while ignoring case makes the patch made from the lower-case trees, but for the case of its paths and keys |
| CaseBlind.OpLower | common/cjson/cJSON_Utils.c:799-1026 | an operation that ignores case acts as the lower-case one on the lower-case document |
| PatchReordering.SourceReorders | common/cjson/cJSON_Utils.c:1205-1210 | generating, in either mode, reorders the members of the source in place and keeps its value |
| PatchReordering.TargetReorders | common/cjson/cJSON_Utils.c:1205-1210 | and those of the target |
| PatchExactness.FoldOkClean | common/cjson/cJSON_Utils.c:1131-1269 | a source without keys that differ in letter case only meets the condition for every target |
| MergePatches.MergePatchLoop | common/cjson/cJSON_Utils.c:1311-1368 | the recursive merge with its loop over the patch members |
| CaseFolding.MergeComputesRfcFolded | common/cjson/cJSON_Utils.c:1311-1368 | with keys folded by the case mode, merging computes the MergePatch function of section 2 of RFC 7396 on values |
| CaseFolding.MergeTwiceFolded | common/cjson/cJSON_Utils.c:1311-1368 | merging the same patch twice gives, with keys folded, the value of merging it once |
| MergePatches.GenerateMergePatchLoop | common/cjson/cJSON_Utils.c:1380-1456 | the generator and its walk over two sorted lists, comparisons included, and both arguments as it leaves them |
| MergeExactness.GeneratingReorders | common/cjson/cJSON_Utils.c:1395-1418 | generating reorders the members of both arguments and keeps their values |
| MergeExactness.MergesExactly | common/cjson/cJSON_Utils.c:1311-1456 | generating a merge patch and merging it into any document with the value of the source reaches the target if and only if the walk settles: in every combination of case modes, for keys distinct in the case mode of the merge |
| MergeExactness.MemberSettlesByValue | common/cjson/cJSON_Utils.c:1436-1442 | for keys distinct ignoring case a common member settles if and only if it is equal, or differs with its keys folded and settles below: the condition is one on values |
| MergeExactness.MergeDiffThenMergeExactly | common/cjson/cJSON_Utils.c:1380-1456 | the same for the source itself |
| MergeExactness.LowerCaseIsExpressible | common/cjson/cJSON_Utils.c:1380-1456 | without upper-case letters in keys that means that every new member along the way is not null |
| MergePatches.MergeReachesWithoutNulls | common/cjson/cJSON_Utils.c:1380-1456 | then a target without reachable null members is always reached |
| MergeExactness.SensitiveLost | common/cjson/cJSON_Utils.c:1395-1418 | between `{"x":{"a","B"}}` and `{"x":{"B"}}` the case-sensitive entry points lose `B` |
| MergeExactness.AlikeKeysLost | common/cjson/cJSON_Utils.c:1436-1442 | a case-sensitive run loses a member of an unchanged object because a member next to that object changes |
| MergePatches.NullMemberLost | common/cjson/cJSON_Utils.c:1427-1433 | no merge patch turns `{}` into `{"a": null}`; the patch generated for it leaves `{}` as it is |
| MergePatches.MixedCaseLost | common/cjson/cJSON_Utils.c:1395-1418 | between `{"a","B"}` and `{"B"}` the generated patch sets `B` and then removes it |
| JsonStrings.ParseHex4Loop | common/cjson/cJSON.c:556-590 | four hexadecimal digits, zero if one of them is none |
| JsonStrings.WriteUtf8 | common/cjson/cJSON.c:656-705 | the bytes written from last to first are the UTF-8 form of the code point |
| JsonStrings.Utf16LiteralToUtf8 | common/cjson/cJSON.c:593-711 | a single escape or a surrogate pair becomes its UTF-8 bytes; everything else fails and writes nothing |
| JsonStrings.ScanString | common/cjson/cJSON.c:727-758 | the first scan finds the closing quote and counts exactly the bytes after backslashes |
| JsonStrings.FitsLiteral | common/cjson/cJSON.c:727-815 | even where both scans are out of step, a "\u" escape fits what the first scan reserved |
| JsonStrings.ParseStringLoop | common/cjson/cJSON.c:714-840 | for every input the output and its terminator fit the estimated length, and the result is that of the specification |
| StringSpelling.SpellingsParse | common/cjson/cJSON.c:714-840 | any mixture of the spellings of section 7 of RFC 8259 (raw bytes, the eight two-byte escapes, four hexadecimal digits, surrogate pairs) parses to exactly the bytes meant, up to the first NUL |
| StringSpelling.WrongRefused | common/cjson/cJSON.c:772-815 | a backslash in front of any other byte, a second half of a pair without its first and a first half without its second are refused, and the error is at the backslash |
| StringSpelling.CutOffRefused | common/cjson/cJSON.c:593-640 | so is an escape that the closing quote cuts off |
| StringSpelling.UnclosedRefused | common/cjson/cJSON.c:727-748 | a string without its closing quote is refused |
| StringSpelling.PrintedSpelling | common/cjson/cJSON.c:843-962 | what the printer writes for a string is the shortest of these spellings byte by byte: the two-byte escapes that it needs, four digits for other control bytes, all else raw |
| ParseBuffers.ParseBuffer.SkipWhitespace | common/cjson/cJSON.c:979-997 | whitespace is passed over, and the offset steps back onto the terminator at the end |
| ParseBuffers.ParseBuffer.ParseNumber | common/cjson/cJSON.c:276-350 | at most 63 bytes are copied and the integer at their front is consumed |
| ParseBuffers.ParseBuffer.ParseValue | common/cjson/cJSON.c:1228-1280 | value, next offset or error offset are those of the specification, and the depth is restored |
| ParseBuffers.ParseBuffer.ParseArray | common/cjson/cJSON.c:1357-1448 | the same for arrays, nesting limit included |
| ParseBuffers.ParseBuffer.ParseObject | common/cjson/cJSON.c:1513-1619 | the same for objects |
| ParseBuffers.ParseWithOpts | common/cjson/cJSON.c:1016-1093 | the tree and where parsing ended, or the position of the error |
| JsonGrammar.ValueExact | common/cjson/cJSON.c:1228-1619 | at every place and depth the parser accepts exactly the texts of a grammar over places in the buffer (words, number and string tokens, items and members with commas, colons and gaps between them, brackets that match), with exactly their values and ends, nested up to the limit |
| JsonGrammar.ParseExact | common/cjson/cJSON.c:1000-1093 | `cJSON_ParseWithOpts` accepts exactly one such value behind a byte order mark or none and a gap, and with `require_null_terminated` only if nothing but blanks is behind it |
| JsonGrammar.ErrorPlace | common/cjson/cJSON.c:1064-1090 | an error is reported inside the text or at its end, and where only what is behind the value is wrong, at the first byte there that is no blank |
| JsonGrammar.NumberExact | common/cjson/cJSON.c:276-350 | a minus sign or none, zeros and decimal digits are read as that number, as long as 63 bytes hold them |
| JsonGrammar.LoneMinus | common/cjson/cJSON.c:324-328 | a minus sign without a digit behind it is refused |
| JsonRoundTrip.ParseUndoesPrint | common/cjson/cJSON.c:1228-1619 | parsing printed text, formatted or not, gives back the tree and consumes all of the text if and only if the tree is nested at most 1000 deep; deeper text is refused |
| JsonRoundTrip.ValueParses | common/cjson/cJSON.c:1228-1280 | printed text is parsed back wherever it stands, at every depth the limit allows |
| JsonRoundTrip.ValueTooDeep | common/cjson/cJSON.c:1362-1366 | printed text nested beyond the limit is refused wherever it stands |
| JsonRoundTrip.ScanText | common/cjson/cJSON.c:714-840 | both scans of the parser undo the escaping of the printer |
| JsonRoundTrip.IntegerReads | common/cjson/cJSON.c:276-350 | printed integers are read back |
| Unicode.EscapedScalarsParse | common/cjson/cJSON.c:593-840 | any sequence of Unicode scalars other than NUL, written as escapes or surrogate pairs with any mixture of letter cases, parses to bytes that read back as UTF-8 to exactly those scalars |
| Unicode.Utf8AllReads | common/cjson/cJSON.c:656-705 | the bytes produced are well-formed UTF-8 by section 4 of RFC 3629, neither overlong nor surrogates |
| PrintBuffers.PrintBuffer.Ensure | common/cjson/cJSON.c:383-468 | room is there if and only if it fits the limit, and the text before the offset survives each reallocation |
| PrintBuffers.PrintBuffer.UpdateOffset | common/cjson/cJSON.c:471-481 | the offset moves over exactly the text written but not yet counted |
| PrintBuffers.PrintBuffer.CountEscapes | common/cjson/cJSON.c:870-894 | the counting loop gives the exact length of the escaped text |
| PrintBuffers.PrintBuffer.PrintString | common/cjson/cJSON.c:843-962 | the escaped, quoted and terminated string is written inside what was reserved |
| PrintBuffers.PrintBuffer.PrintValue | common/cjson/cJSON.c:1283-1354 | succeeds if and only if text and two bytes fit; then the text of the pure printer stands behind what was there, ended by a NUL that the offset has not passed |
| PrintBuffers.PrintBuffer.PrintArray | common/cjson/cJSON.c:1451-1510 | the same for arrays |
| PrintBuffers.PrintBuffer.PrintObject | common/cjson/cJSON.c:1622-1733 | the same for objects, tabs included |
| PrintBuffers.Print | common/cjson/cJSON.c:1103-1165 | the block returned holds exactly the text and its terminator |
| PrintBuffers.PrintBuffered | common/cjson/cJSON.c:1178-1206 | the same text for every first size of the buffer |
| PrintBuffers.PrintPreallocated | common/cjson/cJSON.c:1208-1225 | succeeds if and only if text and two bytes fit, and then holds the same text |
| PrintBuffers.EscapeTextGrows | common/cjson/cJSON.c:913-957 | escaping one byte more appends exactly its escape |
| JsonLayout.FormattedLayout | common/cjson/cJSON.c:1451-1733 | the formatted text is the unformatted text with a newline behind each opening brace and each member, at the start of each line one tab for every bracket open there, the one about to close not counted, a tab behind each colon, a space behind each comma of an array, and nothing else |
| JsonLayout.IntegerWritten | common/cjson/cJSON.c:490-553 | integers are written with a minus sign if and only if they are negative, then their decimal digits, with no leading zeros |
| Minify.MinifyInPlace | common/cjson/cJSON.c:2698-2744 | overwriting the text by itself leaves the minified text; the write position never passes the read position and nothing behind the terminator changes |
| Minify.MinifyString | common/cjson/cJSON.c:2676-2696 | the string loop, with the bytes it reads never overwritten before |
| MinifyPieces.MinifiedPieces | common/cjson/cJSON.c:2649-2744 | of any text built of pieces exactly the pieces that stay are left: blanks, closed comments and lone slashes leave nothing, nor does a comment that is not closed; strings, closed or not, and all other bytes leave themselves |
| MinifyPieces.MinifiesExactly | common/cjson/cJSON.c:2649-2744 | every text is built of such pieces, so that this says what is left of any text |
| MinifyPrinted.MinifyConnectsFormats | common/cjson/cJSON.c:2676-2744 | minifying the formatted text of a tree gives its unformatted text if and only if no key and no string ends in a backslash, except a string followed by closing brackets only |
| MinifyPrinted.ValueOutcome | common/cjson/cJSON.c:2676-2744 | every value is either passed over, or leaves the minifier inside a string, or already differs |
| MinifyPrinted.MisreadExample | common/cjson/cJSON.c:2685-2694 | the smallest tree whose text the minifier spoils |
| HashBits.MaskIsMod | common/uthash.h:433-436 | masking with 2^k - 1 is the remainder modulo 2^k |
| HashBits.CeilByBits | common/uthash.h:849-851 | the shift and the mask compute the quotient rounded up |
| HashExpansion.MultiplierBounds | common/uthash.h:859-864 | the multiplier grown one element at a time bounds the chain and is zero exactly for ideal chains |
| HashExpansion.ExcessUpdate | common/uthash.h:859-860 | counting elements beyond the ideal length one by one counts the excess of every chain |
| HashTables.SlotIsRemainder | common/uthash.h:433-436 | an element's bucket is its hash value modulo the number of buckets |
| HashTables.HashTable.ExpandBuckets | common/uthash.h:836-886 | the buckets double, each old chain is split in two, every element is in its new chain, none lost or duplicated; the ideal length is the rounded-up quotient, the nonideal items the sum of each chain's excess, every chain bounded by its multiplier, and two ineffective expansions in a row end expansion |
| HashTables.ExpansionSplits | common/uthash.h:855-858 | the elements of old chain b are those of the new chains b and b + n |
| HashTables.MoveOne | common/uthash.h:855-872 | one element moves to the front of its new chain with count, multiplier and statistics updated |
| HashTables.HashTable.AddToTable | common/uthash.h:340-348 | the element goes to the front of its chain, and the buckets double exactly when the chain reaches its threshold and expansion is allowed |
| HashTables.HashTable.Add | common/uthash.h:399-418 | the map gains the key, the element becomes the last in insertion order, and the whole structure stays valid |
| HashTables.HashTable.Find | common/uthash.h:156-176 | returns the element the finite map has for the key, and NULL if it has none |
| HashTables.HashTable.Delete | common/uthash.h:453-480 | the map loses the key, the order of the others stays, and the last element takes the table with it |
| HashTables.HashTable.Replace | common/uthash.h:257-272 | the map maps the key to the new element, which becomes the last; the others stay in order, without the one replaced |
| HashTables.HashTable.Fsck | common/uthash.h:519-566 | on every valid table the integrity check finds nothing |
| HashTables.HashTable.Sort | common/uthash.h:893-975 | sorting by any comparison of the elements permutes the insertion order into that of the specification and leaves map and index as they are |
| HashTables.ContentsRemove | common/uthash.h:453-480 | taking one element out of the list takes exactly its key out of the map |
| HashTables.ContentsPermuted | common/uthash.h:893-975 | another order of the elements stands for the same map |
| HashHandles.UnlinkList | common/uthash.h:464-474 | the patch-up of the neighbours, head and tail |
| HashHandles.UnlinkChain | common/uthash.h:792-805 | the same in the chain of a bucket |
| HashHandles.ListDistinct | common/uthash.h:552-559 | a list that ends in NULL visits no element twice |
| HashSort.SortList | common/uthash.h:893-975 | the passes over the linked list terminate and leave consistent links, head and tail, in the order of the specification |
| HashSort.MergeLoop | common/uthash.h:919-961 | two runs are merged behind the list built so far, stale links of the first run included |
| BottomUpSort.SortIsStableSort | common/uthash.h:893-975 | for every total preorder the result is a sorted permutation in which equal elements keep their order |
| BottomUpSort.PassSorts | common/uthash.h:902-972 | a pass turns sorted runs of k elements into sorted runs of 2k |
| BottomUpSort.MergeStable | common/uthash.h:919-960 | a merge keeps equal elements in order, first run first |
| ShareMemQueue.RunIsSafe | common/shareMem/share_mem_queue.c:398-533 | over all interleavings the semaphores and the sides in flight add up to the capacity, the write index is the read index and the element count further on, the held slots differ, and values are consumed in the order published |
| ShareMemQueue.NeverBothBlocked | common/shareMem/share_mem_queue.c:398-533 | in every reachable state some step is enabled |
| ShareMemQueue.HeldValueStays | common/shareMem/share_mem_queue.c:468-533 | no step changes the value in the slot a reader holds |
| ShareMemQueue.StepKeepsInv | common/shareMem/share_mem_queue.c:398-533 | every atomic step of either side keeps the invariant |
| ShareMemQueue.ControlBlock.LockedCommitWrite | common/shareMem/share_mem_queue.c:449-455 | the locked section is the step of the state machine |
| MessagePool.RunIsSafe | common/ctos.c:616-760 | in every run in which slots are sent and released by threads that have them: a slot is used exactly if a thread or the pending list has it and none is had twice, a claim gets a slot nobody has, a receive gets a message whose slot the thread then has alone, and messages leave in the order they were appended |
| MessagePool.HolderStays | common/ctos.c:616-760 | no step of another thread takes a slot away from the thread that has it |
| MessagePool.NeverEmptyHanded | common/ctos.c:626-636 | past its wait, the scan of a claim always finds a slot and a receive never finds the list empty |
| MessagePool.CountsExactly | common/ctos.c:734-760 | a step keeps the counts right if and only if a slot that it releases is used |
| MessagePool.FairExactly | common/ctos.c:616-760 | a step sends or releases only a slot its thread has if and only if no further steps that do lead to a slot had twice or to a claim that scans in vain |
| MessagePool.DoubleReleaseExample | common/ctos.c:734-760 | after releasing an unclaimed slot the second of two admitted claims finds none |
| MessagePool.OtherReleaseExample | common/ctos.c:734-760 | a thread that releases its slot twice, around a claim of another, leaves two threads with one slot |
| MessagePool.IndexOfAddress | common/ctos.c:747-750 | every address inside an element gives back its slot |
| MessagePool.OutsideExactly | common/ctos.c:747-752 | an address belongs to no slot, and its release is ignored, exactly if it lies in no element of the pool |
| MessagePool.Pool.LockedScan | common/ctos.c:627-636 | the scan takes the first free slot and returns its address |
| MessagePool.Pool.LockedAppend | common/ctos.c:661-669 | walking to the end of the linked list appends the message |
| MessagePool.Pool.LockedPop | common/ctos.c:691-703 | the oldest pending message leaves the list |
| SlotRing.RunIsSafe | common/comm_que.c:126-311 | the ring is four consecutive arcs, a slot is held by a side exactly when it lies in that side's arc, the write index follows from the read index and the counts, and what is consumed is what was published |
| SlotRing.PutEmptyExactly | common/comm_que.c:244-254 | handing back empty keeps the ring sound if and only if it is the slot held longest |
| SlotRing.PutFullExactly | common/comm_que.c:256-267 | publishing keeps the ring sound if and only if it is the producer's oldest slot |
| SlotRing.PutFullFrontExactly | common/comm_que.c:269-289 | handing back to the front keeps the ring sound if and only if it is the consumer's newest slot |
| SlotRing.PutEmptyFrontExactly | common/comm_que.c:291-311 | the same for a producer and its newest slot |
| SlotRing.ClearExactly | common/comm_que.c:126-139 | clearing keeps the ring sound if and only if no slot is held |
| SlotRing.OrderExactly | common/comm_que.c:126-311 | a step hands back in order if and only if no number of slots taken after it ends with a slot held twice |
| SlotRing.HoldersAre | common/comm_que.c:141-242 | no slot has two holders |
| SlotRing.CommQue.GiveFullFront | common/comm_que.c:269-289 | the code, its guard and the new state |
| ByteRings.ByteRing.ReadInternal | common/ring/ring_buffer.c:324-369 | a read takes a prefix of the content, in up to two chunks |
| ByteRings.ByteRing.WriteInternal | common/ring/ring_buffer.c:371-415 | a write that leaves a byte free appends; one that fills the ring empties it |
| ByteRings.ByteRing.Peek | common/ring/ring_buffer.c:436-462 | a peek copies a prefix and changes nothing |
| ByteRings.ByteRing.Skip | common/ring/ring_buffer.c:522-542 | a skip drops a prefix, or nothing if there is not enough |
| ByteRings.ByteRing.EnsureWriteSpace | common/ring/ring_buffer.c:569-598 | room is made if and only if content and request fit the largest capacity, and the content stays |
| ByteRings.ByteRing.WriteLen | common/ring/ring_buffer.c:501-520 | all or nothing; the bytes are appended exactly when one byte stays free in the ring as it was |
| ByteRings.AroundMoves | common/ring/ring_buffer.c:382-409 | the two chunks of a write extend the content around the end |
| ByteRings.ReadMoves | common/ring/ring_buffer.c:336-363 | the two chunks of a read are a prefix of the content around the end |
| LinkedQueue.Queue.Enqueue | common/thread_safe_queue.c:61-98 | the element becomes the last; NULL data, a size of 0 and a destroyed queue are refused |
| LinkedQueue.Queue.Dequeue | common/thread_safe_queue.c:106-178 | the first element leaves, if there is one and the queue is not destroyed |
| LinkedQueue.Queue.RemoveWildcard | common/thread_safe_queue.c:205-262 | the matching elements leave in order, the others stay in order, and links, rear and size fit what is left |
| LinkedQueue.SplitIsPartition | common/thread_safe_queue.c:205-262 | matching and other elements together are the old elements, each on its side |

## Left out

- Floating point: numbers are integers below 10^15 in magnitude, which the printer writes as plain decimals; fractions, exponents, saturation of `valueint` and locale decimal points are not modelled.
- JsonParser.ReadInteger: refuses a number with a fraction or an exponent, because what `strtod` makes of them is not modelled; for other text it reads what `strtod` reads.
- ParseBuffers.ParseBuffer.ParseNumber: refuses a number with a fraction or an exponent, for the same reason.
- ParseBuffers.ParseBuffer.ParseValue: does so for the numbers inside it.
- ParseBuffers.ParseBuffer.ParseArray: does so for the numbers inside it.
- ParseBuffers.ParseBuffer.ParseObject: does so for the numbers inside it.
- ParseBuffers.ParseWithOpts: does so for the numbers inside it.
- PatchMiscoded.DiffThenPatchIff: asks that keys of the source be distinct ignoring case; with alike keys the outcome depends on the order of members in the document, and `PatchExactness.DiffThenPatchExactly` decides it for the document the patches were generated from.
- CaseFolding.MergeComputesRfcFolded: asks for keys that are distinct in the case mode; the RFC does not say what merging means for objects with one key twice.
- MergeExactness.MergesExactly: asks for keys that are distinct in the case mode of the merge; an object with one key twice stands for no value.
- MergePatches.MergeReachesWithoutNulls: asks for keys without upper-case letters, with which the walk cannot go astray; `MergeExactness.MergesExactly` decides the others.
- PatchOperations.ApplyFollowsRfc: asks that paths be read as they are meant; what a misread path does is stated for lookups and for generated patches only.
- BlindOperations.BlindFollowsRfc: asks for the same as `PatchOperations.ApplyFollowsRfc` of the folded document and paths, and that no path segment that starts like a number holds an upper-case letter, which the index decoder weighs differently from a small one.
- JsonGrammar.ParseExact: says which texts are refused; at which byte the error is reported is stated for strings and for what is behind the value only.
- CaseBlind.BlindDiffThenPatch: says nothing of paths with a segment such as `2Fast`, whose letters the index decoder weighs differently in upper and lower case, nor of keys that are alike ignoring case.
- Leftover memory: `junk` is one byte that stands at every place the encoder leaves unwritten, in all allocations of a run; only keys with `/` have such places. `PointerEncoding.EncodedKeyMatches` is about any leftover memory.
- KeyCoding.RestoredExactly: is for leftover memory that holds one byte at every unwritten place of the key; over others some keys with `/` are read back by chance, as `KeyCoding.MixedLeftovers` shows for `~//`.
- PatchExactness.DiffThenPatchExactly: is for one such byte in all allocations; for leftovers that differ from place to place keys with `/` are not covered.
- PatchMiscoded.MiscodedFails: is for one such byte, since with others two wrongly written keys could stand for each other.
- Raw items, reference and const-string flags, comments on items, custom allocators and allocation failure.
- Trees are values: a node of a tree is the path of child positions that leads to it, so aliasing between a document and the values a patch inserts is not captured; sorting of a linked sibling list is modelled on nodes.
- A member's name that stays behind when a value moves into an array is not kept.
- `cJSONUtils_FindPointerFromObjectTo`, and keys that are NULL.
- Unsigned counters of the hash table and `size_t` sums of the printer are unbounded; indices of JSON Pointer wrap modulo 2^64.
- The hash function is any function of the key; Bloom filters, `HASH_SELECT` and sorted insertion are not modelled.
- Timeouts, spurious wake-ups, failing locks, and deleting a queue that is in use; a wait that is not over is a step that is not enabled.
- 32-bit casts of addresses in `os_message_release`, and several queues sharing one mutex.
- Ring sizes are unbounded: content and a request that together pass 32 bits are not modelled.
- Moving the cursors of the byte ring directly; the full flag, which only that sets, is handled all the same.
- `queue_find_wildcard` and clearing the linked queue.
- The byte ring as a queue of records, the request queue, the module manager, string extensions, sockets, serial ports, logging, clocks and tasks: plumbing, or operations without an invariant of their own.
