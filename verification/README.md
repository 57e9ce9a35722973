# A verified model of some of perl's core algorithms

Six parts of perl's C core (and one helper in JavaScript) whose correctness is more than a matter of
reading one function:

- **Arrays** (`av.c`): `AvSpec`, `AvOps`, `AvRuns`, `AvStale`, `Av`. A deque in one C buffer. `AvSpec` says
  what a buffer is (`AvALLOC`, the window `AvARRAY`, `AvFILLp`, `AvMAX`, `AvREAL`) and what every operation
  means on a plain sequence; `AvLaws` has the laws of those meanings, index by index; `AvOps` has every
  operation as a function on one array together with a ledger of reference counts; `AvRuns` and `AvStale`
  have the theorems about runs; `Av` is the array updated in place, one method per function of `av.c`, each
  proved equal to its function in `AvOps`. Memory handed out by the allocator holds arbitrary junk.
- **Transliteration** (`doop.c`): `TrSpec` is `tr///` on code points and the two representations of a
  map, `TrLaws` what they mean character by character; `TrRestart` is what the restart does to memory;
  `TrInvmap` and `TrTable` are the five implementations with their cursors over byte buffers, in place or
  into a copy; `Utf8` is perl's extended UTF-8.
- **vec and the bitwise string operators** (`doop.c`): `Vec`, `VecLaws`, `VecMasks` and `Vop`.
- **Classes** (`class.c`): `ClassSpec` has declarations, their meaning, the op list they are compiled to
  and what running it does; `ClassLaws` proves the compiler correct, `ClassNew` says what a constructor call
  does with its list; `ClassObjects` and `ClassRun` are stashes, objects and ops in place.
- **In-place edit** (`doio.c`): `ArgvSpec`, `ArgvLaws`, `ArgvOutcomes`, `Argv`. The link and rename protocol
  with a fault possible at every system call.
- **Escapes** (`dquote.c`, `numeric.c`): `Grok` and `Dquote`.
- **UTF-8 to UTF-16** (`common_preamble.js`): `JsDecoder`.

Where the source works in place, the model does: a class with the source's fields, or an array, and
methods that end in a state given by a function whose properties are then proved as lemmas.

## Results that are not what one would expect

- `av_extend_guts` on a shifted array nulls as many slots as the array grew by, which is the whole tail
  only in some shapes. `AvSpec.ExtendedTailNull` gives the exact condition, and
  `AvRuns.UntameGrowthExposesJunk` a run of two operations that turns allocator junk into an element.
  `AvRuns.DenseRunsAreSafe`, `AvRuns.TameRunsAreSafe` and `AvRuns.PlainRunCorrect` say which runs are
  safe, and `AvRuns.StoreThenFillExactly` states the exact condition on outcomes.
- Pushes alone and single unshifts alone cost a constant each, but a queue does not: the slack that shifts
  leave is reclaimed by sliding everything. `AvRuns.QueueCost` is the exact cost;
  `AvRuns.QueuesHaveNoConstantCost` says that no constant bounds it, and `AvRuns.ShiftsPay` what does.
- `do_trans_invmap` restarts when the output has to become UTF-8, but keeps `previous_map`.
  `TrSpec.RestartExact` gives the exact condition under which that shows (only with `/s`), and
  `TrSpec.RestartLosesACharacter` an input that loses its first character. The match count is not
  affected.
- `S_dir_unchanged` (`doio.c`) takes a failing `stat(".")` for an unchanged directory. With a backup
  requested, the current directory changed, and a file of the same relative name there, that can cost the
  original: `ArgvLaws.KeptExactlyUnlessExposed` is the exact condition, `ArgvLaws.ExposedLoses` the faults
  that bring it about. `ArgvLaws.AbortLeavesTemp` says when the last-resort unlink misses the work file.
- The copy `do_trans_invmap` makes holds `len * max_expansion + 2` bytes, but the maximum expansion is
  about characters in UTF-8 (op.c:6566-6603) and can be 1 for a map that makes bytes longer by upgrading
  them. Without `/s` the copy suffices for every byte string exactly if no byte has a wide replacement or
  no byte's image is longer than the expansion (`TrRestart.CopyEnoughExactly`;
  `TrRestart.ExpansionOfOneOverruns` gives a map and strings for which it does not). Under `/s` the
  condition is about pairs, exactly: no image exceeds the expansion by more than two, and no two images
  that can stand next to each other exceed it on average (`TrRestart.CopyEnoughSquashedExactly`, with
  `TrRestart.SquashedOverruns`).
- A byte that only the last character of the replacement list makes wide does not set
  OPpTRANS_CAN_FORCE_UTF8 (op.c:6505-6524): then the restart runs in place, over what the abandoned pass
  and it itself have written. Output, count and memory are right for every byte string exactly if no byte
  has a wide replacement at all (`TrRestart.InPlaceExactly`). `TrRestart.InPlaceLosesACharacter` gives a
  string for which the output is wrong, `TrRestart.InPlaceOverruns` strings of n bytes for which at least
  2n are written. `TrRestart.InPlaceOutputExactly` is the exact condition for the output alone, were there
  room for it.
- `\x` without braces looks at two or three bytes whatever `send` is. `Dquote.NotRead` and
  `Dquote.ReadChanges` say exactly when the byte at `send` is read and when it matters,
  `Dquote.DigitPastTheEnd` gives a parse that takes it. `Dquote.BeyondSend` and `Dquote.BeyondNul` say
  exactly when the cursor ends up past `send`, `Dquote.CursorPastTheEnd` gives an input.

## Model

| member | source | states |
|---|---|---|
| AvSpec.ExtendedKeeps | av.c:95-208 | on every path of growth there is room for key, nothing shrinks, and elements 0..fill are in order at the start of the window |
| AvSpec.ExtendedNulls | av.c:100-207 | path by path, for a real array: null from fill+1 through key after growth if and only if what the path leaves uncovered was null, which for a slide followed by a reallocation is nothing, whatever the allocator handed out |
| AvSpec.ExtendedTailNull | av.c:110-203 | growth keeps the whole tail null for all allocator junk if and only if it is in one of four checkable shapes |
| AvSpec.SafeGrowKeepsTail | av.c:110-203 | the "if" half for one particular piece of junk |
| AvSpec.ReifiedFacts | av.c:22-49 | av_reify keeps the elements and leaves nothing but null outside them, whatever stood there |
| AvSpec.PutContents | av.c:363-379 | the write of av_store yields the sequence with the element stored, nulls in a gap |
| AvSpec.RefsStoreAt | av.c:363-379 | a store takes one reference and gives up exactly that of the element it displaces |
| AvSpec.PoppedFacts | av.c:799-823 | pop removes the last element and exactly its reference |
| AvSpec.ShiftedFacts | av.c:922-950 | moving the window up removes the first element and exactly its reference |
| AvSpec.CutFacts | av.c:1017-1032 | a shrinking fill keeps a prefix, and the references it gives up are those of the rest |
| AvSpec.RaisedFacts | av.c:1017-1037 | a growing fill over null slots appends nulls and no reference |
| AvSpec.LoweredFacts | av.c:880-889 | unshifting into the slack in front prepends nulls if the slack is null |
| AvSpec.MovedUpFacts | av.c:890-907 | the slow path of unshift prepends nulls and leaves null slack in front |
| AvSpec.DeletedFacts | av.c:1094-1115 | delete nulls an element, or drops a last one with the nulls before it, and gives up one reference |
| AvSpec.RefsTrim | av.c:1099-1103 | trimming trailing nulls gives up no reference |
| AvOps.ReifyCorrect | av.c:22-49 | reifying takes exactly one reference per live occurrence, so that counts equal outside owners plus occurrences |
| AvOps.GrownCorrect | av.c:62-208 | growth changes neither elements nor counts, and says where max and offset end up |
| AvOps.StoredCorrect | av.c:323-435 | av_store agrees with storing into a sequence, takes over one reference, releases the displaced element once |
| AvOps.PopCorrect | av.c:799-823 | pop returns the last element, or undef for a null or empty one, and transfers exactly one reference |
| AvOps.ShiftCorrect | av.c:922-950 | shift returns the first element and transfers exactly one reference |
| AvOps.UnshiftCorrect | av.c:858-908 | unshift by any number, over slack and by sliding, prepends that many nulls |
| AvOps.FillCorrect | av.c:1000-1038 | fill truncates, releasing exactly what it removes, or extends with nulls |
| AvOps.DeleteCorrect | av.c:1053-1116 | delete at any key, negative and out of range included, removes as a sequence would and hands over or drops one reference |
| AvOps.ClearCorrect | av.c:617-679 | clear empties, releases every element once, and takes the slack back |
| AvOps.ClearArgArrayCorrect | cop.h:889-894 | CLEAR_ARGARRAY empties a fake array without touching a count |
| AvOps.StoredRoom | av.c:110-171 | where fill, max and offset are after a store, and how many slots it copied and slid |
| AvOps.UnshiftRoom | av.c:858-908 | the same for a single unshift and the elements it slid |
| AvRuns.StepCorrect | av.c:22-1116 | one operation of any kind agrees with the plain sequence in elements and result, keeps every invariant, and hands its caller exactly the references it should |
| AvRuns.RunCorrect | av.c:22-1116 | so does every safe run, on real and on reifiable arrays |
| AvRuns.RunHandsOut | av.c:22-1116 | over a whole run on a real array, references held outside grow by exactly what was returned |
| AvRuns.DenseRunsAreSafe | av.c:323-435 | runs whose stores and fills leave no gap are safe whatever stands above fill |
| AvRuns.TameRunsAreSafe | av.c:95-208 | sparse runs are safe, and keep everything above fill null, if every growth is in a safe shape |
| AvRuns.PlainRunCorrect | av.c:768-1116 | push, pop, shift, unshift, delete, clear, fill within the array and stores at most one past the end, in any order, on a real array: agreement with a sequence, and null slots in front of the window and above fill at the end |
| AvStale.StaleNeverSurfaces | av.h:21-48 | whatever stands outside the window of a fake array, or nowhere in a real one, never becomes an element and is never returned, in every run, dense or sparse, safe or not, unless the operations or the allocator supply it |
| AvStale.StepFree | av.c:22-1116 | the same for one operation of any kind |
| AvStale.StaleIsInvisible | av.h:21-48 | in safe runs two fake arrays with the same elements but anything at all outside their windows give the same elements and results |
| AvRuns.StoreThenFillExactly | av.c:110-203 | on every clean real array a store and then a fill of the room there is agree with the plain sequence, for all allocator junk, if and only if the growth is in a safe shape |
| AvRuns.UntameGrowthExposesJunk | av.c:110-203 | a concrete run in which allocator junk becomes an element |
| AvRuns.FreshArrayRuns | av.c:768-785 | a fresh array and a push meet everything the theorems about runs ask for |
| AvRuns.PushesCost | av.c:143-171 | n pushes copy at most 6n elements, and at most five times the capacity |
| AvRuns.UnshiftsCost | av.c:890-907 | n single unshifts slide at most 2n elements |
| AvRuns.QueueCost | av.c:110-121 | n turns of shift and push on m elements with r >= 10 slots to spare slide exactly n/(r+1)*(m-1) elements and reallocate nothing |
| AvRuns.QueuesHaveNoConstantCost | av.c:110-121 | for every c there is a queue, two fills away from an empty array, that slides more than c elements per operation however long it runs |
| AvRuns.ShiftsPay | av.c:110-121 | runs of push, pop and shift in any order slide, for each shift and each slot of slack there was before, at most as many elements as there ever are |
| AvLaws.FetchLaw | av.c:274-299 | `$c[$key]` is the element at key, or for a negative key the one at the length plus key, or nothing out of range either way |
| AvLaws.StoreLaw | av.c:323-435 | a store changes the element at its key and no other, and nulls fill a gap |
| AvLaws.StoreBackLaw | av.c:349-354 | a store at a negative key goes to the length plus key, at -1 to the last element; below the start it does nothing |
| AvLaws.StoreThenFetch | av.c:274-435 | what was stored is found under its key, under its other name counted from the end, and every other key finds what it found |
| AvLaws.DeleteLaw | av.c:1053-1116 | delete at a key from the start: what it returns, null in the middle, and the last element goes with the nulls before it |
| AvLaws.DeleteBackLaw | av.c:1085-1092 | a negative key names the element at the length plus key; below the start nothing happens |
| AvLaws.FillLaw | av.c:1000-1038 | exactly n + 1 elements, those there were and then nulls |
| AvLaws.PushPop | av.c:768-823 | what was pushed is found at -1, and pop takes it away again |
| AvLaws.UnshiftLaw | av.c:858-908 | unshift moves every element up by its count and leaves nulls in front |
| AvLaws.UnshiftStoreShift | av.c:858-950 | what is stored into the room made by unshift is what shift takes away |
| AvLaws.QueueKeepsOrder | av.c:768-950 | elements pushed one after the other are shifted off in their order |
| AvLaws.GrowthExamples | av.c:106-192 | the new AvMAX of a first, a full and a shifted array, with and without reallocation |
| Av.ExtendGuts | av.c:95-208 | growth in place is `AvSpec.Extended`, and copies and slides what is counted |
| Av.ReleaseDown | av.c:648-664 | releasing from the top down nulls the slots and takes one reference off for each element in them |
| Av.IncDown | av.c:38-44 | taking references from the top down adds one for each element |
| Av.TrimDown | av.c:1099-1103 | the trimming loop stops at the last element that is not null |
| Av.AV.DoReify | av.c:22-49 | the loops of av_reify in place are `AvOps.Reify` |
| Av.AV.Extend | av.c:62-91 | av_extend in place |
| Av.AV.StoreSv | av.c:323-435 | av_store in place: a negative key means the length plus key, and one below the start stores nothing |
| Av.AV.Fetch | av.c:274-299 | av_fetch without lval finds the element at key, or at the length plus a negative key, or nothing |
| Av.AV.FetchLvalue | av.c:274-299 | av_fetch with lval stores a new SV where there is no element, unless a negative key reaches below the start |
| Av.AV.Push | av.c:768-785 | av_push in place |
| Av.AV.PopSv | av.c:799-823 | av_pop in place |
| Av.AV.ShiftSv | av.c:922-950 | av_shift in place |
| Av.AV.UnshiftSv | av.c:858-908 | av_unshift in place, fast and slow path |
| Av.AV.FillTo | av.c:1000-1038 | av_fill in place |
| Av.AV.ClearAll | av.c:617-679 | av_clear in place |
| Av.AV.DeleteSv | av.c:1053-1116 | av_delete in place, and which element it returns, negative keys and keys out of range included |
| Av.AV.LeaveArgs | inline.h:2849-2867 | what leaving a sub does in place to an `@_` that nothing else refers to |
| Av.AV.ClearDefarray | pp_hot.c:5240-5258 | a reified `@_` is emptied and made fake again if only the pad refers to it; one with other owners, or donated by goto, is left alone less one reference to it, and a new fake array with room takes its place |
| Av.AV.Perform | av.c:22-1116 | any dense run in place ends with the elements and results of the plain sequence |
| Utf8.TopFits | utf8.h:207-230 | the start byte of every code point announces the length its encoding has |
| Utf8.DecodeEncode | utf8.c:206-365 | every 64-bit value reads back from its encoding, whatever follows, with its length |
| Utf8.TextInjective | utf8.c:206-365 | distinct strings of code points have distinct encodings |
| Utf8.LongForms | utf8.h:207-230 | length, first and last byte of the five-, six-, seven- and thirteen-byte forms |
| TrSpec.TrStep | doop.c:205-309 | one more character adds to the output exactly what map, /d and /s say |
| TrSpec.SameMapSameTr | doop.c:176-320 | output and count depend on the map only at the code points of the string |
| TrSpec.IdenticalChangesNothing | doop.c:117-165 | a map to Keep and itself changes nothing, which is why the counting functions may leave the string alone |
| TrSpec.SqueezedHasNoRepeats | doop.c:197-222 | after /s no replacement follows the same replacement, deleted characters being transparent |
| TrSpec.SqueezeSeen | doop.c:536-554 | what was translated before matters for the first token only |
| TrSpec.RestartExact | doop.c:538-554 | the output after a restart is `tr` if and only if /s is off or the stale previous_map is not the string's first replacement |
| TrSpec.RestartLosesACharacter | doop.c:538-554 | a concrete string for which it is not |
| TrSpec.Search | regcomp_invlist.c:466-480 | the range a code point falls in |
| TrSpec.FirstWideIsFirst | doop.c:543-549 | the restart happens at the first replacement that does not fit a byte |
| TrLaws.SingleCharacter | doop.c:40-320 | one character is kept, deleted or replaced, and counted if it is listed |
| TrLaws.PartByPart | doop.c:40-320 | without /s the parts of a string are translated independently |
| TrLaws.CharacterByCharacter | doop.c:40-320 | where nothing is deleted or squashed, output character i is what the map makes of character i |
| TrLaws.SquashOneMore | doop.c:197-222 | under /s a replacement is left out exactly if the last character before it that was not deleted became the same; kept characters never are |
| TrLaws.RangeMeans | doop.c:497-534 | what an inversion map makes of a character, by the range it is in: unlisted, deleted, the final character, or as far from the target as it is from the start of the range |
| TrLaws.RangeKeepsDistances | doop.c:530-534 | within a range the distances between characters are kept |
| TrLaws.InvOutputAt | doop.c:497-555 | character i of do_trans_invmap's output, by the range of character i of the string |
| TrLaws.OneRangeOutput | doop.c:530-534 | `tr/a-b/r-s/` on any string: r + (c - a) for c inside the range, c itself outside it |
| TrLaws.GreekCapitals | doop.c:530-534 | `tr/\x{3b1}-\x{3c9}/\x{391}-\x{3a9}/` makes U+03B2 U+0392 |
| TrLaws.ThereAndBack | doop.c:530-534 | a range sent to a disjoint one and back again is every string with no character of the target as it was |
| TrLaws.TableMeans | doop.c:192-314 | the entries of a table, by number, for bytes and above, with and without /c |
| TrLaws.SimpleTableMeans | doop.c:40-117 | the same without deletions |
| TrLaws.TableThereAndBack | doop.c:192-314 | tables that undo each other give every string back |
| TrLaws.DeletingKeepsTheRest | doop.c:192-314 | a map that only deletes leaves exactly the characters it keeps, and counts the others |
| TrInvmap.ReadChar | doop.c:483-493 | the code point and length at the read cursor, in bytes or UTF-8 |
| TrInvmap.KeepBytes | doop.c:502-512 | an unlisted character is copied as its byte, its bytes or its two-byte encoding |
| TrInvmap.Put | doop.c:538-555 | writing one character moves both cursors; in place the write cursor does not pass the read cursor, in a copy it stays within its share |
| TrInvmap.PrevTells | doop.c:536-538 | previous_map equals the new target exactly when the last token was that replacement |
| TrInvmap.InvTurn | doop.c:476-556 | one turn of the loop emits what `TrSpec` says, or asks for a restart |
| TrInvmap.InvPass | doop.c:474-556 | one pass over the string, leaving the source intact if it copies; it restarts exactly at a first wide replacement |
| TrInvmap.DoTransInvmap | doop.c:403-578 | the whole function, for every map and combination of flags, and every byte string; for a string in UTF-8 the flags must be true of the map: code points, UTF-8 flag and count after at most one restart; where the restart happens in place, what comes out of the overwritten buffer; `enough` comes out false exactly if more would be written than the copy or the buffer holds |
| TrInvmap.PromiseKept | doop.c:461-472 | for strings in UTF-8 the flags of the operator make every replacement fit its place, or the output its copy |
| TrInvmap.NewCopy | doop.c:464-472 | the copy has floor(len * max_expansion) + 2 bytes, and so always room for an output in bytes |
| TrInvmap.OutScaled | doop.c:464-472 | if no character takes more than its share, neither does any output |
| TrInvmap.CopyFits | doop.c:464-472 | the first pass always fits the copy |
| TrInvmap.OvertakingTurn | doop.c:476-556 | one turn whose write cursor may be ahead of its read cursor |
| TrInvmap.OvertakingPass | doop.c:476-556 | a whole pass of that kind is `TrRestart.Overtaking` |
| TrInvmap.LeftBehind | doop.c:543-549 | what an abandoned pass in place has left in the buffer |
| TrRestart.CopyEnoughExactly | doop.c:464-472 | without /s the copy is long enough for every byte string if and only if no byte has a wide replacement or the encoded image of every byte, kept bytes included, is at most max_expansion long |
| TrRestart.CopyEnoughIf | doop.c:464-472 | with or without /s that condition suffices, string by string |
| TrRestart.CopyEnoughSquashedExactly | doop.c:464-472 | under /s the copy is long enough for every byte string if and only if no byte has a wide replacement, or no image is more than two longer than max_expansion and no two images of undeleted bytes with different replacements together exceed twice max_expansion |
| TrRestart.ExpansionOfOneOverruns | doop.c:464-472 | with an expansion of 1, `tr/\xFF/\x{100}/` on n >= 3 bytes \xFF writes 2n bytes into a copy of n + 2 |
| TrRestart.SquashedOverruns | doop.c:464-472 | with an expansion of 1, `tr/\xFF\xFE/\x{100}\x{101}/s` on 2n >= 4 alternating bytes writes 4n bytes into a copy of 2n + 2 |
| TrRestart.InPlaceExactly | doop.c:543-549 | restarting in place gives the output and count of an intact source and stays within the string, for every byte string, if and only if no byte has a wide replacement |
| TrRestart.InPlaceFitsExactly | doop.c:543-549 | staying within the string alone has the same exact condition |
| TrRestart.InPlaceOutputExactly | doop.c:543-549 | output and count alone, given room, are right for every byte string if and only if no byte has a wide replacement or all bytes have the same (under /s, or are deleted) |
| TrRestart.InPlaceOverruns | doop.c:543-549 | `tr/\x{100}\xFF/\x{100}/` on n >= 1 bytes \xFF restarts in place and writes at least 2n bytes |
| TrRestart.PairOvertaken | doop.c:543-549 | after a wide replacement in place the next byte read is one of its own |
| TrRestart.InPlaceLosesACharacter | doop.c:543-549 | a concrete string that loses its second character this way |
| TrTable.DoTransSimple | doop.c:40-112 | table, neither /d nor /s: bytes in place, UTF-8 in place or copied |
| TrTable.DoTransComplex | doop.c:176-320 | table with /d, /s or /c: the byte loops and the UTF-8 loop all do `tr` on code points |
| TrTable.SquashBytes | doop.c:192-228 | the byte loop under /s |
| TrTable.ComplexUtf8 | doop.c:243-314 | the UTF-8 loop |
| TrTable.TablesAtMostDouble | doop.c:71-78 | no table replacement is more than twice as long as what it replaces, so that len*2+1 bytes suffice |
| TrTable.DoTransCount | doop.c:127-165 | counts what the table lists, and under /c everything above a byte |
| TrTable.DoTransCountInvmap | doop.c:334-393 | counts what the inversion map lists: the count `DoTransInvmap` returns |
| TrTable.TableAndInvmapAgree | doop.c:586-634 | a table and an inversion map of the same translation give the same output and count, with and without /s and /d, in bytes and UTF-8 |
| TrTable.UpgradeCommutes | doop.c:40-320 | for both readings of a table: a byte string and its upgraded form mean the same code points, give outputs that upgrade to each other, and the same count |
| TrTable.DoTrans | doop.c:586-634 | whichever function is chosen, code points and count are `tr`'s; the exceptions are exactly the stale previous_map, the restart in place, and byte strings whose output outgrows its memory, which `enough` tells exactly |
| Vec.GetAfterSet | doop.c:799-960 | reading what was assigned gives it modulo 2 to the power size |
| Vec.OthersKept | doop.c:799-960 | an element of any size on disjoint bits reads as before, past the old end included |
| Vec.SetLength | doop.c:923-930 | the string never shrinks and grows to exactly the element's last byte |
| Vec.SetAfterGet | doop.c:799-960 | assigning what was read changes nothing but the length |
| Vec.SetTwice | doop.c:908-960 | the last assignment wins |
| Vec.Indices | doop.c:799-806 | the byte and bit computed by the code are those of bit offset*size |
| Vec.TailSumIsNumber | doop.c:826-859 | what the falling-through cases add up to is the big-endian value |
| Vec.ElemPastEnd | doop.c:803-826 | an element past the end, or at an offset that overflows, is zero |
| Vec.Target.VecGet | doop.c:769-862 | do_vecget is `Vec.Elem` on the zero-padded string up to 64 bits and 0 above; sizes that are no power of two croak |
| Vec.Target.VecSet | doop.c:868-962 | do_vecset is `Vec.SetElem` up to 64 bits and only grows the string above; bad sizes and overflowing offsets croak and change nothing |
| Vec.Replaced | doop.c:932-937 | replacing one field of a byte changes nothing above or below it |
| VecLaws.BytesAreBytes | doop.c:816-823 | `vec($s, $i, 8)` is byte i |
| VecLaws.WideIsItsHalves | doop.c:826-859 | elements of two, four and eight bytes are their halves, the first one high |
| VecLaws.NarrowAreHalves | doop.c:799-806 | elements of two, four and eight bits are their halves, the first one low |
| VecLaws.ElemInRange | doop.c:799-862 | an element of size bits is below 2 to the power size |
| VecMasks.FieldIsBits | doop.c:806-806 | the shifted and masked byte is the field |
| VecMasks.MaskedIsWithBits | doop.c:932-937 | clearing under the mask and or-ing in, on bit-vectors, is replacing the field |
| Vop.BytesOfApply | doop.c:1087-1111 | an operation on longs is the operation on each of their bytes |
| Vop.Longs | doop.c:1075-1118 | the four-longs loop does the bytes it covers and no other, aliased or not |
| Vop.Chars | doop.c:1120-1132 | the bytewise loop does the rest |
| Vop.Assembled | doop.c:1036-1046 | common prefix and dangling tail together are the operation on zero-extended operands |
| Vop.DoVop | doop.c:964-1174 | do_vop on byte strings is the bytewise operation on zero-extended operands, of length min for AND and max for OR and XOR, with a fresh target or the left operand, aligned or not |
| Vop.VopCommutes | doop.c:1036-1046 | the operands may be swapped |
| Vop.XorUndoes | doop.c:1036-1046 | xor-ing the same string twice gives the zero-padded original back |
| Vop.BitsOfVop | doop.c:1036-1046 | bit k of byte i of the result from bit k of byte i of the operands |
| Vop.VopLength | doop.c:1051-1068 | the shorter length under AND, the longer one under OR and XOR |
| Vop.WithItself | doop.c:1036-1046 | `$s & $s` and `$s \| $s` are `$s`, `$s ^ $s` is all NULs |
| Vop.Absorption | doop.c:1036-1046 | `$s & ($s \| $t)` and `$s \| ($s & $t)` are `$s` |
| ClassLaws.WritesEachSlotOnce | class.c:635-803 | the compiled op list writes slots 0..next_fieldix-1 each exactly once, in order, superclass first |
| ClassLaws.CompilerCorrect | class.c:635-803 | running it gives every slot the value its declaration asks for, initialisers seeing the fields they name, leaves a subclass's slots alone and takes the right parameters; or dies of the right error |
| ClassLaws.ArgsAreUsed | class.c:651-668 | pad reads of a compiled initialiser see the values of the fields it names |
| ClassLaws.ParamCompiled | class.c:731-764 | exists-or, // and \|\| on a parameter mean what = , //= and \|\|= declare |
| ClassLaws.FieldStep | class.c:778-792 | one OP_INITFIELD extends the initialised prefix by one field |
| ClassLaws.InitSucceeds | class.c:733-763 | initialisation works exactly if every required parameter of the chain is there, and leaves exactly the parameters of no field |
| ClassLaws.ConstructSucceeds | class.c:127-231 | construction succeeds if and only if every parameter without a default in the chain is supplied and every supplied name is in the chain's map |
| ClassLaws.MapNamesFields | class.c:941-946 | the parameter map names exactly the fields that have a parameter, under their own indices |
| ClassLaws.OneFieldPerParam | class.c:936-946 | no parameter feeds two fields anywhere in the chain |
| ClassLaws.SuppliedArrives | class.c:741-763 | a supplied value the field accepts ends up in that field |
| ClassLaws.PrefixIsSuper | class.c:545-549 | an instance of a subclass holds in its first slots what one of the superclass would |
| ClassLaws.MethodSeesItsFields | class.c:274-298 | each (padix, fieldix) pair of a method binds the right initialised field, on instances of subclasses too |
| ClassLaws.BoundElsewhere | class.c:274-298 | pad entries bound to no field keep what they held |
| ClassNew.HashHolds | class.c:101-107 | a key holds what follows its last occurrence in the list, or undef if the list ends there |
| ClassNew.HashKeys | class.c:148-159 | the keys are exactly what stands at even positions |
| ClassNew.FieldGets | class.c:48-125 | every field's value, by sigil and mode: the supplied value unless `//=` or `\|\|=` rejects it, otherwise the default computed from the values of the fields it names |
| ClassNew.FirstMissing | class.c:733-738 | initialisation dies of the first required parameter, in order of slots, that was not supplied |
| ClassNew.ConstructFails | class.c:213-227 | the constructor complains of exactly the unknown names, once nothing is missing |
| ClassNew.AdjustOrder | class.c:190-212 | ADJUST blocks run superclass first, in order of declaration, each seeing what those before it left |
| ClassNew.NewSucceeds | class.c:127-231 | `new(list)` works if and only if all required names, and no unknown ones, stand at even positions |
| ClassNew.ListedArrives | class.c:148-159 | the value after a parameter's last occurrence in the list ends up in its field |
| ClassNew.NewX | class.c:127-231 | `new(x => "5")`, `new()` and `new(y => "5")` for `field $x :param = 1` |
| ClassObjects.Stash.ApplyIsa | class.c:495-562 | :isa takes over next_fieldix, parameter map, ADJUST blocks and @ISA; a second one croaks |
| ClassObjects.Stash.AddField | class.c:894-917 | a new field gets the next index |
| ClassObjects.Stash.ApplyParam | class.c:919-947 | :param, with its three errors |
| ClassObjects.Stash.SetDefop | class.c:1010-1046 | the last initialiser replaces an earlier one; `//=` and `\|\|=` are never taken back |
| ClassObjects.Stash.Capture | class.c:805-815 | the pad entry through which an initialiser sees an earlier field |
| ClassObjects.Stash.AddAdjust | class.c:1048-1060 | ADJUST blocks run in order of declaration |
| ClassObjects.Stash.Seal | class.c:635-803 | class_seal_stash builds the op list of the declaration |
| ClassObjects.PadIndex | class.c:656-668 | fieldix_to_padix maps a field to its pad entry |
| ClassObjects.SealField | class.c:699-793 | the op for one field, by sigil, parameter and mode |
| ClassObjects.FieldReplaced | class.c:928-946 | a parameter or initialiser for the newest field keeps the declaration well-formed |
| ClassRun.EvalOp | class.c:733-763 | evaluating a field's value op, deletions from the parameter hash included |
| ClassRun.NewHash | class.c:92-112 | pairs into a hash: later keys win, an odd last value is undef |
| ClassRun.InitFieldOp | class.c:48-125 | pp_initfield in place |
| ClassRun.RunCode | class.c:670-694 | the initfields CV: its ops in order, the superclass's in a call with a pad of its own |
| ClassRun.RunAdjusts | class.c:190-212 | the ADJUST blocks in order |
| ClassRun.New | class.c:127-231 | injected_constructor: the object `ClassSpec.Construct` describes, or its error |
| ClassRun.WrapMethodBody | class.c:842-892 | the aux items of OP_METHSTART: the pairs of the method's pad and their largest fieldix |
| ClassRun.MaxIxIs | class.c:866-880 | the index OP_METHSTART checks is the largest field index of the pairs |
| ClassRun.MethStart | class.c:240-310 | pp_methstart: both croaks, with @ISA as :isa built it, and the bindings; no pair is out of the object's bounds |
| ArgvLaws.KeptExactlyUnlessExposed | doio.c:1634-1807 | at every point between system calls, under every pattern of failures, the original bytes are under orig or the requested backup (or, without backup, replaced by the work file), if and only if the edit is not exposed |
| ArgvLaws.ExposedLoses | doio.c:1606-1613 | an exposed edit can end in success with the original bytes gone |
| ArgvLaws.CommitExits | doio.c:1634-1807 | for every edit: on success the last call renamed the work file, which is now the original, unless that call used a plain name in another directory and left the original alone; on failure the original is untouched, and unless the directory changed an attempt to unlink the work file was the last thing done; unless the edit is exposed nothing was ever lost and the backup is there |
| ArgvLaws.BackUpKeeps | doio.c:1702-1726 | link, or else rename, makes the backup or changes nothing |
| ArgvLaws.ReplaceExit | doio.c:1762-1789 | renaming the work file onto the original, and its failing exits |
| ArgvLaws.ReplaceSucceeds | doio.c:1762-1773 | through the directory handle the commit is complete wherever the current directory is |
| ArgvLaws.NoBackupExit | doio.c:1727-1741 | a failed backup leaves the original alone |
| ArgvLaws.ChildDoesNothing | doio.c:1684-1688 | a forked child changes no name |
| ArgvLaws.AbortLeavesTemp | doio.c:1786-1788 | the plain unlink misses the work file exactly in another current directory |
| ArgvOutcomes.CommitOutcome | doio.c:1634-1807 | with every call supported and any of them failing: the commit succeeds if and only if the backup can be made, by the link or after it by the rename, and the work file renamed; otherwise the report names the failed step, as a croak or on an explicit close as false, and says when the work file is left behind |
| ArgvOutcomes.NothingFails | doio.c:1762-1773 | without failures the edit is committed, with the backup if one is asked for |
| ArgvOutcomes.CloseFails | doio.c:1791-1805 | a failed close commits nothing and is reported |
| ArgvOutcomes.SeenElsewhere | doio.c:1592-1629 | without a handle, another current directory makes it croak with nothing touched |
| ArgvOutcomes.FallsBack | doio.c:1704-1726 | a call not supported through the handle is made by the plain name, unless the directory is seen to have changed |
| Argv.FreedCommits | doio.c:1259-1320 | a handle still open when the program ends well commits the edit |
| Argv.FreedAbandons | doio.c:1259-1320 | a handle that was never closed leaves the original and unlinks the work file; a child does nothing |
| Argv.Kernel.DirUnchangedCheck | doio.c:1592-1629 | S_dir_unchanged as a call |
| Argv.Kernel.Try | doio.c:1704-1726 | a step through the directory handle, and plainly if that is not supported |
| Argv.Kernel.ArgvoutFinal | doio.c:1634-1807 | the sequence of calls is `ArgvSpec.Final` |
| Argv.Kernel.ArgvoutFree | doio.c:1259-1320 | the clean-up is `Argv.Freed` |
| Grok.ValueIsNumber | numeric.c:352-600 | the value accumulated digit by digit is that of the digits, underscores removed, in positional notation |
| Grok.ValueGrows | numeric.c:487-524 | an overflow is never undone by later digits |
| Grok.Unrolled | numeric.c:423-473 | the unrolled switch takes up to eight digits |
| Grok.GrokNumber | numeric.c:352-600 | value, length and both flags, overflow detected exactly |
| Grok.DigitsAre | handy.h:2565-2577 | the k-th characters of 0123456789ABCDEF and 0123456789abcdef are worth k, and nothing else is |
| Grok.ReadsBack | numeric.c:352-600 | a number spelled in either alphabet reads back as itself, up to where it ends |
| Grok.Underscores | numeric.c:526-540 | a single underscore between digits does not count; two of them end the number |
| Dquote.BracedFits | dquote.c:386-387 | the code point of \x{...} or \o{...} never encodes longer than the escape |
| Dquote.BareFits | dquote.c:386-387 | nor does that of \x without braces |
| Dquote.DigitsPayForEncoding | dquote.c:386-387 | n hex digits never need more than n + 3 bytes |
| Dquote.Trim | dquote.c:498-507 | the two blank loops find the trimmed text |
| Dquote.Braces | dquote.c:481-561 | the braced forms: every error, and the cursor just past the first closing brace; nothing at or past `send` is read |
| Dquote.BareX | dquote.c:435-479 | \x without braces, strict and lax: result and cursor, for any bytes at and after `send` |
| Dquote.TakenAre | dquote.c:449-453 | grok_hex takes exactly the leading digits among the two or three bytes it is told of |
| Dquote.NotRead | dquote.c:449-453 | unless everything before `send` is digits and not yet enough of them, nothing at or after `send` makes any difference |
| Dquote.ReadChanges | dquote.c:449-478 | otherwise the byte at `send` is read, and changes the outcome if and only if it is a digit, or in lax mode anything but a NUL |
| Dquote.BeyondSend | dquote.c:453-463 | the cursor ends up beyond `send` if and only if a digit there was taken, or a missing byte is skipped for the error message |
| Dquote.BeyondNul | dquote.c:460-463 | with a NUL at `send`: if and only if a strict escape not in UTF-8 ends after one digit |
| Dquote.CursorPastTheEnd | dquote.c:460-463 | for instance \x4 at the end of a string |
| Dquote.DigitPastTheEnd | dquote.c:449-453 | for instance \x4 before a "1" that is not part of the string: it parses as U+0041 |
| Dquote.GrokBslashX | dquote.c:374-562 | grok_bslash_x: result, cursor, and the length bound |
| Dquote.GrokBslashO | dquote.c:232-372 | grok_bslash_o likewise |
| Dquote.EscapeReadsBack | dquote.c:481-561 | a spelled number, in braces and among blanks, is the code point, whatever follows the brace |
| Dquote.BracedReadsBack | dquote.c:519-529 | the same for the text between the braces, with the limit on its size |
| Dquote.BracedStops | dquote.c:536-552 | anything else behind the digits is an error if strict, and otherwise a diagnostic |
| Dquote.BracedBlank | dquote.c:509-519 | blank braces are NUL for a lax \x and otherwise an error |
| Dquote.BareReadsBack | dquote.c:449-478 | two bare digits are 16 times the first plus the second |
| Dquote.BareWithFewer | dquote.c:453-478 | one or no bare digit: an error if strict, otherwise the number, with a diagnostic unless a NUL ends it |
| Dquote.BareWithThree | dquote.c:456-459 | three bare digits are an error if strict |
| Dquote.AlienIsSkipped | dquote.c:460-463 | in UTF-8 the cursor goes past the whole offending character |
| JsDecoder.Utf16RoundTrip | common_preamble.js:34-39 | UTF-16 code units of scalar values read back as those values |
| JsDecoder.Surrogates | common_preamble.js:37-38 | the two shifts and masks give the surrogates of section 2.1 of RFC 2781 |
| JsDecoder.UnitExamples | common_preamble.js:34-39 | three code points and their units, one from section 2.1 of RFC 2781 |
| JsDecoder.DecodesFive | common_preamble.js:24-27 | the value of a five-byte form |
| JsDecoder.DecodesSix | common_preamble.js:28-31 | the value of a six-byte form |
| JsDecoder.DecodesScalar | common_preamble.js:13-32 | one turn on a well-formed sequence yields its scalar value and consumes its bytes |
| JsDecoder.ReadOne | common_preamble.js:13-32 | the reads of one turn, for any heap |
| JsDecoder.Utf8ArrayToString | common_preamble.js:10-41 | for every well-formed UTF-8 text (section 3 of RFC 3629) the loop outputs exactly its UTF-16 code units, consuming exactly len bytes |

## Left out

Arrays:

- Tied and magical arrays, read-only croaks, destructors that re-enter an array, the mortal stack: they
  run code that is not in `av.c`. Arrays here are plain and writable.
- The `PL_curstack` fix-up, `STRESS_REALLOC`, `Perl_safesysmalloc_size`, saturation at `SSize_t_MAX` and
  running out of memory: build variants, or the end of the program.
- `av_unshift` on an array that is neither real nor reifiable, and `av_make`, `av_undef`,
  `av_create_and_push`, `av_iter_p`, `av_exists`: they would only add easy members.
- AvRuns.StepCorrect: requires a dense operation or nulls above fill, because otherwise the property is
  false (see `AvRuns.UntameGrowthExposesJunk`).

Strings:

- Malformed UTF-8, tainting, magic and warnings; EBCDIC.
- How `tr///` is compiled. That OPpTRANS_GROWS and the maximum expansion describe the characters of a
  string in UTF-8 is a precondition for such strings (`TrInvmap.Promised`, `TrTable.Compact`), and
  `_invlist_search` is modelled by its specification. `op.c` is not part of this model.
- TrInvmap.DoTransInvmap: says nothing of the string where the source would write beyond its memory (`enough`
  is false), because what is there has no meaning here.
- Operands of `tr///` that hold code points above `IV_MAX`.
- `vec` on strings flagged UTF-8 (they are downgraded first), errors that the lvalue carries along
  (`LvFLAGS`), and byte offsets beyond `SSize_t_MAX`.
- Vec.Target.VecGet: requires that of an element of more than 64 bits none or more than eight bytes are
  there, because otherwise the source shifts by more than the width of a UV, which is undefined.
- Vec.Bits: shifts and masks are written as the quotients and remainders they are; `VecMasks` proves it.
- UTF-8 operands of the bitwise operators, which are downgraded first; an undefined target.
- `do_join`, `do_sprintf`, `do_kv`.

Classes:

- Parsing of attribute text, versions, loading a module for `:isa` or finding that it is no class,
  contexts, op memory. A superclass is sealed before `:isa` names it, and `:isa` precedes fields and
  ADJUST blocks.
- ClassLaws.ConstructSucceeds: initialisers and ADJUST blocks do not themselves fail; they are arbitrary
  functions of the fields they can see.
- Statement markers (OP_NEXTSTATE) in the op list, which do nothing here.

In-place edit:

- Systems without rename or without inode numbers, VMS and DOS; restoring the mode with fchmod; the text of
  messages; other processes that touch the directories at the same time. Whether closing the work file
  succeeds is an argument.
- `orig`, `temp` and `backup` are all relative or all absolute, as the source asserts.

Escapes:

- The text of warnings and errors; the floating-point value of a number that is too large; the prefixes
  0x and 0b and the flag for medial underscores, which neither caller uses.
- Dquote.Braces: the source's loop over blanks after the number is an assertion, because the cursor is
  still at the number's first character and the loop never turns.

JavaScript:

- The branch that calls TextDecoder.
