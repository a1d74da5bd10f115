# Verified models of the os-workbench components

Dafny models of the parts of this repository whose correctness is decided by intricate code, with proofs of what
that code promises. Each file models one component, or the abstract object a component is proved against.

| files | component |
|---|---|
| `Skyline.dfy`, `Candidates.dfy`, `RectPacker.dfy` | the skyline rectangle packer: node lists, both heuristics, packing; no two rectangles overlap |
| `EditHistory.dfy`, `UndoStore.dfy` | the undo store of the text editor: two stacks in one record and one character array, refining a history of texts |
| `Words.dfy`, `Division.dfy`, `SignedDivision.dfy` | 64-bit division from 32-bit words, unsigned and signed |
| `Regions.dfy`, `KernelHeap.dfy` | the kernel heap: first fit over an address-ordered, doubly linked, coalescing free list |
| `KvModel.dfy`, `KvLog.dfy`, `KvBlocks.dfy`, `KvStore.dfy` | the key/value store: block chains refining a map, and recovery from copy and redo log |
| `ListSort.dfy` | the list benchmark: in-place bottom-up merge sort, remove and undo, reverse |
| `FixSqrt.dfy`, `FixArith.dfy`, `FixText.dfy` | 16.16 fixed-point square root, multiplication, division, printing and reading |
| `Ctype.dfy` | white space and digits, for the two parsers |
| `Sequences.dfy` | lists of pool indices, for the linked structures |
| `SemMachine.dfy`, `KernelThreads.dfy`, `Ring.dfy` | semaphores with the producer/consumer program as a step machine, the waiter ring, the scheduler |
| `Snake.dfy` | the snake game |
| `Bitmap.dfy` | the block and inode bitmaps of the file system |

Code that updates structures in place is modelled by classes over arrays: a C pointer into a pool is an index, NULL
is -1, and a `Valid()` predicate ties the arrays to ghost sequences that say what they represent. Each method is
proved against a specification function on those sequences; lemmas about the functions and about runs carry the
promises. Machine words are bounded integers, and wrap-around is written out where it can happen; where one is left
out, the last section says so.

Where the code does less than its documentation or its comments say, the model follows the code. A lemma or a run
shows the failing input, and another says exactly when the code is right:

- the packer can run out of nodes with quantised widths (`RectPacker.RunOutOfNodes`), exactly in the bins of `RunsOut`
  (`RectPacker.Context.RefusedForRoom`);
- the undo path commented as impossible is taken (`UndoStore.SecondUndoStuck`, `UndoStore.GivesUp`), exactly in the
  documents of `UndoStore.StuckExactly`, and corrupts a store whose records are all in use (`UndoStore.Breaks`,
  `UndoStore.Editor.UndoEdit`); an undo that drops characters leaves a redo list that no longer fits the text
  (`UndoStore.RedoneAfterUndo`), so that a later redo reads outside it (`UndoStore.RedoOutside`); 16-bit lengths make
  a record useless beyond 32767 characters (`UndoStore.ShortInverseUndoes`);
- a failed put deletes the old value without logging it (`KvStore.FailedPut`), which matters exactly if the key was
  stored (`KvStore.Store.KvdbPut`); the log is not faithful to white space and to empty keys and values
  (`KvLog.EmptyValueSwallows`, `KvLog.BlankSplitsKey`, `KvLog.PutRoundTrip`, `KvLog.GetRoundTrip`); a second recovery
  loses data (`KvStore.RecoverTwice`) unless the map is as it was when the copy was made (`KvStore.Store.Recover`);
- the square root rounds low for some large arguments (`FixSqrt.RoundsLow`, `FixSqrt.WithinOne`);
- the 32-bit product is not always the rounded one (`FixArith.MulFalseOverflow`, `FixArith.MulMissesOverflow`,
  `FixArith.MulRight`), nor is the division with a kick-start (`FixArith.DivNotNearest`, `FixArith.DivExactly`);
- the decimals of a printed number can round it up to one that is not read back (`FixText.RoundedUpIsRejected`,
  `FixText.ReadBack`), and a decimal beyond -32768 is read as a positive number (`FixText.BeyondSmallest`,
  `FixText.NumberMeaning`);
- a request for more than 2^30 bytes that meets a free block of 2^31 cuts it into all and nothing
  (`Regions.CutsToNothing`, `Regions.TiledExactly`);
- in bins of area 2^31 or more the 32-bit waste can wrap (`Candidates.WasteBound`, `Candidates.WasteReaches`);
- INT64_MIN / -1 (`SignedDivision.DivModTruncates`);
- the comment in the merge sort allows for the empty list, but line 484 then follows a null pointer; the model, like
  the benchmark, sorts non-empty lists only.

## Model

| member | source | states |
|---|---|---|
| Skyline.PlaceKeepsPacked | os-workbench/abstract-machine/libs/imgui/include/stb_rect_pack.h:428-508 | A box put down at its resting height overlaps no box placed earlier, and the new skyline is again at least as high as the top of every box below it; this is the geometric step behind "no two rectangles overlap". |
| Skyline.PlaceCovers | os-workbench/abstract-machine/libs/imgui/include/stb_rect_pack.h:443-478 | The list surgery, seen as a skyline: exactly one new segment at the box top, which ends where the box ends, or with the segment the box starts on when it lies strictly inside it; everything else a part of an old segment, x strictly increasing from 0 to the sentinel. |
| RectPacker.Context.constructor | os-workbench/abstract-machine/libs/imgui/include/stb_rect_pack.h:244-274 | A fresh target: the invariant holds (active and free list partition the node pool, the skyline is one flat segment and the sentinel), nothing is placed, and the alignment is the least one of which num_nodes span the width; it is 1 exactly when there are as many nodes as columns. |
| RectPacker.Context.SetupHeuristic | os-workbench/abstract-machine/libs/imgui/include/stb_rect_pack.h:212-222 | Chooses bottom-left or best-fit and keeps the invariant. |
| RectPacker.Context.SetupAllowOutOfMem | os-workbench/abstract-machine/libs/imgui/include/stb_rect_pack.h:224-242 | Chooses the width quantum, 1 or the least one of which num_nodes span the width, and keeps the invariant. |
| RectPacker.QuantumMeaning | os-workbench/abstract-machine/libs/imgui/include/stb_rect_pack.h:234-240 | num_nodes quanta span the width, and num_nodes of the next smaller one do not; the quantum is 1 exactly when num_nodes >= width. |
| RectPacker.AlignUpMeaning | os-workbench/abstract-machine/libs/imgui/include/stb_rect_pack.h:339-342 | The two alignment statements give the least multiple of the quantum that is at least the width. |
| RectPacker.Context.FindMinY | os-workbench/abstract-machine/libs/imgui/include/stb_rect_pack.h:277-325 | The returned height is the maximum over the segments the span meets (attained, and none higher), the waste is what the program counts there, at most the area of the bin in magnitude, and it is the sum of the lost areas unless the walk starts inside a segment of height 0. |
| Candidates.TallyExact | os-workbench/abstract-machine/libs/imgui/include/stb_rect_pack.h:300-320 | Height, visited width and waste are exact after every segment of the walk, unless it starts inside a segment of height 0, where the columns left of the box are counted as well. |
| Candidates.WasteBound | os-workbench/abstract-machine/libs/imgui/include/stb_rect_pack.h:300-320 | After every segment of the walk the counted waste is at most width * height in magnitude, so 32 bits hold it in every bin of area below 2^31. |
| Candidates.WasteReaches | os-workbench/abstract-machine/libs/imgui/include/stb_rect_pack.h:314-318 | The bound is nearly reached: beside a box of width 1 and the height of the bin the waste is (width - 1) * height, which does not fit 32 bits when that is 2^31 or more. |
| Candidates.WasteOver | os-workbench/abstract-machine/libs/imgui/include/stb_rect_pack.h:300-320 | For every walk the counted waste exceeds the lost area by at least nothing and at most the columns left of the box in its first segment times the resting height, and by nothing at all unless that segment has height 0 and starts left of the box. |
| Skyline.RestingHeightUnique | os-workbench/abstract-machine/libs/imgui/include/stb_rect_pack.h:277-325 | A box over given columns has only one resting height, so the height FindMinY returns is determined. |
| RectPacker.Context.LeftScan | os-workbench/abstract-machine/libs/imgui/include/stb_rect_pack.h:344-370 | Left-aligned scan: no admissible candidate exists when none is returned; otherwise no candidate is better than the returned one: lower, for best-fit at the same height with less waste, and at the same grade further left. |
| RectPacker.Context.RightScan | os-workbench/abstract-machine/libs/imgui/include/stb_rect_pack.h:396-419 | Right-aligned scan of the best-fit heuristic: from the best left-aligned position on it ends with a position that no right-aligned candidate beats by height, then waste, then leftmost column. |
| RectPacker.Context.FindBestPos | os-workbench/abstract-machine/libs/imgui/include/stb_rect_pack.h:333-426 | Bottom-left finds the lowest, then leftmost left-aligned position; best-fit finds, among the left-aligned and right-aligned candidates together, the lowest, then least wasteful, then leftmost one, the waste being the exact number, which is that of the program in bins of area below 2^31; failure means there is no candidate. |
| Candidates.BestMeaning | os-workbench/abstract-machine/libs/imgui/include/stb_rect_pack.h:333-426 | What the best position is: left-aligned with a segment, or for best-fit right-aligned with one and below the top edge; and no position of either kind that fits is lower, or as high with less waste, or as high and wasteful further left. |
| RectPacker.Context.InsertSegment | os-workbench/abstract-machine/libs/imgui/include/stb_rect_pack.h:443-478 | Taking a free node, relinking, freeing the covered nodes and stitching: both lists are well-formed again, still partition the pool, and the list shows exactly the skyline with the box placed. |
| RectPacker.Context.PackRectangle | os-workbench/abstract-machine/libs/imgui/include/stb_rect_pack.h:428-508 | Refuses exactly when the free list is empty or the aligned box fits at no column at all, and then changes nothing; otherwise the box goes to the best position and the skyline is updated accordingly. The no-overlap invariant is kept, and no column gets lower. |
| Candidates.LeftEnough | os-workbench/abstract-machine/libs/imgui/include/stb_rect_pack.h:344-370 | If no left-aligned position has room, no position has: moving a box left to the start of its segment never raises it. |
| Candidates.NoRoomKept | os-workbench/abstract-machine/libs/imgui/include/stb_rect_pack.h:443-478 | A box for which there was no room finds none later, because no column of the skyline gets lower. |
| RectPacker.Context.PackRects | os-workbench/abstract-machine/libs/imgui/include/stb_rect_pack.h:545-580 | Over any sequence of calls: flags are truthful, every packed rectangle of positive area lies inside the bin and clear of all others and of everything placed before, sizes and ids stay with their rectangles; unless the nodes run out, which RunOutOfNodes and RefusedForRoom decide, a rectangle is left out only if its aligned width still fits nowhere at the end, and with a node for every column only if the rectangle itself fits nowhere. |
| Skyline.SegmentsCounted | os-workbench/abstract-machine/libs/imgui/include/stb_rect_pack.h:244-274 | Pigeonhole: a skyline has no more segments than columns, because their x values are distinct. |
| RectPacker.Context.NodesSuffice | os-workbench/abstract-machine/libs/imgui/include/stb_rect_pack.h:128-136 | With num_nodes >= width the free list is never empty when the invariant holds. |
| RectPacker.RunOutOfNodes | os-workbench/abstract-machine/libs/imgui/include/stb_rect_pack.h:128-136 | The documentation promises that quantised widths never run out of nodes. They do in every bin of RunsOut: num_nodes < width, and the height is at least 2 or is 1 with num_nodes + align <= width. There this run uses up every node and then refuses a rectangle for which there is room. |
| RectPacker.Context.RefusedForRoom | os-workbench/abstract-machine/libs/imgui/include/stb_rect_pack.h:128-136 | The converse, with quantised widths in every other bin and whatever has been packed: when the free list is empty there is no room for any rectangle either. |
| Skyline.FloorGap | os-workbench/abstract-machine/libs/imgui/include/stb_rect_pack.h:443-478 | A box on the floor lies within one segment, because a new segment always stands between two gaps; so its width and the other segments together fit the bin. |
| EditHistory.InverseUndoes | os-workbench/abstract-machine/libs/imgui/include/stb_textedit.h:1155-1221 | The inverse entry applies where the edit led, restores the text, and its own inverse is the edit. |
| EditHistory.StepRefines | os-workbench/abstract-machine/libs/imgui/include/stb_textedit.h:1155-1297 | One edit, undo or redo of the document is one step of the history of texts with a cursor. |
| EditHistory.RunRefines | os-workbench/abstract-machine/libs/imgui/include/stb_textedit.h:1155-1297 | For any interleaving of edits, undos and redos the text equals the text at the history's current position. |
| EditHistory.UndosThenRedos | os-workbench/abstract-machine/libs/imgui/include/stb_textedit.h:1155-1272 | n undos show the text from before the last n edits, and n redos bring the whole history back. |
| EditHistory.ForgetOldest | os-workbench/abstract-machine/libs/imgui/include/stb_textedit.h:1069-1085 | Dropping the oldest undo entries forgets the oldest texts and nothing else. |
| UndoStore.Editor.constructor | os-workbench/abstract-machine/libs/imgui/include/stb_textedit.h:1062-1066 | An empty store is valid: both stacks empty at the two ends of the arrays. |
| UndoStore.Editor.DiscardUndo | os-workbench/abstract-machine/libs/imgui/include/stb_textedit.h:1069-1085 | Shifting records and characters down removes exactly the oldest undo entry; the rest stays contiguous and in order. |
| UndoStore.Editor.DiscardRedo | os-workbench/abstract-machine/libs/imgui/include/stb_textedit.h:1091-1109 | Shifting up removes exactly the oldest redo entry, and carries the half-written record below the stack along. |
| UndoStore.Editor.CreateUndoRecord | os-workbench/abstract-machine/libs/imgui/include/stb_textedit.h:1111-1133 | Makes room at the old end only: the surviving entries are the longest suffix of the undo list that leaves a record and the characters free; the loop terminates; a request beyond the buffer empties the undo stack. |
| UndoStore.TrimIsSuffix | os-workbench/abstract-machine/libs/imgui/include/stb_textedit.h:1111-1133 | What making room keeps: a suffix of the undo list with room for the new entry, every longer one having none; nothing when the characters never fit. |
| UndoStore.RecordedForgets | os-workbench/abstract-machine/libs/imgui/include/stb_textedit.h:1111-1153 | An edit forgets the fewest of the oldest texts that leave room to record it, exactly one when only the records are full, and the whole future; an edit that removes more characters than the buffer holds forgets the whole past. |
| UndoStore.Editor.MakeUndo | os-workbench/abstract-machine/libs/imgui/include/stb_textedit.h:1274-1297 | The new record with its saved characters goes on top of the trimmed undo stack, its new length cut to 16 bits, and the redo stack is flushed. |
| UndoStore.Editor.InsertText | os-workbench/abstract-machine/libs/imgui/include/stb_textedit.h:1274-1277 | Typing: the text gains the characters and the document becomes the recorded insertion; the store stays valid while the length fits 16 bits; beyond, the record keeps the low 16 bits of the length and both stacks stay well-formed. |
| UndoStore.Editor.ReplaceText | os-workbench/abstract-machine/libs/imgui/include/stb_textedit.h:1289-1297 | Overwriting: the characters are replaced and the document becomes the recorded replacement; the store stays valid while the new length fits 16 bits; beyond, the record keeps its low 16 bits and both stacks stay well-formed. |
| UndoStore.ShortIs | os-workbench/abstract-machine/libs/imgui/include/stb_textedit.h:1135-1153 | A 16-bit length differs from the length by a multiple of 65536, and not at all within 16 bits. |
| UndoStore.ShortInverseUndoes | os-workbench/abstract-machine/libs/imgui/include/stb_textedit.h:1135-1153 | The record, whose lengths are 16-bit, takes the edit back exactly when at most 32767 characters were put in. |
| UndoStore.Editor.DeleteText | os-workbench/abstract-machine/libs/imgui/include/stb_textedit.h:563-568 | Deleting: the document becomes the recorded deletion, the store stays valid. |
| UndoStore.RecordedIsEdit | os-workbench/abstract-machine/libs/imgui/include/stb_textedit.h:1111-1153 | While records and characters fit, recording an edit is a plain history step. |
| UndoStore.Editor.UndoEdit | os-workbench/abstract-machine/libs/imgui/include/stb_textedit.h:1155-1221 | Undo yields exactly the undone document with the cursor behind what it put back, gives up exactly in the squeezed documents of StuckExactly, and keeps the store valid unless it gives up with all records in use; then no undo list matches the arrays. |
| UndoStore.StuckExactly | os-workbench/abstract-machine/libs/imgui/include/stb_textedit.h:1182-1195 | Undo takes the last redo entry, and gives up, exactly when there is one, the undone entry removes characters, these fit beside the undo characters, and they do not fit between those and the characters of the next redo entry alone. |
| UndoStore.UndoneIsUndo | os-workbench/abstract-machine/libs/imgui/include/stb_textedit.h:1155-1221 | While all characters fit, undo neither drops nor discards anything: it is the plain undo. |
| UndoStore.RedoneAfterUndo | os-workbench/abstract-machine/libs/imgui/include/stb_textedit.h:1182-1204 | Undo and then redo bring the text back exactly when the undo drops no characters, the guard of line 1182; when it does, redo only deletes the characters that the undo put back. |
| UndoStore.Editor.RedoEdit | os-workbench/abstract-machine/libs/imgui/include/stb_textedit.h:1223-1272 | Redo yields exactly the redone document with the cursor behind what it put in, and keeps the store valid; it reads outside the text exactly when the next redo entry does not fit the text, which needs an earlier undo that dropped characters; its bail-out at line 1246 cannot be reached. |
| UndoStore.RedoOutside | os-workbench/abstract-machine/libs/imgui/include/stb_textedit.h:1182-1204 | The failing run: for any two insertions of which the first does not fit the character buffer and the second does, two undos and one redo; the next redo reads outside the text. |
| UndoStore.UndoneIsValid | os-workbench/abstract-machine/libs/imgui/include/stb_textedit.h:1155-1221 | After an undo there is room to redo everything, which is what makes the bail-out of redo unreachable. |
| UndoStore.StepKeepsWindow | os-workbench/abstract-machine/libs/imgui/include/stb_textedit.h:1062-1297 | However much has been discarded, each edit of at most 32767 new characters and each undo or redo that the store carries out without dropping characters is a step of the full history; the store remembers the newest past and the nearest future. |
| UndoStore.RunKeepsWindow | os-workbench/abstract-machine/libs/imgui/include/stb_textedit.h:1062-1297 | Over any run of such operations, with discarding, the text equals the text at the full history's current position. |
| UndoStore.Perform | os-workbench/abstract-machine/libs/imgui/include/stb_textedit.h:1155-1297 | One such operation, carried out on the two arrays, changes the document as a step of the run does and keeps the store valid. |
| UndoStore.PerformAll | os-workbench/abstract-machine/libs/imgui/include/stb_textedit.h:1062-1297 | A whole run of such operations, carried out on the two arrays, ends with the text at the full history's current position. |
| UndoStore.SecondUndoStuck | os-workbench/abstract-machine/libs/imgui/include/stb_textedit.h:1188-1195 | The bail-out commented "should never happen" does happen: after any two insertions that do not fit beside each other the second undo gives up. |
| UndoStore.Editor.MakeRedoRoom | os-workbench/abstract-machine/libs/imgui/include/stb_textedit.h:1189-1195 | Discards just enough of the oldest redo entries, and gives up exactly when that takes the last one. |
| UndoStore.KeptIsPrefix | os-workbench/abstract-machine/libs/imgui/include/stb_textedit.h:1189-1195 | The redo entries kept are the nearest ones, as many as fit. |
| UndoStore.GivesUp | os-workbench/abstract-machine/libs/imgui/include/stb_textedit.h:1188-1195 | The same as a run of the store itself: first undo done, second given up. |
| UndoStore.Breaks | os-workbench/abstract-machine/libs/imgui/include/stb_textedit.h:1163-1195 | With all 99 records in use giving up leaves the half-written redo record on top of the undo stack, so the partition of the arrays into undo and redo entries is lost. |
| Division.UDivModDi4 | os-workbench/abstract-machine/libs/compiler-rt/udivmoddi4.c:23-201 | For every 64-bit a and every b != 0 the result is a / b and the remainder a % b, through every special case and the loop. |
| Division.SubtractMaskMeaning | os-workbench/abstract-machine/libs/compiler-rt/udivmoddi4.c:194-196 | The signed shift of d - r - 1 is all ones exactly when r >= d, for all d and r with d - r <= 2^63 and r - d < 2^63 and for no others; the loop stays within these even for d >= 2^63. |
| Division.ShiftSubtract | os-workbench/abstract-machine/libs/compiler-rt/udivmoddi4.c:180-198 | From a balanced register pair the shift-subtract loop ends with quotient and remainder. |
| Division.Round | os-workbench/abstract-machine/libs/compiler-rt/udivmoddi4.c:181-197 | One round doubles the registers, subtracts the divisor exactly when it fits, and keeps dividend = quotient part * divisor + remainder part. |
| Division.DivideByHigh | os-workbench/abstract-machine/libs/compiler-rt/udivmoddi4.c:51-103 | Divisors with a zero low word: both shortcuts, the power of two and the loop give quotient and remainder. |
| Division.DivideByLow | os-workbench/abstract-machine/libs/compiler-rt/udivmoddi4.c:106-147 | One-word divisors: the power of two, the division by one and all three start-ups of the loop give quotient and remainder. |
| Division.DivideTwoWords | os-workbench/abstract-machine/libs/compiler-rt/udivmoddi4.c:148-172 | Two-word divisors: the early exit and both start-ups of the loop give quotient and remainder. |
| SignedDivision.DivModTruncates | os-workbench/abstract-machine/libs/compiler-rt/divmoddi4.c:19-23 | Quotient and remainder truncate toward zero and the remainder takes the sign of a with abs(rem) < abs(b), as in section 6.5.5 of C11; this holds exactly when (a, b) is not (INT64_MIN, -1). |
| SignedDivision.TruncatedIsUnique | os-workbench/abstract-machine/libs/compiler-rt/divdi3.c:19-27 | Section 6.5.5 of C11 determines quotient and remainder. |
| SignedDivision.RemaindersAgree | os-workbench/abstract-machine/libs/compiler-rt/moddi3.c:19-28 | __moddi3 agrees with the remainder of __divmoddi4 for all a and all b != 0, the wrapping negation of INT64_MIN included. |
| SignedDivision.OverflowValue | os-workbench/abstract-machine/libs/compiler-rt/divdi3.c:19-27 | INT64_MIN / -1 comes out as INT64_MIN, with remainder 0. |
| Regions.TakeKeeps | os-workbench/kernel/src/alloc.c:230-243 | Cutting and taking a free region keeps the heap tiled and coalesced; a region of at least 2 * newsz bytes is cut, newsz bytes being handed out and one region added, and any other is handed out whole (for newsz = 2^31, whose double is zero, every region is cut). |
| Regions.TakeAddsOne | os-workbench/kernel/src/alloc.c:230-243 | Allocating leaves all other allocated regions as they are. |
| Regions.GiveKeeps | os-workbench/kernel/src/alloc.c:184-204 | Freeing and merging on both sides keeps the heap tiled and coalesced and gives back exactly the bytes of the region. |
| Regions.GiveTakesOne | os-workbench/kernel/src/alloc.c:184-204 | Freeing leaves all other allocated regions as they are. |
| Regions.GiveUndoesTake | os-workbench/kernel/src/alloc.c:271-294 | Freeing right after allocating restores the heap exactly. |
| Regions.RunKeeps | os-workbench/kernel/src/alloc.c:271-294 | Over every run of requests that cuts no block of exactly its own size, up to where the kernel stops or the rounding does not end, the regions tile the heap without overlap, no two free ones touch and there is a record for each; once nothing is allocated the heap is the single initial block. |
| Regions.ModerateIsSolid | os-workbench/kernel/src/alloc.c:240-242 | In a heap below 2^31 bytes, or when no request asks for more than 2^30 bytes, no run cuts a block of exactly its own size, so every run keeps the heap tiled. |
| Regions.TiledExactly | os-workbench/kernel/src/alloc.c:240-242 | A request that does not stop the kernel keeps the heap tiled exactly if it does not cut a block of its own size: the size class is 2^31, so that the doubled size of line 240 is zero, and the lowest large enough block has 2^31 bytes. |
| Regions.CutsToNothing | os-workbench/kernel/src/alloc.c:240-242 | The failing input: a heap of one block of 2^31 bytes, and a request for more than half of it. |
| Regions.AllFreeIsInitial | os-workbench/kernel/src/alloc.c:50-62 | Tiled, coalesced and nothing in use: then, and only then, there is the one initial block. |
| Regions.Covered | os-workbench/kernel/src/alloc.c:50-62 | Every address of the heap lies in exactly one region. |
| Regions.RoundedIsLeast | os-workbench/kernel/src/alloc.c:231-232 | The size class is the least 1024 * 2^k that holds the request. |
| Regions.RoundingEnds | os-workbench/kernel/src/alloc.c:231-232 | In a 32-bit size_t the doubling loop ends exactly for sizes up to 2^31. |
| KernelHeap.Pmm.constructor | os-workbench/kernel/src/alloc.c:50-62 | The initial list holds the one block that spans the heap. |
| KernelHeap.Pmm.FreeCut | os-workbench/kernel/src/alloc.c:105-122 | Cutting keeps the doubly linked list, its order and its count, and splits exactly one region in two; it needs a spare record. |
| KernelHeap.Pmm.FreeDelete | os-workbench/kernel/src/alloc.c:209-223 | Unlinking takes exactly one record off the list and marks its region allocated. |
| KernelHeap.Pmm.FreeMerge | os-workbench/kernel/src/alloc.c:143-164 | Two neighbouring free blocks become one, the second record becomes unused, and the list stays well-formed; none of the assertions fails. |
| KernelHeap.Pmm.FindPlace | os-workbench/kernel/src/alloc.c:184-193 | The walk finds the two list neighbours of the address; its assertion cannot fail. |
| KernelHeap.Pmm.FreeInsert | os-workbench/kernel/src/alloc.c:184-204 | Insertion in address order with merging on both sides is exactly the abstract free of the region. |
| KernelHeap.Pmm.FreeCheck | os-workbench/kernel/src/alloc.c:88-98 | The consistency walk visits exactly list_size blocks and none of its assertions can fail. |
| KernelHeap.Pmm.FindBlock | os-workbench/kernel/src/alloc.c:233-237 | The walk stops at the lowest-addressed free block of at least the given size, or at the tail when there is none. |
| KernelHeap.Pmm.Kalloc | os-workbench/kernel/src/alloc.c:271-283 | One step of the regions, for every size: the lowest free block that holds the request is taken, cut to newsz bytes exactly when it has 2 * newsz or more (or newsz = 2^31), and whole otherwise; the kernel stops for want of a block, or of a record when a cut is needed, or never returns beyond 2^31, or an empty block comes about; mem_used stays the total of the allocated blocks. |
| KernelHeap.Pmm.FreeFind | os-workbench/kernel/src/alloc.c:230-244 | Takes the lowest free block with size >= newsz, the least size class that holds the request, and cuts it exactly when its size is 2 * newsz or more (or newsz = 2^31); the assertion of line 238 fails exactly when no free block is large enough, that of line 26 exactly when a cut is needed and there are as many regions as records. |
| KernelHeap.Pmm.PoolFull | os-workbench/kernel/src/alloc.c:19-28 | No pool record is unused exactly when there are as many regions as records. |
| KernelHeap.Pmm.Kfree | os-workbench/kernel/src/alloc.c:286-294 | One step of the regions: frees exactly the region allocated at the address, merging it; a pointer to none stops the kernel; mem_used falls by the size of the region. |
| KvModel.StepMeaning | os-workbench/libkvdb/kvdb.c:290-366 | put sets exactly one key, get removes exactly one, and keys stay unique through the swap with the last item. |
| KvModel.WithoutMeaning | os-workbench/libkvdb/kvdb.c:101-118 | Moving the last item into the gap removes exactly the one key from the map. |
| KvModel.FindMeaning | os-workbench/libkvdb/kvdb.c:153-158 | The linear search finds a key exactly when the map holds it, at the entry with its value. |
| KvBlocks.ReleasedRepr | os-workbench/libkvdb/kvdb.c:101-118 | Freeing a chain and moving the last item keeps the representation: chains disjoint, null-ended, of the right length, and `used` marking exactly their blocks. |
| KvBlocks.AddedRepr | os-workbench/libkvdb/kvdb.c:75-99 | A claimed and written chain extends the representation by one entry. |
| KvStore.Store.Collect | os-workbench/libkvdb/kvdb.c:76-89 | Succeeds exactly when enough blocks are free, and then collects distinct free ones. |
| KvStore.Store.Alloc | os-workbench/libkvdb/kvdb.c:75-99 | The item points at a new chain of ceil(size / 4096) blocks that were free; with too few blocks nothing changes. |
| KvStore.Store.Free | os-workbench/libkvdb/kvdb.c:101-118 | The entry is gone, the last one has its slot, and exactly the blocks of its chain are free again; the error branch is unreachable. |
| KvStore.Store.Read | os-workbench/libkvdb/kvdb.c:121-134 | The first `size` characters of the read buffer are the stored value. |
| KvStore.Store.Write | os-workbench/libkvdb/kvdb.c:137-151 | Each block of the chain gets its part of the value, padded with zeros, whatever the buffer holds behind the terminator. |
| KvBlocks.StoredAt | os-workbench/libkvdb/kvdb.c:137-151 | Character i of a value is in block i / 4096 of its chain, at place i % 4096, and the rest of the last block is zero. |
| KvStore.Store.KvdbPut | os-workbench/libkvdb/kvdb.c:290-328 | Succeeds exactly when the blocks of all values suffice, and then sets the one key and appends its line to the log; a failed put has already deleted the old value without logging it, so copy and log still rebuild the map exactly if the key was absent. |
| KvStore.FailedPut | os-workbench/libkvdb/kvdb.c:295-308 | The failing input: for any two stored keys, a put of the second one that needs too many blocks returns an error, the key is no longer found, and it is back with its old value after a recovery. |
| KvStore.Store.KvdbGet | os-workbench/libkvdb/kvdb.c:330-366 | Hands out the value and deletes the key, exactly for keys that are stored, and appends its line to the log. |
| KvLog.PutRoundTrip | os-workbench/libkvdb/kvdb.c:315-315 | For every key and value, a printed put is parsed back to itself exactly when the key is not empty and has no white space, and the value is not empty, has no newline and no white space in front. |
| KvLog.GetRoundTrip | os-workbench/libkvdb/kvdb.c:353-353 | For every key, a printed get is parsed back to itself exactly when the key is not empty and has no white space. |
| KvLog.BlankSplitsKey | os-workbench/libkvdb/kvdb.c:187-191 | The failing input: a put whose key holds a blank is read back as a put of the part before the blank, the rest of the key going into the value. |
| KvLog.AnyLine | os-workbench/libkvdb/kvdb.c:186-201 | Any line of a log, taken apart into white space, two words and the rest: get and put are carried out, the value of a put being the rest of its line or of the text without the last character; any other operation ends the program; a key of 256 characters or more and a put at the end of the text overrun the buffers. |
| KvLog.NoLine | os-workbench/libkvdb/kvdb.c:187-187 | Fewer than two words end the replay. |
| KvLog.ReplayPrinted | os-workbench/libkvdb/kvdb.c:186-201 | Replaying the printed log of a run over the entries it started from gives the entries it ended with. |
| KvLog.EmptyValueSwallows | os-workbench/libkvdb/kvdb.c:187-191 | Why values must not be empty: the empty value of a put takes the next log line as its value. |
| KvStore.Store.RedoOperations | os-workbench/libkvdb/kvdb.c:186-201 | Carries out exactly the replay of the log, and says whether the program would have exited. |
| KvStore.Store.Recover | os-workbench/libkvdb/kvdb.c:212-232 | Whatever was in memory, recovery rebuilds the entries of copy and log. The log is then empty while the copy is old, so the store could be recovered again exactly if the operations have left the map as it was when the copy was made. |
| KvStore.RecoverTwice | os-workbench/libkvdb/kvdb.c:212-232 | The failing input: a clean open, any put and two recoveries, after which the key is lost. |
| KvStore.Store.OpenClean | os-workbench/libkvdb/kvdb.c:233-259 | A clean open or create ends with a copy on disk that, with the empty log, rebuilds the store. |
| KvStore.Store.Close | os-workbench/libkvdb/kvdb.c:271-288 | The file written holds the store, and copy and log are gone. |
| ListSort.NoCycle | os-workbench/abstract-machine/apps/coremark/src/core_list_join.c:426-496 | A null-terminated list visits no node twice. |
| ListSort.MergeOrdered | os-workbench/abstract-machine/apps/coremark/src/core_list_join.c:453-478 | Merging two ordered runs, the first from an earlier stretch of the list, gives an ordered and stable run, for every total preorder. |
| ListSort.PassDoubles | os-workbench/abstract-machine/apps/coremark/src/core_list_join.c:433-484 | A pass over ordered runs of width w leaves ordered runs of width 2w, each a permutation of its own stretch of the original list. |
| ListSort.OrderedIsUnique | os-workbench/abstract-machine/apps/coremark/src/core_list_join.c:426-496 | There is only one sorted and stable arrangement of a list, so the sort is determined. |
| ListSort.Arena.Compare | os-workbench/abstract-machine/apps/coremark/src/core_list_join.c:112-118 | The comparison decides the order of the two items; without results it also restores the low byte of both, and changes nothing else. |
| ListSort.Arena.StepAlong | os-workbench/abstract-machine/apps/coremark/src/core_list_join.c:442-448 | Steps min(insize, length) nodes along and counts them. |
| ListSort.Arena.MergeRuns | os-workbench/abstract-machine/apps/coremark/src/core_list_join.c:453-478 | Relinking while traversing: what comes out is the merge of the two runs appended to the list being built, the rest of the list is untouched. |
| ListSort.Arena.SortPass | os-workbench/abstract-machine/apps/coremark/src/core_list_join.c:433-484 | One pass relinks the nodes into the pass of the list, null-terminated, and counts at most one merge exactly when the list has at most 2 * insize nodes. |
| ListSort.Arena.MergeSort | os-workbench/abstract-machine/apps/coremark/src/core_list_join.c:426-496 | For every non-empty list and every total preorder: terminates, same nodes with the same items, null-terminated, sorted and stable; with regeneration every item of a list of two or more nodes is regenerated. |
| ListSort.RegenMeaning | os-workbench/abstract-machine/apps/coremark/src/core_list_join.c:113-116 | Regenerating makes both bytes of the 16-bit data what its high byte was, and changes nothing else. |
| ListSort.Arena.SortByIdx | os-workbench/abstract-machine/apps/coremark/src/core_list_join.c:112-118 | Sorting by index orders the list by idx; with regeneration both bytes of the data of every item of a list of two or more are its old high byte, without it, or in a list of one, no item changes. |
| ListSort.Arena.Remove | os-workbench/abstract-machine/apps/coremark/src/core_list_join.c:316-327 | Swaps the items of a node and its successor and unlinks the successor. |
| ListSort.RemovedList | os-workbench/abstract-machine/apps/coremark/src/core_list_join.c:316-327 | Removing takes exactly the item of the given node out of the list. |
| ListSort.Arena.UndoRemove | os-workbench/abstract-machine/apps/coremark/src/core_list_join.c:345-355 | Links the removed node back in and swaps the items back. |
| ListSort.UndoRestores | os-workbench/abstract-machine/apps/coremark/src/core_list_join.c:345-355 | Undoing a removal restores every node. |
| ListSort.RestoredList | os-workbench/abstract-machine/apps/coremark/src/core_list_join.c:345-355 | On any list, putting a node back inserts its item in front of the one it was swapped with. |
| ListSort.Arena.Reverse | os-workbench/abstract-machine/apps/coremark/src/core_list_join.c:395-404 | Reverses the list in place and touches no other node. |
| ListSort.RevAt | os-workbench/abstract-machine/apps/coremark/src/core_list_join.c:395-404 | Node i of the reversed list is node n - 1 - i of the list. |
| ListSort.RevTwice | os-workbench/abstract-machine/apps/coremark/src/core_list_join.c:395-404 | Reversing twice is the identity. |
| FixSqrt.FixSqrt | os-workbench/abstract-machine/libs/fixmath/src/fix16_sqrt.c:12-84 | For every argument the result has its sign and is the nearest root of the target, which is 65536x unless the remainder of the first phase exceeds 16 bits; no 32-bit variable overflows in either phase. |
| FixSqrt.DigitLoop | os-workbench/abstract-machine/libs/fixmath/src/fix16_sqrt.c:36-48 | The digit loop ends with the integer square root of its target and the remainder. |
| FixSqrt.ExactBelow | os-workbench/abstract-machine/libs/fixmath/src/fix16_sqrt.c:53-70 | For raw arguments below 2^30 the target is exactly 65536x, so the result is the nearest root. |
| FixSqrt.WithinOne | os-workbench/abstract-machine/libs/fixmath/src/fix16_sqrt.c:53-70 | For every argument the result is the nearest root, or one less: the latter exactly when the first phase carries more than 16 bits and, with u the integer root of 65536x, u*u + u lies among the 16384 values below 65536x. Line 62 subtracts 0x8000 where the algebra gives 0x4000. |
| FixSqrt.RoundsLow | os-workbench/abstract-machine/libs/fixmath/src/fix16_sqrt.c:62-62 | An argument for which the result is one too low: raw 1090650238. |
| FixSqrt.NearestMeansHalfStep | os-workbench/abstract-machine/libs/fixmath/src/fix16_sqrt.c:75-81 | Nearest means (2r - 1)^2 < 4X < (2r + 1)^2; comparing remainder and root decides it. |
| FixSqrt.NearestUnique | os-workbench/abstract-machine/libs/fixmath/src/fix16_sqrt.c:75-81 | Only one integer is nearest to a square root. |
| FixArith.MulMeaning | os-workbench/abstract-machine/libs/fixmath/src/fix16.c:113-166 | For all arguments the result is the taken product rounded to nearest, halves away from zero, or OVERFLOW if that does not fit; the taken product is a*b, less the multiple of 2^48 by which the middle term of line 128 wraps. |
| FixArith.MulNumbers | os-workbench/abstract-machine/libs/fixmath/src/fix16.c:113-166 | The same in numbers: a*b, with 2^48 more or less when the middle term does not fit 32 bits, rounded to nearest with halves away from zero, and OVERFLOW exactly from 32768 less half a unit on. |
| FixArith.MulRight | os-workbench/abstract-machine/libs/fixmath/src/fix16.c:113-166 | For all arguments the result is a*b rounded, or OVERFLOW where that does not fit, exactly when the middle term of line 128 fits 32 bits, or both a*b and the taken product are too large. |
| FixArith.MulFalseOverflow | os-workbench/abstract-machine/libs/fixmath/src/fix16.c:128-128 | An argument pair whose product fits but is reported as OVERFLOW. |
| FixArith.MulMissesOverflow | os-workbench/abstract-machine/libs/fixmath/src/fix16.c:128-142 | An argument pair whose product does not fit and is not reported. |
| FixArith.KickStart | os-workbench/abstract-machine/libs/fixmath/src/fix16.c:306-311 | The kick-start leaves an estimate and a remainder whose scaled value is too large by less than 2^17, and nothing overflows. |
| FixArith.DivideStep | os-workbench/abstract-machine/libs/fixmath/src/fix16.c:320-339 | One round: dividend = quotient * divider + scaled remainder is kept, and the quotient never exceeds the true one. |
| FixArith.OverflowTest | os-workbench/abstract-machine/libs/fixmath/src/fix16.c:333-334 | The mask test is true exactly when the quotient digit does not fit in 32 bits at its position. |
| FixArith.DivideLoop | os-workbench/abstract-machine/libs/fixmath/src/fix16.c:320-339 | The rounds add exactly the quotient, or report an overflow exactly when it needs more than 32 bits. |
| FixArith.Div | os-workbench/abstract-machine/libs/fixmath/src/fix16.c:290-360 | For every a and b the result is the rounded quotient with its sign, or OVERFLOW. |
| FixArith.DivNearest | os-workbench/abstract-machine/libs/fixmath/src/fix16.c:290-360 | For 0 < abs(b) < 2^20 the quotient is the nearest value to 65536a/b, halves away from zero, and OVERFLOW exactly when 2^17 abs(a) >= 2^32 abs(b). |
| FixArith.DivExactly | os-workbench/abstract-machine/libs/fixmath/src/fix16.c:290-360 | For every a and b != 0: OVERFLOW exactly when 2^17 abs(a) >= 2^32 abs(b); otherwise the result is the nearest value, moved one unit away from zero exactly when floor(2^17 abs(a) / abs(b)) is even and its remainder plus the slack of the kick-start reaches abs(b). |
| FixArith.NearestIsUnique | os-workbench/abstract-machine/libs/fixmath/src/fix16.c:343-356 | For every a and b != 0 there is one and only one nearest value, halves away from zero. |
| FixArith.DivWithinOne | os-workbench/abstract-machine/libs/fixmath/src/fix16.c:306-360 | With the kick-start the result is off by at most 65536/abs(b) beyond the half unit of rounding. |
| FixArith.DivNotNearest | os-workbench/abstract-machine/libs/fixmath/src/fix16.c:306-311 | With the kick-start it need not be nearest: raw 633 by raw 1050271. |
| FixText.ItoaMeaning | os-workbench/abstract-machine/libs/fixmath/src/fix16_str.c:10-26 | The printed digits denote the value; without skipping there are exactly as many as asked for, and with it there is no leading zero. |
| FixText.ItoaLoop | os-workbench/abstract-machine/libs/fixmath/src/fix16_str.c:10-26 | The digit loop appends exactly those digits. |
| FixText.ToStr | os-workbench/abstract-machine/libs/fixmath/src/fix16_str.c:28-58 | Prints the text of TextIs: sign, integer part and rounded decimals, with the carry into the integer part. |
| FixText.TextIs | os-workbench/abstract-machine/libs/fixmath/src/fix16_str.c:28-58 | The printed text is a minus sign for negative values, an integer part without leading zeros and, unless none are asked for, a point and that many decimals; it denotes the multiple of the last decimal nearest to the value, halves away from zero. |
| FixText.ReadInteger | os-workbench/abstract-machine/libs/fixmath/src/fix16_str.c:71-78 | Consumes exactly the leading digits and computes their number modulo 2^32. |
| FixText.ReadFraction | os-workbench/abstract-machine/libs/fixmath/src/fix16_str.c:93-98 | Consumes at most five digits and computes their number and the power of ten. |
| FixText.FromStr | os-workbench/abstract-machine/libs/fixmath/src/fix16_str.c:60-113 | Returns exactly what the text denotes, with every rejection of the program. |
| FixText.NumberMeaning | os-workbench/abstract-machine/libs/fixmath/src/fix16_str.c:60-113 | For every text behind its sign: it is rejected exactly when the integer part is out of range or something other than digits and white space follows, and otherwise the value is the nearest one to the decimal that is written, of which five digits count; below -32768 by half a unit or more it comes out positive, 65536 too large. |
| FixText.TextMeaning | os-workbench/abstract-machine/libs/fixmath/src/fix16_str.c:60-113 | Any text, taken apart into white space, sign, integer digits, point or comma with up to five decimals, and the rest: it is rejected exactly when the integer part is missing, longer than five digits or too large, or the rest holds anything but digits and white space; otherwise the value is the nearest one to the decimal, but for those beyond -32768. |
| FixText.BeyondSmallest | os-workbench/abstract-machine/libs/fixmath/src/fix16_str.c:84-112 | The failing input: "-32768.5" is read as 32767.5. |
| FixText.ReadBack | os-workbench/abstract-machine/libs/fixmath/src/fix16_str.c:28-113 | For every value and number of decimals, what is printed is read back as integer part and decimals, off by at most half a decimal and half a unit; it is rejected for its size exactly when 10^k (2^31 - value) <= 2^15, k being the decimals printed. |
| FixText.RoundTrip | os-workbench/abstract-machine/libs/fixmath/src/fix16_str.c:28-113 | For every 32-bit value, reading it back from five decimals gives the value, the smallest one included. |
| FixText.RoundedUpIsRejected | os-workbench/abstract-machine/libs/fixmath/src/fix16_str.c:38-43 | A value that is rejected: the largest one with four decimals is rounded up to 32768. |
| SemMachine.StepInv | os-workbench/kernel/src/kthreads.c:139-194 | Every step of every task keeps the invariant: locks, waiter queues and tokens. |
| SemMachine.Safety | os-workbench/kernel/framework/main.c:13-43 | For any number of producers and consumers and every interleaving: 0 <= cnt <= maxk, the halt of wakeup is not reached, and a semaphore whose lock is free has exactly max(0, -value) waiters. |
| SemMachine.MutualExclusion | os-workbench/kernel/framework/main.c:16-19 | No two tasks are between wait(mutex) and signal(mutex), which the unprotected cnt++ needs. |
| SemMachine.WakesLongest | os-workbench/kernel/src/kthreads.c:159-166 | A signal wakes the waiter that has waited longest on the semaphore. |
| SemMachine.BoundedWaiting | os-workbench/kernel/src/kthreads.c:145-166 | In every run a waiter with k others in front of it keeps its turn through the next k signals of the semaphore and is woken by the one after. |
| SemMachine.NoDeadlock | os-workbench/kernel/framework/main.c:13-34 | With a producer and a consumer some task can always take a step. |
| SemMachine.Progress | os-workbench/kernel/framework/main.c:13-34 | No livelock: in every run, of any 19 steps per task and one more, one writes the counter and changes it by one. |
| SemMachine.RoundAlone | os-workbench/kernel/framework/main.c:13-34 | A producer that runs alone adds one item to a buffer that is not full, a consumer takes one out of one that is not empty, and all semaphores account for it. |
| SemMachine.FillsUp | os-workbench/kernel/framework/main.c:10-43 | All eight places can be used: some schedule puts any number of items up to eight into the buffer. |
| SemMachine.EmptiesAgain | os-workbench/kernel/framework/main.c:25-34 | And some schedule takes them all out again. |
| SemMachine.SectionEffect | os-workbench/kernel/src/kthreads.c:178-194 | The steps of a wait or a signal, from lock to unlock, together have the effect of one operation on value and queue. |
| SemMachine.QueueFits | os-workbench/kernel/src/kthreads.c:139-143 | No more waiters than tasks, so with fewer than 32 tasks the ring does not fill up. |
| KernelThreads.Semaphore.Push | os-workbench/kernel/src/kthreads.c:139-143 | The ring gains the waiter at its end. |
| KernelThreads.Semaphore.Pop | os-workbench/kernel/src/kthreads.c:145-150 | The ring gives up the waiter at its front. |
| KernelThreads.Semaphore.Wait | os-workbench/kernel/src/kthreads.c:178-185 | The semaphore in memory does what the one of the step machine does; exactly when the value falls below zero the caller is put to sleep. |
| KernelThreads.Semaphore.Signal | os-workbench/kernel/src/kthreads.c:187-194 | The same for signal: the longest waiter becomes runnable; the halt of line 161 cannot be reached. |
| KernelThreads.Scheduler.CreateWait | os-workbench/kernel/src/kthreads.c:91-97 | One wait task per CPU. |
| KernelThreads.Scheduler.Create | os-workbench/kernel/src/kthreads.c:47-82 | A new started task in the last free slot, or at the end when there is none; all others unchanged. |
| KernelThreads.Scheduler.SomeWaitTaskReady | os-workbench/kernel/src/kthreads.c:26-39 | With a wait task per CPU one of them is ready whenever a CPU switches: the other CPUs run fewer tasks than there are wait tasks. |
| KernelThreads.Scheduler.Scan | os-workbench/kernel/src/kthreads.c:32-37 | With a ready task in the table the circular scan ends within tasks_size probes at the first ready one. |
| KernelThreads.Scheduler.Switch | os-workbench/kernel/src/kthreads.c:26-44 | The CPU gets the next ready task in the circle within tasks_size probes, passing over none that is ready, and every running task stays current on some CPU. |
| KernelThreads.TakenInTurn | os-workbench/kernel/src/kthreads.c:32-37 | Fairness of the circle: a task that stays ready through the switches of a CPU is taken within tasks_size of them. |
| KernelThreads.Scheduler.SwitchTo | os-workbench/kernel/src/kthreads.c:26-44 | A CPU that switches alone reaches any ready task within tasks_size switches. |
| Snake.Grow | os-workbench/amgame/src/game.c:93-106 | Moving the head to the free cell in front of it extends the path of the snake by that cell. |
| Snake.DropTail | os-workbench/amgame/src/game.c:108-112 | The tail cell leads to the next cell of the path, and giving it up shortens the path by one. |
| Snake.Game.GenApple | os-workbench/amgame/src/game.c:27-40 | Puts one apple on the empty cell of the drawn rank; nothing else changes. |
| Snake.EveryCellDrawn | os-workbench/amgame/src/game.c:28-28 | Every empty cell is drawn by some number, and the numbers draw the cells in turn. |
| Snake.Game.constructor | os-workbench/amgame/src/game.c:42-71 | The first grid: border walls, the two-cell snake heading right, one apple on the empty cell of the drawn rank, and the count of empty cells. |
| Snake.Game.StepGameDo | os-workbench/amgame/src/game.c:76-117 | Goes on exactly if the next cell is empty or the apple, and divides by zero exactly for the apple with 1441 points, when no cell is empty; the head goes on in its direction, the tail cell is given up unless the apple was eaten, in which case a new one is on the empty cell of the drawn rank, and no other cell changes; the invariant is kept: a path of distinct cells from tail to head that are exactly the body, length score + 2, empty_cnt exact, one apple, walls unchanged. |
| Snake.KeyTurns | os-workbench/amgame/src/game.c:211-217 | W turns the head to the cell above, S below, A left and D right, each unless the head points the opposite way; other keys leave it. |
| Snake.Game.StepGame | os-workbench/amgame/src/game.c:202-225 | A key turns the head, and then the step is made in that direction, with all that StepGameDo says. |
| Bitmap.Ext2.AllocBlock | os-workbench/kernel/src/fs/ext2fs.c:109-133 | Returns an unused number and marks exactly it, the first clear bit from the byte of the last allocation on, round the end; -1 exactly when nothing is free; the count stays the number of clear bits and the scans end. |
| Bitmap.Ext2.AllocInode | os-workbench/kernel/src/fs/ext2fs.c:135-159 | The same for inode numbers, which start at 1. |
| Bitmap.NextFree | os-workbench/kernel/src/fs/ext2fs.c:117-126 | In circular order from the first number of the byte of the last allocation on, the number found is the first one that is free. |
| Bitmap.UsedIs | os-workbench/kernel/src/fs/ext2fs.c:119-124 | The bits of a byte are numbered from the top: number k is in use when byte k / 8 has bit 7 - k % 8 set. |
| Bitmap.Ext2.RemoveBlock | os-workbench/kernel/src/fs/ext2fs.c:211-243 | Clears exactly the one bit; the count still agrees exactly if the number was in use. |
| Bitmap.Ext2.RemoveInode | os-workbench/kernel/src/fs/ext2fs.c:245-277 | The same for inode numbers. |
| Bitmap.SetBit | os-workbench/kernel/src/fs/ext2fs.c:123-130 | Adding the mask to the byte sets exactly the one bit and lowers the number of clear bits by one. |
| Bitmap.ClearBit | os-workbench/kernel/src/fs/ext2fs.c:211-243 | The masks of the switch clear exactly the one bit. |

## Left out

- RectPacker.Context.FindMinY: the waste is an unbounded integer, which is that of the program in bins of area below 2^31 (see WasteBound); in larger ones the 32-bit sum can wrap, and best-fit then need not take the least wasteful place; when the walk starts inside a segment of height 0 it is the number the program counts, which then includes columns left of the box (see WasteOver).
- RectPacker.Context.FindBestPos: for best-fit the aligned width has to fit the bin, because line 394 walks the list without a check.
- RectPacker.Context.PackRects: takes the order of placing as a parameter, any permutation, in place of the two calls of qsort and the use of was_packed as an index between them; the promises hold for every order.
- KernelHeap.Pmm.Kalloc: a request beyond 2^31, for which the rounding loop does not end (see RoundingEnds), and one that leaves an empty block behind (see TiledExactly) are outcomes of their own; how the kernel goes on with an empty block in its list is not modelled.
- KernelHeap.Pmm.constructor: one heap, without the spin lock and the printing functions; records carry no id field.
- UndoStore.Editor.InsertText: insertions into the text succeed; after more than 32767 characters at once the later calls are not covered, because the record then no longer fits the text.
- UndoStore.Editor.RedoEdit: when the next redo entry does not fit the text the outcome is Outside, and what the program then reads and deletes is not modelled.
- UndoStore.StepKeepsWindow: an undo that drops characters and an insertion of more than 32767 are outside the plain history; RedoneAfterUndo, UndoEdit and ShortInverseUndoes describe them.
- The failing paste of the text editor, its cursor movement, layout and keys.
- KvStore.Store.KvdbPut: keys have at most 255 characters, values fewer than 8192 blocks, and there is a free item slot, because the program writes outside its arrays otherwise.
- KvStore.Store.KvdbGet: speaks of the first `size` characters of the buffer, because a value of a multiple of 4096 characters is stored without a terminator.
- KvStore.Store.RedoOperations: excludes logs on which fgets meets the end of the file or a key overflows its buffer, because the program's buffers are then undefined; an operation that does not fit the item array is excluded as well.
- File locks, mutexes and failing file operations of the key/value store; files are whole images and the log is a string.
- ListSort.Arena.MergeSort: comparators are functions of two items; cmp_complex, which caches a benchmark result in the data and updates a checksum, is left out, and insize is an unbounded integer.
- FixText.FromStr: strings are C strings without their terminating NUL; white space and digits are those of the C locale.
- FixSqrt.FixSqrt: the negation of the smallest value is taken to wrap to 2^31, as on the machine.
- The 64-bit and 8-bit variants of fixed-point arithmetic, exponentials and trigonometry, which this configuration does not compile or which are approximations.
- SemMachine.Safety: the spin lock is one atomic step, and _yield returns once the waiter has been woken; interrupts, context saving and the question whether a task is current on one CPU only are not modelled.
- SemMachine.BoundedWaiting: counts signals; the step machine and the scheduler are two models, so that a run of one is not tied to the switches of the other.
- KernelThreads.Scheduler.Switch: the process table is left out; its call at line 42 follows a null pointer at the first switch of a CPU.
- KernelThreads.Scheduler.Create: there has to be room in the task table, because the program does not check it.
- KernelThreads.Semaphore.Wait: fewer than 31 waiters are in the ring, because head == tail means empty; QueueFits bounds the waiters by the tasks.
- Bitmap.Ext2.AllocBlock: the buffers stand for the bitmaps on disk, and a fresh disk is zero; reading and writing the device is left out.
- Reading, writing and removing files in the file system, path walking and mounting, and pushcli/popcli: the source does not keep what it promises there.
- Input devices, drawing, fonts, libco, crepl, sperf, pstree, frecov, emulators and the other benchmarks.
