# A verified model of the Factor VM's arithmetic and memory core

This project models the parts of the Factor virtual machine and of its libraries where most can go wrong, and
proves what they promise:

* **Bignums** (`Digits`, `Bits`, `Bignum`, `Multiply`, `DigitDivide`, `LongDivide`, `Divide`, `Lehmer`, `Gcd`,
  `Bitwise`, `Shift`): the 64-bit build of `vm/bignum.cpp`, with 62-bit digits and 31-bit half digits. Digits,
  fixnums and double words are subset types, so every assignment also proves that the C++ intermediate does not
  overflow. A number is a sign and a digit sequence; every operation is tied to the integer it stands for.
* **Tenured space** (`MarkBits`, `Layouts`, `Compaction`, `Tiling`, `FreeList`, `ObjectStarts`, `TenuredSpace`): mark
  bits and rank based forwarding, sliding compaction of a word memory, the free list allocator and its sweep, the
  object start map and the scan of marked cards. `TenuredSpace` joins them: through allocation, sweep and compaction
  its blocks tile the space and the start map describes the used ones.
* **Generational collection** (`Copying`, `Collector`, `Marking`): nursery, aging and to-tenured collections with
  cards and decks, the retry loop that joins them, the write barrier and allocation that run in between, and the mark
  phase of a full collection over objects and code blocks. Objects carry an identity across copies; the theorems say
  that the heap after a collection is the heap before it, object for object and slot for slot, and that no two
  objects overlap.
* **Library cores** (`Channels`, `Calendar`, `Base64`).

Addresses count cells (8 bytes) from the start of a space, except in `FreeList`, which counts 16-byte lines.
`Sequences` holds what the queues and lists share.

Properties the code does not have are stated with their exact conditions: opposite-sign XOR loses a carry
(`Bitwise.PosNeg`, `Bitwise.LostCarryExample`), and `can_allot_p` does not promise success for small sizes that do
not divide a page (`FreeList.CanAllotPromise`). The Julian day functions are inverse exactly from 1 March -4800 on
(`Calendar.RoundTrip`), although the source says from year -4800 on. The walk back of the object start map fails
exactly when no object starts in an earlier card, and a whole card scan exactly when it meets a stuck card
(`ObjectStarts.VisitCard`, `ObjectStarts.VisitCards`, `ObjectStarts.WalkBackFails`).

Where the model computes with a table or a formula, the table or the law behind it is written down apart from it: the
structs behind object sizes and slot counts (`Layouts.Fields`), the ecclesiastical moon behind Easter
(`Calendar.MoonDay`), the alphabet and the numbers behind Base64 (`Base64.Alphabet`, `Base64.Number`).

A sweep relies on the marks covering whole blocks and no free one, as marking leaves them
(`TenuredSpace.MarkingIsWhole`); without that the free run in a partly marked block would not end at a block.

## Model

| member | source | states |
|---|---|---|
| Bignum.Trim | vm/bignum.cpp:1278-1291 | dropping leading zero digits keeps the value and leaves a trimmed number |
| Bignum.SignOfValue | vm/bignumint.hpp:73-78 | the sign of a valid number is the sign of its value, so zero has one form |
| Bignum.ValueInjective | vm/bignum.cpp:463-476 | two valid numbers with the same value are the same number |
| Bignum.CompareUnsigned | vm/bignum.cpp:478-500 | compares digit arrays exactly as their values compare |
| Bignum.Compare | vm/bignum.cpp:64-77 | compares numbers of any signs as their values compare |
| Bignum.EqualP | vm/bignum.cpp:55-62 | equality of representations is equality of values |
| Bignum.AddUnsigned | vm/bignum.cpp:505-556 | the digit-wise sum with carries is the trimmed sum of the magnitudes, with the requested sign |
| Bignum.SubtractUnsigned | vm/bignum.cpp:561-620 | the digit-wise difference with borrows is the trimmed difference, sign included |
| Bignum.Add | vm/bignum.cpp:80-89 | addition of integers for every sign combination |
| Bignum.Subtract | vm/bignum.cpp:92-105 | subtraction of integers for every sign combination |
| Multiply.HalfProduct | vm/bignum.cpp:660-680 | the four half products with their carry bounds recombine to the exact digit product plus carries |
| Multiply.MultiplyUnsigned | vm/bignum.cpp:629-686 | the schoolbook product over half digits is the product of the magnitudes |
| Multiply.Square | vm/bignum.cpp:114-154 | the squaring routine yields the square and never writes past its 2n digits |
| Multiply.ScaleUp | vm/bignum.cpp:723-746 | in-place multiplication by a half digit, returning the exact carry |
| Multiply.MultiplySmallFactor | vm/bignum.cpp:689-702 | product by a small factor |
| Multiply.MultiplyNumbers | vm/bignum.cpp:158-189 | integer multiplication on all paths: zero, one, small factor, squaring, general |
| DigitDivide.Guess | vm/bignum.cpp:1057-1075 | the corrected half-digit guess is the exact quotient of three half digits by a normalized divisor |
| DigitDivide.Subtract | vm/bignum.cpp:1138-1166 | the multiply-and-subtract step including its add-back leaves the exact remainder |
| DigitDivide.Divide | vm/bignum.cpp:1077-1109 | two digits divided by a normalized digit: exact quotient and remainder |
| LongDivide.GuessDigit | vm/bignum.cpp:856-887 | the correction loop yields a guess that settles the three-by-two digit test |
| LongDivide.GoodGuessBound | vm/bignum.cpp:856-887 | a settled guess is the true quotient digit or one more (section 4.3.1 of The Art of Computer Programming, volume 2) |
| LongDivide.DivideSubtract | vm/bignum.cpp:898-963 | subtracting guess times divisor in place, with at most one add-back, leaves the true digit and remainder |
| LongDivide.DivideNormalized | vm/bignum.cpp:829-896 | in-place long division by a normalized divisor: quotient digits and remainder are exact |
| Divide.Normalize | vm/bignum.cpp:1014-1034 | shifting left across digits multiplies by the power of two |
| Divide.Unnormalize | vm/bignum.cpp:1036-1051 | shifting right in place divides by the power of two |
| Divide.ScaleDown | vm/bignum.cpp:1196-1215 | in-place division by a half digit, exact quotient and remainder |
| Divide.SmallDenominator | vm/bignum.cpp:1172-1190 | division by a half-digit denominator |
| Divide.SmallRemainder | vm/bignum.cpp:1218-1232 | remainder by a half-digit denominator without quotient |
| Divide.MediumDenominator | vm/bignum.cpp:966-1012 | division by a one-digit denominator through normalization |
| Divide.LargeDenominator | vm/bignum.cpp:756-827 | division by a longer denominator through normalization and back |
| Divide.DivideNumbers | vm/bignum.cpp:192-242 | n = q*d + r with abs(r) < abs(d), r zero or signed like n, both trimmed, on every path |
| Divide.Remainder | vm/bignum.cpp:286-319 | the remainder alone agrees with the division |
| Lehmer.TrueQuotient | vm/bignum.cpp:1765-1791 | a quotient accepted from leading words is the quotient of the full numbers |
| Lehmer.InnerSteps | vm/bignum.cpp:1765-1791 | the cofactors are those of that many true Euclid steps, satisfy A*D - B*C = 1 and fit a fixnum |
| Gcd.Combine | vm/bignum.cpp:1830-1877 | the in-place digit loop computes both linear combinations exactly and ends with zero carries |
| Gcd.LeadingWords | vm/bignum.cpp:1757-1763 | the extracted words are the leading bits of both numbers under one common shift |
| Gcd.EuclideanStep | vm/bignum.cpp:1793-1828 | when no quotient is accepted one full division step is made |
| Gcd.EuclidDivisors | vm/bignum.cpp:1722-1901 | Euclid steps keep the set of common divisors |
| Gcd.ToFixnum | vm/bignum.cpp:368-386 | conversion to a machine word keeps the sign and wraps modulo 2 to the 64th, for every number |
| Gcd.FromFixnum | vm/bignum.cpp:324-364 | conversion from a machine word of either sign keeps the value |
| Gcd.GcdNumbers | vm/bignum.cpp:1722-1901 | terminates with the greatest common divisor of the absolute values, for all inputs |
| Bitwise.NegateMagnitude | vm/bignum.cpp:1626-1649 | in-place two's complement of the digits, up to the lost carry |
| Bitwise.PosPos | vm/bignum.cpp:1482-1514 | the operation on two non-negative numbers, bit by bit on the infinite two's complement |
| Bitwise.PosNeg | vm/bignum.cpp:1517-1565 | the operation on opposite signs, right exactly if XOR does not overflow the buffer, else zero |
| Bitwise.NegNeg | vm/bignum.cpp:1568-1624 | the operation on two negative numbers |
| Bitwise.Operate | vm/bignum.cpp:1389-1416 | AND, OR and XOR of any signs agree with the infinite two's complement exactly if no carry is lost |
| Bitwise.OnlyOneOp | vm/bignum.cpp:1517-1565 | a lost carry really is an error: no other value has the required bits |
| Bitwise.LostCarryExample | vm/bignum.cpp:1517-1565 | R*R - 1 XOR -1 comes out as zero |
| Shift.Not | vm/bignum.cpp:1324-1373 | NOT x is -x - 1 |
| Shift.MagnitudeShift | vm/bignum.cpp:1421-1479 | shifting a magnitude either way by any amount |
| Shift.ArithmeticShift | vm/bignum.cpp:1376-1382 | the floor of x times 2 to the n, for every n of either sign |
| MarkBits.RankMono | vm/mark_bits.hpp:83-108 | forwarding is monotone, strictly so on marked lines |
| MarkBits.RankDense | vm/mark_bits.hpp:83-108 | forwarding is dense: every line below the total receives a marked line |
| MarkBits.Bitmap.SetMarked | vm/mark_bits.hpp:54-81 | exactly the requested lines are added to the bitmap |
| MarkBits.Bitmap.ComputeForwarding | vm/mark_bits.hpp:83-91 | each word's entry is the number of marked lines before it |
| MarkBits.Bitmap.ForwardBlock | vm/mark_bits.hpp:93-108 | a line's destination is the number of marked lines before it, and is never upward |
| MarkBits.Bitmap.MarkedP | vm/mark_bits.hpp:49-77 | the mask test on the word reads the bit of the line of an address |
| MarkBits.Bitmap.NextUnmarked | vm/mark_bits.hpp:110-128 | the first unmarked line from an address on, or the end |
| MarkBits.Bitmap.NextMarked | vm/mark_bits.hpp:130-147 | the first marked line from an address on, or the end |
| MarkBits.RightmostSetBit | vm/bitwise_hacks.hpp:38 | the isolated lowest set bit gives its position |
| MarkBits.RightmostClearBit | vm/bitwise_hacks.hpp:36 | the position of the lowest clear bit |
| MarkBits.MaskedPop | vm/mark_bits.hpp:99-104 | the masked population count counts the bits below a position |
| Layouts.Retag | vm/layouts.hpp:17-21 | retagging keeps the address and the tag apart |
| Layouts.HeaderParts | vm/layouts.hpp:136-144 | the type is read back from the header whatever the hash code, and the object is not free |
| Layouts.ObjectSize | vm/slot_visitor.hpp:3-50 | every object, of every type, is a positive whole number of lines |
| Layouts.SlotCount | vm/slot_visitor.hpp:52-87 | the scanned slots of every type of object lie inside it |
| Layouts.ScannedCells | vm/layouts.hpp:155-330 | the scanned cells of each type are exactly the tagged fields of its struct and, for arrays and tuples, the elements |
| Layouts.ElementsScanned | vm/slot_visitor.hpp:61-69 | all elements of an array and all slots of a tuple are scanned, and nothing behind the last one |
| Layouts.SizeOfFields | vm/slot_visitor.hpp:3-50 | an object is as large as the fields of its struct and what follows them, rounded up to whole lines |
| Compaction.MarkObjects | vm/full_collector.cpp:15-48 | marking each live object's lines makes the bitmap match the live objects |
| Compaction.FingerSplits | vm/compaction.cpp:30-34 | at every step every live object below the finger stands forwarded at its destination, every other one where and as it was |
| Compaction.TranslateFinds | vm/compaction.cpp:30-34 | at every step translate_data leads to where each live object currently is, all its cells |
| Compaction.TranslateFindsAfterSlide | vm/free_list.hpp:277-289 | so it does between the move of a block and the visit of its slots, for the moved object as well |
| Compaction.LayoutReadable | vm/compaction.cpp:30-34 | in particular the size cell of a tuple's layout can be read at every step |
| Compaction.LayoutAfterSlide | vm/slot_visitor.hpp:52-69 | so the slot count is right between the move and the visit of an object |
| Compaction.BlockSize | vm/compaction.cpp:42-46 | marked blocks are live objects measured as before the compaction, unmarked ones reach to the next mark |
| Compaction.VisitSlots | vm/slot_visitor.hpp:170-186 | every slot is replaced by its forwarded value, nothing else changes |
| Compaction.CompactBlock | vm/free_list.hpp:277-289 | one object is moved and forwarded without touching anything not yet moved |
| Compaction.RecordStart | vm/compaction.cpp:102-109 | a moved object joins the blocks that tile the bottom of the space and the object start map |
| Compaction.CompactNext | vm/free_list.hpp:277-289 | one step of the sweep: a live block is moved, forwarded and recorded, a gap is passed |
| Compaction.CompactSpace | vm/free_list.hpp:272-308 | every live object ends, forwarded, at its rank; the space in use is the number of marked lines and is tiled by exactly the moved objects, which the start map describes |
| Compaction.CompactHeap | vm/compaction.cpp:75-134 | the whole data compaction including the roots and the start map: every field and element that holds a value is forwarded, every other cell is unchanged |
| Compaction.KeptShape | vm/free_list.hpp:272-308 | each block kept is as large as the object that now stands there |
| Compaction.DestinationsOrdered | vm/mark_bits.hpp:83-108 | objects keep their order and never overlap, so pointers stay equal exactly if they were |
| Compaction.CompactedHeap | vm/compaction.cpp:92-134 | the compacted heap is well formed again |
| Compaction.PathPreserved | vm/compaction.cpp:92-134 | every access path over fields and elements reads the same immediate or the forwarded pointer as before |
| Tiling.TiledCut | vm/free_list.hpp:130-143 | cutting a block in two keeps the blocks back to back over the whole space |
| Tiling.TiledMerged | vm/free_list.hpp:238-263 | so does making the blocks of a run one block |
| FreeList.Allocator.constructor | vm/free_list.hpp:111-118 | a new space is one free block |
| FreeList.Allocator.AddToFreeList | vm/free_list.hpp:88-99 | a used block becomes free: it leaves the used blocks and its lines, none of them free before, join the free lines; blocks keep tiling the space, lists and counters stay exact |
| FreeList.Allocator.SplitFreeBlock | vm/free_list.hpp:130-143 | a block keeps the size asked for and the rest becomes a free block of its own; blocks keep tiling the space |
| FreeList.Allocator.FindLarge | vm/free_list.hpp:178-196 | a large request succeeds exactly if a block is big enough, and takes the best fit |
| FreeList.Allocator.CutPage | vm/free_list.hpp:150-168 | the best-fitting page becomes free blocks of the small size and what is left behind it; no line is lost and no used block touched |
| FreeList.Allocator.CutPieces | vm/free_list.hpp:155-166 | the page is replaced, piece by piece, by free blocks of the small size that cover it |
| FreeList.Allocator.FindFreeBlock | vm/free_list.hpp:145-197 | succeeds exactly if the request can be served, and takes one whole free block: the best fit for a large size; for a small one the last of its list, without cutting anything, or if that is empty the last piece of the best-fitting page |
| FreeList.Allocator.Allot | vm/free_list.hpp:200-210 | a new block of exactly the size asked for, the front of the block so chosen, joins the used blocks, which are otherwise unchanged; the rest of a larger block stays free; it fails exactly if no list serves the request |
| FreeList.Allocator.Free | vm/free_list.hpp:212-217 | a used block leaves the used blocks and exactly its lines become free |
| FreeList.Allocator.LargestFreeBlock | vm/free_list.hpp:224-236 | the largest size over all lists |
| FreeList.Allocator.CanAllotP | vm/free_list.hpp:125-128 | the test compares the largest block with the request and a page |
| FreeList.Allocator.ClearFreeList | vm/free_list.hpp:79-86 | nothing is free afterwards and the blocks stand as they were |
| FreeList.Allocator.InitialFreeList | vm/free_list.hpp:101-109 | the blocks kept below the occupied mark are the used ones and one free block tiles the rest |
| FreeList.CanAllotPromise | vm/free_list.hpp:125-168 | can_allot_p implies success, in every space of whole decks, exactly for sizes from 512 bytes on and sizes that divide a page |
| FreeList.Allocator.Sweep | vm/free_list.hpp:238-263 | the free lines are the unmarked ones, the free blocks their maximal runs, and the used blocks exactly the marked ones with their sizes; blocks keep tiling the space |
| ObjectStarts.StartMap.Clear | vm/object_start_map.cpp:35-37 | the cleared map describes a space without objects |
| ObjectStarts.StartMap.Record | vm/object_start_map.cpp:29-33 | an entry stays the first object start of its card |
| ObjectStarts.StartMap.FindObject | vm/object_start_map.cpp:15-27 | finds an object in the nearest earlier card where one starts, and fails exactly if there is none |
| ObjectStarts.SweepEntryOk | vm/object_start_map.cpp:39-53 | after a sweep an entry is the first surviving object start of its card |
| ObjectStarts.StartMap.UpdateForSweep | vm/object_start_map.cpp:55-68 | after a sweep the whole map describes the surviving objects |
| ObjectStarts.NextObjectAfter | vm/tenured_space.hpp:18-33 | the next object, with only free blocks in between |
| ObjectStarts.VisitPartial | vm/slot_visitor.hpp:499-510 | the slots of one object that lie on the card |
| ObjectStarts.VisitCard | vm/slot_visitor.hpp:512-540 | every slot on the card once and in order, nothing else; it fails exactly if the last scan ended before the card and no object starts in an earlier one |
| ObjectStarts.VisitCards | vm/slot_visitor.hpp:542-577 | over all marked cards, resuming from the last object and stopping early, every slot on them once and nothing else; it fails exactly if some marked card is stuck: no object starts before it and the scan begins there or is held at a free block at the start that ends before it |
| ObjectStarts.WalkBackFails | vm/object_start_map.cpp:15-27 | a heap with a stuck card |
| TenuredSpace.TenuredSpace.constructor | vm/tenured_space.hpp:6-7 | a new space has no objects and its start map says so |
| TenuredSpace.TenuredSpace.Tiling | vm/tenured_space.hpp:3-38 | at all times blocks, used and free, lie back to back over the space and the start map describes exactly the used ones, which is what a card scan assumes |
| TenuredSpace.TenuredSpace.Allot | vm/tenured_space.hpp:9-16 | the new object is the block the allocator chooses, and is recorded in the start map |
| TenuredSpace.MarkingIsWhole | vm/full_collector.cpp:15-48 | marks that match the live objects cover whole blocks and no free one, which is what a sweep relies on |
| TenuredSpace.TenuredSpace.Sweep | vm/tenured_space.hpp:35-38 | the used blocks are the marked ones and the start map describes exactly them |
| TenuredSpace.TenuredSpace.VisitCards | vm/slot_visitor.hpp:542-577 | in any state the allocator can reach, a card scan visits exactly the slots of its objects on marked cards, with the exact failure condition |
| TenuredSpace.TenuredSpace.Compact | vm/compaction.cpp:97-111 | the used blocks are exactly the moved objects with their sizes and slots, one free block follows them, and tiling and start map hold again |
| Copying.CopyIso | vm/to_tenured_collector.hpp:26-35 | copying an object and leaving a forwarding pointer keeps the heap isomorphic |
| Copying.ApartCopy | vm/to_tenured_collector.hpp:26-35 | a copy placed in free room overlaps no other object |
| Copying.Resolve | vm/to_tenured_collector.hpp:16-20 | chasing forwarding pointers ends at the one live copy of the object |
| Copying.RedirectIso | vm/slot_visitor.hpp:170-180 | redirecting a slot to another copy of its object keeps the heap isomorphic |
| Copying.WalkPreserved | vm/gc.cpp:64-147 | in an isomorphic heap every access path leads to the same value or object |
| Copying.SharingPreserved | vm/gc.cpp:64-147 | two paths meet in the same object exactly if they did before |
| Copying.ReachedSurvives | vm/gc.cpp:64-147 | in an isomorphic heap that keeps some objects, everything they reach is kept |
| Collector.AllotTenured | vm/free_list.hpp:200-210 | any tenured allocator: it may refuse, and otherwise returns room inside the space that no object has any part of |
| Collector.DataHeap.constructor | vm/data_heap.cpp:5-47 | the spaces of a new heap are disjoint whole decks of at least the sizes asked for, and the empty heap satisfies the invariant |
| Collector.DataHeap.FixupData | vm/nursery_collector.cpp:12-34 | a copier returns the finished copy of the object, or fails with the heap still isomorphic: for a copier to tenured space exactly because the allocator refused, for the others because a live object does not fit |
| Collector.DataHeap.CopyObject | vm/aging_collector.cpp:27-36 | one object is copied to free room in the target space, overlapping nothing, or nothing changes |
| Collector.DataHeap.VisitSlot | vm/slot_visitor.hpp:170-180 | a slot ends up finished, and nothing finished is undone |
| Collector.DataHeap.VisitObject | vm/slot_visitor.hpp:431-436 | all slots of an object end up finished |
| Collector.DataHeap.Cheney | vm/slot_visitor.hpp:589-596 | scanning the target space leaves no object unscanned, and terminates |
| Collector.DataHeap.VisitMarkStack | vm/slot_visitor.hpp:438-458 | the mark stack ends empty with every promoted object scanned, and terminates |
| Collector.DataHeap.VisitRoots | vm/slot_visitor.hpp:203-224 | every root ends up finished and still stands for its original |
| Collector.CardSlotsVisited | vm/slot_visitor.hpp:512-540 | the slots of the heap on a card are exactly those the scan of that card from the object start map visits |
| Collector.DataHeap.VisitCards | vm/slot_visitor.hpp:542-577 | after the scan of a space no slot on a marked card of a marked deck is left, its marks are cleared, and no others are |
| Collector.DataHeap.VisitCard | vm/slot_visitor.hpp:512-540 | all slots on one card end up finished |
| Collector.DataHeap.TakeMarks | vm/slot_visitor.hpp:555-566 | a card is scanned exactly if it and its deck were marked |
| Collector.DataHeap.CollectNursery | vm/nursery_collector.cpp:37-71 | completes with everything outside the nursery in place and only what was reached copied behind the end of aging space, or fails for lack of room there in a state the next attempt can start from |
| Collector.DataHeap.PromoteTenuredRefs | vm/aging_collector.cpp:42-68 | afterwards no tenured slot refers to a younger object, and only what tenured objects reach has been promoted |
| Collector.DataHeap.CopyAging | vm/aging_collector.cpp:69-86 | everything live is in the new aging space or tenured, or the next attempt can start |
| Collector.DataHeap.CollectAging | vm/aging_collector.cpp:39-88 | the halves of aging space swap; what tenured objects reach is promoted and the rest of what is reached is in the new half; it is fatal exactly if the tenured allocator refuses |
| Collector.DataHeap.CollectToTenured | vm/to_tenured_collector.cpp:5-35 | tenured objects stay, everything else that is reached is promoted and aging space is empty; it fails exactly if the tenured allocator refuses |
| Collector.DataHeap.Discard | vm/data_heap.cpp:75-84 | flushing a space keeps exactly the objects the copier left alone |
| Collector.DataHeap.ClearCards | vm/data_heap.cpp:63-73 | exactly the marks of the space are cleared |
| Collector.Finish | vm/nursery_collector.cpp:64-71 | nothing that survives refers to anything that does not |
| Collector.Stopped | vm/gc.cpp:44-59 | wherever a collection into aging space stops, the next attempt can start |
| Collector.DataHeap.Attempt | vm/gc.cpp:87-110 | the collection asked for, from any state an earlier one stopped in, completes with its own result, stops because a live object does not fit in aging space, or is refused tenured room |
| Collector.LandedFrom | vm/gc.cpp:87-110 | where each object is after a collection of each kind; an aging collection promotes an object if and only if a tenured one reaches it |
| Collector.ExactlyReached | vm/gc.cpp:64-147 | the survivors stand for exactly what the roots and the older objects reach |
| Collector.DataHeap.Gc | vm/gc.cpp:44-147 | the collection asked for is made first and a larger one follows only one that ran out of room, so at most three are made; the resulting heap is the original one, exactly what the roots and the older objects reach, each object where the last collection puts it, with an empty nursery, no objects overlapping and the card invariant restored; it fails exactly if the tenured allocator refuses, which a nursery collection never asks |
| Collector.DataHeap.WriteBarrier | vm/vm.hpp:321-324 | exactly the card and deck of a slot become marked for both generations |
| Collector.DataHeap.StoreSlot | vm/arrays.hpp:9-15 | a store with its barrier keeps the heap invariant and marks exactly the card of the slot |
| Collector.DataHeap.AllotObject | vm/allot.hpp:63-82 | an object smaller than the nursery goes to its next free cells, after a minor collection exactly if they do not suffice, any other to tenured space; the invariant and every other object are kept, none overlapped, and the new object can be initialised without a barrier; it fails exactly if the tenured allocator refuses |
| Collector.DataHeap.AllotNursery | vm/bump_allocator.hpp:17-21 | the next free nursery cells become a new object |
| Collector.DataHeap.AllotLarge | vm/allot.hpp:51-60 | a large object goes to tenured space with exactly its cards marked |
| Collector.DataHeap.MarkObject | vm/vm.hpp:326-332 | exactly the cards an object touches become marked |
| Collector.DataHeap.InitializeSlot | vm/allot.hpp:53-57 | stores into a young object, or into one with all its cards marked, need no barrier |
| Marking.FullCollector.FixupData | vm/full_collector.cpp:15-48 | returns the marked tenured copy of a reachable object, or fails exactly because the tenured allocator refused |
| Marking.FullCollector.FixupCode | vm/full_collector.cpp:50-56 | a reachable code block is marked where it is |
| Marking.FullCollector.VisitRoots | vm/full_collector.cpp:72-74 | every data root and every code block of the contexts and of the uninitialised blocks is marked and still stands for its original |
| Marking.FullCollector.VisitObject | vm/slot_visitor.hpp:335-458 | a popped object or code block is logged as scanned and ends with everything it refers to marked |
| Marking.FullCollector.VisitMarkStack | vm/slot_visitor.hpp:438-458 | marking ends with an empty stack; what has been scanned, no object or code block twice, is exactly what is marked |
| Marking.FullCollector.CollectFull | vm/full_collector.cpp:59-131 | the surviving objects and code blocks are exactly those reachable through objects and code blocks, isomorphic to the original; tenured objects and code blocks stay where they are, young objects are tenured, each is scanned once; it fails exactly if the tenured allocator refuses |
| Marking.SweptIso | vm/full_collector.cpp:59-85 | keeping what is marked keeps the heap: nothing marked refers to anything unmarked |
| Marking.MarkedIsReachable | vm/full_collector.cpp:59-85 | an object or code block is marked if and only if a path from a root reaches it |
| Channels.Channel.constructor | basis/channels/channels.factor:11-12 | a new channel has no threads |
| Channels.Channel.Call | basis/channels/channels.factor:14-15 | a new call changes nothing else |
| Channels.Channel.To | basis/channels/channels.factor:19-36 | a send hands its value to the waiting receiver drawn or waits at the end of the queue, keeping the protocol invariant |
| Channels.Channel.From | basis/channels/channels.factor:26-42 | a receive waits at the end of the queue and wakes the waiting sender drawn, keeping the protocol invariant |
| Channels.Channel.Run | basis/channels/channels.factor:19-42 | every schedule takes its enabled steps in order; throughout the invariant holds, values never change and completed handovers are final |
| Channels.ExactlyOnce | basis/channels/channels.factor:23-36 | two sends never meet the same receiver, nor two receives the same sender |
| Channels.NoDeadlock | basis/channels/channels.factor:29-42 | if senders and receivers both wait, some sender is on its way |
| Calendar.RoundTrip | basis/calendar/calendar.factor:85-107 | the date is read back from its Julian day exactly from 1 March -4800 on |
| Calendar.JulianOfDate | basis/calendar/calendar.factor:95-107 | every day number from -32044 on is that of a valid date |
| Calendar.NoDateBefore | basis/calendar/calendar.factor:95-107 | an earlier number yields no valid date |
| Calendar.NextDayNumber | basis/calendar/calendar.factor:85-93 | consecutive dates have consecutive numbers |
| Calendar.ZellerIsWeekday | basis/calendar/calendar.factor:366-374 | the congruence is the weekday of the Julian day |
| Calendar.DayOfYearIsDistance | basis/calendar/calendar.factor:388-397 | the day of the year is the distance from 1 January |
| Calendar.EasterIsSunday | basis/calendar/calendar.factor:111-122 | for every positive year Easter is a Sunday from 22 March to 25 April |
| Calendar.MoonIsFormula | basis/calendar/calendar.factor:111-117 | for every positive year the formula gives the day of the ecclesiastical full moon, defined from year to year by the 19-year cycle and the solar and lunar corrections of century years |
| Calendar.EasterFollowsFullMoon | basis/calendar/calendar.factor:111-125 | Easter is the first Sunday strictly after that full moon, with its two late dates put a day earlier |
| Calendar.EasterDividends | basis/calendar/calendar.factor:111-122 | its remainders are of non-negative numbers |
| Calendar.WeekNumberIsIso | basis/calendar/calendar.factor:541-549 | the week number is that of the year owning the week's Thursday (section 2.2.10 of ISO 8601:2004) |
| Calendar.Timestamp.AddDays | basis/calendar/calendar.factor:185-189 | the Julian day of the date moves by that many days, and the date is valid exactly if the new day is one of the calendar |
| Calendar.Timestamp.AddHours | basis/calendar/calendar.factor:194-198 | no hour is lost in the carry to days |
| Calendar.Timestamp.AddMinutes | basis/calendar/calendar.factor:203-207 | no minute is lost in the carry |
| Calendar.Timestamp.AddSeconds | basis/calendar/calendar.factor:212-216 | no second is lost in the carry |
| Calendar.EpochIs | basis/calendar/calendar.factor:344-345 | 1 January 1970 is day 2440588 |
| Calendar.FromUnixTime | basis/calendar/calendar.factor:535-539 | unix time to timestamp and back is the identity with all fields in range, exactly from the first second of the calendar on |
| Base64.LetterIsAlphabet | basis/base64/base64.factor:14-25 | a digit is written as its entry in the 64-character alphabet (table 1 of RFC 4648) |
| Base64.IndexIsPosition | basis/base64/base64.factor:19-30 | a character reads as its position in the alphabet, padding as zero, and any other is an error |
| Base64.GroupNumber | basis/base64/base64.factor:31-67 | the four digits of a group write the number its bytes write, missing bytes as zero, and exactly the digits past the bytes are padding |
| Base64.EncodeGroups | basis/base64/base64.factor:57-67 | the encoding is made of the groups of three bytes and the rest, in order |
| Base64.UngroupNumber | basis/base64/base64.factor:88-106 | a group that reads well yields the leading bytes of the number its digits write, fewer by its padding |
| Base64.MalformedExactly | basis/base64/base64.factor:28-30 | decoding fails exactly if some character is neither in the alphabet nor padding |
| Base64.Decode4Encode3 | basis/base64/base64.factor:32-94 | four characters give back the three bytes |
| Base64.RoundTrip | basis/base64/base64.factor:57-106 | decoding undoes encoding for every byte sequence |
| Base64.EncodeLength | basis/base64/base64.factor:57-67 | the encoding has four characters for every three bytes begun |
| Base64.WriteLines | basis/base64/base64.factor:39-52 | a group is written with a line break where the column reaches 76 |
| Base64.WrapFromIsWrap | basis/base64/base64.factor:39-52 | counting columns breaks lines after exactly every 76 characters |
| Base64.EncodeStream | basis/base64/base64.factor:57-75 | the stream loop yields the encoding, broken into lines on request |
| Base64.ReadChar | basis/base64/base64.factor:79-81 | reading skips line breaks |
| Base64.DecodeStream | basis/base64/base64.factor:96-106 | the stream loop decodes the input without its line breaks, or reports it malformed exactly if another character is neither in the alphabet nor padding |
| Base64.StreamRoundTrip | basis/base64/base64.factor:57-106 | decoding undoes encoding, plain or in lines |

## Left out

- Bignum conversions from and to floats, string conversion, `bignum_quotient` (the division without remainder), the 32-bit and Windows variants, and garbage collection rooting inside the bignum routines: allocation is a fresh sequence or array.
- Code heap: its allocation, compaction and remembered set, the encoding of instruction operands, callbacks and inline caches. Code blocks are nodes of the graph that `Marking` traces; a block not yet initialised is one without literals and code pointers, which are roots instead.
- Compaction.CompactHeap: leaves out the code heap, and with it the code pointers in words, quotations and callstacks and the callstack objects themselves; alien addresses are not updated.
- TenuredSpace: the objects' slot counts are kept beside the blocks, since their words are modelled in `Compaction` only.
- Collector objects are records of slots and a size at an address; their words are modelled in `Compaction`.
- Collector.DataHeap.VisitCards: the order of slots within a card is arbitrary, and the early end of the scan is modelled in `ObjectStarts.VisitCards` only.
- Collector.DataHeap.VisitCard: takes the slots on the card from the heap, not from the object start map; `Collector.CardSlotsVisited` says they are the same for the blocks as they stand when the card is scanned, but that the map keeps up with objects promoted into the space during its scan is stated only at `TenuredSpace.TenuredSpace.Allot`.
- Collector.AllotTenured: whether a promotion always fits is not claimed, because page carving can waste room; `FreeList` models the allocator itself.
- Collector.DataHeap.Gc: leaves out the full collection that follows when tenured space is badly fragmented, and the requests for a full, compacting or growing collection.
- Collector.DataHeap.AllotLarge: leaves out the collections and the heap growth that come before it when no block is large enough.
- Marking.FullCollector.CollectFull: the sweep is that of the object graph, `TenuredSpace.TenuredSpace.Sweep` that of the lines; the choice between sweep, compaction and growth afterwards, the invalidation of code roots and collection events are left out.
- Channels: a thread stands for one call; a thread that calls again is a new number. Remote channels and timeouts.
- Calendar: month and year arithmetic, fractional durations, time zones and formatting.
- Base64: the URL-safe alphabet, and the distinction between the two errors for characters outside the alphabet.
- Everything else in the repository: the compiler, the user interface, bindings, I/O, and the interpreter's primitives.
