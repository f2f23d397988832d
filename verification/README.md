# A verified model of the segregated-list allocator

This project models the allocator in `mm.c`, the simulated break it runs on (`memlib.c`), the
trace driver that judges it (`mdriver.c`) and the K-best timing array (`fcyc.c`), and proves
what they promise.

Memory is one array of 32-bit words with byte access on top; an address is an offset from
`mem_heap_lo`, so 0 is both the first bucket word and the null pointer. Every routine of
`mm.c` is a method that works on those words in the order the C code does.

Beside the memory stands an abstract heap (`Heaps.Heap`): the break, the map of blocks that
tile it, and the 32 lists of free blocks. `Layout.Rep` says that a memory lays a heap out:
header and footer of every block, prologue, epilogue, and the doubly linked lists inside the
free blocks. Each method of `mm.c` is proved to take a memory that lays out a heap `h` to one
that lays out exactly the heap its specification function gives (`Heaps.Merge`,
`Heaps.Malloc`, `Heaps.FreeStep`, `Heaps.Realloc`), and to leave the words of other live
blocks alone. What the allocator promises is then proved of these functions for all heaps that
satisfy the invariant `Heaps.Inv`. `Steps` characterises each of them without the others: its
laws hold of the function's result and of nothing else.

How the files follow the repository:

| file | repository |
|---|---|
| `Words`, `Buckets` | the macros of `mm.c`, the 32 size classes, list operations |
| `MemLib` | `memlib.c`, and the C library's `memset` and `memcpy` on the same buffer |
| `Heaps` | `mm.c` without memory: one function and one invariant lemma an operation |
| `Layout`, `Links`, `HeapLinks`, `MmSteps` | what a few word writes do to the heap that memory lays out |
| `Mm` | `mm.c` on memory |
| `Sums`, `Laws` | theorems about all heaps |
| `Orders`, `Steps` | which heap and answer each operation of `mm.c` leaves, lists in order: laws that only one heap meets |
| `Runs` | every run of `mm.c` calls and client writes, on memory |
| `Ranges` | the range list of `mdriver.c` |
| `Clients`, `Payloads`, `Driver` | `eval_mm_valid` and `eval_mm_util` |
| `Traces` | what their answers mean, over the sequence of clients of a run |
| `Findings` | inputs on which the code is not what its comments or its driver expect |
| `Fcyc` | `fcyc.c` |

## What the proofs found

- `mm_realloc` copies up to the whole size of the old block, header and links included, so its
  source may run 12 bytes past the block. `Laws.CopyLeavesBuffer` says when that leaves the
  buffer: the old block is the last one, the break stands at the buffer's end, and the request
  is more than the block's size less 8. `Mm.Allocator.MmRealloc` requires that this is not so.
  `Findings.OverrunExample` is a trace of four operations in the repository's 20 MB buffer in
  which every allocation succeeds and the last copy reads one byte past the buffer.
- `mm_realloc` does not look at `mm_malloc`'s result before it copies. `Heaps.CanRealloc` is
  the condition, `Laws.MallocOutcome` says exactly when it fails, and
  `Findings.UncheckedExample` is a trace of two operations on which it does.
- `mm_malloc` rounds in 32 bits. `Heaps.RoundedExact` splits all requests: up to 2^31 - 32 the
  rounded word is the size asked for; above, it has no bucket; from 2^32 - 39 on it has wrapped
  to at most 32. `Findings.WrappedRequest`: the last seven succeed with a block of at most 56
  bytes.
- `add_range` looks only for an endpoint of the new range inside an old one.
  `Ranges.MissedOverlap` gives the overlaps it lets through, `Ranges.MissedOverlapExample` is
  one. The allocator never makes one.
- `eval_mm_valid` compares a plain `char` with `index & 0xFF`. Where `char` is signed it
  rejects every trace that resizes an id whose low byte is 128 or more, however good the
  allocator is. The model takes the signedness as a parameter; `Clients.SignedCharVerdict` is
  the exact difference and `Clients.SignedCharExample` a trace.
- `mm_check` part 2 lacks braces: on a sound heap it returns 1 only if no block is free.
  `Mm.Allocator.MmCheck` is the code, `Mm.Allocator.MmCheckIntended` what its comments mean.
  `Findings.CheckAfterInit`: it returns 0 right after a successful `mm_init`.
- The lists are last-in first-out, not ordered "max to min" as the comment at mm.c:296 says.
  `Findings.EnlistOrder` says exactly when `add_to_seglist` keeps that order, and
  `Findings.LifoExample` is a run of six calls after which a list is not in it.

## Model

| member | source | states |
|---|---|---|
| Words.Pack | mm.c:55-63 | size and allocated bit come back from a packed tag |
| Words.Align | mm.c:48 | the result is the one multiple of 8 in [n, n + 8) |
| Words.WithByteAt | mdriver.c:625 | storing one byte of a word changes that byte and no other |
| Buckets.BucketOf | mm.c:137-153 | bucket k holds exactly the sizes in (2^(k-1), 2^k]; sizes up to 2^31 have one of the 32 |
| Buckets.BucketUnique | mm.c:247-255 | a size lies in one bucket only, so the first bound that is large enough names it |
| Buckets.BucketMonotone | mm.c:261-277 | larger sizes are never in lower buckets |
| Buckets.WithoutAt | mm.c:346-366 | deleting the element at i keeps the order of all others |
| MemLib.MemSystem.constructor | memlib.c:25-35 | an empty break over a buffer of arbitrary contents |
| MemLib.MemSystem.ResetBrk | memlib.c:48-51 | the break is back at the start, the contents stay |
| MemLib.MemSystem.Sbrk | memlib.c:58-69 | moves the break and returns the old one, or fails and moves nothing exactly when the int argument is negative or the buffer ends |
| MemLib.MemSystem.Put | mm.c:58-59 | one word changes, every other word stays |
| MemLib.MemSystem.MemSet | mdriver.c:625 | exactly the n bytes from p hold the value |
| MemLib.MemSystem.MemCpy | mm.c:458 | exactly the n bytes at the destination change, to the old source bytes |
| Heaps.BlockBefore | mm.c:72 | every block but the first has a block that ends where it starts, so PREV_BLKP finds it |
| Heaps.RunIsFree | mm.c:383-432 | a block and its free neighbours are a run between two block boundaries that holds nothing else |
| Heaps.MergeKeeps | mm.c:383-432 | coalescing re-establishes the whole invariant, keeps every live block, and yields one free block that spans the run |
| Heaps.FuseCoalesced | mm.c:383-432 | after coalescing no two free blocks are adjacent |
| Heaps.ExtendKeeps | mm.c:170-187 | growth keeps the invariant and the live blocks and gives a free block at least as large as asked |
| Heaps.PlaceKeeps | mm.c:223-242 | placing keeps the invariant, adds one live block of the size asked for plus at most 24, and changes no other |
| Heaps.FreeKeeps | mm.c:282-291 | a free keeps the invariant and the break and removes exactly that live block |
| Heaps.RoundedExact | mm.c:194 | the 32-bit rounding of every request: the size asked for up to 2^31 - 32, then a word with no bucket, from 2^32 - 39 on a word of at most 32 |
| Heaps.MallocCases | mm.c:193-218 | the block found is used without growth, otherwise the break moves by max(ALIGN(n + 32), 4096), otherwise null and nothing changes |
| Heaps.MallocKeeps | mm.c:193-218 | null changes nothing; otherwise exactly one new live block, 8-aligned, of ALIGN(n + 32) to ALIGN(n + 32) + 24 bytes, and the invariant |
| Heaps.ReallocKeeps | mm.c:438-463 | the old block is gone, one new block of the right size is there, every other live block and the invariant stay |
| Heaps.FitFromFits | mm.c:261-277 | the search from bucket k stops at the first bucket with a block that fits, and none below fits |
| Heaps.InitialIsExtended | mm.c:117-135 | the empty heap extended by one chunk is one 4096-byte free block in bucket 12 |
| Layout.LinksAreNoTags | mm.c:293-330 | relinking lists of free blocks leaves every header, footer, prologue and epilogue alone |
| Layout.LinksSpareLive | mm.c:293-376 | relinking changes no word of a live block |
| Layout.WriteFused | mm.c:393-427 | two tag writes turn a run of unlisted free blocks into one block and disturb no other tag, link or live word |
| Layout.WriteSplit | mm.c:227-240 | place's tag writes split the block and disturb no other tag, link or live word |
| Layout.WriteGrown | mm.c:180-183 | the tags around the new block and the new epilogue lay out the grown heap, whatever the new memory held |
| Links.PrependChain | mm.c:317-330 | add_to_bucket's writes make the list with the block at its head, back links included |
| Links.UnlinkChain | mm.c:346-366 | remove_from_bucket's writes make the list without that node, in order, back links included |
| HeapLinks.MergeSteps | mm.c:383-432 | unlinking the free neighbours, fusing tags and enlisting the result is one merge step, also when both neighbours are in one list |
| HeapLinks.PrevTag | mm.c:384 | the word before a header tells whether the previous block is free and where it starts; at the first block it is the prologue's |
| HeapLinks.NextTag | mm.c:385 | the word before the next block tells whether that block is free; at the last block it is the epilogue's |
| MmSteps.ClientWrite | mm.c:209 | a client that writes inside its live block leaves tags, links, buckets and all other live blocks intact |
| MmSteps.ReallocApart | mm.c:453-458 | source and destination of the copy do not overlap, and the destination lies inside the new payload |
| MmSteps.ReallocData | mm.c:453-460 | the copied bytes survive the free of the old block |
| MmSteps.ReallocOthers | mm.c:438-463 | no other live block's words change across malloc, copy and free |
| Mm.Allocator.AddToBucket | mm.c:317-330 | the bucket's list gets the block at its head; only its words, the old head's back link and the bucket word change |
| Mm.Allocator.RemoveFromBucket | mm.c:346-366 | the bucket's list loses exactly that node; the previous node is never null on a listed block |
| Mm.Allocator.FindBucket | mm.c:247-255 | the address of the size's own bucket, or 0 exactly when the size is above 2^31 |
| Mm.Allocator.AddToSeglist | mm.c:337-340 | the block found by its header joins its size's list; all 32 lists and all tags stay sound |
| Mm.Allocator.RemoveFromSeglist | mm.c:373-376 | the block leaves its size's list; all 32 lists and all tags stay sound |
| Mm.Allocator.Coalesce | mm.c:383-432 | all four cases equal one merge step; the result is where the merged block starts; no live word changes |
| Mm.Allocator.JoinNext | mm.c:393-403 | case 2 equals the merge step |
| Mm.Allocator.JoinPrev | mm.c:405-416 | case 3 equals the merge step |
| Mm.Allocator.JoinBoth | mm.c:418-430 | case 4 equals the merge step |
| Mm.Allocator.ExtendHeap | mm.c:170-187 | grows by an even number of words and merges with a free last block, or returns null and changes nothing exactly when there is no room |
| Mm.Allocator.FindFit | mm.c:261-277 | the scan over linked nodes finds the block that Steps.FindFitFirst names |
| Mm.Allocator.Place | mm.c:223-242 | the memory lays out the placed heap; no live word changes |
| Mm.Allocator.BucketsInit | mm.c:154-164 | all bucket words are zero whatever was there |
| Mm.Allocator.MmInit | mm.c:117-135 | from any leftover contents the invariant holds with one free chunk, or with none when it does not fit and -1 is returned |
| Mm.Allocator.MmMalloc | mm.c:193-218 | heap and result are those of the malloc step, on an initialized allocator or a fresh one; no live word changes |
| Mm.Allocator.MmFree | mm.c:282-291 | the heap is that of the free step; no word of another live block changes |
| Mm.Allocator.MmRealloc | mm.c:438-463 | heap and result are those that Steps.ReallocExact names; the first min(n, old payload) bytes are the old ones; no other live word changes |
| Mm.Allocator.MmCheck | mm.c:495-533 | on any memory it can walk, 1 exactly when headers match footers, no block at all is listed and no free blocks are adjacent; so on a reachable heap exactly when no block is free |
| Mm.Allocator.MmCheckIntended | mm.c:495-533 | on any memory it can walk, sound or not, 1 exactly when the three conditions hold; they hold on every reachable heap |
| Mm.Allocator.TagsMatch | mm.c:498-506 | true exactly when every header equals its footer, whatever the footers are |
| Mm.Allocator.ListsAreFree | mm.c:508-520 | true exactly when every listed block is free, whichever blocks are listed |
| Mm.Allocator.ListsAreEmpty | mm.c:508-520 | the braceless loop: true exactly when no block is listed |
| Mm.Allocator.NoneEscaped | mm.c:522-530 | true exactly when no free block is followed by a free block |
| MmSteps.SoundPasses | mm.c:495-533 | every reachable memory can be walked and meets the three conditions; its lists are empty exactly when no block is free |
| Orders.OrderDetermines | mm.c:293-330 | a list without repetition is determined by its members and their order |
| Orders.KeepOrder | mm.c:346-366 | deleting elements keeps the order of the others |
| Steps.PushedDetermines | mm.c:293-376 | live blocks, break and the order of the old lists leave one heap only |
| Steps.FreeExact | mm.c:282-432 | the heap after mm_free is the one with that block gone, its free run at the head of its bucket and all other listed blocks in their old order, and no other |
| Steps.FindFitFirst | mm.c:261-277 | find_fit returns the first element that fits, in list order, of the first bucket from the size's own on that has one, and no other; null exactly when nothing fits |
| Steps.MallocExact | mm.c:193-242 | mm_malloc takes that first block, or the free tail of the grown heap; cuts it at exactly ALIGN(n + 32) when 32 bytes are left over; the rest heads its bucket and the order of all other listed blocks stays; no other heap or answer meets this |
| Steps.CanReallocExact | mm.c:438-463 | when mm_realloc finds its blocks, in terms of free blocks and room |
| Steps.ReallocOutcome | mm.c:438-463 | mm_realloc answers what mm_malloc does, and the break moves exactly when nothing fits, by max(ALIGN(n + 32), 4096) |
| Steps.ReallocExact | mm.c:438-463 | mm_realloc is a malloc step then a free step, mm_malloc on null, mm_free on size 0; no other heap or answer meets this |
| Laws.FindFitExact | mm.c:261-277 | null exactly when no free block of the whole heap fits; otherwise the block found is less than twice any block that fits |
| Laws.MallocOutcome | mm.c:193-218 | null exactly for n = 0, or when nothing fits and the break has no room; the break moves only when nothing fits, by max(ALIGN(n + 32), 4096) |
| Laws.PlacementBounds | mm.c:193-242 | the n bytes are 8-aligned, inside the heap, clear of links and tags, in a block of at most n + 63 bytes |
| Laws.PayloadsApart | mdriver.c:407-416 | payloads of different live blocks are disjoint |
| Laws.CopyLeavesBuffer | mm.c:455-458 | the copy of mm_realloc leaves the buffer exactly under a condition on the old block, the break and the request |
| Laws.FreeBlockShared | mm.c:383-432 | a free block is a maximal gap between live blocks, so heaps with equal live blocks share it |
| Laws.Canonical | mm.c:383-432 | blocks and bucket contents are a function of the live blocks and the break |
| Laws.FreesCommute | mm.c:282-291 | two frees commute up to the order inside lists |
| Laws.FreeOrderIrrelevant | mm.c:282-291 | freeing the same blocks in any two orders gives the same tiling and bucket contents |
| Laws.FreeEverything | mm.c:282-291 | freeing every live block in any order leaves one free block of the size of the break less 144 |
| Laws.MallocThenFree | mm.c:193-291 | free right after malloc restores tiling and buckets, or gives the old heap with the extension merged in |
| Laws.TilingSum | mm.c:170-242 | block sizes add up to the break less 144 |
| Laws.Conservation | mm.c:170-432 | live bytes plus free bytes equal the break less 144 |
| Laws.FreeMovesBytes | mm.c:282-291 | a free moves exactly its block's size to the free side |
| Laws.MallocMovesBytes | mm.c:193-242 | a malloc moves exactly the placed size to the live side, net of growth |
| Laws.Walk | mm.c:498-506 | stepping by NEXT_BLKP visits every block once, in address order, and ends at the break |
| Runs.CallKeeps | mm.c:117-463 | one legal call or client write keeps the invariant and the client's bytes inside live payloads; only mm_init lowers the break |
| Runs.CallCarries | mm.c:438-463 | a store sets its byte; mm_realloc carries the bytes of the old payload along |
| Runs.StaysStored | mm.c:117-463 | a stored payload byte stays through every run that neither stores there again nor frees, resizes or forgets its block |
| Runs.RunSnoc | mm.c:117-463 | a run may be extended by one legal call, to the state after that call |
| Runs.Perform | mm.c:117-463 | one call on memory: the heap is that of the step, and every byte the client has stored, and realloc has carried, is there |
| Runs.Serve | mm.c:117-463 | the same for every run of legal calls and client writes, from any state |
| Runs.ServeFresh | mm.c:117-463 | from any leftover memory, mm_init and any run of init, malloc, free, realloc and payload writes end in a memory that satisfies the whole invariant and holds every byte stored |
| Ranges.RangeList.AddRange | mdriver.c:381-429 | accepts exactly aligned ranges in the heap without an endpoint in a listed range, and then prepends; otherwise changes nothing |
| Ranges.RangeList.RemoveRange | mdriver.c:434-449 | the first node that starts at lo is unlinked, the others keep their order |
| Ranges.RangeList.ClearRanges | mdriver.c:454-464 | the list is empty |
| Ranges.MissedOverlap | mdriver.c:407-416 | add_range never mistakes disjoint ranges for overlapping, and the overlaps it lets through are exactly the strict enclosures |
| Ranges.MissedOverlapExample | mdriver.c:407-416 | a range that is accepted although it overlaps a listed one |
| Ranges.DropAt | mdriver.c:440-448 | unlinking node k deletes exactly the range at k |
| Clients.StepKeeps | mdriver.c:602-677 | every trace operation keeps: live payloads lie in live blocks with 32 bytes to spare, live ids own different payloads |
| Clients.BudgetSuffices | mdriver.c:577-685 | a well-formed trace of positive sizes whose requests, each counted as at least one chunk, fit in the buffer is accepted, and its copies stay in the buffer |
| Clients.Final | mdriver.c:598-681 | the client invariant holds after the whole trace, on the same buffer, with no lower break |
| Clients.SignedCharVerdict | mdriver.c:655-661 | signed char turns acceptance into rejection exactly for traces that resize an id with low byte 128 or more |
| Clients.SignedCharExample | mdriver.c:655-661 | a two-operation trace, in the repository's 20 MB buffer, accepted with unsigned and rejected with signed char |
| Clients.UtilBound | mdriver.c:727-756 | live request bytes, 32 bytes a payload and 144 bytes fit in the heap at every step |
| Clients.PeakBelowBreak | mdriver.c:777 | the largest total over all prefixes is below the final heap size |
| Clients.StepSum | mdriver.c:727-767 | each operation changes the total by its size, less what it frees |
| Traces.WellFormedExact | mdriver.c:602-677 | a trace is well formed exactly when each operation names an id, asks for a size with a bucket, and frees or resizes an id that was given a block and not freed since |
| Traces.CanStepExact | mdriver.c:602-677 | an operation succeeds exactly when it is a free, or of positive size and something fits or the break has room |
| Traces.PathUnique | mdriver.c:602-677 | a trace has at most one sequence of clients |
| Traces.TraceAcceptedExact | mdriver.c:577-685 | a trace of any length is accepted exactly when each of its operations can be taken in turn and, with signed char, resizes no id with low byte 128 or more |
| Traces.FinalClientExact | mdriver.c:577-685 | the final client is the last of that sequence |
| Traces.BudgetAccepted | mdriver.c:577-685 | every well-formed trace of positive sizes within the budget is accepted by eval_mm_valid, and its run is defined in C |
| Traces.TraceDefinedExact | mm.c:453-458 | a run is defined in C exactly when every resize that a passing part of the trace leads to finds its block and copies inside the buffer |
| Traces.PeakOfExact | mdriver.c:713-775 | the peak is the largest total of live request sizes over all clients of the run, and is reached |
| Payloads.MatchesAdd | mdriver.c:617-618 | adding a new payload keeps the range list equal to the set of live payloads |
| Payloads.MatchesDrop | mdriver.c:671-673 | removing a payload keeps the range list equal to the set of live payloads |
| Payloads.NewRangeAcceptable | mdriver.c:390-416 | alignment, extent and overlap tests never fail on what the allocator returns |
| Payloads.MovedReady | mdriver.c:641-661 | after mm_realloc the list accepts the new range and the copied bytes are the id's low byte |
| Driver.Evaluator.CheckAlloc | mdriver.c:604-630 | fails exactly when mm_malloc does, size 0 included; otherwise the list mirrors the live payloads and every id's bytes are in place |
| Driver.Evaluator.CheckRealloc | mdriver.c:632-667 | size 0 is rejected; a positive size fails only through the signedness of char |
| Driver.Evaluator.CheckFree | mdriver.c:669-675 | range list, heap and remaining payload bytes agree after the free |
| Driver.Evaluator.EvalMmValid | mdriver.c:577-685 | returns 1 exactly when mm_init has room and the operations of the trace, however many, can be taken in turn; then the list is the set of live payloads |
| Driver.Evaluator.UtilAll | mdriver.c:713-775 | the loop computes the peak of the live totals over all prefixes |
| Driver.Evaluator.EvalMmUtil | mdriver.c:698-778 | the ratio is the high-water mark of live request bytes over the run, divided by the final heap size, and lies between 0 and 1 |
| Findings.OverrunExample | mm.c:455-458 | a well-formed trace in the 20 MB buffer whose operations all have room and whose last copy leaves the buffer |
| Findings.UncheckedExample | mm.c:453-458 | a well-formed trace whose mm_realloc copies to the null pointer of a failed mm_malloc |
| Findings.CheckAfterInit | mm.c:508-516 | mm_check returns 0 right after a successful mm_init |
| Findings.EnlistOrder | mm.c:293-330 | prepending keeps a list ordered by size exactly when the block is as large as the old head |
| Findings.FreeAlone | mm.c:282-330 | a freed block with live neighbours is the head of its bucket's list |
| Findings.LifoExample | mm.c:293-330 | a run of four mallocs and two frees after which a list is not ordered "max to min" |
| Findings.WrappedRequest | mm.c:194-210 | a request of 2^32 - 7 or more succeeds whenever 32 bytes are free, with a block of at most 56 |
| Fcyc.BestNext | fcyc.c:67-88 | the k best after one more sample come from the k best before it |
| Fcyc.BestIsSmallest | fcyc.c:67-88 | the k best are k of the samples, sorted, and no other sample is smaller than any of them |
| Fcyc.ConvergedExact | fcyc.c:93-98 | convergence is reported exactly when some k of the samples are all at most 1 + epsilon times the least |
| Fcyc.ConvergedMeans | fcyc.c:93-98 | convergence means k samples within a factor 1 + epsilon of the smallest of all |
| Fcyc.Sampler.AddSample | fcyc.c:67-88 | the array holds the k best of all samples, sorted in place |
| Fcyc.Sampler.SiftIn | fcyc.c:82-87 | the swap loop inserts the value into the sorted part |
| Fcyc.Sampler.HasConverged | fcyc.c:93-98 | the test on the array is the test on all samples |
| Fcyc.Sampler.Sample | fcyc.c:129-168 | returns the smallest sample taken; takes at most max(1, maxsamples), and fewer only at the first convergence |

## Left out

- Requests above 2^31 - 32 (`Heaps.Request` is the limit, `Heaps.RoundedExact` the split): up to 2^32 - 40 `find_bucket` returns null and `find_fit` reads through it; from 2^32 - 39 on `mm_malloc` goes on with a rounded word of at most 32, and what `place` writes for a word below 32, which is no block, is not modelled. A negative size in a trace is such a request.
- Absolute addresses: the heap is assumed to start at a multiple of 8, and pointer sums are assumed not to wrap around the 32-bit address space.
- Bit patterns: tags are sums of a multiple of 8 and the allocated bit, which is what `|` and `& ~7` compute on them; the block before is read from its footer, never from bit 1 (GET_ALLOC_PREV is unused in the repository).
- `mm_init` on a break that is not at the start, and `mm_free` or `mm_realloc` of pointers that are not live payloads: the C code corrupts the heap.
- Mm.Allocator.MmRealloc: requires that the inner `mm_malloc` succeeds and that the copy stays in the buffer, because the C code's behaviour is undefined otherwise.
- Driver.Evaluator.EvalMmValid: requires that every `mm_realloc` the run reaches is defined in that sense; running out of room in `mm_malloc` is part of the result.
- Driver.Evaluator.EvalMmUtil: requires a trace that does not run out of room, because `app_error` ends the process.
- Reading trace files, printing, option parsing, error messages, timers, throughput and the performance index, the `eval_libc_*` runs and `eval_mm_speed`: input, output, or the same loop without its checks.
- The C library's `malloc` and `free` behind range nodes, trace arrays and the buffer: they are Dafny objects, and their failures are not modelled.
- Floating-point rounding and NaN in `fcyc.c`: samples are reals, each measurement is an arbitrary input; cache clearing and the choice of counter are not modelled.
- `print_seglist`, `print_heap` and the manual test program: output only.
