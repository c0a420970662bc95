# Verified model of the C++ utility library

The library is a collection of hand-written building blocks: a family of merge sorts and the array
class around one of them, a block allocator on two linked lists, a thread pool, a buffered byte
stream with the parsers that read through it, and number, date and base64 conversions. This project
models them in Dafny and proves what they are for.

* **Sorting** (`StableOrder`, `QueueMerge`, `BottomUpSort`, `BottomUpTheorems`, `TopDownSorts`,
  `ExtremeSort`, `OutOfPlaceSort`). The in-place merge that parks displaced elements in a queue, and
  the one that needs no storage because the consumed front of the right run is the queue, refine the
  out-of-place stable merge. Every sort returns the stable sort of its input. That result is unique,
  so the variants agree element by element.
* **Array** (`GrowableArray`). Insertion, removal and sorting refine operations on a plain sequence;
  the order flag never lies; growing by single appends copies at most 7n/3 elements.
* **Allocator** (`MemoryHeap`, `BlockHeap`, `BlockAllocator`, `AllocatorRuns`). The linked lists refine
  sequences of blocks ordered by size, call by call and over whole histories. Over every history the blocks
  stay apart, and tile an arena below 65536 bytes exactly as long as no request loses one; fragmentation
  is traced to the calls that cause it.
* **Thread pool** (`ThreadPool`). A transition system with one step per critical section; safety over
  all interleavings, and the exact condition under which every accepted task ends.
* **Stream** (`Stream`, `PlainReader`, `Reading`, `StreamReader`). For every chunking and buffer size any
  mix of operations answers as on the concatenated data. Collecting reads are characterised exactly:
  what they return, and when they fail.
* **Parsers and printers** (`KeyValue`, `NumberText`, `Calendar`, `CalendarPrinter`, `CalendarText`, `CalendarParser`,
  `Base64` on `Bits`). Round trips, each with the exact condition under which it holds.

Errors that the code throws are results here: an `ok` flag, or an `Option`. A write beyond the end of
a swap space, undefined in C++, also ends an operation with `ok == false`, so that the condition for
`ok` says exactly when the code is defined.

Methods follow the code's loops and fields; each is tied to a function of its inputs or its old state,
and the theorems are about those functions. Array methods that work in place keep a ghost snapshot of
the cells and move it by small step lemmas.

## Where the code and its documentation disagree

The model follows the code.

* `array.h:194-198` and `nlognsort-iterative.cpp:57-59` allocate about half the length as swap space.
  The queue is flat, so the last pass may write one slot for every element of its left run:
  `BottomUpTheorems.SwapSpaceSuffices` gives the exact condition, `SwapSpaceTooSmall` five elements for
  which it fails, `WorstInputNeedsLastSpan` the size that would do for every input.
* An array insertion in place shifts the elements while it reads the new ones (`array.h:318-341`). A
  stretch of the array itself that begins before the position is read while it is overwritten:
  `GrowableArray.TakenAsIs` gives the exact condition under which it is still inserted as given,
  `TakenTwice` an input for which it is not.
* `emalloc.h:22-24` makes the arena 65536 bytes by default, which the 16-bit size field of `heap.h:13-14`
  turns into 0: `AllocatorRuns.DefaultArenaNeverServes`. The tiling theorems are for sizes up to 65535.
* `heap.c:7` reads 32 bits of a request's size. A request of 2^32 bytes or more can take a block off the
  free list and lose it (`emalloc.c:38-42`): `BlockHeap.EmallocTiles`, `AllocatorRuns.HugeRequestLosesArena`.
* A freed block is joined only with the free block before it (`emalloc.c:87-93`). `BlockHeap.EfreeCoalesces`
  and `AllocatorRuns.RunCoalesced` say exactly when this leaves neighbouring free blocks,
  `AllocatorRuns.FreeButFragmented` gives a history for every arena.
* A task that is queued between a worker's look at the queue and the worker's removal
  (`etasker.cpp:197-212` and `219-226`) can wait forever: `ThreadPool.QueuedIntoTheGap`. Every accepted
  task ends exactly under the condition of `ThreadPool.Completeness`.
* The date parsers multiply the years since 1970 by the seconds of a year in 32 bits
  (`ecal.cpp:222`, `272`, `314`), which is wrong from 2039 on: `CalendarText.RoundTrip` is an
  equivalence. The overflow is undefined in C++; the model lets it wrap around.
* The readable formats keep an offset in 16 bits (`ecal.cpp:152-190`): from 9:07 on it wraps around,
  `CalendarText.OffsetShifts`. Every parser adds an offset, which ISO 8601 subtracts.
* `parse` of key/value text ignores its `key_delim` argument and always splits at `=` (`parse.cpp:38`):
  `KeyValue.RoundTrip` covers every key delimiter.
* A number wider than its field keeps zeros that should be cut off (`string_utils.h:153-165`):
  `NumberText.NumeralMeaning` is an equivalence. A date of a five-digit year loses its first digit in
  two of the formats.

## Model

| member | source | states |
|---|---|---|
| StableOrder.Compare | lib/datastructures/array.h:106-123 | zero exactly for equal keys; positive exactly when the first key is the larger one or, for the descending order only, the smaller one |
| StableOrder.MergeSorted | cpping/nlognsort-normal.cpp:11-24 | the merge of two sorted runs is sorted, in either order |
| StableOrder.MergeStable | cpping/nlognsort-normal.cpp:3-33 | merging a stable sort of s with a stable sort of t gives a stable sort of s followed by t: ties go to the left run |
| StableOrder.StableSortIsPermutation | lib/datastructures/array.h:191-225 | a stable sort is a permutation of its input |
| StableOrder.StableSortMeaning | lib/datastructures/array.h:106-225 | in terms of keys and tags: a stable sort orders the keys, upwards or downwards, keeps the elements, and leaves equal keys in the order of the input |
| StableOrder.StableSortUnique | lib/datastructures/array.h:191-225 | two stable sorts of one sequence are equal, hence all variants agree element by element |
| QueueMerge.MergeInPlace | lib/datastructures/array.h:147-190 | the swap space stays in bounds exactly if it has the slots needed, and then memory holds the stable merge of the two runs, the rest untouched, with an exact count of visited cells; the most elements ever queued are exactly the right elements among those of the merge that fill the left run's cells |
| QueueMerge.RightAmongMeaning | lib/datastructures/array.h:155-175 | the first n elements of a merge are the first ones of its right run, as many as counted, and the first of its left run |
| QueueMerge.VisitsMeaning | lib/datastructures/array.h:155-190 | the cells visited are those up to the last element of the left run; behind them the rest of the right run is in place |
| QueueMerge.FillRight | cpping/nlognsort.cpp:18-23 | a right element wins: the first loop's invariant is kept (the queue is the displaced stretch of the left run, one element per right element taken) |
| QueueMerge.FillQueue | cpping/nlognsort.cpp:24-30 | the queue wins: the same invariant is kept |
| QueueMerge.DrainRight | cpping/nlognsort.cpp:36-41 | the cell written lies before the unread part of the right run, and the second loop's invariant is kept |
| QueueMerge.DrainQueue | cpping/nlognsort.cpp:42-49 | the same when the queue wins: no unread element is overwritten |
| BottomUpSort.SortPass | cpping/nlognsort-iterative.cpp:65-80 | one pass in place is the pass on sequences, odd tails included, in bounds exactly when every merge of it is, with the exact number of visited cells |
| BottomUpSort.NlognSort | lib/datastructures/array.h:191-225 | the whole in-place sort is the bottom-up sort on sequences, defined exactly when every merge fits the swap space |
| BottomUpTheorems.PassDoublesRuns | cpping/nlognsort-iterative.cpp:64-82 | if every aligned run of length span is the stable sort of its input, then after the pass every run of twice the length is |
| BottomUpTheorems.BottomUpSorts | lib/datastructures/array.h:191-225 | for every input and both orders the result is the stable sort of the input |
| BottomUpTheorems.BottomUpKeys | lib/datastructures/array.h:106-225 | the same in terms of keys and tags: for the descending order the keys never go up, for any other they never go down; no element is lost; equal keys keep their order |
| BottomUpTheorems.SlotsAreOvertaken | lib/datastructures/array.h:155-175 | the slots a merge of sorted runs writes are the left elements that some right element strictly precedes |
| BottomUpTheorems.SwapSpaceSuffices | lib/datastructures/array.h:194-216 | with at least floor(n/2) slots the sort stays in bounds if and only if the overtaken elements of the last pass's left half fit |
| BottomUpTheorems.PowerOfTwoSuffices | lib/datastructures/array.h:194-198 | floor(n/2) slots are enough whenever n is a power of two |
| BottomUpTheorems.SwapSpaceTooSmall | cpping/nlognsort-iterative.cpp:57-60 | five elements for which neither floor(n/2) nor ceil(n/2) slots are enough |
| BottomUpTheorems.WorstInputNeedsLastSpan | lib/datastructures/array.h:194-216 | for each length an input that fits exactly if the slots reach the last pass's run length |
| BottomUpTheorems.CeilLog2Meaning | cpping/nlognsort-iterative.cpp:64-82 | the logarithm used in the bounds is the rounded-up binary one |
| BottomUpTheorems.PassesAreCeilLog2 | cpping/nlognsort-iterative.cpp:64-82 | the number of passes over n elements is that logarithm of n |
| BottomUpTheorems.BottomUpVisits | cpping/nlognsort-iterative.cpp:5-96 | the bottom-up sort visits at most n times ceil(log2 n) cells |
| TopDownSorts.TopDownSorts | cpping/nlognsort.cpp:88-110 | the recursive sort returns the stable sort |
| TopDownSorts.RangeSortedMeaning | cpping/nlognsort.cpp:88-110 | in terms of keys and tags: nothing outside the range changes; inside it keys never go down, no element is lost and equal keys keep their order |
| TopDownSorts.TopDownAgreesWithBottomUp | cpping/nlognsort.cpp:88-110 | the recursive and the bottom-up sort return the same sequence |
| TopDownSorts.TopDownVisitsBound | cpping/nlognsort.cpp:5-110 | the recursive sort visits at most n times ceil(log2 n) cells |
| TopDownSorts.SharedSwapSort | cpping/nlognsort.cpp:88-110 | one swap space of ceil(n/2) slots taken at the root covers every nested merge; the range is sorted in place, the rest untouched, visits exact |
| ExtremeSort.RightWins | cpping/nlognsort-extreme.cpp:36-44 | without storage: a right element wins and the consumed front of the right run stays the queue |
| ExtremeSort.QueueWins | cpping/nlognsort-extreme.cpp:45-57 | the queue wins: after the shift it is again the displaced stretch of the left run |
| ExtremeSort.QueueRemains | cpping/nlognsort-extreme.cpp:92-102 | when the left cells are used up, merging queue and rest of the right run is all that is left to do |
| ExtremeSort.ShiftDown | cpping/nlognsort-extreme.cpp:49-55 | the shift moves the queue down by one cell and changes nothing else |
| ExtremeSort.LeftMerge | cpping/nlognsort-extreme.cpp:22-84 | re-merging the queue with the rest of the right run gives the merge of the original runs; the queue is no longer than either run |
| ExtremeSort.MergeNoStorage | cpping/nlognsort-extreme.cpp:86-103 | the merge without storage terminates and leaves exactly the stable merge, the rest untouched |
| ExtremeSort.NoStorageSort | cpping/nlognsort-extreme.cpp:133-149 | the sort without storage leaves what the recursive sort leaves |
| OutOfPlaceSort.MergeToNew | cpping/nlognsort-normal.cpp:3-33 | the loop fills a fresh array with the merge of the two ranges |
| OutOfPlaceSort.SortToNew | cpping/nlognsort-normal.cpp:68-83 | the out-of-place sort returns the recursive sort of the range, in its own array from two elements on |
| GrowableArray.UpSized | lib/datastructures/array.h:295-296 | the new capacity is 7/4 of the size, rounded down, and never below it |
| GrowableArray.RingPop | lib/datastructures/array.h:325-330 | popping the ring yields the oldest displaced element and keeps the ring |
| GrowableArray.RingPush | lib/datastructures/array.h:331-336 | pushing appends the next displaced element and keeps the ring |
| GrowableArray.Array.constructor | lib/datastructures/array.h:240-245 | an empty array of the given capacity |
| GrowableArray.Array.FromList | lib/datastructures/array.h:229-239 | the contents are the list, with capacity 7/4 of its length |
| GrowableArray.Array.Sort | lib/datastructures/array.h:268-282 | nothing happens for no order or the order the flag claims; otherwise the contents become the stable sort, keys downwards for the descending order and upwards for the ascending one, and the flag its order, exactly when the swap space suffices |
| GrowableArray.Array.Insert | lib/datastructures/array.h:283-354 | insertion splices the elements in at any position, also elements of the array itself, or refuses a position past the end; every other element keeps its place or moves up by their number; undefined only for no elements before the end; capacity and copied elements follow the growth rule; the flag is cleared |
| GrowableArray.TakenAsIs | lib/datastructures/array.h:318-325 | the elements inserted are those given if and only if the insertion is not in place, or they do not begin before the position, or they repeat with the distance from their beginning to the position |
| GrowableArray.TakenTwice | lib/datastructures/array.h:318-341 | three elements in place: inserting the first two after the first one inserts the first one twice |
| GrowableArray.Array.Displace | lib/datastructures/array.h:318-341 | the shifting loop with its ring writes the spliced contents into the target, in place or not; a stretch of the target itself across the position is read as it is being overwritten, which repeats its first part |
| GrowableArray.Array.Remove | lib/datastructures/array.h:374-426 | removal cuts the range out, what follows it moving down, or refuses one past the end; capacity shrinks by its rule; the order flag stays true |
| GrowableArray.CutSorted | lib/datastructures/array.h:374-426 | cutting a range out of sorted contents leaves them sorted |
| GrowableArray.AppendEach | lib/datastructures/array.h:295-313 | n single appends to an empty array copy at most 7n/3 elements while growing |
| MemoryHeap.MemoryHeapPush | lib/memory/heap.c:40-83 | the node is linked in before the first larger block; the list stays acyclic and otherwise unchanged |
| MemoryHeap.MemoryHeapPop | lib/memory/heap.c:85-125 | the first node that meets the condition is unlinked, or none; the list stays acyclic and otherwise unchanged |
| MemoryHeap.WalkAbove | lib/memory/heap.c:52-64 | the walk ends at the first larger block, with its predecessor, or at the last node |
| MemoryHeap.WalkMatch | lib/memory/heap.c:94-106 | the walk ends at the first match, with its predecessor, or finds none |
| MemoryHeap.PushAdds | lib/memory/heap.c:40-83 | a push adds exactly the block and keeps the order by size |
| MemoryHeap.PushPlace | lib/memory/heap.c:52-64 | a pushed block stands behind all blocks of its size or less and before all larger ones, the others as before |
| MemoryHeap.PopRemoves | lib/memory/heap.c:108-124 | a pop takes out exactly one block, or changes nothing, and keeps the order |
| MemoryHeap.PopFinds | lib/memory/heap.c:6-33 | a pop finds a block exactly if one meets the condition, and then a smallest such block |
| MemoryHeap.PopPlace | lib/memory/heap.c:94-124 | a popped block is the first one that meets the condition, and all others stay |
| BlockHeap.EmallocResult | lib/memory/emalloc.c:32-75 | NULL exactly for size 0 or when every free block is too small; otherwise the start of a smallest sufficient free block |
| BlockHeap.EmallocKeeps | lib/memory/emalloc.c:46-70 | an allocation keeps the invariant and, unless it loses a block, the bytes covered |
| BlockHeap.EmallocTiles | lib/memory/emalloc.c:32-75 | the blocks tile the arena afterwards if and only if the request did not lose a block, and no request below 2^32 bytes does |
| BlockHeap.EfreeKeeps | lib/memory/emalloc.c:77-98 | freeing a live block keeps invariant and tiling, adds exactly its bytes to the free ones and takes exactly it off the used list |
| BlockHeap.EfreeCoalesces | lib/memory/emalloc.c:86-93 | freeing keeps a free list without neighbouring blocks so if and only if no free block starts where the freed one ends |
| BlockHeap.EmallocKeepsCoalesced | lib/memory/emalloc.c:38-70 | an allocation, of any size, never leaves neighbouring free blocks where there were none |
| BlockHeap.EfreeUnknown | lib/memory/emalloc.c:82-86 | freeing any other index changes nothing |
| BlockHeap.EmallocInv | lib/memory/emalloc.c:32-75 | every allocation, of any size in any arena, keeps lists ordered and blocks apart |
| BlockHeap.EfreeInv | lib/memory/emalloc.c:77-98 | every free, of any index, keeps them too |
| BlockAllocator.Arena.constructor | lib/memory/emalloc.c:14-19 | the table of nodes with two empty lists |
| BlockAllocator.Arena.InitializeData | lib/memory/emalloc.c:21-30 | the linked lists become those of an initialised heap, only if both were empty |
| BlockAllocator.Arena.Emalloc | lib/memory/emalloc.c:32-75 | the linked lists over the node table change exactly as the two block lists, with the same pointer; they stay acyclic, share no node, and each node sits at its block's index |
| BlockAllocator.Arena.Efree | lib/memory/emalloc.c:77-98 | the same for freeing, for every distance of the pointer from the arena; NULL changes nothing |
| BlockAllocator.Replay | lib/memory/emalloc.c:21-98 | over any history of calls on an arena, the linked lists stay valid and are those of the history on the two block lists |
| BlockAllocator.ReplayFromStart | lib/memory/emalloc.c:14-98 | the same from a new arena; after a request, and with requests below 2^32 bytes, its linked lists tile it |
| AllocatorRuns.LiveApart | lib/memory/emalloc.c:32-98 | over any history, two live allocations never overlap, nor does one a free block |
| AllocatorRuns.RunTiles | lib/memory/emalloc.c:21-97 | over any history of requests below 2^32 bytes, from the first request on, the blocks tile the arena exactly, and it is not initialised again |
| AllocatorRuns.RunTilesExactly | lib/memory/emalloc.c:21-97 | over any history in an arena below 65536 bytes, the blocks tile the arena after every request if and only if no request lost a block |
| AllocatorRuns.EmallocTakes | lib/memory/emalloc.c:46-70 | an allocation takes exactly its bytes from the free ones and leaves the other allocations alone |
| AllocatorRuns.AllocateThenFree | lib/memory/emalloc.c:32-98 | freeing what was just allocated restores the free bytes and the live allocations |
| AllocatorRuns.RunCoalesced | lib/memory/emalloc.c:32-98 | over any history the free list has no neighbouring blocks throughout if and only if no call frees a block with a free one right after it |
| AllocatorRuns.ServedFromStretch | lib/memory/emalloc.c:32-75 | while it has none, a request is served if and only if as many consecutive bytes are free |
| AllocatorRuns.FirstRequest | lib/memory/heap.h:12-16 | on a fresh arena a request that fits is served if and only if the arena's size fits its 16-bit field |
| AllocatorRuns.DefaultArenaNeverServes | lib/memory/emalloc.h:22-24 | with the default size no request is ever served, after any history |
| AllocatorRuns.FreeButFragmented | lib/memory/emalloc.c:86-93 | for every arena and every smaller request: allocated and freed again, all bytes are free and yet a request for the whole arena fails |
| AllocatorRuns.HugeRequestLosesArena | lib/memory/heap.c:6-13 | a request of 2^32 + 1 bytes that loses the only block |
| ThreadPool.StepKeeps | lib/threads/etasker.cpp:29-230 | every step keeps the invariant: thread count, limit, each accepted task in exactly one place, queue order |
| ThreadPool.Safety | lib/threads/etasker.cpp:29-230 | over all interleavings: the count is the number of live workers and within the limit, tasks start and end at most once and end only after starting, dispatch in submission order |
| ThreadPool.SubmissionExactly | lib/threads/etasker.cpp:29-42 | a submission is queued, behind all others, if and only if as many workers are alive as the limit allows; otherwise it gets one new worker, or is refused when none can be created |
| ThreadPool.DecisionExactly | lib/threads/etasker.cpp:196-213 | a worker whose task has ended leaves if and only if the task threw or nothing waits |
| ThreadPool.StepServes | lib/threads/etasker.cpp:155-228 | a step leaves a waiting queue without a worker that will look at it if and only if it is one of two: queueing while every worker is leaving, or a throwing task of the only other worker |
| ThreadPool.StepRecovers | lib/threads/etasker.cpp:29-42 | a queue without such a worker gets one if and only if the step is a submission that creates it |
| ThreadPool.RunServesExactly | lib/threads/etasker.cpp:29-228 | over any run, submissions included, the queue has such a worker at the end if and only if it had one at the start and no step stranded it, or some submission created one and no later step stranded the queue |
| ThreadPool.StepCounts | lib/threads/etasker.cpp:155-230 | every step that is no submission lowers the measure by exactly one |
| ThreadPool.Completeness | lib/threads/etasker.cpp:29-230 | after any history, every run without submissions is bounded; and when no step is left, every accepted task has ended exactly once if and only if the history left the queue served (never stranded, or recovered for good) and the run has not stranded it |
| ThreadPool.RunEndsAll | lib/threads/etasker.cpp:29-230 | a whole run from the empty pool that ends with no step left has ended every accepted task exactly once if and only if no step stranded the queue, or a submission created a worker and no later step stranded it |
| ThreadPool.QueuedIntoTheGap | lib/threads/etasker.cpp:197-226 | a run in which a task queued between the check and the removal is never started |
| ThreadPool.LaterSubmissionServes | lib/threads/etasker.cpp:29-42 | after that run, a further submission creates a worker that serves the queue again |
| Stream.EStream.FromMemory | lib/estream/estream.h:156-168 | a stream over memory has exactly its bytes left, none to put back, and nothing to refill from |
| Stream.EStream.FromDescriptor | lib/estream/estream.h:170-189 | a stream over a descriptor has the concatenation of the coming chunks left |
| Stream.EStream.FillBuffer | lib/estream/estream.h:120-134 | the next chunk moves from source to buffer; without one the stream turns bad and the read fails |
| Stream.EStream.Good | lib/estream/estream.h:243-256 | good exactly if not bad before and data is left; otherwise bad from then on; nothing is consumed |
| Stream.EStream.Peek | lib/estream/estream.h:214-232 | the first byte left, also across a refill, with nothing consumed; a refill keeps one byte to put back, the one read last; without one all are kept |
| Stream.EStream.Get | lib/estream/estream.h:199-213 | the first byte left, consumed and now the one to put back first; fails exactly if the stream is bad or empty |
| Stream.EStream.Unget | lib/estream/estream.h:233-239 | the byte read last and not yet put back is left again; in a row as often as bytes have been read from the buffer, and once more for the byte kept when it was refilled |
| Stream.EStream.ReadEls | lib/estream/estream.h:261-300 | exactly the next n bytes, for every chunking, the last of which can be put back; fails exactly for n of 0 or above 2^32 or more than is left |
| PlainReader.Do | lib/estream/estream.h:199-300 | each operation returns what it would on the plain sequence of the data left, failures included, and leaves the stream in the matching state |
| PlainReader.Replay | lib/estream/estream.h:117-300 | so does any mix of peek, get, good, readEls and unget: over a descriptor as many ungets in a row as every chunking allows (two after two gets), over memory as many as bytes have been read and not put back |
| PlainReader.SameAnswers | lib/estream/estream.h:156-189 | a stream over memory and one over a descriptor with the same data answer every mix alike, for every chunking and buffer size |
| Reading.CaseComposes | lib/estream/reader_task.h:64-115 | a chain that changes case while reading collects what the rest of the chain makes of the input in that case |
| Reading.CaseOfLetters | lib/estream/reader_task.h:64-115 | changing case exchanges the 26 letters and leaves every other byte alone |
| Reading.DisallowComposes | lib/estream/reader_task.h:117-143 | a chain that disallows bytes collects what the rest makes of the input without them, or, strict, fails exactly if one occurs or the rest fails |
| Reading.UntilRead | lib/estream/estream_types.h:54-92 | an until-read consumes exactly the shortest prefix that ends in, or before, a delimiter; it fails exactly without one, past 2^16 bytes, or when the chain or the collector refuses |
| Reading.DigitRead | lib/estream/byteestream.cpp:10-36 | a digit-read consumes exactly the longest prefix of digits, and needs a byte after it |
| Reading.SizeRead | lib/estream/estream_types.h:67-77 | a sized read consumes exactly n bytes, and needs none after them |
| StreamReader.StreamCollect | lib/estream/estream.h:314-365 | on every stream the collecting loop returns and leaves what it would on the plain sequence of the bytes left, or fails when that does |
| StreamReader.ReadUntil | lib/estream/byteestream.cpp:94-96 | an inclusive read of bytes through a chain is that on the plain sequence |
| StreamReader.ReadNatural | lib/estream/byteestream.cpp:112-134 | reading digits, or up to a delimiter with or without it, is that on the plain sequence |
| StreamReader.ReadNaturalOf | lib/estream/byteestream.cpp:137-159 | reading a number of n bytes is that on the plain sequence |
| KeyValue.ToString | lib/parser/keyvalue/parse.cpp:3-14 | the loop prints, at the offset that the entries before it add up to, each entry as its key, the key delimiter, its value and the delimiter with nothing in between, and a final newline |
| KeyValue.FieldRead | lib/parser/keyvalue/parse.cpp:36-48 | a field is everything before the first of its delimiters, a name without its blanks |
| KeyValue.Parse | lib/parser/keyvalue/parse.cpp:29-51 | on every stream the loop returns the map the remaining text stands for, or fails when it is malformed |
| KeyValue.ParseString | lib/parser/keyvalue/parse.cpp:16-26 | the same for a text, refused above 1024 bytes |
| KeyValue.ParsedExactly | lib/parser/keyvalue/parse.cpp:29-51 | the grammar: a text below 2^16 bytes parses to a map if and only if it is a sequence of entries up to the end, an empty line or a line that ends before its delimiter, and the map gathers them, keys without blanks and later entries over earlier ones |
| KeyValue.ParsedIsClean | lib/parser/keyvalue/parse.cpp:32-49 | no parsed key holds '=', a newline or a blank, and no parsed value a newline or the delimiter |
| KeyValue.ParsedTakes | lib/parser/keyvalue/parse.cpp:36-48 | a text holds at least the '=' that parsing takes: for each entry one after its name, those of its value, and the delimiter if it is one |
| KeyValue.RoundTrip | lib/parser/keyvalue/parse.cpp:3-51 | for every map, every order of its entries and both delimiters, a printed map parses back to itself if and only if the text is within 1024 bytes, keys and values are clean, and the key delimiter is '=' or the map is empty |
| KeyValue.OtherKeyDelimiter | lib/parser/keyvalue/parse.cpp:38-42 | printed with another key delimiter, a map that is not empty never parses back, whatever its keys and values |
| NumberText.FirstDivisor | lib/string_utils.h:108-112 | the largest power of the base within the number, the number of its digits, at most 20, without overflow |
| NumberText.SkipZeros | lib/string_utils.h:151-169 | the inner loop prints the zeros after a digit, also after one that was cut off, and stops at the divisor of the next one |
| NumberText.PrintDigits | lib/string_utils.h:126-172 | the digits of the number, most significant first, whatever runs of zeros it has; of those to be cut off, zeros after the first digit are printed all the same |
| NumberText.NumToString | lib/string_utils.h:87-174 | in base 10 or 16 and for every width: sign, prefix, and the digits, padded to a larger width or cut for a smaller one; uncut, the text is a sign if its flag asks for one, 0x in base 16, and digits that evaluate to the number; refused in any other base |
| NumberText.NumeralMeaning | lib/string_utils.h:113-172 | for a width that is large enough all digits are printed, padded; for a smaller one the low digits, as many as the width says, if and only if no digit cut off after the first is a zero |
| NumberText.CutExactly | lib/string_utils.h:113-172 | the same for digits in general |
| NumberText.CutKeepsZeros | lib/string_utils.h:126-172 | a width that is too small cuts the first digits other than zero and keeps every zero after the first digit |
| NumberText.NumToStringSigned | lib/string_utils.h:176-182 | a negative number, the smallest included, prints as '-' if its flag is set and digits that evaluate to its magnitude; any other as '+' if that flag is set, and its digits |
| NumberText.FixedFront | lib/string_utils.h:126-151 | splitting off the leading digit by its power of the base leaves the digits of the rest |
| NumberText.FixedMeaning | lib/string_utils.h:126-172 | what is printed consists of digits of the base, evaluates to the number, and without padding has no leading zero unless the number is 0 |
| NumberText.CountIsLength | lib/string_utils.h:108-112 | the digit count is the least power of the base above the number |
| NumberText.NaturalFed | lib/estream/byteestream.cpp:54-72 | the collector's value after digits is their value, and it fails exactly after the tenth |
| NumberText.PrintThenRead | lib/estream/byteestream.cpp:112-117 | printing and reading back is the identity exactly for texts of at most ten digits, whatever follows them |
| NumberText.PrintThenReadUntil | lib/estream/byteestream.cpp:118-127 | the same equivalence up to a delimiter, with and without consuming it |
| NumberText.PrintThenReadSized | lib/estream/byteestream.cpp:146-152 | the same equivalence by the number of digits, also at the end of the data |
| Calendar.GetNumLeapYears | lib/etime.cpp:89-101 | the loop over every fourth year counts the leap years of [1970, year), for every year for which it ends |
| Calendar.LeapYearsClosedForm | lib/etime.h:49-51 | that count is the closed form of the Gregorian rule |
| Calendar.TableIsCalendar | lib/etime.h:17-47 | the two tables are the days before each month, in seconds |
| Calendar.SecondsClosedForm | lib/etime.h:17-51 | the seconds of a date are those of a closed formula of the Gregorian calendar |
| Calendar.WrapsBack | lib/ecal.cpp:61-64 | the subtraction that wraps around on the first day of a leap year, and the addition after it, are exact together |
| Calendar.FindYear | lib/ecal.cpp:48-65 | the year the moment falls in and the seconds since its start |
| Calendar.FindMonth | lib/ecal.cpp:73-78 | the month of the moment, by the running table |
| Calendar.FromEpoch | lib/ecal.cpp:45-87 | a valid civil date whose seconds since 1970 are the epoch, through the year 65535 |
| Calendar.DateIsUnique | lib/ecal.cpp:45-87 | valid dates with the same seconds are equal, so the date found is the only one |
| CalendarPrinter.GetFormattedDateTime | lib/ecal.cpp:45-107 | the text printed for a moment, through the year 65535, has the layout of its format for the civil date with that many seconds since 1970 |
| CalendarPrinter.Print | lib/ecal.cpp:91-106 | the layouts of the three formats by position: month names spelled, separators, and fields whose digits evaluate to the fields of the date; a year of five digits is cut to its last four in two of them |
| CalendarText.PartsRead | lib/ecal.cpp:192-376 | in each format a parser finds the fields of a printed date, whatever zone follows them |
| CalendarText.AssembledIsSeconds | lib/ecal.cpp:222-257 | the seconds put together from the fields are off by 2^32 for each overflow of the 32-bit product, and exact if and only if the year is at most 2038 |
| CalendarText.LongYearRefused | lib/ecal.cpp:109-115 | a printed year of five digits is refused in the readable format |
| CalendarText.LongYearCut | lib/ecal.cpp:262-342 | in the other formats it never parses to the seconds of its date |
| CalendarText.RoundTrip | lib/ecal.cpp:45-387 | in each format and for every date through the year 65535, parsing the printed date gives its seconds if and only if the year is at most 2038 |
| CalendarText.RoundTripBefore2039 | lib/ecal.cpp:45-387 | the same by the seconds: the identity exactly before the year 2039 |
| CalendarText.OffsetShifts | lib/ecal.cpp:152-376 | a date of a four-digit year with an offset of up to 9:99 parses to the seconds of the date and, signed, of the offset if and only if the year is at most 2038 and, in the readable formats, the offset fits 16 bits |
| CalendarParser.ParseDate | lib/ecal.cpp:192-333 | on every stream the date part is parsed as on the plain text |
| CalendarParser.ParseTime | lib/ecal.cpp:227-342 | and the time part |
| CalendarParser.ParseOffset | lib/ecal.cpp:152-190 | and the offset |
| CalendarParser.Assemble | lib/ecal.cpp:222-255 | the additions in 64-bit words, one field at a time, are the sum of the fields |
| CalendarParser.GetEpochFromFormattedDateTime | lib/ecal.cpp:378-387 | a text parses to the seconds it stands for in the format, or is refused |
| CalendarParser.PrintAndParse | lib/ecal.cpp:45-387 | for every moment through the year 65535 and each format, printing and parsing is the identity if and only if the moment lies before the year 2039 |
| Base64.Find | lib/base64.h:9-30 | the search in the alphabet finds the value of a letter and nothing else |
| Base64.AlphabetIsLetters | lib/base64.h:9 | the alphabet is that of section 4 of RFC 4648 |
| Base64.LettersAreStandard | lib/base64.h:9 | the same alphabet written out |
| Base64.EncodeGroup | lib/base64.h:76-80 | masks and shifts on three bytes give the four 6-bit digits of their 24 bits |
| Base64.DecodeGroup | lib/base64.h:34-36 | masks and shifts on four 6-bit digits give the three bytes of their 24 bits |
| Base64.Regrouped | lib/base64.h:34-80 | the four digits of three bytes join to the same 24 bits, and these split into the three bytes |
| Base64.Base64Encode | lib/base64.h:66-105 | the loop over a three-byte buffer, with the last group, is the encoding by groups |
| Base64.Base64Decode | lib/base64.h:12-59 | the loop over a four-digit buffer, with the last group, is the decoding of the letters before the first padding character |
| Base64.RoundTrip | lib/base64.h:12-105 | decoding what was encoded gives back every byte string |
| Base64.CanonicalRoundTrip | lib/base64.h:12-105 | encoding what was decoded gives back a text if and only if it is groups of four letters, the last one with at most two padding characters, and the bits of the last letter that no byte takes are zero |
| Base64.EncodedLength | lib/base64.h:66-105 | four characters for every three bytes, a begun group included |
| Base64.EncodedShape | lib/base64.h:88-102 | letters only, then as many padding characters as the last group lacks bytes |
| Base64.EncodedAt | lib/base64.h:66-105 | the encoding by position: the four characters of each group of three bytes by the bits they stand for, = where a byte is absent |
| Base64.DecodedAt | lib/base64.h:31-59 | the decoding by position: each byte by the bits of the two letters it is taken from, and how many bytes the letters give |
| Base64.NoiseIsSkipped | lib/base64.h:22-30 | a byte that is neither letter nor padding changes nothing, wherever it is put |
| Base64.PaddingEnds | lib/base64.h:16-59 | nothing after the first padding character is read |

## Left out

- Element types other than keyed records: elements are compared by an integer key, and a tag tells equal keys apart. C-string specialisations and element destructors are not part of this model.
- Failing allocations, null buffers and the memory the out-of-place sort releases; the cell counters of the out-of-place sort and of the sort without storage.
- GrowableArray.Array.Insert: says nothing about the state after an insertion of no elements before the end, for which the code reads an empty ring.
- GrowableArray.Array.Sort: says nothing about the state after a write beyond the swap space, which is undefined.
- References handed out by the array, shared arrays and pointers, matrices and ring indices.
- BlockAllocator.Arena.Emalloc: pointers are offsets into the arena; the bytes behind them are not part of this model.
- ThreadPool.Completeness: assumes that no worker is created once the limit is reached other than by the code's own test, and leaves out the timer thread, signals, thread attributes and the fixed-size mode; reads of the pool outside its mutex are taken to see the latest state, and identifiers of ended threads are not reused.
- Stream.EStream.ReadEls: covers reads without a task; those with one are collecting reads. Descriptors deliver non-empty chunks no longer than the buffer, and poll reports data exactly while chunks remain. Writing, TLS and the stream log are left out.
- Stream.EStream.Unget: covers calls while a byte can be put back; one more repeats a byte that the stream does not hold any more, or one it never read.
- StreamReader.StreamCollect: does not say what is left of a stream after a failed read.
- Reader tasks that trim or extract, the decimal collector, and character classes other than digits.
- NumberText.NumToStringSigned: negating the smallest 64-bit number is undefined in C++; the model lets it wrap around.
- Floating-point printing and reading.
- Calendar.GetNumLeapYears: leaves out the years 65533 to 65535, for which the loop's 16-bit year wraps around and never ends.
- Calendar.FindYear: ends with the year 65535, where the year no longer fits its 16 bits.
- Calendar.FromEpoch: ends with the year 65535, where the year no longer fits its 16 bits.
- Time-zone offsets when printing, and the reading of the clock; the current time is a parameter. Format strings are replaced by the concatenation of the pieces they print.
- Base64.Base64Encode: inputs of 2^31 bytes or more overflow the code's counter and are excluded.
- JSON and CSV, whose printers and parsers are no inverses of each other; HTTP, sockets, files, the file watcher and logging.
