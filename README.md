# MemoryAnalyzer allocation bookkeeping, modelled in Dafny

MemoryAnalyzer replaces the global `operator new`/`delete` (and their array forms)
with versions that record every block they hand out. Two engines do the bookkeeping:

- **MemoryTracer** (`MemoryTracer.cpp`). It keeps two size-bucketed indices of live
  blocks, one for `new` and one for `new[]`. A bucket (`MemInfoNode`) holds one size,
  a live count and a list of address records (`AddrListNode`).
  - Every block carries an `AllocationHeader` with its size and kind.
  - It keeps running and peak totals of bytes and blocks.
  - It remembers the most recently recorded address record, so file, line and type
    can be attached right after the allocation (`AddAllocationDetails`); failing that,
    it searches the index (`RetrieveAddrNode`).
  - It keeps a per-type list (`TypeNode`) for the statistics table. The table is
    sorted with a stable, descending, bottom-up merge sort of that list.
  - At teardown it lists every block still live as a leak.
- **MemoryManager** (`MemMngr.cpp`) is the earlier variant. It has the same index,
  but each record gets its file and line at allocation time. An empty file name is
  recorded as "Filename unavailable" with line 0. Its only running totals are the
  live and peak byte counts.

How the model is laid out:
- `index.dfy` (module `Index`) is the index both engines share.
  - Linked lists become sequences, with the head at index 0.
  - `MemInfo<D>` and `AddrNode<D>` are generic in what a record carries besides its
    address.
  - The `AllocationHeader`s are a map from block address to `Header(rawSize, kind)`.
  - It holds the specification functions for adding and unlinking a record, the
    totals and the leak report, and the index invariant `IndexValid`:
    - every count equals its record list's length;
    - there is one bucket per size;
    - the records correspond one-to-one with the live headers;
    - every record sits in the bucket and list its header names.
- `type_list.dfy` (module `TypeList`) is MemoryTracer's type list.
- `sort_list.dfy` (module `SortList`) is the `sortList` merge sort, proved against
  the reference function `Merge`: the result is sorted by non-increasing byte total
  and is a stable permutation of the input.
- `tracer.dfy` (module `Tracer`) holds the class `MemoryTracer`.
- `mem_mngr.dfy` (module `MemMngr`) holds the class `MemoryManager` and its
  `operator new`/`delete` entry points.

Each state-changing operation is a method of its engine's class. It states its
new state through the specification functions of `Index` and `TypeList`, whose
properties are proved as lemmas. The entry operations keep the class invariant
`Valid()`:
- in `MemoryTracer`: `Allocate`, `Deallocate`, `AddAllocationDetails`, `SetDetails`
  and `AllocateThenFree`;
- in `MemoryManager`: `Allocate`, `Deallocate`, `AllocateThenFree`, `OperatorNew`
  and `OperatorDelete`.

The list steps `AddAllocationToList` and `RemoveAllocationFromList` do not keep
`Valid()` on their own. They run inside `Allocate` and `Deallocate`, between a
header's creation and its removal. `AddToTypeList`, `RemoveFromTypeList` and
`DisplayStatTable` change only the type list, which `Valid()` does not mention.

How the source's mechanics are abstracted:
- `malloc` is replaced by two parameters: whether it failed (`mallocFailed`) and,
  if not, a fresh non-null address (`block`).
- An `assert` of the source is a precondition.
- A size hint of `-1` (unknown size) is `None`.

## Model

| member | source | states |
|---|---|---|
| `Index.Pick` | MemoryAnalyzer/MemoryTracer.cpp:264-267 | GetListHead gives the non-array list for ALLOC_NEW and the array list otherwise |
| `Index.Raised` | MemoryAnalyzer/MemoryTracer.cpp:221-230 | a peak after an increase is the larger of the old peak and the new total: it never decreases and bounds the total |
| `Index.IndexOfSize` | MemoryAnalyzer/MemoryTracer.cpp:94-100 | the size walk stops at the first bucket of the size, or past the end when no bucket has it |
| `Index.IndexOfAddr` | MemoryAnalyzer/MemoryTracer.cpp:286-295 | the address walk stops at the first record of the address, or past the end |
| `Index.IndexOfOwner` | MemoryAnalyzer/MemoryTracer.cpp:344-359 | the sizeless search stops at the first bucket holding the address, or past the end |
| `Index.FindBucket` | MemoryAnalyzer/MemoryTracer.cpp:94-100 | the `while(current && current->size != size)` loop finds the first bucket of the size or none |
| `Index.FindAddress` | MemoryAnalyzer/MemoryTracer.cpp:291-295 | the address-list loop finds the first record of the address or none |
| `Index.CountLive` | MemoryAnalyzer/MemoryTracer.cpp:429-457 | DisplayAllocs adds up the counts of the buckets with a nonzero count |
| `Index.SweepList` | MemoryAnalyzer/MemoryTracer.cpp:24-68 | cleanupLeakCheck reports one group per nonempty bucket with its records and totals their counts |
| `Index.LiveCountIsBlocks` | MemoryAnalyzer/MemoryTracer.cpp:434-445 | skipping empty buckets does not change the total count |
| `Index.BlocksAreRecords` | MemoryAnalyzer/MemoryTracer.cpp:119-135 | when every count equals its record list's length, the counts add up to the number of records |
| `Index.LeakGroupsTotals` | MemoryAnalyzer/MemoryTracer.cpp:30-42 | the leak groups add up to the live count and the live bytes, and none is empty |
| `Index.LeakedRecordsAddrs` | MemoryAnalyzer/MemoryTracer.cpp:44-57 | the sweep lists each recorded address exactly once |
| `Index.AddRecordShape` | MemoryAnalyzer/MemoryTracer.cpp:92-147 | AddAllocationToList keeps counts equal to record-list lengths and one bucket per size, and the new record is first in its size's bucket |
| `Index.AddRecordTotals` | MemoryAnalyzer/MemoryTracer.cpp:119-146 | recording a block adds its size to the bytes, one to the blocks and its address to the recorded addresses |
| `Index.RemoveRecordShape` | MemoryAnalyzer/MemoryTracer.cpp:269-321 | unlinking keeps the shape, keeps the bucket (even at count 0), leaves the other sizes' buckets alone and lowers the count by one |
| `Index.RemoveRecordCounters` | MemoryAnalyzer/MemoryTracer.cpp:299-320 | unlinking removes the bucket's size from the bytes and one from the blocks |
| `Index.RemoveRecordAddrs` | MemoryAnalyzer/MemoryTracer.cpp:286-308 | unlinking removes exactly one occurrence of the address from the recorded addresses |
| `Index.AddRemoveRoundTrip` | MemoryAnalyzer/MemoryTracer.cpp:92-147 | adding a record then unlinking it restores the list, except that a bucket created for it stays with count 0 |
| `Index.AddKeepsIndexValid` | MemoryAnalyzer/MemoryTracer.cpp:211-218 | recording a fresh block under its new header keeps the index invariant |
| `Index.RemoveKeepsIndexValid` | MemoryAnalyzer/MemoryTracer.cpp:269-321 | unlinking a live block and dropping its header keeps the index invariant |
| `Index.AddedToKeeps` | MemoryAnalyzer/MemoryTracer.cpp:211-230 | Allocate's index update keeps the invariant and adds the size and one block to the totals |
| `Index.RemovedFromKeeps` | MemoryAnalyzer/MemoryTracer.cpp:239-257 | Deallocate's index update keeps the invariant and takes the size and one block off the totals |
| `Index.LiveInOwnKind` | MemoryAnalyzer/MemoryTracer.cpp:211-218 | a live block's record is in the list of the kind its header names |
| `Index.RemovableIffLive` | MemoryAnalyzer/MemoryTracer.cpp:277-297 | RemoveAllocationFromList's assertions hold exactly for a live block whose header names this size and kind |
| `Index.SetInfoKeeps` | MemoryAnalyzer/MemoryTracer.cpp:165-167 | rewriting a record's details keeps its address, every total and the index invariant |
| `TypeList.IndexOfLabel` | MemoryAnalyzer/MemoryTracer.cpp:172-176 | the `strcmp` walk stops at the first entry with the name, or past the end |
| `TypeList.FindLabel` | MemoryAnalyzer/MemoryTracer.cpp:325-329 | the loop finds the first entry with the name or none |
| `TypeList.TypeAddedEffect` | MemoryAnalyzer/MemoryTracer.cpp:170-191 | AddToTypeList gives the name one more block and `size` more bytes, leaves every other name's totals and keeps one entry per name |
| `TypeList.TypeRemovedEffect` | MemoryAnalyzer/MemoryTracer.cpp:323-333 | RemoveFromTypeList takes one block and `size` bytes from the name only; the entry stays |
| `TypeList.TypeAddRemoveRoundTrip` | MemoryAnalyzer/MemoryTracer.cpp:170-191 | adding then removing a type's block restores the list, except that an entry created for it stays at zero |
| `TypeList.VisibleRows` | MemoryAnalyzer/MemoryTracer.cpp:611-625 | a row is shown for an entry exactly when the entry has positive blocks, and a sorted list gives sorted rows |
| `TypeList.VisibleRowsCount` | MemoryAnalyzer/MemoryTracer.cpp:611-625 | each entry with positive blocks is shown as many times as it occurs in the list, and no other entry is shown |
| `TypeList.VisibleRowsAppend` | MemoryAnalyzer/MemoryTracer.cpp:611-625 | the rows of two list segments laid end to end are the rows of the first followed by the rows of the second, so list order is kept |
| `SortList.WithSizeVisible` | MemoryAnalyzer/MemoryTracer.cpp:469-627 | taking the entries of one byte total and then keeping the visible ones gives the same sequence as doing it the other way round |
| `SortList.Merge` | MemoryAnalyzer/MemoryTracer.cpp:541-585 | the merge of two runs is as long as both runs together; that it holds exactly their entries is `SortList.MergePermutes` |
| `SortList.MergePermutes` | MemoryAnalyzer/MemoryTracer.cpp:541-585 | the merge is a permutation of its two runs |
| `SortList.MergeSorted` | MemoryAnalyzer/MemoryTracer.cpp:559-566 | merging two runs sorted by non-increasing memSize gives a sorted run |
| `SortList.MergeStable` | MemoryAnalyzer/MemoryTracer.cpp:559-566 | taking from the left run on ties keeps the order of entries with equal memSize |
| `SortList.MergeRuns` | MemoryAnalyzer/MemoryTracer.cpp:541-585 | the merge loop produces exactly `Merge` of its two runs |
| `SortList.MergePass` | MemoryAnalyzer/MemoryTracer.cpp:517-591 | one pass merges runs of `insize` into runs of `2*insize`, stably permuting the list, and counts at most one merge exactly when the list is one run already |
| `SortList.SortTypes` | MemoryAnalyzer/MemoryTracer.cpp:497-600 | sortList returns the list sorted by non-increasing memSize and a stable permutation of it |
| `SortList.StableSortUnique` | MemoryAnalyzer/MemoryTracer.cpp:497-600 | two sorted stable permutations of one list are equal: the sort result is determined and re-sorting changes nothing |
| `Tracer.RetrieveSound` | MemoryAnalyzer/MemoryTracer.cpp:335-390 | a found record has the address, in a bucket of the hinted size when a size is given |
| `Tracer.RetrieveComplete` | MemoryAnalyzer/MemoryTracer.cpp:335-390 | the lookup succeeds exactly for live blocks (of the hinted size) and finds them in their header's kind |
| `Tracer.FastPathAgrees` | MemoryAnalyzer/MemoryTracer.cpp:154-163 | a record whose address matches is the one the search would find, so the fast path is sound |
| `Tracer.AttributionFindsLive` | MemoryAnalyzer/MemoryTracer.cpp:149-168 | attribution targets the live block's only record; without a size it succeeds exactly for live blocks |
| `Tracer.SizeOfLive` | MemoryAnalyzer/MemoryTracer.cpp:392-424 | the intended size lookup gives a live block's header size and nothing for any other pointer |
| `Tracer.AddrSizeAsWrittenNonzero` | MemoryAnalyzer/MemoryTracer.cpp:392-424 | RetrieveAddrSize as written is right for live blocks of nonzero size and gives -1 for unknown pointers |
| `Tracer.ZeroSizeLookupFails` | MemoryAnalyzer/MemoryTracer.cpp:413-423 | a live zero-byte block is reported as -1, like an unknown pointer |
| `Tracer.ShiftedKeepsRecord` | MemoryAnalyzer/MemoryTracer.cpp:299-308 | unlinking another record leaves the most recent record pointing at the same node |
| `Tracer.AllocateKeepsIndex` | MemoryAnalyzer/MemoryTracer.cpp:211-230 | Allocate keeps the index invariant, raises the totals by the size and one block, and the new record is where the most recent record points |
| `Tracer.DeallocateKeepsIndex` | MemoryAnalyzer/MemoryTracer.cpp:239-257 | Deallocate keeps the index invariant, lowers the totals and keeps the most recent record on the same node |
| `Tracer.DetailsKeepIndex` | MemoryAnalyzer/MemoryTracer.cpp:165-167 | attaching details keeps the invariant, the totals and the addresses |
| `Tracer.RoundTripFacts` | MemoryAnalyzer/MemoryTracer.cpp:108-116 | the fresh record is first in its bucket, typeless, and unlinking it undoes the add |
| `Tracer.RoundTripState` | MemoryAnalyzer/MemoryTracer.cpp:193-257 | after Allocate records a fresh block, Deallocate's assertions hold for it, and unlinking it restores the headers and both lists (a new bucket stays empty) |
| `Tracer.AddressFind` | MemoryAnalyzer/MemoryTracer.cpp:338-379 | the addressFind loops compute the lookup on one list |
| `Tracer.SizeFindLoop` | MemoryAnalyzer/MemoryTracer.cpp:394-414 | the sizeFind loop gives the owning bucket's size, 0 when none |
| `Tracer.MemoryTracer.constructor` | MemoryAnalyzer/MemoryTracer.cpp:13-18 | a new tracer has empty lists, no headers and zero totals |
| `Tracer.MemoryTracer.AddAllocationToList` | MemoryAnalyzer/MemoryTracer.cpp:92-147 | the block is recorded with "Unknown"/0 details in its size's bucket of its kind and becomes the most recent record |
| `Tracer.MemoryTracer.Allocate` | MemoryAnalyzer/MemoryTracer.cpp:193-237 | on malloc failure it throws or returns null and changes nothing; otherwise it writes the header, records the block, adds the size and one block and raises the peaks |
| `Tracer.MemoryTracer.RemoveAllocationFromList` | MemoryAnalyzer/MemoryTracer.cpp:269-321 | unlinks the block's record from its header's size bucket and removes a named type's block from the type list |
| `Tracer.MemoryTracer.Deallocate` | MemoryAnalyzer/MemoryTracer.cpp:239-257 | null changes nothing; otherwise the record and header go, the size and one block leave the totals, and the peaks stay |
| `Tracer.MemoryTracer.AllocateThenFree` | MemoryAnalyzer/MemoryTracer.cpp:193-257 | allocate then free restores headers, totals, types and lists (a new bucket stays empty), and the peaks keep the raise |
| `Tracer.MemoryTracer.RetrieveAddrNode` | MemoryAnalyzer/MemoryTracer.cpp:335-390 | searches the non-array list first, then the array list |
| `Tracer.MemoryTracer.AddAllocationDetails` | MemoryAnalyzer/MemoryTracer.cpp:149-168 | null is a no-op; the matching most recent record or else the found record gets the details and becomes the most recent; a failed lookup changes no record |
| `Tracer.MemoryTracer.SetDetails` | MemoryAnalyzer/MemoryTracer.cpp:165-167 | writing through the most recent record pointer gives that record the file, line and type; the pointer itself, the other records, the totals and the invariant stay |
| `Tracer.MemoryTracer.AddToTypeList` | MemoryAnalyzer/MemoryTracer.cpp:170-191 | the type list becomes `TypeAdded` of the old one |
| `Tracer.MemoryTracer.RemoveFromTypeList` | MemoryAnalyzer/MemoryTracer.cpp:323-333 | the type list becomes `TypeRemoved` of the old one; the name must have an entry |
| `Tracer.MemoryTracer.RetrieveAddrSize` | MemoryAnalyzer/MemoryTracer.cpp:392-424 | returns the as-written size lookup, with 0 read as not found |
| `Tracer.MemoryTracer.RetrieveAddrSizeChecked` | MemoryAnalyzer/MemoryTracer.cpp:392-424 | the corrected lookup gives the live block's header size, or none for any other pointer |
| `Tracer.MemoryTracer.DisplayAllocations` | MemoryAnalyzer/MemoryTracer.cpp:426-467 | the per-kind totals count the live records and add up to the running block count |
| `Tracer.MemoryTracer.DisplayStatTable` | MemoryAnalyzer/MemoryTracer.cpp:469-627 | the type list is replaced by its stable descending sort, and the rows are its entries with positive blocks; for every byte total, the rows of that total are the visible entries of the original list with that total, in their original order |
| `Tracer.MemoryTracer.LeakSweep` | MemoryAnalyzer/MemoryTracer.cpp:20-90 | every live block is listed once; the leak count is the block count and the header count, and the leaked bytes are currentMemory and the groups' sum |
| `Tracer.MemoryTracer.GetCurrentBlocks` | MemoryAnalyzer/MemoryTracer.cpp:635-638 | the current block count is the number of live blocks |
| `Tracer.MemoryTracer.GetCurrentMemory` | MemoryAnalyzer/MemoryTracer.cpp:640-643 | the current memory is the sum of size × count over both lists |
| `Tracer.MemoryTracer.GetPeakBlocks` | MemoryAnalyzer/MemoryTracer.cpp:645-648 | the block peak is at least the number of live blocks |
| `Tracer.MemoryTracer.GetPeakMemory` | MemoryAnalyzer/MemoryTracer.cpp:650-653 | the memory peak is at least the live bytes |
| `MemMngr.SiteOf` | MemoryAnalyzer/MemMngr.cpp:96-106 | a non-empty file is kept with its line; an empty one becomes "Filename unavailable" and 0; a recorded file name is never empty |
| `MemMngr.EntrySite` | MemoryAnalyzer/MemMngr.cpp:343-358 | the plain and nothrow forms record the sentinel site; the (file, line) form records the caller's site unless the file is empty |
| `MemMngr.MemoryManager.constructor` | MemoryAnalyzer/MemMngr.cpp:7-11 | a new manager has empty lists, no headers and zero totals |
| `MemMngr.MemoryManager.AddAllocationToList` | MemoryAnalyzer/MemMngr.cpp:79-139 | the block is recorded with its site in its size's bucket of its kind |
| `MemMngr.MemoryManager.Allocate` | MemoryAnalyzer/MemMngr.cpp:206-246 | on malloc failure it throws or returns null and changes nothing; otherwise it writes the header, records the block with its site, adds the size and raises the peak |
| `MemMngr.MemoryManager.RemoveAllocationFromList` | MemoryAnalyzer/MemMngr.cpp:141-188 | unlinks the block's record from its header's size bucket; the bucket stays |
| `MemMngr.MemoryManager.Deallocate` | MemoryAnalyzer/MemMngr.cpp:248-265 | null changes nothing; otherwise the record and header go, the size leaves currentMemory, and the peak stays |
| `MemMngr.MemoryManager.AllocateThenFree` | MemoryAnalyzer/MemMngr.cpp:206-265 | allocate then free restores headers, currentMemory and lists (a new bucket stays empty), and the peak keeps the raise |
| `MemMngr.MemoryManager.OperatorNew` | MemoryAnalyzer/MemMngr.cpp:343-391 | only the plain form throws; the plain and nothrow forms record the sentinel site, the (file, line) form the caller's |
| `MemMngr.MemoryManager.OperatorDelete` | MemoryAnalyzer/MemMngr.cpp:361-402 | both delete forms are Deallocate |
| `MemMngr.MemoryManager.DisplayAllocations` | MemoryAnalyzer/MemMngr.cpp:267-306 | the per-kind totals count the live records and add up to the number of live blocks |
| `MemMngr.MemoryManager.LeakSweep` | MemoryAnalyzer/MemMngr.cpp:13-77 | every live block is listed once with its site; the leak count is the number of live blocks and the leaked bytes are currentMemory and the groups' sum |
| `MemMngr.MemoryManager.GetCurrentMemory` | MemoryAnalyzer/MemMngr.cpp:308-311 | the current memory is the sum of size × count over both lists |
| `MemMngr.MemoryManager.GetPeakMemory` | MemoryAnalyzer/MemMngr.cpp:313-316 | the peak is at least the live bytes |

## Left out

- Console output, the `memleaks.log` dump file, the `showAllAllocs`/`showAllDeallocs`/`dumpLeaksToFile` flags and the keyboard waits are I/O. The reports are modelled by the counts, groups and records they print.
- The kilobyte/megabyte figures and the statistics-table percentages are floating point and are not modelled.
- `HeapCheck` is a wrapper over the platform's `_heapchk` and is not modelled.
- The `Get()` singletons are not modelled. Each class is used through one object.
- MemoryTracer's `operator new`/`delete` overloads (MemoryTracer.cpp:680-728) only forward to `Allocate` and `Deallocate` with `throwEx`, so they are not modelled separately.
- `malloc`, `free` and the header pointer arithmetic are not modelled. A block is a fresh non-null `Address`, and its header is an entry of the `headers` map.
- `size_t` arithmetic is unbounded integers. Wrap-around of `currentMemory` and of the `cmp` subtraction's conversion to `int` (MemoryTracer.cpp:501) is not modelled; the sort compares byte totals as integers.
- RetrieveAddrSize's result `-1` is the integer -1, not `SIZE_MAX`.
- `mostRecentAllocAddrNode` is a location in the index, `Option<Loc>`:
  - it starts as `None`, where the source leaves it uninitialised;
  - it becomes `None` when its own record is freed, where the source keeps a dangling pointer;
  - it becomes `None` after a failed lookup, where the source keeps a null pointer.
- Tracer.MemoryTracer.AddAllocationDetails: with `mostRecent` `None`, the model goes straight to the search. The source reads through the null or dangling pointer there, which is undefined.
- The tracer's type names are strings compared by value. The source compares the `unknown` marker by pointer identity (MemoryTracer.cpp:315); the model writes it as `typeName == None`.
- AddAllocationDetails does not call AddToTypeList in this code. The two stay separate operations, so the type list is not tied to the attributed records.
- Tracer.MemoryTracer.Valid does not include one entry per type name. AddToTypeList and RemoveFromTypeList keep that property (TypeAddedEffect, TypeRemovedEffect), but it is not carried through the sort.
- The header `MemMngr.h` is not part of this model. The default `throwEx = false` of MemoryManager::Allocate is read from the comments of the nothrow and (file, line) overloads.
- A C string is modelled up to its terminating NUL, so the entry points' `"\0"` is the empty string.

## Findings

| source | as written | input that shows it | evidently intended | confidence | as-written member | corrected member |
|---|---|---|---|---|---|---|
| MemoryAnalyzer/MemoryTracer.cpp:413-423 | `sizeFind` returns 0 both for "not found" and for a block in the size-0 bucket, and RetrieveAddrSize treats 0 as not found | `new` of 0 bytes: a live block of size 0 makes RetrieveAddrSize return -1, as for a pointer never allocated | report size 0 for a live zero-byte block and -1 only for unknown pointers | not executed | `Tracer.ZeroSizeLookupFails` | `Tracer.MemoryTracer.RetrieveAddrSizeChecked` |
