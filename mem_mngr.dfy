/**
 * MemoryManager: the earlier engine behind the global operator new/delete overloads.
 * It keeps the same size-bucketed index of live blocks as MemoryTracer, but each
 * address record carries the allocation site (file and line) from the moment the
 * block is recorded, and the only running totals are the live and peak byte counts.
 */
module MemMngr {
  import opened Index

  /** The file name recorded when the caller's file name is empty. */
  const FilenameUnavailable: string := "Filename unavailable"

  /** The details of a MemoryManager address record: where the block was allocated. */
  datatype SiteInfo = SiteInfo(file: string, line: int)

  type Sites = seq<MemInfo<SiteInfo>>

  /**
   * The site recorded for a caller's file and line: a non-empty file name is kept with
   * its line; an empty one means the site is unknown and records the sentinel and
   * line 0. A recorded file name is never empty.
   */
  function SiteOf(file: string, line: int): (s: SiteInfo)
    ensures |s.file| > 0
    ensures |file| > 0 ==> s == SiteInfo(file, line)
    ensures |file| == 0 ==> s.file == FilenameUnavailable && s.line == 0
  {
    if |file| == 0 then SiteInfo(FilenameUnavailable, 0) else SiteInfo(file, line)
  }

  /**
   * The overloads of operator new and new[]: the plain form, the std::nothrow form
   * and the form that takes the caller's file and line.
   */
  datatype NewForm = Plain | NoThrow | AtSite(file: string, line: int)

  /** The file, line and throwEx an overload passes to Allocate (`"\0"` is the empty C string). */
  function EntryArgs(form: NewForm): (string, int, bool)
  {
    match form
    case Plain => ("", 0, true)
    case NoThrow => ("", 0, false)
    case AtSite(file, line) => (file, line, false)
  }

  /**
   * The site an overload's record gets: the plain and nothrow forms always record the
   * sentinel, the (file, line) form the caller's site unless its file name is empty.
   */
  function EntrySite(form: NewForm): (s: SiteInfo)
    ensures !form.AtSite? ==> s == SiteInfo(FilenameUnavailable, 0)
    ensures form.AtSite? && |form.file| > 0 ==> s == SiteInfo(form.file, form.line)
    ensures form.AtSite? && |form.file| == 0 ==> s == SiteInfo(FilenameUnavailable, 0)
  {
    var (file, line, _) := EntryArgs(form);
    SiteOf(file, line)
  }

  class MemoryManager {
    var headNew: Sites
    var headNewArray: Sites
    /** The AllocationHeader in front of every live block, by the block's address. */
    var headers: map<Address, Header>
    var currentMemory: int
    var peakMemory: int

    /**
     * The manager's invariant: the index matches the live headers, the live byte count
     * is the sum over the buckets and the peak bounds it.
     */
    ghost predicate Valid()
      reads this
    {
      && IndexValid(headNew, headNewArray, headers)
      && currentMemory == Bytes(headNew) + Bytes(headNewArray)
      && currentMemory <= peakMemory
    }

    constructor()
      ensures Valid()
      ensures headNew == [] && headNewArray == [] && headers == map[]
      ensures currentMemory == 0 && peakMemory == 0
    {
      headNew, headNewArray, headers := [], [], map[];
      currentMemory, peakMemory := 0, 0;
      new;
      assert multiset(headers.Keys) == multiset{};
    }

    /**
     * AddAllocationToList: records `ptr` with its site in the bucket of `size` of its
     * kind's list, creating the bucket at the front of the list when missing.
     */
    method AddAllocationToList(size: nat, kind: AllocKind, ptr: Address, file: string, line: int)
      modifies this`headNew, this`headNewArray
      ensures (headNew, headNewArray) == AddedTo(kind, old(headNew), old(headNewArray), size, AddrNode(ptr, SiteOf(file, line)))
    {
      var l := Pick(kind, headNew, headNewArray);
      var i := FindBucket(l, size);
      var site;
      if |file| == 0 {
        site := SiteInfo(FilenameUnavailable, 0);
      } else {
        site := SiteInfo(file, line);
      }
      var rec := AddrNode(ptr, site);
      if i < |l| {
        l := l[i := PushRecord(l[i], rec)];
      } else {
        l := [MemInfo(size, 1, [rec])] + l;
      }
      if kind == AllocNew {
        headNew := l;
      } else {
        headNewArray := l;
      }
    }

    /**
     * Allocate: when the underlying allocation fails, throws or returns null (as
     * `throwEx` asks) and changes nothing; otherwise writes the header, records the
     * block with its site, adds its size to the live bytes and raises the peak.
     * `mallocFailed` and `block` stand for malloc's outcome.
     */
    method Allocate(size: nat, kind: AllocKind, file: string, line: int, throwEx: bool, mallocFailed: bool, block: Address)
      returns (outcome: AllocOutcome)
      requires Valid()
      requires !mallocFailed ==> block != Null && block !in headers
      modifies this
      ensures Valid()
      ensures mallocFailed ==> outcome == (if throwEx then ThrowsBadAlloc else ReturnedNull)
      ensures mallocFailed ==> unchanged(this)
      ensures !mallocFailed ==>
        && outcome == Returned(block)
        && headers == old(headers)[block := Header(size, kind)]
        && (headNew, headNewArray) == AddedTo(kind, old(headNew), old(headNewArray), size, AddrNode(block, SiteOf(file, line)))
        && currentMemory == old(currentMemory) + size
        && peakMemory == Raised(old(peakMemory), currentMemory)
    {
      if mallocFailed {
        if throwEx {
          return ThrowsBadAlloc;
        } else {
          return ReturnedNull;
        }
      }
      AddedToKeeps(headNew, headNewArray, headers, kind, size, AddrNode(block, SiteOf(file, line)));
      headers := headers[block := Header(size, kind)];
      AddAllocationToList(size, kind, block, file, line);
      currentMemory := currentMemory + size;
      if currentMemory > peakMemory {
        peakMemory := currentMemory;
      }
      return Returned(block);
    }

    /**
     * RemoveAllocationFromList: unlinks the record of `ptr` from the bucket its header's
     * size names in the given kind's list and takes one from the bucket's count (the
     * bucket stays, possibly empty). The requirements are the source's assertions.
     */
    method RemoveAllocationFromList(ptr: Address, kind: AllocKind)
      requires ptr in headers
      requires Removable(Pick(kind, headNew, headNewArray), headers[ptr].rawSize, ptr)
      modifies this`headNew, this`headNewArray
      ensures (headNew, headNewArray) == RemovedFrom(kind, old(headNew), old(headNewArray), headers[ptr].rawSize, ptr)
    {
      var l := Pick(kind, headNew, headNewArray);
      var size := headers[ptr].rawSize;
      var i := FindBucket(l, size);
      IndexOfSizeIs(l, size, i);
      var j := FindAddress(l[i].addresses, ptr);
      IndexOfAddrIs(l[i].addresses, ptr, j);
      l := l[i := DropRecord(l[i], j)];
      if kind == AllocNew {
        headNew := l;
      } else {
        headNewArray := l;
      }
    }

    /**
     * Deallocate: a null pointer changes nothing; otherwise the block's record is
     * unlinked and its header's size leaves the live bytes (the peak stays). The
     * requirements are RemoveAllocationFromList's assertions.
     */
    method Deallocate(ptr: Address, kind: AllocKind, throwEx: bool)
      requires Valid()
      requires ptr != Null ==> ptr in headers && Removable(Pick(kind, headNew, headNewArray), headers[ptr].rawSize, ptr)
      modifies this
      ensures Valid()
      ensures ptr == Null ==> unchanged(this)
      ensures ptr != Null ==>
        && headers == old(headers) - {ptr}
        && (headNew, headNewArray) == RemovedFrom(kind, old(headNew), old(headNewArray), old(headers)[ptr].rawSize, ptr)
        && currentMemory == old(currentMemory) - old(headers)[ptr].rawSize
        && peakMemory == old(peakMemory)
    {
      if ptr != Null {
        var size := headers[ptr].rawSize;
        RemovedFromKeeps(headNew, headNewArray, headers, kind, ptr);
        RemoveAllocationFromList(ptr, kind);
        currentMemory := currentMemory - size;
        headers := headers - {ptr};
      }
    }

    /**
     * Allocating a block and freeing it again restores the headers, the live bytes and
     * the index, except that a bucket created for the block's size stays behind with
     * no records; the peak keeps whatever the allocation raised it to.
     */
    method AllocateThenFree(size: nat, kind: AllocKind, file: string, line: int, block: Address)
      requires Valid() && block != Null && block !in headers
      modifies this
      ensures Valid()
      ensures headers == old(headers)
      ensures var l := old(Pick(kind, headNew, headNewArray));
        Pick(kind, headNew, headNewArray) == (if IndexOfSize(l, size) < |l| then l else [MemInfo(size, 0, [])] + l)
      ensures kind == AllocNew ==> headNewArray == old(headNewArray)
      ensures kind == AllocNewArray ==> headNew == old(headNew)
      ensures currentMemory == old(currentMemory)
      ensures peakMemory == Raised(old(peakMemory), old(currentMemory) + size)
    {
      ghost var l0 := Pick(kind, headNew, headNewArray);
      ghost var rec := AddrNode(block, SiteOf(file, line));
      AddRemoveRoundTrip(l0, size, rec);
      var outcome := Allocate(size, kind, file, line, false, false, block);
      ghost var l1 := Pick(kind, headNew, headNewArray);
      assert l1 == AddRecord(l0, size, rec);
      assert headers[block].rawSize == size;
      Deallocate(block, kind, false);
      assert Pick(kind, headNew, headNewArray) == RemoveRecord(l1, size, block);
      MapAddRemove(old(headers), block, Header(size, kind));
    }

    /**
     * The operator new / new[] overloads: each calls Allocate with its EntryArgs, so
     * only the plain form throws, and the plain and nothrow forms record the sentinel
     * site while the (file, line) form records the caller's.
     */
    method OperatorNew(form: NewForm, size: nat, kind: AllocKind, mallocFailed: bool, block: Address)
      returns (outcome: AllocOutcome)
      requires Valid()
      requires !mallocFailed ==> block != Null && block !in headers
      modifies this
      ensures Valid()
      ensures mallocFailed ==> outcome == (if form == Plain then ThrowsBadAlloc else ReturnedNull) && unchanged(this)
      ensures !mallocFailed ==>
        && outcome == Returned(block)
        && headers == old(headers)[block := Header(size, kind)]
        && (headNew, headNewArray) == AddedTo(kind, old(headNew), old(headNewArray), size, AddrNode(block, EntrySite(form)))
        && currentMemory == old(currentMemory) + size
        && peakMemory == Raised(old(peakMemory), currentMemory)
    {
      var (file, line, throwEx) := EntryArgs(form);
      outcome := Allocate(size, kind, file, line, throwEx, mallocFailed, block);
    }

    /**
     * The operator delete / delete[] overloads: the plain form passes throwEx and the
     * nothrow form does not, which Deallocate does not consult.
     */
    method OperatorDelete(ptr: Address, kind: AllocKind, nothrow: bool)
      requires Valid()
      requires ptr != Null ==> ptr in headers && Removable(Pick(kind, headNew, headNewArray), headers[ptr].rawSize, ptr)
      modifies this
      ensures Valid()
      ensures ptr == Null ==> unchanged(this)
      ensures ptr != Null ==>
        && headers == old(headers) - {ptr}
        && (headNew, headNewArray) == RemovedFrom(kind, old(headNew), old(headNewArray), old(headers)[ptr].rawSize, ptr)
        && currentMemory == old(currentMemory) - old(headers)[ptr].rawSize
        && peakMemory == old(peakMemory)
    {
      Deallocate(ptr, kind, !nothrow);
    }

    /**
     * DisplayAllocations: the numbers of live non-array and array blocks; together
     * they are the number of live blocks.
     */
    method DisplayAllocations() returns (totalNew: int, totalArray: int)
      requires Valid()
      ensures totalNew == |LiveAddrs(headNew)| && totalArray == |LiveAddrs(headNewArray)|
      ensures totalNew + totalArray == |headers|
    {
      totalNew := CountLive(headNew);
      totalArray := CountLive(headNewArray);
      LiveCountIsBlocks(headNew);
      LiveCountIsBlocks(headNewArray);
      BlocksAreRecords(headNew);
      BlocksAreRecords(headNewArray);
      assert |multiset(headers.Keys)| == |headers.Keys|;
    }

    /**
     * The teardown sweep: one leak group per bucket with live blocks, non-array list
     * first, each followed by its records and their sites; every live block is listed
     * exactly once, the leak count is the number of live blocks, and the bytes
     * reported leaked are the live bytes, which the groups add up to.
     */
    method LeakSweep()
      returns (groupsNew: seq<LeakGroup>, groupsArray: seq<LeakGroup>,
               leakedNew: seq<AddrNode<SiteInfo>>, leakedArray: seq<AddrNode<SiteInfo>>,
               totalLeaks: int, leakedBytes: int)
      requires Valid()
      ensures groupsNew == LeakGroups(headNew, AllocNew) && groupsArray == LeakGroups(headNewArray, AllocNewArray)
      ensures leakedNew == LeakedRecords(headNew) && leakedArray == LeakedRecords(headNewArray)
      ensures RecAddrs(leakedNew) + RecAddrs(leakedArray) == multiset(headers.Keys)
      ensures totalLeaks == GroupCount(groupsNew) + GroupCount(groupsArray) == |headers|
      ensures leakedBytes == currentMemory == GroupBytes(groupsNew) + GroupBytes(groupsArray)
    {
      var n1, n2;
      groupsNew, leakedNew, n1 := SweepList(headNew, AllocNew);
      groupsArray, leakedArray, n2 := SweepList(headNewArray, AllocNewArray);
      totalLeaks := n1 + n2;
      leakedBytes := currentMemory;
      LeakedRecordsAddrs(headNew);
      LeakedRecordsAddrs(headNewArray);
      LeakGroupsTotals(headNew, AllocNew);
      LeakGroupsTotals(headNewArray, AllocNewArray);
      LiveCountIsBlocks(headNew);
      LiveCountIsBlocks(headNewArray);
      BlocksAreRecords(headNew);
      BlocksAreRecords(headNewArray);
      assert |multiset(headers.Keys)| == |headers.Keys|;
    }

    /** GetCurrentMemory: the bytes of all live blocks. */
    function GetCurrentMemory(): (r: int)
      requires Valid()
      reads this
      ensures r == Bytes(headNew) + Bytes(headNewArray)
    {
      currentMemory
    }

    /** GetPeakMemory: never below the bytes of all live blocks. */
    function GetPeakMemory(): (r: int)
      requires Valid()
      reads this
      ensures r >= Bytes(headNew) + Bytes(headNewArray)
    {
      peakMemory
    }
  }
}
