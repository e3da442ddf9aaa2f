/**
 * MemoryTracer: the engine behind the global operator new/delete overloads. It keeps
 * the size-bucketed index of live blocks (one list per allocation kind), a header per
 * block, running and peak totals of bytes and blocks, a pointer to the most recently
 * recorded address record (for attaching file/line/type details right after an
 * allocation) and a per-type aggregate list for the statistics table.
 */
module Tracer {
  import opened Index
  import opened TypeList
  import opened SortList

  /** The name every fresh record starts with for its file (the `unknown` member). */
  const Unknown: string := "Unknown"

  /**
   * The details of a MemoryTracer address record. `typeName == None` is the tracer's
   * shared `unknown` string, which RemoveAllocationFromList recognises by identity.
   */
  datatype TraceInfo = TraceInfo(typeName: Option<string>, file: string, line: int)

  /** The details of a record just added by AddAllocationToList. */
  const NoDetails: TraceInfo := TraceInfo(None, Unknown, 0)

  /** Where an address record sits: its kind's list, the bucket and the position in the bucket. */
  datatype Loc = Loc(kind: AllocKind, bucket: nat, index: nat)

  type Buckets = seq<MemInfo<TraceInfo>>

  predicate ValidLoc(lNew: Buckets, lArr: Buckets, loc: Loc)
  {
    var l := Pick(loc.kind, lNew, lArr);
    loc.bucket < |l| && loc.index < |l[loc.bucket].addresses|
  }

  /** The record at a location. */
  function RecordAt(lNew: Buckets, lArr: Buckets, loc: Loc): AddrNode<TraceInfo>
    requires ValidLoc(lNew, lArr, loc)
  {
    Pick(loc.kind, lNew, lArr)[loc.bucket].addresses[loc.index]
  }

  // ---------------------------------------------------------------------------
  // RetrieveAddrNode

  /**
   * addressFind on one list: with an unknown object size every bucket is searched in
   * order; with a known size only the first bucket of that size is searched.
   */
  function FindIn(kind: AllocKind, l: Buckets, ptr: Address, objectSize: Option<nat>): Option<Loc>
  {
    match objectSize
    case None =>
      var i := IndexOfOwner(l, ptr);
      if i < |l| then Some(Loc(kind, i, IndexOfAddr(l[i].addresses, ptr))) else None
    case Some(s) =>
      var i := IndexOfSize(l, s);
      if i < |l| && Holds(l[i], ptr) then Some(Loc(kind, i, IndexOfAddr(l[i].addresses, ptr))) else None
  }

  /** RetrieveAddrNode: the non-array list is searched first, then the array list. */
  function Retrieve(lNew: Buckets, lArr: Buckets, ptr: Address, objectSize: Option<nat>): Option<Loc>
  {
    var r := FindIn(AllocNew, lNew, ptr, objectSize);
    if r.Some? then r else FindIn(AllocNewArray, lArr, ptr, objectSize)
  }

  /** A found location holds a record of `ptr`, in a bucket of the requested size when one was given. */
  lemma RetrieveSound(lNew: Buckets, lArr: Buckets, ptr: Address, objectSize: Option<nat>)
    ensures var r := Retrieve(lNew, lArr, ptr, objectSize);
      r.Some? ==>
        && ValidLoc(lNew, lArr, r.value)
        && RecordAt(lNew, lArr, r.value).address == ptr
        && (objectSize.Some? ==> Pick(r.value.kind, lNew, lArr)[r.value.bucket].size == objectSize.value)
  {
  }

  /**
   * Under the index invariant the lookup succeeds exactly for live blocks (and, when a
   * size is given, exactly for live blocks of that size), and finds the block in the
   * list of the kind its header names.
   */
  lemma RetrieveComplete(lNew: Buckets, lArr: Buckets, headers: map<Address, Header>, ptr: Address,
                         objectSize: Option<nat>)
    requires IndexValid(lNew, lArr, headers)
    ensures var r := Retrieve(lNew, lArr, ptr, objectSize);
      && (r.Some? <==> ptr in headers && (objectSize.Some? ==> headers[ptr].rawSize == objectSize.value))
      && (r.Some? ==> r.value.kind == headers[ptr].kind)
  {
    var r := Retrieve(lNew, lArr, ptr, objectSize);
    if r.Some? {
      var loc := r.value;
      var l := Pick(loc.kind, lNew, lArr);
      assert HeadersAgree(l, loc.kind, headers);
      assert l[loc.bucket].addresses[loc.index].address == ptr;
    }
    if ptr in headers && (objectSize.Some? ==> headers[ptr].rawSize == objectSize.value) {
      var kind := headers[ptr].kind;
      var l := Pick(kind, lNew, lArr);
      LiveInOwnKind(lNew, lArr, headers, ptr);
      LiveAddrsOwner(l, ptr);
      var o := IndexOfOwner(l, ptr);
      var j := IndexOfAddr(l[o].addresses, ptr);
      assert l[o].addresses[j].address == ptr;
      if objectSize.Some? {
        assert HeadersAgree(l, kind, headers);
        IndexOfSizeIs(l, objectSize.value, o);
      }
      assert FindIn(kind, l, ptr, objectSize).Some?;
    }
  }

  /**
   * A live address has one record: any record of `ptr` is the one the lookup without a
   * size finds. This is why AddAllocationDetails may take the most recent record when
   * its address matches instead of searching.
   */
  lemma FastPathAgrees(lNew: Buckets, lArr: Buckets, headers: map<Address, Header>, loc: Loc, ptr: Address)
    requires IndexValid(lNew, lArr, headers)
    requires ValidLoc(lNew, lArr, loc) && RecordAt(lNew, lArr, loc).address == ptr
    ensures Retrieve(lNew, lArr, ptr, None) == Some(loc)
  {
    var l := Pick(loc.kind, lNew, lArr);
    LiveAddrsHas(l, loc.bucket, loc.index);
    assert ptr in multiset(headers.Keys);
    RetrieveSound(lNew, lArr, ptr, None);
    RetrieveComplete(lNew, lArr, headers, ptr, None);
    var found := Retrieve(lNew, lArr, ptr, None).value;
    assert multiset(headers.Keys)[ptr] == 1;
    assert found.kind == loc.kind by {
      if found.kind != loc.kind {
        LiveAddrsHas(Pick(found.kind, lNew, lArr), found.bucket, found.index);
      }
    }
    assert (found.bucket, found.index) == (loc.bucket, loc.index) by {
      if (found.bucket, found.index) != (loc.bucket, loc.index) {
        LiveAddrsTwice(l, found.bucket, found.index, loc.bucket, loc.index);
      }
    }
  }

  // ---------------------------------------------------------------------------
  // RetrieveAddrSize

  /** sizeFind on one list: the size of the first bucket holding `ptr`, 0 when none does. */
  function SizeFind(l: Buckets, ptr: Address): nat
  {
    var i := IndexOfOwner(l, ptr);
    if i < |l| then l[i].size else 0
  }

  /**
   * RetrieveAddrSize as written: a result of 0 from the non-array list is taken as
   * "not found" and the array list is searched; a final 0 becomes -1 (SIZE_MAX).
   */
  function AddrSizeAsWritten(lNew: Buckets, lArr: Buckets, ptr: Address): int
  {
    var s := SizeFind(lNew, ptr);
    if s != 0 then s
    else
      var s2 := SizeFind(lArr, ptr);
      if s2 != 0 then s2 else -1
  }

  /** The intended lookup: the size of the block's bucket, or no size for an unknown pointer. */
  function AddrSize(lNew: Buckets, lArr: Buckets, ptr: Address): Option<nat>
  {
    var r := Retrieve(lNew, lArr, ptr, None);
    if r.Some? then Some(Pick(r.value.kind, lNew, lArr)[r.value.bucket].size) else None
  }

  /** The size of a live block is the size its header records. */
  lemma SizeOfLive(lNew: Buckets, lArr: Buckets, headers: map<Address, Header>, ptr: Address)
    requires IndexValid(lNew, lArr, headers)
    ensures AddrSize(lNew, lArr, ptr) == if ptr in headers then Some(headers[ptr].rawSize) else None
  {
    RetrieveComplete(lNew, lArr, headers, ptr, None);
    var r := Retrieve(lNew, lArr, ptr, None);
    if r.Some? {
      var loc := r.value;
      var l := Pick(loc.kind, lNew, lArr);
      assert HeadersAgree(l, loc.kind, headers);
      assert l[loc.bucket].addresses[loc.index].address == ptr;
    }
  }

  /** The as-written lookup agrees with the intended one on every live block of nonzero size. */
  lemma AddrSizeAsWrittenNonzero(lNew: Buckets, lArr: Buckets, headers: map<Address, Header>, ptr: Address)
    requires IndexValid(lNew, lArr, headers)
    ensures ptr in headers && headers[ptr].rawSize != 0 ==> AddrSizeAsWritten(lNew, lArr, ptr) == headers[ptr].rawSize
    ensures ptr !in headers ==> AddrSizeAsWritten(lNew, lArr, ptr) == -1
  {
    SizeOfLive(lNew, lArr, headers, ptr);
    if ptr in headers {
      var kind := headers[ptr].kind;
      var l := Pick(kind, lNew, lArr);
      LiveInOwnKind(lNew, lArr, headers, ptr);
      LiveAddrsOwner(l, ptr);
      var o := IndexOfOwner(l, ptr);
      var j := IndexOfAddr(l[o].addresses, ptr);
      assert l[o].addresses[j].address == ptr;
      assert HeadersAgree(l, kind, headers);
      if kind == AllocNewArray && headers[ptr].rawSize != 0 {
        LiveAddrsOwner(lNew, ptr);
        if IndexOfOwner(lNew, ptr) < |lNew| {
          RetrieveSound(lNew, lArr, ptr, None);
          RetrieveComplete(lNew, lArr, headers, ptr, None);
        }
      }
    } else {
      RetrieveComplete(lNew, lArr, headers, ptr, None);
      LiveAddrsOwner(lNew, ptr);
      LiveAddrsOwner(lArr, ptr);
      assert ptr !in multiset(headers.Keys);
    }
  }

  /**
   * A zero-byte block (operator new(0) hands out a distinct non-null block) is reported
   * as unknown: the as-written lookup returns -1 for it, the same as for a pointer that
   * was never allocated, while the intended lookup returns its size 0.
   */
  lemma ZeroSizeLookupFails()
    ensures var lNew: Buckets := [MemInfo(0, 1, [AddrNode(1, NoDetails)])];
      var headers := map[1 := Header(0, AllocNew)];
      && IndexValid(lNew, [], headers)
      && AddrSizeAsWritten(lNew, [], 1) == -1
      && AddrSizeAsWritten(lNew, [], 2) == -1
      && AddrSize(lNew, [], 1) == Some(0)
  {
    var lNew: Buckets := [MemInfo(0, 1, [AddrNode(1, NoDetails)])];
    var headers := map[1 := Header(0, AllocNew)];
    assert headers.Keys == {1};
    assert multiset(headers.Keys) == multiset{1};
    assert lNew[1..] == [] && lNew[0].addresses[1..] == [];
    assert RecAddrs(lNew[0].addresses) == multiset{1};
    assert LiveAddrs(lNew) == multiset{1};
    assert Holds(lNew[0], 1);
  }

  // ---------------------------------------------------------------------------
  // RemoveAllocationFromList and the most recent record

  /** The details of the record RemoveAllocationFromList unlinks. */
  function RemovedInfo(l: Buckets, size: nat, ptr: Address): TraceInfo
    requires Removable(l, size, ptr)
  {
    var i := IndexOfSize(l, size);
    l[i].addresses[IndexOfAddr(l[i].addresses, ptr)].info
  }

  /** The assertion of RemoveFromTypeList for a record: a named type has an entry. */
  predicate TypeRemovable(types: seq<TypeNode>, info: TraceInfo)
  {
    info.typeName.Some? ==> IndexOfLabel(types, info.typeName.value) < |types|
  }

  /** The type list after unlinking a record: a named type loses the block, `unknown` changes nothing. */
  function TypesAfterRemoval(types: seq<TypeNode>, info: TraceInfo, size: nat): seq<TypeNode>
    requires TypeRemovable(types, info)
  {
    if info.typeName.Some? then TypeRemoved(types, info.typeName.value, size) else types
  }

  /**
   * The most recent record after record `j` of bucket `i` of `kind` is unlinked: it is
   * the same node, one place nearer the front when it sat behind the unlinked one; when
   * it is the unlinked node itself it no longer designates a record.
   */
  function Shifted(m: Option<Loc>, kind: AllocKind, i: nat, j: nat): Option<Loc>
  {
    match m
    case None => None
    case Some(loc) =>
      if loc.kind != kind || loc.bucket != i || loc.index < j then m
      else if loc.index == j then None
      else Some(loc.(index := loc.index - 1))
  }

  /** Unlinking a record leaves every other record where Shifted says, unchanged. */
  lemma ShiftedKeepsRecord(lNew: Buckets, lArr: Buckets, kind: AllocKind, size: nat, ptr: Address, loc: Loc)
    requires Removable(Pick(kind, lNew, lArr), size, ptr)
    requires ValidLoc(lNew, lArr, loc)
    ensures var l := Pick(kind, lNew, lArr);
      var i := IndexOfSize(l, size);
      var j := IndexOfAddr(l[i].addresses, ptr);
      var r := RemoveRecord(l, size, ptr);
      var lNew', lArr' := if kind == AllocNew then r else lNew, if kind == AllocNew then lArr else r;
      var m := Shifted(Some(loc), kind, i, j);
      m.Some? ==> ValidLoc(lNew', lArr', m.value) && RecordAt(lNew', lArr', m.value) == RecordAt(lNew, lArr, loc)
  {
    var l := Pick(kind, lNew, lArr);
    var i := IndexOfSize(l, size);
    var j := IndexOfAddr(l[i].addresses, ptr);
    var r := RemoveRecord(l, size, ptr);
    assert r == l[i := DropRecord(l[i], j)];
    if loc.kind == kind && loc.bucket == i && loc.index != j {
      DropKeepsOthers(l[i].addresses, j, loc.index);
    }
  }

  /** Unlinking element j of a list moves the elements behind it one place forward. */
  lemma DropKeepsOthers<T>(a: seq<T>, j: nat, k: nat)
    requires j < |a| && k < |a| && k != j
    ensures k < j ==> (a[..j] + a[j + 1..])[k] == a[k]
    ensures k > j ==> (a[..j] + a[j + 1..])[k - 1] == a[k]
  {
  }

  /**
   * Allocate's effect on the index: recording a fresh block keeps the invariant, adds
   * its size and one block to the totals, and the new record is where the most recent
   * record is set to point.
   */
  lemma AllocateKeepsIndex(lNew: Buckets, lArr: Buckets, headers: map<Address, Header>,
                           kind: AllocKind, size: nat, rec: AddrNode<TraceInfo>,
                           lNew': Buckets, lArr': Buckets, loc: Loc)
    requires IndexValid(lNew, lArr, headers)
    requires rec.address != Null && rec.address !in headers
    requires (lNew', lArr') == AddedTo(kind, lNew, lArr, size, rec)
    requires loc == Loc(kind, IndexOfSize(Pick(kind, lNew', lArr'), size), 0)
    ensures IndexValid(lNew', lArr', headers[rec.address := Header(size, kind)])
    ensures Bytes(lNew') + Bytes(lArr') == Bytes(lNew) + Bytes(lArr) + size
    ensures Blocks(lNew') + Blocks(lArr') == Blocks(lNew) + Blocks(lArr) + 1
    ensures ValidLoc(lNew', lArr', loc) && RecordAt(lNew', lArr', loc) == rec
  {
    AddedToKeeps(lNew, lArr, headers, kind, size, rec);
    AddRecordShape(Pick(kind, lNew, lArr), size, rec);
  }

  /**
   * Deallocate's effect on the index: unlinking a live block keeps the invariant, takes
   * its size and one block from the totals, and the shifted most recent record is still
   * a record of the index, the same one as before.
   */
  lemma DeallocateKeepsIndex(lNew: Buckets, lArr: Buckets, headers: map<Address, Header>,
                             kind: AllocKind, ptr: Address, m: Option<Loc>,
                             lNew': Buckets, lArr': Buckets, m': Option<Loc>)
    requires IndexValid(lNew, lArr, headers)
    requires ptr in headers && Removable(Pick(kind, lNew, lArr), headers[ptr].rawSize, ptr)
    requires m.Some? ==> ValidLoc(lNew, lArr, m.value)
    requires (lNew', lArr') == RemovedFrom(kind, lNew, lArr, headers[ptr].rawSize, ptr)
    requires var l := Pick(kind, lNew, lArr);
      var i := IndexOfSize(l, headers[ptr].rawSize);
      m' == Shifted(m, kind, i, IndexOfAddr(l[i].addresses, ptr))
    ensures IndexValid(lNew', lArr', headers - {ptr})
    ensures Bytes(lNew') + Bytes(lArr') == Bytes(lNew) + Bytes(lArr) - headers[ptr].rawSize
    ensures Blocks(lNew') + Blocks(lArr') == Blocks(lNew) + Blocks(lArr) - 1
    ensures m'.Some? ==> m.Some? && ValidLoc(lNew', lArr', m'.value) && RecordAt(lNew', lArr', m'.value) == RecordAt(lNew, lArr, m.value)
  {
    var size := headers[ptr].rawSize;
    RemovedFromKeeps(lNew, lArr, headers, kind, ptr);
    if m.Some? {
      ShiftedKeepsRecord(lNew, lArr, kind, size, ptr, m.value);
    }
  }

  /** The lists after the record at `loc` is given the details `d`. */
  function DetailsAt(lNew: Buckets, lArr: Buckets, loc: Loc, d: TraceInfo): (Buckets, Buckets)
    requires ValidLoc(lNew, lArr, loc)
  {
    if loc.kind == AllocNew then (SetInfo(lNew, loc.bucket, loc.index, d), lArr)
    else (lNew, SetInfo(lArr, loc.bucket, loc.index, d))
  }

  /**
   * Attaching details to a record keeps the index invariant, every total and every
   * address; the record at `loc` keeps its address and carries the new details.
   */
  lemma DetailsKeepIndex(lNew: Buckets, lArr: Buckets, headers: map<Address, Header>, loc: Loc, d: TraceInfo)
    requires ValidLoc(lNew, lArr, loc)
    ensures var (lNew', lArr') := DetailsAt(lNew, lArr, loc, d);
      && (IndexValid(lNew, lArr, headers) ==> IndexValid(lNew', lArr', headers))
      && Bytes(lNew') == Bytes(lNew) && Bytes(lArr') == Bytes(lArr)
      && Blocks(lNew') == Blocks(lNew) && Blocks(lArr') == Blocks(lArr)
      && LiveAddrs(lNew') == LiveAddrs(lNew) && LiveAddrs(lArr') == LiveAddrs(lArr)
      && ValidLoc(lNew', lArr', loc)
      && RecordAt(lNew', lArr', loc) == AddrNode(RecordAt(lNew, lArr, loc).address, d)
  {
    if loc.kind == AllocNew {
      SetInfoKeeps(lNew, loc.bucket, loc.index, d, AllocNew, headers);
    } else {
      SetInfoKeeps(lArr, loc.bucket, loc.index, d, AllocNewArray, headers);
    }
  }

  /** The record Allocate adds is the first of its bucket, has no type, and unlinking it undoes the add. */
  lemma RoundTripFacts(l: Buckets, size: nat, block: Address)
    requires CountsMatch(l) && SizesDistinct(l)
    ensures var l1 := AddRecord(l, size, AddrNode(block, NoDetails));
      var i := IndexOfSize(l1, size);
      && Removable(l1, size, block)
      && IndexOfAddr(l1[i].addresses, block) == 0
      && RemovedInfo(l1, size, block) == NoDetails
      && RemoveRecord(l1, size, block) == (if IndexOfSize(l, size) < |l| then l else [MemInfo(size, 0, [])] + l)
  {
    AddRemoveRoundTrip(l, size, AddrNode(block, NoDetails));
    AddRecordShape(l, size, AddrNode(block, NoDetails));
  }

  /**
   * Allocate followed by Deallocate of the same fresh block, on the index: the block can
   * be unlinked again, its record carries no details, and unlinking it restores the
   * headers and both lists, except for a bucket created for the block's size.
   */
  lemma RoundTripState(lNew: Buckets, lArr: Buckets, headers: map<Address, Header>,
                       kind: AllocKind, size: nat, block: Address)
    requires CountsMatch(Pick(kind, lNew, lArr)) && SizesDistinct(Pick(kind, lNew, lArr))
    requires block !in headers
    ensures var (n1, a1) := AddedTo(kind, lNew, lArr, size, AddrNode(block, NoDetails));
      var h1 := headers[block := Header(size, kind)];
      var l1 := Pick(kind, n1, a1);
      var i := IndexOfSize(l1, size);
      && block in h1 && h1[block].rawSize == size && h1 - {block} == headers
      && Removable(l1, size, block)
      && IndexOfAddr(l1[i].addresses, block) == 0
      && RemovedInfo(l1, size, block) == NoDetails
      && var (n2, a2) := RemovedFrom(kind, n1, a1, size, block);
         var l := Pick(kind, lNew, lArr);
         && Pick(kind, n2, a2) == (if IndexOfSize(l, size) < |l| then l else [MemInfo(size, 0, [])] + l)
         && (kind == AllocNew ==> a2 == lArr)
         && (kind == AllocNewArray ==> n2 == lNew)
  {
    RoundTripFacts(Pick(kind, lNew, lArr), size, block);
    MapAddRemove(headers, block, Header(size, kind));
  }

  class MemoryTracer {
    var headNew: Buckets
    var headNewArray: Buckets
    var headTypes: seq<TypeNode>
    var mostRecent: Option<Loc>
    /** The AllocationHeader in front of every live block, by the block's address. */
    var headers: map<Address, Header>
    var currentMemory: int
    var peakMemory: int
    var currentBlocks: int
    var peakBlocks: int

    /**
     * The tracer's invariant: the index matches the live headers, the running totals
     * are the sums over the buckets, the peaks bound them, and the most recent record,
     * when there is one, is a record of the index.
     */
    ghost predicate Valid()
      reads this
    {
      && IndexValid(headNew, headNewArray, headers)
      && currentMemory == Bytes(headNew) + Bytes(headNewArray)
      && currentBlocks == Blocks(headNew) + Blocks(headNewArray)
      && currentMemory <= peakMemory
      && currentBlocks <= peakBlocks
      && (mostRecent.Some? ==> ValidLoc(headNew, headNewArray, mostRecent.value))
    }

    constructor()
      ensures Valid()
      ensures headNew == [] && headNewArray == [] && headTypes == [] && mostRecent == None && headers == map[]
      ensures currentMemory == 0 && peakMemory == 0 && currentBlocks == 0 && peakBlocks == 0
    {
      headNew, headNewArray, headTypes, mostRecent, headers := [], [], [], None, map[];
      currentMemory, peakMemory, currentBlocks, peakBlocks := 0, 0, 0, 0;
      new;
      assert multiset(headers.Keys) == multiset{};
    }

    /**
     * AddAllocationToList: records `ptr` with no details in the bucket of `size` of its
     * kind's list (creating the bucket at the front when missing) and makes that record
     * the most recent one. The totals are Allocate's business.
     */
    method AddAllocationToList(size: nat, kind: AllocKind, ptr: Address)
      modifies this`headNew, this`headNewArray, this`mostRecent
      ensures var rec := AddrNode(ptr, NoDetails);
        (headNew, headNewArray) == AddedTo(kind, old(headNew), old(headNewArray), size, rec)
      ensures mostRecent == Some(Loc(kind, IndexOfSize(Pick(kind, headNew, headNewArray), size), 0))
    {
      var l := Pick(kind, headNew, headNewArray);
      var i := FindBucket(l, size);
      var rec := AddrNode(ptr, NoDetails);
      if i < |l| {
        l := l[i := PushRecord(l[i], rec)];
        IndexOfSizeIs(l, size, i);
      } else {
        l := [MemInfo(size, 1, [rec])] + l;
        i := 0;
      }
      if kind == AllocNew {
        headNew := l;
      } else {
        headNewArray := l;
      }
      mostRecent := Some(Loc(kind, i, 0));
    }

    /**
     * Allocate: when the underlying allocation fails, throws or returns null (as the
     * caller's form of `new` asks) and changes nothing; otherwise writes the header,
     * records the block, adds it to the running totals and raises the peaks.
     * `mallocFailed` and `block` stand for malloc's outcome.
     */
    method Allocate(size: nat, kind: AllocKind, throwEx: bool, mallocFailed: bool, block: Address)
      returns (outcome: AllocOutcome)
      requires Valid()
      requires !mallocFailed ==> block != Null && block !in headers
      modifies this
      ensures Valid()
      ensures mallocFailed ==> outcome == (if throwEx then ThrowsBadAlloc else ReturnedNull)
      ensures mallocFailed ==> unchanged(this)
      ensures !mallocFailed ==>
        && outcome == Returned(block)
        && headers == old(headers)[block := Header(size, kind)]
        && (headNew, headNewArray) == AddedTo(kind, old(headNew), old(headNewArray), size, AddrNode(block, NoDetails))
        && currentMemory == old(currentMemory) + size
        && currentBlocks == old(currentBlocks) + 1
        && peakMemory == Raised(old(peakMemory), currentMemory)
        && peakBlocks == Raised(old(peakBlocks), currentBlocks)
        && headTypes == old(headTypes)
        && mostRecent == Some(Loc(kind, IndexOfSize(Pick(kind, headNew, headNewArray), size), 0))
        && RecordAt(headNew, headNewArray, mostRecent.value) == AddrNode(block, NoDetails)
    {
      if mallocFailed {
        if throwEx {
          return ThrowsBadAlloc;
        } else {
          return ReturnedNull;
        }
      }
      ghost var lNew0, lArr0, headers0 := headNew, headNewArray, headers;
      headers := headers[block := Header(size, kind)];
      AddAllocationToList(size, kind, block);
      AllocateKeepsIndex(lNew0, lArr0, headers0, kind, size, AddrNode(block, NoDetails), headNew, headNewArray, mostRecent.value);
      currentBlocks := currentBlocks + 1;
      if currentBlocks > peakBlocks {
        peakBlocks := currentBlocks;
      }
      currentMemory := currentMemory + size;
      if currentMemory > peakMemory {
        peakMemory := currentMemory;
      }
      return Returned(block);
    }

    /**
     * RemoveAllocationFromList: unlinks the record of `ptr` from the bucket its header's
     * size names in the given kind's list and takes one from the bucket's count (the
     * bucket stays, possibly empty); a record with a named type also leaves the type list.
     * The requirements are the source's assertions.
     */
    method RemoveAllocationFromList(ptr: Address, kind: AllocKind)
      requires ptr in headers
      requires Removable(Pick(kind, headNew, headNewArray), headers[ptr].rawSize, ptr)
      requires TypeRemovable(headTypes, RemovedInfo(Pick(kind, headNew, headNewArray), headers[ptr].rawSize, ptr))
      modifies this`headNew, this`headNewArray, this`headTypes, this`mostRecent
      ensures var size, l := headers[ptr].rawSize, old(Pick(kind, headNew, headNewArray));
        var i := IndexOfSize(l, size);
        && (headNew, headNewArray) == RemovedFrom(kind, old(headNew), old(headNewArray), size, ptr)
        && headTypes == TypesAfterRemoval(old(headTypes), RemovedInfo(l, size, ptr), size)
        && mostRecent == Shifted(old(mostRecent), kind, i, IndexOfAddr(l[i].addresses, ptr))
    {
      var l := Pick(kind, headNew, headNewArray);
      var size := headers[ptr].rawSize;
      var i := FindBucket(l, size);
      IndexOfSizeIs(l, size, i);
      var j := FindAddress(l[i].addresses, ptr);
      IndexOfAddrIs(l[i].addresses, ptr, j);
      var rec := l[i].addresses[j];
      l := l[i := DropRecord(l[i], j)];
      if rec.info.typeName.Some? {
        RemoveFromTypeList(rec.info.typeName.value, size);
      }
      if kind == AllocNew {
        headNew := l;
      } else {
        headNewArray := l;
      }
      // the most recent record is a node pointer: it keeps pointing at the same node
      mostRecent := Shifted(mostRecent, kind, i, j);
    }

    /**
     * Deallocate: a null pointer changes nothing; otherwise the block's record is
     * unlinked and its header's size and one block leave the running totals (the
     * peaks stay). The requirements are RemoveAllocationFromList's assertions.
     */
    method Deallocate(ptr: Address, kind: AllocKind, throwEx: bool)
      requires Valid()
      requires ptr != Null ==>
        && ptr in headers
        && Removable(Pick(kind, headNew, headNewArray), headers[ptr].rawSize, ptr)
        && TypeRemovable(headTypes, RemovedInfo(Pick(kind, headNew, headNewArray), headers[ptr].rawSize, ptr))
      modifies this
      ensures Valid()
      ensures ptr == Null ==> unchanged(this)
      ensures ptr != Null ==>
        && headers == old(headers) - {ptr}
        && (headNew, headNewArray) == RemovedFrom(kind, old(headNew), old(headNewArray), old(headers)[ptr].rawSize, ptr)
        && currentMemory == old(currentMemory) - old(headers)[ptr].rawSize
        && currentBlocks == old(currentBlocks) - 1
        && peakMemory == old(peakMemory) && peakBlocks == old(peakBlocks)
      ensures ptr != Null ==>
        var size, l := old(headers)[ptr].rawSize, old(Pick(kind, headNew, headNewArray));
        var i := IndexOfSize(l, size);
        && headTypes == TypesAfterRemoval(old(headTypes), RemovedInfo(l, size, ptr), size)
        && mostRecent == Shifted(old(mostRecent), kind, i, IndexOfAddr(l[i].addresses, ptr))
    {
      if ptr != Null {
        var size := headers[ptr].rawSize;
        ghost var lNew0, lArr0, headers0, recent0 := headNew, headNewArray, headers, mostRecent;
        RemoveAllocationFromList(ptr, kind);
        currentMemory := currentMemory - size;
        currentBlocks := currentBlocks - 1;
        headers := headers - {ptr};
        DeallocateKeepsIndex(lNew0, lArr0, headers0, kind, ptr, recent0, headNew, headNewArray, mostRecent);
      }
    }

    /**
     * Allocating a block and freeing it again restores the index, except that a bucket
     * created for the block's size stays behind with no records, and restores the
     * headers and the running totals; the peaks keep whatever the allocation raised.
     */
    method AllocateThenFree(size: nat, kind: AllocKind, block: Address)
      requires Valid() && block != Null && block !in headers
      modifies this
      ensures Valid()
      ensures headers == old(headers)
      ensures var l := old(Pick(kind, headNew, headNewArray));
        Pick(kind, headNew, headNewArray) == (if IndexOfSize(l, size) < |l| then l else [MemInfo(size, 0, [])] + l)
      ensures kind == AllocNew ==> headNewArray == old(headNewArray)
      ensures kind == AllocNewArray ==> headNew == old(headNew)
      ensures currentMemory == old(currentMemory) && currentBlocks == old(currentBlocks)
      ensures peakMemory == Raised(old(peakMemory), old(currentMemory) + size)
      ensures peakBlocks == Raised(old(peakBlocks), old(currentBlocks) + 1)
      ensures headTypes == old(headTypes) && mostRecent == None
    {
      RoundTripState(headNew, headNewArray, headers, kind, size, block);
      var outcome := Allocate(size, kind, true, false, block);
      Deallocate(block, kind, true);
    }

    /**
     * RetrieveAddrNode: the location of the record of `ptr` (searching by size when
     * `objectSize` is known, non-array list first), or None.
     */
    method RetrieveAddrNode(ptr: Address, objectSize: Option<nat>) returns (r: Option<Loc>)
      ensures r == Retrieve(headNew, headNewArray, ptr, objectSize)
    {
      r := AddressFind(AllocNew, headNew, ptr, objectSize);
      if r.None? {
        r := AddressFind(AllocNewArray, headNewArray, ptr, objectSize);
      }
    }

    /**
     * AddAllocationDetails: attaches a file, line and type name to the record of `ptr`.
     * When the most recent record is that of `ptr` it is updated directly; otherwise the
     * record is looked up (by `objectSize` when known), becomes the most recent one, and
     * when the lookup fails nothing is attached. A null pointer changes nothing.
     */
    method AddAllocationDetails(ptr: Address, file: string, line: int, typeName: string, objectSize: Option<nat>)
      requires Valid()
      modifies this`headNew, this`headNewArray, this`mostRecent
      ensures Valid()
      ensures ptr == Null ==> unchanged(this)
      ensures ptr != Null ==>
        var target := AttributionTarget(old(headNew), old(headNewArray), old(mostRecent), ptr, objectSize);
        && mostRecent == target
        && (target.None? ==> headNew == old(headNew) && headNewArray == old(headNewArray))
        && (target.Some? ==>
              && ValidLoc(old(headNew), old(headNewArray), target.value)
              && (headNew, headNewArray) == DetailsAt(old(headNew), old(headNewArray), target.value, TraceInfo(Some(typeName), file, line)))
    {
      if ptr == Null {
        return;
      }
      var m := mostRecent;
      if m.None? || RecordAt(headNew, headNewArray, m.value).address != ptr {
        m := RetrieveAddrNode(ptr, objectSize);
        mostRecent := m;
        if m.None? {
          return;
        }
        RetrieveSound(headNew, headNewArray, ptr, objectSize);
      }
      SetDetails(m.value, TraceInfo(Some(typeName), file, line));
    }

    /**
     * The three assignments that end AddAllocationDetails: they write through the most
     * recent record pointer, which designates the record at `loc`.
     */
    method SetDetails(loc: Loc, d: TraceInfo)
      requires Valid() && ValidLoc(headNew, headNewArray, loc)
      requires mostRecent == Some(loc)
      modifies this`headNew, this`headNewArray
      ensures Valid()
      ensures (headNew, headNewArray) == DetailsAt(old(headNew), old(headNewArray), loc, d)
      ensures mostRecent == Some(loc)
    {
      DetailsKeepIndex(headNew, headNewArray, headers, loc, d);
      headNew, headNewArray := DetailsAt(headNew, headNewArray, loc, d).0, DetailsAt(headNew, headNewArray, loc, d).1;
    }

    /** AddToTypeList: one more block and `size` more bytes for the type `name`. */
    method AddToTypeList(name: string, size: nat)
      modifies this`headTypes
      ensures headTypes == TypeAdded(old(headTypes), name, size)
    {
      var i := FindLabel(headTypes, name);
      if i < |headTypes| {
        headTypes := headTypes[i := headTypes[i].(blocks := headTypes[i].blocks + 1, memSize := headTypes[i].memSize + size)];
      } else {
        headTypes := [TypeNode(name, 1, size)] + headTypes;
      }
    }

    /** RemoveFromTypeList: one block and `size` bytes fewer for the type `name`, which must have an entry. */
    method RemoveFromTypeList(name: string, size: nat)
      requires IndexOfLabel(headTypes, name) < |headTypes|
      modifies this`headTypes
      ensures headTypes == TypeRemoved(old(headTypes), name, size)
    {
      var i := FindLabel(headTypes, name);
      headTypes := headTypes[i := headTypes[i].(blocks := headTypes[i].blocks - 1, memSize := headTypes[i].memSize - size)];
    }

    /** RetrieveAddrSize, as written (see AddrSizeAsWritten). */
    method RetrieveAddrSize(ptr: Address) returns (size: int)
      ensures size == AddrSizeAsWritten(headNew, headNewArray, ptr)
    {
      var s := SizeFindLoop(headNew, ptr);
      if s != 0 {
        return s;
      }
      s := SizeFindLoop(headNewArray, ptr);
      return if s != 0 then s else -1;
    }

    /** RetrieveAddrSize with "not found" kept apart from a zero size. */
    method RetrieveAddrSizeChecked(ptr: Address) returns (size: Option<nat>)
      requires Valid()
      ensures size == if ptr in headers then Some(headers[ptr].rawSize) else None
    {
      var r := RetrieveAddrNode(ptr, None);
      SizeOfLive(headNew, headNewArray, headers, ptr);
      if r.Some? {
        RetrieveSound(headNew, headNewArray, ptr, None);
        size := Some(Pick(r.value.kind, headNew, headNewArray)[r.value.bucket].size);
      } else {
        size := None;
      }
    }

    /**
     * DisplayAllocations: the numbers of live non-array and array blocks; together
     * they are the running block total.
     */
    method DisplayAllocations() returns (totalNew: int, totalArray: int)
      requires Valid()
      ensures totalNew == |LiveAddrs(headNew)| && totalArray == |LiveAddrs(headNewArray)|
      ensures totalNew + totalArray == currentBlocks
    {
      totalNew := CountLive(headNew);
      totalArray := CountLive(headNewArray);
      LiveCountIsBlocks(headNew);
      LiveCountIsBlocks(headNewArray);
      BlocksAreRecords(headNew);
      BlocksAreRecords(headNewArray);
    }

    /**
     * DisplayStatTable: sorts the type list in place by non-increasing byte total
     * (stably) and gives the rows it shows, the types with live blocks.
     */
    method DisplayStatTable() returns (rows: seq<TypeNode>)
      modifies this`headTypes
      ensures SortedDesc(headTypes) && StablePermutation(headTypes, old(headTypes))
      ensures rows == VisibleRows(headTypes)
      ensures forall e :: e in rows <==> e in headTypes && e.blocks > 0
      ensures forall m :: WithSize(rows, m) == VisibleRows(WithSize(old(headTypes), m))
    {
      headTypes := SortTypes(headTypes);
      rows := [];
      var k := 0;
      while k < |headTypes|
        invariant 0 <= k <= |headTypes|
        invariant rows == VisibleRows(headTypes[..k])
      {
        assert headTypes[..k + 1][..k] == headTypes[..k];
        if headTypes[k].blocks > 0 {
          rows := rows + [headTypes[k]];
        }
        k := k + 1;
      }
      assert headTypes[..k] == headTypes;
      forall m ensures WithSize(rows, m) == VisibleRows(WithSize(old(headTypes), m)) {
        WithSizeVisible(headTypes, m);
      }
    }

    /**
     * The teardown sweep: one leak group per bucket with live blocks, non-array list
     * first, each followed by its records; every live block is listed exactly once, the
     * leak count is the running block total and the bytes reported leaked are the
     * running byte total, which the groups add up to.
     */
    method LeakSweep()
      returns (groupsNew: seq<LeakGroup>, groupsArray: seq<LeakGroup>,
               leakedNew: seq<AddrNode<TraceInfo>>, leakedArray: seq<AddrNode<TraceInfo>>,
               totalLeaks: int, leakedBytes: int)
      requires Valid()
      ensures groupsNew == LeakGroups(headNew, AllocNew) && groupsArray == LeakGroups(headNewArray, AllocNewArray)
      ensures leakedNew == LeakedRecords(headNew) && leakedArray == LeakedRecords(headNewArray)
      ensures RecAddrs(leakedNew) + RecAddrs(leakedArray) == multiset(headers.Keys)
      ensures totalLeaks == currentBlocks == GroupCount(groupsNew) + GroupCount(groupsArray)
      ensures leakedBytes == currentMemory == GroupBytes(groupsNew) + GroupBytes(groupsArray)
      ensures totalLeaks == |headers|
    {
      var n1, n2;
      groupsNew, leakedNew, n1 := SweepList(headNew, AllocNew);
      groupsArray, leakedArray, n2 := SweepList(headNewArray, AllocNewArray);
      totalLeaks := n1 + n2;
      leakedBytes := currentMemory;
      LeakedRecordsAddrs(headNew);
      LeakedRecordsAddrs(headNewArray);
      LeakGroupsTotals(headNew, AllocNew);
      LeakGroupsTotals(headNewArray, AllocNewArray);
      LiveCountIsBlocks(headNew);
      LiveCountIsBlocks(headNewArray);
      BlocksAreRecords(headNew);
      BlocksAreRecords(headNewArray);
      assert |multiset(headers.Keys)| == |headers.Keys|;
    }

    /** GetCurrentBlocks: the number of live blocks. */
    function GetCurrentBlocks(): (r: int)
      requires Valid()
      reads this
      ensures r == |headers|
    {
      BlocksAreRecords(headNew);
      BlocksAreRecords(headNewArray);
      assert |multiset(headers.Keys)| == |headers.Keys|;
      currentBlocks
    }

    /** GetCurrentMemory: the bytes of all live blocks. */
    function GetCurrentMemory(): (r: int)
      requires Valid()
      reads this
      ensures r == Bytes(headNew) + Bytes(headNewArray)
    {
      currentMemory
    }

    /** GetPeakBlocks: never below the current block count. */
    function GetPeakBlocks(): (r: int)
      requires Valid()
      reads this
      ensures r >= |headers|
    {
      var c := GetCurrentBlocks();
      peakBlocks
    }

    /** GetPeakMemory: never below the current byte total. */
    function GetPeakMemory(): (r: int)
      requires Valid()
      reads this
      ensures r >= Bytes(headNew) + Bytes(headNewArray)
    {
      peakMemory
    }
  }

  /** The record AddAllocationDetails updates: the most recent one when its address matches, else the lookup's. */
  function AttributionTarget(lNew: Buckets, lArr: Buckets, m: Option<Loc>, ptr: Address, objectSize: Option<nat>): Option<Loc>
  {
    if m.Some? && ValidLoc(lNew, lArr, m.value) && RecordAt(lNew, lArr, m.value).address == ptr then m
    else Retrieve(lNew, lArr, ptr, objectSize)
  }

  /**
   * Under the tracer's invariant, AddAllocationDetails updates exactly the record of
   * `ptr` whatever the most recent record is, and finds one exactly when `ptr` is live
   * (with an unknown size) or live with the given size.
   */
  lemma AttributionFindsLive(lNew: Buckets, lArr: Buckets, headers: map<Address, Header>, m: Option<Loc>,
                             ptr: Address, objectSize: Option<nat>)
    requires IndexValid(lNew, lArr, headers)
    requires m.Some? ==> ValidLoc(lNew, lArr, m.value)
    ensures var t := AttributionTarget(lNew, lArr, m, ptr, objectSize);
      && (t.Some? ==> ValidLoc(lNew, lArr, t.value) && RecordAt(lNew, lArr, t.value).address == ptr
                      && t == Retrieve(lNew, lArr, ptr, None))
      && (objectSize.None? ==> (t.Some? <==> ptr in headers))
      && (ptr in headers && (objectSize.Some? ==> headers[ptr].rawSize == objectSize.value) ==> t.Some?)
  {
    var t := AttributionTarget(lNew, lArr, m, ptr, objectSize);
    RetrieveSound(lNew, lArr, ptr, objectSize);
    RetrieveComplete(lNew, lArr, headers, ptr, objectSize);
    RetrieveComplete(lNew, lArr, headers, ptr, None);
    if t.Some? {
      FastPathAgrees(lNew, lArr, headers, t.value, ptr);
    }
  }

  /** addressFind over one list, as loops. */
  method AddressFind(kind: AllocKind, l: Buckets, ptr: Address, objectSize: Option<nat>) returns (r: Option<Loc>)
    ensures r == FindIn(kind, l, ptr, objectSize)
  {
    if objectSize.None? {
      var i := 0;
      while i < |l|
        invariant i <= |l|
        invariant forall k :: 0 <= k < i ==> !Holds(l[k], ptr)
      {
        var j := FindAddress(l[i].addresses, ptr);
        if j < |l[i].addresses| {
          IndexOfAddrIs(l[i].addresses, ptr, j);
          IndexOfOwnerIs(l, ptr, i);
          return Some(Loc(kind, i, j));
        }
        assert !Holds(l[i], ptr);
        i := i + 1;
      }
      return None;
    } else {
      var i := FindBucket(l, objectSize.value);
      if i < |l| {
        IndexOfSizeIs(l, objectSize.value, i);
        var j := FindAddress(l[i].addresses, ptr);
        if j < |l[i].addresses| {
          IndexOfAddrIs(l[i].addresses, ptr, j);
          return Some(Loc(kind, i, j));
        }
      }
      return None;
    }
  }

  /** sizeFind over one list, as a loop. */
  method SizeFindLoop(l: Buckets, ptr: Address) returns (size: nat)
    ensures size == SizeFind(l, ptr)
  {
    var r := AddressFind(AllocNew, l, ptr, None);
    size := if r.Some? then l[r.value.bucket].size else 0;
  }
}
