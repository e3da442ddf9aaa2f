/**
 * The size-bucketed allocation index kept by both MemoryTracer and MemoryManager.
 *
 * Each allocation kind (non-array `new`, array `new[]`) owns a list of buckets
 * (`MemInfoNode`); a bucket holds one allocation size, a live count and the list
 * of address records (`AddrListNode`) of the blocks of that size that are still
 * allocated.  The two engines differ only in what an address record carries
 * besides its address, so buckets here are generic in that detail `D`.
 *
 * The linked lists of the source are sequences: the head of a list is index 0,
 * "push to the front" is `[x] + l`, and unlinking a node is removing one index.
 */
module Index {

  /** A user-visible block address; `Null` is the null pointer. */
  type Address = nat
  const Null: Address := 0

  datatype Option<T> = None | Some(value: T)

  /** ALLOC_NEW (operator new) or ALLOC_NEW_ARRAY (operator new[]). */
  datatype AllocKind = AllocNew | AllocNewArray

  /** The AllocationHeader written just before every block handed out. */
  datatype Header = Header(rawSize: nat, kind: AllocKind)

  /** An AddrListNode: the block's address and the engine-specific details. */
  datatype AddrNode<D> = AddrNode(address: Address, info: D)

  /** A MemInfoNode: one allocation size, its live count and its address records. */
  datatype MemInfo<D> = MemInfo(size: nat, numberOfAllocations: int, addresses: seq<AddrNode<D>>)

  /** One line of the leak report: `count` leaks of `size` bytes of the given kind. */
  datatype LeakGroup = LeakGroup(count: int, size: nat, kind: AllocKind)

  /** What a `new` expression observes: the block, a null pointer, or a thrown std::bad_alloc. */
  datatype AllocOutcome = Returned(ptr: Address) | ReturnedNull | ThrowsBadAlloc

  /** GetListHead: the bucket list of one kind. */
  function Pick<D>(kind: AllocKind, lNew: seq<MemInfo<D>>, lArr: seq<MemInfo<D>>): (l: seq<MemInfo<D>>)
    ensures kind == AllocNew ==> l == lNew
    ensures kind == AllocNewArray ==> l == lArr
  {
    if kind == AllocNew then lNew else lArr
  }

  /** A high-water mark after the running total reaches `current`: the larger of the two. */
  function Raised(peak: int, current: int): (r: int)
    ensures r >= peak && r >= current
    ensures r == peak || r == current
  {
    if current > peak then current else peak
  }

  // ---------------------------------------------------------------------------
  // Searching

  /** The first bucket of the given size, or |l| when there is none. */
  function IndexOfSize<D>(l: seq<MemInfo<D>>, size: nat): (i: nat)
    ensures i <= |l|
    ensures i < |l| ==> l[i].size == size
    ensures forall k :: 0 <= k < i ==> l[k].size != size
  {
    if |l| == 0 then 0
    else if l[0].size == size then 0
    else 1 + IndexOfSize(l[1..], size)
  }

  /** The first record with the given address, or |recs| when there is none. */
  function IndexOfAddr<D>(recs: seq<AddrNode<D>>, ptr: Address): (j: nat)
    ensures j <= |recs|
    ensures j < |recs| ==> recs[j].address == ptr
    ensures forall k :: 0 <= k < j ==> recs[k].address != ptr
  {
    if |recs| == 0 then 0
    else if recs[0].address == ptr then 0
    else 1 + IndexOfAddr(recs[1..], ptr)
  }

  /** Whether a bucket holds a record for `ptr`. */
  predicate Holds<D>(b: MemInfo<D>, ptr: Address)
  {
    IndexOfAddr(b.addresses, ptr) < |b.addresses|
  }

  /** The first bucket holding a record for `ptr`, or |l| when there is none. */
  function IndexOfOwner<D>(l: seq<MemInfo<D>>, ptr: Address): (i: nat)
    ensures i <= |l|
    ensures i < |l| ==> Holds(l[i], ptr)
    ensures forall k :: 0 <= k < i ==> !Holds(l[k], ptr)
  {
    if |l| == 0 then 0
    else if Holds(l[0], ptr) then 0
    else 1 + IndexOfOwner(l[1..], ptr)
  }

  // ---------------------------------------------------------------------------
  // Shape invariants

  /** Every bucket's count equals the length of its record list. */
  ghost predicate CountsMatch<D>(l: seq<MemInfo<D>>)
  {
    forall i :: 0 <= i < |l| ==> l[i].numberOfAllocations == |l[i].addresses|
  }

  /** A size has at most one bucket per kind (buckets are found or created by size). */
  ghost predicate SizesDistinct<D>(l: seq<MemInfo<D>>)
  {
    forall i, j :: 0 <= i < j < |l| ==> l[i].size != l[j].size
  }

  // ---------------------------------------------------------------------------
  // Totals over a bucket list

  /** Sum of size * count over all buckets. */
  function Bytes<D>(l: seq<MemInfo<D>>): int
  {
    if |l| == 0 then 0 else l[0].size * l[0].numberOfAllocations + Bytes(l[1..])
  }

  /** Sum of the counts over all buckets. */
  function Blocks<D>(l: seq<MemInfo<D>>): int
  {
    if |l| == 0 then 0 else l[0].numberOfAllocations + Blocks(l[1..])
  }

  /** Sum of the counts over the buckets whose count is nonzero (what the reports add up). */
  function LiveCount<D>(l: seq<MemInfo<D>>): int
  {
    if |l| == 0 then 0
    else (if l[0].numberOfAllocations != 0 then l[0].numberOfAllocations else 0) + LiveCount(l[1..])
  }

  /** The leak groups the teardown sweep reports for one kind, in list order. */
  function LeakGroups<D>(l: seq<MemInfo<D>>, kind: AllocKind): seq<LeakGroup>
  {
    if |l| == 0 then []
    else (if l[0].numberOfAllocations != 0 then [LeakGroup(l[0].numberOfAllocations, l[0].size, kind)] else [])
         + LeakGroups(l[1..], kind)
  }

  function GroupCount(g: seq<LeakGroup>): int
  {
    if |g| == 0 then 0 else g[0].count + GroupCount(g[1..])
  }

  function GroupBytes(g: seq<LeakGroup>): int
  {
    if |g| == 0 then 0 else g[0].size * g[0].count + GroupBytes(g[1..])
  }

  /** The address records the teardown sweep lists for one kind, bucket by bucket, skipping empty buckets. */
  function LeakedRecords<D>(l: seq<MemInfo<D>>): seq<AddrNode<D>>
  {
    if |l| == 0 then []
    else (if l[0].numberOfAllocations != 0 then l[0].addresses else []) + LeakedRecords(l[1..])
  }

  /** The addresses recorded in one record list. */
  function RecAddrs<D>(recs: seq<AddrNode<D>>): multiset<Address>
  {
    if |recs| == 0 then multiset{} else multiset{recs[0].address} + RecAddrs(recs[1..])
  }

  /** The addresses recorded anywhere in a bucket list. */
  function LiveAddrs<D>(l: seq<MemInfo<D>>): multiset<Address>
  {
    if |l| == 0 then multiset{} else RecAddrs(l[0].addresses) + LiveAddrs(l[1..])
  }

  // ---------------------------------------------------------------------------
  // AddAllocationToList and RemoveAllocationFromList on one kind's list

  /** The bucket with one more record pushed to the front of its list. */
  function PushRecord<D>(b: MemInfo<D>, rec: AddrNode<D>): MemInfo<D>
  {
    b.(numberOfAllocations := b.numberOfAllocations + 1, addresses := [rec] + b.addresses)
  }

  /** The bucket with record j unlinked. */
  function DropRecord<D>(b: MemInfo<D>, j: nat): MemInfo<D>
    requires j < |b.addresses|
  {
    b.(numberOfAllocations := b.numberOfAllocations - 1, addresses := b.addresses[..j] + b.addresses[j + 1..])
  }

  /**
   * The list after recording `rec` for an allocation of `size` bytes: the bucket of
   * that size gets the record at the front of its list and one more in its count;
   * when there is no such bucket, a new one with count 1 goes to the front of the list.
   */
  function AddRecord<D>(l: seq<MemInfo<D>>, size: nat, rec: AddrNode<D>): seq<MemInfo<D>>
  {
    var i := IndexOfSize(l, size);
    if i < |l| then l[i := PushRecord(l[i], rec)] else [MemInfo(size, 1, [rec])] + l
  }

  /** The two assertions of RemoveAllocationFromList: a bucket of `size` exists and holds `ptr`. */
  predicate Removable<D>(l: seq<MemInfo<D>>, size: nat, ptr: Address)
  {
    var i := IndexOfSize(l, size);
    i < |l| && Holds(l[i], ptr)
  }

  /** The list after unlinking the first record of `ptr` from the bucket of `size`. */
  function RemoveRecord<D>(l: seq<MemInfo<D>>, size: nat, ptr: Address): seq<MemInfo<D>>
    requires Removable(l, size, ptr)
  {
    var i := IndexOfSize(l, size);
    l[i := DropRecord(l[i], IndexOfAddr(l[i].addresses, ptr))]
  }

  /** Both kinds' lists after AddAllocationToList records `rec` in the list of `kind`. */
  function AddedTo<D>(kind: AllocKind, lNew: seq<MemInfo<D>>, lArr: seq<MemInfo<D>>, size: nat, rec: AddrNode<D>)
    : (seq<MemInfo<D>>, seq<MemInfo<D>>)
  {
    if kind == AllocNew then (AddRecord(lNew, size, rec), lArr) else (lNew, AddRecord(lArr, size, rec))
  }

  /** Both kinds' lists after RemoveAllocationFromList unlinks `ptr` from the list of `kind`. */
  function RemovedFrom<D>(kind: AllocKind, lNew: seq<MemInfo<D>>, lArr: seq<MemInfo<D>>, size: nat, ptr: Address)
    : (seq<MemInfo<D>>, seq<MemInfo<D>>)
    requires Removable(Pick(kind, lNew, lArr), size, ptr)
  {
    if kind == AllocNew then (RemoveRecord(lNew, size, ptr), lArr) else (lNew, RemoveRecord(lArr, size, ptr))
  }

  // ---------------------------------------------------------------------------
  // Lemmas about the totals

  lemma {:induction false} BytesUpdate<D>(l: seq<MemInfo<D>>, i: nat, b: MemInfo<D>)
    requires i < |l|
    ensures Bytes(l[i := b]) == Bytes(l) - l[i].size * l[i].numberOfAllocations + b.size * b.numberOfAllocations
  {
    if i == 0 {
      assert l[i := b][1..] == l[1..];
    } else {
      assert l[i := b][1..] == l[1..][i - 1 := b];
      BytesUpdate(l[1..], i - 1, b);
    }
  }

  lemma {:induction false} BlocksUpdate<D>(l: seq<MemInfo<D>>, i: nat, b: MemInfo<D>)
    requires i < |l|
    ensures Blocks(l[i := b]) == Blocks(l) - l[i].numberOfAllocations + b.numberOfAllocations
  {
    if i == 0 {
      assert l[i := b][1..] == l[1..];
    } else {
      assert l[i := b][1..] == l[1..][i - 1 := b];
      BlocksUpdate(l[1..], i - 1, b);
    }
  }

  lemma {:induction false} LiveAddrsUpdate<D>(l: seq<MemInfo<D>>, i: nat, b: MemInfo<D>)
    requires i < |l|
    ensures LiveAddrs(l[i := b]) + RecAddrs(l[i].addresses) == LiveAddrs(l) + RecAddrs(b.addresses)
  {
    if i == 0 {
      LiveAddrsUpdateHead(l, b);
    } else {
      var l' := l[i := b];
      assert l'[1..] == l[1..][i - 1 := b];
      assert l[1..][i - 1] == l[i];
      LiveAddrsUpdate(l[1..], i - 1, b);
      AddFront(RecAddrs(l[0].addresses), LiveAddrs(l'[1..]), LiveAddrs(l[1..]), RecAddrs(l[i].addresses), RecAddrs(b.addresses));
    }
  }

  /** LiveAddrsUpdate for the first bucket. */
  lemma LiveAddrsUpdateHead<D>(l: seq<MemInfo<D>>, b: MemInfo<D>)
    requires 0 < |l|
    ensures LiveAddrs(l[0 := b]) + RecAddrs(l[0].addresses) == LiveAddrs(l) + RecAddrs(b.addresses)
  {
    var l' := l[0 := b];
    assert l'[1..] == l[1..];
    var Ri, Rb, T := RecAddrs(l[0].addresses), RecAddrs(b.addresses), LiveAddrs(l[1..]);
    assert (Rb + T) + Ri == (Ri + T) + Rb;
  }

  /** Adding the same addresses to two multisets and getting equal results means they were equal. */
  lemma Cancel(x: multiset<Address>, y: multiset<Address>, z: multiset<Address>)
    requires x + z == y + z
    ensures x == y
  {
    forall e ensures x[e] == y[e] {
      assert (x + z)[e] == (y + z)[e];
    }
  }

  /** Trading a bucket's addresses for the same addresses less one occurrence of `p`. */
  lemma SwapOut(x: multiset<Address>, y: multiset<Address>, ri: multiset<Address>, rb: multiset<Address>, p: Address)
    requires x + ri == y + rb && rb + multiset{p} == ri
    ensures x + multiset{p} == y
  {
    forall e ensures (x + multiset{p})[e] == y[e] {
      assert (x + ri)[e] == (y + rb)[e];
    }
  }

  /** Trading a bucket's addresses for the same addresses plus one occurrence of `p`. */
  lemma SwapIn(x: multiset<Address>, y: multiset<Address>, ri: multiset<Address>, rb: multiset<Address>, p: Address)
    requires x + ri == y + rb && rb == multiset{p} + ri
    ensures x == y + multiset{p}
  {
    forall e ensures x[e] == (y + multiset{p})[e] {
      assert (x + ri)[e] == (y + rb)[e];
    }
  }

  /** An equation between sums of multisets survives adding the same multiset to both sides. */
  lemma AddFront(r0: multiset<Address>, x: multiset<Address>, y: multiset<Address>, ri: multiset<Address>, rb: multiset<Address>)
    requires x + ri == y + rb
    ensures (r0 + x) + ri == (r0 + y) + rb
  {
    forall e ensures ((r0 + x) + ri)[e] == ((r0 + y) + rb)[e] {
      assert (x + ri)[e] == (y + rb)[e];
    }
  }

  /** Inclusion of multisets is kept by adding them up. */
  lemma AddLe(x: multiset<Address>, y: multiset<Address>, u: multiset<Address>, w: multiset<Address>)
    requires x <= u && y <= w
    ensures x + y <= u + w
  {
    forall e ensures (x + y)[e] <= (u + w)[e] {
      assert x[e] <= u[e] && y[e] <= w[e];
    }
  }

  /** A bucket found by walking the list is the one IndexOfSize names. */
  lemma IndexOfSizeIs<D>(l: seq<MemInfo<D>>, size: nat, i: nat)
    requires i < |l| && l[i].size == size
    requires forall k :: 0 <= k < i ==> l[k].size != size
    ensures IndexOfSize(l, size) == i
  {
  }

  lemma MulSucc(a: nat, n: int)
    ensures a * (n + 1) == a * n + a
    ensures a * (n - 1) == a * n - a
  {
  }

  /** Unlinking record j takes exactly its address out of the list's addresses. */
  lemma {:induction false} RecAddrsRemove<D>(recs: seq<AddrNode<D>>, j: nat)
    requires j < |recs|
    ensures RecAddrs(recs[..j] + recs[j + 1..]) + multiset{recs[j].address} == RecAddrs(recs)
  {
    if j == 0 {
      assert recs[..0] + recs[1..] == recs[1..];
    } else {
      assert (recs[..j] + recs[j + 1..])[1..] == recs[1..][..j - 1] + recs[1..][j..];
      RecAddrsRemove(recs[1..], j - 1);
    }
  }

  /** A record list's addresses hold exactly the addresses its records carry. */
  lemma {:induction false} RecAddrsFind<D>(recs: seq<AddrNode<D>>, a: Address)
    ensures a in RecAddrs(recs) <==> IndexOfAddr(recs, a) < |recs|
  {
    if |recs| > 0 {
      RecAddrsFind(recs[1..], a);
    }
  }

  /** The number of addresses in a record list is its length. */
  lemma {:induction false} RecAddrsSize<D>(recs: seq<AddrNode<D>>)
    ensures |RecAddrs(recs)| == |recs|
  {
    if |recs| > 0 {
      RecAddrsSize(recs[1..]);
    }
  }

  /** An address is recorded in a list exactly when some bucket holds it. */
  lemma {:induction false} LiveAddrsOwner<D>(l: seq<MemInfo<D>>, a: Address)
    ensures a in LiveAddrs(l) <==> IndexOfOwner(l, a) < |l|
  {
    if |l| > 0 {
      RecAddrsFind(l[0].addresses, a);
      LiveAddrsOwner(l[1..], a);
    }
  }

  /** Every record's address is among the list's addresses. */
  lemma LiveAddrsHas<D>(l: seq<MemInfo<D>>, i: nat, j: nat)
    requires i < |l| && j < |l[i].addresses|
    ensures l[i].addresses[j].address in LiveAddrs(l)
  {
    var a := l[i].addresses[j].address;
    RecAddrsFind(l[i].addresses, a);
    assert Holds(l[i], a);
    LiveAddrsOwner(l, a);
  }

  /** The counts add up to the number of live records. */
  lemma {:induction false} BlocksAreRecords<D>(l: seq<MemInfo<D>>)
    requires CountsMatch(l)
    ensures Blocks(l) == |LiveAddrs(l)|
  {
    if |l| > 0 {
      RecAddrsSize(l[0].addresses);
      BlocksAreRecords(l[1..]);
    }
  }

  /** Skipping empty buckets does not change the sum of counts. */
  lemma {:induction false} LiveCountIsBlocks<D>(l: seq<MemInfo<D>>)
    ensures LiveCount(l) == Blocks(l)
  {
    if |l| > 0 {
      LiveCountIsBlocks(l[1..]);
    }
  }

  lemma {:induction false} RecAddrsAppend<D>(a: seq<AddrNode<D>>, b: seq<AddrNode<D>>)
    ensures RecAddrs(a + b) == RecAddrs(a) + RecAddrs(b)
  {
    if |a| == 0 {
      assert a + b == b;
    } else {
      assert (a + b)[1..] == a[1..] + b;
      RecAddrsAppend(a[1..], b);
    }
  }

  /** The sweep lists every recorded address exactly once: an empty bucket has no records to skip. */
  lemma {:induction false} LeakedRecordsAddrs<D>(l: seq<MemInfo<D>>)
    requires CountsMatch(l)
    ensures RecAddrs(LeakedRecords(l)) == LiveAddrs(l)
  {
    if |l| > 0 {
      assert CountsMatch(l[1..]) by {
        forall i | 0 <= i < |l[1..]| ensures l[1..][i].numberOfAllocations == |l[1..][i].addresses| {
          assert l[1..][i] == l[i + 1];
        }
      }
      LeakedRecordsAddrs(l[1..]);
      var head := if l[0].numberOfAllocations != 0 then l[0].addresses else [];
      assert head == l[0].addresses;
      RecAddrsAppend(head, LeakedRecords(l[1..]));
    }
  }

  /** The leak groups carry the live count and the live bytes of the list. */
  lemma {:induction false} LeakGroupsTotals<D>(l: seq<MemInfo<D>>, kind: AllocKind)
    ensures GroupCount(LeakGroups(l, kind)) == LiveCount(l)
    ensures GroupBytes(LeakGroups(l, kind)) == Bytes(l)
    ensures forall k :: 0 <= k < |LeakGroups(l, kind)| ==> LeakGroups(l, kind)[k].count != 0
  {
    if |l| > 0 {
      LeakGroupsTotals(l[1..], kind);
      var head := if l[0].numberOfAllocations != 0 then [LeakGroup(l[0].numberOfAllocations, l[0].size, kind)] else [];
      GroupSplit(head, LeakGroups(l[1..], kind));
    }
  }

  lemma {:induction false} GroupSplit(g: seq<LeakGroup>, h: seq<LeakGroup>)
    ensures GroupCount(g + h) == GroupCount(g) + GroupCount(h)
    ensures GroupBytes(g + h) == GroupBytes(g) + GroupBytes(h)
  {
    if |g| == 0 {
      assert g + h == h;
    } else {
      assert (g + h)[1..] == g[1..] + h;
      GroupSplit(g[1..], h);
    }
  }

  // ---------------------------------------------------------------------------
  // Lemmas about adding and removing a record

  /**
   * AddAllocationToList on one kind's list: the bucket of the size ends up with the
   * record at the front and its count equal to its list length, and no size gets a
   * second bucket.
   */
  lemma AddRecordShape<D>(l: seq<MemInfo<D>>, size: nat, rec: AddrNode<D>)
    requires CountsMatch(l) && SizesDistinct(l)
    ensures var r := AddRecord(l, size, rec);
      && CountsMatch(r) && SizesDistinct(r)
      && IndexOfSize(r, size) < |r|
      && r[IndexOfSize(r, size)].addresses[0] == rec
  {
    var i := IndexOfSize(l, size);
    var r := AddRecord(l, size, rec);
    if i < |l| {
      assert r[i].size == size;
      IndexOfSizeIs(r, size, i);
    } else {
      assert IndexOfSize(r, size) == 0;
    }
  }

  /**
   * AddAllocationToList on one kind's list: one more block and `size` more bytes are
   * live, and the record's address joins the live addresses.
   */
  lemma AddRecordTotals<D>(l: seq<MemInfo<D>>, size: nat, rec: AddrNode<D>)
    ensures var r := AddRecord(l, size, rec);
      && Bytes(r) == Bytes(l) + size
      && Blocks(r) == Blocks(l) + 1
      && LiveAddrs(r) == LiveAddrs(l) + multiset{rec.address}
  {
    var i := IndexOfSize(l, size);
    var r := AddRecord(l, size, rec);
    if i < |l| {
      PushRecordTotals(l, i, rec);
    } else {
      assert r[1..] == l;
      assert RecAddrs([rec]) == multiset{rec.address} + RecAddrs([rec][1..]);
    }
  }

  /** Pushing a record onto bucket i adds its size, one block and its address. */
  lemma PushRecordTotals<D>(l: seq<MemInfo<D>>, i: nat, rec: AddrNode<D>)
    requires i < |l|
    ensures var r := l[i := PushRecord(l[i], rec)];
      && Bytes(r) == Bytes(l) + l[i].size
      && Blocks(r) == Blocks(l) + 1
      && LiveAddrs(r) == LiveAddrs(l) + multiset{rec.address}
  {
    var b := PushRecord(l[i], rec);
    BytesUpdate(l, i, b);
    BlocksUpdate(l, i, b);
    MulSucc(l[i].size, l[i].numberOfAllocations);
    PushRecordAddrs(l, i, rec);
  }

  /** Pushing a record onto bucket i adds its address to the live addresses. */
  lemma PushRecordAddrs<D>(l: seq<MemInfo<D>>, i: nat, rec: AddrNode<D>)
    requires i < |l|
    ensures LiveAddrs(l[i := PushRecord(l[i], rec)]) == LiveAddrs(l) + multiset{rec.address}
  {
    var b := PushRecord(l[i], rec);
    LiveAddrsUpdate(l, i, b);
    assert b.addresses[1..] == l[i].addresses;
    assert RecAddrs(b.addresses) == multiset{rec.address} + RecAddrs(l[i].addresses);
    SwapIn(LiveAddrs(l[i := b]), LiveAddrs(l), RecAddrs(l[i].addresses), RecAddrs(b.addresses), rec.address);
  }

  /**
   * RemoveAllocationFromList on one kind's list: the bucket stays (even at count 0)
   * with one record fewer and no other bucket changes.
   */
  lemma RemoveRecordShape<D>(l: seq<MemInfo<D>>, size: nat, ptr: Address)
    requires CountsMatch(l) && SizesDistinct(l) && Removable(l, size, ptr)
    ensures var r := RemoveRecord(l, size, ptr);
      && CountsMatch(r) && SizesDistinct(r)
      && |r| == |l|
      && (forall k :: 0 <= k < |l| ==> r[k].size == l[k].size)
      && (forall k :: 0 <= k < |l| && l[k].size != size ==> r[k] == l[k])
      && r[IndexOfSize(l, size)].numberOfAllocations == l[IndexOfSize(l, size)].numberOfAllocations - 1
  {
  }

  /** RemoveAllocationFromList on one kind's list: one block and `size` bytes fewer are live. */
  lemma RemoveRecordCounters<D>(l: seq<MemInfo<D>>, size: nat, ptr: Address)
    requires Removable(l, size, ptr)
    ensures Bytes(RemoveRecord(l, size, ptr)) == Bytes(l) - size
    ensures Blocks(RemoveRecord(l, size, ptr)) == Blocks(l) - 1
  {
    var i := IndexOfSize(l, size);
    var b := DropRecord(l[i], IndexOfAddr(l[i].addresses, ptr));
    assert RemoveRecord(l, size, ptr) == l[i := b];
    BytesUpdate(l, i, b);
    BlocksUpdate(l, i, b);
    MulSucc(l[i].size, l[i].numberOfAllocations);
  }

  /** RemoveAllocationFromList on one kind's list: exactly one occurrence of `ptr` leaves the live addresses. */
  lemma RemoveRecordAddrs<D>(l: seq<MemInfo<D>>, size: nat, ptr: Address)
    requires Removable(l, size, ptr)
    ensures LiveAddrs(RemoveRecord(l, size, ptr)) + multiset{ptr} == LiveAddrs(l)
  {
    var i := IndexOfSize(l, size);
    var j := IndexOfAddr(l[i].addresses, ptr);
    var b := DropRecord(l[i], j);
    var r := RemoveRecord(l, size, ptr);
    assert r == l[i := b];
    LiveAddrsUpdate(l, i, b);
    RecAddrsRemove(l[i].addresses, j);
    SwapOut(LiveAddrs(r), LiveAddrs(l), RecAddrs(l[i].addresses), RecAddrs(b.addresses), ptr);
  }

  /**
   * An allocation immediately freed again leaves the list as it was, except that a
   * bucket created for it persists with count 0.
   */
  lemma AddRemoveRoundTrip<D>(l: seq<MemInfo<D>>, size: nat, rec: AddrNode<D>)
    ensures Removable(AddRecord(l, size, rec), size, rec.address)
    ensures RemoveRecord(AddRecord(l, size, rec), size, rec.address)
         == if IndexOfSize(l, size) < |l| then l else [MemInfo(size, 0, [])] + l
  {
    var i := IndexOfSize(l, size);
    if i < |l| {
      PushPopRoundTrip(l, size, rec, i);
    } else {
      var r := AddRecord(l, size, rec);
      assert IndexOfSize(r, size) == 0;
      assert IndexOfAddr(r[0].addresses, rec.address) == 0;
      assert DropRecord(r[0], 0) == MemInfo(size, 0, []);
    }
  }

  /** AddRemoveRoundTrip when a bucket of the size exists: the record is pushed and unlinked again. */
  lemma PushPopRoundTrip<D>(l: seq<MemInfo<D>>, size: nat, rec: AddrNode<D>, i: nat)
    requires i == IndexOfSize(l, size) && i < |l|
    ensures Removable(AddRecord(l, size, rec), size, rec.address)
    ensures RemoveRecord(AddRecord(l, size, rec), size, rec.address) == l
  {
    var r := AddRecord(l, size, rec);
    assert r == l[i := PushRecord(l[i], rec)];
    IndexOfSizeIs(r, size, i);
    assert IndexOfAddr(r[i].addresses, rec.address) == 0;
    assert r[i].addresses[..0] + r[i].addresses[1..] == l[i].addresses;
    assert DropRecord(r[i], 0) == l[i];
    assert l[i := l[i]] == l;
  }

  // ---------------------------------------------------------------------------
  // The whole index: both kinds' lists and the allocation headers

  /** Every record sits in the bucket and kind its block's header names. */
  ghost predicate HeadersAgree<D>(l: seq<MemInfo<D>>, kind: AllocKind, headers: map<Address, Header>)
  {
    forall i, j :: 0 <= i < |l| && 0 <= j < |l[i].addresses| ==>
      l[i].addresses[j].address in headers &&
      headers[l[i].addresses[j].address] == Header(l[i].size, kind)
  }

  /**
   * The index invariant: counts match, one bucket per size, and the records of both
   * kinds are in one-to-one correspondence with the live headers, each sitting in
   * the bucket of its header's size in the list of its header's kind.
   */
  ghost predicate IndexValid<D>(lNew: seq<MemInfo<D>>, lArr: seq<MemInfo<D>>, headers: map<Address, Header>)
  {
    && CountsMatch(lNew) && CountsMatch(lArr)
    && SizesDistinct(lNew) && SizesDistinct(lArr)
    && Null !in headers
    && LiveAddrs(lNew) + LiveAddrs(lArr) == multiset(headers.Keys)
    && HeadersAgree(lNew, AllocNew, headers)
    && HeadersAgree(lArr, AllocNewArray, headers)
  }

  lemma HeadersAgreeAdd<D>(l: seq<MemInfo<D>>, kind: AllocKind, headers: map<Address, Header>,
                           size: nat, rec: AddrNode<D>)
    requires HeadersAgree(l, kind, headers) && rec.address !in headers
    ensures HeadersAgree(AddRecord(l, size, rec), kind, headers[rec.address := Header(size, kind)])
  {
    var h' := headers[rec.address := Header(size, kind)];
    var i := IndexOfSize(l, size);
    var r := AddRecord(l, size, rec);
    if i < |l| {
      forall i', j' | 0 <= i' < |r| && 0 <= j' < |r[i'].addresses|
        ensures r[i'].addresses[j'].address in h' && h'[r[i'].addresses[j'].address] == Header(r[i'].size, kind)
      {
        if i' == i && j' > 0 {
          assert r[i'].addresses[j'] == l[i].addresses[j' - 1];
        }
      }
    } else {
      forall i', j' | 0 <= i' < |r| && 0 <= j' < |r[i'].addresses|
        ensures r[i'].addresses[j'].address in h' && h'[r[i'].addresses[j'].address] == Header(r[i'].size, kind)
      {
        if i' > 0 {
          assert r[i'] == l[i' - 1];
        }
      }
    }
  }

  lemma HeadersAgreeFresh<D>(l: seq<MemInfo<D>>, kind: AllocKind, headers: map<Address, Header>,
                             a: Address, h: Header)
    requires HeadersAgree(l, kind, headers) && a !in headers
    ensures HeadersAgree(l, kind, headers[a := h])
  {
  }

  lemma MultisetOfSetAdd(s: set<Address>, a: Address)
    requires a !in s
    ensures multiset(s + {a}) == multiset(s) + multiset{a}
  {
  }

  lemma MultisetOfSetRemove(s: set<Address>, a: Address)
    requires a in s
    ensures multiset(s - {a}) + multiset{a} == multiset(s)
  {
  }

  /** Recording a fresh, non-null block keeps the index invariant. */
  lemma AddKeepsIndexValid<D>(lNew: seq<MemInfo<D>>, lArr: seq<MemInfo<D>>, headers: map<Address, Header>,
                              kind: AllocKind, size: nat, rec: AddrNode<D>)
    requires IndexValid(lNew, lArr, headers)
    requires rec.address != Null && rec.address !in headers
    ensures var h' := headers[rec.address := Header(size, kind)];
      if kind == AllocNew then IndexValid(AddRecord(lNew, size, rec), lArr, h')
      else IndexValid(lNew, AddRecord(lArr, size, rec), h')
  {
    var h' := headers[rec.address := Header(size, kind)];
    assert h'.Keys == headers.Keys + {rec.address};
    MultisetOfSetAdd(headers.Keys, rec.address);
    if kind == AllocNew {
      AddRecordShape(lNew, size, rec);
      AddRecordTotals(lNew, size, rec);
      HeadersAgreeAdd(lNew, kind, headers, size, rec);
      HeadersAgreeFresh(lArr, AllocNewArray, headers, rec.address, Header(size, kind));
    } else {
      AddRecordShape(lArr, size, rec);
      AddRecordTotals(lArr, size, rec);
      HeadersAgreeAdd(lArr, kind, headers, size, rec);
      HeadersAgreeFresh(lNew, AllocNew, headers, rec.address, Header(size, kind));
    }
  }

  /** Every record of a list whose addresses are all live-header keys keeps its header. */
  lemma HeadersAgreeRemove<D>(l: seq<MemInfo<D>>, kind: AllocKind, headers: map<Address, Header>,
                              size: nat, ptr: Address, keys: set<Address>)
    requires HeadersAgree(l, kind, headers) && Removable(l, size, ptr)
    requires forall a :: a in LiveAddrs(RemoveRecord(l, size, ptr)) ==> a in keys
    requires keys == headers.Keys - {ptr}
    ensures HeadersAgree(RemoveRecord(l, size, ptr), kind, headers - {ptr})
  {
    var i := IndexOfSize(l, size);
    var j := IndexOfAddr(l[i].addresses, ptr);
    var r := RemoveRecord(l, size, ptr);
    forall i', j' | 0 <= i' < |r| && 0 <= j' < |r[i'].addresses|
      ensures r[i'].addresses[j'].address in headers - {ptr}
      ensures (headers - {ptr})[r[i'].addresses[j'].address] == Header(r[i'].size, kind)
    {
      LiveAddrsHas(r, i', j');
      if i' == i {
        if j' < j {
          assert r[i'].addresses[j'] == l[i].addresses[j'];
        } else {
          assert r[i'].addresses[j'] == l[i].addresses[j' + 1];
        }
      }
    }
  }

  lemma HeadersAgreeShrink<D>(l: seq<MemInfo<D>>, kind: AllocKind, headers: map<Address, Header>,
                              ptr: Address)
    requires HeadersAgree(l, kind, headers)
    requires ptr !in LiveAddrs(l)
    ensures HeadersAgree(l, kind, headers - {ptr})
  {
    forall i, j | 0 <= i < |l| && 0 <= j < |l[i].addresses|
      ensures l[i].addresses[j].address != ptr
    {
      LiveAddrsHas(l, i, j);
    }
  }

  /** Unlinking the record of a live block and dropping its header keeps the index invariant. */
  lemma RemoveKeepsIndexValid<D>(lNew: seq<MemInfo<D>>, lArr: seq<MemInfo<D>>, headers: map<Address, Header>,
                                 kind: AllocKind, ptr: Address)
    requires IndexValid(lNew, lArr, headers)
    requires ptr in headers && Removable(Pick(kind, lNew, lArr), headers[ptr].rawSize, ptr)
    ensures var size, h' := headers[ptr].rawSize, headers - {ptr};
      if kind == AllocNew then IndexValid(RemoveRecord(lNew, size, ptr), lArr, h')
      else IndexValid(lNew, RemoveRecord(lArr, size, ptr), h')
  {
    if kind == AllocNew {
      RemoveKeepsNew(lNew, lArr, headers, ptr);
    } else {
      RemoveKeepsArray(lNew, lArr, headers, ptr);
    }
  }

  /** RemoveKeepsIndexValid for the non-array list. */
  lemma RemoveKeepsNew<D>(lNew: seq<MemInfo<D>>, lArr: seq<MemInfo<D>>, headers: map<Address, Header>, ptr: Address)
    requires IndexValid(lNew, lArr, headers)
    requires ptr in headers && Removable(lNew, headers[ptr].rawSize, ptr)
    ensures IndexValid(RemoveRecord(lNew, headers[ptr].rawSize, ptr), lArr, headers - {ptr})
  {
    var size, h' := headers[ptr].rawSize, headers - {ptr};
    assert h'.Keys == headers.Keys - {ptr};
    MultisetOfSetRemove(headers.Keys, ptr);
    var r := RemoveRecord(lNew, size, ptr);
    RemoveRecordShape(lNew, size, ptr);
    RemoveRecordAddrs(lNew, size, ptr);
    assert (LiveAddrs(r) + LiveAddrs(lArr)) + multiset{ptr} == (LiveAddrs(r) + multiset{ptr}) + LiveAddrs(lArr);
    Cancel(LiveAddrs(r) + LiveAddrs(lArr), multiset(h'.Keys), multiset{ptr});
    forall a | a in LiveAddrs(r) ensures a in h'.Keys {
      assert a in multiset(h'.Keys);
    }
    HeadersAgreeRemove(lNew, AllocNew, headers, size, ptr, h'.Keys);
    assert ptr !in multiset(h'.Keys);
    assert (LiveAddrs(r) + LiveAddrs(lArr))[ptr] == 0;
    HeadersAgreeShrink(lArr, AllocNewArray, headers, ptr);
  }

  /** RemoveKeepsIndexValid for the array list. */
  lemma RemoveKeepsArray<D>(lNew: seq<MemInfo<D>>, lArr: seq<MemInfo<D>>, headers: map<Address, Header>, ptr: Address)
    requires IndexValid(lNew, lArr, headers)
    requires ptr in headers && Removable(lArr, headers[ptr].rawSize, ptr)
    ensures IndexValid(lNew, RemoveRecord(lArr, headers[ptr].rawSize, ptr), headers - {ptr})
  {
    var size, h' := headers[ptr].rawSize, headers - {ptr};
    assert h'.Keys == headers.Keys - {ptr};
    MultisetOfSetRemove(headers.Keys, ptr);
    var r := RemoveRecord(lArr, size, ptr);
    RemoveRecordShape(lArr, size, ptr);
    RemoveRecordAddrs(lArr, size, ptr);
    assert (LiveAddrs(lNew) + LiveAddrs(r)) + multiset{ptr} == LiveAddrs(lNew) + (LiveAddrs(r) + multiset{ptr});
    Cancel(LiveAddrs(lNew) + LiveAddrs(r), multiset(h'.Keys), multiset{ptr});
    forall a | a in LiveAddrs(r) ensures a in h'.Keys {
      assert a in multiset(h'.Keys);
    }
    HeadersAgreeRemove(lArr, AllocNewArray, headers, size, ptr, h'.Keys);
    assert ptr !in multiset(h'.Keys);
    assert (LiveAddrs(lNew) + LiveAddrs(r))[ptr] == 0;
    HeadersAgreeShrink(lNew, AllocNew, headers, ptr);
  }

  /**
   * Recording a fresh block in either kind's list keeps the index invariant with the
   * block's header added, and adds its size and one block to the totals.
   */
  lemma AddedToKeeps<D>(lNew: seq<MemInfo<D>>, lArr: seq<MemInfo<D>>, headers: map<Address, Header>,
                        kind: AllocKind, size: nat, rec: AddrNode<D>)
    requires IndexValid(lNew, lArr, headers)
    requires rec.address != Null && rec.address !in headers
    ensures var (lNew', lArr') := AddedTo(kind, lNew, lArr, size, rec);
      && IndexValid(lNew', lArr', headers[rec.address := Header(size, kind)])
      && Bytes(lNew') + Bytes(lArr') == Bytes(lNew) + Bytes(lArr) + size
      && Blocks(lNew') + Blocks(lArr') == Blocks(lNew) + Blocks(lArr) + 1
  {
    AddKeepsIndexValid(lNew, lArr, headers, kind, size, rec);
    AddRecordTotals(Pick(kind, lNew, lArr), size, rec);
  }

  /**
   * Unlinking a live block from either kind's list keeps the index invariant with the
   * block's header dropped, and takes its size and one block from the totals.
   */
  lemma RemovedFromKeeps<D>(lNew: seq<MemInfo<D>>, lArr: seq<MemInfo<D>>, headers: map<Address, Header>,
                            kind: AllocKind, ptr: Address)
    requires IndexValid(lNew, lArr, headers)
    requires ptr in headers && Removable(Pick(kind, lNew, lArr), headers[ptr].rawSize, ptr)
    ensures var size := headers[ptr].rawSize;
      var (lNew', lArr') := RemovedFrom(kind, lNew, lArr, size, ptr);
      && IndexValid(lNew', lArr', headers - {ptr})
      && Bytes(lNew') + Bytes(lArr') == Bytes(lNew) + Bytes(lArr) - size
      && Blocks(lNew') + Blocks(lArr') == Blocks(lNew) + Blocks(lArr) - 1
  {
    RemoveKeepsIndexValid(lNew, lArr, headers, kind, ptr);
    RemoveRecordCounters(Pick(kind, lNew, lArr), headers[ptr].rawSize, ptr);
  }

  /** Adding a fresh block's header and dropping it again restores the headers. */
  lemma MapAddRemove(m: map<Address, Header>, a: Address, h: Header)
    requires a !in m
    ensures m[a := h] - {a} == m
  {
  }

  /** A live block's record is in the list of the kind its header names. */
  lemma LiveInOwnKind<D>(lNew: seq<MemInfo<D>>, lArr: seq<MemInfo<D>>, headers: map<Address, Header>,
                         ptr: Address)
    requires IndexValid(lNew, lArr, headers) && ptr in headers
    ensures ptr in LiveAddrs(Pick(headers[ptr].kind, lNew, lArr))
  {
    assert ptr in multiset(headers.Keys);
    if ptr in LiveAddrs(lNew) {
      LiveAddrsOwner(lNew, ptr);
      var i := IndexOfOwner(lNew, ptr);
      var j := IndexOfAddr(lNew[i].addresses, ptr);
      assert lNew[i].addresses[j].address == ptr;
    } else {
      LiveAddrsOwner(lArr, ptr);
      var i := IndexOfOwner(lArr, ptr);
      var j := IndexOfAddr(lArr[i].addresses, ptr);
      assert lArr[i].addresses[j].address == ptr;
    }
  }

  /**
   * Under the index invariant, the assertions of RemoveAllocationFromList hold exactly
   * when `ptr` is a live block whose header names this size and this kind: a foreign,
   * already freed or kind-mismatched pointer always fails them.
   */
  lemma RemovableIffLive<D>(lNew: seq<MemInfo<D>>, lArr: seq<MemInfo<D>>, headers: map<Address, Header>,
                            kind: AllocKind, size: nat, ptr: Address)
    requires IndexValid(lNew, lArr, headers)
    ensures Removable(Pick(kind, lNew, lArr), size, ptr) <==> ptr in headers && headers[ptr] == Header(size, kind)
  {
    var l := Pick(kind, lNew, lArr);
    assert HeadersAgree(l, kind, headers);
    var i := IndexOfSize(l, size);
    if Removable(l, size, ptr) {
      var j := IndexOfAddr(l[i].addresses, ptr);
      assert l[i].addresses[j].address == ptr;
    }
    if ptr in headers && headers[ptr] == Header(size, kind) {
      LiveInOwnKind(lNew, lArr, headers, ptr);
      LiveAddrsOwner(l, ptr);
      var o := IndexOfOwner(l, ptr);
      var j := IndexOfAddr(l[o].addresses, ptr);
      assert l[o].addresses[j].address == ptr;
      assert l[o].size == size;
      assert o == i;
    }
  }

  // ---------------------------------------------------------------------------
  // Locating records and replacing their details

  /** A record found by walking an address list is the one IndexOfAddr names. */
  lemma IndexOfAddrIs<D>(recs: seq<AddrNode<D>>, ptr: Address, j: nat)
    requires j < |recs| && recs[j].address == ptr
    requires forall k :: 0 <= k < j ==> recs[k].address != ptr
    ensures IndexOfAddr(recs, ptr) == j
  {
  }

  /** A bucket found by walking the list and its address lists is the one IndexOfOwner names. */
  lemma IndexOfOwnerIs<D>(l: seq<MemInfo<D>>, ptr: Address, i: nat)
    requires i < |l| && Holds(l[i], ptr)
    requires forall k :: 0 <= k < i ==> !Holds(l[k], ptr)
    ensures IndexOfOwner(l, ptr) == i
  {
  }

  /** Every record's address is among its record list's addresses. */
  lemma RecAddrsHas<D>(recs: seq<AddrNode<D>>, j: nat)
    requires j < |recs|
    ensures recs[j].address in RecAddrs(recs)
  {
    RecAddrsFind(recs, recs[j].address);
  }

  /** Two records of one list with the same address put that address in twice. */
  lemma {:induction false} RecAddrsTwice<D>(recs: seq<AddrNode<D>>, j1: nat, j2: nat)
    requires j1 < j2 < |recs| && recs[j1].address == recs[j2].address
    ensures RecAddrs(recs)[recs[j1].address] >= 2
  {
    if j1 == 0 {
      RecAddrsHas(recs[1..], j2 - 1);
    } else {
      RecAddrsTwice(recs[1..], j1 - 1, j2 - 1);
    }
  }

  /** One bucket's addresses are part of the list's addresses. */
  lemma {:induction false} LiveAddrsOne<D>(l: seq<MemInfo<D>>, i: nat)
    requires i < |l|
    ensures RecAddrs(l[i].addresses) <= LiveAddrs(l)
  {
    if i > 0 {
      LiveAddrsOne(l[1..], i - 1);
    }
  }

  /** Two buckets' addresses together are part of the list's addresses. */
  lemma LiveAddrsPair<D>(l: seq<MemInfo<D>>, i1: nat, i2: nat)
    requires i1 < i2 < |l|
    ensures RecAddrs(l[i1].addresses) + RecAddrs(l[i2].addresses) <= LiveAddrs(l)
  {
    var emptied := l[i2].(addresses := []);
    var l' := l[i2 := emptied];
    LiveAddrsUpdate(l, i2, emptied);
    assert LiveAddrs(l') + RecAddrs(l[i2].addresses) == LiveAddrs(l);
    assert l'[i1] == l[i1];
    LiveAddrsOne(l', i1);
    AddLe(RecAddrs(l[i1].addresses), RecAddrs(l[i2].addresses), LiveAddrs(l'), RecAddrs(l[i2].addresses));
  }

  /** Two different record positions with the same address put that address in twice. */
  lemma LiveAddrsTwice<D>(l: seq<MemInfo<D>>, i1: nat, j1: nat, i2: nat, j2: nat)
    requires i1 < |l| && j1 < |l[i1].addresses| && i2 < |l| && j2 < |l[i2].addresses|
    requires (i1, j1) != (i2, j2)
    requires l[i1].addresses[j1].address == l[i2].addresses[j2].address
    ensures LiveAddrs(l)[l[i1].addresses[j1].address] >= 2
  {
    var a := l[i1].addresses[j1].address;
    if i1 == i2 {
      LiveAddrsOne(l, i1);
      if j1 < j2 {
        RecAddrsTwice(l[i1].addresses, j1, j2);
      } else {
        RecAddrsTwice(l[i1].addresses, j2, j1);
      }
    } else {
      RecAddrsHas(l[i1].addresses, j1);
      RecAddrsHas(l[i2].addresses, j2);
      if i1 < i2 {
        LiveAddrsPair(l, i1, i2);
      } else {
        LiveAddrsPair(l, i2, i1);
      }
    }
  }

  /** The list with record j of bucket i given new details `d` (its address stays). */
  function SetInfo<D>(l: seq<MemInfo<D>>, i: nat, j: nat, d: D): seq<MemInfo<D>>
    requires i < |l| && j < |l[i].addresses|
  {
    l[i := l[i].(addresses := l[i].addresses[j := AddrNode(l[i].addresses[j].address, d)])]
  }

  /** Replacing details changes no address in a record list. */
  lemma {:induction false} RecAddrsSetInfo<D>(recs: seq<AddrNode<D>>, j: nat, d: D)
    requires j < |recs|
    ensures RecAddrs(recs[j := AddrNode(recs[j].address, d)]) == RecAddrs(recs)
  {
    if j > 0 {
      assert recs[j := AddrNode(recs[j].address, d)][1..] == recs[1..][j - 1 := AddrNode(recs[j].address, d)];
      RecAddrsSetInfo(recs[1..], j - 1, d);
    }
  }

  /** Replacing a record's details changes no total and no address. */
  lemma SetInfoTotals<D>(l: seq<MemInfo<D>>, i: nat, j: nat, d: D)
    requires i < |l| && j < |l[i].addresses|
    ensures var r := SetInfo(l, i, j, d);
      Bytes(r) == Bytes(l) && Blocks(r) == Blocks(l) && LiveAddrs(r) == LiveAddrs(l)
  {
    var b := l[i].(addresses := l[i].addresses[j := AddrNode(l[i].addresses[j].address, d)]);
    assert SetInfo(l, i, j, d) == l[i := b];
    BytesUpdate(l, i, b);
    BlocksUpdate(l, i, b);
    LiveAddrsUpdate(l, i, b);
    RecAddrsSetInfo(l[i].addresses, j, d);
    Cancel(LiveAddrs(l[i := b]), LiveAddrs(l), RecAddrs(b.addresses));
  }

  /** Replacing a record's details keeps the counts, the sizes and the header agreement. */
  lemma SetInfoShape<D>(l: seq<MemInfo<D>>, i: nat, j: nat, d: D, kind: AllocKind, headers: map<Address, Header>)
    requires i < |l| && j < |l[i].addresses|
    ensures var r := SetInfo(l, i, j, d);
      && |r| == |l|
      && r[i].addresses[j] == AddrNode(l[i].addresses[j].address, d)
      && (CountsMatch(l) ==> CountsMatch(r))
      && (SizesDistinct(l) ==> SizesDistinct(r))
      && (HeadersAgree(l, kind, headers) ==> HeadersAgree(r, kind, headers))
  {
    var r := SetInfo(l, i, j, d);
    assert forall k :: 0 <= k < |l| ==> r[k].size == l[k].size && |r[k].addresses| == |l[k].addresses|;
    assert forall k, m :: 0 <= k < |l| && 0 <= m < |l[k].addresses| ==> r[k].addresses[m].address == l[k].addresses[m].address;
  }

  /** Replacing a record's details changes no total, no address and no header agreement. */
  lemma SetInfoKeeps<D>(l: seq<MemInfo<D>>, i: nat, j: nat, d: D, kind: AllocKind, headers: map<Address, Header>)
    requires i < |l| && j < |l[i].addresses|
    ensures var r := SetInfo(l, i, j, d);
      && |r| == |l|
      && r[i].addresses[j] == AddrNode(l[i].addresses[j].address, d)
      && Bytes(r) == Bytes(l) && Blocks(r) == Blocks(l) && LiveAddrs(r) == LiveAddrs(l)
      && (CountsMatch(l) ==> CountsMatch(r))
      && (SizesDistinct(l) ==> SizesDistinct(r))
      && (HeadersAgree(l, kind, headers) ==> HeadersAgree(r, kind, headers))
  {
    SetInfoTotals(l, i, j, d);
    SetInfoShape(l, i, j, d, kind, headers);
  }

  // ---------------------------------------------------------------------------
  // The list walks of the source, as loops

  /** The walk `while(current && current->size != size) current = current->next;`. */
  method FindBucket<D>(l: seq<MemInfo<D>>, size: nat) returns (i: nat)
    ensures i <= |l|
    ensures i < |l| ==> l[i].size == size
    ensures forall k :: 0 <= k < i ==> l[k].size != size
  {
    i := 0;
    while i < |l| && l[i].size != size
      invariant i <= |l|
      invariant forall k :: 0 <= k < i ==> l[k].size != size
    {
      i := i + 1;
    }
  }

  /** The walk down an address list until the address matches. */
  method FindAddress<D>(recs: seq<AddrNode<D>>, ptr: Address) returns (j: nat)
    ensures j <= |recs|
    ensures j < |recs| ==> recs[j].address == ptr
    ensures forall k :: 0 <= k < j ==> recs[k].address != ptr
  {
    j := 0;
    while j < |recs| && recs[j].address != ptr
      invariant j <= |recs|
      invariant forall k :: 0 <= k < j ==> recs[k].address != ptr
    {
      j := j + 1;
    }
  }

  /** DisplayAllocs: the sum of the counts of the buckets with a nonzero count. */
  method CountLive<D>(l: seq<MemInfo<D>>) returns (total: int)
    ensures total == LiveCount(l)
  {
    total := 0;
    var k := 0;
    assert l[0..] == l;
    while k < |l|
      invariant 0 <= k <= |l|
      invariant total + LiveCount(l[k..]) == LiveCount(l)
    {
      assert l[k..][1..] == l[k + 1..];
      if l[k].numberOfAllocations != 0 {
        total := total + l[k].numberOfAllocations;
      }
      k := k + 1;
    }
  }

  /**
   * cleanupLeakCheck on one kind's list: one group per nonempty bucket, the records
   * listed under them and the total of their counts.
   */
  method SweepList<D>(l: seq<MemInfo<D>>, kind: AllocKind)
    returns (groups: seq<LeakGroup>, records: seq<AddrNode<D>>, total: int)
    ensures groups == LeakGroups(l, kind)
    ensures records == LeakedRecords(l)
    ensures total == LiveCount(l)
  {
    groups, records, total := [], [], 0;
    var k := 0;
    assert l[0..] == l;
    while k < |l|
      invariant 0 <= k <= |l|
      invariant groups + LeakGroups(l[k..], kind) == LeakGroups(l, kind)
      invariant records + LeakedRecords(l[k..]) == LeakedRecords(l)
      invariant total + LiveCount(l[k..]) == LiveCount(l)
    {
      SweepStep(l, k, kind);
      var g, rs := LeakGroups(l[k + 1..], kind), LeakedRecords(l[k + 1..]);
      if l[k].numberOfAllocations != 0 {
        var group := LeakGroup(l[k].numberOfAllocations, l[k].size, kind);
        assert groups + ([group] + g) == (groups + [group]) + g;
        assert records + (l[k].addresses + rs) == (records + l[k].addresses) + rs;
        groups := groups + [group];
        records := records + l[k].addresses;
        total := total + l[k].numberOfAllocations;
      } else {
        assert [] + g == g && [] + rs == rs;
      }
      k := k + 1;
    }
  }

  /** One bucket of the teardown sweep: the sums over a suffix of the list, unfolded once. */
  lemma SweepStep<D>(l: seq<MemInfo<D>>, k: nat, kind: AllocKind)
    requires k < |l|
    ensures var live := l[k].numberOfAllocations != 0;
      && LeakGroups(l[k..], kind)
         == (if live then [LeakGroup(l[k].numberOfAllocations, l[k].size, kind)] else []) + LeakGroups(l[k + 1..], kind)
      && LeakedRecords(l[k..]) == (if live then l[k].addresses else []) + LeakedRecords(l[k + 1..])
      && LiveCount(l[k..]) == (if live then l[k].numberOfAllocations else 0) + LiveCount(l[k + 1..])
  {
    assert l[k..][0] == l[k] && l[k..][1..] == l[k + 1..];
  }
}
