/**
 * MemoryTracer's type aggregator: a list of `TypeNode`s, one per type name, each
 * holding the number of outstanding blocks and bytes attributed to that name.
 * New labels are pushed to the front; entries are never removed, so their counts
 * may return to zero (the statistics table skips such entries).
 */
module TypeList {

  /** A TypeNode: a type name with its outstanding block count and byte total. */
  datatype TypeNode = TypeNode(typeLabel: string, blocks: int, memSize: int)

  /** The first entry with the name (the `strcmp` walk), or |types| when there is none. */
  function IndexOfLabel(types: seq<TypeNode>, name: string): (i: nat)
    ensures i <= |types|
    ensures i < |types| ==> types[i].typeLabel == name
    ensures forall k :: 0 <= k < i ==> types[k].typeLabel != name
  {
    if |types| == 0 then 0
    else if types[0].typeLabel == name then 0
    else 1 + IndexOfLabel(types[1..], name)
  }

  /** One entry per name. */
  ghost predicate LabelsDistinct(types: seq<TypeNode>)
  {
    forall i, j :: 0 <= i < j < |types| ==> types[i].typeLabel != types[j].typeLabel
  }

  /** The blocks recorded for a name, 0 when it has no entry. */
  function BlocksOf(types: seq<TypeNode>, name: string): int
  {
    var i := IndexOfLabel(types, name);
    if i < |types| then types[i].blocks else 0
  }

  /** The bytes recorded for a name, 0 when it has no entry. */
  function BytesOf(types: seq<TypeNode>, name: string): int
  {
    var i := IndexOfLabel(types, name);
    if i < |types| then types[i].memSize else 0
  }

  /**
   * AddToTypeList: the name's entry gains one block and `size` bytes; a name without
   * an entry gets a new entry (1, size) at the front of the list.
   */
  function TypeAdded(types: seq<TypeNode>, name: string, size: nat): seq<TypeNode>
  {
    var i := IndexOfLabel(types, name);
    if i < |types| then types[i := types[i].(blocks := types[i].blocks + 1, memSize := types[i].memSize + size)]
    else [TypeNode(name, 1, size)] + types
  }

  /** RemoveFromTypeList: the name's entry, which must exist, loses one block and `size` bytes. */
  function TypeRemoved(types: seq<TypeNode>, name: string, size: nat): seq<TypeNode>
    requires IndexOfLabel(types, name) < |types|
  {
    var i := IndexOfLabel(types, name);
    types[i := types[i].(blocks := types[i].blocks - 1, memSize := types[i].memSize - size)]
  }

  /** Changing the counts of entries, not their labels, does not move any name's entry. */
  lemma {:induction false} IndexOfLabelSameLabels(a: seq<TypeNode>, b: seq<TypeNode>, name: string)
    requires |a| == |b|
    requires forall k :: 0 <= k < |a| ==> a[k].typeLabel == b[k].typeLabel
    ensures IndexOfLabel(a, name) == IndexOfLabel(b, name)
  {
    if |a| > 0 && a[0].typeLabel != name {
      IndexOfLabelSameLabels(a[1..], b[1..], name);
    }
  }

  /**
   * AddToTypeList changes only the added name's totals, by one block and `size`
   * bytes, and keeps one entry per name.
   */
  lemma TypeAddedEffect(types: seq<TypeNode>, name: string, size: nat)
    ensures var r := TypeAdded(types, name, size);
      && IndexOfLabel(r, name) < |r|
      && BlocksOf(r, name) == BlocksOf(types, name) + 1
      && BytesOf(r, name) == BytesOf(types, name) + size
      && (LabelsDistinct(types) ==> LabelsDistinct(r))
    ensures forall other :: other != name ==>
      BlocksOf(TypeAdded(types, name, size), other) == BlocksOf(types, other) &&
      BytesOf(TypeAdded(types, name, size), other) == BytesOf(types, other)
  {
    var i := IndexOfLabel(types, name);
    var r := TypeAdded(types, name, size);
    if i < |types| {
      forall x {
        IndexOfLabelSameLabels(r, types, x);
      }
    } else {
      assert r[1..] == types;
      forall other | other != name
        ensures BlocksOf(r, other) == BlocksOf(types, other) && BytesOf(r, other) == BytesOf(types, other)
      {
        assert IndexOfLabel(r, other) == 1 + IndexOfLabel(types, other);
      }
    }
  }

  /**
   * RemoveFromTypeList changes only the removed name's totals, by one block and
   * `size` bytes; the entry stays even when its counts reach zero.
   */
  lemma TypeRemovedEffect(types: seq<TypeNode>, name: string, size: nat)
    requires IndexOfLabel(types, name) < |types|
    ensures var r := TypeRemoved(types, name, size);
      && |r| == |types|
      && BlocksOf(r, name) == BlocksOf(types, name) - 1
      && BytesOf(r, name) == BytesOf(types, name) - size
      && (LabelsDistinct(types) ==> LabelsDistinct(r))
    ensures forall other :: other != name ==>
      BlocksOf(TypeRemoved(types, name, size), other) == BlocksOf(types, other) &&
      BytesOf(TypeRemoved(types, name, size), other) == BytesOf(types, other)
  {
    var r := TypeRemoved(types, name, size);
    forall x {
      IndexOfLabelSameLabels(r, types, x);
    }
  }

  /**
   * Adding a name's block and removing it again restores the list, except that an
   * entry created for the name stays with zero blocks and bytes.
   */
  lemma TypeAddRemoveRoundTrip(types: seq<TypeNode>, name: string, size: nat)
    ensures IndexOfLabel(TypeAdded(types, name, size), name) < |TypeAdded(types, name, size)|
    ensures TypeRemoved(TypeAdded(types, name, size), name, size)
         == if IndexOfLabel(types, name) < |types| then types else [TypeNode(name, 0, 0)] + types
  {
    var i := IndexOfLabel(types, name);
    var r := TypeAdded(types, name, size);
    if i < |types| {
      IndexOfLabelSameLabels(r, types, name);
      assert TypeRemoved(r, name, size) == types;
    } else {
      assert IndexOfLabel(r, name) == 0;
    }
  }

  /** The `strcmp` walk of AddToTypeList and RemoveFromTypeList. */
  method FindLabel(types: seq<TypeNode>, name: string) returns (i: nat)
    ensures i <= |types|
    ensures i < |types| ==> types[i].typeLabel == name
    ensures forall k :: 0 <= k < i ==> types[k].typeLabel != name
  {
    i := 0;
    while i < |types| && types[i].typeLabel != name
      invariant i <= |types|
      invariant forall k :: 0 <= k < i ==> types[k].typeLabel != name
    {
      i := i + 1;
    }
  }

  /** Non-increasing byte totals, the order of the statistics table. */
  ghost predicate SortedDesc(s: seq<TypeNode>)
  {
    forall i, j :: 0 <= i < j < |s| ==> s[i].memSize >= s[j].memSize
  }

  /** The rows DisplayStatTable shows: the entries with a positive block count, in list order. */
  function VisibleRows(s: seq<TypeNode>): (v: seq<TypeNode>)
    ensures forall e :: e in v ==> e in s && e.blocks > 0
    ensures forall e :: e in s && e.blocks > 0 ==> e in v
    ensures SortedDesc(s) ==> SortedDesc(v)
  {
    if |s| == 0 then []
    else
      var rest, last := VisibleRows(s[..|s| - 1]), s[|s| - 1];
      assert s == s[..|s| - 1] + [last];
      assert SortedDesc(s) ==> forall e :: e in rest ==> e.memSize >= last.memSize;
      SortedSnoc(rest, last);
      if last.blocks > 0 then rest + [last] else rest
  }

  /** The rows hold every entry with a positive block count as often as the list does, and no other entry. */
  lemma {:induction false} VisibleRowsCount(s: seq<TypeNode>)
    ensures forall e :: multiset(VisibleRows(s))[e] == (if e.blocks > 0 then multiset(s)[e] else 0)
  {
    if |s| > 0 {
      var init, last := s[..|s| - 1], s[|s| - 1];
      VisibleRowsCount(init);
      assert s == init + [last];
      assert multiset(s) == multiset(init) + multiset{last};
    }
  }

  /** The rows of two lists one after the other are the rows of the first, then those of the second. */
  lemma {:induction false} VisibleRowsAppend(s: seq<TypeNode>, t: seq<TypeNode>)
    ensures VisibleRows(s + t) == VisibleRows(s) + VisibleRows(t)
    decreases |t|
  {
    if |t| == 0 {
      assert s + t == s;
    } else {
      var init, last := t[..|t| - 1], t[|t| - 1];
      assert (s + t)[..|s + t| - 1] == s + init;
      assert (s + t)[|s + t| - 1] == last;
      VisibleRowsAppend(s, init);
      if last.blocks > 0 {
        assert VisibleRows(s) + (VisibleRows(init) + [last]) == (VisibleRows(s) + VisibleRows(init)) + [last];
      }
    }
  }

  /** An entry no larger than every entry of a sorted list can go behind it. */
  lemma SortedSnoc(t: seq<TypeNode>, x: TypeNode)
    ensures SortedDesc(t) && (forall e :: e in t ==> e.memSize >= x.memSize) ==> SortedDesc(t + [x])
  {
    if SortedDesc(t) && (forall e :: e in t ==> e.memSize >= x.memSize) {
      var s := t + [x];
      forall i, j | 0 <= i < j < |s| ensures s[i].memSize >= s[j].memSize {
        assert s[i] == t[i];
        if j < |t| {
          assert s[j] == t[j];
        }
      }
    }
  }
}
