/**
 * The sort of DisplayStatTable: a bottom-up merge sort of the type list, by
 * non-increasing byte total. Each pass merges neighbouring runs of length `insize`
 * and doubles `insize`; a pass that does at most one merge ends the sort. On equal
 * byte totals the entry of the left run comes first, which makes the sort stable.
 */
module SortList {
  import opened TypeList

  /** The entries whose byte total is `m`, in order: what a stable sort keeps for every `m`. */
  function WithSize(s: seq<TypeNode>, m: int): seq<TypeNode>
  {
    if |s| == 0 then [] else (if s[0].memSize == m then [s[0]] else []) + WithSize(s[1..], m)
  }

  /** Same entries, and in the same order among equal byte totals. */
  ghost predicate StablePermutation(a: seq<TypeNode>, b: seq<TypeNode>)
  {
    && multiset(a) == multiset(b)
    && forall m :: WithSize(a, m) == WithSize(b, m)
  }

  lemma {:induction false} WithSizeAppend(a: seq<TypeNode>, b: seq<TypeNode>, m: int)
    ensures WithSize(a + b, m) == WithSize(a, m) + WithSize(b, m)
  {
    if |a| == 0 {
      assert a + b == b;
    } else {
      var h := if a[0].memSize == m then [a[0]] else [];
      assert (a + b)[0] == a[0] && (a + b)[1..] == a[1..] + b;
      WithSizeAppend(a[1..], b, m);
      assert h + (WithSize(a[1..], m) + WithSize(b, m)) == (h + WithSize(a[1..], m)) + WithSize(b, m);
    }
  }

  /** A list whose byte totals are all below `m` has no entry of total `m`. */
  lemma {:induction false} WithSizeBelow(s: seq<TypeNode>, x: int, m: int)
    requires forall k :: 0 <= k < |s| ==> s[k].memSize <= x
    requires x < m
    ensures WithSize(s, m) == []
  {
    if |s| > 0 {
      WithSizeBelow(s[1..], x, m);
    }
  }

  /** A nonempty list has an entry with the byte total of its first entry. */
  lemma WithSizeHead(s: seq<TypeNode>)
    ensures |s| > 0 ==> WithSize(s, s[0].memSize) != []
  {
  }

  /**
   * Keeping the entries of one byte total commutes with keeping the rows the statistics
   * table shows, so tied rows appear in the table in the sorted list's order.
   */
  lemma {:induction false} WithSizeVisible(s: seq<TypeNode>, m: int)
    ensures WithSize(VisibleRows(s), m) == VisibleRows(WithSize(s, m))
  {
    if |s| == 0 {
      assert VisibleRows(s) == [];
      assert WithSize(s, m) == [];
    } else {
      var x, rest := s[0], s[1..];
      var h := if x.memSize == m then [x] else [];
      assert s == [x] + rest;
      WithSizeVisible(rest, m);
      VisibleRowsAppend([x], rest);
      WithSizeAppend(VisibleRows([x]), VisibleRows(rest), m);
      WithSizeCons(x, rest, m);
      VisibleRowsAppend(h, WithSize(rest, m));
      assert [x][..0] == [] && VisibleRows([]) == [];
      assert VisibleRows([x]) == (if x.blocks > 0 then [x] else []);
      assert h == [] ==> VisibleRows(h) == [];
      assert h != [] ==> h[..0] == [] && VisibleRows(h) == (if x.blocks > 0 then [x] else []);
      assert WithSize([], m) == [];
      assert WithSize([x], m) == h by {
        WithSizeCons(x, [], m);
        assert [x] + [] == [x];
      }
    }
  }

  /** The merge of two runs: the left run's entry comes first unless the right one is larger. */
  function Merge(a: seq<TypeNode>, b: seq<TypeNode>): (r: seq<TypeNode>)
    ensures |r| == |a| + |b|
    decreases |a| + |b|
  {
    if |a| == 0 then b
    else if |b| == 0 then a
    else if b[0].memSize - a[0].memSize <= 0 then [a[0]] + Merge(a[1..], b)
    else [b[0]] + Merge(a, b[1..])
  }

  /** One unfolding of WithSize at the front of a list. */
  lemma WithSizeCons(x: TypeNode, t: seq<TypeNode>, m: int)
    ensures WithSize([x] + t, m) == (if x.memSize == m then [x] else []) + WithSize(t, m)
  {
    assert ([x] + t)[1..] == t;
  }

  /** An entry no smaller than every entry of a sorted list can go in front of it. */
  lemma SortedCons(x: TypeNode, t: seq<TypeNode>)
    requires SortedDesc(t)
    requires forall k :: 0 <= k < |t| ==> t[k].memSize <= x.memSize
    ensures SortedDesc([x] + t)
  {
    var s := [x] + t;
    forall i, j | 0 <= i < j < |s| ensures s[i].memSize >= s[j].memSize {
      assert s[j] == t[j - 1];
      if i > 0 {
        assert s[i] == t[i - 1];
      }
    }
  }

  /** The merge loses and invents no entry. */
  lemma {:induction false} MergePermutes(a: seq<TypeNode>, b: seq<TypeNode>)
    ensures multiset(Merge(a, b)) == multiset(a) + multiset(b)
    decreases |a| + |b|
  {
    if |a| > 0 && |b| > 0 {
      if b[0].memSize - a[0].memSize <= 0 {
        MergePermutes(a[1..], b);
        ConsPermutes(a[0], Merge(a[1..], b), a[1..], b);
        assert a == [a[0]] + a[1..];
        assert Merge(a, b) == [a[0]] + Merge(a[1..], b);
      } else {
        MergePermutes(a, b[1..]);
        ConsPermutes(b[0], Merge(a, b[1..]), a, b[1..]);
        assert b == [b[0]] + b[1..];
        assert Merge(a, b) == [b[0]] + Merge(a, b[1..]);
      }
    }
  }

  /** Putting one entry in front of a merge puts it in front of either of its runs. */
  lemma ConsPermutes(x: TypeNode, t: seq<TypeNode>, s: seq<TypeNode>, u: seq<TypeNode>)
    requires multiset(t) == multiset(s) + multiset(u)
    ensures multiset([x] + t) == multiset([x] + s) + multiset(u)
    ensures multiset([x] + t) == multiset(s) + multiset([x] + u)
  {
  }

  /** A bound on the byte totals of both runs bounds the merge. */
  lemma {:induction false} MergeBounded(a: seq<TypeNode>, b: seq<TypeNode>, x: int)
    requires forall k :: 0 <= k < |a| ==> a[k].memSize <= x
    requires forall k :: 0 <= k < |b| ==> b[k].memSize <= x
    ensures forall k :: 0 <= k < |Merge(a, b)| ==> Merge(a, b)[k].memSize <= x
    decreases |a| + |b|
  {
    if |a| > 0 && |b| > 0 {
      if b[0].memSize - a[0].memSize <= 0 {
        MergeBounded(a[1..], b, x);
        assert Merge(a, b) == [a[0]] + Merge(a[1..], b);
      } else {
        MergeBounded(a, b[1..], x);
        assert Merge(a, b) == [b[0]] + Merge(a, b[1..]);
      }
    }
  }

  /** Merging two sorted runs gives a sorted run. */
  lemma {:induction false} MergeSorted(a: seq<TypeNode>, b: seq<TypeNode>)
    requires SortedDesc(a) && SortedDesc(b)
    ensures SortedDesc(Merge(a, b))
    decreases |a| + |b|
  {
    if |a| > 0 && |b| > 0 {
      if b[0].memSize - a[0].memSize <= 0 {
        MergeSorted(a[1..], b);
        MergeBounded(a[1..], b, a[0].memSize);
        SortedCons(a[0], Merge(a[1..], b));
        assert Merge(a, b) == [a[0]] + Merge(a[1..], b);
      } else {
        MergeSorted(a, b[1..]);
        MergeBounded(a, b[1..], b[0].memSize);
        SortedCons(b[0], Merge(a, b[1..]));
        assert Merge(a, b) == [b[0]] + Merge(a, b[1..]);
      }
    }
  }

  /** Merging two sorted runs keeps, for every byte total, the left run's entries before the right's. */
  lemma {:induction false} MergeStable(a: seq<TypeNode>, b: seq<TypeNode>, m: int)
    requires SortedDesc(a) && SortedDesc(b)
    ensures WithSize(Merge(a, b), m) == WithSize(a, m) + WithSize(b, m)
    decreases |a| + |b|
  {
    if |a| == 0 {
      assert WithSize(a, m) == [];
    } else if |b| == 0 {
      assert WithSize(b, m) == [];
    } else if b[0].memSize - a[0].memSize <= 0 {
      MergeStable(a[1..], b, m);
      assert Merge(a, b) == [a[0]] + Merge(a[1..], b);
      WithSizeCons(a[0], Merge(a[1..], b), m);
      assert a == [a[0]] + a[1..];
      WithSizeCons(a[0], a[1..], m);
    } else {
      MergeStable(a, b[1..], m);
      assert Merge(a, b) == [b[0]] + Merge(a, b[1..]);
      WithSizeCons(b[0], Merge(a, b[1..]), m);
      assert b == [b[0]] + b[1..];
      WithSizeCons(b[0], b[1..], m);
      if b[0].memSize == m {
        WithSizeBelow(a, a[0].memSize, m);
      }
    }
  }

  /** The merge starts with the left run's first entry when the right one is not larger. */
  lemma MergeHeadLeft(x: seq<TypeNode>, y: seq<TypeNode>)
    requires |x| > 0 && (|y| == 0 || y[0].memSize - x[0].memSize <= 0)
    ensures Merge(x, y) == [x[0]] + Merge(x[1..], y)
  {
    if |y| == 0 {
      assert Merge(x[1..], y) == x[1..];
      assert x == [x[0]] + x[1..];
    }
  }

  /** The merge starts with the right run's first entry when it is larger or the left run is empty. */
  lemma MergeHeadRight(x: seq<TypeNode>, y: seq<TypeNode>)
    requires |y| > 0 && (|x| == 0 || y[0].memSize - x[0].memSize > 0)
    ensures Merge(x, y) == [y[0]] + Merge(x, y[1..])
  {
    if |x| == 0 {
      assert y == [y[0]] + y[1..];
    }
  }

  lemma ConsAssoc(r: seq<TypeNode>, x: TypeNode, t: seq<TypeNode>)
    ensures (r + [x]) + t == r + ([x] + t)
  {
  }

  /** A step of the merge loop that takes the left run's entry. */
  lemma MergeTakeLeft(a: seq<TypeNode>, b: seq<TypeNode>, i: nat, j: nat, r: seq<TypeNode>)
    requires i < |a| && j <= |b| && (j == |b| || b[j].memSize - a[i].memSize <= 0)
    requires r + Merge(a[i..], b[j..]) == Merge(a, b)
    ensures (r + [a[i]]) + Merge(a[i + 1..], b[j..]) == Merge(a, b)
  {
    var x, y := a[i..], b[j..];
    assert x[0] == a[i] && x[1..] == a[i + 1..];
    MergeHeadLeft(x, y);
    ConsAssoc(r, a[i], Merge(a[i + 1..], y));
  }

  /** A step of the merge loop that takes the right run's entry. */
  lemma MergeTakeRight(a: seq<TypeNode>, b: seq<TypeNode>, i: nat, j: nat, r: seq<TypeNode>)
    requires i <= |a| && j < |b| && (i == |a| || b[j].memSize - a[i].memSize > 0)
    requires r + Merge(a[i..], b[j..]) == Merge(a, b)
    ensures (r + [b[j]]) + Merge(a[i..], b[j + 1..]) == Merge(a, b)
  {
    var x, y := a[i..], b[j..];
    assert y[0] == b[j] && y[1..] == b[j + 1..];
    MergeHeadRight(x, y);
    ConsAssoc(r, b[j], Merge(x, b[j + 1..]));
  }

  /** The merge loop of one pair of runs. */
  method MergeRuns(a: seq<TypeNode>, b: seq<TypeNode>) returns (r: seq<TypeNode>)
    ensures r == Merge(a, b)
  {
    r := [];
    var i, j := 0, 0;
    assert a[0..] == a && b[0..] == b;
    while i < |a| || j < |b|
      invariant 0 <= i <= |a| && 0 <= j <= |b|
      invariant r + Merge(a[i..], b[j..]) == Merge(a, b)
      decreases |a| - i + |b| - j
    {
      if i == |a| {
        MergeTakeRight(a, b, i, j, r);
        r, j := r + [b[j]], j + 1;
      } else if j == |b| {
        MergeTakeLeft(a, b, i, j, r);
        r, i := r + [a[i]], i + 1;
      } else if b[j].memSize - a[i].memSize <= 0 {
        MergeTakeLeft(a, b, i, j, r);
        r, i := r + [a[i]], i + 1;
      } else {
        MergeTakeRight(a, b, i, j, r);
        r, j := r + [b[j]], j + 1;
      }
    }
    assert a[i..] == [] && b[j..] == [];
  }

  /** `s` is a sequence of sorted runs of length `w`, the last possibly shorter. */
  ghost predicate Blocked(s: seq<TypeNode>, w: nat)
    requires w > 0
    decreases |s|
  {
    if |s| <= w then SortedDesc(s) else SortedDesc(s[..w]) && Blocked(s[w..], w)
  }

  /** `s` is a sequence of sorted runs of length exactly `w`. */
  ghost predicate Full(s: seq<TypeNode>, w: nat)
    requires w > 0
    decreases |s|
  {
    |s| == 0 || (|s| >= w && SortedDesc(s[..w]) && Full(s[w..], w))
  }

  /** Every list is a sequence of sorted runs of length 1. */
  lemma {:induction false} BlockedOnes(s: seq<TypeNode>)
    ensures Blocked(s, 1)
  {
    if |s| > 1 {
      BlockedOnes(s[1..]);
    }
  }

  lemma {:induction false} FullAppend(s: seq<TypeNode>, m: seq<TypeNode>, w: nat)
    requires w > 0 && Full(s, w)
    requires |m| == w && SortedDesc(m)
    ensures Full(s + m, w)
    decreases |s|
  {
    if |s| == 0 {
      assert s + m == m && m[..w] == m && m[w..] == [];
    } else {
      assert (s + m)[..w] == s[..w];
      assert (s + m)[w..] == s[w..] + m;
      FullAppend(s[w..], m, w);
    }
  }

  lemma {:induction false} FullLast(s: seq<TypeNode>, m: seq<TypeNode>, w: nat)
    requires w > 0 && Full(s, w)
    requires 0 < |m| <= w && SortedDesc(m)
    ensures Blocked(s + m, w)
    decreases |s|
  {
    if |s| == 0 {
      assert s + m == m;
    } else {
      assert (s + m)[..w] == s[..w];
      assert (s + m)[w..] == s[w..] + m;
      FullLast(s[w..], m, w);
    }
  }

  function Min(x: int, y: int): int { if x <= y then x else y }

  /**
   * One step of a pass: from position `p`, the left run is `s[p..q]` and the right run
   * `s[q..e]`, both sorted, and what follows is again a sequence of runs.
   */
  lemma StepRuns(s: seq<TypeNode>, p: nat, w: nat)
    requires w > 0 && p < |s|
    requires Blocked(s[p..], w)
    ensures var q := Min(p + w, |s|); var e := Min(q + w, |s|);
      SortedDesc(s[p..q]) && SortedDesc(s[q..e]) && Blocked(s[e..], w)
  {
    var n := |s|;
    var q := Min(p + w, n);
    var e := Min(q + w, n);
    var rest := s[p..];
    if n - p <= w {
      assert s[p..q] == rest;
      assert s[q..e] == [] && s[e..] == [];
    } else {
      assert s[p..q] == rest[..w];
      var rest2 := rest[w..];
      assert rest2 == s[q..];
      if n - q <= w {
        assert s[q..e] == rest2;
        assert s[e..] == [];
      } else {
        assert s[q..e] == rest2[..w];
        assert s[e..] == rest2[w..];
      }
    }
  }

  /**
   * One pass of sortList over a list of sorted runs of length `insize`: merges each
   * pair of neighbouring runs, giving runs of length `2 * insize`, and counts the merges.
   */
  method MergePass(cur: seq<TypeNode>, insize: nat) returns (out: seq<TypeNode>, nmerges: nat)
    requires insize > 0 && |cur| > 0
    requires Blocked(cur, insize)
    ensures |out| == |cur|
    ensures Blocked(out, 2 * insize)
    ensures StablePermutation(out, cur)
    ensures nmerges <= 1 <==> |cur| <= 2 * insize
  {
    var n := |cur|;
    out := [];
    var p := 0;
    nmerges := 0;
    while p < n
      invariant 0 <= p <= n && |out| == p
      invariant Blocked(cur[p..], insize)
      invariant p < n ==> Full(out, 2 * insize)
      invariant p == n ==> Blocked(out, 2 * insize)
      invariant nmerges == 0 <==> p == 0
      invariant nmerges == 1 ==> p == Min(2 * insize, n)
      invariant nmerges >= 2 ==> p > 2 * insize
      invariant StablePermutation(out, cur[..p])
      decreases n - p
    {
      nmerges := nmerges + 1;
      // step `insize` places along from p
      var q := p;
      var psize := 0;
      while psize < insize && q < n
        invariant q == p + psize && psize <= insize && q <= n
      {
        psize := psize + 1;
        q := q + 1;
      }
      var qsize := insize;
      var e := if q + qsize <= n then q + qsize else n;
      var merged := MergeRuns(cur[p..q], cur[q..e]);
      PassStep(cur, out, p, q, e, insize, merged);
      AppendMerged(out, cur[..p], cur[p..q], cur[q..e]);
      SliceSplit(cur, p, q, e);
      out := out + merged;
      p := e;
    }
    assert cur[..p] == cur;
  }

  /** What one merge of a pass keeps: the merged runs extend the output by a sorted run. */
  lemma PassStep(cur: seq<TypeNode>, out: seq<TypeNode>, p: nat, q: nat, e: nat, w: nat, merged: seq<TypeNode>)
    requires w > 0 && p < |cur|
    requires q == Min(p + w, |cur|) && e == Min(q + w, |cur|)
    requires Blocked(cur[p..], w) && Full(out, 2 * w)
    requires merged == Merge(cur[p..q], cur[q..e])
    ensures SortedDesc(cur[p..q]) && SortedDesc(cur[q..e])
    ensures Blocked(cur[e..], w)
    ensures e < |cur| ==> Full(out + merged, 2 * w)
    ensures e == |cur| ==> Blocked(out + merged, 2 * w)
  {
    StepRuns(cur, p, w);
    MergeSorted(cur[p..q], cur[q..e]);
    if e < |cur| {
      FullAppend(out, merged, 2 * w);
    } else {
      FullLast(out, merged, 2 * w);
    }
  }

  /** Appending the merge of two sorted runs to both sides keeps a stable permutation. */
  lemma AppendMerged(out: seq<TypeNode>, pre: seq<TypeNode>, left: seq<TypeNode>, right: seq<TypeNode>)
    requires StablePermutation(out, pre)
    requires SortedDesc(left) && SortedDesc(right)
    ensures StablePermutation(out + Merge(left, right), pre + left + right)
  {
    MergePermutes(left, right);
    forall m ensures WithSize(out + Merge(left, right), m) == WithSize(pre + left + right, m) {
      AppendMergedAt(out, pre, left, right, m);
    }
  }

  /** AppendMerged for the entries of one byte total. */
  lemma AppendMergedAt(out: seq<TypeNode>, pre: seq<TypeNode>, left: seq<TypeNode>, right: seq<TypeNode>, m: int)
    requires WithSize(out, m) == WithSize(pre, m)
    requires SortedDesc(left) && SortedDesc(right)
    ensures WithSize(out + Merge(left, right), m) == WithSize(pre + left + right, m)
  {
    var merged := Merge(left, right);
    var P, L, R := WithSize(pre, m), WithSize(left, m), WithSize(right, m);
    calc {
      WithSize(out + merged, m);
      { WithSizeAppend(out, merged, m); }
      WithSize(out, m) + WithSize(merged, m);
      { MergeStable(left, right, m); }
      P + (L + R);
      P + L + R;
      { WithSizeAppend(pre, left, m); }
      WithSize(pre + left, m) + R;
      { WithSizeAppend(pre + left, right, m); }
      WithSize(pre + left + right, m);
    }
  }

  lemma SliceSplit(s: seq<TypeNode>, p: nat, q: nat, e: nat)
    requires p <= q <= e <= |s|
    ensures s[..e] == s[..p] + s[p..q] + s[q..e]
  {
  }

  /** A list that is one run is sorted. */
  lemma OneRun(s: seq<TypeNode>, w: nat)
    requires w > 0 && |s| <= w && Blocked(s, w)
    ensures SortedDesc(s)
  {
  }

  /**
   * sortList: the bottom-up merge sort. The result is sorted by non-increasing byte
   * total and is a stable permutation of the input.
   */
  method SortTypes(list: seq<TypeNode>) returns (sorted: seq<TypeNode>)
    ensures SortedDesc(sorted)
    ensures StablePermutation(sorted, list)
  {
    if |list| == 0 {
      return [];
    }
    var n := |list|;
    var cur := list;
    var insize := 1;
    BlockedOnes(cur);
    while true
      invariant 1 <= insize <= n
      invariant |cur| == n
      invariant Blocked(cur, insize)
      invariant StablePermutation(cur, list)
      decreases n - insize
    {
      var out, nmerges := MergePass(cur, insize);
      if nmerges <= 1 {
        OneRun(out, 2 * insize);
        return out;
      }
      cur := out;
      insize := 2 * insize;
    }
  }

  /**
   * A sorted stable permutation is unique: sorting again, or sorting any other list
   * with the same entries in the same order among equal byte totals, gives the same list.
   */
  lemma {:induction false} StableSortUnique(x: seq<TypeNode>, y: seq<TypeNode>)
    requires SortedDesc(x) && SortedDesc(y)
    requires forall m :: WithSize(x, m) == WithSize(y, m)
    ensures x == y
    decreases |x| + |y|
  {
    WithSizeHead(x);
    WithSizeHead(y);
    if |x| > 0 && |y| > 0 {
      assert x[0].memSize == y[0].memSize by {
        if x[0].memSize > y[0].memSize {
          WithSizeBelow(y, y[0].memSize, x[0].memSize);
        } else if x[0].memSize < y[0].memSize {
          WithSizeBelow(x, x[0].memSize, y[0].memSize);
        }
      }
      assert WithSize(x, x[0].memSize)[0] == x[0];
      assert WithSize(y, y[0].memSize)[0] == y[0];
      forall m ensures WithSize(x[1..], m) == WithSize(y[1..], m) {
        var h := if x[0].memSize == m then [x[0]] else [];
        assert WithSize(x, m) == h + WithSize(x[1..], m);
        assert WithSize(y, m) == h + WithSize(y[1..], m);
        assert WithSize(x[1..], m) == WithSize(x, m)[|h|..];
      }
      StableSortUnique(x[1..], y[1..]);
      assert x == [x[0]] + x[1..] && y == [y[0]] + y[1..];
    }
  }
}
