/** Top-down merge sort: sort both halves of the range, then merge the
    copied halves back into it, counting each comparison of the merge and
    each element it writes. */
module MergeSorting {
  import opened Order
  import opened Merging
  import opened Counting

  /** Once either side is used up the merge compares nothing more. */
  lemma MergeRest(l: seq<int>, r: seq<int>, i: nat, j: nat)
    requires i <= |l| && j <= |r| && (i == |l| || j == |r|)
    ensures MergeComparisons(l[i..], r[j..]) == 0
  {
    if i == |l| {
      assert l[i..] == [];
    } else {
      assert r[j..] == [];
    }
  }

  /** `arr[k] = L[i]`: the merge writes the head of what is left of `l`. */
  method TakeLeft(a: array<int>, ghost s: seq<int>, left: nat, l: seq<int>, r: seq<int>, ghost m: seq<int>, i: nat, j: nat, k: nat)
    requires MergeAt(s, left, l, r, m, i, j, a[..]) && i < |l| && (j < |r| ==> l[i] < r[j])
    requires k == left + i + j && |s| == a.Length
    modifies a
    ensures MergeAt(s, left, l, r, m, i + 1, j, a[..])
    ensures MergeComparisons(l[i..], r[j..]) == (if j < |r| then 1 else 0) + MergeComparisons(l[i + 1..], r[j..])
  {
    MergeAtLeft(s, left, l, r, m, i, j, a[..]);
    a[k] := l[i];
  }

  /** `arr[k] = R[j]`: the merge writes the head of what is left of `r`. */
  method TakeRight(a: array<int>, ghost s: seq<int>, left: nat, l: seq<int>, r: seq<int>, ghost m: seq<int>, i: nat, j: nat, k: nat)
    requires MergeAt(s, left, l, r, m, i, j, a[..]) && j < |r| && (i < |l| ==> r[j] <= l[i])
    requires k == left + i + j && |s| == a.Length
    modifies a
    ensures MergeAt(s, left, l, r, m, i, j + 1, a[..])
    ensures MergeComparisons(l[i..], r[j..]) == (if i < |l| then 1 else 0) + MergeComparisons(l[i..], r[j + 1..])
  {
    MergeAtRight(s, left, l, r, m, i, j, a[..]);
    a[k] := r[j];
  }

  /** `merge`: copy `a[left..mid]` into `L` and `a[mid + 1..right]` into `R`
      (both ends included), then write them back in merged order: the first
      loop, while both have elements, compares their heads and writes the
      smaller, taking the head of `R` on a tie; the second copies what is
      left of `L`, the third what is left of `R`. Every comparison and every
      write is counted. */
  method Merge(a: array<int>, left: nat, mid: int, right: int, counters: Counters) returns (r: Counters)
    requires left <= mid + 1 <= right + 1 <= a.Length
    modifies a
    ensures r.swaps == counters.swaps + (right + 1 - left)
    ensures r.comparisons == counters.comparisons + MergeComparisons(old(a[left..mid + 1]), old(a[mid + 1..right + 1]))
    ensures a[..] == old(a[..left]) + Merged(old(a[left..mid + 1]), old(a[mid + 1..right + 1])) + old(a[right + 1..])
  {
    ghost var s0 := a[..];
    var L := a[left..mid + 1];
    var R := a[mid + 1..right + 1];
    ghost var m := Merged(L, R);
    MergeAtStart(s0, left, L, R);
    var i, j;
    i, j, r := MergeHeads(a, s0, left, L, R, m, counters);
    i, r := CopyLeftRest(a, s0, left, L, R, m, i, j, r);
    j, r := CopyRightRest(a, s0, left, mid, right, L, R, m, i, j, r);
  }

  /** The first loop of `merge`: while both `L` and `R` have elements left,
      compare their heads and write the smaller, the head of `R` on a tie. */
  method MergeHeads(a: array<int>, ghost s: seq<int>, left: nat, L: seq<int>, R: seq<int>, ghost m: seq<int>,
                    counters: Counters) returns (i: nat, j: nat, r: Counters)
    requires MergeAt(s, left, L, R, m, 0, 0, a[..]) && |s| == a.Length
    modifies a
    ensures MergeAt(s, left, L, R, m, i, j, a[..]) && (i == |L| || j == |R|)
    ensures r.comparisons == counters.comparisons + MergeComparisons(L, R)
    ensures r.swaps == counters.swaps + (i + j)
  {
    i, j := 0, 0;
    var k := left;
    r := counters;
    assert L[0..] == L && R[0..] == R;
    while i < |L| && j < |R|
      invariant MergeAt(s, left, L, R, m, i, j, a[..]) && k == left + i + j
      invariant r.comparisons + MergeComparisons(L[i..], R[j..]) == counters.comparisons + MergeComparisons(L, R)
      invariant r.swaps == counters.swaps + (i + j)
    {
      r := r.(comparisons := r.comparisons + 1);
      if L[i] < R[j] {
        TakeLeft(a, s, left, L, R, m, i, j, k);
        i := i + 1;
      } else {
        TakeRight(a, s, left, L, R, m, i, j, k);
        j := j + 1;
      }
      r := r.(swaps := r.swaps + 1);
      k := k + 1;
    }
    MergeRest(L, R, i, j);
  }

  /** The second loop of `merge`: copy what is left of `L`; `R` is used up
      whenever anything is left of `L`. */
  method CopyLeftRest(a: array<int>, ghost s: seq<int>, left: nat, L: seq<int>, R: seq<int>, ghost m: seq<int>,
                      i0: nat, j: nat, counters: Counters) returns (i: nat, r: Counters)
    requires MergeAt(s, left, L, R, m, i0, j, a[..]) && |s| == a.Length && (i0 < |L| ==> j == |R|)
    modifies a
    ensures MergeAt(s, left, L, R, m, i, j, a[..]) && i == |L|
    ensures r == counters.(swaps := counters.swaps + (i - i0))
  {
    i := i0;
    var k := left + i + j;
    r := counters;
    while i < |L|
      invariant i0 <= i && MergeAt(s, left, L, R, m, i, j, a[..]) && k == left + i + j
      invariant r == counters.(swaps := counters.swaps + (i - i0))
    {
      TakeLeft(a, s, left, L, R, m, i, j, k);
      i := i + 1;
      r := r.(swaps := r.swaps + 1);
      k := k + 1;
    }
  }

  /** The third loop of `merge`: copy what is left of `R` once `L` is used
      up. */
  method CopyRightRest(a: array<int>, ghost s: seq<int>, left: nat, mid: int, right: int, L: seq<int>, R: seq<int>,
                       ghost m: seq<int>, i: nat, j0: nat, counters: Counters) returns (j: nat, r: Counters)
    requires left <= mid + 1 <= right + 1 <= |s| == a.Length
    requires L == s[left..mid + 1] && R == s[mid + 1..right + 1] && m == Merged(L, R)
    requires MergeAt(s, left, L, R, m, i, j0, a[..]) && i == |L|
    modifies a
    ensures j == |R| && a[..] == s[..left] + Merged(L, R) + s[right + 1..]
    ensures r == counters.(swaps := counters.swaps + (j - j0))
  {
    j := j0;
    var k := left + i + j;
    r := counters;
    while j < |R|
      invariant j0 <= j && MergeAt(s, left, L, R, m, i, j, a[..]) && k == left + i + j
      invariant r == counters.(swaps := counters.swaps + (j - j0))
    {
      TakeRight(a, s, left, L, R, m, i, j, k);
      j := j + 1;
      r := r.(swaps := r.swaps + 1);
      k := k + 1;
    }
    MergeAtEnd(s, left, mid, right, m, a[..]);
  }

  /** `merge_sort` of `a[left..right]`, both ends included: a range of two or
      more elements is split at `mid = (left + right) / 2`, both halves are
      sorted and then merged. The range ends sorted and rearranged, the
      writes add up to `MergeSortWrites` of its width, and the merges never
      compare more often than they write. */
  method MergeSort(a: array<int>, left: int, right: int, counters: Counters) returns (r: Counters)
    requires left < right ==> 0 <= left && right < a.Length
    modifies a
    ensures right <= left ==> r == counters
    ensures r.swaps == counters.swaps + MergeSortWrites(Width(left, right))
    ensures counters.comparisons <= r.comparisons <= counters.comparisons + (r.swaps - counters.swaps)
    ensures RangeSorted(old(a[..]), a[..], left, right)
    decreases right - left
  {
    r := counters;
    if left < right {
      ghost var s0 := a[..];
      var mid := (left + right) / 2;
      r := MergeSort(a, left, mid, r);
      ghost var s1 := a[..];
      ghost var c1 := r;
      r := MergeSort(a, mid + 1, right, r);
      ghost var s2 := a[..];
      ghost var c2 := r;
      r := Merge(a, left, mid, right, r);
      MergeJoin(s0, s1, s2, a[..], counters, c1, c2, r, left, mid, right);
    }
  }

  /** Sorting both halves and merging them sorts the whole range, and the
      counters of the three steps add up to the range's totals. */
  lemma MergeJoin(s0: seq<int>, s1: seq<int>, s2: seq<int>, s3: seq<int>,
                  c0: Counters, c1: Counters, c2: Counters, c3: Counters, left: nat, mid: nat, right: nat)
    requires left <= mid < right < |s0| && mid == (left + right) / 2
    requires RangeSorted(s0, s1, left, mid)
    requires c1.swaps == c0.swaps + MergeSortWrites(Width(left, mid))
    requires c0.comparisons <= c1.comparisons <= c0.comparisons + (c1.swaps - c0.swaps)
    requires RangeSorted(s1, s2, mid + 1, right)
    requires c2.swaps == c1.swaps + MergeSortWrites(Width(mid + 1, right))
    requires c1.comparisons <= c2.comparisons <= c1.comparisons + (c2.swaps - c1.swaps)
    requires c3.swaps == c2.swaps + (right + 1 - left)
    requires c3.comparisons == c2.comparisons + MergeComparisons(s2[left..mid + 1], s2[mid + 1..right + 1])
    requires s3 == s2[..left] + Merged(s2[left..mid + 1], s2[mid + 1..right + 1]) + s2[right + 1..]
    ensures c3.swaps == c0.swaps + MergeSortWrites(Width(left, right))
    ensures c0.comparisons <= c3.comparisons <= c0.comparisons + (c3.swaps - c0.swaps)
    ensures RangeSorted(s0, s3, left, right)
  {
    MergeSortWritesSplit(left, right);
    var l, r := s2[left..mid + 1], s2[mid + 1..right + 1];
    MergeComparisonsBounds(l, r);
    MergeSides(s0, s1, s2, s3, left, mid, right);
  }

  /** The sequence facts of `MergeJoin`: the merged range is sorted, holds
      the elements the range started with, and nothing outside it moved. */
  lemma MergeSides(s0: seq<int>, s1: seq<int>, s2: seq<int>, s3: seq<int>, left: nat, mid: nat, right: nat)
    requires left <= mid < right < |s0|
    requires RangeSorted(s0, s1, left, mid) && RangeSorted(s1, s2, mid + 1, right)
    requires s3 == s2[..left] + Merged(s2[left..mid + 1], s2[mid + 1..right + 1]) + s2[right + 1..]
    ensures RangeSorted(s0, s3, left, right)
  {
    var l, r := s2[left..mid + 1], s2[mid + 1..right + 1];
    SideSorted(s0, s1, left, mid);
    SideSorted(s1, s2, mid + 1, right);
    assert l == s1[left..mid + 1];
    assert s1[mid + 1..right + 1] == s0[mid + 1..right + 1];
    MergedSorted(l, r);
    MergedPermutation(l, r);
    assert s3[left..right + 1] == Merged(l, r);
    assert s0[left..right + 1] == s0[left..mid + 1] + s0[mid + 1..right + 1];
    forall k | 0 <= k < |s0| && (k < left || right < k) ensures s3[k] == s0[k] {
      if k < left {
        assert s3[k] == s2[k];
      } else {
        assert s3[k] == s2[right + 1..][k - right - 1];
      }
    }
  }
}
