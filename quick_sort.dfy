/** Quick sort with the Lomuto partition: the last element of the range is
    the pivot, the elements strictly below it are gathered at the front, and
    the pivot is exchanged into the gap after them. */
module QuickSorting {
  import opened Order
  import opened Counting

  /** Partition of `a[low..high]` around the pivot `a[high]`. Every element
      of the range is compared with the pivot once, each element below it is
      exchanged into the growing front block (counted even when it is already
      in place), and a last exchange moves the pivot behind that block. The
      pivot ends at `low` plus the number of elements that were below it. */
  method Partition(a: array<int>, low: nat, high: nat, counters: Counters) returns (p: nat, r: Counters)
    requires low <= high < a.Length
    modifies a
    ensures Lomuto(old(a[..]), a[..], low, p, high)
    ensures Partitioned(old(a[..]), a[..], low, p, high)
    ensures r == Counters(counters.comparisons + (high - low), counters.swaps + (p - low) + 1)
  {
    ghost var s0 := a[..];
    var i;
    i, r := PartitionScan(a, low, high, counters);
    Exchange(a, i + 1, high);
    r := r.(swaps := r.swaps + 1);
    p := i + 1;
    PivotPlaced(s0, a[..], low, p, high);
  }

  /** `t` is what the Lomuto partition makes of `s` on `[low, high]`, with the
      pivot at `p`: the scan of `s[low..high]` against `s[high]`, then the
      exchange of the pivot into the place after the front block. */
  ghost predicate Lomuto(s: seq<int>, t: seq<int>, low: nat, p: nat, high: nat) {
    low <= high < |s| &&
    var sc := Scanned(s, low, high, s[high]);
    p == sc.1 + 1 && t == Swap(sc.0, p, high)
  }

  /** On `[2, 1, 0]` no element is below the pivot `0`, so the pivot is
      exchanged with the first element, giving `[0, 1, 2]`: the partition
      fixes the order of the other elements, not only their sides. */
  lemma LomutoExample(s: seq<int>)
    requires s == [2, 1, 0]
    ensures Lomuto(s, [0, 1, 2], 0, 0, 2)
  {
    assert Scanned(s, 0, 1, 0) == (s, -1);
    assert Scanned(s, 0, 2, 0) == (s, -1);
    var t := Swap(s, 0, 2);
    assert t == [0, 1, 2] by {
      assert t[0] == 0 && t[1] == 1 && t[2] == 2;
    }
  }

  /** The Lomuto arrangement is a partition: the last exchange puts the
      pivot behind the front block of smaller elements the scan gathered. */
  lemma PivotPlaced(s0: seq<int>, s2: seq<int>, low: nat, p: nat, high: nat)
    requires Lomuto(s0, s2, low, p, high)
    ensures Partitioned(s0, s2, low, p, high)
  {
    var sc := Scanned(s0, low, high, s0[high]);
    ScanResult(s0, sc.0, low, sc.1, high, s0[high]);
    RangePerm(s2, s0, low, high + 1);
  }

  /** `t` is `s` partitioned on `[low, high]` around the pivot `s[high]`,
      which now sits at `p`: the range is rearranged, everything before the
      pivot is below it, nothing after it is, and the rest is untouched. */
  ghost predicate Partitioned(s: seq<int>, t: seq<int>, low: nat, p: nat, high: nat) {
    |t| == |s| && low <= p <= high < |s| && t[p] == s[high] &&
    multiset(t[low..high + 1]) == multiset(s[low..high + 1]) &&
    (forall k :: 0 <= k < |s| && (k < low || high < k) ==> t[k] == s[k]) &&
    (forall k :: low <= k < p ==> t[k] < t[p]) &&
    (forall k :: p < k <= high ==> t[p] <= t[k])
  }

  /** Wherever a partition leaves the pivot, it is at `low` plus the number
      of elements of the range that were below it. */
  lemma PartitionedRank(s: seq<int>, t: seq<int>, low: nat, p: nat, high: nat)
    requires Partitioned(s, t, low, p, high)
    ensures p - low == Less(s[low..high], s[high])
  {
    var x := s[high];
    var lo, hi := t[low..p], t[p..high + 1];
    forall k | 0 <= k < |lo| ensures lo[k] < x {
      assert lo[k] == t[low + k];
    }
    forall k | 0 <= k < |hi| ensures x <= hi[k] {
      assert hi[k] == t[p + k];
    }
    SplitLess(lo, hi, x);
    assert t[low..high + 1] == lo + hi;
    LessPerm(t[low..high + 1], s[low..high + 1], x);
    LastNotLess(s[low..high + 1]);
    assert s[low..high + 1][..high - low] == s[low..high];
  }

  /** A block below `x` followed by a block not below it has as many
      elements below `x` as the first block is long. */
  lemma SplitLess(lo: seq<int>, hi: seq<int>, x: int)
    requires forall k :: 0 <= k < |lo| ==> lo[k] < x
    requires forall k :: 0 <= k < |hi| ==> x <= hi[k]
    ensures Less(lo + hi, x) == |lo|
  {
    LessAppend(lo, hi, x);
    LessAll(lo, x);
    LessNone(hi, x);
  }

  /** The last element is not below itself, so it does not add to the
      count. */
  lemma LastNotLess(u: seq<int>)
    requires u != []
    ensures Less(u, u[|u| - 1]) == Less(u[..|u| - 1], u[|u| - 1])
  {
  }

  /** The counters grew from `c` to `r` by no more than the worst case of a
      range of `n` elements: `n(n-1)/2` comparisons and `n(n+1)/2`
      exchanges. */
  ghost predicate WithinWorstCase(c: Counters, r: Counters, low: int, high: int) {
    c.comparisons <= r.comparisons && c.swaps <= r.swaps &&
    r.comparisons - c.comparisons <= Pairs(Width(low, high)) &&
    r.swaps - c.swaps <= Pairs(Width(low, high) + 1)
  }

  /** `t` and `r` are what quick sort of `[low, high]` leaves when started
      on `s` with the tally `c`: the range sorted in place, within the worst
      case counts. */
  ghost predicate QuickSorted(s: seq<int>, t: seq<int>, c: Counters, r: Counters, low: int, high: int) {
    RangeSorted(s, t, low, high) && WithinWorstCase(c, r, low, high)
  }

  /** Quick sort of `a[low..high]`, both ends included: partition, then sort
      the part left of the pivot and the part right of it. A range of at most
      one element is left alone. The comparisons stay within the
      `n(n-1)/2` of the worst case and the exchanges within `n(n+1)/2`, for
      `n` the width of the range. */
  method QuickSort(a: array<int>, low: int, high: int, counters: Counters) returns (r: Counters)
    requires low < high ==> 0 <= low && high < a.Length
    modifies a
    ensures high <= low ==> r == counters
    ensures QuickSorted(old(a[..]), a[..], counters, r, low, high)
    decreases high - low
  {
    r := counters;
    if low < high {
      ghost var s0 := a[..];
      var pi: int;
      pi, r := Partition(a, low, high, r);
      ghost var s1 := a[..];
      ghost var c1 := r;
      r := QuickSort(a, low, pi - 1, r);
      ghost var s2 := a[..];
      ghost var c2 := r;
      r := QuickSort(a, pi + 1, high, r);
      QuickJoin(s0, s1, s2, a[..], counters, c1, c2, r, low, pi, high);
    }
  }

  /** A partition followed by the sorts of its two sides sorts the whole
      range within the worst-case counts. */
  lemma QuickJoin(s0: seq<int>, s1: seq<int>, s2: seq<int>, s3: seq<int>,
                  c0: Counters, c1: Counters, c2: Counters, c3: Counters, low: nat, p: nat, high: nat)
    requires Partitioned(s0, s1, low, p, high)
    requires c1 == Counters(c0.comparisons + (high - low), c0.swaps + (p - low) + 1)
    requires QuickSorted(s1, s2, c1, c2, low, p - 1)
    requires QuickSorted(s2, s3, c2, c3, p + 1, high)
    ensures QuickSorted(s0, s3, c0, c3, low, high)
  {
    SideSorted(s1, s2, low, p - 1);
    SideSorted(s2, s3, p + 1, high);
    PivotJoin(s1, s2, s3, low, p, high);
    QuickCounts(c0, c1, c2, c3, low, p, high);
  }

  /** The counter bounds of a range from those of its partition and of its
      two sides. */
  lemma QuickCounts(c0: Counters, c1: Counters, c2: Counters, c3: Counters, low: nat, p: nat, high: nat)
    requires low <= p <= high
    requires c1 == Counters(c0.comparisons + (high - low), c0.swaps + (p - low) + 1)
    requires c1.comparisons <= c2.comparisons && c1.swaps <= c2.swaps
    requires c2.comparisons - c1.comparisons <= Pairs(Width(low, p - 1))
    requires c2.swaps - c1.swaps <= Pairs(Width(low, p - 1) + 1)
    requires c2.comparisons <= c3.comparisons && c2.swaps <= c3.swaps
    requires c3.comparisons - c2.comparisons <= Pairs(Width(p + 1, high))
    requires c3.swaps - c2.swaps <= Pairs(Width(p + 1, high) + 1)
    ensures c0.comparisons <= c3.comparisons && c0.swaps <= c3.swaps
    ensures c3.comparisons - c0.comparisons <= Pairs(Width(low, high))
    ensures c3.swaps - c0.swaps <= Pairs(Width(low, high) + 1)
  {
    var l, r := p - low, high - p;
    assert Width(low, p - 1) == l && Width(p + 1, high) == r && Width(low, high) == l + r + 1;
    QuickSplitBound(l, r);
  }

  /** After the partition `s1`, the sort of the left side `s2` and the sort
      of the right side `s3`, the whole range is sorted and rearranged: the
      sides were rearranged in place, so everything left of the pivot is
      still below it and everything right of it is not. */
  lemma PivotJoin(s1: seq<int>, s2: seq<int>, s3: seq<int>, low: nat, p: nat, high: nat)
    requires low <= p <= high < |s1| == |s2| == |s3|
    requires forall k :: low <= k < p ==> s1[k] < s1[p]
    requires forall k :: p < k <= high ==> s1[p] <= s1[k]
    requires forall k :: 0 <= k < |s1| && (k < low || p - 1 < k) ==> s2[k] == s1[k]
    requires forall k :: 0 <= k < |s1| && (k < p + 1 || high < k) ==> s3[k] == s2[k]
    requires Sorted(s2[low..p]) && multiset(s2[low..p]) == multiset(s1[low..p])
    requires Sorted(s3[p + 1..high + 1]) && multiset(s3[p + 1..high + 1]) == multiset(s2[p + 1..high + 1])
    ensures Sorted(s3[low..high + 1]) && multiset(s3[low..high + 1]) == multiset(s1[low..high + 1])
  {
    var x := s1[p];
    var lo, hi := s3[low..p], s3[p + 1..high + 1];
    assert lo == s2[low..p];
    assert s2[p + 1..high + 1] == s1[p + 1..high + 1];
    forall t | 0 <= t < |lo| ensures lo[t] <= x {
      PermMember(s1[low..p], lo, t);
      var q :| 0 <= q < p - low && s1[low..p][q] == lo[t];
      assert s1[low + q] < x;
    }
    forall t | 0 <= t < |hi| ensures x <= hi[t] {
      PermMember(s1[p + 1..high + 1], hi, t);
      var q :| 0 <= q < high - p && s1[p + 1..high + 1][q] == hi[t];
      assert x <= s1[p + 1 + q];
    }
    assert s3[p] == x;
    SortedJoin(lo, x, hi);
    assert s3[low..high + 1] == lo + [x] + hi;
    assert s1[low..high + 1] == s1[low..p] + [x] + s1[p + 1..high + 1];
  }

  /** The arrangement and the end `i` of the front block after the scan of
      `Partition` has looked at `s[low..j]`. */
  function Scanned(s: seq<int>, low: nat, j: nat, pivot: int): (t: (seq<int>, int))
    requires low <= j <= |s|
    ensures |t.0| == |s| && low - 1 <= t.1 < j
    decreases j
  {
    if j == low then (s, low - 1)
    else
      var prev := Scanned(s, low, j - 1, pivot);
      ScanStepped(prev.0, prev.1, j - 1, pivot)
  }

  /** Step `j` of the scan on arrangement `c` with front block ending at
      `i`: an element below the pivot is exchanged to the end of the block,
      which grows by one. */
  function ScanStepped(c: seq<int>, i: int, j: nat, pivot: int): (seq<int>, int)
    requires -1 <= i < j < |c|
  {
    if c[j] < pivot then (Swap(c, i + 1, j), i + 1) else (c, i)
  }

  /** The state the scan keeps after looking at `s[low..j]`: the front block
      `[low, i]` holds elements below the pivot, `(i, j)` the others, and
      nothing outside `[low, j)` has moved. */
  ghost predicate ScanKept(s: seq<int>, c: seq<int>, low: nat, i: int, j: nat, pivot: int) {
    |c| == |s| && low - 1 <= i < j <= |s| &&
    (forall k :: low <= k <= i ==> c[k] < pivot) &&
    (forall k :: i < k < j ==> c[k] >= pivot) &&
    (forall k :: 0 <= k < |s| && (k < low || j <= k) ==> c[k] == s[k])
  }

  /** One step of the scan keeps that state. */
  lemma ScanStep(s: seq<int>, c: seq<int>, low: nat, i: int, j: nat, pivot: int)
    requires ScanKept(s, c, low, i, j, pivot) && j < |s|
    ensures c[j] == s[j]
    ensures c[j] < pivot ==> ScanKept(s, Swap(c, i + 1, j), low, i + 1, j + 1, pivot)
    ensures c[j] >= pivot ==> ScanKept(s, c, low, i, j + 1, pivot)
  {
  }

  lemma {:induction false} ScannedKept(s: seq<int>, low: nat, j: nat, pivot: int)
    requires low <= j <= |s|
    ensures ScanKept(s, Scanned(s, low, j, pivot).0, low, Scanned(s, low, j, pivot).1, j, pivot)
    decreases j
  {
    if j > low {
      var prev := Scanned(s, low, j - 1, pivot);
      ScannedKept(s, low, j - 1, pivot);
      ScanStep(s, prev.0, low, prev.1, j - 1, pivot);
    }
  }

  /** The scan has not touched the positions it has not reached. */
  lemma {:induction false} ScannedAhead(s: seq<int>, low: nat, j: nat, pivot: int, k: nat)
    requires low <= j <= k < |s|
    ensures Scanned(s, low, j, pivot).0[k] == s[k]
    decreases j
  {
    if j > low {
      var prev := Scanned(s, low, j - 1, pivot);
      ScannedAhead(s, low, j - 1, pivot, k);
      if prev.0[j - 1] < pivot {
        var c := Swap(prev.0, prev.1 + 1, j - 1);
        assert Scanned(s, low, j, pivot).0 == c;
        assert c[k] == prev.0[k];
      }
    }
  }

  /** The scan only rearranges. */
  lemma {:induction false} ScannedPerm(s: seq<int>, low: nat, j: nat, pivot: int)
    requires low <= j <= |s|
    ensures multiset(Scanned(s, low, j, pivot).0) == multiset(s)
    decreases j
  {
    if j > low {
      ScannedPerm(s, low, j - 1, pivot);
    }
  }

  /** The front block gets one element per element of `s[low..j]` below the
      pivot. */
  lemma {:induction false} ScannedCount(s: seq<int>, low: nat, j: nat, pivot: int)
    requires low <= j <= |s|
    ensures Scanned(s, low, j, pivot).1 + 1 - low == Less(s[low..j], pivot)
    decreases j
  {
    if j > low {
      var prev := Scanned(s, low, j - 1, pivot);
      ScannedCount(s, low, j - 1, pivot);
      ScannedAhead(s, low, j - 1, pivot, j - 1);
      LessSnoc(s, low, j, pivot);
    }
  }

  /** Extending the range by one element adds one to the count below the
      pivot exactly when that element is below it. */
  lemma LessSnoc(s: seq<int>, low: nat, j: nat, pivot: int)
    requires low < j <= |s|
    ensures Less(s[low..j], pivot) == Less(s[low..j - 1], pivot) + (if s[j - 1] < pivot then 1 else 0)
  {
    var u := s[low..j];
    assert u[..|u| - 1] == s[low..j - 1];
  }

  /** What the whole scan of `s[low..high]` leaves. */
  lemma ScanResult(s: seq<int>, c: seq<int>, low: nat, i: int, high: nat, pivot: int)
    requires low <= high <= |s|
    requires c == Scanned(s, low, high, pivot).0 && i == Scanned(s, low, high, pivot).1
    ensures ScanKept(s, c, low, i, high, pivot)
    ensures multiset(c) == multiset(s)
    ensures i + 1 - low == Less(s[low..high], pivot)
  {
    ScannedKept(s, low, high, pivot);
    ScannedPerm(s, low, high, pivot);
    ScannedCount(s, low, high, pivot);
  }

  /** One step of the scan: compare `a[j]` with the pivot and, when it is
      below, exchange it to position `i + 1`, the end of the grown front
      block. */
  method CompareWithPivot(a: array<int>, i: int, j: nat, pivot: int, counters: Counters)
    returns (i': int, r: Counters)
    requires -1 <= i < j < a.Length
    modifies a
    ensures (a[..], i') == ScanStepped(old(a[..]), i, j, pivot)
    ensures r == Counters(counters.comparisons + 1, counters.swaps + (i' - i))
  {
    r := counters.(comparisons := counters.comparisons + 1);
    i' := i;
    if a[j] < pivot {
      i' := i + 1;
      Exchange(a, i', j);
      r := r.(swaps := r.swaps + 1);
    }
  }

  /** The loop of `Partition`: scan `a[low..high]` with `j`, keeping the
      elements below the pivot in `a[low..i + 1]` and the others in
      `a[i + 1..j]`. */
  method PartitionScan(a: array<int>, low: nat, high: nat, counters: Counters) returns (i: int, r: Counters)
    requires low <= high < a.Length
    modifies a
    ensures (a[..], i) == Scanned(old(a[..]), low, high, old(a[high]))
    ensures r == Counters(counters.comparisons + (high - low), counters.swaps + (i + 1 - low))
  {
    ghost var s0 := a[..];
    var pivot := a[high];
    i := low - 1;
    var j := low;
    r := counters;
    while j < high
      invariant low <= j <= high
      invariant a[..] == Scanned(s0, low, j, pivot).0 && i == Scanned(s0, low, j, pivot).1
      invariant r == Counters(counters.comparisons + (j - low), counters.swaps + (i + 1 - low))
    {
      i, r := CompareWithPivot(a, i, j, pivot, r);
      j := j + 1;
    }
  }
}
