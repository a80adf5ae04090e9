/** The instrumented sort engine: five in-place sorts of an integer array,
    each adding its element comparisons and relocations to the counters it
    is given and returning the new tally. A top-level call passes
    `Counting.Zero`; the recursive sorts pass the running tally down.
    The redraw callback and the animation delay have no effect on the array
    or the counters and are not part of the model. */
module SortEngine {
  import opened Order
  import opened Merging
  import opened Counting

  /** The inner loop of selection sort: scan `a[i + 1..]` for an element
      strictly below the running minimum, one comparison per element. The
      result is the first position of a minimum of `a[i..]`. */
  method ScanMin(a: array<int>, i: nat, counters: Counters) returns (minIdx: nat, r: Counters)
    requires i < a.Length
    ensures minIdx == MinScan(a[..], i, a.Length)
    ensures i <= minIdx < a.Length
    ensures forall k :: i <= k < a.Length ==> a[minIdx] <= a[k]
    ensures forall k :: i <= k < minIdx ==> a[minIdx] < a[k]
    ensures r == Counters(counters.comparisons + (a.Length - i - 1), counters.swaps)
  {
    minIdx := i;
    r := counters;
    var j := i + 1;
    while j < a.Length
      invariant i < j <= a.Length
      invariant minIdx == MinScan(a[..], i, j)
      invariant forall k :: i <= k < j ==> a[minIdx] <= a[k]
      invariant forall k :: i <= k < minIdx ==> a[minIdx] < a[k]
      invariant r == Counters(counters.comparisons + (j - i - 1), counters.swaps)
    {
      r := r.(comparisons := r.comparisons + 1);
      if a[j] < a[minIdx] {
        minIdx := j;
      }
      j := j + 1;
    }
  }

  /** The first `i` positions of `s` hold their final values: they are in
      order and none of them exceeds an element after them. This is what
      selection sort's redraw reports as `sorted_index = i - 1`. */
  ghost predicate PrefixPlaced(s: seq<int>, i: nat) {
    i <= |s| && Sorted(s[..i]) && forall p, q :: 0 <= p < i <= q < |s| ==> s[p] <= s[q]
  }

  /** `m` is the first position of a minimum of `s[i..]`. */
  ghost predicate FirstMinOf(s: seq<int>, i: nat, m: nat) {
    i <= m < |s| && (forall k :: i <= k < |s| ==> s[m] <= s[k])
    && forall k :: i <= k < m ==> s[m] < s[k]
  }

  /** The position the scan of `s[i..j]` settles on: it starts at `i` and
      moves to a later position only on a strictly smaller element. */
  function MinScan(s: seq<int>, i: nat, j: nat): (m: nat)
    requires i < j <= |s|
    ensures i <= m < j
    decreases j
  {
    if j == i + 1 then i
    else
      var m := MinScan(s, i, j - 1);
      if s[j - 1] < s[m] then j - 1 else m
  }

  /** The scan settles on the first position of a minimum of `s[i..j]`. */
  lemma {:induction false} MinScanFirst(s: seq<int>, i: nat, j: nat)
    requires i < j <= |s|
    ensures forall k :: i <= k < j ==> s[MinScan(s, i, j)] <= s[k]
    ensures forall k :: i <= k < MinScan(s, i, j) ==> s[MinScan(s, i, j)] < s[k]
    decreases j
  {
    if j > i + 1 {
      MinScanFirst(s, i, j - 1);
    }
  }

  /** Over the whole suffix, the scan finds its first minimum. */
  lemma MinScanFirstMin(s: seq<int>, i: nat)
    requires i < |s|
    ensures FirstMinOf(s, i, MinScan(s, i, |s|))
  {
    MinScanFirst(s, i, |s|);
  }

  /** One outer step of selection sort: moving the minimum of the unplaced
      part to position `i`, by an exchange when it is elsewhere, places one
      more position. */
  lemma SelectionStep(s: seq<int>, i: nat, m: nat)
    requires PrefixPlaced(s, i) && FirstMinOf(s, i, m)
    ensures PrefixPlaced(if m != i then Swap(s, i, m) else s, i + 1)
  {
    var t := if m != i then Swap(s, i, m) else s;
    assert t[i] == s[m];
    forall p, q | 0 <= p < i + 1 <= q < |t| ensures t[p] <= t[q] {
      assert q == m || t[q] == s[q] || q == i;
      if q == m && m != i {
        assert t[q] == s[i];
      }
    }
    forall p, q | 0 <= p <= q < i + 1 ensures t[p] <= t[q] {
      if q < i {
        assert t[p] == s[..i][p] && t[q] == s[..i][q];
      } else if p < i {
        assert t[p] == s[p];
      }
    }
  }

  /** On sorted input the first minimum of every suffix is its first
      element, so selection sort never exchanges. */
  lemma SortedFirstMin(s: seq<int>, i: nat, m: nat)
    requires Sorted(s) && FirstMinOf(s, i, m)
    ensures m == i
  {
    assert s[i] <= s[m];
  }

  /** Iteration `i` of selection sort: find the first minimum of `a[i..]`,
      one comparison per later element, and exchange it into position `i`
      when it is elsewhere. That never happens at the last position, nor on
      sorted input. */
  method PlaceMin(a: array<int>, i: nat, counters: Counters) returns (minIdx: nat, r: Counters)
    requires i < a.Length && PrefixPlaced(a[..], i)
    modifies a
    ensures minIdx == MinScan(old(a[..]), i, a.Length) && FirstMinOf(old(a[..]), i, minIdx)
    ensures a[..] == if minIdx != i then Swap(old(a[..]), i, minIdx) else old(a[..])
    ensures PrefixPlaced(a[..], i + 1)
    ensures multiset(a[..]) == multiset(old(a[..]))
    ensures r.comparisons == counters.comparisons + (a.Length - i - 1)
    ensures r.swaps == counters.swaps + (if minIdx != i then 1 else 0)
    ensures i == a.Length - 1 ==> r.swaps == counters.swaps
    ensures Sorted(old(a[..])) ==> a[..] == old(a[..]) && r.swaps == counters.swaps
  {
    minIdx, r := ScanMin(a, i, counters);
    ghost var before := a[..];
    assert FirstMinOf(before, i, minIdx);
    SelectionStep(before, i, minIdx);
    if Sorted(before) {
      SortedFirstMin(before, i, minIdx);
    }
    if minIdx != i {
      Exchange(a, i, minIdx);
      r := r.(swaps := r.swaps + 1);
    }
  }

  /** The arrangement selection sort leaves when it runs from position `i`
      on, with the number of exchanges it makes: at each position the scan
      finds the first minimum of the rest, which is exchanged in when it is
      elsewhere. */
  ghost function SelectionRun(s: seq<int>, i: nat): (seq<int>, nat)
    requires i <= |s|
    decreases |s| - i
  {
    if i == |s| then (s, 0)
    else
      var m := MinScan(s, i, |s|);
      var rest := SelectionRun(if m != i then Swap(s, i, m) else s, i + 1);
      (rest.0, rest.1 + (if m != i then 1 else 0))
  }

  /** The exchanges selection sort makes on `s`. */
  ghost function SelectionSwaps(s: seq<int>): nat {
    SelectionRun(s, 0).1
  }

  /** From a placed prefix, the run ends sorted and is a permutation. */
  lemma {:induction false} SelectionRunSorted(s: seq<int>, i: nat)
    requires PrefixPlaced(s, i)
    ensures Sorted(SelectionRun(s, i).0)
    ensures multiset(SelectionRun(s, i).0) == multiset(s)
    decreases |s| - i
  {
    if i == |s| {
      assert s[..i] == s;
    } else {
      var m := MinScan(s, i, |s|);
      MinScanFirstMin(s, i);
      SelectionStep(s, i, m);
      SelectionRunSorted(if m != i then Swap(s, i, m) else s, i + 1);
    }
  }

  /** The run from `i` exchanges at most once per position but the last. */
  lemma {:induction false} SelectionRunSwapsBound(s: seq<int>, i: nat)
    requires i < |s|
    ensures SelectionRun(s, i).1 <= |s| - i - 1
    decreases |s| - i
  {
    var m := MinScan(s, i, |s|);
    var t := if m != i then Swap(s, i, m) else s;
    if i + 1 < |s| {
      SelectionRunSwapsBound(t, i + 1);
    } else {
      assert SelectionRun(t, i + 1) == (t, 0);
    }
  }

  /** On sorted input the run exchanges nothing and leaves the input as it is. */
  lemma {:induction false} SelectionRunOnSorted(s: seq<int>, i: nat)
    requires Sorted(s) && i <= |s|
    ensures SelectionRun(s, i) == (s, 0)
    decreases |s| - i
  {
    if i < |s| {
      MinScanFirstMin(s, i);
      SortedFirstMin(s, i, MinScan(s, i, |s|));
      SelectionRunOnSorted(s, i + 1);
    }
  }

  /** `[5, 3, 8, 1]` is sorted with two exchanges: `1` into position 0, then
      `5` into position 2. */
  lemma SelectionExample(s: seq<int>)
    requires s == [5, 3, 8, 1]
    ensures SelectionRun(s, 0) == ([1, 3, 5, 8], 2)
  {
    assert MinScan(s, 0, 4) == 3 by {
      assert MinScan(s, 0, 2) == 1;
      assert MinScan(s, 0, 3) == 1;
    }
    var t := Swap(s, 0, 3);
    assert t == [1, 3, 8, 5] by {
      assert t[0] == 1 && t[1] == 3 && t[2] == 8 && t[3] == 5;
    }
    SelectionExampleRest(t);
  }

  /** From position 1 of `[1, 3, 8, 5]` there is one exchange left. */
  lemma SelectionExampleRest(s: seq<int>)
    requires s == [1, 3, 8, 5]
    ensures SelectionRun(s, 1) == ([1, 3, 5, 8], 1)
  {
    assert MinScan(s, 1, 4) == 1 by {
      assert MinScan(s, 1, 3) == 1;
    }
    SelectionExampleLast(s);
  }

  /** From position 2 of `[1, 3, 8, 5]` the `5` is exchanged in. */
  lemma SelectionExampleLast(s: seq<int>)
    requires s == [1, 3, 8, 5]
    ensures SelectionRun(s, 2) == ([1, 3, 5, 8], 1)
  {
    assert MinScan(s, 2, 4) == 3;
    var t := Swap(s, 2, 3);
    assert t == [1, 3, 5, 8] by {
      assert t[0] == 1 && t[1] == 3 && t[2] == 5 && t[3] == 8;
    }
    assert MinScan(t, 3, 4) == 3;
    assert SelectionRun(t, 4) == (t, 0);
  }

  /** What the loop of selection sort has still to do from position `i` on
      `t` agrees with the run from the start on `s0`, `k` exchanges in. */
  ghost predicate SelectionTracks(s0: seq<int>, t: seq<int>, i: nat, k: int) {
    |t| == |s0| && i <= |t|
    && SelectionRun(t, i).0 == SelectionRun(s0, 0).0
    && k + SelectionRun(t, i).1 == SelectionSwaps(s0)
  }

  /** One iteration of the selection sort loop keeps it in step with the
      run from the start. */
  lemma SelectionAdvance(s0: seq<int>, t: seq<int>, t2: seq<int>, i: nat, m: nat, k: int)
    requires SelectionTracks(s0, t, i, k) && i < |t| && m == MinScan(t, i, |t|)
    requires t2 == if m != i then Swap(t, i, m) else t
    ensures SelectionTracks(s0, t2, i + 1, k + (if m != i then 1 else 0))
  {
    assert SelectionRun(t, i) == (SelectionRun(t2, i + 1).0, SelectionRun(t2, i + 1).1 + (if m != i then 1 else 0));
  }

  /** Selection sort. Every position `i` costs one comparison per later
      element, so the total is `n(n-1)/2`; position `i` is exchanged with the
      first minimum of the rest only when they differ, so the exchanges are
      those of `SelectionRun`: none at the last position, none anywhere when
      the input is already sorted. */
  method SelectionSort(a: array<int>, counters: Counters) returns (r: Counters)
    modifies a
    ensures Sorted(a[..])
    ensures multiset(a[..]) == multiset(old(a[..]))
    ensures r.comparisons == counters.comparisons + Pairs(a.Length)
    ensures a[..] == SelectionRun(old(a[..]), 0).0
    ensures r.swaps == counters.swaps + SelectionSwaps(old(a[..]))
    ensures r.swaps <= counters.swaps + (if a.Length == 0 then 0 else a.Length - 1)
    ensures Sorted(old(a[..])) ==> a[..] == old(a[..]) && r.swaps == counters.swaps
  {
    var n := a.Length;
    ghost var s0 := a[..];
    r := counters;
    var i := 0;
    while i < n
      invariant 0 <= i <= n
      invariant PrefixPlaced(a[..], i) && SelectionTracks(s0, a[..], i, r.swaps - counters.swaps)
      invariant r.comparisons == counters.comparisons + PassComparisons(n, i)
    {
      ghost var t := a[..];
      ghost var k := r.swaps - counters.swaps;
      var m;
      m, r := PlaceMin(a, i, r);
      SelectionAdvance(s0, t, a[..], i, m, k);
      assert PassComparisons(n, i + 1) == PassComparisons(n, i) + (n - i - 1);
      // The redraw here reports sorted_index = i: PrefixPlaced(a[..], i + 1).
      i := i + 1;
    }
    assert SelectionRun(a[..], n) == (a[..], 0);
    PassComparisonsAll(n);
    SelectionRunSorted(s0, 0);
    if n > 0 {
      SelectionRunSwapsBound(s0, 0);
    }
    if Sorted(s0) {
      SelectionRunOnSorted(s0, 0);
    }
  }

  /** Iteration `i` of insertion sort: take `key = a[i]`, shift the elements
      of the sorted prefix `a[..i]` that are greater than it one place right,
      from the right end down, and store it in the gap. Each shift costs one
      comparison and one relocation; when the scan stops on an element rather
      than running off the left end, that last comparison counts too. */
  method InsertKey(a: array<int>, i: nat, counters: Counters) returns (r: Counters)
    requires 0 < i < a.Length && Sorted(a[..i])
    modifies a
    ensures Sorted(a[..i + 1])
    ensures multiset(a[..i + 1]) == multiset(old(a[..i + 1]))
    ensures forall k :: i < k < a.Length ==> a[k] == old(a[k])
    ensures r.swaps == counters.swaps + Greater(old(a[..i]), old(a[i]))
    ensures r.comparisons == counters.comparisons + Greater(old(a[..i]), old(a[i]))
                            + (if Greater(old(a[..i]), old(a[i])) < i then 1 else 0)
  {
    ghost var s := a[..];
    var key := a[i];
    var k;
    k, r := ShiftGreater(a, i, counters);
    ghost var s1 := a[..];
    a[k] := key;
    InsertKeyPlaced(s, s1, a[..], i, k);
  }

  /** `s` after the scan of `InsertKey` stopped at the gap `k`: the elements
      `s[k..i]` are copied one place right, over the key at `i`, and `s[k]`
      itself is still in place until the key is stored there. */
  function ShiftedUp(s: seq<int>, k: nat, i: nat): (t: seq<int>)
    requires k <= i < |s|
    ensures |t| == |s|
  {
    s[..k + 1] + s[k..i] + s[i + 1..]
  }

  /** Copying `a[k - 1]` one place right moves the gap from `k` to `k - 1`. */
  lemma ShiftedUpStep(s: seq<int>, k: nat, i: nat)
    requires 0 < k <= i < |s|
    ensures ShiftedUp(s, k, i)[k - 1] == s[k - 1]
    ensures ShiftedUp(s, k, i)[k := s[k - 1]] == ShiftedUp(s, k - 1, i)
  {
    var u, w := ShiftedUp(s, k, i)[k := s[k - 1]], ShiftedUp(s, k - 1, i);
    forall q | 0 <= q < |s| ensures u[q] == w[q] {
      if q < k {
      } else if q <= i {
        assert w[q] == s[k - 1..i][q - k];
        if q > k {
          assert u[q] == s[k..i][q - k - 1];
        }
      } else {
        assert u[q] == s[i + 1..][q - i - 1];
        assert w[q] == s[i + 1..][q - i - 1];
      }
    }
  }

  /** `arr[j + 1] = arr[j]`: copy one element a place right. */
  method CopyUp(a: array<int>, j: nat)
    requires j + 1 < a.Length
    modifies a
    ensures a[..] == old(a[..])[j + 1 := old(a[j])]
  {
    a[j + 1] := a[j];
  }

  /** The scan of `InsertKey`: from `j = i - 1` down, while `a[j]` is greater
      than the key `a[i]`, copy it one place right. The scan ends at the gap
      `k`, after the element it stopped on, or at the left end. */
  method ShiftGreater(a: array<int>, i: nat, counters: Counters) returns (k: nat, r: Counters)
    requires 0 < i < a.Length
    modifies a
    ensures k <= i
    ensures k == 0 || old(a[k - 1]) <= old(a[i])
    ensures forall q :: k <= q < i ==> old(a[q]) > old(a[i])
    ensures a[..] == ShiftedUp(old(a[..]), k, i)
    ensures r.swaps == counters.swaps + (i - k)
    ensures r.comparisons == counters.comparisons + (i - k) + (if k > 0 then 1 else 0)
  {
    ghost var s := a[..];
    var key := a[i];
    var j := i - 1;
    r := counters;
    assert s[..i + 1] + s[i..i] + s[i + 1..] == s;
    while j >= 0 && a[j] > key
      invariant -1 <= j <= i - 1
      invariant a[..] == ShiftedUp(s, j + 1, i)
      invariant forall q :: j + 1 <= q < i ==> s[q] > key
      invariant r == Counters(counters.comparisons + (i - 1 - j), counters.swaps + (i - 1 - j))
      decreases j + 1
    {
      ShiftedUpStep(s, j + 1, i);
      r := r.(comparisons := r.comparisons + 1);
      CopyUp(a, j);
      r := r.(swaps := r.swaps + 1);
      j := j - 1;
    }
    if j >= 0 {
      ShiftedUpStep(s, j + 1, i);
      // the comparison that ends the scan
      r := r.(comparisons := r.comparisons + 1);
    }
    k := j + 1;
  }

  /** The arrangement `InsertKey` leaves: `t` is `s` with `s[i]` moved down
      to position `k`, past exactly the elements of the sorted prefix above
      it, and the rest of `s` as it was. */
  lemma InsertKeyPlaced(s: seq<int>, s1: seq<int>, t: seq<int>, i: nat, k: nat)
    requires k <= i < |s| && Sorted(s[..i])
    requires k == 0 || s[k - 1] <= s[i]
    requires forall q :: k <= q < i ==> s[q] > s[i]
    requires s1 == ShiftedUp(s, k, i) && t == s1[k := s[i]]
    ensures Sorted(t[..i + 1])
    ensures multiset(t[..i + 1]) == multiset(s[..i + 1])
    ensures forall q :: i < q < |t| ==> t[q] == s[q]
    ensures Greater(s[..i], s[i]) == i - k
  {
    ShiftedRight(s, t, i, k);
    var p, key := s[..i], s[i];
    InsertSorted(p, key, k);
    var lo, hi := p[..k], p[k..];
    assert lo == s[..k] && hi == s[k..i];
    assert t[..i + 1] == lo + [key] + hi;
  }

  /** The positions `InsertKey` writes, read as a sequence. */
  lemma ShiftedRight(s: seq<int>, t: seq<int>, i: nat, k: nat)
    requires k <= i < |s| && t == ShiftedUp(s, k, i)[k := s[i]]
    ensures t[..i + 1] == s[..k] + [s[i]] + s[k..i]
    ensures multiset(t[..i + 1]) == multiset(s[..i + 1])
    ensures forall q :: i < q < |t| ==> t[q] == s[q]
  {
    var m := s[..k] + [s[i]] + s[k..i];
    var u := ShiftedUp(s, k, i);
    forall q | 0 <= q < |s| ensures t[q] == if q <= i then m[q] else s[q] {
      if q < k {
        assert m[q] == s[q] && u[q] == s[q];
      } else if k < q <= i {
        assert m[q] == s[k..i][q - k - 1];
        assert u[q] == s[k..i][q - k - 1];
      } else if i < q {
        assert u[q] == s[i + 1..][q - i - 1];
      }
    }
    assert t[..i + 1] == m;
    assert s[..i + 1] == s[..k] + s[k..i] + [s[i]];
  }

  /** The counters of insertion sort's iteration `i`, stated on the input:
      the prefix it inserts into is a rearrangement of `s[..i]`, so the shifts
      are the inversions that `s[i]` adds, and the scan stops on an element
      exactly when some earlier element is not greater than `s[i]`. The new
      prefix `q` is a rearrangement of `s[..i + 1]`. */
  lemma InsertionStepCounts(s: seq<int>, i: nat, p: seq<int>, q: seq<int>)
    requires i < |s| && multiset(p) == multiset(s[..i])
    requires multiset(q) == multiset(p + [s[i]])
    ensures multiset(q) == multiset(s[..i + 1])
    ensures Inversions(s[..i + 1]) == Inversions(s[..i]) + Greater(p, s[i])
    ensures StoppedScans(s[..i + 1]) == StoppedScans(s[..i]) + (if Greater(p, s[i]) < i then 1 else 0)
  {
    GreaterPerm(p, s[..i], s[i]);
    assert s[..i + 1][..i] == s[..i];
    assert s[..i + 1] == s[..i] + [s[i]];
  }

  /** Insertion sort. The key at position `i` moves left past exactly the
      earlier elements above it, one comparison and one shift each, plus one
      comparison for the element it stops on, if any. So the shifts add up to
      the inversion count of the input, and the comparisons to that plus the
      number of scans that stopped on an element. */
  method InsertionSort(a: array<int>, counters: Counters) returns (r: Counters)
    modifies a
    ensures Sorted(a[..])
    ensures multiset(a[..]) == multiset(old(a[..]))
    ensures r.swaps == counters.swaps + Inversions(old(a[..]))
    ensures r.comparisons == counters.comparisons + Inversions(old(a[..])) + StoppedScans(old(a[..]))
  {
    ghost var s0 := a[..];
    var n := a.Length;
    r := counters;
    var i := 1;
    if n > 0 {
      assert s0[..1][..0] == [];
    }
    while i < n
      invariant 1 <= i && (n > 0 ==> i <= n)
      invariant n > 0 ==> Sorted(a[..i])
      invariant n > 0 ==> multiset(a[..i]) == multiset(s0[..i])
      invariant forall k :: i <= k < n ==> a[k] == s0[k]
      invariant n > 0 ==> r.swaps == counters.swaps + Inversions(s0[..i])
      invariant n > 0 ==> r.comparisons == counters.comparisons + Inversions(s0[..i]) + StoppedScans(s0[..i])
      invariant n == 0 ==> r == counters
    {
      ghost var p := a[..i];
      assert a[..i + 1] == p + [s0[i]];
      r := InsertKey(a, i, r);
      InsertionStepCounts(s0, i, p, a[..i + 1]);
      // The redraw here reports sorted_index = i: a[..i + 1] is sorted.
      i := i + 1;
    }
    if n > 0 {
      assert a[..] == a[..n] && s0 == s0[..n];
    }
  }

  /** The positions from `b` on hold their final values: they are in order
      and none of them is below an element before them. After pass `i` of
      bubble sort this holds from `b = n - i - 1` on; the redraw, which
      colours the positions up to `sorted_index`, marks the prefix instead. */
  ghost predicate SuffixPlaced(s: seq<int>, b: nat) {
    b <= |s| && Sorted(s[b..]) && forall p, q :: 0 <= p < b <= q < |s| ==> s[p] <= s[q]
  }

  /** Once every position is placed the sequence is sorted, so no inversion
      is left. */
  lemma AllPlaced(s: seq<int>)
    requires SuffixPlaced(s, 0)
    ensures Sorted(s) && Inversions(s) == 0
  {
    assert s == s[0..];
    InversionsZeroIffSorted(s);
  }

  /** No element before position `j` exceeds `s[j]`. */
  ghost predicate MaxAt(s: seq<int>, j: nat) {
    j < |s| && forall k :: 0 <= k < j ==> s[k] <= s[j]
  }

  /** The array after comparison `j` of a pass: the pair at `j, j + 1`
      exchanged when the left element is greater, unchanged otherwise. */
  function BubbleStepped(s: seq<int>, j: nat): seq<int>
    requires j + 1 < |s|
  {
    if s[j] > s[j + 1] then Swap(s, j, j + 1) else s
  }

  /** One comparison of a pass carries the largest element seen so far one
      step right, leaves the placed suffix alone, and removes one inversion
      exactly when it exchanges. */
  lemma BubbleStep(s: seq<int>, j: nat, b: nat)
    requires SuffixPlaced(s, b) && j + 1 < b && MaxAt(s, j)
    ensures SuffixPlaced(BubbleStepped(s, j), b) && MaxAt(BubbleStepped(s, j), j + 1)
  {
    var t := BubbleStepped(s, j);
    assert t[b..] == s[b..];
    forall p, q | 0 <= p < b <= q < |t| ensures t[p] <= t[q] {
      assert t[q] == s[q];
      assert t[p] == s[p] || t[p] == s[j] || t[p] == s[j + 1];
    }
    forall k | 0 <= k < j + 1 ensures t[k] <= t[j + 1] {
      if k < j {
        assert t[k] == s[k];
      }
    }
  }

  /** At the end of a pass over `s[..b]` its largest element is at `b - 1`,
      so one more position is placed. */
  lemma BubblePassEnd(s: seq<int>, b: nat)
    requires 0 < b && SuffixPlaced(s, b) && MaxAt(s, b - 1)
    ensures SuffixPlaced(s, b - 1)
  {
    var u, v := s[b - 1..], s[b..];
    forall p, q | 0 <= p <= q < |u| ensures u[p] <= u[q] {
      if p > 0 {
        assert u[p] == v[p - 1] && u[q] == v[q - 1];
      } else if q > 0 {
        assert u[q] == s[q + b - 1];
      }
    }
  }

  /** One comparison of a bubble sort pass: count it, and exchange the pair
      at `j, j + 1` (counting the exchange) when the left element is the
      greater. */
  method CompareAdjacent(a: array<int>, j: nat, counters: Counters) returns (r: Counters)
    requires j + 1 < a.Length
    modifies a
    ensures a[..] == BubbleStepped(old(a[..]), j)
    ensures r.comparisons == counters.comparisons + 1
    ensures r.swaps == counters.swaps + if old(a[j]) > old(a[j + 1]) then 1 else 0
  {
    r := counters.(comparisons := counters.comparisons + 1);
    if a[j] > a[j + 1] {
      Exchange(a, j, j + 1);
      r := r.(swaps := r.swaps + 1);
    }
  }

  /** The array after the first `j` comparisons of a pass that starts on `s`. */
  function Bubbled(s: seq<int>, j: nat): (t: seq<int>)
    requires j < |s|
    ensures |t| == |s|
  {
    if j == 0 then s else BubbleStepped(Bubbled(s, j - 1), j - 1)
  }

  /** Within a pass over `s[..b]`, after `j` comparisons the largest element
      of `s[..j + 1]` is at `j` and the placed suffix is untouched. */
  lemma {:induction false} BubbledPlaced(s: seq<int>, j: nat, b: nat)
    requires SuffixPlaced(s, b) && j < b
    ensures SuffixPlaced(Bubbled(s, j), b) && MaxAt(Bubbled(s, j), j)
  {
    if j > 0 {
      BubbledPlaced(s, j - 1, b);
      BubbleStep(Bubbled(s, j - 1), j - 1, b);
    }
  }

  /** The comparisons of a pass rearrange the elements. */
  lemma {:induction false} BubbledPerm(s: seq<int>, j: nat)
    requires j < |s|
    ensures multiset(Bubbled(s, j)) == multiset(s)
  {
    if j > 0 {
      BubbledPerm(s, j - 1);
    }
  }

  /** One comparison of a pass exchanges exactly when that removes an
      inversion. */
  lemma SteppedInversions(t: seq<int>, j: nat)
    requires j + 1 < |t|
    ensures (if t[j] > t[j + 1] then 1 else 0) + Inversions(BubbleStepped(t, j)) == Inversions(t)
  {
    if t[j] > t[j + 1] {
      AdjacentSwapInversions(t, j);
    }
  }

  /** A whole pass over `s[..b]` places one more position and only rearranges the
      elements. */
  lemma BubblePassEffect(s: seq<int>, b: nat)
    requires 0 < b && SuffixPlaced(s, b)
    ensures SuffixPlaced(Bubbled(s, b - 1), b - 1)
    ensures multiset(Bubbled(s, b - 1)) == multiset(s)
  {
    BubbledPlaced(s, b - 1, b);
    BubblePassEnd(Bubbled(s, b - 1), b);
    BubbledPerm(s, b - 1);
  }

  /** Pass `i` of bubble sort: compare each adjacent pair of `a[..n - i]`
      from the left and exchange it when the left element is greater. */
  method BubblePass(a: array<int>, i: nat, counters: Counters) returns (r: Counters)
    requires i < a.Length && SuffixPlaced(a[..], a.Length - i)
    modifies a
    ensures a[..] == Bubbled(old(a[..]), a.Length - i - 1)
    ensures SuffixPlaced(a[..], a.Length - i - 1)
    ensures multiset(a[..]) == multiset(old(a[..]))
    ensures r.comparisons == counters.comparisons + (a.Length - i - 1)
    ensures r.swaps + Inversions(a[..]) == counters.swaps + Inversions(old(a[..]))
  {
    var n := a.Length;
    ghost var s0 := a[..];
    r := counters;
    var j := 0;
    while j < n - i - 1
      invariant 0 <= j <= n - i - 1
      invariant a[..] == Bubbled(s0, j)
      invariant r.comparisons == counters.comparisons + j
      invariant r.swaps + Inversions(a[..]) == counters.swaps + Inversions(s0)
    {
      ghost var t := a[..];
      r := CompareAdjacent(a, j, r);
      SteppedInversions(t, j);
      j := j + 1;
    }
    ghost var fin := a[..];
    assert fin == Bubbled(s0, n - i - 1);
    BubblePassEffect(s0, n - i);
  }

  /** The redraw after pass `i` colours the positions up to `n - i - 1` as
      sorted. After the first pass over `[3, 2, 1]`, which leaves `[2, 1, 3]`,
      that is the whole array, which is not in order; only the suffix from
      position 2 holds its final value. */
  lemma BubbleReportAsWritten(s: seq<int>)
    requires s == [3, 2, 1]
    ensures Bubbled(s, 2) == [2, 1, 3]
    ensures !PrefixPlaced(Bubbled(s, 2), 3) && SuffixPlaced(Bubbled(s, 2), 2)
  {
    BubbleFirstPass(s);
    BubbleFirstPassPlaced(Bubbled(s, 2));
  }

  /** In `[2, 1, 3]` only the last position holds its final value. */
  lemma BubbleFirstPassPlaced(t: seq<int>)
    requires t == [2, 1, 3]
    ensures !PrefixPlaced(t, 3) && SuffixPlaced(t, 2)
  {
    assert t[..3] == t;
    assert !Sorted(t) by {
      assert t[0] > t[1];
    }
    assert t[2..] == [3];
  }

  /** The first pass over `[3, 2, 1]` exchanges twice and leaves `[2, 1, 3]`. */
  lemma BubbleFirstPass(s: seq<int>)
    requires s == [3, 2, 1]
    ensures Bubbled(s, 2) == [2, 1, 3]
  {
    var t1 := Swap(s, 0, 1);
    assert t1 == [2, 3, 1] by {
      assert t1[0] == 2 && t1[1] == 3 && t1[2] == 1;
    }
    assert Bubbled(s, 1) == t1;
    var t2 := Swap(t1, 1, 2);
    assert t2 == [2, 1, 3] by {
      assert t2[0] == 2 && t2[1] == 1 && t2[2] == 3;
    }
  }

  /** After `i` passes of bubble sort on `s0`, the array `t` is a rearrangement
      of `s0` whose last `i` positions hold their final values. */
  ghost predicate BubbleProgress(s0: seq<int>, t: seq<int>, i: nat) {
    i <= |t| && multiset(t) == multiset(s0) && SuffixPlaced(t, |t| - i)
  }

  /** Progress after `k` exchanges: every exchange so far removed one
      inversion of `s0`. */
  ghost predicate BubbleCounted(s0: seq<int>, t: seq<int>, i: nat, k: int) {
    BubbleProgress(s0, t, i) && k + Inversions(t) == Inversions(s0)
  }

  /** A pass that places one more position and removes `d` inversions
      advances the progress of bubble sort by one pass and `d` exchanges. */
  lemma BubbleAdvance(s0: seq<int>, t: seq<int>, t2: seq<int>, i: nat, k: int, d: int)
    requires BubbleCounted(s0, t, i, k)
    requires i < |t| && |t2| == |t| && multiset(t2) == multiset(t) && SuffixPlaced(t2, |t| - i - 1)
    requires d + Inversions(t2) == Inversions(t)
    ensures BubbleCounted(s0, t2, i + 1, k + d)
  {
  }

  /** Pass `i` of bubble sort, seen from the outer loop: it advances the
      progress by one pass and `n - i - 1` comparisons. */
  method BubbleRound(a: array<int>, i: nat, counters: Counters, ghost s0: seq<int>, ghost c0: Counters)
      returns (r: Counters)
    requires i < a.Length && BubbleCounted(s0, a[..], i, counters.swaps - c0.swaps)
    modifies a
    ensures a[..] == Bubbled(old(a[..]), a.Length - i - 1)
    ensures BubbleCounted(s0, a[..], i + 1, r.swaps - c0.swaps)
    ensures r.comparisons == counters.comparisons + (a.Length - i - 1)
  {
    ghost var t := a[..];
    r := BubblePass(a, i, counters);
    BubbleAdvance(s0, t, a[..], i, counters.swaps - c0.swaps, r.swaps - counters.swaps);
  }

  /** Bubble sort without early exit. Pass `i` compares the adjacent pairs of
      `a[..n - i]`, so the total is `n(n-1)/2` comparisons whatever the
      input; each exchange removes exactly one inversion, so the exchanges
      add up to the inversion count of the input. */
  method BubbleSort(a: array<int>, counters: Counters) returns (r: Counters)
    modifies a
    ensures Sorted(a[..])
    ensures multiset(a[..]) == multiset(old(a[..]))
    ensures r.comparisons == counters.comparisons + Pairs(a.Length)
    ensures r.swaps == counters.swaps + Inversions(old(a[..]))
  {
    var n := a.Length;
    ghost var s0 := a[..];
    r := counters;
    var i := 0;
    assert a[n..] == [];
    while i < n
      invariant 0 <= i <= n
      invariant BubbleCounted(s0, a[..], i, r.swaps - counters.swaps)
      invariant r.comparisons == counters.comparisons + PassComparisons(n, i)
    {
      r := BubbleRound(a, i, r, s0, counters);
      assert PassComparisons(n, i + 1) == PassComparisons(n, i) + (n - i - 1);
      // The redraw here colours a[..n - i] as sorted, although what holds
      // is SuffixPlaced(a[..], n - i - 1); see BubbleReportAsWritten.
      i := i + 1;
    }
    AllPlaced(a[..]);
    PassComparisonsAll(n);
  }
}
