/** The operation counters every sort threads through its loops and its
    recursive calls, and the write count that merge sort's recursion adds
    up to. */
module Counting {

  /** The tally of one sort call: element comparisons, and element
      relocations ("swaps": an exchange for selection, bubble and quick
      sort, a shift for insertion sort, a write-back for merge). */
  datatype Counters = Counters(comparisons: nat, swaps: nat)

  /** The fresh tally a top-level call starts from. */
  const Zero := Counters(0, 0)

  /** Comparisons of the first `i` outer passes of selection sort or bubble
      sort on `n` elements: pass `t` compares `n - t - 1` pairs. */
  function PassComparisons(n: nat, i: nat): nat
    requires i <= n
  {
    if i == 0 then 0 else PassComparisons(n, i - 1) + (n - i)
  }

  /** All `n` passes together compare each of the `n(n-1)/2` pairs of
      positions once. */
  lemma {:induction false} PassComparisonsTotal(n: nat, i: nat)
    requires i <= n
    ensures 2 * PassComparisons(n, i) == i * (2 * n - i - 1)
    ensures i == n ==> PassComparisons(n, i) == n * (n - 1) / 2
  {
    if i > 0 {
      PassComparisonsTotal(n, i - 1);
      assert i * (2 * n - i - 1) == (i - 1) * (2 * n - i) + 2 * (n - i);
    }
  }

  /** Number of unordered pairs of `n` elements, `n(n-1)/2`, built up one
      element at a time so that bounds over it stay linear. */
  function Pairs(n: nat): nat
  {
    if n == 0 then 0 else Pairs(n - 1) + (n - 1)
  }

  lemma {:induction false} PairsClosed(n: nat)
    ensures 2 * Pairs(n) == n * (n - 1)
  {
    if n > 0 {
      PairsClosed(n - 1);
      assert n * (n - 1) == (n - 1) * (n - 2) + 2 * (n - 1);
    }
  }

  /** All the passes of selection or bubble sort together compare each
      unordered pair of positions once. */
  lemma PassComparisonsAll(n: nat)
    ensures PassComparisons(n, n) == Pairs(n)
  {
    PassComparisonsTotal(n, n);
    PairsClosed(n);
  }

  /** Number of elements of the range `[low, high]`. */
  function Width(low: int, high: int): nat {
    if low <= high then high - low + 1 else 0
  }

  /** Pairs of a union of two groups: those inside either group and the
      `a * b` across. */
  lemma {:induction false} PairsSum(a: nat, b: nat)
    ensures Pairs(a + b) == Pairs(a) + Pairs(b) + a * b
  {
    if b > 0 {
      PairsSum(a, b - 1);
      assert a * b == a * (b - 1) + a;
    }
  }

  /** A quick sort partition of `L + R + 1` elements leaving `L` below and
      `R` above the pivot costs `L + R` comparisons and at most `L + R + 1`
      exchanges; with the worst-case totals of the two sides that stays
      within the worst-case total of the whole range. */
  lemma QuickSplitBound(l: nat, r: nat)
    ensures (l + r) + Pairs(l) + Pairs(r) <= Pairs(l + r + 1)
    ensures (l + r + 1) + Pairs(l + 1) + Pairs(r + 1) <= Pairs(l + r + 2)
  {
    PairsSum(l, r + 1);
    PairsSum(l + 1, r + 1);
    assert l * (r + 1) >= l;
    assert (l + 1) * (r + 1) >= l + r + 1 by {
      assert (l + 1) * (r + 1) == l * r + l + r + 1;
    }
  }

  /** Writes merge sort makes on a range of `n` elements: every merge writes
      its whole range, and a range is halved at `(left + right) / 2`, which
      leaves `(n + 1) / 2` elements on the left and `n / 2` on the right. */
  function MergeSortWrites(n: nat): nat
  {
    if n <= 1 then 0
    else n + MergeSortWrites((n + 1) / 2) + MergeSortWrites(n / 2)
  }

  /** Splitting `[left, right]` at `(left + right) / 2` gives the two
      halves `MergeSortWrites` recurses on. */
  lemma MergeSortWritesSplit(left: nat, right: nat)
    requires left < right
    ensures MergeSortWrites(Width(left, right)) ==
      Width(left, right) + MergeSortWrites(Width(left, (left + right) / 2)) +
      MergeSortWrites(Width((left + right) / 2 + 1, right))
  {
    var n, mid := right + 1 - left, (left + right) / 2;
    assert mid - left == (right - left) / 2;
    assert Width(left, mid) == (n + 1) / 2 && Width(mid + 1, right) == n / 2;
  }

  function Pow2(k: nat): (r: nat)
    ensures r >= 1
  {
    if k == 0 then 1 else 2 * Pow2(k - 1)
  }

  /** On `2^k` elements merge sort writes every element once on each of its
      `k` levels of halving. */
  lemma {:induction false} MergeSortWritesPow2(k: nat)
    ensures MergeSortWrites(Pow2(k)) == k * Pow2(k)
  {
    if k > 0 {
      var h := Pow2(k - 1);
      var n := Pow2(k);
      assert n == 2 * h;
      assert (n + 1) / 2 == h && n / 2 == h;
      MergeSortWritesPow2(k - 1);
      assert MergeSortWrites(h) == (k - 1) * h;
      assert MergeSortWrites(n) == n + 2 * MergeSortWrites(h);
      assert (k - 1) * h == k * h - h;
      assert k * n == 2 * (k * h);
    }
  }
}
