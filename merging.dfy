/** The value-level meaning of merge sort's `merge` step: what the two-way
    merge of the copied halves `L` and `R` writes back, and how many element
    comparisons it makes on the way. */
module Merging {
  import opened Order

  /** The sequence the merge writes, front to back. The head of `L` is taken
      only when it is strictly smaller than the head of `R`; on a tie the head
      of `R` is taken. Once either side is used up, the rest of the other is
      copied. */
  function Merged(l: seq<int>, r: seq<int>): seq<int>
    decreases |l| + |r|
  {
    if l == [] then r
    else if r == [] then l
    else if l[0] < r[0] then [l[0]] + Merged(l[1..], r)
    else [r[0]] + Merged(l, r[1..])
  }

  /** Number of element comparisons the merge makes: one per element written
      while both sides still have elements, none while copying the rest. */
  function MergeComparisons(l: seq<int>, r: seq<int>): nat
    decreases |l| + |r|
  {
    if l == [] || r == [] then 0
    else if l[0] < r[0] then 1 + MergeComparisons(l[1..], r)
    else 1 + MergeComparisons(l, r[1..])
  }

  /** Merging `[2]` with `[1]` compares once and writes `[1, 2]`. */
  lemma MergeExample()
    ensures Merged([2], [1]) == [1, 2] && MergeComparisons([2], [1]) == 1
  {
    assert [2][1..] == [] && [1][1..] == [];
  }

  /** The merge writes exactly the elements of both sides, each once. */
  lemma {:induction false} MergedPermutation(l: seq<int>, r: seq<int>)
    ensures multiset(Merged(l, r)) == multiset(l) + multiset(r)
    ensures |Merged(l, r)| == |l| + |r|
    decreases |l| + |r|
  {
    if l != [] && r != [] {
      if l[0] < r[0] {
        MergedPermutation(l[1..], r);
        assert l == [l[0]] + l[1..];
      } else {
        MergedPermutation(l, r[1..]);
        assert r == [r[0]] + r[1..];
      }
    }
  }

  /** A lower bound of both sides bounds everything the merge writes. */
  lemma {:induction false} MergedLowerBound(l: seq<int>, r: seq<int>, x: int)
    requires forall k :: 0 <= k < |l| ==> x <= l[k]
    requires forall k :: 0 <= k < |r| ==> x <= r[k]
    ensures forall k :: 0 <= k < |Merged(l, r)| ==> x <= Merged(l, r)[k]
    decreases |l| + |r|
  {
    if l != [] && r != [] {
      if l[0] < r[0] {
        MergedLowerBound(l[1..], r, x);
      } else {
        MergedLowerBound(l, r[1..], x);
      }
    }
  }

  /** Putting a lower bound in front of a sorted sequence keeps it sorted. */
  lemma PrependSorted(x: int, s: seq<int>)
    requires Sorted(s) && forall k :: 0 <= k < |s| ==> x <= s[k]
    ensures Sorted([x] + s)
  {
    var m := [x] + s;
    forall i, j | 0 <= i <= j < |m| ensures m[i] <= m[j] {
      if i > 0 {
        assert m[i] == s[i - 1] && m[j] == s[j - 1];
      } else if j > 0 {
        assert m[j] == s[j - 1];
      }
    }
  }

  /** Merging two sorted sides yields a sorted sequence. */
  lemma {:induction false} MergedSorted(l: seq<int>, r: seq<int>)
    requires Sorted(l) && Sorted(r)
    ensures Sorted(Merged(l, r))
    decreases |l| + |r|
  {
    if l != [] && r != [] {
      if l[0] < r[0] {
        var l' := l[1..];
        assert Sorted(l');
        MergedSorted(l', r);
        MergedLowerBound(l', r, l[0]);
        PrependSorted(l[0], Merged(l', r));
      } else {
        var r' := r[1..];
        assert Sorted(r');
        MergedSorted(l, r');
        MergedLowerBound(l, r', r[0]);
        PrependSorted(r[0], Merged(l, r'));
      }
    }
  }

  /** While both sides are non-empty each comparison precedes one write, so
      the merge of `n` elements makes at most `n - 1` comparisons, and at
      least as many as the shorter side has elements. */
  lemma {:induction false} MergeComparisonsBounds(l: seq<int>, r: seq<int>)
    ensures MergeComparisons(l, r) + 1 <= |l| + |r| || (l == [] && r == [])
    ensures MergeComparisons(l, r) >= if |l| < |r| then |l| else |r|
    ensures l == [] || r == [] ==> MergeComparisons(l, r) == 0
    decreases |l| + |r|
  {
    if l != [] && r != [] {
      if l[0] < r[0] {
        MergeComparisonsBounds(l[1..], r);
      } else {
        MergeComparisonsBounds(l, r[1..]);
      }
    }
  }

  /** `s` with the first `n` elements of `m` written over it from `left`:
      the state of the array after the merge has written `n` elements. */
  function Written(s: seq<int>, left: nat, m: seq<int>, n: nat): (t: seq<int>)
    requires n <= |m| && left + |m| <= |s|
    ensures |t| == |s|
  {
    s[..left] + m[..n] + s[left + n..]
  }

  /** Writing the next element of `m` extends the written prefix by one. */
  lemma WrittenNext(s: seq<int>, left: nat, m: seq<int>, n: nat)
    requires n < |m| && left + |m| <= |s|
    ensures Written(s, left, m, n)[left + n := m[n]] == Written(s, left, m, n + 1)
  {
    var u := Written(s, left, m, n)[left + n := m[n]];
    var w := Written(s, left, m, n + 1);
    forall q | 0 <= q < |s| ensures u[q] == w[q] {
      if q < left {
      } else if q < left + n + 1 {
        assert w[q] == m[..n + 1][q - left];
      } else {
        assert w[q] == s[left + n + 1..][q - left - n - 1];
      }
    }
  }

  /** The state of the merge of `l` and `r` into `s` from `left`, with `m`
      the whole merged sequence, after `l[..i]` and `r[..j]` are written:
      `t` holds the first `i + j` elements of `m` in place, and what is still
      to be merged is the rest of `m`. */
  ghost predicate MergeAt(s: seq<int>, left: nat, l: seq<int>, r: seq<int>, m: seq<int>, i: nat, j: nat, t: seq<int>) {
    i <= |l| && j <= |r| && |m| == |l| + |r| && left + |m| <= |s| &&
    t == Written(s, left, m, i + j) &&
    Merged(l[i..], r[j..]) == m[i + j..]
  }

  /** Before anything is written the array is as it was. */
  lemma MergeAtStart(s: seq<int>, left: nat, l: seq<int>, r: seq<int>)
    requires left + |l| + |r| <= |s|
    ensures MergeAt(s, left, l, r, Merged(l, r), 0, 0, s)
  {
    MergedPermutation(l, r);
    assert l[0..] == l && r[0..] == r;
    assert Written(s, left, Merged(l, r), 0) == s;
  }

  /** Taking the head of `l[i..]`, which the merge does while it is below the
      head of `r[j..]` or once `r` is used up, writes `m[i + j]`; it costs a
      comparison exactly when `r` is not used up. */
  lemma MergeAtLeft(s: seq<int>, left: nat, l: seq<int>, r: seq<int>, m: seq<int>, i: nat, j: nat, t: seq<int>)
    requires MergeAt(s, left, l, r, m, i, j, t) && i < |l| && (j < |r| ==> l[i] < r[j])
    ensures MergeAt(s, left, l, r, m, i + 1, j, t[left + i + j := l[i]])
    ensures MergeComparisons(l[i..], r[j..]) == (if j < |r| then 1 else 0) + MergeComparisons(l[i + 1..], r[j..])
  {
    assert l[i..][1..] == l[i + 1..];
    assert m[i + j..][1..] == m[i + j + 1..];
    if j == |r| {
      assert r[j..] == [];
    }
    WrittenNext(s, left, m, i + j);
  }

  /** Taking the head of `r[j..]`, which the merge does while it is not above
      the head of `l[i..]` or once `l` is used up, writes `m[i + j]`; it costs
      a comparison exactly when `l` is not used up. */
  lemma MergeAtRight(s: seq<int>, left: nat, l: seq<int>, r: seq<int>, m: seq<int>, i: nat, j: nat, t: seq<int>)
    requires MergeAt(s, left, l, r, m, i, j, t) && j < |r| && (i < |l| ==> r[j] <= l[i])
    ensures MergeAt(s, left, l, r, m, i, j + 1, t[left + i + j := r[j]])
    ensures MergeComparisons(l[i..], r[j..]) == (if i < |l| then 1 else 0) + MergeComparisons(l[i..], r[j + 1..])
  {
    assert r[j..][1..] == r[j + 1..];
    assert m[i + j..][1..] == m[i + j + 1..];
    if i == |l| {
      assert l[i..] == [];
    }
    WrittenNext(s, left, m, i + j);
  }

  /** Once both halves `s[left..mid]` and `s[mid + 1..right]` are written
      the range holds their merge. */
  lemma MergeAtEnd(s: seq<int>, left: nat, mid: int, right: int, m: seq<int>, t: seq<int>)
    requires left <= mid + 1 <= right + 1 <= |s|
    requires m == Merged(s[left..mid + 1], s[mid + 1..right + 1])
    requires MergeAt(s, left, s[left..mid + 1], s[mid + 1..right + 1], m, mid + 1 - left, right - mid, t)
    ensures t == s[..left] + Merged(s[left..mid + 1], s[mid + 1..right + 1]) + s[right + 1..]
  {
    assert m[..|m|] == m;
  }
}
