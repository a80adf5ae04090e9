/** Facts about orderings shared by every sort of the engine: sortedness,
    the number of elements above a value, the inversion count that the
    swap counters of insertion sort and bubble sort come to, and the
    in-place exchange. */
module Order {

  /** `s` is in non-decreasing order. */
  predicate Sorted(s: seq<int>) {
    forall i, j :: 0 <= i <= j < |s| ==> s[i] <= s[j]
  }

  /** Exchange of the elements at positions `i` and `j`. */
  function Swap(s: seq<int>, i: nat, j: nat): (t: seq<int>)
    requires i < |s| && j < |s|
    ensures |t| == |s| && t[i] == s[j] && t[j] == s[i]
    ensures forall k :: 0 <= k < |s| && k != i && k != j ==> t[k] == s[k]
    ensures multiset(t) == multiset(s)
  {
    s[i := s[j]][j := s[i]]
  }

  /** The in-place exchange `arr[i], arr[j] = arr[j], arr[i]` that
      selection, bubble and quick sort share. */
  method Exchange(a: array<int>, i: nat, j: nat)
    requires i < a.Length && j < a.Length
    modifies a
    ensures a[..] == Swap(old(a[..]), i, j)
  {
    a[i], a[j] := a[j], a[i];
  }

  /** Number of elements of `p` strictly greater than `x`. */
  function Greater(p: seq<int>, x: int): (r: nat)
    ensures r <= |p|
  {
    if p == [] then 0
    else Greater(p[..|p| - 1], x) + (if p[|p| - 1] > x then 1 else 0)
  }

  /** Number of elements of `p` strictly less than `x`. */
  function Less(p: seq<int>, x: int): (r: nat)
    ensures r <= |p|
  {
    if p == [] then 0
    else Less(p[..|p| - 1], x) + (if p[|p| - 1] < x then 1 else 0)
  }

  /** Number of pairs `i < j` with `s[i] > s[j]`: for each position, the
      earlier elements that are greater than the element there. */
  function Inversions(s: seq<int>): nat {
    if s == [] then 0
    else Inversions(s[..|s| - 1]) + Greater(s[..|s| - 1], s[|s| - 1])
  }

  /** Number of positions `0 < i < |s|` such that some earlier element is not
      greater than `s[i]`: the insertions whose leftward scan stops on an
      element instead of running off the left end of the prefix. */
  function StoppedScans(s: seq<int>): nat {
    if s == [] then 0
    else StoppedScans(s[..|s| - 1])
         + (if Greater(s[..|s| - 1], s[|s| - 1]) < |s| - 1 then 1 else 0)
  }

  /** No element of `p` is above `x` exactly when the count is zero. */
  lemma {:induction false} GreaterNone(p: seq<int>, x: int)
    ensures Greater(p, x) == 0 <==> forall k :: 0 <= k < |p| ==> p[k] <= x
  {
    if p != [] {
      var q := p[..|p| - 1];
      GreaterNone(q, x);
      assert forall k :: 0 <= k < |q| ==> q[k] == p[k];
    }
  }

  /** Every element of `p` is above `x` exactly when the count is `|p|`. */
  lemma {:induction false} GreaterAll(p: seq<int>, x: int)
    ensures Greater(p, x) == |p| <==> forall k :: 0 <= k < |p| ==> p[k] > x
  {
    if p != [] {
      var q := p[..|p| - 1];
      GreaterAll(q, x);
      assert forall k :: 0 <= k < |q| ==> q[k] == p[k];
    }
  }

  /** The count is additive over concatenation. */
  lemma {:induction false} GreaterAppend(a: seq<int>, b: seq<int>, x: int)
    ensures Greater(a + b, x) == Greater(a, x) + Greater(b, x)
  {
    if b == [] {
      assert a + b == a;
    } else {
      var b' := b[..|b| - 1];
      assert (a + b)[..|a + b| - 1] == a + b';
      GreaterAppend(a, b', x);
    }
  }

  /** The count depends only on the multiset of elements. */
  lemma {:induction false} GreaterPerm(p: seq<int>, q: seq<int>, x: int)
    requires multiset(p) == multiset(q)
    ensures Greater(p, x) == Greater(q, x)
    decreases |p|
  {
    if p == [] {
      assert |q| == |multiset(q)| == 0;
    } else {
      var y := p[|p| - 1];
      var p' := p[..|p| - 1];
      assert p == p' + [y];
      assert y in multiset(q);
      var k :| 0 <= k < |q| && q[k] == y;
      var q' := q[..k] + q[k + 1..];
      assert q == q[..k] + [y] + q[k + 1..];
      assert multiset(q') == multiset(q) - multiset{y};
      assert multiset(p') == multiset(p) - multiset{y};
      GreaterPerm(p', q', x);
      GreaterAppend(q[..k] + [y], q[k + 1..], x);
      GreaterAppend(q[..k], [y], x);
      GreaterAppend(q[..k], q[k + 1..], x);
      assert [y][..0] == [];
    }
  }

  /** No element of `p` is below `x` exactly when the count is zero. */
  lemma {:induction false} LessNone(p: seq<int>, x: int)
    ensures Less(p, x) == 0 <==> forall k :: 0 <= k < |p| ==> x <= p[k]
  {
    if p != [] {
      var q := p[..|p| - 1];
      LessNone(q, x);
      assert forall k :: 0 <= k < |q| ==> q[k] == p[k];
    }
  }

  /** Every element of `p` is below `x` exactly when the count is `|p|`. */
  lemma {:induction false} LessAll(p: seq<int>, x: int)
    ensures Less(p, x) == |p| <==> forall k :: 0 <= k < |p| ==> p[k] < x
  {
    if p != [] {
      var q := p[..|p| - 1];
      LessAll(q, x);
      assert forall k :: 0 <= k < |q| ==> q[k] == p[k];
    }
  }

  lemma {:induction false} LessAppend(a: seq<int>, b: seq<int>, x: int)
    ensures Less(a + b, x) == Less(a, x) + Less(b, x)
  {
    if b == [] {
      assert a + b == a;
    } else {
      var b' := b[..|b| - 1];
      assert (a + b)[..|a + b| - 1] == a + b';
      LessAppend(a, b', x);
    }
  }

  lemma {:induction false} LessPerm(p: seq<int>, q: seq<int>, x: int)
    requires multiset(p) == multiset(q)
    ensures Less(p, x) == Less(q, x)
    decreases |p|
  {
    if p == [] {
      assert |q| == |multiset(q)| == 0;
    } else {
      var y := p[|p| - 1];
      var p' := p[..|p| - 1];
      assert p == p' + [y];
      assert y in multiset(q);
      var k :| 0 <= k < |q| && q[k] == y;
      var q' := q[..k] + q[k + 1..];
      assert q == q[..k] + [y] + q[k + 1..];
      assert multiset(q') == multiset(q) - multiset{y};
      assert multiset(p') == multiset(p) - multiset{y};
      LessPerm(p', q', x);
      LessAppend(q[..k] + [y], q[k + 1..], x);
      LessAppend(q[..k], [y], x);
      LessAppend(q[..k], q[k + 1..], x);
      assert [y][..0] == [];
    }
  }

  /** Placing `key` into sorted `p` at position `k`, after the elements not
      above it and before the elements above it, gives a sorted sequence;
      the elements that move right to make room are exactly those above
      `key`. */
  lemma InsertSorted(p: seq<int>, key: int, k: nat)
    requires Sorted(p) && k <= |p|
    requires k == 0 || p[k - 1] <= key
    requires forall t :: k <= t < |p| ==> p[t] > key
    ensures Sorted(p[..k] + [key] + p[k..])
    ensures Greater(p, key) == |p| - k
  {
    var lo, hi := p[..k], p[k..];
    assert p == lo + hi;
    forall t | 0 <= t < |lo| ensures lo[t] <= key {
      assert lo[t] == p[t] <= p[k - 1];
    }
    GreaterAppend(lo, hi, key);
    GreaterNone(lo, key);
    GreaterAll(hi, key);
    InsertSortedOrder(lo, key, hi);
  }

  lemma InsertSortedOrder(lo: seq<int>, key: int, hi: seq<int>)
    requires Sorted(lo + hi)
    requires forall t :: 0 <= t < |lo| ==> lo[t] <= key
    requires forall t :: 0 <= t < |hi| ==> hi[t] > key
    ensures Sorted(lo + [key] + hi)
  {
    var p, m, k := lo + hi, lo + [key] + hi, |lo|;
    forall i, j | 0 <= i <= j < |m| ensures m[i] <= m[j] {
      if j < k {
        assert m[i] == p[i] && m[j] == p[j];
      } else if i > k {
        assert m[i] == p[i - 1] && m[j] == p[j - 1];
      } else if i < k && j > k {
        assert m[i] == lo[i] && m[j] == hi[j - k - 1];
      } else if i < k {
        assert m[i] == lo[i];
      } else if j > k {
        assert m[j] == hi[j - k - 1];
      }
    }
  }

  /** Two sorted blocks around a value that separates them form a sorted
      sequence. */
  lemma SortedJoin(lo: seq<int>, x: int, hi: seq<int>)
    requires Sorted(lo) && Sorted(hi)
    requires forall t :: 0 <= t < |lo| ==> lo[t] <= x
    requires forall t :: 0 <= t < |hi| ==> x <= hi[t]
    ensures Sorted(lo + [x] + hi)
  {
    var m, k := lo + [x] + hi, |lo|;
    forall i, j | 0 <= i <= j < |m| ensures m[i] <= m[j] {
      if j < k {
        assert m[i] == lo[i] && m[j] == lo[j];
      } else if i > k {
        assert m[i] == hi[i - k - 1] && m[j] == hi[j - k - 1];
      } else if i < k && j > k {
        assert m[i] == lo[i] && m[j] == hi[j - k - 1];
      } else if i < k {
        assert m[i] == lo[i];
      } else if j > k {
        assert m[j] == hi[j - k - 1];
      }
    }
  }

  /** A rearrangement of `s[lo..hi]` that leaves everything else in place
      rearranges that range. */
  lemma RangePerm(s: seq<int>, t: seq<int>, lo: nat, hi: nat)
    requires lo <= hi <= |s| == |t| && multiset(s) == multiset(t)
    requires forall k :: 0 <= k < |s| && (k < lo || hi <= k) ==> s[k] == t[k]
    ensures multiset(s[lo..hi]) == multiset(t[lo..hi])
  {
    assert s[..lo] == t[..lo] && s[hi..] == t[hi..];
    MiddlePerm(s, t, lo, hi);
  }

  lemma MiddlePerm(s: seq<int>, t: seq<int>, lo: nat, hi: nat)
    requires lo <= hi <= |s| == |t| && multiset(s) == multiset(t)
    requires s[..lo] == t[..lo] && s[hi..] == t[hi..]
    ensures multiset(s[lo..hi]) == multiset(t[lo..hi])
  {
    var a, b := s[..lo], s[hi..];
    assert s == a + s[lo..hi] + b && t == a + t[lo..hi] + b;
    assert multiset(s) == multiset(a) + multiset(s[lo..hi]) + multiset(b);
    assert multiset(t) == multiset(a) + multiset(t[lo..hi]) + multiset(b);
    forall x ensures multiset(s[lo..hi])[x] == multiset(t[lo..hi])[x] {
      assert multiset(s)[x] == multiset(t)[x];
    }
  }

  /** Every element of a rearrangement of `s` is an element of `s`. */
  lemma PermMember(s: seq<int>, t: seq<int>, k: nat)
    requires multiset(s) == multiset(t) && k < |t|
    ensures exists q :: 0 <= q < |s| && s[q] == t[k]
  {
    assert t[k] in multiset(t);
    assert t[k] in multiset(s);
  }

  /** A sequence has no inversion exactly when it is sorted. */
  lemma {:induction false} InversionsZeroIffSorted(s: seq<int>)
    ensures Inversions(s) == 0 <==> Sorted(s)
  {
    if s != [] {
      var n := |s|;
      var p := s[..n - 1];
      InversionsZeroIffSorted(p);
      GreaterNone(p, s[n - 1]);
      if Sorted(s) {
        assert Sorted(p);
        assert forall k :: 0 <= k < |p| ==> p[k] <= s[n - 1];
      }
      if Inversions(s) == 0 {
        assert Sorted(p);
        forall i, j | 0 <= i <= j < n ensures s[i] <= s[j] {
          assert i == n - 1 || s[i] == p[i];
          if j < n - 1 {
            assert s[i] == p[i] && s[j] == p[j];
          }
        }
      }
    }
  }

  /** Exchanging an adjacent out-of-order pair removes exactly one inversion. */
  lemma {:induction false} AdjacentSwapInversions(s: seq<int>, j: nat)
    requires j + 1 < |s| && s[j] > s[j + 1]
    ensures Inversions(Swap(s, j, j + 1)) + 1 == Inversions(s)
    decreases |s|
  {
    var t := Swap(s, j, j + 1);
    var n := |s|;
    if n == j + 2 {
      var pre := s[..j];
      assert s[..n - 1] == pre + [s[j]] && t[..n - 1] == pre + [s[j + 1]];
      assert (pre + [s[j]])[..j] == pre && (pre + [s[j + 1]])[..j] == pre;
      GreaterAppend(pre, [s[j]], s[j + 1]);
      GreaterAppend(pre, [s[j + 1]], s[j]);
      assert [s[j]][..0] == [] && [s[j + 1]][..0] == [];
    } else {
      assert t[..n - 1] == Swap(s[..n - 1], j, j + 1);
      AdjacentSwapInversions(s[..n - 1], j);
      GreaterPerm(t[..n - 1], s[..n - 1], s[n - 1]);
    }
  }

  /** There are at most `n(n-1)/2` inversions, one per pair of positions. */
  lemma {:induction false} InversionsBound(s: seq<int>)
    ensures 2 * Inversions(s) <= |s| * (|s| - 1)
  {
    if s != [] {
      var n := |s|;
      InversionsBound(s[..n - 1]);
      assert Greater(s[..n - 1], s[n - 1]) <= n - 1;
      assert (n - 1) * (n - 2) + 2 * (n - 1) == n * (n - 1);
    }
  }

  /** On sorted input, no element is inverted and every scan but the first
      position's stops inside the prefix. */
  lemma {:induction false} SortedCounts(s: seq<int>)
    requires Sorted(s)
    ensures Inversions(s) == 0
    ensures StoppedScans(s) == if s == [] then 0 else |s| - 1
  {
    InversionsZeroIffSorted(s);
    if |s| > 1 {
      var p := s[..|s| - 1];
      assert Sorted(p);
      SortedCounts(p);
      GreaterNone(p, s[|s| - 1]);
    } else if |s| == 1 {
      assert s[..0] == [];
    }
  }

  /** Dropping the first element keeps a sequence sorted. */
  lemma SortedTail(s: seq<int>)
    requires Sorted(s) && s != []
    ensures Sorted(s[1..])
  {
    var u := s[1..];
    forall i, j | 0 <= i <= j < |u| ensures u[i] <= u[j] {
      assert u[i] == s[i + 1] && u[j] == s[j + 1];
    }
  }

  /** The elements after the first are the elements less the first. */
  lemma MultisetTail(s: seq<int>)
    requires s != []
    ensures multiset(s[1..]) == multiset(s) - multiset{s[0]}
  {
    assert s == [s[0]] + s[1..];
  }

  /** Two sorted arrangements of the same multiset start with the same
      element, their minimum. */
  lemma SortedHeads(s: seq<int>, t: seq<int>)
    requires Sorted(s) && Sorted(t) && multiset(s) == multiset(t) && s != []
    ensures t != [] && s[0] == t[0]
  {
    assert |t| == |multiset(t)| == |s|;
    PermMember(s, t, 0);
    var i :| 0 <= i < |s| && s[i] == t[0];
    PermMember(t, s, 0);
    var k :| 0 <= k < |t| && t[k] == s[0];
    assert s[0] <= s[i] && t[0] <= t[k];
  }

  /** Two sorted arrangements of the same multiset are equal: sorting is
      determined by its input, so re-sorting sorted data changes nothing. */
  lemma {:induction false} SortedPermUnique(s: seq<int>, t: seq<int>)
    requires Sorted(s) && Sorted(t) && multiset(s) == multiset(t)
    ensures s == t
    decreases |s|
  {
    if s == [] {
      assert |t| == |multiset(t)| == 0;
    } else {
      SortedHeads(s, t);
      MultisetTail(s);
      MultisetTail(t);
      SortedTail(s);
      SortedTail(t);
      SortedPermUnique(s[1..], t[1..]);
      assert s == [s[0]] + s[1..] && t == [t[0]] + t[1..];
    }
  }

  /** `t` is `s` with the range `[low, high]` sorted in place: a range of
      two or more elements is sorted and holds the same elements as before,
      a shorter one is left alone, and nothing outside it moves. */
  ghost predicate RangeSorted(s: seq<int>, t: seq<int>, low: int, high: int) {
    |t| == |s| &&
    (forall k :: 0 <= k < |s| && (k < low || high < k) ==> t[k] == s[k]) &&
    (high <= low ==> t == s) &&
    (low < high ==>
       0 <= low && high < |s| && Sorted(t[low..high + 1]) &&
       multiset(t[low..high + 1]) == multiset(s[low..high + 1]))
  }

  /** A range, possibly empty, after its sort is sorted and rearranged,
      whether it was sorted or, having at most one element, left alone. */
  lemma SideSorted(s: seq<int>, t: seq<int>, lo: int, hi: int)
    requires 0 <= lo <= hi + 1 <= |s| && RangeSorted(s, t, lo, hi)
    ensures Sorted(t[lo..hi + 1]) && multiset(t[lo..hi + 1]) == multiset(s[lo..hi + 1])
  {
  }
}
