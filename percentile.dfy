/**
 * `calculate_percentile` of suinfra_cli/utils.py: sort the caller's list in place, then
 * interpolate linearly between the two order statistics around rank (n - 1) * p / 100.
 */
module Percentiles {
  import opened Wrappers
  import opened Stats

  predicate Sorted(s: seq<real>) {
    forall i, j :: 0 <= i < j < |s| ==> s[i] <= s[j]
  }

  /** In a sorted list, the head is at most every value of the tail. */
  lemma HeadBelowTail(s: seq<real>)
    requires Sorted(s) && |s| > 0
    ensures forall y :: y in multiset(s[1..]) ==> s[0] <= y
  {
    forall y | y in multiset(s[1..]) ensures s[0] <= y {
      var k :| 0 <= k < |s[1..]| && s[1..][k] == y;
      assert s[k + 1] == y;
    }
  }

  /** A value at most every value of a sorted list can be put in front of it. */
  lemma PrependLeast(h: real, t: seq<real>)
    requires Sorted(t) && forall y :: y in multiset(t) ==> h <= y
    ensures Sorted([h] + t)
  {
    forall k | 0 <= k < |t| ensures h <= t[k] {
      assert t[k] in multiset(t);
    }
  }

  lemma InsertFront(x: real, s: seq<real>)
    requires Sorted(s) && (s == [] || x <= s[0])
    ensures Sorted([x] + s) && multiset([x] + s) == multiset(s) + multiset{x}
  {
    HeadBelowTail([x] + s);
    assert ([x] + s)[1..] == s;
  }

  lemma InsertBehind(s: seq<real>, x: real, tail: seq<real>)
    requires Sorted(s) && s != [] && s[0] < x
    requires Sorted(tail) && multiset(tail) == multiset(s[1..]) + multiset{x}
    ensures Sorted([s[0]] + tail) && multiset([s[0]] + tail) == multiset(s) + multiset{x}
  {
    HeadBelowTail(s);
    assert s == [s[0]] + s[1..];
    PrependLeast(s[0], tail);
  }

  /** Puts `x` into a sorted list, in front of the first value not smaller than it. */
  function Insert(x: real, s: seq<real>): (r: seq<real>)
    requires Sorted(s)
    ensures Sorted(r) && multiset(r) == multiset(s) + multiset{x}
  {
    if s == [] || x <= s[0] then
      InsertFront(x, s);
      [x] + s
    else
      var tail := Insert(x, s[1..]);
      InsertBehind(s, x, tail);
      [s[0]] + tail
  }

  /** The ascending arrangement of a list of values: what `list.sort` leaves behind. */
  function SortedSeq(s: seq<real>): (r: seq<real>)
    ensures Sorted(r) && multiset(r) == multiset(s) && |r| == |s|
  {
    if s == [] then []
    else
      assert s == [s[0]] + s[1..];
      var r := Insert(s[0], SortedSeq(s[1..]));
      assert |r| == |multiset(r)| == |multiset(s)| == |s|;
      r
  }

  /** The head of a sorted list is at most every value in it. */
  lemma HeadIsLeast(s: seq<real>, x: real)
    requires Sorted(s) && x in multiset(s)
    ensures s[0] <= x
  {
    var k :| 0 <= k < |s| && s[k] == x;
  }

  lemma SortedTail(s: seq<real>)
    requires Sorted(s) && |s| > 0
    ensures Sorted(s[1..])
  {
  }

  lemma MultisetTail(s: seq<real>)
    requires |s| > 0
    ensures multiset(s[1..]) == multiset(s) - multiset{s[0]}
  {
    assert s == [s[0]] + s[1..];
  }

  /** Two sorted arrangements of one multiset start alike and continue with arrangements of one multiset. */
  lemma SortedHeads(a: seq<real>, b: seq<real>)
    requires Sorted(a) && Sorted(b) && multiset(a) == multiset(b) && a != []
    ensures b != [] && a[0] == b[0]
    ensures Sorted(a[1..]) && Sorted(b[1..]) && multiset(a[1..]) == multiset(b[1..])
  {
    assert |b| == |multiset(b)| == |multiset(a)| == |a|;
    HeadIsLeast(b, a[0]);
    HeadIsLeast(a, b[0]);
    MultisetTail(a);
    MultisetTail(b);
    SortedTail(a);
    SortedTail(b);
  }

  /** There is only one ascending arrangement of a multiset of values. */
  lemma {:induction false} SortedUnique(a: seq<real>, b: seq<real>)
    requires Sorted(a) && Sorted(b) && multiset(a) == multiset(b)
    ensures a == b
  {
    if a == [] {
      assert |b| == |multiset(b)| == 0;
    } else {
      SortedHeads(a, b);
      SortedUnique(a[1..], b[1..]);
      assert a == [a[0]] + a[1..];
      assert b == [b[0]] + b[1..];
    }
  }

  /** The prefix `s[..i + 1]` is ascending except at position `j`, the value being moved left. */
  predicate SortedExcept(s: seq<real>, i: int, j: int) {
    forall m, n :: 0 <= m < n <= i && n < |s| && n != j ==> s[m] <= s[n]
  }

  /** Swapping the moving value with a larger left neighbour moves the gap one step left and keeps the values. */
  lemma SwapStep(b: seq<real>, i: int, j: int)
    requires 0 < j <= i < |b| && SortedExcept(b, i, j) && b[j - 1] > b[j]
    ensures SortedExcept(b[j - 1 := b[j]][j := b[j - 1]], i, j - 1)
    ensures multiset(b[j - 1 := b[j]][j := b[j - 1]]) == multiset(b)
  {
    var c := b[j - 1 := b[j]][j := b[j - 1]];
    forall m, n | 0 <= m < n <= i && n != j - 1 ensures c[m] <= c[n] {
      if n == j {
        assert b[m] <= b[n - 1] || m == n - 1;
      }
    }
  }

  /** Once the moving value meets a left neighbour that is not larger, or the front, the prefix is sorted. */
  lemma InsertDone(b: seq<real>, i: int, j: int)
    requires 0 <= j <= i < |b| && SortedExcept(b, i, j) && (j == 0 || b[j - 1] <= b[j])
    ensures Sorted(b[..i + 1])
  {
    forall m, n | 0 <= m < n <= i ensures b[m] <= b[n] {
      if n == j && m < j - 1 {
        assert b[m] <= b[j - 1];
      }
    }
  }

  /** Moves `a[i]` left past every larger value, extending the sorted prefix `a[..i]` by one. */
  method InsertLast(a: array<real>, i: int)
    requires 0 <= i < a.Length && Sorted(a[..i])
    modifies a
    ensures Sorted(a[..i + 1])
    ensures multiset(a[..]) == old(multiset(a[..]))
    ensures a[i + 1..] == old(a[i + 1..])
  {
    assert SortedExcept(a[..], i, i) by {
      forall m, n | 0 <= m < n < i ensures a[..][m] <= a[..][n] {
        assert a[..][m] == a[..i][m] && a[..][n] == a[..i][n];
      }
    }
    var j := i;
    while j > 0 && a[j - 1] > a[j]
      invariant 0 <= j <= i
      invariant SortedExcept(a[..], i, j)
      invariant multiset(a[..]) == old(multiset(a[..]))
      invariant a[i + 1..] == old(a[i + 1..])
    {
      ghost var b := a[..];
      a[j - 1], a[j] := a[j], a[j - 1];
      assert a[..] == b[j - 1 := b[j]][j := b[j - 1]];
      SwapStep(b, i, j);
      j := j - 1;
    }
    InsertDone(a[..], i, j);
    assert a[..i + 1] == a[..][..i + 1];
  }

  /** `list.sort` on an array: insertion sort by adjacent swaps. */
  method SortInPlace(a: array<real>)
    modifies a
    ensures Sorted(a[..]) && multiset(a[..]) == old(multiset(a[..]))
  {
    var i := 0;
    while i < a.Length
      invariant 0 <= i <= a.Length
      invariant Sorted(a[..i])
      invariant multiset(a[..]) == old(multiset(a[..]))
    {
      InsertLast(a, i);
      i := i + 1;
    }
    assert a[..i] == a[..];
  }

  /** k * 100 where k = (n - 1) * (p / 100) is the fractional rank. */
  function ScaledRank(n: nat, p: nat): nat
    requires n > 0
  {
    (n - 1) * p
  }

  /** The fractional rank grows with p. */
  lemma RankScaleMonotone(n: nat, p: nat, q: nat)
    requires n > 0 && p <= q
    ensures ScaledRank(n, p) <= ScaledRank(n, q)
  {
    assert (n - 1) * q - (n - 1) * p == (n - 1) * (q - p);
  }

  /** f = int(k), which for 0 <= p <= 100 is the floor of k and an index of the list. */
  function Rank(n: nat, p: int): (f: nat)
    requires n > 0 && 0 <= p <= 100
    ensures f < n
  {
    RankScaleMonotone(n, p, 100);
    ScaledRank(n, p) / 100
  }

  /** c = k - f, in hundredths. */
  function Fraction(n: nat, p: int): (w: nat)
    requires n > 0 && 0 <= p <= 100
    ensures w < 100
  {
    ScaledRank(n, p) % 100
  }

  /** `lo + c * (hi - lo)` with c = w / 100: the point w hundredths of the way from `lo` to `hi`. */
  function Lerp(lo: real, hi: real, w: nat): real {
    lo + Part(hi - lo, w)
  }

  /** w hundredths of the distance d. */
  function Part(d: real, w: nat): real {
    (w as real) * d / 100.0
  }

  /** The interpolation step of `calculate_percentile`, on an already sorted list. */
  function Interpolate(s: seq<real>, p: int): real
    requires |s| > 0 && 0 <= p <= 100
  {
    var f := Rank(|s|, p);
    if f + 1 < |s| then Lerp(s[f], s[f + 1], Fraction(|s|, p)) else s[f]
  }

  /** `calculate_percentile(data, p)` as a value: None for no data, whatever p is. */
  function Percentile(s: seq<real>, p: int): (r: Option<real>)
    requires s == [] || 0 <= p <= 100
    ensures r.None? <==> s == []
  {
    if s == [] then None else Some(Interpolate(SortedSeq(s), p))
  }

  /**
   * `calculate_percentile`: returns None for an empty list, leaving it alone; otherwise
   * leaves the caller's list sorted (a permutation of what it held) and interpolates.
   */
  method CalculatePercentile(data: array<real>, p: int) returns (r: Option<real>)
    requires data.Length == 0 || 0 <= p <= 100
    modifies data
    ensures Sorted(data[..]) && multiset(data[..]) == old(multiset(data[..]))
    ensures data[..] == SortedSeq(old(data[..]))
    ensures r == Percentile(old(data[..]), p)
  {
    if data.Length == 0 {
      return None;
    }
    SortInPlace(data);
    SortedUnique(data[..], SortedSeq(old(data[..])));
    r := Some(Interpolate(data[..], p));
  }

  /** A list that is already sorted is left as it is. */
  lemma SortedSeqOfSorted(s: seq<real>)
    requires Sorted(s)
    ensures SortedSeq(s) == s
  {
    SortedUnique(SortedSeq(s), s);
  }

  /** The last value of a sorted list is at least every value in it. */
  lemma LastIsGreatest(s: seq<real>, x: real)
    requires Sorted(s) && x in multiset(s)
    ensures x <= s[|s| - 1]
  {
    var k :| 0 <= k < |s| && s[k] == x;
  }

  /** A sorted arrangement starts at the minimum and ends at the maximum. */
  lemma SortedEnds(t: seq<real>, s: seq<real>)
    requires Sorted(t) && multiset(t) == multiset(s) && |s| > 0
    ensures |t| == |s| && t[0] == Min(s) && t[|t| - 1] == Max(s)
  {
    assert |t| == |multiset(t)| == |multiset(s)| == |s|;
    var lo, hi := Min(s), Max(s);
    assert lo in multiset(t) && hi in multiset(t);
    HeadIsLeast(t, lo);
    LastIsGreatest(t, hi);
    assert t[0] in multiset(s) && t[|t| - 1] in multiset(s);
    assert t[0] in s && t[|t| - 1] in s;
    assert lo <= t[0] && t[|t| - 1] <= hi;
  }

  lemma RankAtEnds(n: nat)
    requires n > 0
    ensures Rank(n, 0) == 0 && Fraction(n, 0) == 0
    ensures Rank(n, 100) == n - 1 && Fraction(n, 100) == 0
  {
  }

  /** w hundredths of a non-negative distance lie between none of it and all of it. */
  lemma PartOf(d: real, w: nat)
    requires 0.0 <= d && w <= 100
    ensures 0.0 <= Part(d, w) <= d
  {
    var x := (w as real) * d;
    assert 0.0 <= x by { ScaleMonotone(d, 0.0, w as real); }
    assert x <= 100.0 * d by { ScaleMonotone(d, w as real, 100.0); }
  }

  lemma LerpBounds(lo: real, hi: real, w: nat)
    requires lo <= hi && w <= 100
    ensures lo <= Lerp(lo, hi, w) <= hi
  {
    PartOf(hi - lo, w);
  }

  /** A larger share of a non-negative distance is no smaller. */
  lemma PartMonotone(d: real, w1: nat, w2: nat)
    requires 0.0 <= d && w1 <= w2
    ensures Part(d, w1) <= Part(d, w2)
  {
    ScaleMonotone(d, w1 as real, w2 as real);
  }

  lemma LerpMonotone(lo: real, hi: real, w1: nat, w2: nat)
    requires lo <= hi && w1 <= w2
    ensures Lerp(lo, hi, w1) <= Lerp(lo, hi, w2)
  {
    PartMonotone(hi - lo, w1, w2);
  }

  lemma LerpSpecial(lo: real, hi: real)
    ensures Lerp(lo, hi, 0) == lo
    ensures Lerp(lo, hi, 50) == (lo + hi) / 2.0
  {
  }

  /** With no fractional part the result is the value at rank f. */
  lemma InterpolateWhole(s: seq<real>, p: int)
    requires |s| > 0 && 0 <= p <= 100 && Fraction(|s|, p) == 0
    ensures Interpolate(s, p) == s[Rank(|s|, p)]
  {
    var f := Rank(|s|, p);
    if f + 1 < |s| {
      LerpSpecial(s[f], s[f + 1]);
    }
  }

  /** With a fractional part of one half the result is the mean of the values at ranks f and f + 1. */
  lemma InterpolateHalf(s: seq<real>, p: int)
    requires |s| > 0 && 0 <= p <= 100 && Fraction(|s|, p) == 50 && Rank(|s|, p) + 1 < |s|
    ensures Interpolate(s, p) == (s[Rank(|s|, p)] + s[Rank(|s|, p) + 1]) / 2.0
  {
    var f := Rank(|s|, p);
    LerpSpecial(s[f], s[f + 1]);
  }

  /** p = 0 gives the smallest value. */
  lemma PercentileAtZero(s: seq<real>)
    requires s != []
    ensures Percentile(s, 0) == Some(Min(s))
  {
    SortedEnds(SortedSeq(s), s);
    RankAtEnds(|s|);
    InterpolateWhole(SortedSeq(s), 0);
  }

  /** p = 100 gives the largest value. */
  lemma PercentileAtHundred(s: seq<real>)
    requires s != []
    ensures Percentile(s, 100) == Some(Max(s))
  {
    SortedEnds(SortedSeq(s), s);
    RankAtEnds(|s|);
    InterpolateWhole(SortedSeq(s), 100);
  }

  /** A single value is every percentile of itself. */
  lemma PercentileOfSingleton(x: real, p: int)
    requires 0 <= p <= 100
    ensures Percentile([x], p) == Some(x)
  {
    SortedSeqOfSorted([x]);
  }

  /** The rank of the upper neighbour: f + 1 if there is one, f itself otherwise. */
  function Upper(n: nat, p: int): (u: nat)
    requires n > 0 && 0 <= p <= 100
    ensures Rank(n, p) <= u < n
  {
    if Rank(n, p) + 1 < n then Rank(n, p) + 1 else Rank(n, p)
  }

  /** On a sorted list the result lies between the values at ranks f and f + 1. */
  lemma InterpolateBracket(s: seq<real>, p: int)
    requires Sorted(s) && |s| > 0 && 0 <= p <= 100
    ensures s[Rank(|s|, p)] <= Interpolate(s, p) <= s[Upper(|s|, p)]
  {
    var f := Rank(|s|, p);
    if f + 1 < |s| {
      LerpBounds(s[f], s[f + 1], Fraction(|s|, p));
    }
  }

  /** Every percentile lies between the minimum and the maximum. */
  lemma PercentileWithinRange(s: seq<real>, p: int)
    requires s != [] && 0 <= p <= 100
    ensures Min(s) <= Percentile(s, p).value <= Max(s)
  {
    var t := SortedSeq(s);
    PercentileOfArrangement(s, t, p);
    InterpolateWithinRange(t, s, p);
  }

  lemma InterpolateWithinRange(t: seq<real>, s: seq<real>, p: int)
    requires Sorted(t) && multiset(t) == multiset(s) && |s| > 0 && 0 <= p <= 100
    ensures Min(s) <= Interpolate(t, p) <= Max(s)
  {
    SortedEnds(t, s);
    InterpolateBracket(t, p);
    BetweenEnds(t, Rank(|t|, p), Upper(|t|, p), Interpolate(t, p));
  }

  /** A value between two entries of a sorted list lies between its first and its last entry. */
  lemma BetweenEnds(t: seq<real>, f: nat, u: nat, v: real)
    requires Sorted(t) && f <= u < |t| && t[f] <= v <= t[u]
    ensures t[0] <= v <= t[|t| - 1]
  {
    assert t[0] <= t[f] && t[u] <= t[|t| - 1];
  }

  lemma DivMonotone(k1: nat, k2: nat)
    requires k1 <= k2
    ensures k1 / 100 <= k2 / 100
    ensures k1 / 100 == k2 / 100 ==> k1 % 100 <= k2 % 100
  {
  }

  lemma RankMonotone(n: nat, p: int, q: int)
    requires n > 0 && 0 <= p <= q <= 100
    ensures Rank(n, p) <= Rank(n, q)
    ensures Rank(n, p) == Rank(n, q) ==> Fraction(n, p) <= Fraction(n, q)
  {
    RankScaleMonotone(n, p, q);
    DivMonotone(ScaledRank(n, p), ScaledRank(n, q));
  }

  /** On a sorted list the interpolated value never decreases as p grows. */
  lemma InterpolateMonotone(s: seq<real>, p: int, q: int)
    requires Sorted(s) && |s| > 0 && 0 <= p <= q <= 100
    ensures Interpolate(s, p) <= Interpolate(s, q)
  {
    var n := |s|;
    RankMonotone(n, p, q);
    var f1, f2 := Rank(n, p), Rank(n, q);
    if f1 == f2 {
      if f1 + 1 < n {
        LerpMonotone(s[f1], s[f1 + 1], Fraction(n, p), Fraction(n, q));
      }
    } else {
      InterpolateBracket(s, p);
      InterpolateBracket(s, q);
      assert s[f1 + 1] <= s[f2];
    }
  }

  /** For fixed data, the percentile is non-decreasing in p. */
  lemma PercentileMonotone(s: seq<real>, p: int, q: int)
    requires s != [] && 0 <= p <= q <= 100
    ensures Percentile(s, p).value <= Percentile(s, q).value
  {
    InterpolateMonotone(SortedSeq(s), p, q);
  }

  /** The percentile depends only on the multiset of values, not on their order. */
  lemma PercentileDependsOnMultiset(s: seq<real>, t: seq<real>, p: int)
    requires multiset(s) == multiset(t) && (s == [] || 0 <= p <= 100)
    ensures |s| == |t| && Percentile(s, p) == Percentile(t, p)
  {
    assert |s| == |multiset(s)| == |multiset(t)| == |t|;
    SortedUnique(SortedSeq(s), SortedSeq(t));
  }

  lemma MedianRank(n: nat)
    requires n > 0
    ensures n % 2 == 1 ==> Rank(n, 50) == n / 2 && Fraction(n, 50) == 0
    ensures n % 2 == 0 ==> Rank(n, 50) == n / 2 - 1 && Fraction(n, 50) == 50
  {
  }

  /** At p = 50 the interpolation picks the middle value, or the mean of the two middle ones. */
  lemma InterpolateMedian(t: seq<real>)
    requires t != []
    ensures Interpolate(t, 50) == if |t| % 2 == 1 then t[|t| / 2] else (t[|t| / 2 - 1] + t[|t| / 2]) / 2.0
  {
    var n := |t|;
    MedianRank(n);
    if n % 2 == 1 {
      InterpolateWhole(t, 50);
    } else {
      InterpolateHalf(t, 50);
    }
  }

  /** The percentile can be read off any ascending arrangement of the values. */
  lemma PercentileOfArrangement(s: seq<real>, t: seq<real>, p: int)
    requires Sorted(t) && multiset(t) == multiset(s) && s != [] && 0 <= p <= 100
    ensures |t| == |s| && Percentile(s, p) == Some(Interpolate(t, p))
  {
    SortedUnique(t, SortedSeq(s));
  }

  /**
   * The median under linear interpolation: the middle value of the ascending arrangement, or the
   * mean of the two middle ones.
   */
  lemma PercentileMedian(s: seq<real>, t: seq<real>)
    requires Sorted(t) && multiset(t) == multiset(s) && s != []
    ensures |t| == |s|
    ensures |s| % 2 == 1 ==> Percentile(s, 50).value == t[|s| / 2]
    ensures |s| % 2 == 0 ==> Percentile(s, 50).value == (t[|s| / 2 - 1] + t[|s| / 2]) / 2.0
  {
    PercentileOfArrangement(s, t, 50);
    InterpolateMedian(t);
  }

  /** A list in which each value is at most the next one is sorted. */
  lemma {:induction false} AdjacentSorted(s: seq<real>)
    requires forall k :: 0 <= k < |s| - 1 ==> s[k] <= s[k + 1]
    ensures Sorted(s)
  {
    if |s| > 1 {
      var t := s[1..];
      AdjacentSorted(t);
      forall k | 0 <= k < |t| ensures s[0] <= t[k] {
        assert s[0] <= s[1] == t[0];
      }
    }
  }

  lemma InterpolateDeciles(s: seq<real>)
    requires s == [10.0, 20.0, 30.0, 40.0, 50.0, 60.0, 70.0, 80.0, 90.0, 100.0]
    ensures Interpolate(s, 10) == 19.0 && Interpolate(s, 50) == 55.0 && Interpolate(s, 90) == 91.0
  {
    assert Interpolate(s, 10) == Lerp(10.0, 20.0, 90);
    assert Interpolate(s, 50) == Lerp(50.0, 60.0, 50);
    assert Interpolate(s, 90) == Lerp(90.0, 100.0, 10);
  }

  lemma DecilesSorted(s: seq<real>)
    requires s == [10.0, 20.0, 30.0, 40.0, 50.0, 60.0, 70.0, 80.0, 90.0, 100.0]
    ensures Sorted(s)
  {
    AdjacentSorted(s);
  }

  /** Ten latencies 10, 20, ..., 100: p10 = 19, p50 = 55, p90 = 91. */
  lemma PercentileDeciles(s: seq<real>)
    requires s == [10.0, 20.0, 30.0, 40.0, 50.0, 60.0, 70.0, 80.0, 90.0, 100.0]
    ensures Percentile(s, 10) == Some(19.0) && Percentile(s, 50) == Some(55.0) && Percentile(s, 90) == Some(91.0)
  {
    DecilesSorted(s);
    PercentileOfArrangement(s, s, 10);
    PercentileOfArrangement(s, s, 50);
    PercentileOfArrangement(s, s, 90);
    InterpolateDeciles(s);
  }
}
