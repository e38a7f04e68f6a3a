/**
 * Exact arithmetic behind the latency figures of suinfra_cli/commands/rpc.py:
 * `statistics.mean`, `statistics.stdev` and `math.ceil` over latencies in seconds.
 */
module Stats {

  function Sum(s: seq<real>): real {
    if s == [] then 0.0 else s[0] + Sum(s[1..])
  }

  function Min(s: seq<real>): (m: real)
    requires |s| > 0
    ensures m in s && forall x :: x in s ==> m <= x
  {
    if |s| == 1 then s[0]
    else
      var rest := Min(s[1..]);
      assert forall x :: x in s ==> x == s[0] || x in s[1..];
      if s[0] <= rest then s[0] else rest
  }

  function Max(s: seq<real>): (m: real)
    requires |s| > 0
    ensures m in s && forall x :: x in s ==> x <= m
  {
    if |s| == 1 then s[0]
    else
      var rest := Max(s[1..]);
      assert forall x :: x in s ==> x == s[0] || x in s[1..];
      if s[0] >= rest then s[0] else rest
  }

  lemma {:induction false} SumConcat(a: seq<real>, b: seq<real>)
    ensures Sum(a + b) == Sum(a) + Sum(b)
  {
    if a == [] {
      assert a + b == b;
    } else {
      assert (a + b)[1..] == a[1..] + b;
      SumConcat(a[1..], b);
    }
  }

  /** A sum of values none below `lo` is at least n times `lo`. */
  lemma {:induction false} SumAtLeast(s: seq<real>, lo: real)
    requires forall i :: 0 <= i < |s| ==> lo <= s[i]
    ensures (|s| as real) * lo <= Sum(s)
  {
    if s != [] {
      SumAtLeast(s[1..], lo);
      assert (|s| as real) * lo == (|s[1..]| as real) * lo + lo;
    }
  }

  /** A sum of values none above `hi` is at most n times `hi`. */
  lemma {:induction false} SumAtMost(s: seq<real>, hi: real)
    requires forall i :: 0 <= i < |s| ==> s[i] <= hi
    ensures Sum(s) <= (|s| as real) * hi
  {
    if s != [] {
      SumAtMost(s[1..], hi);
      assert (|s| as real) * hi == (|s[1..]| as real) * hi + hi;
    }
  }

  /** Scaling by a non-negative factor preserves order. */
  lemma ScaleMonotone(m: real, x: real, y: real)
    requires 0.0 <= m && x <= y
    ensures x * m <= y * m
  {
    assert y * m - x * m == (y - x) * m;
  }

  lemma ScaleCancel(n: real, x: real, y: real)
    requires n > 0.0 && n * x <= n * y
    ensures x <= y
  {
  }

  /** A total between n times two bounds gives an average between the bounds. */
  lemma AverageBounds(n: real, lo: real, hi: real, total: real)
    requires n > 0.0 && n * lo <= total <= n * hi
    ensures lo <= total / n <= hi
  {
    var m := total / n;
    assert n * m == total;
    ScaleCancel(n, lo, m);
    ScaleCancel(n, m, hi);
  }

  /** Taking one element out of the sum. */
  lemma SumRemove(b: seq<real>, j: nat)
    requires j < |b|
    ensures Sum(b) == b[j] + Sum(b[..j] + b[j + 1..])
  {
    var pre, x, post := b[..j], b[j], b[j + 1..];
    assert b == pre + ([x] + post);
    SumConcat(pre, [x] + post);
    assert ([x] + post)[1..] == post;
    assert Sum([x] + post) == x + Sum(post);
    SumConcat(pre, post);
  }

  lemma MultisetRemove(a: seq<real>, b: seq<real>, j: nat)
    requires a != [] && j < |b| && b[j] == a[0] && multiset(a) == multiset(b)
    ensures multiset(a[1..]) == multiset(b[..j] + b[j + 1..])
  {
    assert b == b[..j] + [b[j]] + b[j + 1..];
    assert a == [a[0]] + a[1..];
    calc {
      multiset(a[1..]);
      multiset(a) - multiset{a[0]};
      multiset(b) - multiset{b[j]};
      multiset(b[..j]) + multiset(b[j + 1..]);
      multiset(b[..j] + b[j + 1..]);
    }
  }

  /** The sum does not depend on the order of the values. */
  lemma {:induction false} SumPermutation(a: seq<real>, b: seq<real>)
    requires multiset(a) == multiset(b)
    ensures Sum(a) == Sum(b)
  {
    if a == [] {
      assert |b| == |multiset(b)| == 0;
    } else {
      assert a[0] in multiset(b);
      var j :| 0 <= j < |b| && b[j] == a[0];
      MultisetRemove(a, b, j);
      SumPermutation(a[1..], b[..j] + b[j + 1..]);
      SumRemove(b, j);
    }
  }

  /** An average of values within `[lo, hi]` lies within `[lo, hi]`. */
  lemma AverageWithin(s: seq<real>, lo: real, hi: real)
    requires |s| > 0 && forall i :: 0 <= i < |s| ==> lo <= s[i] <= hi
    ensures lo <= Sum(s) / |s| as real <= hi
  {
    SumAtLeast(s, lo);
    SumAtMost(s, hi);
    AverageBounds(|s| as real, lo, hi, Sum(s));
  }

  /** `statistics.mean`: the arithmetic mean, which lies between the extremes. */
  function Mean(s: seq<real>): (m: real)
    requires |s| > 0
    ensures Min(s) <= m <= Max(s)
  {
    var lo, hi := Min(s), Max(s);
    assert forall i :: 0 <= i < |s| ==> lo <= s[i] <= hi by {
      forall i | 0 <= i < |s| ensures lo <= s[i] <= hi {
        assert s[i] in s;
      }
    }
    AverageWithin(s, lo, hi);
    Sum(s) / |s| as real
  }

  function SquaredDeviations(s: seq<real>, mean: real): (r: real)
    ensures r >= 0.0
  {
    if s == [] then 0.0
    else
      var d := s[0] - mean;
      assert d * d >= 0.0 by {
        if d < 0.0 { assert d * d == (-d) * (-d); }
      }
      d * d + SquaredDeviations(s[1..], mean)
  }

  /** The sample variance that `statistics.stdev` takes the root of; it needs two points. */
  function Variance(s: seq<real>): (v: real)
    requires |s| >= 2
    ensures v >= 0.0
  {
    SquaredDeviations(s, Mean(s)) / (|s| - 1) as real
  }

  /** `math.ceil`: the least integer not below `x`. */
  function Ceil(x: real): (r: int)
    ensures x <= r as real < x + 1.0
  {
    if x.Floor as real == x then x.Floor else x.Floor + 1
  }

  lemma CeilMonotone(x: real, y: real)
    requires x <= y
    ensures Ceil(x) <= Ceil(y)
  {
  }

  function CeilSqrtFrom(x: real, k: nat): (r: nat)
    requires x >= 0.0
    requires k == 0 || ((k - 1) * (k - 1)) as real < x
    ensures x <= (r * r) as real
    ensures r == 0 || ((r - 1) * (r - 1)) as real < x
    decreases Ceil(x) - k
  {
    if x <= (k * k) as real then k
    else
      assert k < Ceil(x) by {
        if k >= 1 { assert k <= k * k; }
      }
      CeilSqrtFrom(x, k + 1)
  }

  /** `ceil(sqrt(x))`, found without a square root: the least natural whose square is at least `x`. */
  function CeilSqrt(x: real): (r: nat)
    requires x >= 0.0
    ensures x <= (r * r) as real
    ensures r == 0 || ((r - 1) * (r - 1)) as real < x
  {
    CeilSqrtFrom(x, 0)
  }

  /** `ceil(seconds * 1000)`: a duration in seconds as whole milliseconds, rounded up. */
  function CeilMs(seconds: real): (ms: int)
    ensures seconds * 1000.0 <= ms as real < seconds * 1000.0 + 1.0
  {
    Ceil(seconds * 1000.0)
  }

  /**
   * `ceil(statistics.stdev(s) * 1000)`. Since sqrt(v) * 1000 == sqrt(v * 10^6), this is the
   * ceiling of the square root of the variance in square milliseconds.
   */
  function StdevMs(s: seq<real>): (ms: nat)
    requires |s| >= 2
    ensures Variance(s) * 1000000.0 <= (ms * ms) as real
    ensures ms == 0 || ((ms - 1) * (ms - 1)) as real < Variance(s) * 1000000.0
  {
    CeilSqrt(Variance(s) * 1000000.0)
  }
}
