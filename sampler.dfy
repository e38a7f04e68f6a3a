/**
 * The per-endpoint sampler `_ping_rpc_node` of suinfra_cli/commands/rpc.py: every `ping_once`
 * probe answered with status 200 appends its latency to `ping_latencies` (the priming probe
 * included), and a non-empty sample is summarised into an `RpcPingResult` in milliseconds.
 * The HTTP exchange and the clock are outside the model: each probe is given as its outcome.
 */
module Sampler {
  import opened Wrappers
  import opened Models
  import opened Stats
  import opened Percentiles

  /**
   * What one `ping_once` call observed: an HTTP status with the clock read before the request
   * and after the reply, or an exception (caught and printed, so it only adds nothing).
   */
  datatype Probe = Answered(status: int, started: real, finished: real) | Raised

  /** `statistics.stdev` refuses a sample of one value; nothing in `ping` catches it. */
  datatype SampleError = StatisticsError

  /** A probe appends a latency exactly when it was answered with status 200. */
  predicate Counts(p: Probe) {
    p.Answered? && p.status == 200
  }

  function Latency(p: Probe): real
    requires p.Answered?
  {
    p.finished - p.started
  }

  /** The latencies the probes append, in the order the probes complete. */
  function Latencies(probes: seq<Probe>): (r: seq<real>)
    ensures |r| <= |probes|
    ensures forall i :: 0 <= i < |probes| && Counts(probes[i]) ==> Latency(probes[i]) in r
    ensures forall x :: x in r ==> exists i :: 0 <= i < |probes| && Counts(probes[i]) && Latency(probes[i]) == x
  {
    if probes == [] then []
    else
      var init := probes[..|probes| - 1];
      var last := probes[|probes| - 1];
      var r := Latencies(init) + (if Counts(last) then [Latency(last)] else []);
      assert forall i :: 0 <= i < |init| ==> probes[i] == init[i];
      r
  }

  /** The positions of the probes answered with status 200, in increasing order. */
  function AnsweredAt(probes: seq<Probe>): (r: seq<nat>)
    ensures forall k :: 0 <= k < |r| ==> r[k] < |probes| && Counts(probes[r[k]])
    ensures forall k, l :: 0 <= k < l < |r| ==> r[k] < r[l]
    ensures forall i :: 0 <= i < |probes| && Counts(probes[i]) ==> i in r
  {
    if probes == [] then []
    else
      var n := |probes| - 1;
      var init := probes[..n];
      assert forall i :: 0 <= i < n ==> probes[i] == init[i];
      AnsweredAt(init) + (if Counts(probes[n]) then [n] else [])
  }

  /** One latency per answered position, read off `probes`. */
  predicate InOrder(probes: seq<Probe>, l: seq<real>, at: seq<nat>) {
    && |l| == |at|
    && forall k :: 0 <= k < |at| ==> at[k] < |probes| && Counts(probes[at[k]]) && l[k] == Latency(probes[at[k]])
  }

  /** Extending the probes by one keeps the pairing, with the last probe's latency appended if it counts. */
  lemma InOrderSnoc(probes: seq<Probe>, l: seq<real>, at: seq<nat>)
    requires probes != [] && InOrder(probes[..|probes| - 1], l, at)
    ensures var n := |probes| - 1;
            InOrder(probes, l + (if Counts(probes[n]) then [Latency(probes[n])] else []),
                    at + (if Counts(probes[n]) then [n] else []))
  {
    var n := |probes| - 1;
    forall k | 0 <= k < |at| ensures probes[at[k]] == probes[..n][at[k]] {
    }
  }

  /**
   * The latency list holds one latency per answered probe, in probe order: a probe answered
   * twice with the same latency contributes it twice.
   */
  lemma {:induction false} LatenciesInOrder(probes: seq<Probe>)
    ensures |Latencies(probes)| == |AnsweredAt(probes)|
    ensures forall k :: 0 <= k < |AnsweredAt(probes)| ==>
              Latencies(probes)[k] == Latency(probes[AnsweredAt(probes)[k]])
  {
    LatenciesPaired(probes);
  }

  lemma {:induction false} LatenciesPaired(probes: seq<Probe>)
    ensures InOrder(probes, Latencies(probes), AnsweredAt(probes))
  {
    if probes != [] {
      var init := probes[..|probes| - 1];
      LatenciesPaired(init);
      InOrderSnoc(probes, Latencies(init), AnsweredAt(init));
    }
  }

  /** No latency is collected exactly when no probe was answered with status 200. */
  lemma {:induction false} NoLatencies(probes: seq<Probe>)
    ensures Latencies(probes) == [] <==> forall i :: 0 <= i < |probes| ==> !Counts(probes[i])
  {
    if exists i :: 0 <= i < |probes| && Counts(probes[i]) {
      var i :| 0 <= i < |probes| && Counts(probes[i]);
      assert Latency(probes[i]) in Latencies(probes);
    }
    if Latencies(probes) != [] {
      assert Latencies(probes)[0] in Latencies(probes);
    }
  }

  /**
   * The `ping_latencies.append` accumulator over the priming probe and then the batch; the
   * nursery waits for all `iterations` probes it starts, so the batch has that many.
   */
  method CollectLatencies(iterations: nat, priming: Probe, batch: seq<Probe>) returns (latencies: seq<real>)
    requires |batch| == iterations
    ensures latencies == Latencies([priming] + batch)
    ensures |latencies| <= iterations + 1
  {
    var probes := [priming] + batch;
    latencies := [];
    var i := 0;
    while i < |probes|
      invariant 0 <= i <= |probes|
      invariant latencies == Latencies(probes[..i])
    {
      assert probes[..i + 1][..i] == probes[..i];
      if Counts(probes[i]) {
        latencies := latencies + [Latency(probes[i])];
      }
      i := i + 1;
    }
    assert probes[..i] == probes;
  }

  /**
   * The result built from the collected latencies (seconds): none without latencies, the
   * `statistics.stdev` failure with one, otherwise the ceilings in milliseconds of the mean,
   * of the 10th, 50th and 90th percentiles and of the standard deviation. The standard
   * deviation is taken last, of the list the percentile calls have sorted by then.
   */
  function Summarize(endpoint: RpcEndpoint, region: string, l: seq<real>): (r: Result<Option<RpcPingResult>, SampleError>)
    ensures r == Ok(None) <==> l == []
    ensures r == Err(StatisticsError) <==> |l| == 1
    ensures r.Ok? && r.value.Some? ==>
              && r.value.value.rpcName == endpoint.name
              && r.value.value.rpcUrl == endpoint.rpcUrl
              && r.value.value.fromRegion == region
  {
    if l == [] then Ok(None)
    else if |l| == 1 then Err(StatisticsError)
    else
      Ok(Some(RpcPingResult(
        endpoint.name,
        endpoint.rpcUrl,
        CeilMs(Mean(l)),
        CeilMs(Percentile(l, 10).value),
        CeilMs(Percentile(l, 50).value),
        CeilMs(Percentile(l, 90).value),
        StdevMs(SortedSeq(l)),
        region)))
  }

  /**
   * Every figure lies between the fastest and the slowest latency, and the percentiles are
   * ordered: p10 <= p50 <= p90.
   */
  lemma SummaryBounds(endpoint: RpcEndpoint, region: string, l: seq<real>)
    requires |l| >= 2
    ensures var x := Summarize(endpoint, region, l).value.value;
            && CeilMs(Min(l)) <= x.avgLatency <= CeilMs(Max(l))
            && CeilMs(Min(l)) <= x.p10Latency <= x.p50Latency <= x.p90Latency <= CeilMs(Max(l))
  {
    CeilMonotone(Min(l) * 1000.0, Mean(l) * 1000.0);
    CeilMonotone(Mean(l) * 1000.0, Max(l) * 1000.0);
    PercentileWithinRange(l, 10);
    PercentileWithinRange(l, 90);
    PercentileMonotone(l, 10, 50);
    PercentileMonotone(l, 50, 90);
    var p10, p50, p90 := Percentile(l, 10).value, Percentile(l, 50).value, Percentile(l, 90).value;
    CeilMonotone(Min(l) * 1000.0, p10 * 1000.0);
    CeilMonotone(p10 * 1000.0, p50 * 1000.0);
    CeilMonotone(p50 * 1000.0, p90 * 1000.0);
    CeilMonotone(p90 * 1000.0, Max(l) * 1000.0);
  }

  lemma MeanOfArrangement(a: seq<real>, b: seq<real>)
    requires multiset(a) == multiset(b) && |a| > 0
    ensures |a| == |b| && Mean(a) == Mean(b)
  {
    assert |a| == |multiset(a)| == |multiset(b)| == |b|;
    SumPermutation(a, b);
  }

  /** The summary depends only on which latencies were collected, not on the order probes completed in. */
  lemma SummarizeOrderFree(endpoint: RpcEndpoint, region: string, a: seq<real>, b: seq<real>)
    requires multiset(a) == multiset(b)
    ensures Summarize(endpoint, region, a) == Summarize(endpoint, region, b)
  {
    assert |a| == |multiset(a)| == |multiset(b)| == |b|;
    if |a| >= 2 {
      MeanOfArrangement(a, b);
      PercentileDependsOnMultiset(a, b, 10);
      PercentileDependsOnMultiset(a, b, 50);
      PercentileDependsOnMultiset(a, b, 90);
      SortedUnique(SortedSeq(a), SortedSeq(b));
    }
  }

  /**
   * `_ping_rpc_node` for one endpoint: the priming probe, then the batch of `iterations` probes
   * in the order they complete. The latency list is sorted in place by the first percentile call.
   */
  method PingRpcNode(endpoint: RpcEndpoint, region: string, iterations: nat, priming: Probe, batch: seq<Probe>)
    returns (r: Result<Option<RpcPingResult>, SampleError>)
    requires |batch| == iterations
    ensures r == Summarize(endpoint, region, Latencies([priming] + batch))
  {
    var latencies := CollectLatencies(iterations, priming, batch);
    if |latencies| == 0 {
      return Ok(None);
    }
    var avg := CeilMs(Mean(latencies));
    var data := new real[|latencies|](i requires 0 <= i < |latencies| => latencies[i]);
    assert data[..] == latencies;
    var p10 := CalculatePercentile(data, 10);
    var p50 := CalculatePercentile(data, 50);
    var p90 := CalculatePercentile(data, 90);
    SortedSeqOfSorted(SortedSeq(latencies));
    PercentileDependsOnMultiset(SortedSeq(latencies), latencies, 50);
    PercentileDependsOnMultiset(SortedSeq(latencies), latencies, 90);
    if data.Length < 2 {
      return Err(StatisticsError);
    }
    var sd := StdevMs(data[..]);
    r := Ok(Some(RpcPingResult(
      endpoint.name, endpoint.rpcUrl, avg, CeilMs(p10.value), CeilMs(p50.value), CeilMs(p90.value), sd, region)));
  }

  lemma SquareMonotone(a: nat, b: nat)
    requires a <= b
    ensures a * a <= b * b
  {
    assert a * a <= a * b <= b * b;
  }

  /** The ceiling of a square root is the one natural whose square reaches `x` while its predecessor's does not. */
  lemma CeilSqrtUnique(x: real, r: nat)
    requires x >= 0.0 && x <= (r * r) as real && (r == 0 || ((r - 1) * (r - 1)) as real < x)
    ensures CeilSqrt(x) == r
  {
    var c := CeilSqrt(x);
    if c < r {
      SquareMonotone(c, r - 1);
    } else if c > r {
      SquareMonotone(r, c - 1);
    }
  }

  lemma TwoPointMoments(l: seq<real>)
    requires l == [0.1, 0.2]
    ensures Mean(l) == 0.15 && Variance(l) * 1000000.0 == 5000.0
  {
    assert l[1..] == [0.2] && l[1..][1..] == [];
    assert Sum(l[1..][1..]) == 0.0 && SquaredDeviations(l[1..][1..], 0.15) == 0.0;
    assert Sum(l[1..]) == 0.2 && SquaredDeviations(l[1..], 0.15) == 0.0025;
    assert Sum(l) == 0.3 && SquaredDeviations(l, 0.15) == 0.005;
  }

  lemma TwoPointStdev(l: seq<real>)
    requires l == [0.1, 0.2]
    ensures StdevMs(l) == 71
  {
    TwoPointMoments(l);
    assert 70 * 70 == 4900 && 71 * 71 == 5041;
    CeilSqrtUnique(5000.0, 71);
  }

  lemma TwoPointInterpolation(l: seq<real>)
    requires l == [0.1, 0.2]
    ensures Interpolate(l, 10) == 0.11 && Interpolate(l, 50) == 0.15 && Interpolate(l, 90) == 0.19
  {
    assert Interpolate(l, 10) == Lerp(0.1, 0.2, 10);
    assert Interpolate(l, 50) == Lerp(0.1, 0.2, 50);
    assert Interpolate(l, 90) == Lerp(0.1, 0.2, 90);
  }

  /** Two answered probes of 100 ms and 200 ms: avg 150, p10 110, p50 150, p90 190, stdev 71 (ms). */
  lemma TwoProbes(endpoint: RpcEndpoint, region: string, l: seq<real>)
    requires l == [0.1, 0.2]
    ensures Summarize(endpoint, region, l)
            == Ok(Some(RpcPingResult(endpoint.name, endpoint.rpcUrl, 150, 110, 150, 190, 71, region)))
  {
    assert Sorted(l);
    SortedSeqOfSorted(l);
    TwoPointMoments(l);
    PercentileOfArrangement(l, l, 10);
    PercentileOfArrangement(l, l, 50);
    PercentileOfArrangement(l, l, 90);
    TwoPointInterpolation(l);
    TwoPointStdev(l);
  }
}
