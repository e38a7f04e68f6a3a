/**
 * The `ping` command of suinfra_cli/commands/rpc.py once the network, the clock and the
 * concurrency are taken as given: the argument guards, the conversion of the fetched endpoint
 * list, the `results.append` accumulator fed by the samplers that finish before the deadline,
 * the stable sort by average latency, and the optional write of one test and its result
 * records to the database.
 */
module PingCommand {
  import opened Wrappers
  import opened Models
  import opened Sorting
  import opened Sampler
  import opened Store

  /** The options that decide what `ping` does; `sleep` and `timeout` only shape the timing, which is an input here. */
  datatype Options = Options(iterations: int, testId: Option<string>, writeToDb: bool)

  /** The ways a run ends early: a `typer.Exit` with its message, or an exception that escapes. */
  datatype Failure =
    | Exit(message: string)
    | InvalidEndpoints            // the fetched document does not convert to a list of endpoints
    | Statistics(error: SampleError)
    | TypeError                   // `uuid.UUID(None)`
    | ValueError                  // `uuid.UUID` of a string that is not a UUID

  const IterationsMessage: string := "Iterations must be greater than or equal to 2."
  const DbUrlMessage: string := "DB_URL env var was not found."
  const TestNotFoundMessage: string := "Test ID not found."

  /**
   * One sampler that ran to completion before the deadline: the position of its endpoint in the
   * fetched list, its priming probe and its batch of probes in the order they completed.
   */
  datatype Run = Run(index: nat, priming: Probe, batch: seq<Probe>)

  /** The checks `ping` makes before any work: at least two iterations, and a database URL when writing. */
  function Guard(options: Options, dbUrl: Option<string>): (r: Option<Failure>)
    ensures r == Some(Exit(IterationsMessage)) <==> options.iterations < 2
    ensures r == Some(Exit(DbUrlMessage)) <==>
              options.iterations >= 2 && options.writeToDb && (dbUrl == None || dbUrl == Some(""))
    ensures r == None <==>
              options.iterations >= 2 && !(options.writeToDb && (dbUrl == None || dbUrl == Some("")))
  {
    if options.iterations < 2 then Some(Exit(IterationsMessage))
    else if options.writeToDb && (dbUrl.None? || dbUrl.value == "") then Some(Exit(DbUrlMessage))
    else None
  }

  /** Every sampler that finished belongs to one of the fetched endpoints. */
  predicate Launched(doc: Json, runs: seq<Run>) {
    FetchedEndpoints(doc).Some? ==>
      forall i :: 0 <= i < |runs| ==> runs[i].index < |FetchedEndpoints(doc).value|
  }

  /**
   * A sampler finishes only once its nursery has waited for every probe it started, so each
   * finished sampler ran exactly `iterations` probes after the priming one.
   */
  predicate RanIterations(options: Options, runs: seq<Run>) {
    forall i :: 0 <= i < |runs| ==> |runs[i].batch| == options.iterations
  }

  /** What the sampler of one run hands back. */
  function RunOutcome(endpoints: seq<RpcEndpoint>, region: string, run: Run): Result<Option<RpcPingResult>, SampleError>
    requires run.index < |endpoints|
  {
    Summarize(endpoints[run.index], region, Latencies([run.priming] + run.batch))
  }

  /** What one sampler hands back: an error, nothing, or its result. */
  type Outcome = Result<Option<RpcPingResult>, SampleError>

  /** The outcome of every finished sampler, in completion order. */
  function Outcomes(endpoints: seq<RpcEndpoint>, region: string, runs: seq<Run>): (r: seq<Outcome>)
    requires forall i :: 0 <= i < |runs| ==> runs[i].index < |endpoints|
    ensures |r| == |runs|
    ensures forall i :: 0 <= i < |runs| ==> r[i] == RunOutcome(endpoints, region, runs[i])
  {
    seq(|runs|, i requires 0 <= i < |runs| => RunOutcome(endpoints, region, runs[i]))
  }

  /**
   * The shared `results` list after samplers with these outcomes have finished, in that order;
   * a sampler that raises takes the whole run down, since `except* KeyError` does not catch it.
   */
  function Appended(outcomes: seq<Outcome>): Result<seq<RpcPingResult>, SampleError> {
    if outcomes == [] then Ok([])
    else
      match Appended(outcomes[..|outcomes| - 1])
      case Err(e) => Err(e)
      case Ok(rs) =>
        match outcomes[|outcomes| - 1]
        case Err(e) => Err(e)
        case Ok(None) => Ok(rs)
        case Ok(Some(x)) => Ok(rs + [x])
  }

  /** One more finished sampler: its error ends the run, its result is appended, or nothing changes. */
  lemma AppendedStep(outcomes: seq<Outcome>, i: nat, results: seq<RpcPingResult>)
    requires i < |outcomes| && Appended(outcomes[..i]) == Ok(results)
    ensures outcomes[i].Err? ==> Appended(outcomes[..i + 1]) == Err(outcomes[i].error)
    ensures outcomes[i] == Ok(None) ==> Appended(outcomes[..i + 1]) == Ok(results)
    ensures outcomes[i].Ok? && outcomes[i].value.Some? ==>
              Appended(outcomes[..i + 1]) == Ok(results + [outcomes[i].value.value])
  {
    assert outcomes[..i + 1][..i] == outcomes[..i];
  }

  /** Appending fails exactly when some sampler failed. */
  lemma {:induction false} AppendedFails(outcomes: seq<Outcome>)
    ensures Appended(outcomes).Err? <==> exists i :: 0 <= i < |outcomes| && outcomes[i].Err?
  {
    if outcomes != [] {
      var init := outcomes[..|outcomes| - 1];
      AppendedFails(init);
      assert forall i :: 0 <= i < |init| ==> init[i] == outcomes[i];
    }
  }

  /** A sampler that handed back a result. */
  predicate Produced(o: Outcome) {
    o.Ok? && o.value.Some?
  }

  /** The positions of the samplers that produced a result, in completion order. */
  function ProducedAt(outcomes: seq<Outcome>): (r: seq<nat>)
    ensures |r| <= |outcomes|
    ensures forall k :: 0 <= k < |r| ==> r[k] < |outcomes| && Produced(outcomes[r[k]])
    ensures forall k, l :: 0 <= k < l < |r| ==> r[k] < r[l]
    ensures forall i :: 0 <= i < |outcomes| && Produced(outcomes[i]) ==> i in r
  {
    if outcomes == [] then []
    else
      var n := |outcomes| - 1;
      var init := outcomes[..n];
      assert forall i :: 0 <= i < n ==> outcomes[i] == init[i];
      ProducedAt(init) + (if Produced(outcomes[n]) then [n] else [])
  }

  /** One result per producing position, read off `outcomes`. */
  predicate ResultsInOrder(outcomes: seq<Outcome>, rs: seq<RpcPingResult>, at: seq<nat>) {
    && |rs| == |at|
    && forall k :: 0 <= k < |at| ==> at[k] < |outcomes| && Produced(outcomes[at[k]]) && rs[k] == outcomes[at[k]].value.value
  }

  /** One more finished sampler keeps the pairing, with its result appended if it produced one. */
  lemma ResultsInOrderSnoc(outcomes: seq<Outcome>, rs: seq<RpcPingResult>, at: seq<nat>)
    requires outcomes != [] && ResultsInOrder(outcomes[..|outcomes| - 1], rs, at)
    ensures var n := |outcomes| - 1;
            ResultsInOrder(outcomes, rs + (if Produced(outcomes[n]) then [outcomes[n].value.value] else []),
                           at + (if Produced(outcomes[n]) then [n] else []))
  {
    var n := |outcomes| - 1;
    forall k | 0 <= k < |at| ensures outcomes[at[k]] == outcomes[..n][at[k]] {
    }
  }

  lemma {:induction false} AppendedPaired(outcomes: seq<Outcome>)
    requires Appended(outcomes).Ok?
    ensures ResultsInOrder(outcomes, Appended(outcomes).value, ProducedAt(outcomes))
  {
    if outcomes != [] {
      var init := outcomes[..|outcomes| - 1];
      assert Appended(init).Ok?;
      AppendedPaired(init);
      ResultsInOrderSnoc(outcomes, Appended(init).value, ProducedAt(init));
    }
  }

  /**
   * When appending succeeds, the list holds exactly the results the samplers produced: one per
   * producing sampler, in the order the samplers finished.
   */
  lemma {:induction false} AppendedResults(outcomes: seq<Outcome>)
    requires Appended(outcomes).Ok?
    ensures |Appended(outcomes).value| == |ProducedAt(outcomes)| <= |outcomes|
    ensures forall k :: 0 <= k < |ProducedAt(outcomes)| ==>
              Appended(outcomes).value[k] == outcomes[ProducedAt(outcomes)[k]].value.value
    ensures forall x :: x in Appended(outcomes).value ==> exists i :: 0 <= i < |outcomes| && outcomes[i] == Ok(Some(x))
    ensures forall i :: 0 <= i < |outcomes| && Produced(outcomes[i]) ==> outcomes[i].value.value in Appended(outcomes).value
  {
    var rs, at := Appended(outcomes).value, ProducedAt(outcomes);
    AppendedPaired(outcomes);
    forall x | x in rs ensures exists i :: 0 <= i < |outcomes| && outcomes[i] == Ok(Some(x)) {
      var k :| 0 <= k < |rs| && rs[k] == x;
      assert outcomes[at[k]] == Ok(Some(x));
    }
    forall i | 0 <= i < |outcomes| && Produced(outcomes[i]) ensures outcomes[i].value.value in rs {
      var k :| 0 <= k < |at| && at[k] == i;
      assert rs[k] == outcomes[i].value.value;
    }
  }

  /** Once a sampler has failed, later samplers do not change the outcome. */
  lemma {:induction false} AppendedErrPersists(outcomes: seq<Outcome>, k: nat)
    requires k <= |outcomes| && Appended(outcomes[..k]).Err?
    ensures Appended(outcomes) == Appended(outcomes[..k])
    decreases |outcomes| - k
  {
    if k < |outcomes| {
      assert outcomes[..k + 1][..k] == outcomes[..k];
      AppendedErrPersists(outcomes, k + 1);
    } else {
      assert outcomes[..k] == outcomes;
    }
  }

  /** The shared `results` list once the samplers of `runs` have finished. */
  function Gathered(endpoints: seq<RpcEndpoint>, region: string, runs: seq<Run>): Result<seq<RpcPingResult>, SampleError>
    requires forall i :: 0 <= i < |runs| ==> runs[i].index < |endpoints|
  {
    Appended(Outcomes(endpoints, region, runs))
  }

  /** Gathering fails exactly when some finished sampler collected a single latency. */
  lemma GatheredFails(endpoints: seq<RpcEndpoint>, region: string, runs: seq<Run>)
    requires forall i :: 0 <= i < |runs| ==> runs[i].index < |endpoints|
    ensures Gathered(endpoints, region, runs).Err? <==>
              exists i :: 0 <= i < |runs| && |Latencies([runs[i].priming] + runs[i].batch)| == 1
  {
    AppendedFails(Outcomes(endpoints, region, runs));
  }

  /**
   * When gathering succeeds, every collected result is the summary of one finished sampler, from
   * the configured region, and every finished sampler with latencies contributes its summary.
   */
  lemma GatheredResults(endpoints: seq<RpcEndpoint>, region: string, runs: seq<Run>)
    requires forall i :: 0 <= i < |runs| ==> runs[i].index < |endpoints|
    requires Gathered(endpoints, region, runs).Ok?
    ensures var at := ProducedAt(Outcomes(endpoints, region, runs));
            && |Gathered(endpoints, region, runs).value| == |at| <= |runs|
            && forall k :: 0 <= k < |at| ==>
                 Ok(Some(Gathered(endpoints, region, runs).value[k])) == RunOutcome(endpoints, region, runs[at[k]])
    ensures forall x :: x in Gathered(endpoints, region, runs).value ==>
              x.fromRegion == region && exists i :: 0 <= i < |runs| && RunOutcome(endpoints, region, runs[i]) == Ok(Some(x))
    ensures forall i :: 0 <= i < |runs| && Latencies([runs[i].priming] + runs[i].batch) != [] ==>
              RunOutcome(endpoints, region, runs[i]).Ok? &&
              RunOutcome(endpoints, region, runs[i]).value.value in Gathered(endpoints, region, runs).value
  {
    var outcomes := Outcomes(endpoints, region, runs);
    AppendedResults(outcomes);
    AppendedFails(outcomes);
  }

  /** The `results.append` accumulator: each finished sampler, in completion order, adds its result if it has one. */
  method Gather(endpoints: seq<RpcEndpoint>, region: string, iterations: nat, runs: seq<Run>)
    returns (r: Result<seq<RpcPingResult>, SampleError>)
    requires forall i :: 0 <= i < |runs| ==> runs[i].index < |endpoints| && |runs[i].batch| == iterations
    ensures r == Gathered(endpoints, region, runs)
  {
    ghost var outcomes := Outcomes(endpoints, region, runs);
    var results: seq<RpcPingResult> := [];
    var i := 0;
    while i < |runs|
      invariant 0 <= i <= |runs|
      invariant Appended(outcomes[..i]) == Ok(results)
    {
      var run := runs[i];
      var outcome := PingRpcNode(endpoints[run.index], region, iterations, run.priming, run.batch);
      assert outcome == outcomes[i] == RunOutcome(endpoints, region, run);
      AppendedStep(outcomes, i, results);
      match outcome {
        case Err(e) =>
          AppendedErrPersists(outcomes, i + 1);
          return Err(e);
        case Ok(None) =>
        case Ok(Some(x)) =>
          results := results + [x];
      }
      i := i + 1;
    }
    assert outcomes[..i] == outcomes;
    r := Ok(results);
  }

  /** The sort key of `results.sort(key=lambda x: x.avg_latency)`. */
  function AvgOf(x: RpcPingResult): int {
    x.avgLatency
  }

  /**
   * The results of the run, fastest first: the endpoint list is converted, the samplers'
   * results gathered, then sorted by average latency.
   */
  function Collected(doc: Json, region: string, runs: seq<Run>): Result<seq<RpcPingResult>, Failure>
    requires Launched(doc, runs)
  {
    match FetchedEndpoints(doc)
    case None => Err(InvalidEndpoints)
    case Some(endpoints) =>
      match Gathered(endpoints, region, runs)
      case Err(e) => Err(Statistics(e))
      case Ok(rs) => Ok(SortBy(rs, AvgOf))
  }

  /**
   * The collected results are ascending by average latency, a permutation of what the samplers
   * gathered, and results with equal averages keep the order in which their samplers finished.
   */
  lemma CollectedSorted(doc: Json, region: string, runs: seq<Run>, k: int)
    requires Launched(doc, runs) && FetchedEndpoints(doc).Some?
    requires Gathered(FetchedEndpoints(doc).value, region, runs).Ok?
    ensures var gathered := Gathered(FetchedEndpoints(doc).value, region, runs).value;
            && Collected(doc, region, runs) == Ok(SortBy(gathered, AvgOf))
            && SortedBy(Collected(doc, region, runs).value, AvgOf)
            && multiset(Collected(doc, region, runs).value) == multiset(gathered)
            && WithKey(Collected(doc, region, runs).value, AvgOf, k) == WithKey(gathered, AvgOf, k)
  {
    var gathered := Gathered(FetchedEndpoints(doc).value, region, runs).value;
    SortBySorted(gathered, AvgOf);
    SortByStable(gathered, AvgOf, k);
  }

  /** The character of a decimal digit. */
  function Digit(d: nat): char
    requires d < 10
  {
    ('0' as int + d) as char
  }

  predicate IsDigits(s: string) {
    forall i :: 0 <= i < |s| ==> '0' <= s[i] <= '9'
  }

  /** Python's `str` of a non-negative integer: its decimal digits, most significant first, without leading zeros. */
  function Decimal(n: nat): (s: string)
    ensures |s| >= 1 && IsDigits(s)
    ensures |s| > 1 ==> s[0] != '0'
  {
    if n < 10 then [Digit(n)] else Decimal(n / 10) + [Digit(n % 10)]
  }

  /** The number a string of decimal digits denotes. */
  function DigitsValue(s: string): nat
    requires IsDigits(s)
  {
    if s == [] then 0 else DigitsValue(s[..|s| - 1]) * 10 + (s[|s| - 1] as int - '0' as int)
  }

  /** Reading the digits back gives the number, so distinct timestamps print differently. */
  lemma {:induction false} DecimalValue(n: nat)
    ensures DigitsValue(Decimal(n)) == n
  {
    if n >= 10 {
      DecimalValue(n / 10);
      var s := Decimal(n);
      assert s[..|s| - 1] == Decimal(n / 10);
    }
  }

  /** The `_id` of a stored result: `{rpc_name}::{from_region}::{timestamp}`. */
  function RecordId(x: RpcPingResult, timestamp: nat): string {
    x.rpcName + "::" + x.fromRegion + "::" + Decimal(timestamp)
  }

  /** Within one run (one region, one timestamp) endpoints with different names get different ids. */
  lemma RecordIdsDistinct(a: RpcPingResult, b: RpcPingResult, timestamp: nat)
    requires a.fromRegion == b.fromRegion && a.rpcName != b.rpcName
    ensures RecordId(a, timestamp) != RecordId(b, timestamp)
  {
    var suffix := "::" + a.fromRegion + "::" + Decimal(timestamp);
    assert RecordId(a, timestamp) == a.rpcName + suffix;
    assert RecordId(b, timestamp) == b.rpcName + suffix;
    if |a.rpcName| == |b.rpcName| {
      assert RecordId(a, timestamp)[..|a.rpcName|] == a.rpcName;
      assert RecordId(b, timestamp)[..|b.rpcName|] == b.rpcName;
    }
  }

  /** Two runs with different timestamps never write the same id. */
  lemma RecordIdTimestamps(a: RpcPingResult, b: RpcPingResult, t1: nat, t2: nat)
    requires RecordId(a, t1) == RecordId(b, t2)
    requires a.rpcName == b.rpcName && a.fromRegion == b.fromRegion
    ensures t1 == t2
  {
    var prefix := a.rpcName + "::" + a.fromRegion + "::";
    assert RecordId(a, t1) == prefix + Decimal(t1);
    assert RecordId(b, t2) == prefix + Decimal(t2);
    assert Decimal(t1) == RecordId(a, t1)[|prefix|..];
    assert Decimal(t2) == RecordId(b, t2)[|prefix|..];
    DecimalValue(t1);
    DecimalValue(t2);
  }

  /** The stored record of one result of the test `testId`. */
  function ToRecord(x: RpcPingResult, timestamp: nat, testId: Uuid): DbRpcPingResult {
    DbRpcPingResult(RecordId(x, timestamp), x.rpcName, x.rpcUrl, x.avgLatency, x.p10Latency, x.p50Latency,
                    x.p90Latency, x.stDev, x.fromRegion, testId)
  }

  /** The result a stored record holds, without its `_id` and test id. */
  function Stored(record: DbRpcPingResult): RpcPingResult {
    RpcPingResult(record.rpcName, record.rpcUrl, record.avgLatency, record.p10Latency, record.p50Latency,
                  record.p90Latency, record.stDev, record.fromRegion)
  }

  /** A record keeps every field of its result: reading it back gives the result again. */
  lemma StoredToRecord(x: RpcPingResult, timestamp: nat, testId: Uuid)
    ensures Stored(ToRecord(x, timestamp, testId)) == x
    ensures ToRecord(x, timestamp, testId).testId == testId
    ensures ToRecord(x, timestamp, testId).id == RecordId(x, timestamp)
  {
  }

  /** The record list comprehension: one record per result, in order. */
  function ToRecords(results: seq<RpcPingResult>, timestamp: nat, testId: Uuid): (r: seq<DbRpcPingResult>)
    ensures |r| == |results|
    ensures forall i :: 0 <= i < |r| ==> Stored(r[i]) == results[i] && r[i].testId == testId
    ensures forall i :: 0 <= i < |r| ==> r[i].id == RecordId(results[i], timestamp)
  {
    seq(|results|, i requires 0 <= i < |results| => ToRecord(results[i], timestamp, testId))
  }

  /** Every record written refers to the test, so the test has as many results as the run produced. */
  lemma {:induction false} RecordsReferenceTest(results: seq<RpcPingResult>, timestamp: nat, testId: Uuid)
    ensures Count(ToRecords(results, timestamp, testId), testId) == |results|
  {
    if results != [] {
      RecordsReferenceTest(results[1..], timestamp, testId);
      assert ToRecords(results, timestamp, testId)[1..] == ToRecords(results[1..], timestamp, testId);
    }
  }

  lemma {:induction false} CountConcat(a: seq<DbRpcPingResult>, b: seq<DbRpcPingResult>, id: Uuid)
    ensures Count(a + b, id) == Count(a, id) + Count(b, id)
  {
    if a != [] {
      CountConcat(a[1..], b, id);
      assert (a + b)[1..] == a[1..] + b;
    } else {
      assert a + b == b;
    }
  }

  /** The `--test-id` option is given, and not empty (an empty string is false in Python). */
  predicate TestIdGiven(options: Options) {
    options.testId.Some? && options.testId.value != ""
  }

  /**
   * The record list as the comprehension is written: the test id of every record is
   * `uuid.UUID(test_id)` of the option, whichever test was looked up or created.
   */
  function RecordsAsWritten(results: seq<RpcPingResult>, timestamp: nat, testId: Option<string>,
                            parseUuid: string -> Option<Uuid>): (r: Result<seq<DbRpcPingResult>, Failure>)
    ensures results == [] ==> r == Ok([])
  {
    if results == [] then Ok([])
    else match testId
      case None => Err(TypeError)
      case Some(s) =>
        match parseUuid(s)
        case None => Err(ValueError)
        case Some(u) => Ok(ToRecords(results, timestamp, u))
  }

  /**
   * Without `--test-id`, the written code saves a fresh test and then fails while building the
   * records: nothing refers to the saved test, and the next cleanup deletes it.
   */
  lemma AsWrittenWithoutTestId(results: seq<RpcPingResult>, timestamp: nat, parseUuid: string -> Option<Uuid>)
    requires results != []
    ensures RecordsAsWritten(results, timestamp, None, parseUuid) == Err(TypeError)
  {
  }

  /** With a test id that names a stored test, the written code and the corrected one build the same records. */
  lemma AsWrittenWithTestId(results: seq<RpcPingResult>, timestamp: nat, tests: seq<DbRpcPingTest>,
                            s: string, parseUuid: string -> Option<Uuid>)
    requires results != [] && parseUuid(s).Some? && Lookup(tests, parseUuid(s).value).Some?
    ensures RecordsAsWritten(results, timestamp, Some(s), parseUuid)
            == Ok(ToRecords(results, timestamp, Lookup(tests, parseUuid(s).value).value.id))
  {
  }

  /**
   * The database write of `ping` as written, for a non-empty sorted result list: the test is
   * looked up or a fresh one saved, then the records are built with `uuid.UUID(test_id)` of the
   * option and inserted. Without `--test-id` the fresh test is saved and the build then raises,
   * so the test stays with no results.
   */
  method WriteAsWritten(store: ResultStore, options: Options, sorted: seq<RpcPingResult>, timestamp: nat,
                        freshId: Uuid, parseUuid: string -> Option<Uuid>)
    returns (failure: Option<Failure>)
    requires store.Valid() && sorted != []
    modifies store
    ensures store.Valid()
    ensures TestIdGiven(options) ==> store.tests == old(store.tests)
    ensures !TestIdGiven(options) ==> store.tests == Upsert(old(store.tests), DbRpcPingTest(freshId, timestamp))
    ensures failure.Some? ==> store.results == old(store.results)
    ensures failure.None? ==>
              && RecordsAsWritten(sorted, timestamp, options.testId, parseUuid).Ok?
              && store.results == old(store.results) + RecordsAsWritten(sorted, timestamp, options.testId, parseUuid).value
    ensures options.testId == None ==> failure == Some(TypeError)
  {
    if TestIdGiven(options) {
      var id := parseUuid(options.testId.value);
      if id.None? {
        return Some(ValueError);
      }
      var found := Lookup(store.tests, id.value);
      if found.None? {
        return Some(Exit(TestNotFoundMessage));
      }
    } else {
      store.Save(DbRpcPingTest(freshId, timestamp));
    }
    var records := RecordsAsWritten(sorted, timestamp, options.testId, parseUuid);
    if records.Err? {
      return Some(records.error);
    }
    store.InsertMany(records.value);
    failure := None;
  }

  /**
   * The test saved by the as-written write without `--test-id` is stored but referenced by no
   * result (its id is freshly drawn), so the next cleanup deletes it.
   */
  lemma OrphanedTest(tests: seq<DbRpcPingTest>, results: seq<DbRpcPingResult>, freshId: Uuid, timestamp: nat)
    requires Count(results, freshId) == 0
    ensures DbRpcPingTest(freshId, timestamp) in Upsert(tests, DbRpcPingTest(freshId, timestamp))
    ensures DbRpcPingTest(freshId, timestamp) !in Referenced(Upsert(tests, DbRpcPingTest(freshId, timestamp)), results)
  {
    var t := DbRpcPingTest(freshId, timestamp);
    UpsertFinds(tests, t);
    ReferencedMembers(Upsert(tests, t), results);
  }

  /**
   * The whole `ping` command, with the test id of the records taken from the test that was
   * looked up or saved. `doc` is the fetched endpoint document, `runs` the samplers that
   * finished before the deadline in completion order, `timestamp` the clock at the start,
   * `freshId` the id `uuid.uuid4()` draws, and `parseUuid` the `uuid.UUID` constructor.
   */
  method Ping(store: ResultStore, options: Options, dbUrl: Option<string>, doc: Json, region: string,
              runs: seq<Run>, timestamp: nat, freshId: Uuid, parseUuid: string -> Option<Uuid>)
    returns (r: Result<seq<RpcPingResult>, Failure>)
    requires store.Valid() && Launched(doc, runs) && RanIterations(options, runs)
    modifies store
    ensures store.Valid()
    ensures Guard(options, dbUrl).Some? ==> r == Err(Guard(options, dbUrl).value) && unchanged(store)
    ensures Guard(options, dbUrl).None? && Collected(doc, region, runs).Err? ==>
              r == Collected(doc, region, runs) && unchanged(store)
    ensures Guard(options, dbUrl).None? && Collected(doc, region, runs).Ok? ==>
              var sorted := Collected(doc, region, runs).value;
              && (sorted == [] || !options.writeToDb ==> r == Ok(sorted) && unchanged(store))
              && (sorted != [] && options.writeToDb && TestIdGiven(options) ==>
                    match parseUuid(options.testId.value)
                    case None => r == Err(ValueError) && unchanged(store)
                    case Some(u) =>
                      && (Lookup(old(store.tests), u).None? ==> r == Err(Exit(TestNotFoundMessage)) && unchanged(store))
                      && (Lookup(old(store.tests), u).Some? ==>
                            && r == Ok(sorted)
                            && store.tests == old(store.tests)
                            && store.results == old(store.results) + ToRecords(sorted, timestamp, u)))
              && (sorted != [] && options.writeToDb && !TestIdGiven(options) ==>
                    && r == Ok(sorted)
                    && store.tests == Upsert(old(store.tests), DbRpcPingTest(freshId, timestamp))
                    && store.results == old(store.results) + ToRecords(sorted, timestamp, freshId))
  {
    var guard := Guard(options, dbUrl);
    if guard.Some? {
      return Err(guard.value);
    }
    var endpoints := FetchedEndpoints(doc);
    if endpoints.None? {
      return Err(InvalidEndpoints);
    }
    var gathered := Gather(endpoints.value, region, options.iterations, runs);
    if gathered.Err? {
      return Err(Statistics(gathered.error));
    }
    var results := gathered.value;
    if |results| == 0 {
      return Ok([]);
    }
    results := SortBy(results, AvgOf);
    SortBySorted(gathered.value, AvgOf);
    if options.writeToDb {
      var test: DbRpcPingTest;
      if TestIdGiven(options) {
        var id := parseUuid(options.testId.value);
        if id.None? {
          return Err(ValueError);
        }
        var found := Lookup(store.tests, id.value);
        if found.None? {
          return Err(Exit(TestNotFoundMessage));
        }
        test := found.value;
      } else {
        test := DbRpcPingTest(freshId, timestamp);
        store.Save(test);
      }
      store.InsertMany(ToRecords(results, timestamp, test.id));
    }
    r := Ok(results);
  }

  /**
   * After a write, the test the records belong to has at least one result, so a later cleanup
   * keeps it.
   */
  lemma WrittenTestIsReferenced(before: seq<DbRpcPingResult>, sorted: seq<RpcPingResult>, timestamp: nat, id: Uuid)
    requires sorted != []
    ensures Count(before + ToRecords(sorted, timestamp, id), id) >= |sorted| > 0
  {
    CountConcat(before, ToRecords(sorted, timestamp, id), id);
    RecordsReferenceTest(sorted, timestamp, id);
  }
}
