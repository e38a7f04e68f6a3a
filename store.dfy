/**
 * The two MongoDB collections the commands of suinfra_cli/commands/rpc.py work on, held as
 * sequences in their natural order, with the `cleanup` sweep and the `tests` report.
 */
module Store {
  import opened Wrappers
  import opened Models
  import opened Sorting

  /** Document ids are unique within a collection. */
  predicate UniqueIds(tests: seq<DbRpcPingTest>) {
    forall i, j :: 0 <= i < j < |tests| ==> tests[i].id != tests[j].id
  }

  lemma AppendUnique(tests: seq<DbRpcPingTest>, t: DbRpcPingTest)
    requires UniqueIds(tests) && forall u :: u in tests ==> u.id != t.id
    ensures UniqueIds(tests + [t])
  {
    forall i, j | 0 <= i < j < |tests| + 1 ensures (tests + [t])[i].id != (tests + [t])[j].id {
      if j == |tests| {
        assert (tests + [t])[i] == tests[i] && tests[i] in tests;
      }
    }
  }

  /** `Db_RpcPingTest.get(id)`: the test stored under `id`, if any. */
  function Lookup(tests: seq<DbRpcPingTest>, id: Uuid): (r: Option<DbRpcPingTest>)
    ensures r.Some? ==> r.value in tests && r.value.id == id
    ensures r.None? <==> forall t :: t in tests ==> t.id != id
  {
    if tests == [] then None
    else if tests[0].id == id then Some(tests[0])
    else
      var r := Lookup(tests[1..], id);
      assert forall t :: t in tests ==> t == tests[0] || t in tests[1..];
      r
  }

  /** With unique ids, the test found under an id is the one stored at its position. */
  lemma {:induction false} LookupAt(tests: seq<DbRpcPingTest>, k: nat)
    requires UniqueIds(tests) && k < |tests|
    ensures Lookup(tests, tests[k].id) == Some(tests[k])
  {
    if k > 0 {
      LookupAt(tests[1..], k - 1);
    }
  }

  /** `test.delete()`: the tests stored under another id. */
  function WithoutId(tests: seq<DbRpcPingTest>, id: Uuid): seq<DbRpcPingTest> {
    if tests == [] then []
    else (if tests[0].id == id then [] else [tests[0]]) + WithoutId(tests[1..], id)
  }

  /** Deleting removes exactly the tests stored under `id`. */
  lemma {:induction false} WithoutIdMembers(tests: seq<DbRpcPingTest>, id: Uuid)
    ensures forall t :: t in WithoutId(tests, id) <==> t in tests && t.id != id
  {
    if tests != [] {
      WithoutIdMembers(tests[1..], id);
      assert forall t :: t in tests <==> t == tests[0] || t in tests[1..];
    }
  }

  /** Deleting keeps ids unique. */
  lemma {:induction false} WithoutIdUnique(tests: seq<DbRpcPingTest>, id: Uuid)
    requires UniqueIds(tests)
    ensures UniqueIds(WithoutId(tests, id))
  {
    if tests != [] {
      var t, later := tests[0], tests[1..];
      var rest := WithoutId(later, id);
      WithoutIdUnique(later, id);
      if t.id != id {
        WithoutIdMembers(later, id);
        forall u | u in rest ensures u.id != t.id {
          var j :| 0 <= j < |later| && later[j] == u;
          assert tests[j + 1] == u;
        }
        forall i, j | 0 <= i < j < |rest| + 1 ensures ([t] + rest)[i].id != ([t] + rest)[j].id {
          if i == 0 {
            assert ([t] + rest)[j] == rest[j - 1] && rest[j - 1] in rest;
          }
        }
      }
    }
  }

  lemma {:induction false} WithoutAbsentId(tests: seq<DbRpcPingTest>, id: Uuid)
    requires forall t :: t in tests ==> t.id != id
    ensures WithoutId(tests, id) == tests
  {
    if tests != [] {
      WithoutAbsentId(tests[1..], id);
    }
  }

  lemma {:induction false} WithoutIdConcat(a: seq<DbRpcPingTest>, b: seq<DbRpcPingTest>, id: Uuid)
    ensures WithoutId(a + b, id) == WithoutId(a, id) + WithoutId(b, id)
  {
    if a != [] {
      WithoutIdConcat(a[1..], b, id);
      assert (a + b)[0] == a[0] && (a + b)[1..] == a[1..] + b;
      var head := if a[0].id == id then [] else [a[0]];
      calc {
        WithoutId(a + b, id);
        head + WithoutId(a[1..] + b, id);
        head + (WithoutId(a[1..], id) + WithoutId(b, id));
        (head + WithoutId(a[1..], id)) + WithoutId(b, id);
      }
    } else {
      assert a + b == b;
    }
  }

  /** `Document.save()`: replaces the test stored under the same id, or adds it at the end. */
  function Upsert(tests: seq<DbRpcPingTest>, t: DbRpcPingTest): seq<DbRpcPingTest> {
    if tests == [] then [t]
    else if tests[0].id == t.id then [t] + tests[1..]
    else [tests[0]] + Upsert(tests[1..], t)
  }

  lemma {:induction false} UpsertNew(tests: seq<DbRpcPingTest>, t: DbRpcPingTest)
    requires forall u :: u in tests ==> u.id != t.id
    ensures Upsert(tests, t) == tests + [t]
  {
    if tests != [] {
      UpsertNew(tests[1..], t);
    }
  }

  lemma {:induction false} UpsertExisting(tests: seq<DbRpcPingTest>, t: DbRpcPingTest, k: nat)
    requires UniqueIds(tests) && k < |tests| && tests[k].id == t.id
    ensures Upsert(tests, t) == tests[k := t]
  {
    if k > 0 {
      UpsertExisting(tests[1..], t, k - 1);
      assert tests[1..][k - 1 := t] == tests[k := t][1..];
    }
  }

  /** After saving, `t` is what is stored under its id. */
  lemma {:induction false} UpsertFinds(tests: seq<DbRpcPingTest>, t: DbRpcPingTest)
    ensures Lookup(Upsert(tests, t), t.id) == Some(t)
  {
    if tests != [] && tests[0].id != t.id {
      UpsertFinds(tests[1..], t);
    }
  }

  /** Saving leaves what is stored under every other id alone. */
  lemma {:induction false} UpsertKeepsOthers(tests: seq<DbRpcPingTest>, t: DbRpcPingTest, id: Uuid)
    requires id != t.id
    ensures Lookup(Upsert(tests, t), id) == Lookup(tests, id)
  {
    if tests != [] && tests[0].id != t.id && tests[0].id != id {
      UpsertKeepsOthers(tests[1..], t, id);
    }
  }

  /** Saving keeps ids unique. */
  lemma UpsertUnique(tests: seq<DbRpcPingTest>, t: DbRpcPingTest)
    requires UniqueIds(tests)
    ensures UniqueIds(Upsert(tests, t))
  {
    if Lookup(tests, t.id).None? {
      UpsertNew(tests, t);
      AppendUnique(tests, t);
    } else {
      var k :| 0 <= k < |tests| && tests[k] == Lookup(tests, t.id).value;
      UpsertExisting(tests, t, k);
      assert forall i :: 0 <= i < |tests| ==> tests[k := t][i].id == tests[i].id;
    }
  }

  /** `Db_RpcPingResult.find(Db_RpcPingResult.test_id == id)`: the results of one test, in stored order. */
  function ResultsFor(results: seq<DbRpcPingResult>, id: Uuid): (r: seq<DbRpcPingResult>)
    ensures |r| <= |results|
    ensures forall x :: x in r <==> x in results && x.testId == id
  {
    if results == [] then []
    else
      assert forall x :: x in results ==> x == results[0] || x in results[1..];
      (if results[0].testId == id then [results[0]] else []) + ResultsFor(results[1..], id)
  }

  /** `Db_RpcPingResult.find(Db_RpcPingResult.test_id == id).count()`. */
  function Count(results: seq<DbRpcPingResult>, id: Uuid): nat {
    if results == [] then 0
    else (if results[0].testId == id then 1 else 0) + Count(results[1..], id)
  }

  /** The count is the number of results `find` returns, and zero exactly when no result refers to `id`. */
  lemma {:induction false} CountSpec(results: seq<DbRpcPingResult>, id: Uuid)
    ensures Count(results, id) == |ResultsFor(results, id)|
    ensures Count(results, id) == 0 <==> forall x :: x in results ==> x.testId != id
  {
    if results != [] {
      CountSpec(results[1..], id);
      assert forall x :: x in results <==> x == results[0] || x in results[1..];
    }
  }

  /** The tests with at least one result, in stored order: what the cleanup sweep keeps. */
  function Referenced(tests: seq<DbRpcPingTest>, results: seq<DbRpcPingResult>): seq<DbRpcPingTest> {
    if tests == [] then []
    else
      var last := tests[|tests| - 1];
      Referenced(tests[..|tests| - 1], results) + (if Count(results, last.id) == 0 then [] else [last])
  }

  /** The sweep keeps exactly the tests some stored result refers to. */
  lemma {:induction false} ReferencedMembers(tests: seq<DbRpcPingTest>, results: seq<DbRpcPingResult>)
    ensures forall t :: t in Referenced(tests, results) <==> t in tests && Count(results, t.id) > 0
  {
    if tests != [] {
      var init := tests[..|tests| - 1];
      ReferencedMembers(init, results);
      assert tests == init + [tests[|tests| - 1]];
    }
  }

  lemma {:induction false} ReferencedUnique(tests: seq<DbRpcPingTest>, results: seq<DbRpcPingResult>)
    requires UniqueIds(tests)
    ensures UniqueIds(Referenced(tests, results))
  {
    if tests != [] {
      var init := tests[..|tests| - 1];
      var last := tests[|tests| - 1];
      ReferencedUnique(init, results);
      ReferencedMembers(init, results);
      forall u | u in Referenced(init, results) ensures u.id != last.id {
        var k :| 0 <= k < |init| && init[k] == u;
      }
      if Count(results, last.id) > 0 {
        AppendUnique(Referenced(init, results), last);
      }
    }
  }

  /** The stored order of results by average latency, as the `tests` report uses it. */
  function RecordAvg(r: DbRpcPingResult): int {
    r.avgLatency
  }

  /** The results from one region, in their order. */
  function FromRegion(results: seq<DbRpcPingResult>, region: string): seq<DbRpcPingResult> {
    if results == [] then []
    else
      var init := results[..|results| - 1];
      var last := results[|results| - 1];
      FromRegion(init, region) + (if last.fromRegion == region then [last] else [])
  }

  /** Appending a result extends the list of its own region only. */
  lemma FromRegionSnoc(results: seq<DbRpcPingResult>, x: DbRpcPingResult, region: string)
    ensures FromRegion(results + [x], region) == FromRegion(results, region) + (if x.fromRegion == region then [x] else [])
  {
    assert (results + [x])[..|results|] == results;
  }

  /** The regions of the results, each once, in the order they are first met (the keys of the `defaultdict`). */
  function Regions(results: seq<DbRpcPingResult>): seq<string> {
    if results == [] then []
    else
      var init := results[..|results| - 1];
      var last := results[|results| - 1];
      var r := Regions(init);
      if last.fromRegion in r then r else r + [last.fromRegion]
  }

  /** A region's list holds exactly the results from that region. */
  lemma {:induction false} FromRegionMembers(results: seq<DbRpcPingResult>, region: string)
    ensures forall x :: x in FromRegion(results, region) <==> x in results && x.fromRegion == region
  {
    if results != [] {
      var init := results[..|results| - 1];
      FromRegionMembers(init, region);
      assert results == init + [results[|results| - 1]];
    }
  }

  /** The regions listed are exactly those some result comes from, and none is listed twice. */
  lemma {:induction false} RegionsSpec(results: seq<DbRpcPingResult>)
    ensures forall g :: g in Regions(results) <==> exists x :: x in results && x.fromRegion == g
    ensures forall i, j :: 0 <= i < j < |Regions(results)| ==> Regions(results)[i] != Regions(results)[j]
  {
    if results != [] {
      var init := results[..|results| - 1];
      var last := results[|results| - 1];
      RegionsSpec(init);
      assert results == init + [last];
      assert forall x :: x in results <==> x == last || x in init;
    }
  }

  /** Appending a result adds its region at the end when it has not been met before. */
  lemma RegionsSnoc(results: seq<DbRpcPingResult>, x: DbRpcPingResult)
    ensures Regions(results + [x])
            == if x.fromRegion in Regions(results) then Regions(results) else Regions(results) + [x.fromRegion]
  {
    assert (results + [x])[..|results|] == results;
  }

  /** The `defaultdict` after appending every result to the list of its region. */
  function Grouping(results: seq<DbRpcPingResult>): map<string, seq<DbRpcPingResult>> {
    map g | g in Regions(results) :: FromRegion(results, g)
  }

  /** Appending a result to the dictionary: its region's list grows by it, or a new list starts. */
  lemma GroupingSnoc(results: seq<DbRpcPingResult>, x: DbRpcPingResult)
    ensures x.fromRegion in Grouping(results) <==> x.fromRegion in Regions(results)
    ensures Grouping(results + [x])
            == if x.fromRegion in Grouping(results)
               then Grouping(results)[x.fromRegion := Grouping(results)[x.fromRegion] + [x]]
               else Grouping(results)[x.fromRegion := [x]]
  {
    RegionsSnoc(results, x);
    var g := x.fromRegion;
    var before := Grouping(results);
    var after := Grouping(results + [x]);
    if g !in Regions(results) {
      FromRegionAbsent(results, g);
    }
    var expected := if g in before then before[g := before[g] + [x]] else before[g := [x]];
    assert after.Keys == expected.Keys;
    forall h | h in after ensures after[h] == expected[h] {
      FromRegionSnoc(results, x, h);
    }
  }

  /** A region no result comes from has an empty list. */
  lemma FromRegionAbsent(results: seq<DbRpcPingResult>, region: string)
    requires region !in Regions(results)
    ensures FromRegion(results, region) == []
  {
    FromRegionMembers(results, region);
    RegionsSpec(results);
  }

  /** Reading `.id` of the `None` that `first_or_none` gives back for an empty collection. */
  datatype ReportError = AttributeError

  /** One section of the report: a region and its results, fastest first. */
  datatype RegionGroup = RegionGroup(region: string, results: seq<DbRpcPingResult>)

  /** The per-region report the `tests` command prints. */
  function Report(results: seq<DbRpcPingResult>): (r: seq<RegionGroup>)
    ensures |r| == |Regions(results)|
    ensures forall g :: 0 <= g < |r| ==> r[g].region == Regions(results)[g]
    ensures forall g :: 0 <= g < |r| ==> r[g].results == SortBy(FromRegion(results, r[g].region), RecordAvg)
  {
    seq(|Regions(results)|, g requires 0 <= g < |Regions(results)| =>
      var region := Regions(results)[g];
      RegionGroup(region, SortBy(FromRegion(results, region), RecordAvg)))
  }

  /** Each group of the report is ordered by average latency, stably, and holds exactly its region's results. */
  lemma ReportGroupOrdered(results: seq<DbRpcPingResult>, g: nat, k: int)
    requires g < |Report(results)|
    ensures var group := Report(results)[g];
            && SortedBy(group.results, RecordAvg)
            && multiset(group.results) == multiset(FromRegion(results, group.region))
            && WithKey(group.results, RecordAvg, k) == WithKey(FromRegion(results, group.region), RecordAvg, k)
  {
    var region := Report(results)[g].region;
    SortBySorted(FromRegion(results, region), RecordAvg);
    SortByStable(FromRegion(results, region), RecordAvg, k);
  }

  /** Every result appears in the group of its own region. */
  lemma ReportCovers(results: seq<DbRpcPingResult>, x: DbRpcPingResult)
    requires x in results
    ensures exists g :: 0 <= g < |Report(results)| && Report(results)[g].region == x.fromRegion
                        && x in Report(results)[g].results
  {
    var r := Report(results);
    var regions := Regions(results);
    RegionsSpec(results);
    FromRegionMembers(results, x.fromRegion);
    assert x.fromRegion in regions;
    var g :| 0 <= g < |regions| && regions[g] == x.fromRegion;
    ReportGroupOrdered(results, g, 0);
    assert x in FromRegion(results, x.fromRegion);
    assert x in multiset(r[g].results);
  }

  /** A group holds only stored results of its own region, and no region has two groups. */
  lemma ReportSound(results: seq<DbRpcPingResult>, g: nat, x: DbRpcPingResult)
    requires g < |Report(results)| && x in Report(results)[g].results
    ensures x in results && x.fromRegion == Report(results)[g].region
    ensures forall h :: 0 <= h < |Report(results)| && h != g ==> Report(results)[h].region != Report(results)[g].region
  {
    ReportGroupOrdered(results, g, 0);
    RegionsSpec(results);
    FromRegionMembers(results, Report(results)[g].region);
    assert x in multiset(FromRegion(results, Report(results)[g].region));
  }

  /** The stored tests and results, in their natural (insertion) order. */
  class ResultStore {
    var tests: seq<DbRpcPingTest>
    var results: seq<DbRpcPingResult>

    /** The database keeps `_id` unique within the tests collection. */
    ghost predicate Valid()
      reads this
    {
      UniqueIds(tests)
    }

    constructor ()
      ensures Valid() && tests == [] && results == []
    {
      tests := [];
      results := [];
    }

    /** `Db_RpcPingTest.save()`. */
    method Save(test: DbRpcPingTest)
      requires Valid()
      modifies this
      ensures Valid()
      ensures tests == Upsert(old(tests), test) && results == old(results)
      ensures Lookup(tests, test.id) == Some(test)
    {
      UpsertUnique(tests, test);
      UpsertFinds(tests, test);
      tests := Upsert(tests, test);
    }

    /** `Db_RpcPingResult.insert_many(records)`: appended in order. */
    method InsertMany(records: seq<DbRpcPingResult>)
      requires Valid()
      modifies this
      ensures Valid()
      ensures results == old(results) + records && tests == old(tests)
    {
      results := results + records;
    }

    /** `test.delete()`. */
    method Delete(id: Uuid)
      requires Valid()
      modifies this
      ensures Valid()
      ensures tests == WithoutId(old(tests), id) && results == old(results)
    {
      WithoutIdUnique(tests, id);
      tests := WithoutId(tests, id);
    }

    /** The `cleanup` command: deletes, one by one, every test that no stored result refers to. */
    method Cleanup()
      requires Valid()
      modifies this
      ensures Valid()
      ensures tests == Referenced(old(tests), old(results)) && results == old(results)
    {
      var snapshot := tests;
      var i := 0;
      while i < |snapshot|
        invariant 0 <= i <= |snapshot|
        invariant Valid() && results == old(results)
        invariant tests == Swept(snapshot, i, results)
      {
        var test := snapshot[i];
        SweepStep(snapshot, i, results);
        if Count(results, test.id) == 0 {
          Delete(test.id);
        }
        i := i + 1;
      }
      SweepDone(snapshot, results);
    }

    /**
     * The `tests` command: the results of the first stored test, grouped by region in the order
     * regions are first met, each group sorted by average latency. With no stored test, reading
     * the id of the missing test raises.
     */
    method Tests() returns (r: Result<seq<RegionGroup>, ReportError>)
      ensures tests == [] <==> r == Err(AttributeError)
      ensures tests != [] ==> r == Ok(Report(ResultsFor(results, tests[0].id)))
    {
      if tests == [] {
        return Err(AttributeError);
      }
      var found := ResultsFor(results, tests[0].id);
      var regions, groups := GroupByRegion(found);
      RegionsSpec(found);
      var sorted := SortGroups(regions, groups);
      ItemsReport(found, sorted);
      var report := Items(regions, sorted);
      r := Ok(report);
    }
  }

  /**
   * The `defaultdict(list)` filled by appending each result to its region's list; `regions`
   * records the order in which keys are first inserted, which is the order the dictionary iterates in.
   */
  method GroupByRegion(found: seq<DbRpcPingResult>) returns (regions: seq<string>, groups: map<string, seq<DbRpcPingResult>>)
    ensures regions == Regions(found) && groups == Grouping(found)
  {
    regions := [];
    groups := map[];
    var i := 0;
    while i < |found|
      invariant 0 <= i <= |found|
      invariant regions == Regions(found[..i])
      invariant groups == Grouping(found[..i])
    {
      var x := found[i];
      assert found[..i + 1] == found[..i] + [x];
      GroupingSnoc(found[..i], x);
      if x.fromRegion in groups {
        groups := groups[x.fromRegion := groups[x.fromRegion] + [x]];
      } else {
        regions := regions + [x.fromRegion];
        groups := groups[x.fromRegion := [x]];
      }
      i := i + 1;
    }
    assert found[..i] == found;
  }

  /** Replaces, key by key in insertion order, each list of the dictionary by its sorted copy. */
  method SortGroups(regions: seq<string>, groups: map<string, seq<DbRpcPingResult>>) returns (sorted: map<string, seq<DbRpcPingResult>>)
    requires forall i, j :: 0 <= i < j < |regions| ==> regions[i] != regions[j]
    requires forall j :: 0 <= j < |regions| ==> regions[j] in groups
    ensures sorted.Keys == groups.Keys
    ensures forall j :: 0 <= j < |regions| ==> sorted[regions[j]] == SortBy(groups[regions[j]], RecordAvg)
  {
    sorted := groups;
    var k := 0;
    while k < |regions|
      invariant 0 <= k <= |regions|
      invariant sorted.Keys == groups.Keys
      invariant forall j :: 0 <= j < |regions| ==>
                  sorted[regions[j]] == if j < k then SortBy(groups[regions[j]], RecordAvg) else groups[regions[j]]
    {
      forall j | 0 <= j < |regions| && j != k ensures regions[j] != regions[k] {
        if j < k {
          assert regions[j] != regions[k];
        } else {
          assert regions[k] != regions[j];
        }
      }
      sorted := sorted[regions[k] := SortBy(sorted[regions[k]], RecordAvg)];
      k := k + 1;
    }
  }

  /** `dict.items()`: the groups in key insertion order. */
  function Items(regions: seq<string>, groups: map<string, seq<DbRpcPingResult>>): (r: seq<RegionGroup>)
    requires forall j :: 0 <= j < |regions| ==> regions[j] in groups
    ensures |r| == |regions|
    ensures forall j :: 0 <= j < |regions| ==> r[j].region == regions[j] && r[j].results == groups[regions[j]]
  {
    seq(|regions|, j requires 0 <= j < |regions| => RegionGroup(regions[j], groups[regions[j]]))
  }

  /** Sorting every list of the filled dictionary and listing its items gives the report. */
  lemma ItemsReport(found: seq<DbRpcPingResult>, sorted: map<string, seq<DbRpcPingResult>>)
    requires forall j :: 0 <= j < |Regions(found)| ==> Regions(found)[j] in sorted
    requires forall j :: 0 <= j < |Regions(found)| ==>
               sorted[Regions(found)[j]] == SortBy(Grouping(found)[Regions(found)[j]], RecordAvg)
    ensures Items(Regions(found), sorted) == Report(found)
  {
    assert forall j :: 0 <= j < |Regions(found)| ==> Items(Regions(found), sorted)[j] == Report(found)[j];
  }

  /** The state of the sweep before position `i`: the kept tests, then the ones not yet visited. */
  function Swept(snapshot: seq<DbRpcPingTest>, i: nat, results: seq<DbRpcPingResult>): seq<DbRpcPingTest>
    requires i <= |snapshot|
  {
    Referenced(snapshot[..i], results) + snapshot[i..]
  }

  /** One step of the sweep: the test at `i` is deleted when no result refers to it, and kept otherwise. */
  lemma SweepStep(snapshot: seq<DbRpcPingTest>, i: nat, results: seq<DbRpcPingResult>)
    requires UniqueIds(snapshot) && i < |snapshot|
    ensures Count(results, snapshot[i].id) == 0 ==>
              Swept(snapshot, i + 1, results) == WithoutId(Swept(snapshot, i, results), snapshot[i].id)
    ensures Count(results, snapshot[i].id) > 0 ==> Swept(snapshot, i + 1, results) == Swept(snapshot, i, results)
  {
    ReferencedStep(snapshot, i, results);
    if Count(results, snapshot[i].id) == 0 {
      DeleteStep(snapshot, i, results);
    } else {
      KeepStep(snapshot, i, Referenced(snapshot[..i], results));
    }
  }

  lemma KeepStep(snapshot: seq<DbRpcPingTest>, i: nat, kept: seq<DbRpcPingTest>)
    requires i < |snapshot|
    ensures (kept + [snapshot[i]]) + snapshot[i + 1..] == kept + snapshot[i..]
  {
    assert snapshot[i..] == [snapshot[i]] + snapshot[i + 1..];
  }

  /** At the end of the sweep only the referenced tests remain, still with unique ids. */
  lemma SweepDone(snapshot: seq<DbRpcPingTest>, results: seq<DbRpcPingResult>)
    requires UniqueIds(snapshot)
    ensures Swept(snapshot, |snapshot|, results) == Referenced(snapshot, results)
    ensures UniqueIds(Referenced(snapshot, results))
  {
    assert snapshot[..|snapshot|] == snapshot;
    ReferencedUnique(snapshot, results);
  }

  /** The kept list grows by the test at `i` exactly when a result refers to it. */
  lemma ReferencedStep(snapshot: seq<DbRpcPingTest>, i: nat, results: seq<DbRpcPingResult>)
    requires i < |snapshot|
    ensures Referenced(snapshot[..i + 1], results)
            == Referenced(snapshot[..i], results) + (if Count(results, snapshot[i].id) == 0 then [] else [snapshot[i]])
  {
    assert snapshot[..i + 1][..i] == snapshot[..i];
  }

  /** With unique ids, no other test of the snapshot shares the id of the test at `i`. */
  lemma OthersDiffer(snapshot: seq<DbRpcPingTest>, i: nat, results: seq<DbRpcPingResult>)
    requires UniqueIds(snapshot) && i < |snapshot|
    ensures forall u :: u in Referenced(snapshot[..i], results) ==> u.id != snapshot[i].id
    ensures forall u :: u in snapshot[i + 1..] ==> u.id != snapshot[i].id
  {
    ReferencedMembers(snapshot[..i], results);
    forall u | u in snapshot[..i] ensures u.id != snapshot[i].id {
      var k :| 0 <= k < i && snapshot[k] == u;
    }
    forall u | u in snapshot[i + 1..] ensures u.id != snapshot[i].id {
      var k :| i + 1 <= k < |snapshot| && snapshot[k] == u;
    }
  }

  /** Deleting the first test of a list removes only it when no later test shares its id. */
  lemma DropFront(t: DbRpcPingTest, later: seq<DbRpcPingTest>)
    requires forall u :: u in later ==> u.id != t.id
    ensures WithoutId([t] + later, t.id) == later
  {
    assert ([t] + later)[0] == t && ([t] + later)[1..] == later;
    WithoutAbsentId(later, t.id);
  }

  /** Deleting the test at `i` removes it and touches no other test, since ids are unique. */
  lemma DeleteStep(snapshot: seq<DbRpcPingTest>, i: nat, results: seq<DbRpcPingResult>)
    requires UniqueIds(snapshot) && i < |snapshot|
    ensures WithoutId(Referenced(snapshot[..i], results) + snapshot[i..], snapshot[i].id)
            == Referenced(snapshot[..i], results) + snapshot[i + 1..]
  {
    var id := snapshot[i].id;
    var kept := Referenced(snapshot[..i], results);
    var later := snapshot[i + 1..];
    OthersDiffer(snapshot, i, results);
    assert snapshot[i..] == [snapshot[i]] + later;
    calc {
      WithoutId(kept + snapshot[i..], id);
      { WithoutIdConcat(kept, snapshot[i..], id); }
      WithoutId(kept, id) + WithoutId([snapshot[i]] + later, id);
      { WithoutAbsentId(kept, id); DropFront(snapshot[i], later); }
      kept + later;
    }
  }
}
