# suinfra-cli latency core, in Dafny

suinfra-cli pings Sui RPC endpoints from a region and reports or stores the latencies. This project models the sequential logic under its network, database and `trio` plumbing, and proves properties of it:

- **Models**: the record types of `suinfra_cli/models.py`, and the conversion of the fetched endpoint document into `RpcEndpoint` records (`fetch_rpc_endpoints`).
- **Percentiles**: `calculate_percentile`. The caller's list is sorted in place, on an `array<real>` with an insertion sort. Linear interpolation between closest ranks uses exact arithmetic.
- **Stats**: `statistics.mean`, the sample variance behind `statistics.stdev`, and `ceil(x * 1000)`. The standard deviation in milliseconds is computed exactly as the least natural number whose square reaches 10^6 times the variance.
- **Request**: the header map and the JSON-RPC 2.0 body that `make_rpc_request` posts.
- **Sampler**: `_ping_rpc_node` with `ping_once`. Each probe is given as its outcome: an HTTP status with the two clock readings, or an exception. Answered probes are turned into latencies, which are summarised into an `RpcPingResult`.
- **Store**: the MongoDB collections of tests and results, as a class with sequence fields in natural order. It carries `save`, `insert_many`, `delete`, the `cleanup` sweep and the per-region `tests` report.
- **Sorting**: Python's stable sort by an integer key (`list.sort` and `sorted` with `key=`).
- **PingCommand**: the `ping` command. It covers:
  - the argument guards;
  - endpoint conversion;
  - the `results.append` accumulator over the samplers that finish before the deadline;
  - the sort by average latency;
  - the database write.

## Model

| member | source | states |
|---|---|---|
| Models.OptionalString | suinfra_cli/models.py:14 | `provider_url` may be absent or null (None) or a string; any other JSON value fails validation |
| Models.ParseAuthHeader | suinfra_cli/models.py:7-9 | an auth header validates exactly when it is an object with string `key` and `value`, and it holds those two strings |
| Models.OptionalAuthHeader | suinfra_cli/models.py:16 | `auth_header` may be absent or null (None); otherwise it must validate as an auth header, which becomes the value |
| Models.ParseEndpoint | suinfra_cli/models.py:12-16 | an endpoint validates exactly when `name` and `rpc_url` are strings and both optional fields validate; the fields are copied, and absent or null optionals are None |
| Models.ParseEndpoints | suinfra_cli/utils.py:19 | the conversion succeeds exactly when every element validates; it then gives one endpoint per element, in order |
| Models.FetchedEndpoints | suinfra_cli/utils.py:19 | a JSON array converts element-wise; iterating any other document yields keys or characters, so only `{}` and `""` get through, as an empty list |
| Request.Headers | suinfra_cli/commands/rpc.py:36-42 | the two default headers, plus the auth header's key mapped to its value; a default is kept unless the auth key overwrites it |
| Request.ReadCall | suinfra_cli/commands/rpc.py:47-52 | definition of reading a body back as a JSON-RPC call, the partner of `ReadGasPriceCall`: a body read back as a call is a version 2.0 JSON-RPC object with an empty parameter list |
| Request.ReadGasPriceCall | suinfra_cli/commands/rpc.py:47-52 | the body reads back as a `suix_getReferenceGasPrice` call whose id is the nonce |
| Request.MakeRpcRequest | suinfra_cli/commands/rpc.py:36-53 | the post goes to the endpoint's `rpc_url` with that header map and the gas-price body |
| Stats.Min | suinfra_cli/commands/rpc.py:180-183 | reference definition, not computed by the source, used to bound the mean and the percentiles: the minimum is a member of the sample and below every member |
| Stats.Max | suinfra_cli/commands/rpc.py:180-183 | reference definition, not computed by the source, used to bound the mean and the percentiles: the maximum is a member of the sample and above every member |
| Stats.SumAtLeast | suinfra_cli/commands/rpc.py:180 | a sum of n values none below `lo` is at least n times `lo` |
| Stats.SumAtMost | suinfra_cli/commands/rpc.py:180 | a sum of n values none above `hi` is at most n times `hi` |
| Stats.SumPermutation | suinfra_cli/commands/rpc.py:180 | the sum does not depend on the order of the values |
| Stats.Mean | suinfra_cli/commands/rpc.py:180 | the mean of a non-empty sample lies between its minimum and its maximum |
| Stats.Variance | suinfra_cli/commands/rpc.py:184 | the sample variance of at least two values is non-negative |
| Stats.Ceil | suinfra_cli/commands/rpc.py:180-184 | `ceil(x)` is the integer in `[x, x + 1)` |
| Stats.CeilMonotone | suinfra_cli/commands/rpc.py:180-184 | `ceil` preserves order |
| Stats.CeilSqrt | suinfra_cli/commands/rpc.py:184 | the least natural number whose square reaches `x` |
| Stats.CeilMs | suinfra_cli/commands/rpc.py:180-183 | `ceil(seconds * 1000)` lies in `[seconds * 1000, seconds * 1000 + 1)` |
| Stats.StdevMs | suinfra_cli/commands/rpc.py:184 | `ceil(stdev * 1000)`: the least natural number whose square reaches `10^6` times the variance |
| Percentiles.SortedSeq | suinfra_cli/utils.py:29 | `data.sort()` gives an ascending permutation of the data of the same length |
| Percentiles.SortedUnique | suinfra_cli/utils.py:29 | two ascending permutations of the same values are equal, so the sorted list is determined by the multiset |
| Percentiles.InsertLast | suinfra_cli/utils.py:29 | one insertion step extends the sorted prefix by one position, keeps the array's values and leaves the positions after it untouched |
| Percentiles.SortInPlace | suinfra_cli/utils.py:29 | sorting the array in place leaves it ascending and a permutation of its old contents |
| Percentiles.Rank | suinfra_cli/utils.py:30-31 | `f = int((n - 1) * p / 100)` is a valid index for `0 <= p <= 100` |
| Percentiles.Fraction | suinfra_cli/utils.py:30-32 | the fractional part `c`, in hundredths, is below 100 |
| Percentiles.Percentile | suinfra_cli/utils.py:22-37 | None exactly for an empty list |
| Percentiles.CalculatePercentile | suinfra_cli/utils.py:22-37 | the caller's array ends up sorted and a permutation of its old contents, and the result is the percentile of the original data |
| Percentiles.SortedEnds | suinfra_cli/utils.py:29 | the sorted list starts with the minimum and ends with the maximum |
| Percentiles.RankAtEnds | suinfra_cli/utils.py:30-31 | p = 0 gives rank 0; p = 100 gives the last index with no fraction |
| Percentiles.LerpBounds | suinfra_cli/utils.py:34-35 | interpolating between `lo <= hi` stays within `[lo, hi]` |
| Percentiles.LerpMonotone | suinfra_cli/utils.py:34-35 | the interpolated value grows with the fraction |
| Percentiles.LerpSpecial | suinfra_cli/utils.py:34-35 | fraction 0 gives `lo`, and fraction one half gives the midpoint |
| Percentiles.InterpolateBracket | suinfra_cli/utils.py:30-37 | on sorted data the result lies between the values at rank `f` and at `f + 1`, or is `data[f]` at the end |
| Percentiles.PercentileAtZero | suinfra_cli/utils.py:30-37 | p = 0 gives the minimum |
| Percentiles.PercentileAtHundred | suinfra_cli/utils.py:30-37 | p = 100 gives the maximum |
| Percentiles.PercentileOfSingleton | suinfra_cli/utils.py:30-37 | a one-element list gives that element for every p |
| Percentiles.PercentileWithinRange | suinfra_cli/utils.py:29-37 | every percentile lies between the minimum and the maximum |
| Percentiles.RankMonotone | suinfra_cli/utils.py:30-32 | the rank, and the fraction at an equal rank, grow with p |
| Percentiles.InterpolateMonotone | suinfra_cli/utils.py:30-37 | on sorted data the result never decreases as p grows |
| Percentiles.PercentileMonotone | suinfra_cli/utils.py:29-37 | for fixed data the percentile never decreases as p grows |
| Percentiles.PercentileDependsOnMultiset | suinfra_cli/utils.py:29-37 | reordering the data does not change any percentile |
| Percentiles.PercentileOfArrangement | suinfra_cli/utils.py:29-37 | the percentile is the interpolation on any ascending arrangement of the data |
| Percentiles.PercentileMedian | suinfra_cli/utils.py:30-37 | p = 50 gives the middle value of an odd-length list, and the mean of the two middle values of an even-length one |
| Percentiles.PercentileDeciles | suinfra_cli/utils.py:30-37 | on 10, 20, ..., 100 the 10th, 50th and 90th percentiles are 19, 55 and 91 |
| Sampler.Latencies | suinfra_cli/commands/rpc.py:151-164 | every probe answered with status 200 contributes its latency, and nothing else contributes |
| Sampler.AnsweredAt | suinfra_cli/commands/rpc.py:157 | the positions of the probes answered with status 200, in increasing order, and all of them |
| Sampler.LatenciesInOrder | suinfra_cli/commands/rpc.py:151-174 | the list holds one latency per answered probe, in probe order, so equal latencies are kept once per probe |
| Sampler.NoLatencies | suinfra_cli/commands/rpc.py:151-164 | no latency is collected exactly when no probe was answered with status 200 |
| Sampler.CollectLatencies | suinfra_cli/commands/rpc.py:149-174 | with the `iterations` probes of the nursery as the batch, the accumulator holds the latencies of the priming probe and then of the batch, so at most iterations + 1 values |
| Sampler.Summarize | suinfra_cli/commands/rpc.py:176-187 | no result without latencies; the stdev error with exactly one; otherwise a result with the endpoint's name and url and the configured region |
| Sampler.SummaryBounds | suinfra_cli/commands/rpc.py:180-183 | avg, p10, p50 and p90 all lie between the rounded minimum and maximum, and p10 <= p50 <= p90 |
| Sampler.SummarizeOrderFree | suinfra_cli/commands/rpc.py:176-187 | the summary depends only on which latencies were collected, not on the order the probes completed in |
| Sampler.PingRpcNode | suinfra_cli/commands/rpc.py:139-189 | the sampler's outcome is the summary of the latencies of its priming probe and its batch of `iterations` probes |
| Sampler.CeilSqrtUnique | suinfra_cli/commands/rpc.py:184 | the rounded square root is the one natural number whose square reaches `x` while its predecessor's does not |
| Sampler.TwoProbes | suinfra_cli/commands/rpc.py:176-187 | latencies of 100 ms and 200 ms give avg 150, p10 110, p50 150, p90 190 and stdev 71 |
| Sorting.InsertBySorted | suinfra_cli/commands/rpc.py:229 | inserting into a list sorted by key keeps it sorted and adds exactly the element |
| Sorting.InsertByStable | suinfra_cli/commands/rpc.py:229 | an inserted element lands ahead of the elements with its key |
| Sorting.SortBySorted | suinfra_cli/commands/rpc.py:229 | sorting by key gives an ascending permutation of the input |
| Sorting.SortByStable | suinfra_cli/commands/rpc.py:229 | elements with equal keys keep their relative order |
| Store.Lookup | suinfra_cli/commands/rpc.py:245 | `get` finds a stored test with the id, and finds none exactly when no stored test has it |
| Store.LookupAt | suinfra_cli/commands/rpc.py:245 | with unique ids, `get` of a stored test's id returns that test |
| Store.WithoutIdMembers | suinfra_cli/commands/rpc.py:103 | deleting removes exactly the tests with that id |
| Store.UpsertNew | suinfra_cli/commands/rpc.py:253 | saving a test with a new id appends it |
| Store.UpsertExisting | suinfra_cli/commands/rpc.py:253 | saving a test with a stored id replaces that test in place |
| Store.UpsertFinds | suinfra_cli/commands/rpc.py:253 | after saving, `get` of the id returns the saved test |
| Store.UpsertKeepsOthers | suinfra_cli/commands/rpc.py:253 | saving does not change what `get` returns for any other id |
| Store.UpsertUnique | suinfra_cli/commands/rpc.py:253 | saving keeps ids unique |
| Store.ResultsFor | suinfra_cli/commands/rpc.py:287 | the query returns exactly the stored results of the test |
| Store.CountSpec | suinfra_cli/commands/rpc.py:98-100 | the count is the number of results the query returns, and it is zero exactly when no result refers to the test |
| Store.ReferencedMembers | suinfra_cli/commands/rpc.py:95-103 | the sweep keeps exactly the tests with at least one result |
| Store.ReferencedUnique | suinfra_cli/commands/rpc.py:95-103 | the kept tests still have unique ids |
| Store.SweepStep | suinfra_cli/commands/rpc.py:97-103 | one step deletes the visited test exactly when its count is zero, and changes nothing else |
| Store.ResultStore.Save | suinfra_cli/commands/rpc.py:249-253 | the tests become the upsert of the test, ids stay unique, and `get` finds the saved test |
| Store.ResultStore.InsertMany | suinfra_cli/commands/rpc.py:270 | the records are appended in order, the tests are unchanged and their ids stay unique |
| Store.ResultStore.Delete | suinfra_cli/commands/rpc.py:103 | the test with the id is removed, the results are unchanged and ids stay unique |
| Store.WithoutIdUnique | suinfra_cli/commands/rpc.py:103 | deleting keeps test ids unique |
| Store.ResultStore.Cleanup | suinfra_cli/commands/rpc.py:95-103 | the remaining tests are exactly the referenced ones, in stored order; results are unchanged and ids stay unique |
| Store.ResultStore.Tests | suinfra_cli/commands/rpc.py:286-297 | an AttributeError exactly when no test is stored; otherwise the per-region report of the first test's results |
| Store.GroupByRegion | suinfra_cli/commands/rpc.py:289-292 | filling the `defaultdict` gives, for each region in first-seen order, the results from it in their order |
| Store.GroupingSnoc | suinfra_cli/commands/rpc.py:291-292 | appending a result grows its region's list, or starts a new one for a new region |
| Store.FromRegionMembers | suinfra_cli/commands/rpc.py:291-292 | a region's list holds exactly the results from that region |
| Store.RegionsSpec | suinfra_cli/commands/rpc.py:289-292 | the dictionary's keys are exactly the regions of the results, none repeated |
| Store.SortGroups | suinfra_cli/commands/rpc.py:294-295 | every list is replaced by its sorted copy, and no key is added or removed |
| Store.Items | suinfra_cli/commands/rpc.py:297 | definition, tied to `Report` by `ItemsReport`: `items()` lists each key with its list, in key order |
| Store.ItemsReport | suinfra_cli/commands/rpc.py:289-297 | grouping, sorting and listing the items yields the report |
| Store.Report | suinfra_cli/commands/rpc.py:289-297 | definition, with its properties proved in `ReportGroupOrdered`, `ReportCovers` and `ReportSound`: one group per region in first-seen order, holding that region's results sorted by average latency |
| Store.ReportGroupOrdered | suinfra_cli/commands/rpc.py:294-295 | each group is ascending by average latency, stable, and a permutation of its region's results |
| Store.ReportCovers | suinfra_cli/commands/rpc.py:289-292 | every result appears in the group of its own region |
| Store.ReportSound | suinfra_cli/commands/rpc.py:289-292 | a group holds only stored results of its region, and no region has two groups |
| PingCommand.Guard | suinfra_cli/commands/rpc.py:191-195 | exit when iterations < 2; otherwise exit when writing without a non-empty `DB_URL`; otherwise go on |
| PingCommand.Outcomes | suinfra_cli/commands/rpc.py:206-222 | definition, with its properties proved through `Gathered`: one sampler outcome per finished run, in completion order |
| PingCommand.AppendedFails | suinfra_cli/commands/rpc.py:206-222 | the run fails exactly when some sampler raised |
| PingCommand.ProducedAt | suinfra_cli/commands/rpc.py:176-187 | the positions of the samplers that produced a result, in completion order, and all of them |
| PingCommand.AppendedResults | suinfra_cli/commands/rpc.py:187 | the shared list has one entry per producing sampler, and its k-th entry is the result of the k-th of them in completion order |
| PingCommand.AppendedErrPersists | suinfra_cli/commands/rpc.py:206-222 | after a sampler raises, later samplers do not change the outcome |
| PingCommand.GatheredFails | suinfra_cli/commands/rpc.py:184 | the run fails exactly when some finished sampler collected a single latency |
| PingCommand.GatheredResults | suinfra_cli/commands/rpc.py:176-187 | the gathered list has one entry per sampler that produced a result, in completion order, each that sampler's summary; every result is from the configured region, and every sampler with latencies contributes one |
| PingCommand.Gather | suinfra_cli/commands/rpc.py:204-222 | the `results.append` accumulator computes the gathered results |
| PingCommand.CollectedSorted | suinfra_cli/commands/rpc.py:229 | the results are ascending by average latency, a permutation of what was gathered, and stable for equal averages |
| PingCommand.Decimal | suinfra_cli/commands/rpc.py:257 | `str` of a natural number: at least one decimal digit, with no leading zero |
| PingCommand.DecimalValue | suinfra_cli/commands/rpc.py:257 | reading the digits back gives the number |
| PingCommand.RecordIdsDistinct | suinfra_cli/commands/rpc.py:257 | within one region and timestamp, different endpoint names give different record ids |
| PingCommand.RecordIdTimestamps | suinfra_cli/commands/rpc.py:257 | the same endpoint and region at different timestamps give different record ids |
| PingCommand.StoredToRecord | suinfra_cli/commands/rpc.py:256-267 | a record keeps every field of its result, with id `name::region::timestamp` and the test id |
| PingCommand.ToRecords | suinfra_cli/commands/rpc.py:255-269 | one record per result, in order, each holding its result's fields, its id and the test id |
| PingCommand.RecordsReferenceTest | suinfra_cli/commands/rpc.py:255-270 | every written record refers to the test |
| PingCommand.CountConcat | suinfra_cli/commands/rpc.py:270 | appending records adds their count to the test's count |
| PingCommand.RecordsAsWritten | suinfra_cli/commands/rpc.py:255-269 | the comprehension as written: no records for no results |
| PingCommand.AsWrittenWithoutTestId | suinfra_cli/commands/rpc.py:266 | without `--test-id`, the records cannot be built: `uuid.UUID(None)` raises TypeError |
| PingCommand.AsWrittenWithTestId | suinfra_cli/commands/rpc.py:243-266 | with a `--test-id` that names a stored test, the written code builds the same records as the corrected one |
| PingCommand.WriteAsWritten | suinfra_cli/commands/rpc.py:243-270 | the write as written: with `--test-id` the tests are unchanged, without it the fresh test is saved; records are inserted only when the as-written list builds, and without `--test-id` the run ends in TypeError with no result inserted |
| PingCommand.OrphanedTest | suinfra_cli/commands/rpc.py:95-103 | the fresh test saved by the as-written write is stored but referenced by no result, so the next cleanup deletes it |
| PingCommand.Ping | suinfra_cli/commands/rpc.py:191-272 | guards, then endpoint or statistics failures, each leaving the store unchanged; then the sorted results; when writing, the records go to the looked-up or newly saved test |
| PingCommand.WrittenTestIsReferenced | suinfra_cli/commands/rpc.py:249-270 | after a write, the test has a result for every written record, so a later cleanup keeps it |

## Left out

- Floating point: latencies, means and percentiles are exact reals. `int(k)` on the exact rank `(n - 1) * p / 100` is the floor. A float rank such as `100 * 0.29` (28.999…) can differ from this.
- Percentiles.Percentile: requires `0 <= p <= 100`. For a negative `p`, `int` truncates toward zero: the result extrapolates below the smallest value, or, once the index is negative, reads from the end of the list (Python's negative indices), and raises IndexError only when the index is below `-n`. For `p > 100` (and n > 1) there is no upper neighbour: the source returns the maximum when `int((n - 1) * p / 100) < n` and raises IndexError otherwise. Two values with p = 150 give the second value, and a one-element list gives its element for every `p`. Callers only pass 10, 50 and 90.
- Percentiles.CalculatePercentile: requires `0 <= p <= 100`, as `Percentile` does.
- `statistics.stdev`: the square root is not computed. `ceil(sqrt(v) * 1000)` is characterised exactly, as the least natural number whose square reaches `v * 10^6`.
- HTTP: `make_rpc_request` is modelled up to the request it posts. The response is a given probe outcome (a status with the two clock readings, or an exception). The non-200 path of `make_rpc_request` prints `r.json()`; if that raises, `ping_once` catches it, which is the same as an exception outcome. The `httpx` client timeouts are not modelled.
- Clock and randomness:
  - `trio.current_time`, `time.time()` and `uuid.uuid4()` are inputs: the probe readings, the timestamp (a natural number) and `freshId`.
  - The nonce seeded from the clock is an input to `MakeRpcRequest`. Its 8-bit range is not enforced.
- Concurrency:
  - The `trio` nurseries, the staggered `trio.sleep` starts and the `move_on_after` deadline are abstracted. The samplers that finished before the deadline are given in completion order.
  - A sampler cut off by the deadline appends nothing.
  - One sampler raising the stdev error ends the whole run. This holds whichever samplers finish before or after it.
- `uuid.UUID(test_id)` parsing is the input function `parseUuid`. A UUID is its 128-bit integer value.
- MongoDB:
  - The collections are sequences in natural (insertion) order, and `find().first_or_none()` is the first stored test.
  - `insert_many` appends. Its duplicate-`_id` failure is not modelled; PingCommand.RecordIdsDistinct states when the ids of one run are distinct.
  - Connection set-up (`MongoClient`, `init_bunnet`) is not modelled.
  - Concurrent writers are not modelled.
- `results.sort(...)` in `ping` is modelled on values, by a stable sort of the list. The list is local to `ping`, so sorting it in place cannot be observed elsewhere.
- Printing: every `print`, including the report of `tests`, is left out. `tests` returns the report it would print.
- The remaining options:
  - `sleep` and `timeout` of `ping` only shape the timing, which is an input.
  - `rpcs_json_url` is replaced by the fetched document.
  - `REGION` and `DB_URL` are parameters.
- JSON numbers are reals. String fields accept only JSON strings, since pydantic does not coerce other values to `str`.
- `TxResult` is declared but used by no modelled operation.
- suinfra_cli/commands/benchmark.py, suinfra_cli/main.py, suinfra_cli/__init__.py, `load_rpc_urls` and the `fetch` command's printing are not part of this model.

## Findings

| source | as written | input that shows it | evidently intended | confidence | as-written member | corrected member |
|---|---|---|---|---|---|---|
| suinfra_cli/commands/rpc.py:266 | every record's `test_id` is `uuid.UUID(test_id)` of the `--test-id` option | `ping --write-to-db` with no `--test-id` and at least one result: a new test is saved (line 253), then `uuid.UUID(None)` raises TypeError, so no result is written and the saved test has none | `test_id=rpc_ping_test.id`, the test that was looked up or just saved | high, not executed | PingCommand.WriteAsWritten | PingCommand.Ping |
