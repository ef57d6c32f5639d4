# A verified model of the GoLens metrics engine

GoLens collects metrics inside a Go program. Producers put samples into a bounded queue; one loop goroutine takes them
out, sanitises their labels, asks a cardinality guard, records them into a capped table of metrics and rolls them up
into tumbling windows, which go to a bounded in-memory store. Around this sit per-endpoint latency histograms with
percentile estimates, an OTLP projection of the snapshots, and an alerter that fires rules under a cooldown.

This project models these parts in Dafny and proves what they promise over whole runs.

## How it is built

Each stateful part comes twice. A *value level* defines the abstract state and one function per operation; the theorems
are about sequences of such steps (`After`), so they speak of every reachable state. A *class* with the fields and the
loops of the Go code then has methods whose postconditions equate the new abstract state with the step function of the
old one: `Registry` with the steps of `Worlds` that `Pipeline` strings together, `Alerter` with the steps of `AlertRuns`,
and so on down to a single histogram. Theorems about runs of these carry over to the objects, whose calls are atomic. The
two race models (`RegistrationRace`, `HistogramRace`) split calls into their atomic parts and are state machines only;
the lifecycle of the loop (start, final flush, close) is a part of `Pipeline` that `Registry` has no field for, its flush
being the object's `Flush`.

- `Text`, `Labels`, `Fingerprints`, `Cardinality`, `SeriesRuns`: path normalisation, label sanitising, fingerprints, the
  cardinality guard, and its verdicts on the samples of one series.
- `Ranks`, `Latency`, `Percentiles`, `EndpointRuns`: histograms of samples, order statistics, the endpoint tracker,
  percentile estimates.
- `Metrics`, `Histograms`, `Otlp`, `HistogramRace`: metric payloads, what they say about the samples recorded, their
  export, and `Record` as three atomic additions of many interleaved recorders.
- `Tables`, `MetricTables`, `RegistrationRace`: the metric table with eviction, as atomic calls and with `Register`
  split into its two locked halves.
- `Storage`, `Aggregation`: windows and the in-memory store.
- `Worlds`, `Registries`, `Pipeline`, `Admission`, `PipelineTheorems`, `WindowBuckets`: the registry as one state machine
  with a history of samples, windows and evictions, and the end-to-end results.
- `LiveRuns`, `ShownRuns`, `ExportRuns`, `HistoryRuns`: what snapshots, exports and histories show along a run, in terms
  of the samples, labels and times that went in.
- `AlertStores`, `Alerts`, `AlertRuns`, `AlertMeaning`: rules, the alert log, evaluation passes and the schedule of firings.

`float64` is modelled by `real`, times and durations by integers, Go strings by sequences of characters that stand for
bytes, random rule IDs and map iteration orders by parameters or ghost results.

## What the model shows about the code

- The documentation and a comment in `registry.go` speak of LRU eviction. The code evicts the earliest-inserted metric
  that is idle past the TTL, and otherwise the head of the insertion order. It evicts a least recently recorded metric,
  whatever the time and the TTL, exactly if the head is least recent, and recorded unless nothing is
  (`EvictionIsLeastRecentIff`); a new registry whose request counter is recorded last drops just that one for a fourth
  name (`EvictionIsNotLeastRecentlyUsed`).
- `Register` looks a name up and inserts it under different locks. The table stays consistent along a run exactly if no
  insert finds its name present after all (`ConsistentIffNoRepeat`), and within its cap exactly if no step drops a stale
  list entry from a full table for a new name (`CapKeptIff`); four live metrics under a cap of three are reached
  (`CapExceeded`). `RaceBounds` limits the damage by the number of repeats R. A repeat is counted only if the name is
  still there after room was made, so the bound is sharper than one that counts presence when the lock is taken.
- The sum of a histogram's bucket counts is its sample count for all samples exactly if no bound is zero and no bound
  that a sample can reach is repeated (`TotalMatchesIff`). Zero is the key of the overflow counter.
- Even then a snapshot taken while samples are recorded can show a bucket total other than its count (`TornWitness`). The
  total lies between the calls finished at the first load and those finished at the last (`TornSnapshot`); it is the
  loaded count, however the loads fall, exactly if no call is in flight at the first load and none finishes before the
  last (`NeverTornIff`).
- `SanitizeLabelValue` is idempotent unless a normalised path is cut to a length that leaves it ending in a slash or in
  a piece that looks like an id; in that case, never (`SanitizeIdempotentIff`, `SanitizeNotIdempotent`).
- Label fingerprints tell all label lists over two alphabets apart exactly if names have no `=` and values no NUL, or
  values have no `=` and names no NUL (`FingerprintInjectiveIff`).
- The store drops stale windows only from its head, so one behind a fresh window survives (`StaleBucketCanSurvive`). A
  Store leaves no stale bucket behind, whatever the clock and the TTL, exactly if the buckets are in the order of their
  ends (`StoreLeavesNoStaleIff`), which a clock that does not go back ensures (`NoStaleWindowKept`).
- The bucket counts stored with a roll-up window are not those of its own samples. They are the metric's counters at its
  last sample, so for a histogram never evicted they add up to the counts of this window and all earlier ones together
  (`WindowBucketsAreCumulative`).
- `newAlerter` enables configured rules and gives them the default cooldown, but `New` then loads the stored copies over
  them, so a rule keeps the flags it was configured with (`DefaultsOverwritten`). A rule configured without an ID makes
  cache and store disagree from the start (`InitialAgreeIff`), and only that does (`AlwaysAgreeIff`).

## Model

| member | source | states |
|---|---|---|
| PipelineTheorems.Conservation | registry.go:226-336 | in every reachable state, accepted samples are those taken followed by those queued, applied are the taken ones that the guard lets pass, the numbers of accepted, queued, refused and applied samples add up, the queue stays within its size, the guard's own drop counter is the number of refused samples, and per metric the applied samples equal stored windows plus the open window, in number and in sum |
| PipelineTheorems.RecordedIfRoom | registry.go:226-234 | a recorded sample is queued if and only if there is room, and otherwise leaves no trace |
| PipelineTheorems.AppliedAreThePassed | registry.go:226-336 | in every reachable state, the samples applied are, in order, those the guard lets pass among the accepted ones no longer queued, and refused are all the others |
| Admission.RunAdmission | registry.go:305-315 | guard, refusals and applications follow from the sequence of samples taken off the queue alone |
| PipelineTheorems.NothingLeftBehind | registry.go:354-363 | after the final flush no window is open, the samples of a metric's stored windows put together are exactly the accepted ones that passed the guard, in order, and only queued samples are unaccounted for |
| PipelineTheorems.WindowsOnlyWhileRunning | registry.go:239-302 | before the loop is started and after its final flush no window is open |
| PipelineTheorems.EarlyCloseStoresNothing | registry.go:368-376 | closing a registry that was never started changes nothing, and it can still be started |
| PipelineTheorems.LiveCounterAgreesWithHistory | metric.go:110-117 | a counter never evicted shows the sum of all its stored and open windows up to a millionth per sample, exactly for samples in whole millionths |
| PipelineTheorems.LiveHistogramAgreesWithHistory | metric.go:118-139 | a histogram never evicted shows one count per sample of its stored and open windows, and their sum up to a millionth per sample |
| PipelineTheorems.StorageHoldsRecentWindows | storage_memory.go:23-39 | along every run storage holds the most recent windows ever closed, at most its capacity |
| PipelineTheorems.StoredBucketAverages | aggregator.go:83-92 | every stored window of every run is nonempty and its average lies between its minimum and its maximum |
| PipelineTheorems.HistoryPointsBetween | registry.go:448-487 | every point of every metric's history has Min <= V <= Max |
| HistoryRuns.HistoryShows | registry.go:448-487 | along every run a history has one point for each window still stored, of that metric and overlapping the given times, in the order of storing, with the mean, minimum and maximum of that window's own samples |
| HistoryRuns.HistoryBounds | registry.go:460-466 | a history with points is reported with the bounds of the live histogram of that name, if there is one |
| HistoryRuns.StoredStarts | aggregator.go:31-37 | every window stored along a run starts when its first sample was processed |
| HistoryRuns.OpenStart | aggregator.go:31-37 | so does every open window |
| PipelineTheorems.SeriesCappedAlongRun | registry.go:305-315 | along every run the guard's accepted set of a metric is the first distinct fingerprints that labelled samples offered, never more than the cap |
| PipelineTheorems.WindowsInOrder | aggregator.go:59-99 | with a clock that does not go back, windows reach storage in the order of their ends |
| PipelineTheorems.NoStaleWindowKept | storage_memory.go:23-39 | with such a clock, after the last window was stored no bucket is older than the retention time |
| PipelineTheorems.StoredTotals | aggregator.go:59-99 | counts and sums of a metric's stored windows add up to the number and the sum of the samples in them |
| Pipeline.RunQueueInv | registry.go:226-315 | the queue is the unprocessed end of the accepted samples, and the guard is in the state reached by the fingerprints offered so far |
| Pipeline.RunWindowInv | aggregator.go:31-99 | every stored and every open window summarises its own run of samples, and those runs in order are the samples applied |
| Pipeline.RunTableInv | registry.go:168-222 | along every run of atomic calls the order lists exactly the live metrics, each once, within the capacity |
| Pipeline.RunLiveInv | metric.go:110-139 | along every run each live metric reflects the samples since it was created, which are the latest under its name, and all of them if it was never evicted |
| Pipeline.RunStoreInv | aggregator.go:59-99 | the buckets are what the Store calls of the run, one by one, leave behind |
| WindowBuckets.WindowBucketsAreCumulative | aggregator.go:48-92 | the bucket counts stored with a window of a histogram never evicted add up to the counts of this and all earlier windows of the metric |
| WindowBuckets.RunStored | aggregator.go:48-92 | along every run the stored windows of a metric never evicted carry its counters for exactly the samples of this and all earlier windows |
| WindowBuckets.RunOpen | aggregator.go:48-55 | along every run the open window of a metric never evicted holds the metric's current bucket counters |
| Registries.Registry.constructor | registry.go:151-154 | a new registry is empty but for the three request metrics |
| Registries.Registry.Register | registry.go:168-186 | the table changes as one registration step prescribes; queue, guard, windows and storage stay |
| Registries.Registry.Record | registry.go:226-234 | the sample joins the queue if there is room, otherwise nothing changes |
| Registries.Registry.Process | registry.go:305-336 | the whole state after one sample: guard, table, metric and window change as the step function says, or only the guard if it refuses |
| Registries.Registry.Take | registry.go:305-315 | one sample leaves the queue, with its labels sanitised and the guard asked only about labelled samples |
| Registries.Registry.Apply | registry.go:317-331 | the metric is found or created, the sample recorded and then added to its window, nothing else changes |
| Registries.Registry.Flush | aggregator.go:59-99 | every open window is closed and stored exactly once, in the order of the map range |
| Registries.Registry.Snapshots | registry.go:406-416 | one row per live metric of the order |
| Registries.Registry.History | registry.go:448-487 | the history series is the in-order projection of the matching buckets, with the live histogram's bounds |
| Tables.RegisteredInv | registry.go:168-186 | one-step registration keeps the order a duplicate-free listing of the live metrics, within max(3, MaxMetrics), and the name is live afterwards |
| Tables.InitialInv | registry.go:151-165 | the three request metrics are listed once each, in registration order |
| Tables.EvictedInv | registry.go:189-213 | eviction removes exactly the victim, from table and order, and leaves both in agreement |
| Tables.EvictionTakesFirstIdle | registry.go:189-213 | the earliest-listed live metric recorded, but longer ago than the TTL, goes; everything else stays in its order |
| Tables.EvictionTakesHead | registry.go:189-213 | if there is no such metric, the head of the order goes |
| Tables.RegistrationEffect | registry.go:168-186 | a known name changes nothing; a new one is listed last, after an eviction if and only if the cap is reached |
| Tables.InitialMetrics | registry.go:151-154 | two counters and a histogram with the default bounds are there from the start |
| Tables.WithoutIs | registry.go:215-222 | removing one position of a duplicate-free list removes one element and no other |
| Tables.SnapshotsListEachOnce | registry.go:406-416 | snapshots list each live metric exactly once, in insertion order |
| Tables.EvictionIsLeastRecentIff | registry.go:189-213 | a table loses a least recently recorded metric, whatever the time and the TTL, if and only if its head is least recent, and recorded unless nothing is |
| Tables.EvictionIsNotLeastRecentlyUsed | registry.go:176-213 | in a new registry whose three metrics have been recorded, a fourth name drops the one recorded last |
| MetricTables.MetricTable.MustRegister | registry.go:159-165 | the metric is appended without a look at the cap |
| MetricTables.MetricTable.Register | registry.go:168-186 | an existing metric is returned unchanged, a new one filed after room was made |
| MetricTables.MetricTable.Insert | registry.go:176-184 | the write-locked half: room is made, the metric filed under its name and listed last |
| MetricTables.MetricTable.EvictLocked | registry.go:189-213 | the scan with early return evicts exactly the specified victim |
| MetricTables.MetricTable.RemoveFromOrder | registry.go:215-222 | the first occurrence of the name goes, everything else keeps its order |
| MetricTables.MetricTable.Ensure | registry.go:317-327 | an unknown sample name becomes a counter, under the same eviction rule |
| MetricTables.MetricTable.Sample | registry.go:329-330 | recording changes this metric and no other |
| MetricTables.MetricTable.Snapshots | registry.go:406-416 | the loop yields the rows of the live metrics in insertion order |
| MetricTables.NoEarlierOccurrence | registry.go:196-206 | the first idle position is the first occurrence of its name, so removal by name removes it |
| RegistrationRace.RunInv | registry.go:168-213 | with Register split at its locks and interleaved freely, every live name is listed, list surplus = repeats - stale drops, and the list exceeds the capacity by at most the repeats |
| RegistrationRace.RaceBounds | registry.go:152-213 | in every reachable state of the race, metrics <= order <= max(3, MaxMetrics) + R, and metrics exceed the cap by at most the stale drops, which are at most R |
| RegistrationRace.StepInv | registry.go:168-213 | each half of Register, each ingest and each recording keeps that invariant |
| RegistrationRace.NoRepeatNoDamage | registry.go:168-186 | while no insert has been repeated, the strong one-step invariant holds in the race too |
| RegistrationRace.ConsistentIffNoRepeat | registry.go:168-186 | in the race, the one-step invariant holds all along a run if and only if no insert of the run found its name present |
| RegistrationRace.CapKeptIff | registry.go:168-213 | in the race, live metrics stay within the capacity all along a run if and only if no step drops a stale list entry from a full table for a name that is not live |
| RegistrationRace.IngestNeverRepeats | registry.go:317-327 | lookup and insert under one lock never repeat a name |
| RegistrationRace.CapExceeded | registry.go:168-213 | a run that leaves four live metrics under a cap of three |
| Percentiles.QuantileFaithful | endpoint_latency.go:38-83 | for non-negative samples, 0 < p <= 1 and rank p*n the estimate lies in the bucket of the true order statistic, so it is off by at most the bucket's width; beyond the last bound it is the last bound |
| Percentiles.PercentileStandsAt | endpoint_latency.go:60-83 | for 0 < p <= 1 the estimate is exactly as far along its bucket as the rank p*n is along the samples in that bucket, counted on the samples; beyond the last bound it is the last bound |
| Percentiles.PercentileAtZero | endpoint_latency.go:60-83 | at p = 0 it is zero, or the first bound if no sample is at most that; without samples it is zero |
| Percentiles.CrossingHoldsOrderStatistic | endpoint_latency.go:60-83 | the bucket where the walk stops holds the ceil(p*n)-th smallest sample |
| Percentiles.PercentileMonotone | endpoint_latency.go:60-83 | for all consistent counts and 0 <= p <= q <= 1, 0 <= percentile(p) <= percentile(q) <= last bound |
| Percentiles.SummaryOrdered | endpoint_latency.go:97-120 | every endpoint summary has P50 <= P95 <= P99 |
| Percentiles.SummaryShows | endpoint_latency.go:97-120 | a summary shows the number and the mean of the endpoint's samples and their 50th, 95th and 99th percentile |
| Percentiles.EmptyBucketOnlyAtZero | endpoint_latency.go:66-72 | the branch for an empty bucket is taken if and only if p = 0 and the first bucket is empty |
| Percentiles.TallyConsistent | endpoint_latency.go:38-56 | the counters of any samples are non-negative and add up to the total |
| Percentiles.QuantileInBucket | endpoint_latency.go:60-83 | a positive target yields a value strictly inside its nonempty bucket, or the last bound |
| Ranks.PrefixIsRank | endpoint_latency.go:60-67 | the sum of the first k+1 counters is the number of samples at most bound k |
| Ranks.TallyTotal | endpoint_latency.go:38-56 | every sample is in exactly one bucket, so the counters add up to the number of samples |
| Ranks.OrderStatisticRank | endpoint_latency.go:60-83 | the k-th smallest sample is at most b if and only if at least k samples are |
| Latency.EndpointBoundsAreGood | endpoint_latency.go:10 | the built-in bounds are positive and strictly increasing |
| Latency.SearchReals | endpoint_latency.go:50-52 | binary search returns the first bound not below the sample |
| Latency.LatencySeries.Add | endpoint_latency.go:50-55 | counters, total and sum remain those of the samples observed |
| Latency.LatencySeries.Percentile | endpoint_latency.go:60-83 | the loop computes the specified estimate of the counters |
| Latency.EndpointTracker.constructor | endpoint_latency.go:30-35 | an empty tracker with its cap, 128 if none is given |
| Latency.EndpointTracker.Observe | endpoint_latency.go:38-56 | exactly the series of the normalised endpoint grows by the sample; a new endpoint enters only below the cap |
| EndpointRuns.TrackedAreFirstEndpoints | endpoint_latency.go:38-56 | after any requests the tracked endpoints are the first max distinct ones, each with the durations of all of its requests, in order |
| EndpointRuns.SameEndpointIff | endpoint_latency.go:38-40 | two requests share a series if and only if their methods agree and their paths do segment by segment, ids aside |
| Latency.EndpointTracker.Snapshots | endpoint_latency.go:97-120 | one summary per tracked endpoint, computed from its samples |
| Metrics.Metric.constructor | metric.go:83-106 | a new metric with zero counters, default bounds for a histogram without any |
| Metrics.Metric.Record | metric.go:110-139 | the payload after one sample: counter added to, gauge replaced, histogram counted in the first admitting bucket |
| Metrics.Metric.Place | metric.go:122-137 | exactly one counter grows by one: the first bound that admits the sample, else overflow |
| Metrics.Metric.Snapshot | metric.go:153-181 | the point-in-time view of the payload |
| Metrics.Metric.HistogramBuckets | metric.go:183-196 | one bucket per bound in order, the overflow bucket last |
| Metrics.FirstBound | metric.go:122-131 | the position found admits the sample and no earlier one does |
| Histograms.RecordedReflects | metric.go:110-139 | recording one more sample keeps the payload the exact image of all samples recorded |
| Histograms.CreatedBounds | metric.go:83-106 | a histogram has the bounds it was registered with, the default ones if it came without, and other kinds have none |
| Histograms.BucketsExact | metric.go:92-139 | for increasing bounds without zero, bucket i counts exactly the samples in (b[i-1], b[i]] and overflow the rest |
| Histograms.TotalMatchesIff | metric.go:118-139 | the bucket counts add up to the sample count for all samples if and only if no bound is zero and no reachable bound is repeated |
| Histograms.OneSampleCountedTwice | metric.go:183-196 | with any other bounds some single sample is reported at least twice |
| Histograms.ReportedTotalIs | metric.go:183-196 | the total these two speak of is the sum of the snapshot's bucket counts |
| Histograms.TruncationError | metric.go:80-117 | fixed point moves a sample towards zero by less than a millionth, and not at all exactly for whole millionths |
| Histograms.FixedPointError | metric.go:110-117 | n samples are off by at most n millionths in total, exact samples by nothing |
| Otlp.BuildMetrics | otlp.go:135-172 | one OTLP metric per snapshot, of the kind's data type, with the snapshot's values |
| Otlp.SplitBuckets | otlp.go:149-160 | bounds of the non-overflow buckets and counts of all buckets, in order |
| Otlp.ExportExact | otlp.go:149-168 | an exported histogram has one count more than bounds, its counts are those of the samples per interval and add up to the count |
| Otlp.ExportedBounds | otlp.go:149-160 | the exported bounds are the metric's bounds, whatever they are |
| Otlp.ExportsCumulative | otlp.go:149-168 | of two exports the one after more samples is nowhere smaller, with the same bounds |
| ShownRuns.RunShows | metric.go:153-181 | along every run, for a metric never evicted: a counter shows the sum of its samples, a histogram their count, sum and average, up to a millionth per sample, and a gauge the latest one up to a millionth |
| ShownRuns.RunShowsLatest | metric.go:153-181 | a snapshot shows the metric's own name and kind, the time of its latest sample and the sanitised labels of its latest labelled one |
| ShownRuns.RunExports | otlp.go:135-172 | along every run, counters are exported as cumulative monotonic sums, gauges as gauges, histograms as cumulative histograms, with these values and the time of the latest sample |
| LiveRuns.LastIsLatest | metric.go:110-115 | along every run a live metric's time is that of the latest sample applied since its creation, or zero |
| LiveRuns.LabelsAreLatest | metric.go:144-150 | along every run a live metric shows what sanitising leaves of the labels of the latest labelled sample applied since its creation |
| LiveRuns.ShownLabelsAreClean | registry.go:305-330 | no label a live metric shows is longer than the limit, and a path is in normal form unless it may have been cut |
| LiveRuns.UnknownBecomesCounter | registry.go:317-330 | an admitted sample of an unknown name becomes a counter, listed last, with that sample |
| ExportRuns.RunExportsCumulative | otlp.go:149-168 | at two points of a run between which a histogram is not evicted, the later export has the same bounds and no smaller count or bucket count |
| HistogramRace.RunInv | metric.go:110-139 | with any number of interleaved recorders, each shared counter is the contribution of the calls that have reached it |
| HistogramRace.CountMinusBuckets | metric.go:118-139 | count minus bucket total is the number of calls between their count and their bucket addition |
| HistogramRace.QuiescentIsSequential | metric.go:110-139 | when no call is under way, count, sum and buckets are those of recording the samples one after the other |
| HistogramRace.CountersGrow | metric.go:122-137 | no bucket counter ever decreases along a run |
| HistogramRace.TornSnapshot | metric.go:153-196 | a snapshot that loads the count first and each bucket later totals between the calls finished at its first and at its last load |
| HistogramRace.NeverTornIff | metric.go:153-196 | however the loads fall between the first and the last, the bucket total is the loaded count if and only if no call is in flight at the first load and none finishes before the last |
| HistogramRace.TornWitness | metric.go:153-196 | a run in which a snapshot's bucket total exceeds its count |
| Cardinality.CardinalityTracker.Allow | labels.go:104-123 | verdict, accepted set and drop counter after one call |
| Cardinality.CardinalityTracker.DroppedCount | labels.go:126-130 | the refusals counted for the name |
| Cardinality.CardinalityTracker.SeriesCount | labels.go:133-137 | the size of the accepted set |
| Cardinality.GuardRefinesFirstDistinct | labels.go:104-123 | after any calls the accepted set is the first min(maxPer, distinct) distinct fingerprints offered for the name, and the drop counter is the number of refused calls |
| Cardinality.VerdictsAreFinal | labels.go:104-123 | a call was allowed if and only if its fingerprint is in the final set; refused ones are outside a full set |
| Cardinality.SeriesBounded | labels.go:104-123 | no metric has more series than the cap |
| Cardinality.NoCapAllowsAll | labels.go:104-108 | without a cap every call is allowed and nothing is remembered |
| SeriesRuns.SeriesShareVerdict | registry.go:305-315 | with paths normalised, two samples that differ only in paths that agree segment by segment, ids aside, get the same verdict, whatever lies between them |
| SeriesRuns.NextOfSeries | registry.go:305-336 | along every run, the next sample of a series already seen is applied if that one was, and refused if that one was |
| SeriesRuns.UnlabelledPass | registry.go:310 | samples without labels always pass |
| Labels.IdSegment | labels.go:12-32 | the one-pass scan accepts exactly numbers and hex-and-dash words with at least eight hex digits |
| Labels.WhichAreIds | labels.go:12-32 | numbers and hexadecimal words of eight letters or more are ids; shorter words that are no numbers are not, nor is anything with a foreign letter |
| Labels.NormalizePath | labels.go:35-46 | the loop over the segments computes the normal form |
| Labels.NormalizeIdempotent | labels.go:35-46 | normalising twice is normalising once, on every string |
| Labels.SegmentsOfNormal | labels.go:35-46 | a normal form reads back as the segments of the path with every id replaced by `:id`, and so has no id |
| Labels.NormalizeEqualIff | labels.go:35-46 | two paths normalise equally if and only if they have equally many segments, pairwise equal or both ids or placeholders |
| Labels.FixedIffNormalForm | labels.go:35-46 | the paths left alone are exactly those with a leading slash, bare behind it, and without ids |
| Labels.SanitizeLabelValue | labels.go:51-64 | the value is routed, then cut; empty values stay empty |
| Labels.Sanitized | labels.go:51-64 | a sanitised value is never longer than the configured length |
| Labels.SanitizedIsPrefix | labels.go:51-64 | what is left is a prefix of the value, of its normal form for a path to be normalised, as long as the limit allows |
| Labels.SanitizeIdempotentIff | labels.go:51-64 | sanitising twice is sanitising once if and only if no normalised path is cut to end in a slash or an id |
| Labels.CutIsNormalFormIff | labels.go:51-64 | a cut normal form is one itself if and only if its last character and last segment allow it |
| Labels.SanitizeNotIdempotent | labels.go:51-64 | a path value whose sanitised form is sanitised further |
| Labels.SanitizeLabels | labels.go:67-76 | every value is sanitised, names and positions stay |
| Labels.FingerprintLabels | labels.go:171-185 | the buffer ends up as the NUL-joined name=value fields |
| Labels.FingerprintRoundTrip | labels.go:171-185 | a parser that splits at NUL and at the first equals sign inverts the fingerprint |
| Fingerprints.FingerprintInjectiveIff | labels.go:171-185 | over given alphabets of names and values, fingerprints are injective on all label lists, empty ones included, if and only if names have no equals sign and values no NUL, or the other way round |
| Fingerprints.ForwardInjective | labels.go:171-185 | names without an equals sign and values without NUL are recovered from the front |
| Fingerprints.BackwardInjective | labels.go:171-185 | values without an equals sign and names without NUL are recovered from the back |
| Fingerprints.Collisions | labels.go:171-185 | four pairs of different lists, one for each way to mix the two separators in, that share a fingerprint |
| Aggregation.Window.AddSample | aggregator.go:38-55 | count, sum, extremes and captured buckets after one sample |
| Aggregation.Aggregator.Add | aggregator.go:31-56 | exactly the metric's window changes, opened with the sample if there was none |
| Aggregation.Aggregator.FlushAll | aggregator.go:59-99 | no window stays open, and storage has received each window's record once, in range order |
| Aggregation.AddedSummarises | aggregator.go:31-46 | a window stays the count, sum, minimum and maximum of its samples, both extremes attained |
| Aggregation.OpenedSummarises | aggregator.go:34-46 | a window opened by a sample summarises that sample |
| Aggregation.AverageBetween | aggregator.go:83-92 | Count*Min <= Sum <= Count*Max, so the average lies between the extremes |
| Storage.MemoryStorage.Store | storage_memory.go:23-39 | stale head dropped, one more at capacity, the new bucket last |
| Storage.MemoryStorage.Find | storage_memory.go:41-61 | the in-order filter of the buckets, cut to the limit when it is positive |
| Storage.MatchingInOrder | storage_memory.go:41-61 | a query returns the buckets at all matching positions and no others, ascending |
| Storage.QueryReturns | storage_memory.go:41-61 | a query returns, in order, the first `limit` of the buckets with its name that end no earlier than `from` and start no later than `to` |
| Storage.BucketsAreRecentHistory | storage_memory.go:23-39 | after any calls the buckets are the end of the Store history, at most the capacity |
| Storage.StoreEffect | storage_memory.go:23-39 | a Store keeps everything from the first bucket that is not stale on, but for one at capacity, and the new bucket |
| Storage.LastWindowsKept | storage_memory.go:23-39 | without a TTL the buckets are exactly the last `max` windows handed over |
| Storage.NoStaleBucketRetained | storage_memory.go:23-39 | with ordered window ends no bucket retained by a Store is older than its cutoff |
| Storage.DropStaleCompleteIff | storage_memory.go:23-39 | dropping from the head removes every stale bucket, whatever the cutoff, if and only if the buckets are in the order of their ends |
| Storage.StoreLeavesNoStaleIff | storage_memory.go:23-39 | a Store leaves no stale bucket behind the new one, whatever clock and TTL, if and only if the buckets are in the order of their ends |
| Storage.StaleBucketCanSurvive | storage_memory.go:23-39 | without that order a stale bucket survives behind a fresh one |
| AlertStores.MemoryAlertStore.SeedFromConfig | alert_store.go:179-188 | configured rules are added, stored ones stay |
| AlertStores.SeededIsFirst | alert_store.go:179-188 | seeding keeps, per ID, the first rule configured with it |
| AlertStores.MemoryAlertStore.LoadRules | alert_store.go:190-198 | every stored rule exactly once |
| AlertStores.MemoryAlertStore.SaveRule | alert_store.go:200-205 | the rule replaces the one with its ID |
| AlertStores.MemoryAlertStore.DeleteRule | alert_store.go:207-212 | the ID is gone, all else stays |
| AlertStores.MemoryAlertStore.AppendLog | alert_store.go:214-225 | the entry is numbered, put first, and the log cut to 1000 |
| AlertStores.MemoryAlertStore.ListLog | alert_store.go:227-236 | a prefix of the log, of the requested length where that is positive and available |
| AlertStores.LogIsRing | alert_store.go:214-225 | after n appends the log is the last min(n, 1000) entries, newest first, numbered n, n - 1, and so on |
| Alerts.Alerter.constructor | registry.go:135-144 | the rules of a new registry: filled from the configuration, then overlaid with the seeded store |
| Alerts.Alerter.FillFromConfig | alert.go:256-265 | configured rules get an ID, a cooldown and the enabled flag, later ones winning |
| Alerts.FromConfigLast | alert.go:256-265 | of the configured rules under one ID the last is filed, enabled, with the default cooldown if it has none, otherwise unchanged |
| Alerts.Alerter.AddRule | alert.go:291-315 | the rule is completed and filed in cache and store alike |
| Alerts.Alerter.RemoveRule | alert.go:318-329 | the rule leaves cache and store, all others stay |
| Alerts.Alerter.ToggleRule | alert.go:343-359 | a known rule's flag changes in cache and store, an unknown ID changes nothing |
| Alerts.Alerter.Evaluate | alert.go:389-455 | one pass: exactly the rules that fire get the new firing time, and the log receives their entries in visiting order |
| Alerts.Alerter.Visit | alert.go:410-455 | what one enabled rule does in a pass: nothing, or one firing and one log entry |
| AlertRuns.AlertSchedule | alert.go:389-447 | over any run with a clock that does not go back, an untouched rule's firings are at least the cooldown apart and no selection of eligible passes with that spacing is larger |
| AlertRuns.FiringsAreGreedy | alert.go:426-437 | the firings of an untouched rule are exactly the greedy selection of its eligible passes |
| AlertRuns.GreedyStaysAhead | alert.go:426-437 | no spaced selection is larger than the greedy one, and none of equal size ends earlier |
| AlertRuns.CoolingDownIsSpacing | alert.go:426-432 | saturating time subtraction does not change the cooldown decision for 64-bit cooldowns |
| AlertRuns.FiringsLoggedOnce | alert.go:434-455 | a pass logs each rule that fires once and no other rule |
| AlertMeaning.PassFires | alert.go:389-437 | in a pass, a rule whose metric is present fires if and only if it is enabled, its cooldown is over, and the metric's value, a histogram's average, is above, at least, below, at most or equal to the threshold as the condition says; otherwise it stays as it is |
| AlertMeaning.PassWithoutMetric | alert.go:410-414 | a rule whose metric is absent is left alone |
| AlertMeaning.LoggedAreJustified | alert.go:410-455 | every entry logged along a run names an enabled rule of its pass with that rule's fields, the value seen in the metric and the time of the pass, and the value compares with the threshold as the condition says |
| AlertMeaning.LogIsJustified | alert.go:208-223 | so compare all entries in the log of a registry whose rules have IDs; unknown conditions are never logged |
| AlertMeaning.ToggledHasFlag | alert.go:343-359 | a toggled rule has the given flag in cache and store, and nothing else changes |
| AlertMeaning.AddedIsFiled | alert.go:291-315 | an added rule is in cache and store under its ID, or the generated one, with the default cooldown if it had none, enabled if it was not known |
| AlertMeaning.RemovedStaysGone | alert.go:318-329 | a removed rule is in neither, does not fire and is not logged, until it is added again |
| AlertRuns.LogHoldsRecentFirings | alert.go:434-455 | after any operations on a new registry the log is the last 1000 firings, newest first, numbered from the first one on |
| AlertRuns.RunLogsEachFiring | alert.go:434-455 | along a run the log received one entry about a rule for each of its firings, and no other |
| AlertRuns.StepAgree | alert.go:291-359 | each operation keeps cache and store in agreement on everything but the last firing |
| AlertRuns.CacheAndStoreAgree | registry.go:135-144 | from a configuration whose rules have IDs, cache and store agree after any operations |
| AlertRuns.InitialAgreeIff | registry.go:135-144 | they agree at the start if and only if every configured rule has an ID |
| AlertRuns.AlwaysAgreeIff | registry.go:135-144 | they agree whatever is done afterwards if and only if every configured rule has an ID |
| AlertRuns.DefaultsOverwritten | registry.go:135-144 | each rule starts exactly as first configured: the alerter's defaults are overwritten |

## Left out

- HTTP handlers, user interface, authentication, middleware, hooks, e-mail rendering and delivery, configuration files and defaults, runtime metrics, include and exclude patterns: presentation, I/O or foreign libraries.
- SQLite storage and the SQLite alert store: their behaviour is in SQL; the memory implementations stand for the two interfaces.
- OTLP posting and JSON encoding; the fixed resource and scope attributes of an export.
- IEEE rounding, NaN and infinities, and wrap-around of 64-bit totals: values are `real`, totals unbounded integers.
- Tickers, contexts, goroutine scheduling and the close timeout: the loop is a free choice among enabled steps; each step reads the clock once.
- Calls of Start and Close that overlap, and repeated Close calls that only wait: each is one step, taken or not.
- Recording directly into a metric handle from outside the queue is not an event of `Pipeline`; `HistogramRace` covers it for one histogram.
- Rule objects shared by pointer: rules are values in a map, and alerter operations are atomic, so an evaluation pass running while a rule is replaced is not captured.
- The metrics map and the order, fields of the registry in the source, form an object of their own, `MetricTable`.
- Enumerating the guard's counters for the dashboard, and resetting the endpoint tracker.
- Go strings as bytes: characters stand for bytes, and UTF-8 is not modelled.
- Otlp.ExportExact: counts below 2^64, since the export converts to unsigned 64-bit numbers.
- EndpointRuns.SameEndpointIff: for methods without a tab, which is the separator of the series key.
- Latency.EndpointTracker.Snapshots: does not model the final sort of the summaries by path and method.
- Pipeline.RunTableInv: assumes atomic calls; the interleaved form is `RegistrationRace.RunInv`.
- AlertRuns.FiringsAreGreedy: the cooldown is at most the largest 64-bit duration, as in Go.
