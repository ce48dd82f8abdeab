# Anomaly-detection pipeline: a Dafny model

This project models the core of a small sensor-data anomaly-detection
service.

- Uploads of CSV batches under `raw/` trigger an SNS notification. The
  service schedules `process_file` for each raw CSV key in it.
- `process_file` folds every tracked channel's present values into a stored
  per-channel baseline, using Welford's online mean and variance
  (`BaselineManager.update`).
- It then scores the batch against the updated baseline (`AnomalyDetector.run`):
  - a per-channel z-score, gated on 30 observations of history;
  - a multivariate IsolationForest flag;
  - their OR for consensus.
- It writes the scored file under `processed/`, saves the baseline with a
  timestamp, and writes a summary record next to the scored file.
- Query endpoints read the latest scored files, aggregate the summaries and
  show the baseline.

The modules follow the source files:

| module | models |
|---|---|
| `Welford` (`welford.dfy`) | the update loop's step, its fold over a batch, and the algebra |
| `Baseline` (`baseline.dfy`) | `BaselineManager` as the class `BaselineTable` |
| `Detector` (`detector.dfy`) | `AnomalyDetector` |
| `Processor` (`processor.dfy`) | `process_file` |
| `App` (`app.dfy`) | the HTTP handlers |

Three support modules hold the Python library behaviour the code relies on:

- `Strings`: `startswith`, `endswith`, `str.replace` and string order.
- `Sequences`: comprehension filters, `s[:n]` and `head(n)`, and the stable
  `sorted(reverse=True)`.
- `Wrappers`: `Option` and `Result`.

Modelling choices:

- Numbers are exact `real`s.
- A NaN cell is `None` in a column of `Option<real>`.
- `math.sqrt` is a function parameter. Properties that need a correct square
  root assume `IsSqrt(sqrt)`.
- The IsolationForest's labels and scores are inputs.
- Clock readings are inputs.
- Each object an endpoint would read from the bucket is an argument, already
  parsed.
- The `KeyError`s modelled are those a well-typed input can still raise:
  `body["SubscribeURL"]` and `body["Message"]` in the SNS handler
  (app.py:28, 34), `df[col]` and `stats["std"]` for a mature channel
  (detector.py:65), and `df[numeric_cols]` for the forest (detector.py:42).
  Each is a `Failure` of a `Result`. Keys such as `stats["count"]` or a
  summary's `"total_rows"` are fields of typed records here, so their absence
  is not represented.

Two behaviours of the code worth stating:

- **A tracked column missing from the batch makes `run` raise `KeyError`**
  (detector.py:42, 65): the forest indexes `df[numeric_cols]`, a mature
  channel indexes `df[col]`. The model returns `MissingColumns` or
  `MissingColumn`; `Processor.ProcessFails` states exactly when processing
  fails.
- **Non-finite values pass through**: only NaN cells are dropped
  (processor.py:33).

## Model

| member | source | states |
|---|---|---|
| Wrappers.Option.GetOr | app.py:118 | the definition of `d.get(k, default)`; its meaning is stated by `App.View`, which shows a missing "std" as 0.0 |
| Strings.StartsWith | app.py:37 | the definition of `str.startswith`; its meaning is stated by `Strings.StartsWithMeans` |
| Strings.StartsWithMeans | app.py:37 | `prefix + rest` starts with `prefix`, and a string that starts with `prefix` is `prefix` followed by the rest |
| Strings.EndsWith | app.py:37 | the definition of `str.endswith`; its meaning is stated by `Strings.EndsWithMeans` |
| Strings.EndsWithMeans | app.py:37 | `front + suffix` ends with `suffix`, and a string that ends with `suffix` is its front followed by `suffix` |
| Strings.ReplaceAll | processor.py:42 | the definition of `str.replace` for a non-empty pattern; its meaning is stated by `Strings.ReplaceAllAbsent`, `Strings.ReplaceAllLeading` and `Strings.ReplaceAllRemovesAll` |
| Strings.ReplaceAllAbsent | processor.py:42 | `str.replace` leaves a string without the pattern unchanged |
| Strings.ReplaceAllLeading | processor.py:42 | a leading occurrence becomes the replacement, and the rest is replaced on its own |
| Strings.AbsentFirstChar | processor.py:70 | a string without the pattern's first character does not contain the pattern |
| Strings.ReplaceAllBeforePattern | processor.py:70 | text free of the pattern's first character, followed by the pattern, becomes that text followed by the replacement |
| Strings.ReplaceAllKeepsPrefix | processor.py:42 | a prefix of the result made of characters other than the replacement's first one was already a prefix of the input |
| Strings.NoneAfterReplacement | processor.py:42 | a clean replacement followed by text without the pattern contains no occurrence |
| Strings.NoneAfterCopied | processor.py:42 | a copied character that starts no occurrence, followed by the replaced rest, starts none either |
| Strings.ReplaceAllRemovesAll | processor.py:42 | with a clean replacement, no occurrence of the pattern remains after `str.replace` |
| Strings.StrLe | app.py:51-59 | the definition of Python's `<=` on `str` (code-point lexicographic); its meaning is stated by `Strings.StrLeTotal`, `Strings.StrLeTransitive` and `Strings.StrLeAntisymmetric` |
| Strings.StrLeTotal | app.py:51-59 | Python's string order is total |
| Strings.StrLeTransitive | app.py:51-59 | Python's string order is transitive |
| Strings.StrLeAntisymmetric | app.py:51-59 | two strings ordered both ways are equal |
| Sequences.Filter | app.py:51-57 | a comprehension filter keeps only elements that pass, drops none that pass, and is no longer than its input |
| Sequences.FilterAppend | app.py:83-88 | filtering a concatenation is concatenating the filtered parts, so order is kept |
| Sequences.FilterMember | app.py:51-57 | an element is in the filtered list exactly when it is in the list and passes the condition |
| Sequences.FilterNone | detector.py:88-93 | nothing passes when no element satisfies the condition |
| Sequences.Prefix | app.py:59 | `s[:n]` and `head(n)`: length `min(n, len)` for `n >= 0`, `len + n` (at least 0) for negative `n`, and always a prefix |
| Sequences.SortDesc | app.py:51-58 | the definition of `sorted(..., reverse=True)` as a stable insertion sort; its meaning is stated by `Sequences.SortDescCorrect` |
| Sequences.InsertCorrect | app.py:51-58 | insertion into a descending list keeps it descending and adds exactly one element |
| Sequences.SortDescCorrect | app.py:51-58 | `sorted(reverse=True)` yields a descending permutation of its input |
| Sequences.PrefixOfSortedIsTop | app.py:51-59 | after a descending sort, every element cut off by `[:n]` is no larger than every element kept |
| Sequences.TopByKey | app.py:101 | the first `n` after sorting: elements of the input, descending, none left out larger than one kept |
| Sequences.PrefixMultiset | app.py:59 | a slice `s[:k]` takes no element more often than `s` holds it |
| Sequences.TopOfFiltered | app.py:51-59 | the first `n` of the sorted filtered list pass the filter and come from the list, and no passing element left out has a larger key than one kept |
| Sequences.TopCount | app.py:101 | the first `n` after sorting has exactly `min(n, len(s))` elements, none taken more often than it occurs in `s` |
| Welford.Step | baseline.py:49-53 | the definition of one loop iteration (count, delta, mean, delta2, M2 in that order); its meaning is stated by `Welford.StepMean`, `Welford.StepM2` and `Welford.StepMoment` |
| Welford.Fold | baseline.py:48-53 | the definition of the loop over `new_values`; its meaning is stated by `Welford.FoldCount`, `Welford.FoldMean`, `Welford.TwoPass` and `Welford.FoldSplit` |
| Welford.FoldCount | baseline.py:48-49 | folding a batch advances the count by exactly the number of values |
| Welford.StepMean | baseline.py:49-51 | one step turns `mean * count` into the old total plus the new value |
| Welford.StepTotal | baseline.py:49-51 | the same fact stated with `Welford.Total`: one step adds the new value to the weighted total `mean * count` |
| Welford.FoldAddsValues | baseline.py:48-53 | a quantity that each loop iteration grows by the new value grows over a batch by `sum(xs)` |
| Welford.Total | baseline.py:49-51 | the definition of the weighted total `mean * count`; its meaning is stated by `Welford.StepTotal` and `Welford.FoldMean` |
| Welford.FoldMean | baseline.py:48-53 | after the loop, the weighted total `mean * count` is the prior total plus `sum(xs)` |
| Welford.EmptyTotals | baseline.py:43-46 | a freshly created entry (count 0, M2 0) has weighted total and raw moment 0 |
| Welford.FreshMean | baseline.py:43-53 | for a fresh channel the mean is the arithmetic mean of the values |
| Welford.StepM2 | baseline.py:50-53 | each step adds `delta^2 * n / (n + 1)` to M2, which is never negative |
| Welford.FoldM2Monotone | baseline.py:48-53 | M2 never decreases over a batch |
| Welford.StepMoment | baseline.py:49-53 | `M2 + count * mean^2` grows by exactly `x^2` per step |
| Welford.FoldAddsSquares | baseline.py:48-53 | a quantity each step grows by `x^2` grows over a batch by the sum of squares |
| Welford.FoldMoment | baseline.py:48-53 | over a batch, the raw moment grows by the sum of the squared values |
| Welford.SumSqDevExpand | baseline.py:38-41 | the sum of squared deviations expands into sum of squares, sum and count |
| Welford.SumSqDevExpandAt | baseline.py:38-41 | for an entry whose weighted total, raw moment and count are those of `xs`, the sum of squared deviations from its mean is `moment - 2 * mean * total + count * mean^2` |
| Welford.TwoPassCore | baseline.py:38-41 | any entry whose weighted total, raw moment and count are those of `xs` has M2 equal to `sum((x - mean)^2)` over `xs` |
| Welford.TwoPass | baseline.py:38-41 | for a fresh channel M2 equals `sum((x - mean)^2)` over the values, with the final mean |
| Welford.FoldSplit | baseline.py:48-53 | folding `xs` then `ys` is folding `xs + ys` |
| Welford.FoldExtend | baseline.py:48-53 | one more loop iteration is one more step of the fold |
| Welford.SumSqDevNonNegative | baseline.py:38-41 | a sum of squared deviations is never negative |
| Baseline.EntryOrFresh | baseline.py:43-46 | the definition of the entry the update works on, the stored one or `{"count": 0, "mean": 0.0, "M2": 0.0}`; its meaning is stated by `Baseline.UpdateChannel` and `Baseline.FreshChannel` |
| Baseline.StdOf | baseline.py:55-60 | the definition of the std rule (`sqrt(M2 / count)` from two values on, 0.0 below); its meaning is stated by `Baseline.StdSquared` and `Baseline.FreshChannel` |
| Baseline.Updated | baseline.py:46-60 | the updated entry's count is the prior count plus the batch size, and its std is the recomputed one |
| Baseline.UpdateChannel | baseline.py:43-62 | the update adds only key `channel`, leaves every other entry unchanged, and adds the batch size to the channel's count (starting from 0 when unseen) |
| Baseline.UpdateKeepsNonNegative | baseline.py:50-60 | every M2 stays non-negative, and with a correct square root the new std is non-negative |
| Baseline.UpdateTwice | baseline.py:48-62 | updating with `xs` and then `ys` equals one update with `xs + ys` |
| Baseline.StdSquared | baseline.py:55-60 | from two values on, std is non-negative and `std^2 * count` is the two-pass sum of squared deviations (the population variance) |
| Baseline.FreshChannel | baseline.py:43-60 | a fresh channel: mean is the batch mean, std is 0.0 below two values, and `std^2 * n` is the two-pass sum of squared deviations otherwise |
| Baseline.BaselineTable.Load | baseline.py:21-26 | a missing stored document loads as an empty table without a timestamp, an existing one as itself |
| Baseline.BaselineTable.Save | baseline.py:28-35 | save sets only `last_updated`, keeps every channel, and writes that document |
| Baseline.BaselineTable.Update | baseline.py:37-63 | the in-place update loop makes the table equal to `UpdateChannel` of the old table and leaves `last_updated` alone |
| Detector.Lookup | detector.py:63 | the definition of `baseline.get(col)`; its meaning is stated by `Detector.ImmatureIsUnknown` (an absent channel is unknown) and `Detector.ScoredChannel` |
| Detector.Mature | detector.py:64 | the definition of the gate `stats and stats["count"] >= 30`; its meaning is stated by `Detector.ImmatureIsUnknown`, `Detector.MatureFlagsEveryRow` and `App.View` |
| Detector.ZScores | detector.py:17-29 | std zero gives all zeros, whatever the values, at the input's length; otherwise a score is present exactly where the value is, and `z * std == abs(v - mean)` |
| Detector.Flags | detector.py:67 | the definition of `z_scores > threshold`; its meaning is stated by `Detector.FlagMeansDeviation` |
| Detector.Unknown | detector.py:70-73 | the definition of the two null columns; its meaning is stated by `Detector.ImmatureIsUnknown` |
| Detector.ScoreChannel | detector.py:63-73 | the definition of one pass of the channel loop; its meaning is stated by `Detector.ImmatureIsUnknown`, `Detector.FlagMeansDeviation` and `Detector.MatureFlagsEveryRow` |
| Detector.ScoreChannels | detector.py:62-75 | the definition of the channel loop, first error winning; its meaning is stated by `Detector.ScoreChannelsOutcome` |
| Detector.Isolation | detector.py:80-82 | the definition of the three forest columns; its meaning is stated by `Detector.BothModeAnomaly` and `Detector.NoMatureChannel` |
| Detector.HasValue | detector.py:92 | the definition of `.notna().any()`; its meaning is stated by `Detector.ConsensusMeans` and `Detector.NoMatureChannel` |
| Detector.Contributing | detector.py:88-93 | the definition of the comprehension that keeps flag columns with a non-null value; its meaning is used by `Detector.ConsensusMeans` |
| Detector.Consensus | detector.py:87-98 | the `anomaly` column has one value per row |
| Detector.Score | detector.py:50-100 | the input is carried unchanged; forest columns appear exactly in "isolation" and "both"; `anomaly` exactly in "both"; no z-score columns outside "zscore" and "both" |
| Detector.ScoreChannelsPrefixFailure | detector.py:62-67 | an error raised by an earlier channel is the error of the whole loop |
| Detector.ScoreChannelsOutcome | detector.py:62-75 | the channel loop fails exactly when a mature channel lacks its column or std; otherwise it holds exactly the listed channels, each with its own columns |
| Detector.ImmatureIsUnknown | detector.py:63-73 | a channel absent from the baseline or with fewer than 30 observations never raises, and every row of its two columns is null |
| Detector.ChannelRows | detector.py:65-73 | a pass that succeeds gives one z-score and one flag per row |
| Detector.FlagMeansDeviation | detector.py:64-67 | for a mature channel every flag is non-null; with positive std a row is flagged exactly when its value lies strictly more than `threshold * std` from the mean; with zero std the flag is `0.0 > threshold` |
| Detector.MatureFlagsEveryRow | detector.py:64-67 | a pass over a mature channel that succeeds flags every row true or false, never null |
| Detector.ConsensusMeans | detector.py:87-96 | a row is anomalous exactly when the forest flags it or some listed channel's flag is true |
| Detector.NoMatureChannel | detector.py:94-98 | when every tracked column is in the frame and no channel is mature, the run succeeds and `anomaly == if_flag` row for row |
| Detector.BothModeAnomaly | detector.py:78-96 | in "both" mode the forest columns carry the labels and scores, `if_flag[i]` holds exactly when `label[i] == -1`, and row `i` is anomalous exactly when `label[i] == -1` or some listed channel flags it true |
| Detector.ScoredChannel | detector.py:62-75 | a successful run holds, for every listed channel, exactly the columns of that channel's own pass against its entry |
| Detector.MissingFrom | detector.py:42 | the definition of the columns `df[numeric_cols]` lacks; its meaning is stated by `Detector.MissingFromMeans` |
| Detector.MissingFromMeans | detector.py:42 | the forest step finds nothing missing exactly when every listed column is in the frame |
| Detector.Run | detector.py:50-100 | the imperative `run` returns exactly `Score`: the same columns or the same error |
| Processor.Present | processor.py:33 | `dropna().tolist()` keeps present values only, drops none of them, and is never longer than the column |
| Processor.PresentEmpty | processor.py:32-33 | the cleaned list is empty exactly when every cell is missing |
| Processor.PresentAppend | processor.py:33 | `dropna` keeps order and multiplicity: the present cells of `a + b` are those of `a` followed by those of `b` |
| Processor.Updates | processor.py:32-34 | the definition of the loop's two guards (column present, `clean_values` non-empty); its meaning is stated by `Processor.UpdateBatchOutcome` |
| Processor.UpdateBatch | processor.py:31-35 | the definition of the update loop; its meaning is stated by `Processor.UpdateBatchOutcome` and `Processor.UpdatedCount` |
| Processor.UpdateBatchOutcome | processor.py:31-35 | only tracked channels present with a value are updated, each with exactly its present values in row order; every other entry is unchanged |
| Processor.UpdatedCount | processor.py:31-35 | an updated channel's count is its loaded count plus its number of present values |
| Processor.OutputKey | processor.py:42 | the definition of `key.replace("raw/", "processed/")`; its meaning is stated by `Processor.OutputKeyProperties` |
| Processor.SummaryKey | processor.py:70 | the definition of `output_key.replace(".csv", "_summary.json")`; its meaning is stated by `Processor.SummaryKeyProperties` |
| Processor.RawReplacementIsClean | processor.py:42 | "processed/" cannot create a new "raw/" |
| Processor.CsvReplacementIsClean | processor.py:70 | "_summary.json" cannot create a new ".csv" |
| Processor.OutputKeyProperties | processor.py:42 | the output key contains no "raw/"; a key without one is unchanged; a key under "raw/" moves under "processed/" |
| Processor.SummaryKeyProperties | processor.py:70 | the summary key contains no ".csv"; a key without one is unchanged |
| Processor.OutputKeyOfRaw | processor.py:42 | a key `"raw/" + name`, where `name` holds no "raw/", becomes `"processed/" + name` |
| Processor.SummaryKeyOfCsv | processor.py:70 | a key `stem + ".csv"`, where `stem` has no dot, becomes `stem + "_summary.json"` |
| Processor.OutputKeyExample | processor.py:42 | "raw/x.csv" becomes "processed/x.csv" |
| Processor.SummaryKeyExample | processor.py:70 | "processed/x.csv" becomes "processed/x_summary.json" |
| Processor.CountTrue | processor.py:56 | the anomaly count is at most the row count, and zero exactly when no row is true |
| Processor.CountTrueIsCount | processor.py:56 | the count is exactly the number of rows that hold true |
| Processor.AnomalyCount | processor.py:56 | the definition of `anomaly_count`; its meaning is stated by `Processor.CountTrueIsCount` and `Processor.ProcessSummary` |
| Processor.AnomalyRate | processor.py:63 | the rate is 0 for an empty batch, otherwise `rate * rows == count`, and it lies in [0, 1] when `count <= rows` |
| Processor.ObservationCounts | processor.py:64-66 | the definition of `baseline_observation_counts`; its meaning is stated by `Processor.ProcessObservationCounts` |
| Processor.Loaded | processor.py:27 | the definition of the loaded baseline's channels, empty when nothing is stored; its meaning is stated by `Processor.ProcessObservationCounts` and `Processor.UpdateBeforeScore` |
| Processor.Process | processor.py:16-79 | the definition of what `process_file` writes and returns; its meaning is stated by `Processor.ProcessFails`, `Processor.ProcessSummary`, `Processor.ProcessObservationCounts`, `Processor.UpdateBeforeScore` and `Processor.ProcessWrites` |
| Processor.ProcessFails | processor.py:38-39 | processing fails exactly when a tracked column is missing or a mature channel of the updated baseline lacks std |
| Processor.ProcessSummary | processor.py:56-67 | the summary carries the keys and time, `total_rows` is the row count, `anomaly_count <= total_rows`, and the rate is 0 for no rows and in [0, 1] |
| Processor.ProcessObservationCounts | processor.py:64-66 | the summary has one count per tracked channel: its loaded count plus this upload's present values when the loop updated it, its loaded count (0 when unseen) otherwise |
| Processor.UpdateBeforeScore | processor.py:29-39 | a tracked column with values is scored against its entry with this upload already folded in; when loaded count plus present values reach 30, every row of that upload gets a non-null flag |
| Processor.ObservationsFrom | processor.py:64-66 | the observation counts read off the updated table, channel by channel |
| Processor.ProcessWrites | processor.py:42-76 | three writes in order: the scored frame at the output key, the updated baseline stamped with the save time, then the summary at the summary key |
| Processor.ProcessFile | processor.py:16-79 | the imperative `process_file` (load, update loop, run, save, summary) returns exactly `Process` |
| App.IsRawCsv | app.py:37 | the definition of the key test `startswith("raw/") and endswith(".csv")`; its meaning is stated by `App.SnsOutcome` |
| App.Sns | app.py:20-40 | the definition of the handler's answer; its meaning is stated by `App.SnsOutcome` |
| App.SnsOutcome | app.py:27-40 | a confirmation without `SubscribeURL`, or a notification without `Message`, fails with that missing key; otherwise a confirmation visits its URL and schedules nothing; a notification schedules exactly the raw CSV keys among its records, each bound for "processed/"; any other type returns "ok" and schedules nothing |
| App.HandleSns | app.py:20-40 | the handler loop returns exactly `Sns`: the keys scheduled, in record order |
| App.IsProcessedCsv | app.py:49-56 | the definition of the listing filter (prefix "processed/", suffix ".csv"); its meaning is stated by `App.RecentFilesProperties` |
| App.RecentFiles | app.py:48-59 | the definition of the files read; its meaning is stated by `App.RecentFilesProperties` |
| App.FlaggedRows | app.py:65-67 | the rows taken are exactly those whose `anomaly` is true, in frame order, tagged with the source file, and there are `anomaly_count` of them |
| App.HasAnomalyColumn | app.py:65 | the definition of `"anomaly" in df.columns`; its meaning is stated by `App.Collected` |
| App.Collected | app.py:61-68 | one collected frame per file read that has an `anomaly` column, and none for the others |
| App.RecentFilesProperties | app.py:48-59 | exactly `min(10, n)` files are read, `n` the number of scored CSVs listed; each is read no more often than it is listed, largest key first, and none left out has a larger key than one read |
| App.CollectedRows | app.py:61-68 | every gathered row is one that its file flags as an anomaly |
| App.Concat | app.py:73 | the definition of `pd.concat` of the collected frames; its meaning is stated by `App.ConcatAppend`, `App.CollectedLength`, `App.CollectedHas` and `App.CollectedRows` |
| App.ConcatAppend | app.py:73 | concatenating one more frame appends its rows |
| App.FlaggedTotal | app.py:65-67 | the definition of the number of rows the files flag; its meaning is stated by `App.CollectedLength` |
| App.CollectedLength | app.py:61-68 | the collected frames hold exactly as many rows as the files read flag |
| App.CollectedHas | app.py:61-68 | every row a file read flags is among the collected rows |
| App.RecentIsHead | app.py:70-74 | the response is `head(limit)` of all collected rows, also in the early return when no file has an `anomaly` column |
| App.Recent | app.py:45-74 | the definition of the response; its meaning is stated by `App.RecentProperties` |
| App.RecentProperties | app.py:61-74 | `count` equals the rows returned and, for `limit >= 0`, is `min(limit, rows flagged in the files read)`; every row returned is flagged in a file read; with `limit` at least that total, every flagged row of every file read is returned |
| App.RecentAnomalies | app.py:45-74 | the imperative handler returns exactly `Recent` |
| App.IsSummaryFile | app.py:81-86 | the definition of the listing filter (prefix "processed/", suffix "_summary.json"); its meaning is stated by `App.SummariesMatchFilter` and `App.SummariesRead` |
| App.Summaries | app.py:83-88 | the summaries read come from summary files of the listing, none exactly when the listing has no summary file |
| App.SummariesMatchFilter | app.py:83-88 | the summaries read are those of the listed summary files, one per listed file, in listing order |
| App.SummariesRead | app.py:83-88 | every summary file of the listing is read, and as many summaries are read as summary files are listed |
| App.TotalRows | app.py:93 | the definition of `sum(s["total_rows"] ...)`; its meaning is stated by `App.TotalsAppend`, `App.TotalsBounded` and `App.SummaryTotals` |
| App.TotalAnomalies | app.py:94 | the definition of `sum(s["anomaly_count"] ...)`; its meaning is stated by `App.TotalsAppend`, `App.TotalsBounded` and `App.SummaryTotals` |
| App.TotalsAppend | app.py:93-94 | the totals are sums: additive over concatenation |
| App.TotalsBounded | app.py:93-94 | summaries with `anomaly_count <= total_rows` total to the same relation |
| App.RateBounded | app.py:100 | the overall rate of consistent totals lies in [0, 1] |
| App.SummaryTotals | app.py:90-100 | the message exactly when no summary file exists; otherwise one file per summary, the two totals, a zero rate for zero rows, and a rate in [0, 1] for consistent summaries |
| App.MostRecent | app.py:101 | exactly `min(5, n)` of the summaries, none more often than it was read, latest `processed_at` first, none left out later than one shown |
| App.SummaryOf | app.py:77-102 | the definition of the response; its meaning is stated by `App.SummaryTotals` and `App.MostRecent` |
| App.AnomalySummary | app.py:77-102 | the imperative handler returns exactly `SummaryOf` |
| App.View | app.py:115-120 | the view marks a channel mature exactly when the detector would score it, and shows a missing std as 0.0 |
| App.CurrentBaseline | app.py:105-125 | the view has one entry per stored channel and none for the `last_updated` stamp, which is reported apart |

## Left out

- The IsolationForest itself is not modelled (detector.py:31-48). This covers median imputation and fitting, an sklearn call over floats with a fixed seed. Its per-row labels and scores are inputs to `Detector.Score`, one per row. The contamination 0.05 goes only to that call. sklearn's own errors are not modelled either: an empty batch, or a column that is entirely missing and so has no median.
- All bucket I/O is left out: boto3 reads, writes and pagination, and CSV and JSON (de)serialisation. Each read object is an argument and each write is a `Processor.Put` value. An object that vanishes between listing and reading is not modelled.
- FastAPI routing and `BackgroundTasks` are left out. A scheduled job is recorded in `SnsReply.scheduled` and never run. The confirmation `requests.get` is recorded as `visited`. A body that is not JSON, and a record without `s3.object.key`, are not modelled.
- Concurrent background tasks are not modelled. Their load, update and save cycles race on the stored baseline.
- Floating point is not modelled: the model computes over exact reals. `round(..., 4)` at detector.py:66,81, processor.py:63 and app.py:100,117-118 is not applied, so `Detector.ZScores`, `Processor.AnomalyRate`, `App.SummaryOf` and `App.View` give unrounded values.
- Baseline.StdOf: `math.sqrt` is a parameter. A stored negative M2 would make the real `math.sqrt` raise `ValueError`, and the model does not capture that. `Baseline.UpdateKeepsNonNegative` shows that updates never produce a negative M2.
- `datetime.utcnow()` is not called. The save time and the summary time are the inputs `savedAt` and `processedAt`.
- Logging and `print` are left out.
- `BaselineManager.get_stats` (baseline.py:65-66) is a dictionary lookup that no modelled code calls; it is not modelled on its own. The same lookup inside `run` (detector.py:63) is `Detector.Lookup`.
- test_producer.py is not part of this model. It generates random test data and uploads it.
- The default `limit = 50` of `get_recent_anomalies` (app.py:46) is a FastAPI query-parameter default; `App.Recent` takes the limit as an argument, so a request without one is `Recent(listing, 50)`.
- The `/health` endpoint is not modelled (app.py:128-130). It reads only the environment and the clock.
- Baseline.BaselineTable.Update: the five field assignments of the loop body (baseline.py:49-53) are written as one call to `Welford.Step`. Its body makes the same assignments in the same order.
- `BaselineTable` keeps `last_updated` apart from the channel map. A channel literally named "last_updated" is therefore not modelled: in the stored dictionary it would collide with the timestamp.
- Name collisions between derived result columns (`<col>_zscore`, `if_flag`, `anomaly`) and columns already in the upload are not modelled. `Detector.Scored` keeps the added columns apart from the input.
- Sequences.SortDesc: stability is not proved. Python's `sorted` keeps equal keys in listing order, and the definition does the same, but only sortedness and permutation are proved.
- Strings.ReplaceAll is defined only for a non-empty pattern. The code replaces only "raw/" and ".csv".
