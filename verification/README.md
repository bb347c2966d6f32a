# ts-rank: the correlation-and-ranking engine, in Dafny

ts-rank reads the two files the TypeScript compiler writes with `generateTrace`. The first is a trace
of timed check events. The second is a catalog of the types the checker built. ts-rank reports
where type checking spent its time. This project models the engine behind that report. The two
inputs are taken as already-loaded sequences.

- **Index.** The `structuredTypeRelatedTo` checks are filtered out of the trace. A `Map` from each
  check's `sourceId` to its position is built left to right, so a later check with the same id
  replaces an earlier one.
- **Extraction.** The catalog is walked once. Each symbol entry that has a `firstDeclaration` and
  whose id the index knows becomes a `Metric`. A metric is the symbol, its check and the
  `isNodeModule` flag (the path contains `/node_modules`).
- **File ranking** (`tsRank.ts`). The metrics are filtered by the glob and grouped by declaration
  path. The groups are sorted ascending by summed duration, reversed and cut to `FILE_LIMIT`. They
  are then printed in reverse, each with a label from a counter that starts at `FILE_LIMIT + 1` and
  is decremented before every file. Each group shows its metrics ordered by duration, descending,
  and cut to `FILE_TYPE_LIMIT`.
- **Symbol ranking** (`x/tsRank.js`). Only `cat === 'check'` events count here. The metrics are
  filtered by the glob and split into node_modules and source buckets. Each bucket is ordered by
  duration, descending, cut to `logCount` and printed as a list numbered from 1.
- **Name column.** Both variants print a symbol name cut and padded to exactly 30 characters.

Modules:

- `Seqs` (seqs.dfy): the JavaScript array operations the engine uses, as functions. These are
  `filter`, `reverse`, `slice(0, end)` with its negative-end rule, and lodash `sumBy`.
- `Sorting` (sorting.dfy): lodash `sortBy` and `orderBy(…, 'desc')`. Both are modelled as one stable
  insertion sort with a direction. The module proves that the sort is sorted, is a permutation and
  is stable. `Top` is the "order descending, then slice" idiom both rankings use.
- `TraceModel` (trace_model.dfy): events, catalog entries, metrics and `String.prototype.includes`.
- `Correlation` (correlation.dfy): the extractor shared by both variants. A parameter chooses which
  event categories count as checks. The module also holds the glob filter. The extractor is a
  `method` with the source's two loops. It is proved equal to the function `Metrics`. `Metrics` is
  proved equal to a reference definition without the index: for each symbol, a scan of the whole
  trace for the last qualifying check.
- `FileRanking` (file_ranking.dfy): grouping, group ordering, the file cut, the label counter and
  the per-file metric cut.
- `Format` (format.dfy): `padEnd` and the fixed-width name column.
- `SymbolRanking` (symbol_ranking.dfy): the x/tsRank.js pipeline.

Durations stand for the trace's `dur` values, as `nat`. Limits are `int`. The source does not validate
them, so `slice(0, limit)` follows JavaScript for a negative limit too. Non-integer limits are
listed under "Left out". The glob
match is a parameter `matches: string -> bool`. `path.relative(cwd, ·)` is a parameter
`relative: string -> string`.

### Behaviour worth noting

- Files with equal totals come out in the reverse of the order in which their paths first appear.
  The code sorts the groups ascending with a stable sort and then reverses the result.
  `GroupByPathPartitions` states the first-appearance order of the groups, and
  `OrderedGroupsRanked` states the reversal.
- `durationTotal` is the sum over all filtered metrics. It is taken before the `FILE_LIMIT` cut.
  `GroupByPathPartitions` proves that this equals the sum of all group totals.
- The label printed with a file is `FILE_LIMIT - k` for the k-th printed file (counting from 0). It
  is the file's rank only when at least `FILE_LIMIT` files exist. With fewer files, the labels
  start above the number of files. `LabelFiles` states the label as the code computes it.
  `LabelIsRank` states when the label is the rank.

## Model

| member | source | states |
|---|---|---|
| Correlation.StructuredChecks | tsRank.ts:134-136 | every kept event has category `check` or `checkTypes` and name `structuredTypeRelatedTo` |
| Correlation.BuildIndex | tsRank.ts:141-143 | every key of the index maps to a position of the filtered checks whose `sourceId` is that key |
| Correlation.Lookup | tsRank.ts:157 | a found check is one of the filtered checks, and its `sourceId` is the looked-up id |
| Correlation.NewMetric | tsRank.ts:161-165 | the metric rebuilds exactly the catalog entry it came from, and its `isNodeModule` agrees with its path |
| Correlation.MetricFor | tsRank.ts:148-159 | one catalog entry yields at most one metric |
| Correlation.SymbolCheckMetrics | tsRank.ts:130-169 | the loop over the index and the catalog returns exactly the metric list `Metrics` |
| Correlation.LastCheckIsLast | tsRank.ts:141-143 | the reference scan finds nothing exactly when no qualifying check measures the id; otherwise it finds the last such check in the trace |
| Correlation.IndexLookupIsLastCheck | tsRank.ts:141-143 | looking an id up in the left-to-right index gives the last qualifying check with that `sourceId` (last write wins) |
| Correlation.MetricsMatchScan | tsRank.ts:147-168 | the indexed extraction equals the reference extraction that scans the trace per symbol |
| Correlation.MetricsAreEligibleEntries | tsRank.ts:147-168 | the metrics correspond one to one, in catalog order, to the symbol entries that have a declaration and a measuring check; entries without a `symbolName`, undeclared and unmeasured symbols are exactly the ones dropped |
| Correlation.MetricCheckIsLastMeasurement | tsRank.ts:157-164 | each metric's check is a trace event of the right category and name whose `sourceId` is the symbol's id, no later such event exists, and the flag agrees with the path |
| Correlation.MetricsFlagConsistent | tsRank.ts:164 | every extracted metric's `isNodeModule` agrees with its declaration path |
| Correlation.FilteredMetrics | tsRank.ts:47 | the glob filter keeps exactly the metrics whose path matches, each as many times as it occurs in the input, in their original order |
| TraceModel.ContainsIffOccurs | tsRank.ts:164 | `includes` holds exactly when the substring occurs at some position of the path |
| Seqs.Slice | tsRank.ts:61 | `slice(0, end)` is a prefix of length `min(end, n)`, or `max(n + end, 0)` for a negative end |
| Seqs.SumByPermutation | tsRank.ts:127 | `sumBy` does not depend on the order of its terms |
| Sorting.SortByPermutes | tsRank.ts:50-52 | lodash `sortBy`/`orderBy` returns a permutation of its input |
| Sorting.SortByOrdered | tsRank.ts:50-52 | the sorted sequence is ordered by the key in the requested direction |
| Sorting.SortByStable | tsRank.ts:74 | elements with equal keys keep their input order |
| Sorting.TopRanked | tsRank.ts:74-75 | `orderBy(…, 'desc').slice(0, limit)` comes from the input, is ordered by non-increasing key, keeps the input order among equal keys, and nothing left out has a larger key than an element kept |
| FileRanking.PathIndex | tsRank.ts:49 | the index found is the first group with the path, or there is no such group |
| FileRanking.GroupByPathPartitions | tsRank.ts:48-49 | each group is non-empty and holds exactly its path's metrics in order, no path has two groups, every metric has a group, the groups come in the order in which their paths first appear, and the group totals add up to `sumByMetricDuration` of all filtered metrics |
| FileRanking.OrderedGroupsRanked | tsRank.ts:50-53 | the files come out by non-increasing total, as a permutation of the groups with the same grand total; files of equal total come out in reverse discovery order |
| FileRanking.ShownGroupsAreTop | tsRank.ts:60-62 | at most `FILE_LIMIT` files are printed; they are the first files of the ranking in reverse, their totals rise down the listing, and no file left out costs more than a printed one |
| FileRanking.LabelIsRank | tsRank.ts:58-70 | with at least `FILE_LIMIT` files, the file printed with label L is the L-th costliest |
| FileRanking.LabelFiles | tsRank.ts:58-75 | the k-th printed file gets label `FILE_LIMIT - k` and its top `FILE_TYPE_LIMIT` metrics |
| FileRanking.RankFiles | tsRank.ts:46-90 | the report holds the input sizes, the extracted metric count, the filtered grand total and the labelled files of the ranking |
| FileRanking.PrintedFileDescribesItsPath | tsRank.ts:60-75 | each printed file's total is the summed duration of that path's metrics, its metric count is positive, and its listed metrics are exactly the top `FILE_TYPE_LIMIT` of that path's metrics: ordered by non-increasing duration, `min(limit, count)` of them for a non-negative limit, equal durations in catalog order, and no left-out metric longer than a listed one |
| Format.PadEnd | tsRank.ts:103 | `padEnd` keeps the string and fills it with spaces up to the width |
| Format.NameColumn | x/tsRank.js:56-58 | the column has exactly the given width; it is the name cut to the width, or the whole name followed by spaces |
| Format.SymbolColumn | tsRank.ts:102-103 | `cli.symbolName` is always `TYPE_CHARS_LEN` (30) characters wide |
| Format.NameColumnRoundTrip | tsRank.ts:102-103 | a name that fits and does not end in a space comes back when the padding is trimmed |
| Format.NameColumnTruncates | tsRank.ts:102-103 | names that agree on their first `width` characters print the same column |
| SymbolRanking.WithNodeModuleFlag | x/tsRank.js:83-86 | the re-map keeps each metric's symbol and check and sets its flag from its path |
| SymbolRanking.ReflagConsistentIsIdentity | x/tsRank.js:76-86 | on metrics whose flags already agree with their paths, the re-map returns its input unchanged |
| SymbolRanking.ReflagIdempotent | x/tsRank.js:94-97 | re-flagging twice equals re-flagging once |
| SymbolRanking.MapStructuredTypes | x/tsRank.js:60-87 | the result is the extracted list for `cat === 'check'` events only, with every flag agreeing with its path |
| SymbolRanking.ModuleMetrics | x/tsRank.js:36 | every metric of the node_modules bucket is flagged |
| SymbolRanking.SourceMetrics | x/tsRank.js:37 | no metric of the source bucket is flagged |
| SymbolRanking.BucketsPartition | x/tsRank.js:35-37 | the two buckets split the metrics: each keeps the input order, every metric is in exactly one, and for consistent flags the bucket is decided by the path |
| SymbolRanking.RankMetricsByDur | x/tsRank.js:91-98 | returns `min(logCount, n)` metrics, each flagged consistently with its path |
| SymbolRanking.RankMetricsByDurRanked | x/tsRank.js:91-98 | on consistently flagged input the ranking is the top `logCount` by non-increasing duration, taken from the input, stable on ties, with nothing left out longer than a listed metric |
| SymbolRanking.MetricLogMsg | x/tsRank.js:54-59 | the message shows the metric's duration, its relative path and start, and a 30-character name column |
| SymbolRanking.LogMetricGroup | x/tsRank.js:48-53 | the lines list the metrics in order, numbered 1, 2, …, n |
| SymbolRanking.RankSymbols | x/tsRank.js:29-47 | the report holds the input sizes and the numbered top-`logCount` listings of the source and node_modules buckets |
| SymbolRanking.BucketMembers | x/tsRank.js:35-37 | every metric of a bucket was extracted, matches the glob and is on its bucket's side of the node_modules test |
| SymbolRanking.ListingIsTopOfItsSide | x/tsRank.js:35-42 | each listing holds at most `logCount` glob-matching metrics of its side, costliest first, and no metric of that side left out took longer than a listed one |

## Left out

- Command-line parsing with yargs and the configuration globals. The limits, the glob and the path
  function are parameters.
- Limits that are not integers. yargs parses `FILE_LIMIT`, `FILE_TYPE_LIMIT` and `logCount` as
  JavaScript numbers (tsRank.ts:16-17, x/tsRank.js:15). `slice` truncates a fractional limit, and
  the `fileCount` labels (tsRank.ts:58, 70) then become fractional. `slice(0, NaN)` is empty, and
  the labels are then NaN. The model takes the limits as `int`, so it covers integer limits only.
- Reading and parsing the two JSON files, including the fallback to an empty list when a file is
  missing or empty. The model starts from the loaded sequences.
- The concurrent loading with `Promise.all`. It only matters for asynchrony.
- Glob semantics. micromatch is a foreign library, so `isMatch(path, glob)` is the predicate
  `matches`.
- Floating-point work: the `/ 1000` millisecond conversion, `toFixed`, `parseFloat` and the
  percentage of the grand total. The percentage is not a finite number when the grand total is 0.
  In the trace, `dur` is a fractional JavaScript number; the model takes it as a `nat`. The model's
  sums are therefore exact and do not depend on the order of their terms. The program's `sumBy`
  adds floats, so its sums are rounded and can depend on that order. `Seqs.SumByPermutation` and
  the sum clauses of `GroupByPathPartitions` and `OrderedGroupsRanked` hold for the exact sums.
- Console output, cli-color styling, `console.group` indentation, the `dirname`/`relative`
  rendering of `cli.filePath`, and the `padStart`/`padEnd` of the duration and counter labels. The
  printed lines are modelled as data: label, path, total, count and listed metrics for a file, and
  number, duration, name column, relative path and start for a symbol line.
- `Object.entries` puts integer-like keys first in ascending order. The model keeps groups in
  first-appearance order, which is what happens for file paths.
- JavaScript strings are UTF-16 code units; here they are sequences of `char`. The name column
  therefore counts characters rather than code units.
- Event and catalog fields the engine never reads: `ph`, `ts`, `pid`, `tid`, `flags`, `recursionId`,
  `instantiatedType`, `display`, and the arguments of events other than relation checks.
