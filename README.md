# Cluster lineage, k-truss search and run summaries

This project models the table-processing core of a cluster-analysis toolkit in Dafny:

- **Cluster fate** (`fate.py`). A "before" clustering has, per cluster, its nodes, its candidate descendants and an `extant` flag. An "after" clustering is given as node/cluster-id lines. From these, each before cluster gets a report with one row per active descendant, or one row with the null descendant. Each row carries the descendant's size, a size ratio and a fate: extant, degraded, reduced or split. The script's table steps are modelled one by one: group-and-count of cluster ids, the active-descendant filter, explode, outer merge, the filter on a known `extant`, ratio and fate. The result is proved equal to an independent per-cluster description, `ExpectedRows`.
- **Maximum k-truss search** (`tools/ktruss.py`). A binary search over k in [2, max degree]. The k-truss computation appears only as a monotone predicate.
- **k-truss post-processing** (`ktrusses.py`). The clusterer-parameter checks, and the loop that flattens per-cluster k-truss node lists into three columns.
- **Batch summary** (`batch_stats.py`). Configuration lines are whitespace-normalised into CSV. The first field of each line names a clustering. Its statistics table, found by replacing the extension with `_stats.csv`, is reduced to one summary record. Records are kept in configuration order.
- **Module summary** (`summarize.py`). The Overall row's modularity and CPM score, plus the five-number summaries of connectivity and normalised connectivity over the cluster rows.
- **Cluster-size frequency** (`cm_verification/cluster-freq.py`). A group-and-count of the statistics table's `n` column.

Supporting modules:

- `Grouping` is pandas' `groupby(...).size()`: ascending keys, one positive count per distinct key.
- `OrderStatistics` is pandas' `min`, `quantile` (linear interpolation at position (n-1)q), `median`, `mean` and `max` over a sorted copy.
- `StatsTable` is a statistics table: cluster rows followed by one Overall row.
- `Wrappers` holds `Option` and `Result`.

Files are read from a `map` from file name to parsed table. The network name (`argv[2]`) is a parameter.

The fate script names four fates (`fate.py:25-29`), and `calc_fate` returns `degraded` for a non-extant cluster without an active descendant (`fate.py:35-36`). But the ratio is computed first (`fate.py:81`). For such a row the merge finds no descendant size, and `int()` of the missing value raises (`fate.py:12`). So, as written, no report ever contains a degraded row: one dissolved cluster aborts the whole report. A non-extant cluster with no nodes and an active descendant divides by zero. `ClusterFates` models the script as written and returns an error (`MissingDescendantSize` or `ZeroInputSize`) exactly when some cluster `Fails`. `ClusterFatesCorrected` gives a dissolved cluster ratio 0 and reports it as degraded (see "## Findings").

Two more inputs make the script fail before any ratio is computed:

- A before file with no records becomes a table without columns, so reading `nodes` raises (`fate.py:65`). The model returns `EmptyBeforeTable`.
- When no before cluster has an active descendant, the exploded descendant column holds only nulls. pandas refuses to merge that column with the integer cluster ids (`fate.py:75`). The model returns `NullMergeKeys`.

## Model

| member | source | states |
|---|---|---|
| ClusterFate.CalcFate | fate.py:31-40 | extant iff the flag is set; otherwise degraded, reduced and split iff 0, 1 and at least 2 active descendants |
| ClusterFate.ComputeRatio | fate.py:8-12 | extant rows get ratio 1; a non-extant row without a descendant size, or with input size 0, is an error; a non-extant row with a descendant size and a positive input size always succeeds, with ratio × input size = descendant size |
| ClusterFate.ComputeRatioCorrected | fate.py:8-12 | as `ComputeRatio` wherever a descendant size exists; a non-extant row without one gets ratio 0 instead of an error |
| ClusterFate.DescendantSizesSpec | fate.py:56-57 | the size table is ascending, has a bucket exactly for the ids that occur, each bucket counts its id's lines and is at least 1, and the counts add up to the number of lines |
| ClusterFate.ActiveDescendants | fate.py:66 | every active descendant is a candidate with a size-table row |
| ClusterFate.ActiveDescendantsSpec | fate.py:66-67 | the active descendants are a subsequence of the candidates; each id occurs as often as among the candidates if it has a size row, and not at all otherwise |
| ClusterFate.ExplodeShape | fate.py:67-72 | a cluster yields max(1, #active) rows, all carrying its label, input size, active count and flag; their descendants are the active ones in order, or the single null one |
| ClusterFate.Unreferenced | fate.py:75 | the rows the outer merge adds from the size table alone: exactly one size-only row, with its count, for each bucket whose id no before row names, and no other row; for an ascending size table the rows have strictly ascending ids, so none repeats |
| ClusterFate.KnownExtantAppend | fate.py:78 | the filter on a known `extant` commutes with concatenation |
| ClusterFate.MergeThenFilter | fate.py:75-78 | outer merge followed by the `extant.notna()` filter equals the left join: size-only rows are dropped, before rows keep their order (in the model; pandas sorts by the key) |
| ClusterFate.MapAll | fate.py:81-84 | applying a fallible row function succeeds iff it succeeds on every row, and then gives the row results in order |
| ClusterFate.Classify | fate.py:81-84 | ratio-and-fate of a table succeeds iff it succeeds row by row, and keeps the row order |
| ClusterFate.ClassifyAppend | fate.py:81-84 | classifying a concatenation succeeds iff both parts do, and gives the concatenated results |
| ClusterFate.ClusterClassify | fate.py:65-84 | one cluster's rows are classified without error iff it does not fail, and then they are its expected rows |
| ClusterFate.PipelineByCluster | fate.py:81-84 | ratio and fate over the exploded, joined before rows succeed, under either ratio rule, iff no cluster fails, and then give each cluster's expected rows in order |
| ClusterFate.ClusterFatesSpec | fate.py:56-84 | an empty before list is `EmptyBeforeTable`; a before list without any active descendant is `NullMergeKeys`; otherwise the report is produced iff no cluster fails under the ratio rule, and is then the concatenation of every cluster's expected rows |
| ClusterFate.ExpectedRowsShape | fate.py:65-84 | one cluster's report rows: max(1, #active) of them, all with its label, size, count, flag and fate; descendants in order with their sizes from the size table |
| ClusterFate.ExpectedRowsWellFormed | fate.py:8-40 | every report row of a non-failing cluster has the fate of its flag and count, ratio 1 if extant, and otherwise a descendant of size at least 1 and ratio size / input size |
| ClusterFate.TableLength | fate.py:68-72 | the report has one row per active descendant and at least one per cluster |
| ClusterFate.TableRowOrigin | fate.py:68-72 | every report row is some row of some cluster's expected rows |
| ClusterFate.FateReport | fate.py:56-84 | a produced report has the expected number of rows, every row is well formed, and every descendant it names occurs in the after-clustering and is listed by some before cluster |
| ClusterFate.AllExtant | fate.py:56-84 | a before set with every cluster extant yields a report iff it is non-empty and some cluster has an active descendant; every row is then extant with ratio 1 |
| ClusterFate.DegradedAborts | fate.py:12-36 | as written, any dissolved cluster makes the report fail, and a produced report has no degraded row |
| ClusterFate.DissolvedClusterExample | fate.py:12-36 | a dissolved cluster next to a reduced one: the report as written fails with `MissingDescendantSize`; the corrected report lists the dissolved cluster as degraded with ratio 0 |
| ClusterFate.DegradedReported | fate.py:25-40 | in a corrected report, a row is degraded iff it is the null-descendant row of a non-extant cluster; it has no descendant size and ratio 0; every other row is well formed |
| Grouping.Insert | fate.py:57 | adding one occurrence keeps keys ascending and counts positive, adds one to that key's count and to the total |
| Grouping.Group | fate.py:57 | the grouped table is ascending and positive; each key's count is its number of occurrences; the counts sum to the input length |
| Grouping.GroupBuckets | fate.py:57 | the grouped table has a bucket exactly for the values that occur, each holding that value's count, at least 1 |
| Grouping.Lookup | fate.py:75 | looking a key up finds a bucket iff the key has one, and returns its count |
| KTruss.MaxDegree | tools/ktruss.py:6 | the result is one of the degrees and no degree exceeds it |
| KTruss.ScanDownSpec | tools/ktruss.py:9-20 | the downward scan returns the largest k in [2, top] with a non-empty k-truss, or min(top, 1) when there is none |
| KTruss.SearchDown | tools/ktruss.py:8-20 | the binary search over [2, top] returns the largest k there with a non-empty k-truss (below 2 when there is none: 1, or 0 when top is 0), the same as the downward scan from top |
| KTruss.FindMaxKTruss | tools/ktruss.py:3-20 | under monotonicity the search returns the largest k ≤ max degree with a non-empty k-truss; it is below 2 iff no such k exists (1, or 0 without edges); it equals the downward scan from the max degree |
| KTruss.TriangleCappedAtMaxDegree | tools/ktruss.py:6-20 | a triangle's 3-truss is non-empty, yet the search bounded by the max degree returns 2; with the bound max degree + 1 it returns 3 |
| KTruss.FindMaxKTrussCorrected | tools/ktruss.py:3-20 | with the bound max degree + 1 and no non-empty k-truss above it, the search returns the largest k with a non-empty k-truss, below 2 iff the 2-truss is empty |
| KTrusses.MakeClusterer | ktrusses.py:39-47 | Leiden needs a resolution other than -1, Leiden-modularity needs resolution -1, IKC needs k other than -1; each failure is its own error |
| KTrusses.ParametersIgnored | ktrusses.py:39-47 | Leiden variants do not depend on k, and IKC does not depend on the resolution |
| KTrusses.Spread | ktrusses.py:76-77 | repeating each value once per node of its list gives as many entries as there are nodes |
| KTrusses.BlockRows | ktrusses.py:72-79 | the row at offset j of list i's block holds node j of list i next to that list's index and k value |
| KTrusses.FlattenColumns | ktrusses.py:72-79 | the loop builds the concatenated node lists, and each cluster's index and k value repeated once per k-truss node; the three columns have the same length |
| OrderStatistics.Sort | batch_stats.py:24-29 | the sorted column is ascending and a permutation of the column |
| OrderStatistics.Min | batch_stats.py:24 | the minimum is an element of the column and at most every element |
| OrderStatistics.Max | batch_stats.py:29 | the maximum is an element of the column and at least every element |
| OrderStatistics.Mean | batch_stats.py:27 | mean × count = sum |
| OrderStatistics.Position | batch_stats.py:25 | the interpolation position splits (n-1)q into its floor, in [0, n-1], and a fraction in [0, 1) |
| OrderStatistics.SortEnds | batch_stats.py:24-29 | the first sorted value is the minimum and the last is the maximum |
| OrderStatistics.QuantileEnds | batch_stats.py:24-29 | the 0-quantile is the minimum and the 1-quantile is the maximum |
| OrderStatistics.QuantileMonotone | batch_stats.py:25-28 | quantiles are monotone in q |
| OrderStatistics.InterpolateBracket | batch_stats.py:25 | an interpolated quantile lies between the two sorted values around its position |
| OrderStatistics.MedianMiddle | batch_stats.py:26 | the median is the middle sorted value for odd lengths, and the mean of the two middle values for even lengths |
| OrderStatistics.QuartilesOrdered | batch_stats.py:24-29 | min ≤ q1 ≤ median ≤ q3 ≤ max |
| OrderStatistics.Distribution | batch_stats.py:82 | the five-number summary is [min, q1, median, q3, max] of the column, ascending, and brackets every value |
| StatsTable.TotalsAreColumnSums | batch_stats.py:21-22 | the integer totals of `n` and `m` equal the sums of the columns |
| BatchStats.Describe | batch_stats.py:24-29 | a column's distribution is its five-number summary and brackets every value; its mean is sum / count |
| BatchStats.SummarizeStats | batch_stats.py:10-98 | the record's network scalars, modularity and CPM score come from the last row; the cluster count is rows − 1; totals, the six distributions and the six means are taken over the cluster rows only |
| BatchStats.ClusterSizesBounded | batch_stats.py:24-29 | every cluster's size lies between the smallest and the largest entry of the size distribution |
| BatchStats.OverallRowIgnored | batch_stats.py:19-73 | tables that differ only in the Overall row have the same totals, distributions and means |
| BatchStats.LoadAll | batch_stats.py:113 | loading succeeds iff every named table exists and has a cluster row, and returns the tables in order; otherwise the error names the first unusable table |
| BatchStats.SummarizeAll | batch_stats.py:112-116 | without any clustering the batch fails with `NoSummaries` (nothing to concatenate); otherwise it succeeds iff every clustering's statistics table is usable, and gives one summary per clustering, keyed by it, in order |
| BatchStats.SummarizeAllFirstFailure | batch_stats.py:112-115 | a failed batch is `NoSummaries` iff there is no clustering; otherwise it names the statistics table of the first clustering that cannot be summarised |
| BatchStats.SummarizeAllValues | batch_stats.py:113-117 | with every table usable, the batch succeeds iff there is a clustering, and each clustering's summary is the summary of its own statistics table |
| BatchStats.Summaries | batch_stats.py:109-117 | a configuration without a clustering line fails with `NoSummaries`; otherwise the batch succeeds iff every configured clustering's table is usable, with one record per clustering, keyed in configuration order |
| BatchConfig.DropLeadingSpace | batch_stats.py:104 | removes exactly a whitespace prefix, leaving no leading whitespace |
| BatchConfig.DropTrailingSpace | batch_stats.py:104 | removes exactly a whitespace suffix, leaving no trailing whitespace |
| BatchConfig.CollapseSpaces | batch_stats.py:107 | the substitution leaves no whitespace |
| BatchConfig.FieldsAreWords | batch_stats.py:104-107 | the whitespace-separated fields are non-empty and contain no whitespace |
| BatchConfig.FieldsWithout | batch_stats.py:104-107 | a character absent from a line is absent from all its fields |
| BatchConfig.NormalizeIsJoinOfFields | batch_stats.py:104-107 | stripping and replacing each whitespace run by a comma gives the line's fields joined by commas |
| BatchConfig.SplitJoin | batch_stats.py:107-109 | splitting a join on a separator that occurs in no part gives back the parts |
| BatchConfig.ConfigCsvLines | batch_stats.py:106-109 | the CSV text splits into the header followed by the normalised lines |
| BatchConfig.ClusteringIsFirstField | batch_stats.py:109-111 | for a line without commas, the clustering cell is its first whitespace-separated field, and the line is blank iff it has no field |
| BatchConfig.LastIndexOf | batch_stats.py:112 | the last index of a character, or -1: that character sits there and not after it |
| BatchConfig.SplitExt | batch_stats.py:112 | root followed by extension gives back the path; the extension is non-empty iff the last component has a dot after a character that is not a dot, and it then starts at the last dot and holds no other dot and no slash |
| BatchConfig.SplitExtExamples | batch_stats.py:112 | `a/b.txt` and `a/b.tar.gz` split at their last dot; `a/.bashrc` and `a.d/b` have no extension |
| BatchConfig.LastIndexOfAppend | batch_stats.py:112 | the last occurrence in a concatenation is in the second part if the character occurs there, and otherwise in the first |
| BatchConfig.StatsFileNameSplits | batch_stats.py:112 | the statistics file name splits into root + `_stats` and extension `.csv` |
| Summarize.ModuleSummary | summarize.py:11-42 | twelve entries under the twelve keys in order; modularity and CPM score come from the Overall row; the two five-number summaries are those of connectivity and normalised connectivity over the cluster rows |
| Summarize.KeysDistinct | summarize.py:29-42 | the twelve keys are distinct |
| Summarize.AgreesWithBatchSummary | summarize.py:11-27 | for the same table, the module summary's modularity, CPM score and two connectivity distributions are those of the batch summary |
| Summarize.OverallRowIgnored | summarize.py:15-27 | tables that differ only in the Overall row have the same connectivity summaries |
| ClusterFreq.Freq | cm_verification/cluster-freq.py:7 | the frequency table is ascending and positive; each size's count is its number of rows; the counts sum to the number of rows |
| ClusterFreq.FreqKeys | cm_verification/cluster-freq.py:7 | the frequency table has a bucket exactly for the sizes that occur, each holding that size's row count, at least 1 |
| ClusterFreq.OverallCounted | cm_verification/cluster-freq.py:7 | the Overall row adds one to the count of the network's own size |

## Findings

| source | as written | input that shows it | evidently intended | confidence | as-written member | corrected member |
|---|---|---|---|---|---|---|
| fate.py:12 | the ratio is computed before the fate, and `int()` of the missing descendant size raises for a non-extant cluster without an active descendant | before clusters "a" (one node, no descendant, not extant) and "b" (two nodes, descendant 5, not extant), after-clustering one node in cluster 5: the script aborts instead of reporting "a" | a dissolved cluster is reported with fate degraded (docstring at line 27, branch at lines 35-36), its ratio 0 | medium, not executed | ClusterFate.DegradedAborts, ClusterFate.DissolvedClusterExample | ClusterFate.ComputeRatioCorrected, ClusterFate.DegradedReported |
| tools/ktruss.py:6 | the search's upper bound is the max degree | a triangle: max degree 2, every edge on one triangle, so its 3-truss is the whole graph; the search returns 2 | the largest k with a non-empty k-truss (line 19), which can be max degree + 1, as for any clique | medium, not executed | KTruss.FindMaxKTruss, KTruss.TriangleCappedAtMaxDegree | KTruss.FindMaxKTrussCorrected |

## Left out

- File and console I/O is not modelled: CSV, TSV and JSON reading and writing, `print`, the command-line options (typer) and `argv`. The files are a map from name to parsed rows, the network name is a parameter, and the configuration file is a sequence of lines.
- The graph algorithms are not modelled: the clusterers, graph loading, realising subgraphs, edge counting, the k-truss of a subgraph (`nx.k_truss`, `retrieve_ktruss_nodes`) and minimum cuts. They are foreign calls; the k-truss test is a monotone predicate parameter, and the node lists are inputs.
- `stats.py` is not part of this model.
- Output file naming is not modelled: `fate.py:51-53` (`_cluster_fate.csv`), `ktrusses.py:29-35` (its input `_stats.csv` and output `_ktruss.csv`), `summarize.py:44` (`_summary.csv`) and `cluster-freq.py:9` (`_freq.csv`). Only the `_stats.csv` naming of the batch is modelled.
- ClusterFate.ClusterFatesSpec: `NullMergeKeys` stands for pandas' refusal to merge an object column holding only nulls with an integer column. The model does not follow pandas' dtype inference further; any before set with at least one active descendant merges.
- ClusterFate.MergeThenFilter: a before record without an `extant` value, or with a null one, is outside the model, since `extant` is a `bool`. The script gives such a record a missing `extant` after the merge, and the filter at `fate.py:78` then drops its rows without an error, so the cluster silently vanishes from the report. The model's claim that the filter keeps every before row holds only for records that carry `extant`.
- ClusterFate.ClusterFatesSpec: as for MergeThenFilter, every before record is assumed to carry a non-null `extant`; records without one, which the script drops silently, are not modelled.
- ClusterFate.AllExtant: a non-empty before set in which every cluster is extant and none has an active descendant, where no cluster was refined, fails with `NullMergeKeys` as the script does. Reporting every cluster as extant with ratio 1 for that input would be the evidently useful behaviour. The model does not include a variant that merges all-null keys, so that acceptance is not modelled.
- ClusterFate.ClusterFatesSpec: the pandas outer merge sorts rows by the join key. The model keeps the before-table order, so equality with the pandas output holds as a multiset, not as an order.
- ClusterFate.MergeThenFilter: for the same reason, "before rows keep their order" describes the model, not pandas, which sorts the merged rows by the join key; the rows agree as a multiset.
- ClusterFate.ComputeRatio: the extant ratio is the Python integer 1, modelled as the real 1.0. Floating-point rounding of the division is not modelled; ratios are exact rationals.
- NaN handling is not modelled. A statistics table with only its Overall row gives NaN statistics in pandas; the model reports it as `NoClusters` (see BatchStats.LoadAll), and SummarizeStats requires a cluster row. An empty table makes `iloc[-1]` raise; it is also reported as `NoClusters`.
- BatchStats.SummarizeStats: every statistics table is assumed to carry all the columns the summaries read (`n`, `m`, `modularity`, `cpm_score`, `conductance`, `connectivity`, `connectivity_normalized`). The same holds for Summarize.ModuleSummary, which reads `modularity`, `cpm_score` and the two connectivity columns. A run without a resolution, such as IKC, may have no `cpm_score` column; reading it then raises KeyError (`batch_stats.py:41`, `summarize.py:13`) and aborts the batch at `batch_stats.py:113`. A `StatsRow` always has a CPM score, so the model cannot express that table. "Usable" in BatchStats.LoadAll, BatchStats.SummarizeAll and BatchStats.Summaries assumes these columns are present.
- BatchStats.SummarizeStats: the table's `n` and `m` columns are integers; the sums of the other columns are exact reals, not floating point.
- CSV details are not modelled: quoting, extra columns in the configuration and the batch's transposed output layout (`batch_stats.py:115-121`). The summary records are returned in order, keyed by clustering.
- BatchConfig.ClusteringIsFirstField: proved only for lines without commas. A comma already in a line would shift the CSV fields.
- KTruss.FindMaxKTruss: the search raises on a graph without nodes (`max` of an empty sequence); the model requires at least one degree.
- Python's `-O` flag, which strips the `assert` checks at `ktrusses.py:40-46`, is not modelled: the checks always run.
