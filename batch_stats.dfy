/**
 * The batch summary: for every clustering named in the configuration, its
 * statistics table is reduced to one summary record, and the records are
 * listed in configuration order.
 */
module BatchStats {

  import opened Wrappers
  import opened OrderStatistics
  import opened StatsTable
  import opened BatchConfig

  /** One summary record, its fields in the order the summary table lists them. */
  datatype Summary = Summary(
    network: string,
    numClusters: int,
    networkN: int,
    networkM: int,
    totalN: int,
    totalM: int,
    clusterSizeDist: seq<real>,
    meanClusterSize: real,
    totalModularity: real,
    modularityDist: seq<real>,
    modularityMean: real,
    totalCpmScore: real,
    cpmDist: seq<real>,
    cpmMean: real,
    conductanceDist: seq<real>,
    conductanceMean: real,
    mincutsDist: seq<real>,
    mincutsMean: real,
    mincutsNormalizedDist: seq<real>,
    mincutsMeanNormalized: real)

  /** The column of metric `c` over the cluster rows only. */
  function ClusterColumn(rows: seq<StatsRow>, c: Metric): (col: seq<real>)
    requires |rows| >= 2
    ensures |col| == |rows| - 1
    ensures forall i :: 0 <= i < |rows| - 1 ==> col[i] == Value(rows[i], c)
  {
    Column(Body(rows), c)
  }

  /** The five-number summary and the mean of a column of `k` values. */
  function Describe(col: seq<real>, k: nat): (r: (seq<real>, real))
    requires |col| == k > 0
    ensures Summarizes(r.0, col)
    ensures forall i :: 0 <= i < |col| ==> r.0[0] <= col[i] <= r.0[4]
    ensures r.1 == Sum(col) / k as real
  {
    (Distribution(col), Mean(col))
  }

  /**
   * The summary of one statistics table whose last row is the Overall row.
   * The network's scalars come from that row; every total, distribution and
   * mean is taken over the cluster rows before it.
   */
  function SummarizeStats(network: string, rows: seq<StatsRow>): (s: Summary)
    requires |rows| >= 2
    ensures s.network == network
    ensures s.numClusters == |rows| - 1
    ensures s.networkN == rows[|rows| - 1].n && s.networkM == rows[|rows| - 1].m
    ensures s.totalModularity == rows[|rows| - 1].modularity
    ensures s.totalCpmScore == rows[|rows| - 1].cpmScore
    ensures s.totalN as real == Sum(ClusterColumn(rows, N))
    ensures s.totalM as real == Sum(ClusterColumn(rows, M))
    ensures Summarizes(s.clusterSizeDist, ClusterColumn(rows, N))
    ensures Summarizes(s.modularityDist, ClusterColumn(rows, Modularity))
    ensures Summarizes(s.cpmDist, ClusterColumn(rows, CpmScore))
    ensures Summarizes(s.conductanceDist, ClusterColumn(rows, Conductance))
    ensures Summarizes(s.mincutsDist, ClusterColumn(rows, Connectivity))
    ensures Summarizes(s.mincutsNormalizedDist, ClusterColumn(rows, ConnectivityNormalized))
    ensures s.meanClusterSize == s.totalN as real / s.numClusters as real
    ensures s.modularityMean == Sum(ClusterColumn(rows, Modularity)) / s.numClusters as real
    ensures s.cpmMean == Sum(ClusterColumn(rows, CpmScore)) / s.numClusters as real
    ensures s.conductanceMean == Sum(ClusterColumn(rows, Conductance)) / s.numClusters as real
    ensures s.mincutsMean == Sum(ClusterColumn(rows, Connectivity)) / s.numClusters as real
    ensures s.mincutsMeanNormalized == Sum(ClusterColumn(rows, ConnectivityNormalized)) / s.numClusters as real
  {
    var body := Body(rows);
    var overall := Overall(rows);
    var k := |rows| - 1;
    TotalsAreColumnSums(body);
    var (sizeDist, sizeMean) := Describe(ClusterColumn(rows, N), k);
    var (modularityDist, modularityMean) := Describe(ClusterColumn(rows, Modularity), k);
    var (cpmDist, cpmMean) := Describe(ClusterColumn(rows, CpmScore), k);
    var (conductanceDist, conductanceMean) := Describe(ClusterColumn(rows, Conductance), k);
    var (mincutsDist, mincutsMean) := Describe(ClusterColumn(rows, Connectivity), k);
    var (normalizedDist, normalizedMean) := Describe(ClusterColumn(rows, ConnectivityNormalized), k);
    Summary(
      network, k, overall.n, overall.m, TotalNodes(body), TotalEdges(body),
      sizeDist, sizeMean,
      overall.modularity, modularityDist, modularityMean,
      overall.cpmScore, cpmDist, cpmMean,
      conductanceDist, conductanceMean,
      mincutsDist, mincutsMean,
      normalizedDist, normalizedMean)
  }

  /** Every cluster's size lies between the smallest and the largest entry of the size distribution. */
  lemma ClusterSizesBounded(network: string, rows: seq<StatsRow>, i: int)
    requires |rows| >= 2 && 0 <= i < |rows| - 1
    ensures var d := SummarizeStats(network, rows).clusterSizeDist;
      d[0] <= rows[i].n as real <= d[4]
  {
    var col := ClusterColumn(rows, N);
    assert col[i] == rows[i].n as real;
    var d := SummarizeStats(network, rows).clusterSizeDist;
    assert d[0] == Min(col) && d[4] == Max(col);
  }

  /** The fields of a summary that aggregate over the cluster rows. */
  function Aggregates(s: Summary): (seq<seq<real>>, seq<real>, (int, int))
  {
    ([s.clusterSizeDist, s.modularityDist, s.cpmDist, s.conductanceDist,
      s.mincutsDist, s.mincutsNormalizedDist],
     [s.meanClusterSize, s.modularityMean, s.cpmMean, s.conductanceMean,
      s.mincutsMean, s.mincutsMeanNormalized],
     (s.totalN, s.totalM))
  }

  /**
   * The Overall row never enters a total, a distribution or a mean: two
   * tables that differ only in their last row have the same aggregates.
   */
  lemma OverallRowIgnored(network: string, a: seq<StatsRow>, b: seq<StatsRow>)
    requires |a| >= 2 && |a| == |b|
    requires forall i :: 0 <= i < |a| - 1 ==> a[i] == b[i]
    ensures Aggregates(SummarizeStats(network, a)) == Aggregates(SummarizeStats(network, b))
  {
    assert Body(a) == Body(b);
  }

  // ---------------------------------------------------------------------------
  // The whole batch

  datatype SummaryError =
    | MissingStats(file: string)   // no statistics table under this name
    | NoClusters(file: string)     // the table has no cluster row before the Overall row
    | NoSummaries                  // no clustering configured: there is nothing to concatenate

  /** Whether the table `name` is present and has a cluster row before its Overall row. */
  predicate Loadable(files: map<string, seq<StatsRow>>, name: string)
  {
    name in files && |files[name]| >= 2
  }

  /** The statistics table of each clustering: its path with the extension replaced by `_stats.csv`. */
  function StatsFileNames(clusterings: seq<string>): (r: seq<string>)
    ensures |r| == |clusterings|
    ensures forall i :: 0 <= i < |r| ==> r[i] == StatsFileName(clusterings[i])
  {
    seq(|clusterings|, i requires 0 <= i < |clusterings| => StatsFileName(clusterings[i]))
  }

  /** The tables named by `names`, in order; the first one unusable is reported. */
  function LoadAll(names: seq<string>, files: map<string, seq<StatsRow>>)
    : (r: Result<seq<seq<StatsRow>>, SummaryError>)
    ensures r.Ok? <==> forall i :: 0 <= i < |names| ==> Loadable(files, names[i])
    ensures r.Ok? ==>
      && |r.value| == |names|
      && forall i :: 0 <= i < |names| ==> r.value[i] == files[names[i]]
    ensures r.Err? ==> !r.error.NoSummaries?
    ensures r.Err? ==>
      exists i :: 0 <= i < |names| && !Loadable(files, names[i]) &&
        r.error.file == names[i] &&
        forall j :: 0 <= j < i ==> Loadable(files, names[j])
  {
    if names == [] then Ok([])
    else if names[0] !in files then Err(MissingStats(names[0]))
    else if |files[names[0]]| < 2 then Err(NoClusters(names[0]))
    else
      var rest := LoadAll(names[1..], files);
      if rest.Err? then
        ghost var i :| 0 <= i < |names| - 1 && !Loadable(files, names[1..][i]) &&
          rest.error.file == names[1..][i] &&
          forall j :: 0 <= j < i ==> Loadable(files, names[1..][j]);
        assert !Loadable(files, names[i + 1]);
        rest
      else
        var out := [files[names[0]]] + rest.value;
        assert forall i :: 0 < i < |names| ==> names[i] == names[1..][i - 1] && out[i] == rest.value[i - 1];
        Ok(out)
  }

  /**
   * The summary of each clustering, keyed by the clustering, in the given
   * order; it fails exactly when some clustering's statistics table is
   * missing or has no cluster row, or when there is no clustering at all.
   */
  function SummarizeAll(clusterings: seq<string>, files: map<string, seq<StatsRow>>, network: string)
    : (r: Result<seq<(string, Summary)>, SummaryError>)
    ensures r.Ok? <==>
      |clusterings| > 0 && forall i :: 0 <= i < |clusterings| ==> Loadable(files, StatsFileName(clusterings[i]))
    ensures r.Ok? ==>
      && |r.value| == |clusterings|
      && forall i :: 0 <= i < |clusterings| ==> r.value[i].0 == clusterings[i]
    ensures clusterings == [] ==> r == Err(NoSummaries)
  {
    var names := StatsFileNames(clusterings);
    var tables := LoadAll(names, files);
    if tables.Err? then
      Err(tables.error)
    else if clusterings == [] then
      Err(NoSummaries)
    else
      Ok(seq(|clusterings|, i requires 0 <= i < |clusterings| =>
        (clusterings[i], SummarizeStats(network, tables.value[i]))))
  }

  /**
   * A failed batch with no clustering reports that there is nothing to
   * summarise; any other failed batch names the statistics table of the first
   * clustering that cannot be summarised.
   */
  lemma SummarizeAllFirstFailure(clusterings: seq<string>, files: map<string, seq<StatsRow>>, network: string)
    requires SummarizeAll(clusterings, files, network).Err?
    ensures var r := SummarizeAll(clusterings, files, network);
      r.error.NoSummaries? <==> clusterings == []
    ensures var r := SummarizeAll(clusterings, files, network);
      clusterings != [] ==>
      exists i :: 0 <= i < |clusterings| && !Loadable(files, StatsFileName(clusterings[i])) &&
        r.error.file == StatsFileName(clusterings[i]) &&
        forall j :: 0 <= j < i ==> Loadable(files, StatsFileName(clusterings[j]))
  {
    var names := StatsFileNames(clusterings);
    var tables := LoadAll(names, files);
    if clusterings == [] {
      return;
    }
    var i :| 0 <= i < |names| && !Loadable(files, names[i]) && tables.error.file == names[i] &&
      forall j :: 0 <= j < i ==> Loadable(files, names[j]);
    assert !Loadable(files, StatsFileName(clusterings[i]));
  }

  /** Each clustering's summary is the summary of its own statistics table. */
  lemma SummarizeAllValues(clusterings: seq<string>, files: map<string, seq<StatsRow>>, network: string)
    requires forall i :: 0 <= i < |clusterings| ==> Loadable(files, StatsFileName(clusterings[i]))
    ensures SummarizeAll(clusterings, files, network).Ok? <==> clusterings != []
    ensures var r := SummarizeAll(clusterings, files, network);
      r.Ok? ==> forall i :: 0 <= i < |clusterings| ==>
        r.value[i] == (clusterings[i], SummarizeStats(network, files[StatsFileName(clusterings[i])]))
  {
    var names := StatsFileNames(clusterings);
    var tables := LoadAll(names, files);
    assert tables.Ok?;
    forall i | 0 <= i < |clusterings|
      ensures tables.value[i] == files[StatsFileName(clusterings[i])]
    {
      assert names[i] == StatsFileName(clusterings[i]);
    }
  }

  /**
   * The whole batch: the clusterings named by the configuration lines, each
   * summarised from its `_stats.csv` table, in configuration order. A
   * configuration without a clustering line has nothing to summarise.
   */
  function Summaries(lines: seq<string>, files: map<string, seq<StatsRow>>, network: string)
    : (r: Result<seq<(string, Summary)>, SummaryError>)
    ensures Clusterings(lines) == [] ==> r == Err(NoSummaries)
    ensures r.Ok? <==> (Clusterings(lines) != [] &&
      forall i :: 0 <= i < |Clusterings(lines)| ==> Loadable(files, StatsFileName(Clusterings(lines)[i])))
    ensures r.Ok? ==> |r.value| == |Clusterings(lines)|
    ensures r.Ok? ==> forall i :: 0 <= i < |r.value| ==> r.value[i].0 == Clusterings(lines)[i]
  {
    SummarizeAll(Clusterings(lines), files, network)
  }
}
