/**
 * The per-run module summary: the network's modularity and CPM score from the
 * Overall row, then the five-number summaries of the connectivity and the
 * normalised connectivity over the cluster rows.
 */
module Summarize {

  import opened OrderStatistics
  import opened StatsTable
  import BatchStats

  /** The keys of the summary, in output order. */
  const Keys: seq<string> := [
    "modularity", "cpm_score",
    "mincuts_min", "mincuts_q1", "mincuts_med", "mincuts_q3", "mincuts_max",
    "mincuts_min_normalized", "mincuts_q1_normalized", "mincuts_med_normalized",
    "mincuts_q3_normalized", "mincuts_max_normalized"]

  /** The values stored under keys `from` to `from + 4`. */
  function Values(r: seq<(string, real)>, from: nat): (v: seq<real>)
    requires from + 5 <= |r|
    ensures |v| == 5 && forall i :: 0 <= i < 5 ==> v[i] == r[from + i].1
  {
    [r[from].1, r[from + 1].1, r[from + 2].1, r[from + 3].1, r[from + 4].1]
  }

  /**
   * The module summary of a statistics table whose last row is the Overall
   * row: twelve entries under exactly `Keys`, no mean among them.
   */
  function ModuleSummary(rows: seq<StatsRow>): (r: seq<(string, real)>)
    requires |rows| >= 2
    ensures |r| == |Keys| && forall i :: 0 <= i < |Keys| ==> r[i].0 == Keys[i]
    ensures r[0].1 == rows[|rows| - 1].modularity && r[1].1 == rows[|rows| - 1].cpmScore
    ensures Summarizes(Values(r, 2), Column(Body(rows), Connectivity))
    ensures Summarizes(Values(r, 7), Column(Body(rows), ConnectivityNormalized))
  {
    var overall := Overall(rows);
    var mincuts := Distribution(Column(Body(rows), Connectivity));
    var normalized := Distribution(Column(Body(rows), ConnectivityNormalized));
    var head := [overall.modularity, overall.cpmScore];
    var r := Zip(Keys, head + mincuts + normalized);
    ZipValues(Keys, head, mincuts, normalized);
    r
  }

  /** Pairs each key with the value at the same index. */
  function Zip(ks: seq<string>, vs: seq<real>): (r: seq<(string, real)>)
    requires |ks| == |vs|
    ensures |r| == |ks| && forall i :: 0 <= i < |ks| ==> r[i] == (ks[i], vs[i])
  {
    seq(|ks|, i requires 0 <= i < |ks| => (ks[i], vs[i]))
  }

  /** Two scalars then two blocks of five: each block is read back by `Values`. */
  lemma ZipValues(ks: seq<string>, head: seq<real>, a: seq<real>, b: seq<real>)
    requires |head| == 2 && |a| == 5 && |b| == 5 && |ks| == 12
    ensures var r := Zip(ks, head + a + b);
      r[0].1 == head[0] && r[1].1 == head[1] && Values(r, 2) == a && Values(r, 7) == b
  {
    var vs := head + a + b;
    var r := Zip(ks, vs);
    assert forall i :: 0 <= i < 5 ==> Values(r, 2)[i] == vs[2 + i] == a[i];
    assert forall i :: 0 <= i < 5 ==> Values(r, 7)[i] == vs[7 + i] == b[i];
  }

  /** The twelve keys are distinct, so the summary is a well-formed keyed series. */
  lemma KeysDistinct()
    ensures forall i, j :: 0 <= i < j < |Keys| ==> Keys[i] != Keys[j]
  {
  }

  /** Two five-number summaries of the same column are the same. */
  lemma SummaryUnique(d: seq<real>, e: seq<real>, col: seq<real>)
    requires Summarizes(d, col) && Summarizes(e, col)
    ensures d == e
  {
  }

  /**
   * The module summary agrees with the batch summary of the same table: the
   * same modularity and CPM score, and the same two connectivity distributions.
   */
  lemma AgreesWithBatchSummary(network: string, rows: seq<StatsRow>)
    requires |rows| >= 2
    ensures var m := ModuleSummary(rows);
      var s := BatchStats.SummarizeStats(network, rows);
      && m[0].1 == s.totalModularity && m[1].1 == s.totalCpmScore
      && Values(m, 2) == s.mincutsDist
      && Values(m, 7) == s.mincutsNormalizedDist
  {
    var m := ModuleSummary(rows);
    var s := BatchStats.SummarizeStats(network, rows);
    assert BatchStats.ClusterColumn(rows, Connectivity) == Column(Body(rows), Connectivity);
    assert BatchStats.ClusterColumn(rows, ConnectivityNormalized) == Column(Body(rows), ConnectivityNormalized);
    SummaryUnique(Values(m, 2), s.mincutsDist, Column(Body(rows), Connectivity));
    SummaryUnique(Values(m, 7), s.mincutsNormalizedDist, Column(Body(rows), ConnectivityNormalized));
  }

  /** The Overall row never enters the connectivity statistics. */
  lemma OverallRowIgnored(a: seq<StatsRow>, b: seq<StatsRow>)
    requires |a| >= 2 && |a| == |b|
    requires forall i :: 0 <= i < |a| - 1 ==> a[i] == b[i]
    ensures Values(ModuleSummary(a), 2) == Values(ModuleSummary(b), 2)
    ensures Values(ModuleSummary(a), 7) == Values(ModuleSummary(b), 7)
  {
    assert Body(a) == Body(b);
    SummaryUnique(Values(ModuleSummary(a), 2), Values(ModuleSummary(b), 2), Column(Body(a), Connectivity));
    SummaryUnique(Values(ModuleSummary(a), 7), Values(ModuleSummary(b), 7),
      Column(Body(a), ConnectivityNormalized));
  }
}
