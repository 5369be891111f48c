/**
 * A per-run statistics table: one row per cluster, then one "Overall" row for
 * the whole network. The summaries read the network's scalars off the last
 * row and aggregate the metric columns over all the other rows.
 */
module StatsTable {

  import opened OrderStatistics

  /**
   * One row of the table. In the Overall row the per-cluster metrics
   * (connectivity, conductance) have no meaning and are never read.
   */
  datatype StatsRow = StatsRow(
    cluster: string, n: int, m: int, modularity: real, cpmScore: real,
    conductance: real, connectivity: real, connectivityNormalized: real)

  datatype Metric = N | M | Modularity | CpmScore | Conductance | Connectivity | ConnectivityNormalized

  function Value(r: StatsRow, c: Metric): real
  {
    match c
    case N => r.n as real
    case M => r.m as real
    case Modularity => r.modularity
    case CpmScore => r.cpmScore
    case Conductance => r.conductance
    case Connectivity => r.connectivity
    case ConnectivityNormalized => r.connectivityNormalized
  }

  /** The column of metric `c`, row by row. */
  function Column(rows: seq<StatsRow>, c: Metric): (col: seq<real>)
    ensures |col| == |rows|
    ensures forall i :: 0 <= i < |rows| ==> col[i] == Value(rows[i], c)
  {
    seq(|rows|, i requires 0 <= i < |rows| => Value(rows[i], c))
  }

  /** Every row but the last: the clusters. */
  function Body(rows: seq<StatsRow>): seq<StatsRow>
    requires |rows| >= 1
  {
    rows[..|rows| - 1]
  }

  /** The last row: the whole network. */
  function Overall(rows: seq<StatsRow>): StatsRow
    requires |rows| >= 1
  {
    rows[|rows| - 1]
  }

  function TotalNodes(rows: seq<StatsRow>): int
  {
    if rows == [] then 0 else rows[0].n + TotalNodes(rows[1..])
  }

  function TotalEdges(rows: seq<StatsRow>): int
  {
    if rows == [] then 0 else rows[0].m + TotalEdges(rows[1..])
  }

  /** The integer totals agree with the sums of the corresponding real columns. */
  lemma {:induction false} TotalsAreColumnSums(rows: seq<StatsRow>)
    ensures TotalNodes(rows) as real == Sum(Column(rows, N))
    ensures TotalEdges(rows) as real == Sum(Column(rows, M))
  {
    if rows != [] {
      TotalsAreColumnSums(rows[1..]);
      assert Column(rows, N)[1..] == Column(rows[1..], N);
      assert Column(rows, M)[1..] == Column(rows[1..], M);
    }
  }
}
