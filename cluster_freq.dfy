/**
 * The cluster-size frequency table: the number of rows of a statistics table
 * for each distinct value of its `n` column. Every row is counted, the
 * Overall row included.
 */
module ClusterFreq {

  import opened Grouping
  import opened StatsTable

  /** The `n` column of every row, Overall included. */
  function Sizes(rows: seq<StatsRow>): (ns: seq<int>)
    ensures |ns| == |rows| && forall i :: 0 <= i < |rows| ==> ns[i] == rows[i].n
  {
    seq(|rows|, i requires 0 <= i < |rows| => rows[i].n)
  }

  /**
   * The frequency table: one bucket per distinct size, in ascending order,
   * each counting the rows of that size; together they count every row.
   */
  function Freq(rows: seq<StatsRow>): (h: Histogram)
    ensures Ascending(h) && Positive(h)
    ensures forall x :: CountOf(h, x) == Count(Sizes(rows), x)
    ensures Total(h) == |rows|
  {
    Group(Sizes(rows))
  }

  /** The keys are exactly the sizes that occur, and each bucket holds its size's row count. */
  lemma FreqKeys(rows: seq<StatsRow>)
    ensures forall x :: HasKey(Freq(rows), x) <==> exists i :: 0 <= i < |rows| && rows[i].n == x
    ensures forall b :: 0 <= b < |Freq(rows)| ==>
      Freq(rows)[b].count == Count(Sizes(rows), Freq(rows)[b].key) >= 1
  {
    var ns := Sizes(rows);
    GroupBuckets(ns);
    forall x ensures x in ns <==> exists i :: 0 <= i < |rows| && rows[i].n == x {
      if x in ns {
        var i :| 0 <= i < |ns| && ns[i] == x;
        assert rows[i].n == x;
      }
    }
  }

  lemma {:induction false} CountAppend(s: seq<int>, y: int, x: int)
    ensures Count(s + [y], x) == Count(s, x) + (if y == x then 1 else 0)
  {
    if s != [] {
      assert (s + [y])[1..] == s[1..] + [y];
      CountAppend(s[1..], y, x);
    }
  }

  /** The Overall row adds one to the count of the network's own size. */
  lemma OverallCounted(rows: seq<StatsRow>)
    requires |rows| >= 1
    ensures CountOf(Freq(rows), Overall(rows).n) ==
      Count(Sizes(Body(rows)), Overall(rows).n) + 1
  {
    assert Sizes(rows) == Sizes(Body(rows)) + [Overall(rows).n];
    CountAppend(Sizes(Body(rows)), Overall(rows).n, Overall(rows).n);
  }
}
