/**
 * Order statistics of a column of reals as pandas computes them: minimum,
 * maximum, sum, mean, and the quantile by linear interpolation between the
 * two nearest ranks of the sorted column (the median is the 0.5 quantile).
 * Missing values (NaN) do not occur here: a column is a sequence of reals.
 */
module OrderStatistics {

  predicate Sorted(s: seq<real>)
  {
    forall i, j :: 0 <= i < j < |s| ==> s[i] <= s[j]
  }

  /** Places `x` into a sorted sequence. */
  function InsertSorted(s: seq<real>, x: real): (r: seq<real>)
    requires Sorted(s)
    ensures Sorted(r)
    ensures multiset(r) == multiset(s) + multiset{x}
    ensures |r| == |s| + 1
  {
    if s == [] || x <= s[0] then
      SortedCons(x, s);
      [x] + s
    else
      assert s == [s[0]] + s[1..];
      var t := InsertSorted(s[1..], x);
      BoundedBelow(s, x, t);
      SortedCons(s[0], t);
      [s[0]] + t
  }

  lemma SortedCons(a: real, t: seq<real>)
    requires Sorted(t) && forall k :: 0 <= k < |t| ==> a <= t[k]
    ensures Sorted([a] + t)
  {
    forall i, j | 0 <= i < j < |t| + 1 ensures ([a] + t)[i] <= ([a] + t)[j] {
      if i > 0 {
        assert ([a] + t)[i] == t[i - 1];
      }
      assert ([a] + t)[j] == t[j - 1];
    }
  }

  /** Everything placed after the head of a sorted sequence, `x` included, is at least the head. */
  lemma BoundedBelow(s: seq<real>, x: real, t: seq<real>)
    requires Sorted(s) && s != [] && s[0] < x
    requires multiset(t) == multiset(s[1..]) + multiset{x}
    ensures forall k :: 0 <= k < |t| ==> s[0] <= t[k]
  {
    forall k | 0 <= k < |t| ensures s[0] <= t[k] {
      assert t[k] in multiset(t);
      if t[k] != x {
        assert t[k] in multiset(s[1..]);
        var j :| 0 <= j < |s[1..]| && s[1..][j] == t[k];
        assert s[j + 1] == t[k];
      }
    }
  }

  /** The column in ascending order. */
  function Sort(s: seq<real>): (r: seq<real>)
    ensures Sorted(r)
    ensures multiset(r) == multiset(s)
    ensures |r| == |s|
  {
    if s == [] then []
    else
      assert s == [s[0]] + s[1..];
      InsertSorted(Sort(s[1..]), s[0])
  }

  function Sum(s: seq<real>): real
  {
    if s == [] then 0.0 else s[0] + Sum(s[1..])
  }

  function Mean(s: seq<real>): (r: real)
    requires |s| > 0
    ensures r * |s| as real == Sum(s)
  {
    Sum(s) / |s| as real
  }

  lemma MulLe(x: real, y: real, d: real)
    requires x <= y && d >= 0.0
    ensures x * d <= y * d
  {
  }

  lemma MulBounds(n: real, p: real, q: real)
    requires n >= 0.0 && 0.0 <= p <= q <= 1.0
    ensures 0.0 <= n * p <= n * q <= n
  {
  }

  /** The position n * q split into its whole part (a rank in [0, n]) and its fraction. */
  function Position(n: nat, q: real): (r: (int, real))
    requires 0.0 <= q <= 1.0
    ensures 0 <= r.0 <= n && 0.0 <= r.1 < 1.0
    ensures r.0 as real + r.1 == n as real * q
    ensures r.0 == (n as real * q).Floor
  {
    var h := n as real * q;
    MulBounds(n as real, q, 1.0);
    (h.Floor, h - h.Floor as real)
  }

  lemma PositionMonotone(n: nat, p: real, q: real)
    requires 0.0 <= p <= q <= 1.0
    ensures Position(n, p).0 <= Position(n, q).0
    ensures Position(n, p).0 == Position(n, q).0 ==> Position(n, p).1 <= Position(n, q).1
  {
    var a, b := n as real * p, n as real * q;
    MulBounds(n as real, p, q);
    FloorMonotone(a, b);
  }

  lemma FloorMonotone(a: real, b: real)
    requires a <= b
    ensures a.Floor <= b.Floor
  {
  }

  /**
   * Linear interpolation in a sorted column at position (n - 1) * q: the value
   * at the whole part plus the fraction times the step to the next value.
   */
  function Interpolate(t: seq<real>, q: real): real
    requires |t| > 0 && 0.0 <= q <= 1.0
  {
    var lo, frac := Position(|t| - 1, q).0, Position(|t| - 1, q).1;
    if lo + 1 < |t| then t[lo] + frac * (t[lo + 1] - t[lo]) else t[lo]
  }

  /** The q-quantile with linear interpolation, as pandas' default. */
  function Quantile(s: seq<real>, q: real): real
    requires |s| > 0 && 0.0 <= q <= 1.0
  {
    Interpolate(Sort(s), q)
  }

  function Median(s: seq<real>): real
    requires |s| > 0
  {
    Quantile(s, 0.5)
  }

  function Min(s: seq<real>): (m: real)
    requires |s| > 0
    ensures m in s
    ensures forall i :: 0 <= i < |s| ==> m <= s[i]
  {
    if |s| == 1 then s[0]
    else
      var rest := Min(s[1..]);
      if s[0] <= rest then s[0] else rest
  }

  /**
   * The maximum of a column of reals. The k-truss search takes the maximum of
   * the integer degrees instead (`KTruss.MaxDegree`); the two stay separate
   * because the element types differ.
   */
  function Max(s: seq<real>): (m: real)
    requires |s| > 0
    ensures m in s
    ensures forall i :: 0 <= i < |s| ==> s[i] <= m
  {
    if |s| == 1 then s[0]
    else
      var rest := Max(s[1..]);
      if s[0] >= rest then s[0] else rest
  }

  /** The first element of the sorted column is the minimum, the last the maximum. */
  lemma SortEnds(s: seq<real>)
    requires |s| > 0
    ensures Sort(s)[0] == Min(s) && Sort(s)[|s| - 1] == Max(s)
  {
    SortedEnds(Sort(s), s);
  }

  lemma SortedEnds(t: seq<real>, s: seq<real>)
    requires |s| > 0 && Sorted(t) && multiset(t) == multiset(s)
    ensures |t| == |s| && t[0] == Min(s) && t[|t| - 1] == Max(s)
  {
    SortedFirst(t, s);
    SortedLast(t, s);
  }

  lemma SortedFirst(t: seq<real>, s: seq<real>)
    requires |s| > 0 && Sorted(t) && multiset(t) == multiset(s)
    ensures |t| == |s| && t[0] == Min(s)
  {
    assert |t| == |s| by {
      assert |multiset(t)| == |multiset(s)|;
    }
    var m := Min(s);
    assert m in multiset(t) by {
      assert m in multiset(s);
    }
    var i :| 0 <= i < |t| && t[i] == m;
    assert t[0] in multiset(s) by {
      assert t[0] in multiset(t);
    }
    var i' :| 0 <= i' < |s| && s[i'] == t[0];
    assert t[0] <= t[i];
  }

  lemma SortedLast(t: seq<real>, s: seq<real>)
    requires |s| > 0 && Sorted(t) && multiset(t) == multiset(s)
    ensures |t| == |s| && t[|t| - 1] == Max(s)
  {
    assert |t| == |s| by {
      assert |multiset(t)| == |multiset(s)|;
    }
    var n := |t| - 1;
    var m := Max(s);
    assert m in multiset(t) by {
      assert m in multiset(s);
    }
    var j :| 0 <= j < |t| && t[j] == m;
    assert t[n] in multiset(s) by {
      assert t[n] in multiset(t);
    }
    var j' :| 0 <= j' < |s| && s[j'] == t[n];
    assert t[j] <= t[n];
  }

  /** The interpolated value lies between the two sorted values around its position. */
  lemma InterpolateBracket(t: seq<real>, q: real)
    requires |t| > 0 && 0.0 <= q <= 1.0 && Sorted(t)
    ensures var lo := Position(|t| - 1, q).0;
      && t[lo] <= Interpolate(t, q)
      && (lo + 1 < |t| ==> Interpolate(t, q) <= t[lo + 1])
  {
    var lo, frac := Position(|t| - 1, q).0, Position(|t| - 1, q).1;
    if lo + 1 < |t| {
      var d := t[lo + 1] - t[lo];
      assert d >= 0.0;
      assert Interpolate(t, q) == t[lo] + frac * d;
      MulLe(0.0, frac, d);
      MulLe(frac, 1.0, d);
      assert 0.0 <= frac * d <= d;
      assert t[lo] + d == t[lo + 1];
    } else {
      assert Interpolate(t, q) == t[lo];
    }
  }

  /** Interpolation in a sorted column is monotone in q. */
  lemma InterpolateMonotone(t: seq<real>, p: real, q: real)
    requires |t| > 0 && 0.0 <= p <= q <= 1.0 && Sorted(t)
    ensures Interpolate(t, p) <= Interpolate(t, q)
  {
    PositionMonotone(|t| - 1, p, q);
    if Position(|t| - 1, p).0 == Position(|t| - 1, q).0 {
      InterpolateSameRank(t, p, q);
    } else {
      InterpolateBracket(t, p);
      InterpolateBracket(t, q);
      assert t[Position(|t| - 1, p).0 + 1] <= t[Position(|t| - 1, q).0];
    }
  }

  /** Two positions with the same whole part: the larger fraction interpolates higher. */
  lemma InterpolateSameRank(t: seq<real>, p: real, q: real)
    requires |t| > 0 && 0.0 <= p <= 1.0 && 0.0 <= q <= 1.0 && Sorted(t)
    requires Position(|t| - 1, p).0 == Position(|t| - 1, q).0
    requires Position(|t| - 1, p).1 <= Position(|t| - 1, q).1
    ensures Interpolate(t, p) <= Interpolate(t, q)
  {
    var lo, fp, fq := Position(|t| - 1, p).0, Position(|t| - 1, p).1, Position(|t| - 1, q).1;
    if lo + 1 < |t| {
      var d := t[lo + 1] - t[lo];
      assert d >= 0.0 by {
        assert t[lo] <= t[lo + 1];
      }
      assert fp * d <= fq * d by {
        MulLe(fp, fq, d);
      }
      calc {
        Interpolate(t, p);
        t[lo] + fp * d;
      <= t[lo] + fq * d;
        Interpolate(t, q);
      }
    } else {
      assert Interpolate(t, p) == t[lo] == Interpolate(t, q);
    }
  }

  /** Quantiles are monotone in q. */
  lemma QuantileMonotone(s: seq<real>, p: real, q: real)
    requires |s| > 0 && 0.0 <= p <= q <= 1.0
    ensures Quantile(s, p) <= Quantile(s, q)
  {
    InterpolateMonotone(Sort(s), p, q);
  }

  lemma InterpolateEnds(t: seq<real>)
    requires |t| > 0
    ensures Interpolate(t, 0.0) == t[0]
    ensures Interpolate(t, 1.0) == t[|t| - 1]
  {
    var n := |t| - 1;
    assert n as real * 0.0 == 0.0;
    assert n as real * 1.0 == n as real;
    var l0, f0 := Position(n, 0.0).0, Position(n, 0.0).1;
    var l1, f1 := Position(n, 1.0).0, Position(n, 1.0).1;
    assert l0 == 0 && f0 == 0.0;
    assert l1 == n && f1 == 0.0;
  }

  /** The 0-quantile is the minimum and the 1-quantile the maximum. */
  lemma QuantileEnds(s: seq<real>)
    requires |s| > 0
    ensures Quantile(s, 0.0) == Min(s)
    ensures Quantile(s, 1.0) == Max(s)
  {
    SortEnds(s);
    InterpolateEnds(Sort(s));
  }

  lemma InterpolateHalf(t: seq<real>)
    requires |t| > 0
    ensures |t| % 2 == 1 ==> Interpolate(t, 0.5) == t[|t| / 2]
    ensures |t| % 2 == 0 ==> Interpolate(t, 0.5) == (t[|t| / 2 - 1] + t[|t| / 2]) / 2.0
  {
    var n := |t|;
    var lo, frac := Position(n - 1, 0.5).0, Position(n - 1, 0.5).1;
    if n % 2 == 1 {
      assert (n - 1) as real * 0.5 == (n / 2) as real;
      assert lo == n / 2 && frac == 0.0;
    } else {
      assert (n - 1) as real * 0.5 == (n / 2 - 1) as real + 0.5;
      assert lo == n / 2 - 1 && frac == 0.5;
    }
  }

  /**
   * The median is the middle value of the sorted column when its length is
   * odd, and the mean of the two middle values when it is even.
   */
  lemma MedianMiddle(s: seq<real>)
    requires |s| > 0
    ensures |s| % 2 == 1 ==> Median(s) == Sort(s)[|s| / 2]
    ensures |s| % 2 == 0 ==> Median(s) == (Sort(s)[|s| / 2 - 1] + Sort(s)[|s| / 2]) / 2.0
  {
    var t, n := Sort(s), |s|;
    assert |t| == n && Median(s) == Interpolate(t, 0.5);
    InterpolateHalf(t);
    if n % 2 == 1 {
      assert Interpolate(t, 0.5) == t[n / 2];
    } else {
      assert Interpolate(t, 0.5) == (t[n / 2 - 1] + t[n / 2]) / 2.0;
    }
  }

  /** `d` is the sorted five-number summary [min, q1, median, q3, max] of `col`. */
  predicate Summarizes(d: seq<real>, col: seq<real>)
  {
    && |col| > 0 && |d| == 5 && Sorted(d)
    && d[0] == Min(col) && d[1] == Quantile(col, 0.25) && d[2] == Median(col)
    && d[3] == Quantile(col, 0.75) && d[4] == Max(col)
  }

  lemma SortedFive(a: real, b: real, c: real, d: real, e: real)
    requires a <= b <= c <= d <= e
    ensures Sorted([a, b, c, d, e])
  {
  }

  /** The five-number summary of a non-empty column: ascending, from its minimum to its maximum. */
  function Distribution(s: seq<real>): (d: seq<real>)
    requires |s| > 0
    ensures Summarizes(d, s)
    ensures forall i :: 0 <= i < |s| ==> d[0] <= s[i] <= d[4]
  {
    var lo, q1, med, q3, hi := Min(s), Quantile(s, 0.25), Median(s), Quantile(s, 0.75), Max(s);
    QuartilesOrdered(s);
    SortedFive(lo, q1, med, q3, hi);
    [lo, q1, med, q3, hi]
  }

  /** Minimum, quartiles, median and maximum come in ascending order. */
  lemma QuartilesOrdered(s: seq<real>)
    requires |s| > 0
    ensures Min(s) <= Quantile(s, 0.25) <= Median(s) <= Quantile(s, 0.75) <= Max(s)
  {
    QuantileEnds(s);
    QuantileMonotone(s, 0.0, 0.25);
    QuantileMonotone(s, 0.25, 0.5);
    QuantileMonotone(s, 0.5, 0.75);
    QuantileMonotone(s, 0.75, 1.0);
  }
}
