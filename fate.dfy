/**
 * Cluster-fate lineage: how each cluster of a "before" clustering fared in a
 * later, filtered "after" clustering. The pipeline follows the table steps of
 * the script (size grouping, active-descendant filter, explode, outer merge,
 * filter on a known `extant`, ratio, fate); `ExpectedRows` is an independent,
 * per-cluster description of the same output that the pipeline is proved to meet.
 */
module ClusterFate {

  import opened Wrappers
  import Grouping

  datatype Fate = Extant | Degraded | Reduced | Split

  /** One line of the after-clustering file: a node and the cluster it belongs to. */
  datatype Assignment = Assignment(nodeId: int, clusterId: int)

  /** One record of the before file: its nodes, candidate descendants and whether it was left untouched. */
  datatype BeforeCluster = BeforeCluster(clusterLabel: string, nodes: seq<int>, descendants: seq<int>, extant: bool)

  /** A row of the exploded before table; `activeDescendant` is None for the null descendant. */
  datatype BeforeRow = BeforeRow(
    clusterLabel: string, inputClusterSize: nat, activeDescendant: Option<int>,
    numActiveDescendants: nat, extant: bool)

  /** A before row with the size of its descendant attached (None when the merge found no match). */
  datatype JoinedRow = JoinedRow(row: BeforeRow, descendantClusterSize: Option<nat>)

  /** A row of the outer merge: a joined before row, or a size row no before row asked for. */
  datatype MergedRow = Both(joined: JoinedRow) | SizeOnly(clusterId: int, nodeCount: nat)

  /** One row of the fate report. */
  datatype FateRow = FateRow(
    inputCluster: string, inputClusterSize: nat, activeDescendant: Option<int>,
    numActiveDescendants: nat, extant: bool, descendantClusterSize: Option<nat>,
    sizeRatio: real, fate: Fate)

  datatype FateError =
    | EmptyBeforeTable        // a before file with no records has no `nodes` column to read
    | NullMergeKeys           // every descendant key is null, so it cannot be merged with the integer ids
    | MissingDescendantSize   // int() of the missing size of a non-extant row
    | ZeroInputSize           // a non-extant cluster with no nodes divides by zero

  /**
   * How a row's size ratio is computed: as the script does, which fails on a
   * non-extant row without a descendant, or with such a dissolved cluster
   * given ratio 0, so that its `degraded` fate reaches the report.
   */
  datatype RatioRule = AsWritten | DegradedZero

  /** The cluster ids of the after-clustering, line by line. */
  function ClusterIds(clustering: seq<Assignment>): (ids: seq<int>)
    ensures |ids| == |clustering|
    ensures forall i :: 0 <= i < |clustering| ==> ids[i] == clustering[i].clusterId
  {
    seq(|clustering|, i requires 0 <= i < |clustering| => clustering[i].clusterId)
  }

  /** The size table: one bucket per after-cluster id, ascending, with its number of lines. */
  function DescendantSizes(clustering: seq<Assignment>): Grouping.Histogram
  {
    Grouping.Group(ClusterIds(clustering))
  }

  /**
   * Each after-cluster's size is the number of lines carrying its id, every
   * size is at least 1, the table has a bucket for exactly the ids that occur,
   * and the sizes add up to the number of lines.
   */
  lemma DescendantSizesSpec(clustering: seq<Assignment>)
    ensures Grouping.Ascending(DescendantSizes(clustering))
    ensures forall x :: Grouping.HasKey(DescendantSizes(clustering), x) <==> x in ClusterIds(clustering)
    ensures forall i :: 0 <= i < |DescendantSizes(clustering)| ==>
      DescendantSizes(clustering)[i].count == Grouping.Count(ClusterIds(clustering), DescendantSizes(clustering)[i].key) >= 1
    ensures Grouping.Total(DescendantSizes(clustering)) == |clustering|
  {
    Grouping.GroupBuckets(ClusterIds(clustering));
  }

  /** `a` is `b` with some elements left out, the rest in their original order. */
  predicate Subsequence(a: seq<int>, b: seq<int>)
  {
    if a == [] then true
    else if b == [] then false
    else (a[0] == b[0] && Subsequence(a[1..], b[1..])) || Subsequence(a, b[1..])
  }

  /** The candidate descendants that still exist in the after-clustering. */
  function ActiveDescendants(candidates: seq<int>, sizes: Grouping.Histogram): (r: seq<int>)
    ensures forall i :: 0 <= i < |r| ==> Grouping.HasKey(sizes, r[i]) && r[i] in candidates
  {
    if candidates == [] then []
    else
      var rest := ActiveDescendants(candidates[1..], sizes);
      if Grouping.HasKey(sizes, candidates[0]) then [candidates[0]] + rest else rest
  }

  /**
   * The active descendants are the candidates that have a size-table row, in
   * their original order, each as many times as it is listed.
   */
  lemma {:induction false} ActiveDescendantsSpec(candidates: seq<int>, sizes: Grouping.Histogram)
    ensures var r := ActiveDescendants(candidates, sizes);
      && Subsequence(r, candidates)
      && forall d :: Grouping.Count(r, d) == if Grouping.HasKey(sizes, d) then Grouping.Count(candidates, d) else 0
  {
    if candidates != [] {
      ActiveDescendantsSpec(candidates[1..], sizes);
    }
  }

  /** A non-extant cluster's fate is decided by how many active descendants it has. */
  function CalcFate(extant: bool, numActiveDescendants: nat): (f: Fate)
    ensures f == Extant <==> extant
    ensures f == Degraded <==> !extant && numActiveDescendants == 0
    ensures f == Reduced <==> !extant && numActiveDescendants == 1
    ensures f == Split <==> !extant && numActiveDescendants >= 2
  {
    if extant then Extant
    else if numActiveDescendants == 0 then Degraded
    else if numActiveDescendants == 1 then Reduced
    else Split
  }

  /** Size ratio of a joined row: 1 when extant, otherwise descendant size over input size. */
  function ComputeRatio(j: JoinedRow): (r: Result<real, FateError>)
    ensures j.row.extant ==> r == Ok(1.0)
    ensures !j.row.extant && j.descendantClusterSize.None? ==> r == Err(MissingDescendantSize)
    ensures !j.row.extant && j.descendantClusterSize.Some? && j.row.inputClusterSize == 0 ==> r == Err(ZeroInputSize)
    ensures !j.row.extant && j.descendantClusterSize.Some? && j.row.inputClusterSize > 0 ==>
      r.Ok? && r.value * j.row.inputClusterSize as real == j.descendantClusterSize.value as real
  {
    if j.row.extant then Ok(1.0)
    else if j.descendantClusterSize.None? then Err(MissingDescendantSize)
    else if j.row.inputClusterSize == 0 then Err(ZeroInputSize)
    else Ok(j.descendantClusterSize.value as real / j.row.inputClusterSize as real)
  }

  /**
   * The size ratio with a dissolved cluster given ratio 0: a non-extant row
   * without a descendant has nothing left of its input, and is reported
   * instead of aborting the report.
   */
  function ComputeRatioCorrected(j: JoinedRow): (r: Result<real, FateError>)
    ensures j.row.extant ==> r == Ok(1.0)
    ensures !j.row.extant && j.descendantClusterSize.None? ==> r == Ok(0.0)
    ensures !j.row.extant && j.descendantClusterSize.Some? && j.row.inputClusterSize == 0 ==> r == Err(ZeroInputSize)
    ensures !j.row.extant && j.descendantClusterSize.Some? && j.row.inputClusterSize > 0 ==>
      r.Ok? && r.value * j.row.inputClusterSize as real == j.descendantClusterSize.value as real
    ensures j.descendantClusterSize.Some? ==> r == ComputeRatio(j)
  {
    if !j.row.extant && j.descendantClusterSize.None? then Ok(0.0) else ComputeRatio(j)
  }

  function RatioBy(rule: RatioRule, j: JoinedRow): Result<real, FateError>
  {
    match rule
    case AsWritten => ComputeRatio(j)
    case DegradedZero => ComputeRatioCorrected(j)
  }

  /** One before cluster as rows: one per active descendant, or one with the null descendant. */
  function Explode(c: BeforeCluster, sizes: Grouping.Histogram): seq<BeforeRow>
  {
    var active := ActiveDescendants(c.descendants, sizes);
    if |active| == 0 then
      [BeforeRow(c.clusterLabel, |c.nodes|, None, 0, c.extant)]
    else
      seq(|active|, i requires 0 <= i < |active| =>
        BeforeRow(c.clusterLabel, |c.nodes|, Some(active[i]), |active|, c.extant))
  }

  /**
   * A before cluster yields max(1, #active) rows; all of them share its label,
   * its input size, the active-descendant count and the extant flag; their
   * descendants are the active descendants in order, or the single null one.
   */
  lemma ExplodeShape(c: BeforeCluster, sizes: Grouping.Histogram)
    ensures var active := ActiveDescendants(c.descendants, sizes);
      && |Explode(c, sizes)| == (if |active| == 0 then 1 else |active|)
      && (forall i :: 0 <= i < |Explode(c, sizes)| ==>
            && Explode(c, sizes)[i].clusterLabel == c.clusterLabel
            && Explode(c, sizes)[i].inputClusterSize == |c.nodes|
            && Explode(c, sizes)[i].numActiveDescendants == |active|
            && Explode(c, sizes)[i].extant == c.extant)
      && (|active| == 0 ==> Explode(c, sizes)[0].activeDescendant == None)
      && (forall i :: 0 <= i < |active| ==> Explode(c, sizes)[i].activeDescendant == Some(active[i]))
  {
  }

  /** The exploded before table. */
  function BeforeTable(before: seq<BeforeCluster>, sizes: Grouping.Histogram): seq<BeforeRow>
  {
    if before == [] then [] else Explode(before[0], sizes) + BeforeTable(before[1..], sizes)
  }

  /** The size matched to a before row; the null descendant matches nothing. */
  function JoinSize(r: BeforeRow, sizes: Grouping.Histogram): JoinedRow
  {
    JoinedRow(r, if r.activeDescendant.Some? then Grouping.Lookup(sizes, r.activeDescendant.value) else None)
  }

  predicate Referenced(rows: seq<BeforeRow>, id: int)
  {
    exists i :: 0 <= i < |rows| && rows[i].activeDescendant == Some(id)
  }

  /** Size rows that no before row asked for, which the outer merge adds with no before fields. */
  function Unreferenced(sizes: Grouping.Histogram, rows: seq<BeforeRow>): (r: seq<MergedRow>)
    ensures forall i :: 0 <= i < |r| ==> r[i].SizeOnly? && !Referenced(rows, r[i].clusterId)
    ensures forall i :: 0 <= i < |r| ==>
      exists k :: 0 <= k < |sizes| && r[i] == SizeOnly(sizes[k].key, sizes[k].count)
    ensures forall k :: 0 <= k < |sizes| && !Referenced(rows, sizes[k].key) ==>
      SizeOnly(sizes[k].key, sizes[k].count) in r
    ensures Grouping.Ascending(sizes) ==> forall i, j :: 0 <= i < j < |r| ==> r[i].clusterId < r[j].clusterId
    ensures |r| <= |sizes|
  {
    if sizes == [] then []
    else
      var rest := Unreferenced(sizes[1..], rows);
      if Referenced(rows, sizes[0].key) then rest else [SizeOnly(sizes[0].key, sizes[0].count)] + rest
  }

  function JoinAll(rows: seq<BeforeRow>, sizes: Grouping.Histogram): (r: seq<JoinedRow>)
    ensures |r| == |rows|
    ensures forall i :: 0 <= i < |rows| ==> r[i] == JoinSize(rows[i], sizes)
  {
    seq(|rows|, i requires 0 <= i < |rows| => JoinSize(rows[i], sizes))
  }

  /** The outer merge of the before table with the size table. */
  function OuterMerge(rows: seq<BeforeRow>, sizes: Grouping.Histogram): seq<MergedRow>
  {
    var joined := JoinAll(rows, sizes);
    seq(|joined|, i requires 0 <= i < |joined| => Both(joined[i])) + Unreferenced(sizes, rows)
  }

  /** Keeps the merge rows whose `extant` is known, i.e. those that came from a before row. */
  function KnownExtant(merged: seq<MergedRow>): seq<JoinedRow>
  {
    if merged == [] then []
    else if merged[0].Both? then [merged[0].joined] + KnownExtant(merged[1..])
    else KnownExtant(merged[1..])
  }

  lemma {:induction false} KnownExtantAppend(a: seq<MergedRow>, b: seq<MergedRow>)
    ensures KnownExtant(a + b) == KnownExtant(a) + KnownExtant(b)
  {
    if a != [] {
      var ab := a + b;
      assert ab != [] && ab[0] == a[0];
      assert ab[1..] == a[1..] + b;
      KnownExtantAppend(a[1..], b);
    } else {
      assert a + b == b;
    }
  }

  lemma {:induction false} KnownExtantBoth(js: seq<JoinedRow>)
    ensures KnownExtant(seq(|js|, i requires 0 <= i < |js| => Both(js[i]))) == js
  {
    var m := seq(|js|, i requires 0 <= i < |js| => Both(js[i]));
    if js != [] {
      assert m[1..] == seq(|js[1..]|, i requires 0 <= i < |js[1..]| => Both(js[1..][i]));
      KnownExtantBoth(js[1..]);
    }
  }

  lemma {:induction false} KnownExtantSizeOnly(m: seq<MergedRow>)
    requires forall i :: 0 <= i < |m| ==> m[i].SizeOnly?
    ensures KnownExtant(m) == []
  {
    if m != [] {
      KnownExtantSizeOnly(m[1..]);
    }
  }

  /**
   * The outer merge followed by the filter on a known `extant` gives back
   * exactly the before rows with their sizes: an after-cluster that no before
   * cluster lists never reaches the output.
   */
  lemma MergeThenFilter(rows: seq<BeforeRow>, sizes: Grouping.Histogram)
    ensures KnownExtant(OuterMerge(rows, sizes)) == JoinAll(rows, sizes)
  {
    var joined := JoinAll(rows, sizes);
    var both := seq(|joined|, i requires 0 <= i < |joined| => Both(joined[i]));
    KnownExtantAppend(both, Unreferenced(sizes, rows));
    KnownExtantBoth(joined);
    KnownExtantSizeOnly(Unreferenced(sizes, rows));
  }

  /** Ratio and fate of one row; an undefined ratio aborts. */
  function ClassifyRow(rule: RatioRule, j: JoinedRow): Result<FateRow, FateError>
  {
    match RatioBy(rule, j)
    case Err(e) => Err(e)
    case Ok(ratio) =>
      Ok(FateRow(j.row.clusterLabel, j.row.inputClusterSize, j.row.activeDescendant,
                 j.row.numActiveDescendants, j.row.extant, j.descendantClusterSize,
                 ratio, CalcFate(j.row.extant, j.row.numActiveDescendants)))
  }

  /** Applies `ClassifyRow` to every row; the first failing row aborts the whole table. */
  function Classify(rule: RatioRule, js: seq<JoinedRow>): (r: Result<seq<FateRow>, FateError>)
    ensures r.Ok? <==> forall i :: 0 <= i < |js| ==> ClassifyRow(rule, js[i]).Ok?
    ensures r.Ok? ==> |r.value| == |js| && forall i :: 0 <= i < |js| ==> r.value[i] == ClassifyRow(rule, js[i]).value
  {
    MapAll(j => ClassifyRow(rule, j), js)
  }

  /** Applies `f` to every element, stopping at the first error. */
  function MapAll<A, B, E>(f: A -> Result<B, E>, xs: seq<A>): (r: Result<seq<B>, E>)
    ensures r.Ok? <==> forall i :: 0 <= i < |xs| ==> f(xs[i]).Ok?
    ensures r.Ok? ==> |r.value| == |xs| && forall i :: 0 <= i < |xs| ==> r.value[i] == f(xs[i]).value
  {
    if xs == [] then Ok([])
    else match f(xs[0])
      case Err(e) => Err(e)
      case Ok(y) =>
        match MapAll(f, xs[1..])
        case Err(e) => Err(e)
        case Ok(rest) =>
          assert forall i :: 1 <= i < |xs| ==> xs[1..][i - 1] == xs[i];
          Ok([y] + rest)
  }

  /**
   * No before cluster has an active descendant: the exploded descendant
   * column holds only nulls, and pandas refuses to merge such an object
   * column with the integer cluster ids.
   */
  predicate NoActiveDescendants(before: seq<BeforeCluster>, sizes: Grouping.Histogram)
  {
    forall i :: 0 <= i < |before| ==> ActiveDescendants(before[i].descendants, sizes) == []
  }

  /** The fate report of `before` against the after-clustering, under a ratio rule. */
  function ClusterFatesBy(rule: RatioRule, before: seq<BeforeCluster>, clustering: seq<Assignment>)
    : Result<seq<FateRow>, FateError>
  {
    var sizes := DescendantSizes(clustering);
    if before == [] then Err(EmptyBeforeTable)
    else if NoActiveDescendants(before, sizes) then Err(NullMergeKeys)
    else Classify(rule, KnownExtant(OuterMerge(BeforeTable(before, sizes), sizes)))
  }

  /** The whole fate report, as the script computes it. */
  function ClusterFates(before: seq<BeforeCluster>, clustering: seq<Assignment>): Result<seq<FateRow>, FateError>
  {
    ClusterFatesBy(AsWritten, before, clustering)
  }

  /** The whole fate report with dissolved clusters reported as degraded, ratio 0. */
  function ClusterFatesCorrected(before: seq<BeforeCluster>, clustering: seq<Assignment>)
    : Result<seq<FateRow>, FateError>
  {
    ClusterFatesBy(DegradedZero, before, clustering)
  }

  // ---------------------------------------------------------------------------
  // Reference description, cluster by cluster

  /**
   * A cluster whose rows cannot be given a ratio: non-extant with no nodes but
   * an active descendant, or, as written, non-extant without an active descendant.
   */
  predicate Fails(rule: RatioRule, c: BeforeCluster, sizes: Grouping.Histogram)
  {
    var n := |ActiveDescendants(c.descendants, sizes)|;
    !c.extant && ((n == 0 && rule == AsWritten) || (n > 0 && |c.nodes| == 0))
  }

  /**
   * The report rows of one cluster. It describes the report only for a
   * cluster that does not fail; for one that does, the ratio of an empty
   * input is left at 0. A cluster without an active descendant gets one row
   * with the null descendant and ratio 1 if extant, 0 if dissolved.
   */
  function ExpectedRows(c: BeforeCluster, sizes: Grouping.Histogram): seq<FateRow>
  {
    var active := ActiveDescendants(c.descendants, sizes);
    var fate := CalcFate(c.extant, |active|);
    if |active| == 0 then
      [FateRow(c.clusterLabel, |c.nodes|, None, 0, c.extant, None, if c.extant then 1.0 else 0.0, fate)]
    else
      seq(|active|, i requires 0 <= i < |active| =>
        var size := Grouping.CountOf(sizes, active[i]);
        FateRow(c.clusterLabel, |c.nodes|, Some(active[i]), |active|, c.extant, Some(size),
                if c.extant then 1.0 else Ratio(size, |c.nodes|), fate))
  }

  function Ratio(size: nat, input: nat): real
  {
    if input == 0 then 0.0 else size as real / input as real
  }

  /** The rows of every cluster, cluster by cluster. */
  function RowsOf(before: seq<BeforeCluster>, sizes: Grouping.Histogram): (r: seq<seq<FateRow>>)
    ensures |r| == |before| && forall i :: 0 <= i < |before| ==> r[i] == ExpectedRows(before[i], sizes)
  {
    seq(|before|, i requires 0 <= i < |before| => ExpectedRows(before[i], sizes))
  }

  /** The whole report: every cluster's rows, in the order of the before clusters. */
  function ExpectedTable(before: seq<BeforeCluster>, sizes: Grouping.Histogram): seq<FateRow>
  {
    Flatten(RowsOf(before, sizes))
  }

  function Flatten<T>(xss: seq<seq<T>>): seq<T>
  {
    if xss == [] then [] else xss[0] + Flatten(xss[1..])
  }

  /** Every element of a flattened sequence comes from one of its blocks. */
  lemma {:induction false} FlattenIndex<T>(xss: seq<seq<T>>, k: nat) returns (i: nat, j: nat)
    requires k < |Flatten(xss)|
    ensures i < |xss| && j < |xss[i]| && Flatten(xss)[k] == xss[i][j]
  {
    if k < |xss[0]| {
      i, j := 0, k;
    } else {
      var i', j' := FlattenIndex(xss[1..], k - |xss[0]|);
      i, j := i' + 1, j';
    }
  }

  lemma ExpectedTableCons(before: seq<BeforeCluster>, sizes: Grouping.Histogram)
    requires before != []
    ensures ExpectedTable(before, sizes) == ExpectedRows(before[0], sizes) + ExpectedTable(before[1..], sizes)
  {
    assert RowsOf(before, sizes)[1..] == RowsOf(before[1..], sizes);
  }

  lemma ClassifyAppend(rule: RatioRule, a: seq<JoinedRow>, b: seq<JoinedRow>)
    ensures Classify(rule, a + b).Ok? <==> Classify(rule, a).Ok? && Classify(rule, b).Ok?
    ensures Classify(rule, a + b).Ok? ==> Classify(rule, a + b).value == Classify(rule, a).value + Classify(rule, b).value
  {
    MapAllAppend(j => ClassifyRow(rule, j), a, b);
  }

  lemma MapAllAppend<A, B, E>(f: A -> Result<B, E>, a: seq<A>, b: seq<A>)
    ensures MapAll(f, a + b).Ok? <==> MapAll(f, a).Ok? && MapAll(f, b).Ok?
    ensures MapAll(f, a + b).Ok? ==> MapAll(f, a + b).value == MapAll(f, a).value + MapAll(f, b).value
  {
    var ab := a + b;
    assert forall i :: 0 <= i < |a| ==> ab[i] == a[i];
    assert forall i :: 0 <= i < |b| ==> ab[|a| + i] == b[i];
    if MapAll(f, ab).Ok? {
      assert forall i :: 0 <= i < |a| ==> f(a[i]).Ok?;
      forall i | 0 <= i < |b| ensures f(b[i]).Ok? {
        assert f(ab[|a| + i]).Ok?;
      }
      var l, r := MapAll(f, a).value, MapAll(f, b).value;
      assert MapAll(f, ab).value == l + r;
    } else if MapAll(f, a).Ok? && MapAll(f, b).Ok? {
      forall i | 0 <= i < |ab| ensures f(ab[i]).Ok? {
        if i >= |a| { assert ab[i] == b[i - |a|]; }
      }
    }
  }

  lemma JoinAllAppend(a: seq<BeforeRow>, b: seq<BeforeRow>, sizes: Grouping.Histogram)
    ensures JoinAll(a + b, sizes) == JoinAll(a, sizes) + JoinAll(b, sizes)
  {
  }

  /** The rows of one cluster classify without error exactly when it does not fail, and then as `ExpectedRows`. */
  lemma ClusterClassify(rule: RatioRule, c: BeforeCluster, sizes: Grouping.Histogram)
    ensures Classify(rule, JoinAll(Explode(c, sizes), sizes)).Ok? <==> !Fails(rule, c, sizes)
    ensures !Fails(rule, c, sizes) ==> Classify(rule, JoinAll(Explode(c, sizes), sizes)).value == ExpectedRows(c, sizes)
  {
    var active := ActiveDescendants(c.descendants, sizes);
    var js := JoinAll(Explode(c, sizes), sizes);
    if |active| > 0 {
      forall i | 0 <= i < |active|
        ensures js[i].descendantClusterSize == Some(Grouping.CountOf(sizes, active[i]))
      {
        assert Grouping.HasKey(sizes, active[i]);
      }
      if Fails(rule, c, sizes) {
        assert !ClassifyRow(rule, js[0]).Ok?;
      } else {
        var out := Classify(rule, js).value;
        assert |out| == |ExpectedRows(c, sizes)|;
        forall i | 0 <= i < |out| ensures out[i] == ExpectedRows(c, sizes)[i] {
        }
      }
    }
  }

  lemma NoneFailCons(rule: RatioRule, before: seq<BeforeCluster>, sizes: Grouping.Histogram)
    requires before != []
    ensures (forall i :: 0 <= i < |before| ==> !Fails(rule, before[i], sizes)) <==>
      !Fails(rule, before[0], sizes) && forall i :: 0 <= i < |before[1..]| ==> !Fails(rule, before[1..][i], sizes)
  {
    assert forall i :: 1 <= i < |before| ==> before[1..][i - 1] == before[i];
  }

  /**
   * Ratio and fate over the exploded and joined before rows: they succeed
   * exactly when no cluster fails, and give each cluster's expected rows in order.
   */
  lemma {:induction false} PipelineByCluster(rule: RatioRule, before: seq<BeforeCluster>, sizes: Grouping.Histogram)
    ensures Classify(rule, JoinAll(BeforeTable(before, sizes), sizes)).Ok? <==>
      forall i :: 0 <= i < |before| ==> !Fails(rule, before[i], sizes)
    ensures (forall i :: 0 <= i < |before| ==> !Fails(rule, before[i], sizes)) ==>
      Classify(rule, JoinAll(BeforeTable(before, sizes), sizes)).value == ExpectedTable(before, sizes)
  {
    if before != [] {
      var head, rest := Explode(before[0], sizes), BeforeTable(before[1..], sizes);
      var ja, jb := JoinAll(head, sizes), JoinAll(rest, sizes);
      assert BeforeTable(before, sizes) == head + rest;
      JoinAllAppend(head, rest, sizes);
      ClassifyAppend(rule, ja, jb);
      ClusterClassify(rule, before[0], sizes);
      PipelineByCluster(rule, before[1..], sizes);
      ExpectedTableCons(before, sizes);
      NoneFailCons(rule, before, sizes);
    }
  }

  /**
   * An empty before file and a before set without any active descendant are
   * errors; otherwise the report is produced exactly when no cluster fails,
   * and it is then the clusters' expected rows in order.
   */
  lemma ClusterFatesSpec(rule: RatioRule, before: seq<BeforeCluster>, clustering: seq<Assignment>)
    ensures var sizes := DescendantSizes(clustering);
      var r := ClusterFatesBy(rule, before, clustering);
      && (before == [] ==> r == Err(EmptyBeforeTable))
      && (before != [] && NoActiveDescendants(before, sizes) ==> r == Err(NullMergeKeys))
      && (r.Ok? <==>
            before != [] && !NoActiveDescendants(before, sizes) &&
            forall i :: 0 <= i < |before| ==> !Fails(rule, before[i], sizes))
      && (r.Ok? ==> r.value == ExpectedTable(before, sizes))
  {
    var sizes := DescendantSizes(clustering);
    MergeThenFilter(BeforeTable(before, sizes), sizes);
    PipelineByCluster(rule, before, sizes);
  }

  /**
   * What every row of a fate report satisfies: the fate follows the extant flag
   * and the active-descendant count; an extant row has ratio 1; a non-extant
   * row is reduced or split (never degraded), has a descendant of size at least
   * 1 and a non-empty input, and its ratio is that size over the input size.
   */
  predicate WellFormedRow(r: FateRow)
  {
    && r.fate == CalcFate(r.extant, r.numActiveDescendants)
    && (r.extant ==> r.fate == Extant && r.sizeRatio == 1.0)
    && (!r.extant ==>
          && (r.fate == Reduced || r.fate == Split)
          && r.activeDescendant.Some? && r.descendantClusterSize.Some?
          && r.descendantClusterSize.value >= 1
          && r.inputClusterSize > 0
          && r.sizeRatio == r.descendantClusterSize.value as real / r.inputClusterSize as real)
  }

  /** The row carries cluster `c`'s label, input size, active count and extant flag. */
  predicate RowOf(r: FateRow, c: BeforeCluster, numActive: nat)
  {
    && r.inputCluster == c.clusterLabel
    && r.inputClusterSize == |c.nodes|
    && r.numActiveDescendants == numActive
    && r.extant == c.extant
  }

  /**
   * The rows of one cluster: max(1, #active) of them, all with its label, input
   * size, active count, extant flag and the one fate; the null descendant when
   * there is no active one, otherwise the active descendants in order, each
   * with its size from the size table.
   */
  lemma ExpectedRowsShape(c: BeforeCluster, sizes: Grouping.Histogram)
    ensures var active := ActiveDescendants(c.descendants, sizes);
      var rows := ExpectedRows(c, sizes);
      && |rows| == (if |active| == 0 then 1 else |active|)
      && (forall k :: 0 <= k < |rows| ==>
            RowOf(rows[k], c, |active|) && rows[k].fate == CalcFate(c.extant, |active|))
      && (|active| == 0 ==> rows[0].activeDescendant == None && rows[0].descendantClusterSize == None)
      && (forall k :: 0 <= k < |active| ==>
            && rows[k].activeDescendant == Some(active[k])
            && rows[k].descendantClusterSize == Some(Grouping.CountOf(sizes, active[k])))
  {
    var active := ActiveDescendants(c.descendants, sizes);
    var rows := ExpectedRows(c, sizes);
    if |active| > 0 {
      forall k | 0 <= k < |active|
        ensures RowOf(rows[k], c, |active|) && rows[k].fate == CalcFate(c.extant, |active|)
        ensures rows[k].activeDescendant == Some(active[k])
        ensures rows[k].descendantClusterSize == Some(Grouping.CountOf(sizes, active[k]))
      {
      }
    }
  }

  /** Each expected row of a cluster is well formed when the size table is positive. */
  lemma ExpectedRowsWellFormed(c: BeforeCluster, sizes: Grouping.Histogram, k: nat)
    requires !Fails(AsWritten, c, sizes) && Grouping.Positive(sizes)
    requires k < |ExpectedRows(c, sizes)|
    ensures WellFormedRow(ExpectedRows(c, sizes)[k])
  {
    var active := ActiveDescendants(c.descendants, sizes);
    var r := ExpectedRows(c, sizes)[k];
    ExpectedRowsShape(c, sizes);
    assert RowOf(r, c, |active|) && r.fate == CalcFate(c.extant, |active|);
    assert r.fate == CalcFate(r.extant, r.numActiveDescendants);
    if c.extant {
      assert r.sizeRatio == 1.0;
    } else {
      assert |active| > 0;
      assert r.fate == Reduced || r.fate == Split;
    }
    if |active| > 0 {
      Grouping.HasKeyIffCounted(sizes, active[k]);
      var size := Grouping.CountOf(sizes, active[k]);
      assert r.descendantClusterSize == Some(size) && size >= 1;
      if !c.extant {
        var n := |c.nodes| as real;
        assert r.sizeRatio == size as real / n;
      }
    }
    assert WellFormedRow(r);
  }

  /** Number of report rows: one per active descendant, at least one per cluster. */
  function RowCount(before: seq<BeforeCluster>, sizes: Grouping.Histogram): nat
  {
    if before == [] then 0
    else
      var n := |ActiveDescendants(before[0].descendants, sizes)|;
      (if n == 0 then 1 else n) + RowCount(before[1..], sizes)
  }

  lemma ExpectedRowsLength(c: BeforeCluster, sizes: Grouping.Histogram)
    ensures var n := |ActiveDescendants(c.descendants, sizes)|;
      |ExpectedRows(c, sizes)| == if n == 0 then 1 else n
  {
  }

  /** The expected table has one row per active descendant and at least one per cluster. */
  lemma {:induction false} TableLength(before: seq<BeforeCluster>, sizes: Grouping.Histogram)
    ensures |ExpectedTable(before, sizes)| == RowCount(before, sizes)
  {
    if before != [] {
      ExpectedTableCons(before, sizes);
      ExpectedRowsLength(before[0], sizes);
      TableLength(before[1..], sizes);
    }
  }

  /** Every row of the expected table comes from some cluster's expected rows. */
  lemma TableRowOrigin(before: seq<BeforeCluster>, sizes: Grouping.Histogram, k: nat)
    returns (i: nat, j: nat)
    requires k < |ExpectedTable(before, sizes)|
    ensures i < |before| && j < |ExpectedRows(before[i], sizes)|
    ensures ExpectedTable(before, sizes)[k] == ExpectedRows(before[i], sizes)[j]
  {
    i, j := FlattenIndex(RowsOf(before, sizes), k);
  }

  /**
   * A produced fate report has one row per active descendant and at least one
   * per cluster; every row is well formed; every descendant it names exists in
   * the after-clustering and is listed by some before cluster.
   */
  lemma FateReport(before: seq<BeforeCluster>, clustering: seq<Assignment>)
    requires ClusterFates(before, clustering).Ok?
    ensures var out := ClusterFates(before, clustering).value;
      && |out| == RowCount(before, DescendantSizes(clustering))
      && (forall k :: 0 <= k < |out| ==> WellFormedRow(out[k]))
      && (forall k :: 0 <= k < |out| && out[k].activeDescendant.Some? ==>
            && out[k].activeDescendant.value in ClusterIds(clustering)
            && exists i :: 0 <= i < |before| && out[k].activeDescendant.value in before[i].descendants)
  {
    var sizes := DescendantSizes(clustering);
    ClusterFatesSpec(AsWritten, before, clustering);
    DescendantSizesSpec(clustering);
    var out := ClusterFates(before, clustering).value;
    TableLength(before, sizes);
    forall k | 0 <= k < |out|
      ensures WellFormedRow(out[k])
      ensures out[k].activeDescendant.Some? ==>
            && out[k].activeDescendant.value in ClusterIds(clustering)
            && exists i :: 0 <= i < |before| && out[k].activeDescendant.value in before[i].descendants
    {
      var i, j := TableRowOrigin(before, sizes, k);
      ExpectedRowsWellFormed(before[i], sizes, j);
      ExpectedRowsShape(before[i], sizes);
    }
  }

  /**
   * A before set in which every cluster is extant yields a report exactly when
   * it is non-empty and some cluster has an active descendant; every row is
   * then extant with ratio 1.
   */
  lemma AllExtant(before: seq<BeforeCluster>, clustering: seq<Assignment>)
    requires forall i :: 0 <= i < |before| ==> before[i].extant
    ensures ClusterFates(before, clustering).Ok? <==>
      before != [] && !NoActiveDescendants(before, DescendantSizes(clustering))
    ensures ClusterFates(before, clustering).Ok? ==>
      forall k :: 0 <= k < |ClusterFates(before, clustering).value| ==>
        ClusterFates(before, clustering).value[k].fate == Extant &&
        ClusterFates(before, clustering).value[k].sizeRatio == 1.0
  {
    ClusterFatesSpec(AsWritten, before, clustering);
    if ClusterFates(before, clustering).Err? {
      return;
    }
    FateReport(before, clustering);
    var out := ClusterFates(before, clustering).value;
    var sizes := DescendantSizes(clustering);
    forall k | 0 <= k < |out| ensures out[k].extant {
      var i, j := TableRowOrigin(before, sizes, k);
      ExpectedRowsShape(before[i], sizes);
    }
  }

  // ---------------------------------------------------------------------------
  // Dissolved clusters

  /** A cluster that was refined away completely: not extant and without an active descendant. */
  predicate Dissolved(c: BeforeCluster, sizes: Grouping.Histogram)
  {
    !c.extant && ActiveDescendants(c.descendants, sizes) == []
  }

  /**
   * As written, a dissolved cluster never reaches the report: the ratio of its
   * row is computed before its fate and fails, so any dissolved cluster aborts
   * the whole report, and no report row is ever degraded.
   */
  lemma DegradedAborts(before: seq<BeforeCluster>, clustering: seq<Assignment>)
    ensures (exists i :: 0 <= i < |before| && Dissolved(before[i], DescendantSizes(clustering))) ==>
      ClusterFates(before, clustering).Err?
    ensures ClusterFates(before, clustering).Ok? ==>
      forall k :: 0 <= k < |ClusterFates(before, clustering).value| ==>
        ClusterFates(before, clustering).value[k].fate != Degraded
  {
    ClusterFatesSpec(AsWritten, before, clustering);
    if ClusterFates(before, clustering).Ok? {
      FateReport(before, clustering);
    }
  }

  /**
   * With dissolved clusters given ratio 0, a report row is degraded exactly
   * when it is the null-descendant row of a non-extant cluster; it then has no
   * descendant size and ratio 0, and every other row is as in `WellFormedRow`.
   */
  lemma DegradedReported(before: seq<BeforeCluster>, clustering: seq<Assignment>)
    requires ClusterFatesCorrected(before, clustering).Ok?
    ensures var out := ClusterFatesCorrected(before, clustering).value;
      && |out| == RowCount(before, DescendantSizes(clustering))
      && (forall k :: 0 <= k < |out| ==>
            (out[k].fate == Degraded <==> !out[k].extant && out[k].activeDescendant.None?))
      && (forall k :: 0 <= k < |out| && out[k].fate == Degraded ==>
            out[k].numActiveDescendants == 0 && out[k].descendantClusterSize.None? && out[k].sizeRatio == 0.0)
      && (forall k :: 0 <= k < |out| && out[k].fate != Degraded ==> WellFormedRow(out[k]))
  {
    var sizes := DescendantSizes(clustering);
    ClusterFatesSpec(DegradedZero, before, clustering);
    DescendantSizesSpec(clustering);
    var out := ClusterFatesCorrected(before, clustering).value;
    TableLength(before, sizes);
    forall k | 0 <= k < |out|
      ensures out[k].fate == Degraded <==> !out[k].extant && out[k].activeDescendant.None?
      ensures out[k].fate == Degraded ==>
        out[k].numActiveDescendants == 0 && out[k].descendantClusterSize.None? && out[k].sizeRatio == 0.0
      ensures out[k].fate != Degraded ==> WellFormedRow(out[k])
    {
      var i, j := TableRowOrigin(before, sizes, k);
      ExpectedRowsShape(before[i], sizes);
      if out[k].fate != Degraded {
        ExpectedRowsWellFormed(before[i], sizes, j);
      }
    }
  }

  /**
   * A concrete input: cluster "a" was dissolved, cluster "b" survives as
   * after-cluster 5. As written the report fails on "a"; with dissolved
   * clusters given ratio 0 it reports "a" as degraded.
   */
  lemma DissolvedClusterExample()
    ensures var before := [BeforeCluster("a", [1], [], false), BeforeCluster("b", [2, 3], [5], false)];
      var clustering := [Assignment(2, 5)];
      && ClusterFates(before, clustering) == Err(MissingDescendantSize)
      && ClusterFatesCorrected(before, clustering).Ok?
      && ClusterFatesCorrected(before, clustering).value[0].fate == Degraded
      && ClusterFatesCorrected(before, clustering).value[0].sizeRatio == 0.0
  {
    var before := [BeforeCluster("a", [1], [], false), BeforeCluster("b", [2, 3], [5], false)];
    var clustering := [Assignment(2, 5)];
    var sizes := DescendantSizes(clustering);
    DescendantSizesSpec(clustering);
    assert ClusterIds(clustering) == [5];
    assert Grouping.HasKey(sizes, 5);
    assert ActiveDescendants(before[1].descendants, sizes) == [5];
    assert !NoActiveDescendants(before, sizes);
    assert BeforeTable(before, sizes)[0] == BeforeRow("a", 1, None, 0, false);
  }
}
