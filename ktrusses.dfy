/**
 * The k-truss node export: choosing the clusterer from the command-line
 * parameters, and flattening the per-cluster k-truss node lists into three
 * parallel columns (cluster, k value, node).
 */
module KTrusses {

  import opened Wrappers

  datatype ClustererSpec = Leiden | Ikc | LeidenMod

  /** The clusterer built from the parameters; `modularity` selects Leiden's modularity quality. */
  datatype Clusterer = LeidenClusterer(resolution: real, modularity: bool) | IkcClusterer(k: int)

  /** The failed parameter assertions. */
  datatype ConfigError = LeidenRequiresResolution | LeidenModRejectsResolution | IkcRequiresK

  /** The value of `-k` and `-g` when they are not given. */
  const Unset: int := -1

  /**
   * Leiden needs a resolution, Leiden with modularity must not be given one,
   * and IKC needs k; each clusterer ignores the other parameter.
   */
  function MakeClusterer(spec: ClustererSpec, k: int, resolution: real): (r: Result<Clusterer, ConfigError>)
    ensures spec == Leiden ==>
      r == (if resolution != Unset as real then Ok(LeidenClusterer(resolution, false)) else Err(LeidenRequiresResolution))
    ensures spec == LeidenMod ==>
      r == (if resolution == Unset as real then Ok(LeidenClusterer(resolution, true)) else Err(LeidenModRejectsResolution))
    ensures spec == Ikc ==>
      r == (if k != Unset then Ok(IkcClusterer(k)) else Err(IkcRequiresK))
  {
    match spec
    case Leiden =>
      if resolution == Unset as real then Err(LeidenRequiresResolution)
      else Ok(LeidenClusterer(resolution, false))
    case LeidenMod =>
      if resolution != Unset as real then Err(LeidenModRejectsResolution)
      else Ok(LeidenClusterer(resolution, true))
    case Ikc =>
      if k == Unset then Err(IkcRequiresK)
      else Ok(IkcClusterer(k))
  }

  /**
   * Each clusterer reads only its own parameter: the Leiden variants do not
   * depend on k, and IKC does not depend on the resolution.
   */
  lemma ParametersIgnored(spec: ClustererSpec, k1: int, k2: int, res1: real, res2: real)
    ensures spec != Ikc ==> MakeClusterer(spec, k1, res1) == MakeClusterer(spec, k2, res1)
    ensures spec == Ikc ==> MakeClusterer(spec, k1, res1) == MakeClusterer(spec, k1, res2)
  {
  }

  /** The in-order concatenation of the lists. */
  function Concat<T>(lists: seq<seq<T>>): seq<T>
  {
    if lists == [] then [] else Concat(lists[..|lists| - 1]) + lists[|lists| - 1]
  }

  /** `vals[i]` repeated once per element of `lists[i]`, for each i in order. */
  function Spread<T, U>(vals: seq<T>, lists: seq<seq<U>>): (r: seq<T>)
    requires |vals| == |lists|
    ensures |r| == |Concat(lists)|
  {
    if lists == [] then []
    else
      Spread(vals[..|vals| - 1], lists[..|lists| - 1]) +
      seq(|lists[|lists| - 1]|, _ => vals[|vals| - 1])
  }

  /**
   * The rows contributed by the i-th list start at `|Concat(lists[..i])|`; the
   * row at offset j in that block holds `lists[i][j]` and `vals[i]`. A list
   * with no nodes therefore contributes no rows.
   */
  lemma {:induction false} BlockRows<T, U>(vals: seq<T>, lists: seq<seq<U>>, i: nat, j: nat)
    requires |vals| == |lists| && i < |lists| && j < |lists[i]|
    ensures |Concat(lists[..i])| + j < |Concat(lists)|
    ensures Concat(lists)[|Concat(lists[..i])| + j] == lists[i][j]
    ensures Spread(vals, lists)[|Concat(lists[..i])| + j] == vals[i]
    decreases |lists|
  {
    var n := |lists| - 1;
    assert lists[..n][..i] == lists[..i];
    if i < n {
      assert vals[..n][i] == vals[i] && lists[..n][i] == lists[i];
      BlockRows(vals[..n], lists[..n], i, j);
    } else {
      assert lists[..n] == lists[..i];
    }
  }

  /**
   * The flattening loop: `col1` carries each cluster's index and `col2` its k
   * value, once per node of its k-truss, and `col3` is the nodes of all lists
   * in order. The three columns have the same length, the total number of nodes.
   */
  method FlattenColumns<T, U, V>(indices: seq<T>, kVals: seq<U>, ktrussNodes: seq<seq<V>>)
    returns (col1: seq<T>, col2: seq<U>, col3: seq<V>)
    requires |indices| == |ktrussNodes| <= |kVals|
    ensures col3 == Concat(ktrussNodes)
    ensures col1 == Spread(indices, ktrussNodes)
    ensures col2 == Spread(kVals[..|ktrussNodes|], ktrussNodes)
    ensures |col1| == |col2| == |col3|
  {
    col1, col2, col3 := [], [], [];
    for i := 0 to |ktrussNodes|
      invariant col3 == Concat(ktrussNodes[..i])
      invariant col1 == Spread(indices[..i], ktrussNodes[..i])
      invariant col2 == Spread(kVals[..i], ktrussNodes[..i])
    {
      var nodes := ktrussNodes[i];
      assert ktrussNodes[..i + 1][..i] == ktrussNodes[..i];
      assert indices[..i + 1][..i] == indices[..i];
      assert kVals[..i + 1][..i] == kVals[..i];
      col1 := col1 + seq(|nodes|, _ => indices[i]);
      col2 := col2 + seq(|nodes|, _ => kVals[i]);
      col3 := col3 + nodes;
    }
    assert ktrussNodes[..|ktrussNodes|] == ktrussNodes;
    assert indices[..|ktrussNodes|] == indices;
  }
}
