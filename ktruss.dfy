/**
 * Binary search for the largest k whose k-truss is non-empty. The k-truss
 * computation itself is a foreign call; it appears here only as the predicate
 * `nonEmpty(k)`, which is monotone: a non-empty k-truss implies a non-empty
 * j-truss for every j <= k.
 */
module KTruss {

  /** A non-empty k-truss implies a non-empty j-truss for 2 <= j <= k. */
  ghost predicate Monotone(nonEmpty: int -> bool)
  {
    forall j, k :: 2 <= j <= k && nonEmpty(k) ==> nonEmpty(j)
  }

  /** The largest degree in the graph. */
  function MaxDegree(degrees: seq<nat>): (d: nat)
    requires |degrees| > 0
    ensures d in degrees
    ensures forall i :: 0 <= i < |degrees| ==> degrees[i] <= d
  {
    if |degrees| == 1 then degrees[0]
    else
      var rest := MaxDegree(degrees[1..]);
      if degrees[0] >= rest then degrees[0] else rest
  }

  /**
   * A linear scan from `k` downwards: the first k >= 2 with a non-empty
   * k-truss, and k itself once k is below 2.
   */
  function ScanDown(nonEmpty: int -> bool, k: int): int
    decreases k
  {
    if k < 2 || nonEmpty(k) then k else ScanDown(nonEmpty, k - 1)
  }

  /**
   * The linear scan finds the largest k in [2, top] with a non-empty k-truss,
   * or, when there is none, min(top, 1).
   */
  lemma {:induction false} ScanDownSpec(nonEmpty: int -> bool, top: int)
    requires top >= 0
    ensures ScanDown(nonEmpty, top) <= top
    ensures ScanDown(nonEmpty, top) >= 2 ==> nonEmpty(ScanDown(nonEmpty, top))
    ensures forall k :: ScanDown(nonEmpty, top) < k <= top && 2 <= k ==> !nonEmpty(k)
    ensures ScanDown(nonEmpty, top) < 2 ==> ScanDown(nonEmpty, top) == (if top >= 1 then 1 else 0)
    decreases top
  {
    if top >= 2 && !nonEmpty(top) {
      ScanDownSpec(nonEmpty, top - 1);
    }
  }

  /**
   * The search over k in [2, max degree]. Under monotonicity the result is the
   * largest k in that range with a non-empty k-truss, and equals the linear
   * scan from the max degree down; it is below 2 exactly when even the 2-truss
   * is empty (1, or 0 for a graph without edges) and it never exceeds the max
   * degree.
   */
  method FindMaxKTruss(degrees: seq<nat>, nonEmpty: int -> bool) returns (r: int)
    requires |degrees| > 0
    requires Monotone(nonEmpty)
    ensures r <= MaxDegree(degrees)
    ensures r >= 2 ==> nonEmpty(r)
    ensures forall k :: r < k <= MaxDegree(degrees) && 2 <= k ==> !nonEmpty(k)
    ensures r < 2 <==> forall k :: 2 <= k <= MaxDegree(degrees) ==> !nonEmpty(k)
    ensures r < 2 ==> r == (if MaxDegree(degrees) >= 1 then 1 else 0)
    ensures r == ScanDown(nonEmpty, MaxDegree(degrees))
  {
    r := SearchDown(MaxDegree(degrees), nonEmpty);
  }

  /**
   * The binary search itself, over k in [2, top]: the largest k there with a
   * non-empty k-truss, found as the linear scan from `top` down would.
   */
  method SearchDown(top: nat, nonEmpty: int -> bool) returns (r: int)
    requires Monotone(nonEmpty)
    ensures r <= top
    ensures r >= 2 ==> nonEmpty(r)
    ensures forall k :: r < k <= top && 2 <= k ==> !nonEmpty(k)
    ensures r < 2 ==> r == (if top >= 1 then 1 else 0)
    ensures r == ScanDown(nonEmpty, top)
  {
    var left: int := 2;
    var right: int := top;
    while left <= right
      invariant 2 <= left <= right + 2
      invariant right <= top
      invariant forall k :: 2 <= k < left ==> nonEmpty(k)
      invariant forall k :: right < k <= top && 2 <= k ==> !nonEmpty(k)
      invariant top >= 2 ==> right >= 1
      invariant top < 2 ==> right == top
      decreases right - left
    {
      var mid := (left + right) / 2;
      if nonEmpty(mid) {
        left := mid + 1;
      } else {
        right := mid - 1;
      }
    }
    r := right;
    ScanDownSpec(nonEmpty, top);
  }

  /**
   * Every edge of a non-empty k-truss lies on k - 2 triangles, each through a
   * different common neighbour of its ends, so k is at most the max degree
   * plus one.
   */
  ghost predicate TrussBound(degrees: seq<nat>, nonEmpty: int -> bool)
    requires |degrees| > 0
  {
    forall k :: k > MaxDegree(degrees) + 1 ==> !nonEmpty(k)
  }

  /**
   * The search with the upper bound raised to max degree + 1: the largest k
   * whatever with a non-empty k-truss, below 2 exactly when the 2-truss is empty.
   */
  method FindMaxKTrussCorrected(degrees: seq<nat>, nonEmpty: int -> bool) returns (r: int)
    requires |degrees| > 0
    requires Monotone(nonEmpty) && TrussBound(degrees, nonEmpty)
    ensures r >= 2 ==> nonEmpty(r)
    ensures forall k :: r < k && 2 <= k ==> !nonEmpty(k)
    ensures r < 2 <==> !nonEmpty(2)
  {
    r := SearchDown(MaxDegree(degrees) + 1, nonEmpty);
  }

  /**
   * A triangle has max degree 2, so the search returns 2 although its 3-truss
   * (the whole triangle) is non-empty; with the bound raised by one it finds 3.
   */
  lemma TriangleCappedAtMaxDegree()
    ensures var triangle := (k: int) => k <= 3;
      && triangle(3) && ScanDown(triangle, MaxDegree([2, 2, 2])) == 2
      && ScanDown(triangle, MaxDegree([2, 2, 2]) + 1) == 3
  {
    assert MaxDegree([2, 2, 2]) == 2;
  }
}
