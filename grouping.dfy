/**
 * Group-and-count of a column of integer keys, as pandas computes it with
 * `groupby(key).size()` or `groupby(key)[key].count()`: one bucket per distinct
 * key, in ascending key order, holding the number of occurrences of that key.
 */
module Grouping {

  import opened Wrappers

  /** Number of occurrences of `x` in `s`. */
  function Count(s: seq<int>, x: int): nat
  {
    if s == [] then 0 else (if s[0] == x then 1 else 0) + Count(s[1..], x)
  }

  /** One row of a grouped table: a key and the number of rows that carried it. */
  datatype Bucket = Bucket(key: int, count: nat)

  type Histogram = seq<Bucket>

  /** Keys appear in strictly ascending order (so each key at most once). */
  predicate Ascending(h: Histogram)
  {
    forall i, j :: 0 <= i < j < |h| ==> h[i].key < h[j].key
  }

  /** Every bucket holds at least one row. */
  predicate Positive(h: Histogram)
  {
    forall i :: 0 <= i < |h| ==> h[i].count >= 1
  }

  predicate HasKey(h: Histogram, x: int)
  {
    exists i :: 0 <= i < |h| && h[i].key == x
  }

  /** The count recorded for `x`, or 0 when `x` has no bucket. */
  function CountOf(h: Histogram, x: int): nat
  {
    if h == [] then 0 else if h[0].key == x then h[0].count else CountOf(h[1..], x)
  }

  /** Sum of all counts. */
  function Total(h: Histogram): nat
  {
    if h == [] then 0 else h[0].count + Total(h[1..])
  }

  /** A key below the first key of an ascending histogram has no bucket. */
  lemma {:induction false} CountBelowFirst(h: Histogram, x: int)
    requires Ascending(h) && h != [] && x < h[0].key
    ensures CountOf(h, x) == 0
  {
    if |h| > 1 {
      assert Ascending(h[1..]);
      CountBelowFirst(h[1..], x);
    }
  }

  /** Records one more occurrence of `x`, keeping the keys in ascending order. */
  function Insert(h: Histogram, x: int): (r: Histogram)
    requires Ascending(h)
    ensures Ascending(r)
    ensures Positive(h) ==> Positive(r)
    ensures forall y :: CountOf(r, y) == CountOf(h, y) + (if y == x then 1 else 0)
    ensures Total(r) == Total(h) + 1
    ensures |h| > 0 ==> r[0].key == x || r[0].key == h[0].key
  {
    if h == [] then [Bucket(x, 1)]
    else if h[0].key == x then
      assert Ascending(h[1..]);
      PrependBucket(Bucket(x, h[0].count + 1), h[1..]);
      PrependBucket(h[0], h[1..]);
      [Bucket(x, h[0].count + 1)] + h[1..]
    else if x < h[0].key then
      CountBelowFirst(h, x);
      PrependBucket(Bucket(x, 1), h);
      [Bucket(x, 1)] + h
    else
      assert Ascending(h[1..]);
      var t := Insert(h[1..], x);
      PrependBucket(h[0], h[1..]);
      PrependBucket(h[0], t);
      [h[0]] + t
  }

  /** A bucket placed in front of a histogram whose keys are all larger. */
  lemma PrependBucket(b: Bucket, t: Histogram)
    requires Ascending(t) && (t == [] || b.key < t[0].key)
    ensures Ascending([b] + t)
    ensures Positive(t) && b.count >= 1 ==> Positive([b] + t)
    ensures forall y :: CountOf([b] + t, y) == if b.key == y then b.count else CountOf(t, y)
    ensures Total([b] + t) == b.count + Total(t)
  {
    assert ([b] + t)[1..] == t;
  }

  /** The grouped table of `s`. */
  function Group(s: seq<int>): (r: Histogram)
    ensures Ascending(r) && Positive(r)
    ensures forall x :: CountOf(r, x) == Count(s, x)
    ensures Total(r) == |s|
  {
    if s == [] then [] else Insert(Group(s[1..]), s[0])
  }

  /** In a positive histogram a key has a bucket exactly when its count is non-zero. */
  lemma {:induction false} HasKeyIffCounted(h: Histogram, x: int)
    requires Positive(h)
    ensures HasKey(h, x) <==> CountOf(h, x) > 0
  {
    if h != [] {
      assert Positive(h[1..]);
      HasKeyIffCounted(h[1..], x);
      HasKeySplit(h, x);
    }
  }

  /** In an ascending histogram the bucket of `x` records `CountOf(h, x)`. */
  lemma {:induction false} CountOfAt(h: Histogram, i: int)
    requires Ascending(h) && 0 <= i < |h|
    ensures CountOf(h, h[i].key) == h[i].count
  {
    if i > 0 {
      assert Ascending(h[1..]);
      CountOfAt(h[1..], i - 1);
    }
  }

  lemma CountPositiveIffMember(s: seq<int>, x: int)
    ensures Count(s, x) > 0 <==> x in s
  {
  }

  /**
   * The grouped table has exactly one bucket per distinct value of `s`, in
   * ascending order, each bucket holding the number of rows with that value.
   */
  lemma GroupBuckets(s: seq<int>)
    ensures forall x :: HasKey(Group(s), x) <==> x in s
    ensures forall i :: 0 <= i < |Group(s)| ==> Group(s)[i].count == Count(s, Group(s)[i].key) >= 1
  {
    var h := Group(s);
    forall x ensures HasKey(h, x) <==> x in s {
      HasKeyIffCounted(h, x);
      CountPositiveIffMember(s, x);
    }
    forall i | 0 <= i < |h| ensures h[i].count == Count(s, h[i].key) {
      CountOfAt(h, i);
    }
  }

  /** A non-empty histogram has key `x` in its first bucket or in the rest. */
  lemma HasKeySplit(h: Histogram, x: int)
    requires h != []
    ensures HasKey(h, x) <==> h[0].key == x || HasKey(h[1..], x)
  {
    if HasKey(h[1..], x) {
      var i :| 0 <= i < |h[1..]| && h[1..][i].key == x;
      assert h[i + 1].key == x;
    }
    if HasKey(h, x) && h[0].key != x {
      var i :| 0 <= i < |h| && h[i].key == x;
      assert h[1..][i - 1].key == x;
    }
  }

  /** The value looked up for `x` in the grouped table, like a pandas merge on `key`. */
  function Lookup(h: Histogram, x: int): (r: Option<nat>)
    ensures r.Some? <==> HasKey(h, x)
    ensures r.Some? ==> r.value == CountOf(h, x)
  {
    if h == [] then None
    else
      HasKeySplit(h, x);
      if h[0].key == x then Some(h[0].count) else Lookup(h[1..], x)
  }
}
