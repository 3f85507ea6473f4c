/**
 * Sums by key, as both trend computations do them: for each day key,
 * `records.filter(r => key(r) === day).reduce((s, r) => s + f(r), 0)`.
 * The bucket sums over distinct keys never exceed the overall sum of
 * non-negative amounts, and reach it when every record falls in a bucket.
 */
module Buckets {
  import opened Common
  import opened Tally

  /** The filter callback `r => key(r) === k`. */
  function KeyIs<T>(key: T -> string, k: string): T -> bool
  {
    (x: T) => key(x) == k
  }

  /** The sum of `f` over the elements whose key is `k`. */
  function BucketSum<T(!new)>(xs: seq<T>, key: T -> string, k: string, f: T -> int): int
  {
    SumOf(Filter(xs, KeyIs(key, k)), f)
  }

  /** Adding an element adds its amount to its own bucket only. */
  lemma BucketSumSnoc<T(!new)>(xs: seq<T>, x: T, key: T -> string, k: string, f: T -> int)
    ensures BucketSum(xs + [x], key, k, f) == BucketSum(xs, key, k, f) + (if key(x) == k then f(x) else 0)
  {
    var ys := xs + [x];
    assert ys[..|ys| - 1] == xs;
    var rest := Filter(xs, KeyIs(key, k));
    if key(x) == k {
      assert Filter(ys, KeyIs(key, k)) == rest + [x];
      assert (rest + [x])[..|rest + [x]| - 1] == rest;
    }
  }

  lemma {:induction false} BucketSumOfEmpty<T(!new)>(key: T -> string, k: string, f: T -> int)
    ensures BucketSum([], key, k, f) == 0
  {
  }

  /** The bucket sums of the keys `ks`, added up. */
  function BucketsTotal<T(!new)>(xs: seq<T>, key: T -> string, ks: seq<string>, f: T -> int): int
  {
    if ks == [] then 0 else BucketsTotal(xs, key, ks[..|ks| - 1], f) + BucketSum(xs, key, ks[|ks| - 1], f)
  }

  lemma {:induction false} BucketsTotalOfEmpty<T(!new)>(key: T -> string, ks: seq<string>, f: T -> int)
    ensures BucketsTotal([], key, ks, f) == 0
    decreases |ks|
  {
    if ks != [] {
      BucketsTotalOfEmpty(key, ks[..|ks| - 1], f);
      BucketSumOfEmpty(key, ks[|ks| - 1], f);
    }
  }

  /** With distinct keys, a new element adds its amount to the total at most once. */
  lemma {:induction false} BucketsTotalSnoc<T(!new)>(xs: seq<T>, x: T, key: T -> string, ks: seq<string>, f: T -> int)
    requires NoDuplicates(ks)
    ensures BucketsTotal(xs + [x], key, ks, f) == BucketsTotal(xs, key, ks, f) + (if key(x) in ks then f(x) else 0)
    decreases |ks|
  {
    if ks != [] {
      var init := ks[..|ks| - 1];
      BucketsTotalSnoc(xs, x, key, init, f);
      BucketSumSnoc(xs, x, key, ks[|ks| - 1], f);
      assert key(x) in ks <==> key(x) in init || key(x) == ks[|ks| - 1] by {
        assert ks == init + [ks[|ks| - 1]];
      }
    }
  }

  /**
   * For distinct keys and non-negative amounts the buckets hold at most the
   * overall sum, and exactly the overall sum when every element's key is
   * one of them.
   */
  lemma {:induction false} BucketsBoundedByTotal<T(!new)>(xs: seq<T>, key: T -> string, ks: seq<string>, f: T -> int)
    requires NoDuplicates(ks)
    requires forall i :: 0 <= i < |xs| ==> f(xs[i]) >= 0
    ensures BucketsTotal(xs, key, ks, f) <= SumOf(xs, f)
    ensures (forall i :: 0 <= i < |xs| ==> key(xs[i]) in ks) ==> BucketsTotal(xs, key, ks, f) == SumOf(xs, f)
    decreases |xs|
  {
    if xs == [] {
      BucketsTotalOfEmpty(key, ks, f);
    } else {
      var init := xs[..|xs| - 1];
      var x := xs[|xs| - 1];
      assert xs == init + [x];
      BucketsBoundedByTotal(init, key, ks, f);
      BucketsTotalSnoc(init, x, key, ks, f);
    }
  }

  /** A sequence holding one bucket sum per key adds up to the buckets' total. */
  lemma {:induction false} PointwiseBuckets<T(!new), U>(ms: seq<U>, g: U -> int, xs: seq<T>, key: T -> string, ks: seq<string>, f: T -> int)
    requires |ms| == |ks|
    requires forall j :: 0 <= j < |ms| ==> g(ms[j]) == BucketSum(xs, key, ks[j], f)
    ensures SumOf(ms, g) == BucketsTotal(xs, key, ks, f)
    decreases |ms|
  {
    if ms != [] {
      PointwiseBuckets(ms[..|ms| - 1], g, xs, key, ks[..|ks| - 1], f);
    }
  }
}
