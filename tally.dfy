/**
 * Counting by key (tags and categories are strings), as both statistics modules do it: a plain object used as
 * a tally (`acc[k] = (acc[k] || 0) + 1`), whose `Object.keys` lists every
 * key once, in the order of its first occurrence, and a choice of a "top"
 * key by count.
 */
module Tally {
  import opened Common

  /** Number of occurrences of `x` in `xs`. */
  function Count(xs: seq<string>, x: string): nat
  {
    if xs == [] then 0 else Count(xs[..|xs| - 1], x) + (if xs[|xs| - 1] == x then 1 else 0)
  }

  predicate NoDuplicates(ks: seq<string>)
  {
    forall i, j :: 0 <= i < j < |ks| ==> ks[i] != ks[j]
  }

  /** Index of the first occurrence of `x` in `xs`. */
  function FirstIndex(xs: seq<string>, x: string): (i: nat)
    requires x in xs
    ensures i < |xs| && xs[i] == x && forall j :: 0 <= j < i ==> xs[j] != x
  {
    if xs[0] == x then 0 else 1 + FirstIndex(xs[1..], x)
  }

  /** `Object.keys` of the tally: each key once, in first-occurrence order. */
  function Keys(xs: seq<string>): (ks: seq<string>)
    ensures forall x :: x in ks <==> x in xs
    ensures NoDuplicates(ks)
  {
    if xs == [] then []
    else
      var ks := Keys(xs[..|xs| - 1]);
      assert forall x :: x in xs <==> x in xs[..|xs| - 1] || x == xs[|xs| - 1] by {
        assert xs == xs[..|xs| - 1] + [xs[|xs| - 1]];
      }
      if xs[|xs| - 1] in ks then ks else ks + [xs[|xs| - 1]]
  }

  /** The tally object built by `forEach`/`reduce`: one entry per key, holding its count. */
  function Tally(xs: seq<string>): (m: map<string, nat>)
    ensures forall x :: x in m <==> x in xs
    ensures forall x :: x in m ==> m[x] == Count(xs, x)
  {
    if xs == [] then map[]
    else
      var m := Tally(xs[..|xs| - 1]);
      var x := xs[|xs| - 1];
      assert forall y :: y in xs <==> y in xs[..|xs| - 1] || y == x by {
        assert xs == xs[..|xs| - 1] + [x];
      }
      assert x !in m ==> Count(xs[..|xs| - 1], x) == 0 by {
        if x !in m { CountAbsent(xs[..|xs| - 1], x); }
      }
      m[x := (if x in m then m[x] else 0) + 1]
  }

  /** The keys of the tally are ordered by where each key first occurs. */
  lemma {:induction false} KeysInFirstOccurrenceOrder(xs: seq<string>)
    ensures forall i, j :: 0 <= i < j < |Keys(xs)| ==>
      FirstIndex(xs, Keys(xs)[i]) < FirstIndex(xs, Keys(xs)[j])
    decreases |xs|
  {
    if xs != [] {
      var init := xs[..|xs| - 1];
      var x := xs[|xs| - 1];
      KeysInFirstOccurrenceOrder(init);
      var ks := Keys(init);
      assert xs == init + [x];
      forall y | y in init ensures FirstIndex(xs, y) == FirstIndex(init, y) {
        FirstIndexOfPrefix(init, [x], y);
      }
      if x !in ks {
        assert FirstIndex(xs, x) == |init| by {
          assert x !in init;
        }
      }
    }
  }

  lemma {:induction false} FirstIndexOfPrefix(a: seq<string>, b: seq<string>, y: string)
    requires y in a
    ensures y in a + b && FirstIndex(a + b, y) == FirstIndex(a, y)
    decreases |a|
  {
    if a[0] != y {
      assert (a + b)[1..] == a[1..] + b;
      FirstIndexOfPrefix(a[1..], b, y);
    }
  }

  // ---------------------------------------------------------------------
  // Sums of counts

  /** Sum of the tally's entries over the keys `ks`. */
  function SumCounts(ks: seq<string>, xs: seq<string>): nat
  {
    if ks == [] then 0 else SumCounts(ks[..|ks| - 1], xs) + Count(xs, ks[|ks| - 1])
  }

  /** Adding one element `x` to the tallied sequence adds one to the sum iff `x` is among the keys. */
  lemma {:induction false} SumCountsSnoc(ks: seq<string>, xs: seq<string>, x: string)
    requires NoDuplicates(ks)
    ensures SumCounts(ks, xs + [x]) == SumCounts(ks, xs) + (if x in ks then 1 else 0)
    decreases |ks|
  {
    if ks != [] {
      var init := ks[..|ks| - 1];
      SumCountsSnoc(init, xs, x);
      assert (xs + [x])[..|xs + [x]| - 1] == xs;
      assert x in ks <==> x in init || x == ks[|ks| - 1] by {
        assert ks == init + [ks[|ks| - 1]];
      }
    }
  }

  /** The entries of the tally add up to the number of tallied elements. */
  lemma {:induction false} TallySumsToLength(xs: seq<string>)
    ensures SumCounts(Keys(xs), xs) == |xs|
    decreases |xs|
  {
    if xs != [] {
      var init := xs[..|xs| - 1];
      var x := xs[|xs| - 1];
      TallySumsToLength(init);
      var ks := Keys(init);
      assert xs == init + [x];
      SumCountsSnoc(ks, init, x);
      if x !in ks {
        assert Count(xs, x) == Count(init, x) + 1;
        CountAbsent(init, x);
      }
    }
  }

  lemma {:induction false} CountAbsent(xs: seq<string>, x: string)
    requires x !in xs
    ensures Count(xs, x) == 0
    decreases |xs|
  {
    if xs != [] {
      assert x !in xs[..|xs| - 1];
      CountAbsent(xs[..|xs| - 1], x);
    }
  }

  // ---------------------------------------------------------------------
  // Choosing the top key

  function CountOf(m: map<string, nat>, k: string): nat
  {
    if k in m then m[k] else 0
  }

  /**
   * `ks.reduce((a, b) => m[a] > m[b] ? a : b)`: a left fold that keeps the
   * accumulated key only when its count is strictly greater.
   */
  function ReduceTop(ks: seq<string>, m: map<string, nat>): string
    requires ks != []
  {
    if |ks| == 1 then ks[0]
    else
      var a := ReduceTop(ks[..|ks| - 1], m);
      var b := ks[|ks| - 1];
      if CountOf(m, a) > CountOf(m, b) then a else b
  }

  /** Every key after position `i` has a strictly smaller count than the key at `i`. */
  ghost predicate LaterKeysSmaller(ks: seq<string>, m: map<string, nat>, i: int)
    requires 0 <= i < |ks|
  {
    forall j :: i < j < |ks| ==> CountOf(m, ks[j]) < CountOf(m, ks[i])
  }

  /**
   * The fold returns a key of maximal count, and every key after it has a
   * strictly smaller count: among tied keys the LAST one wins.
   */
  lemma {:induction false} ReduceTopIsLastMaximum(ks: seq<string>, m: map<string, nat>)
    requires ks != []
    ensures exists i :: 0 <= i < |ks| && ks[i] == ReduceTop(ks, m) && LaterKeysSmaller(ks, m, i)
    ensures forall j :: 0 <= j < |ks| ==> CountOf(m, ks[j]) <= CountOf(m, ReduceTop(ks, m))
    decreases |ks|
  {
    if |ks| == 1 {
      assert ks[0] == ReduceTop(ks, m) && LaterKeysSmaller(ks, m, 0);
    } else {
      var init := ks[..|ks| - 1];
      ReduceTopIsLastMaximum(init, m);
      var a := ReduceTop(init, m);
      var b := ks[|ks| - 1];
      var i :| 0 <= i < |init| && init[i] == a && LaterKeysSmaller(init, m, i);
      assert forall j :: 0 <= j < |init| ==> ks[j] == init[j];
      if CountOf(m, a) > CountOf(m, b) {
        assert ks[i] == ReduceTop(ks, m);
        assert LaterKeysSmaller(ks, m, i);
      } else {
        assert ks[|ks| - 1] == ReduceTop(ks, m);
        assert LaterKeysSmaller(ks, m, |ks| - 1);
      }
    }
  }

  /**
   * The key a stable sort by descending count puts first: the earliest key
   * of maximal count (a later key replaces it only with a strictly greater count).
   */
  function FirstTop(ks: seq<string>, m: map<string, nat>): string
    requires ks != []
  {
    if |ks| == 1 then ks[0]
    else
      var a := FirstTop(ks[..|ks| - 1], m);
      var b := ks[|ks| - 1];
      if CountOf(m, b) > CountOf(m, a) then b else a
  }

  /** Every key before position `i` has a strictly smaller count than the key at `i`. */
  ghost predicate EarlierKeysSmaller(ks: seq<string>, m: map<string, nat>, i: int)
    requires 0 <= i < |ks|
  {
    forall j :: 0 <= j < i ==> CountOf(m, ks[j]) < CountOf(m, ks[i])
  }

  /** Every key before the chosen one has a strictly smaller count: among tied keys the FIRST wins. */
  lemma {:induction false} FirstTopIsFirstMaximum(ks: seq<string>, m: map<string, nat>)
    requires ks != []
    ensures exists i :: 0 <= i < |ks| && ks[i] == FirstTop(ks, m) && EarlierKeysSmaller(ks, m, i)
    ensures forall j :: 0 <= j < |ks| ==> CountOf(m, ks[j]) <= CountOf(m, FirstTop(ks, m))
    decreases |ks|
  {
    if |ks| == 1 {
      assert ks[0] == FirstTop(ks, m) && EarlierKeysSmaller(ks, m, 0);
    } else {
      var init := ks[..|ks| - 1];
      FirstTopIsFirstMaximum(init, m);
      var a := FirstTop(init, m);
      var b := ks[|ks| - 1];
      var i :| 0 <= i < |init| && init[i] == a && EarlierKeysSmaller(init, m, i);
      assert forall j :: 0 <= j < |init| ==> ks[j] == init[j];
      if CountOf(m, b) > CountOf(m, a) {
        assert ks[|ks| - 1] == FirstTop(ks, m);
        assert EarlierKeysSmaller(ks, m, |ks| - 1);
      } else {
        assert ks[i] == FirstTop(ks, m);
        assert EarlierKeysSmaller(ks, m, i);
      }
    }
  }

  /**
   * What `Array.prototype.sort` promises for `(a, b) => m[b] - m[a]`: the
   * result is a permutation of the keys, ordered by non-increasing count,
   * and keys of equal count keep their original order (the sort is stable).
   */
  ghost predicate IsStableSortByCountDesc(sorted: seq<string>, ks: seq<string>, m: map<string, nat>)
  {
    && multiset(sorted) == multiset(ks)
    && (forall i, j :: 0 <= i < j < |sorted| ==> CountOf(m, sorted[j]) <= CountOf(m, sorted[i]))
    && (forall i, j :: 0 <= i < j < |sorted| && CountOf(m, sorted[i]) == CountOf(m, sorted[j]) ==>
          IndexOf(ks, sorted[i]) < IndexOf(ks, sorted[j]))
  }

  /** Position of `x` in `ks` (for keys without duplicates, the only one); `|ks|` when absent. */
  function IndexOf(ks: seq<string>, x: string): nat
  {
    if x in ks then FirstIndex(ks, x) else |ks|
  }

  /** So the first element of such a sort is exactly `FirstTop`. */
  lemma StableSortHeadIsFirstTop(sorted: seq<string>, ks: seq<string>, m: map<string, nat>)
    requires ks != [] && NoDuplicates(ks)
    requires IsStableSortByCountDesc(sorted, ks, m)
    ensures sorted != [] && sorted[0] == FirstTop(ks, m)
  {
    assert |sorted| == |ks| by {
      assert |multiset(sorted)| == |multiset(ks)|;
    }
    var h := sorted[0];
    var top := FirstTop(ks, m);
    FirstTopIsFirstMaximum(ks, m);
    var i :| 0 <= i < |ks| && ks[i] == top && EarlierKeysSmaller(ks, m, i);
    assert h in multiset(ks) by { assert h in multiset(sorted); }
    assert top in multiset(sorted) by { assert top in multiset(ks); }
    var p :| 0 <= p < |sorted| && sorted[p] == top;
    if h != top {
      // Stability would put `h` before `top` in the keys, but no key before
      // `top` has its count.
      assert false;
    }
  }

  /**
   * On a tally: the fold's key has a maximal count, and every key first
   * seen after it has a strictly smaller count.
   */
  lemma ReduceTopOfTally(xs: seq<string>)
    requires xs != []
    ensures Keys(xs) != []
    ensures var m := Tally(xs);
      var top := ReduceTop(Keys(xs), m);
      && top in m
      && (forall g :: g in m ==> m[g] <= m[top])
      && (forall g :: g in m && FirstIndex(xs, top) < FirstIndex(xs, g) ==> m[g] < m[top])
  {
    var ks := Keys(xs);
    assert xs[0] in ks;
    var m := Tally(xs);
    var top := ReduceTop(ks, m);
    ReduceTopIsLastMaximum(ks, m);
    KeysInFirstOccurrenceOrder(xs);
    var i :| 0 <= i < |ks| && ks[i] == top && LaterKeysSmaller(ks, m, i);
    forall g | g in m ensures m[g] <= m[top] {
      var j :| 0 <= j < |ks| && ks[j] == g;
    }
    forall g | g in m && FirstIndex(xs, top) < FirstIndex(xs, g) ensures m[g] < m[top] {
      var j :| 0 <= j < |ks| && ks[j] == g;
      assert i < j;
    }
  }

  /**
   * On a tally: the key a stable sort by descending count puts first has a
   * maximal count, and every key first seen before it has a strictly smaller count.
   */
  lemma FirstTopOfTally(xs: seq<string>)
    requires xs != []
    ensures Keys(xs) != []
    ensures var m := Tally(xs);
      var top := FirstTop(Keys(xs), m);
      && top in m
      && (forall g :: g in m ==> m[g] <= m[top])
      && (forall g :: g in m && FirstIndex(xs, g) < FirstIndex(xs, top) ==> m[g] < m[top])
  {
    var ks := Keys(xs);
    assert xs[0] in ks;
    var m := Tally(xs);
    var top := FirstTop(ks, m);
    FirstTopIsFirstMaximum(ks, m);
    KeysInFirstOccurrenceOrder(xs);
    var i :| 0 <= i < |ks| && ks[i] == top && EarlierKeysSmaller(ks, m, i);
    forall g | g in m ensures m[g] <= m[top] {
      var j :| 0 <= j < |ks| && ks[j] == g;
    }
    forall g | g in m && FirstIndex(xs, g) < FirstIndex(xs, top) ensures m[g] < m[top] {
      var j :| 0 <= j < |ks| && ks[j] == g;
      assert j < i;
    }
  }
}
