/**
 Order-preserving sequence helpers shared by the model: the behaviour of
 JavaScript's `Array.prototype.filter` and `Array.prototype.some` on Dafny
 sequences, and the positions a filter keeps.
 */
module Seqs {

  /** `xs.filter(p)`: the elements of `xs` satisfying `p`, in their original order. */
  function Filter<T>(xs: seq<T>, p: T -> bool): (r: seq<T>)
    ensures |r| <= |xs|
    ensures forall i :: 0 <= i < |r| ==> r[i] in xs && p(r[i])
    ensures forall i :: 0 <= i < |xs| && p(xs[i]) ==> xs[i] in r
    decreases |xs|
  {
    if |xs| == 0 then []
    else (if p(xs[0]) then [xs[0]] else []) + Filter(xs[1..], p)
  }

  /** `xs.some(p)`: true iff some element of `xs` satisfies `p`. */
  function Any<T>(xs: seq<T>, p: T -> bool): (r: bool)
    ensures r <==> exists i :: 0 <= i < |xs| && p(xs[i])
    decreases |xs|
  {
    if |xs| == 0 then false
    else p(xs[0]) || Any(xs[1..], p)
  }

  /**
   `idx` lists positions of `xs`, strictly increasing, and `r` is what `xs`
   holds at those positions: `r` is `xs` with some elements dropped.
   */
  ghost predicate IsEmbedding<T>(idx: seq<nat>, r: seq<T>, xs: seq<T>)
  {
    && |idx| == |r|
    && (forall k :: 0 <= k < |idx| ==> idx[k] < |xs| && r[k] == xs[idx[k]])
    && Increasing(idx)
  }

  /** Strictly increasing positions. */
  ghost predicate Increasing(idx: seq<nat>)
  {
    forall k, l :: 0 <= k < l < |idx| ==> idx[k] < idx[l]
  }

  /** Every position moved one place to the right. */
  function Shift(idx: seq<nat>): (r: seq<nat>)
    ensures |r| == |idx|
    ensures forall k :: 0 <= k < |idx| ==> r[k] == idx[k] + 1
    decreases |idx|
  {
    if |idx| == 0 then [] else [idx[0] + 1] + Shift(idx[1..])
  }

  /**
   The positions `Filter` keeps: exactly those where `p` holds, in increasing
   order, so the filtered sequence is an order-preserving subsequence.
   */
  function FilterPositions<T>(xs: seq<T>, p: T -> bool): (idx: seq<nat>)
    ensures IsEmbedding(idx, Filter(xs, p), xs)
    ensures forall j :: 0 <= j < |xs| ==> (j in idx <==> p(xs[j]))
    decreases |xs|
  {
    if |xs| == 0 then []
    else
      var rest := FilterPositions(xs[1..], p);
      FilterPositionsStep(xs, p, rest);
      (if p(xs[0]) then [0] else []) + Shift(rest)
  }

  lemma FilterPositionsStep<T>(xs: seq<T>, p: T -> bool, rest: seq<nat>)
    requires |xs| > 0
    requires IsEmbedding(rest, Filter(xs[1..], p), xs[1..])
    requires forall j :: 0 <= j < |xs| - 1 ==> (j in rest <==> p(xs[1..][j]))
    ensures IsEmbedding((if p(xs[0]) then [0] else []) + Shift(rest), Filter(xs, p), xs)
    ensures forall j :: 0 <= j < |xs| ==>
              (j in (if p(xs[0]) then [0] else []) + Shift(rest) <==> p(xs[j]))
  {
    EmbeddingStep(xs, p, rest);
    PositionsStep(xs, p, rest);
  }

  lemma EmbeddingStep<T>(xs: seq<T>, p: T -> bool, rest: seq<nat>)
    requires |xs| > 0
    requires IsEmbedding(rest, Filter(xs[1..], p), xs[1..])
    ensures IsEmbedding((if p(xs[0]) then [0] else []) + Shift(rest), Filter(xs, p), xs)
  {
    var head: seq<nat> := if p(xs[0]) then [0] else [];
    var tail := Filter(xs[1..], p);
    assert Filter(xs, p) == (if p(xs[0]) then [xs[0]] else []) + tail;
    EmbeddingCons(xs, head, rest, tail, p(xs[0]));
  }

  lemma EmbeddingCons<T>(xs: seq<T>, head: seq<nat>, rest: seq<nat>, tail: seq<T>, keep: bool)
    requires |xs| > 0
    requires head == if keep then [0] else []
    requires IsEmbedding(rest, tail, xs[1..])
    ensures IsEmbedding(head + Shift(rest), (if keep then [xs[0]] else []) + tail, xs)
  {
    var sh := Shift(rest);
    var idx := head + sh;
    var r := (if keep then [xs[0]] else []) + tail;
    forall k | 0 <= k < |idx|
      ensures idx[k] < |xs| && r[k] == xs[idx[k]]
    {
      if k >= |head| {
        var k' := k - |head|;
        assert idx[k] == rest[k'] + 1;
        assert r[k] == tail[k'];
        assert tail[k'] == xs[1..][rest[k']];
      }
    }
    IncreasingCons(head, rest);
  }

  lemma IncreasingCons(head: seq<nat>, rest: seq<nat>)
    requires head == [] || head == [0]
    requires Increasing(rest)
    ensures Increasing(head + Shift(rest))
  {
    var sh := Shift(rest);
    var idx := head + sh;
    forall k, l | 0 <= k < l < |idx|
      ensures idx[k] < idx[l]
    {
      if k >= |head| {
        assert idx[k] == sh[k - |head|];
        assert idx[l] == sh[l - |head|];
      } else {
        assert idx[l] == sh[l - |head|];
      }
    }
  }

  lemma PositionsStep<T>(xs: seq<T>, p: T -> bool, rest: seq<nat>)
    requires |xs| > 0
    requires forall j :: 0 <= j < |xs| - 1 ==> (j in rest <==> p(xs[1..][j]))
    ensures forall j :: 0 <= j < |xs| ==>
              (j in (if p(xs[0]) then [0] else []) + Shift(rest) <==> p(xs[j]))
  {
    var head: seq<nat> := if p(xs[0]) then [0] else [];
    var sh := Shift(rest);
    var idx := head + sh;
    forall j | 0 <= j < |xs|
      ensures j in idx <==> p(xs[j])
    {
      if j > 0 {
        if j in sh {
          var k :| 0 <= k < |sh| && sh[k] == j;
          assert rest[k] == j - 1;
        }
        if j - 1 in rest {
          var k :| 0 <= k < |rest| && rest[k] == j - 1;
          assert sh[k] == j;
        }
        assert xs[1..][j - 1] == xs[j];
      } else {
        assert 0 !in sh;
      }
    }
  }

  /** Filtering distributes over concatenation: kept elements keep their relative order. */
  lemma {:induction false} FilterConcat<T>(a: seq<T>, b: seq<T>, p: T -> bool)
    ensures Filter(a + b, p) == Filter(a, p) + Filter(b, p)
    decreases |a|
  {
    if |a| == 0 {
      assert a + b == b;
    } else {
      assert (a + b)[1..] == a[1..] + b;
      FilterConcat(a[1..], b, p);
    }
  }

  /** A filter whose predicate holds everywhere keeps the whole sequence. */
  lemma {:induction false} FilterKeepsAll<T>(xs: seq<T>, p: T -> bool)
    requires forall i :: 0 <= i < |xs| ==> p(xs[i])
    ensures Filter(xs, p) == xs
    decreases |xs|
  {
    if |xs| != 0 {
      FilterKeepsAll(xs[1..], p);
    }
  }

  /** Filtering again with the same predicate changes nothing. */
  lemma {:induction false} FilterIdempotent<T>(xs: seq<T>, p: T -> bool)
    ensures Filter(Filter(xs, p), p) == Filter(xs, p)
  {
    var r := Filter(xs, p);
    forall i | 0 <= i < |r|
      ensures p(r[i])
    {
      assert r[i] in r;
    }
    FilterKeepsAll(r, p);
  }

  /** Two predicates that agree on every element of `xs` filter it identically. */
  lemma {:induction false} FilterAgree<T>(xs: seq<T>, p: T -> bool, q: T -> bool)
    requires forall i :: 0 <= i < |xs| ==> p(xs[i]) == q(xs[i])
    ensures Filter(xs, p) == Filter(xs, q)
    decreases |xs|
  {
    if |xs| != 0 {
      FilterAgree(xs[1..], p, q);
    }
  }

  /**
   Filtering with two disjoint predicates splits the filter by their union
   into two parts, counting multiplicities.
   */
  lemma {:induction false} FilterSplit<T>(xs: seq<T>, p: T -> bool, q: T -> bool, pq: T -> bool)
    requires forall i :: 0 <= i < |xs| ==> !(p(xs[i]) && q(xs[i]))
    requires forall i :: 0 <= i < |xs| ==> pq(xs[i]) == (p(xs[i]) || q(xs[i]))
    ensures multiset(Filter(xs, p)) + multiset(Filter(xs, q)) == multiset(Filter(xs, pq))
    decreases |xs|
  {
    if |xs| != 0 {
      FilterSplit(xs[1..], p, q, pq);
    }
  }
}
