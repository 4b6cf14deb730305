/** Order-preserving selection over sequences, the shape every aggregation
    in the dashboard is built from (Array.prototype.filter and the
    `if (...)` guards inside its forEach loops). */
module Sequences {

  /** The elements of `xs` that satisfy `p`, in their original order.
      Defined on the last element so that it unfolds the way a left-to-right
      loop accumulates. */
  function Filter<T>(xs: seq<T>, p: T -> bool): (ys: seq<T>)
    ensures |ys| <= |xs|
  {
    if |xs| == 0 then []
    else Filter(xs[..|xs| - 1], p) + (if p(xs[|xs| - 1]) then [xs[|xs| - 1]] else [])
  }

  /** An element is selected exactly when it occurs in the input and
      satisfies the predicate. */
  lemma {:induction false} FilterMembers<T>(xs: seq<T>, p: T -> bool)
    ensures forall y :: y in Filter(xs, p) ==> y in xs && p(y)
    ensures forall y :: y in xs && p(y) ==> y in Filter(xs, p)
  {
    if |xs| > 0 {
      FilterMembers(xs[..|xs| - 1], p);
      assert xs == xs[..|xs| - 1] + [xs[|xs| - 1]];
    }
  }

  /** Every selected element satisfies the predicate. */
  lemma FilterSatisfies<T>(xs: seq<T>, p: T -> bool)
    ensures forall i :: 0 <= i < |Filter(xs, p)| ==> p(Filter(xs, p)[i])
  {
    FilterMembers(xs, p);
    forall i | 0 <= i < |Filter(xs, p)| ensures p(Filter(xs, p)[i]) {
      assert Filter(xs, p)[i] in Filter(xs, p);
    }
  }

  /** A selection is empty exactly when no element qualifies. */
  lemma FilterEmpty<T>(xs: seq<T>, p: T -> bool)
    ensures |Filter(xs, p)| == 0 <==> forall i :: 0 <= i < |xs| ==> !p(xs[i])
  {
    FilterMembers(xs, p);
    if |Filter(xs, p)| > 0 {
      assert Filter(xs, p)[0] in Filter(xs, p);
    }
    if i :| 0 <= i < |xs| && p(xs[i]) {
      assert xs[i] in Filter(xs, p);
    }
  }

  /** Selecting from one element keeps it exactly when it qualifies. */
  lemma FilterSingle<T>(x: T, p: T -> bool)
    ensures Filter([x], p) == if p(x) then [x] else []
  {
    assert [x][..0] == [];
  }

  /** The complement of a selection predicate. */
  function Not<T>(p: T -> bool): T -> bool
  {
    x => !p(x)
  }

  /** Selecting from a concatenation selects from each part. */
  lemma {:induction false} FilterAppend<T>(xs: seq<T>, ys: seq<T>, p: T -> bool)
    ensures Filter(xs + ys, p) == Filter(xs, p) + Filter(ys, p)
    decreases |ys|
  {
    if |ys| == 0 {
      assert xs + ys == xs;
    } else {
      var front := ys[..|ys| - 1];
      var last := ys[|ys| - 1];
      assert (xs + ys)[..|xs + ys| - 1] == xs + front;
      assert (xs + ys)[|xs + ys| - 1] == last;
      FilterAppend(xs, front, p);
    }
  }

  /** A selection keeps everything when every element qualifies. */
  lemma {:induction false} FilterAll<T>(xs: seq<T>, p: T -> bool)
    requires forall i :: 0 <= i < |xs| ==> p(xs[i])
    ensures Filter(xs, p) == xs
  {
    if |xs| > 0 {
      FilterAll(xs[..|xs| - 1], p);
      assert xs[..|xs| - 1] + [xs[|xs| - 1]] == xs;
    }
  }

  /** A selection that keeps the first element starts with it. */
  lemma FilterHead<T>(xs: seq<T>, p: T -> bool)
    requires |xs| > 0 && p(xs[0])
    ensures |Filter(xs, p)| > 0 && Filter(xs, p)[0] == xs[0]
  {
    assert xs == [xs[0]] + xs[1..];
    FilterAppend([xs[0]], xs[1..], p);
    assert [xs[0]][..0] == [];
  }

  /** A selection that keeps the last element ends with it. */
  lemma FilterLast<T>(xs: seq<T>, p: T -> bool)
    requires |xs| > 0 && p(xs[|xs| - 1])
    ensures |Filter(xs, p)| > 0 && Filter(xs, p)[|Filter(xs, p)| - 1] == xs[|xs| - 1]
  {
  }

  /** Selecting from a sequence extended by one element. */
  lemma FilterSnoc<T>(xs: seq<T>, x: T, p: T -> bool)
    ensures Filter(xs + [x], p) == Filter(xs, p) + (if p(x) then [x] else [])
  {
    assert (xs + [x])[..|xs + [x]| - 1] == xs;
  }

  /** The multiset of a selection from a sequence extended by one element. */
  lemma FilterSnocMultiset<T>(xs: seq<T>, x: T, p: T -> bool)
    ensures multiset(Filter(xs + [x], p))
         == multiset(Filter(xs, p)) + (if p(x) then multiset{x} else multiset{})
  {
    FilterSnoc(xs, x, p);
  }

  /** Every element is selected by exactly one of `p` and its complement. */
  lemma {:induction false} FilterSplit<T>(xs: seq<T>, p: T -> bool)
    ensures multiset(Filter(xs, p)) + multiset(Filter(xs, Not(p))) == multiset(xs)
  {
    if |xs| > 0 {
      var front := xs[..|xs| - 1];
      var x := xs[|xs| - 1];
      assert xs == front + [x];
      FilterSplit(front, p);
      FilterSnocMultiset(front, x, p);
      FilterSnocMultiset(front, x, Not(p));
    }
  }

  /** The first selected element is the first element of the input that
      qualifies. */
  lemma {:induction false} FilterFirstIndex<T>(xs: seq<T>, p: T -> bool)
    requires |Filter(xs, p)| > 0
    ensures exists i :: 0 <= i < |xs| && xs[i] == Filter(xs, p)[0] && p(xs[i])
                        && forall k :: 0 <= k < i ==> !p(xs[k])
  {
    var front := xs[..|xs| - 1];
    var x := xs[|xs| - 1];
    assert forall k :: 0 <= k < |front| ==> front[k] == xs[k];
    if |Filter(front, p)| > 0 {
      FilterFirstIndex(front, p);
      var i :| 0 <= i < |front| && front[i] == Filter(front, p)[0] && p(front[i])
               && forall k :: 0 <= k < i ==> !p(front[k]);
      assert xs[i] == Filter(xs, p)[0];
    } else {
      FilterEmpty(front, p);
      assert Filter(xs, p) == [x];
      assert xs[|xs| - 1] == Filter(xs, p)[0];
    }
  }

  /** The last selected element is the last element of the input that
      qualifies. */
  lemma {:induction false} FilterLastIndex<T>(xs: seq<T>, p: T -> bool)
    requires |Filter(xs, p)| > 0
    ensures exists i :: 0 <= i < |xs| && xs[i] == Filter(xs, p)[|Filter(xs, p)| - 1] && p(xs[i])
                        && forall k :: i < k < |xs| ==> !p(xs[k])
  {
    var front := xs[..|xs| - 1];
    var x := xs[|xs| - 1];
    if p(x) {
      assert xs[|xs| - 1] == Filter(xs, p)[|Filter(xs, p)| - 1];
    } else {
      assert Filter(xs, p) == Filter(front, p);
      FilterLastIndex(front, p);
      var i :| 0 <= i < |front| && front[i] == Filter(front, p)[|Filter(front, p)| - 1] && p(front[i])
               && forall k :: i < k < |front| ==> !p(front[k]);
      assert xs[i] == front[i];
      assert forall k :: i < k < |xs| ==> !p(xs[k]) by {
        forall k | i < k < |xs| ensures !p(xs[k]) {
          if k < |front| { assert xs[k] == front[k]; }
        }
      }
    }
  }

  /** Selection keeps relative order: two selected elements come from two
      input positions in the same order. */
  lemma {:induction false} FilterKeepsOrder<T>(xs: seq<T>, p: T -> bool, a: nat, b: nat)
    requires a < b < |Filter(xs, p)|
    ensures exists i, j :: 0 <= i < j < |xs| && xs[i] == Filter(xs, p)[a] && xs[j] == Filter(xs, p)[b]
  {
    var front := xs[..|xs| - 1];
    var x := xs[|xs| - 1];
    var fs := Filter(front, p);
    assert forall k :: 0 <= k < |front| ==> front[k] == xs[k];
    if b < |fs| {
      FilterKeepsOrder(front, p, a, b);
      var i, j :| 0 <= i < j < |front| && front[i] == fs[a] && front[j] == fs[b];
      assert xs[i] == Filter(xs, p)[a] && xs[j] == Filter(xs, p)[b];
    } else {
      FilterMembers(front, p);
      assert fs[a] in front;
      var i :| 0 <= i < |front| && front[i] == fs[a];
      assert xs[i] == Filter(xs, p)[a] && xs[|xs| - 1] == Filter(xs, p)[b];
    }
  }

  /** Selecting with `q` from a selection with a weaker `p` is selecting
      with `q` directly. */
  lemma {:induction false} FilterNested<T>(xs: seq<T>, p: T -> bool, q: T -> bool)
    requires forall x :: q(x) ==> p(x)
    ensures Filter(Filter(xs, p), q) == Filter(xs, q)
  {
    if |xs| > 0 {
      var front := xs[..|xs| - 1];
      var x := xs[|xs| - 1];
      FilterNested(front, p, q);
      assert Filter(xs, q) == Filter(front, q) + (if q(x) then [x] else []);
      if p(x) {
        assert Filter(xs, p) == Filter(front, p) + [x];
        FilterSnoc(Filter(front, p), x, q);
      } else {
        assert !q(x);
        assert Filter(xs, p) == Filter(front, p) + [] == Filter(front, p);
        assert Filter(xs, q) == Filter(front, q) + [] == Filter(front, q);
      }
    }
  }

  /** A qualifying element of the input has a position in the selection. */
  lemma FilterPosition<T>(xs: seq<T>, p: T -> bool, k: nat)
    requires k < |xs| && p(xs[k])
    ensures exists m :: 0 <= m < |Filter(xs, p)| && Filter(xs, p)[m] == xs[k]
  {
    FilterMembers(xs, p);
    assert xs[k] in Filter(xs, p);
  }
}
