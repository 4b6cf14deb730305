/** A stable insertion sort on an integer key, with the two facts the
    dashboard relies on: equal keys keep their input order, and the first
    and last elements are the earliest-in-input minimum and the
    latest-in-input maximum. Array.prototype.sort is stable, so this is the
    behaviour of `sort((a, b) => key(a) - key(b))`. */
module Sorting {
  import opened Sequences

  predicate SortedBy<T>(xs: seq<T>, key: T -> int)
  {
    forall i, j :: 0 <= i < j < |xs| ==> key(xs[i]) <= key(xs[j])
  }

  /** Selects the elements whose key is `k`. */
  function HasKey<T>(key: T -> int, k: int): T -> bool
  {
    x => key(x) == k
  }

  /** Places `x` after every element whose key is at most its own. */
  function Insert<T>(s: seq<T>, x: T, key: T -> int): (r: seq<T>)
    ensures |r| == |s| + 1
    ensures multiset(r) == multiset(s) + multiset{x}
    ensures SortedBy(s, key) ==> SortedBy(r, key)
  {
    if |s| == 0 then [x]
    else if key(s[|s| - 1]) <= key(x) then s + [x]
    else
      var front := s[..|s| - 1];
      var last := s[|s| - 1];
      assert s == front + [last];
      var r := Insert(front, x, key) + [last];
      assert SortedBy(s, key) ==> SortedBy(r, key) by {
        if SortedBy(s, key) {
          forall i | 0 <= i < |r| - 1
            ensures key(r[i]) <= key(last)
          {
            assert r[i] in multiset(Insert(front, x, key));
            assert r[i] in multiset(front) || r[i] == x;
          }
        }
      }
      r
  }

  /** Insertion sort, consuming the input from the front as a loop would. */
  function SortBy<T>(xs: seq<T>, key: T -> int): (r: seq<T>)
    ensures |r| == |xs|
    ensures multiset(r) == multiset(xs)
    ensures SortedBy(r, key)
  {
    if |xs| == 0 then []
    else
      assert xs == xs[..|xs| - 1] + [xs[|xs| - 1]];
      Insert(SortBy(xs[..|xs| - 1], key), xs[|xs| - 1], key)
  }

  /** Sorting keeps a property every element has. */
  lemma SortByKeepsAll<T>(xs: seq<T>, key: T -> int, p: T -> bool)
    requires forall i :: 0 <= i < |xs| ==> p(xs[i])
    ensures forall i :: 0 <= i < |SortBy(xs, key)| ==> p(SortBy(xs, key)[i])
  {
    var r := SortBy(xs, key);
    forall i | 0 <= i < |r| ensures p(r[i]) {
      assert r[i] in multiset(xs);
    }
  }

  /** The insertion step that moves `x` past a last element with a larger
      key, given stability for the shorter prefix. */
  lemma InsertStablePast<T>(front: seq<T>, last: T, x: T, key: T -> int, k: int)
    requires key(x) < key(last)
    requires Filter(Insert(front, x, key), HasKey(key, k))
          == Filter(front, HasKey(key, k)) + Filter([x], HasKey(key, k))
    ensures Filter(Insert(front, x, key) + [last], HasKey(key, k))
         == Filter(front + [last], HasKey(key, k)) + Filter([x], HasKey(key, k))
  {
    var p := HasKey(key, k);
    FilterAppend(Insert(front, x, key), [last], p);
    FilterAppend(front, [last], p);
    FilterSingle(x, p);
    FilterSingle(last, p);
  }

  /** Inserting into a sorted sequence puts the new element after every
      element with the same key. */
  lemma {:induction false} InsertStable<T>(s: seq<T>, x: T, key: T -> int, k: int)
    requires SortedBy(s, key)
    ensures Filter(Insert(s, x, key), HasKey(key, k))
         == Filter(s, HasKey(key, k)) + Filter([x], HasKey(key, k))
    decreases |s|
  {
    if |s| == 0 {
    } else if key(s[|s| - 1]) <= key(x) {
      FilterAppend(s, [x], HasKey(key, k));
    } else {
      var front := s[..|s| - 1];
      var last := s[|s| - 1];
      assert s == front + [last];
      assert SortedBy(front, key);
      InsertStable(front, x, key, k);
      InsertStablePast(front, last, x, key, k);
      assert Insert(s, x, key) == Insert(front, x, key) + [last];
    }
  }

  /** The sort is stable: for every key, the elements carrying it appear in
      the output in exactly their input order. */
  lemma {:induction false} SortByStable<T>(xs: seq<T>, key: T -> int, k: int)
    ensures Filter(SortBy(xs, key), HasKey(key, k)) == Filter(xs, HasKey(key, k))
  {
    if |xs| > 0 {
      var front := xs[..|xs| - 1];
      var last := xs[|xs| - 1];
      var p := HasKey(key, k);
      calc {
        Filter(SortBy(xs, key), p);
        Filter(Insert(SortBy(front, key), last, key), p);
        { InsertStable(SortBy(front, key), last, key, k); }
        Filter(SortBy(front, key), p) + Filter([last], p);
        { SortByStable(front, key, k); }
        Filter(front, p) + Filter([last], p);
        { FilterAppend(front, [last], p); assert xs == front + [last]; }
        Filter(xs, p);
      }
    }
  }

  /** The smallest key in a non-empty sequence. */
  function MinKey<T>(xs: seq<T>, key: T -> int): (m: int)
    requires |xs| > 0
    ensures forall i :: 0 <= i < |xs| ==> m <= key(xs[i])
    ensures exists i :: 0 <= i < |xs| && key(xs[i]) == m
  {
    if |xs| == 1 then key(xs[0])
    else
      var m := MinKey(xs[..|xs| - 1], key);
      var last := key(xs[|xs| - 1]);
      assert forall i :: 0 <= i < |xs| - 1 ==> xs[..|xs| - 1][i] == xs[i];
      if last < m then last else m
  }

  /** The largest key in a non-empty sequence. */
  function MaxKey<T>(xs: seq<T>, key: T -> int): (m: int)
    requires |xs| > 0
    ensures forall i :: 0 <= i < |xs| ==> key(xs[i]) <= m
    ensures exists i :: 0 <= i < |xs| && key(xs[i]) == m
  {
    if |xs| == 1 then key(xs[0])
    else
      var m := MaxKey(xs[..|xs| - 1], key);
      var last := key(xs[|xs| - 1]);
      assert forall i :: 0 <= i < |xs| - 1 ==> xs[..|xs| - 1][i] == xs[i];
      if last > m then last else m
  }

  /** A key carried by some element selects at least one element. */
  lemma KeySelects<T>(xs: seq<T>, key: T -> int, i: nat)
    requires i < |xs|
    ensures |Filter(xs, HasKey(key, key(xs[i])))| > 0
  {
    FilterMembers(xs, HasKey(key, key(xs[i])));
    assert xs[i] in Filter(xs, HasKey(key, key(xs[i])));
  }

  /** The elements carrying the smallest key, in input order. */
  function MinSelection<T>(xs: seq<T>, key: T -> int): (sel: seq<T>)
    requires |xs| > 0
    ensures |sel| > 0
  {
    var i :| 0 <= i < |xs| && key(xs[i]) == MinKey(xs, key);
    KeySelects(xs, key, i);
    Filter(xs, HasKey(key, MinKey(xs, key)))
  }

  /** The elements carrying the largest key, in input order. */
  function MaxSelection<T>(xs: seq<T>, key: T -> int): (sel: seq<T>)
    requires |xs| > 0
    ensures |sel| > 0
  {
    var i :| 0 <= i < |xs| && key(xs[i]) == MaxKey(xs, key);
    KeySelects(xs, key, i);
    Filter(xs, HasKey(key, MaxKey(xs, key)))
  }

  /** The first element of the input among those with the smallest key. */
  function EarliestOf<T>(xs: seq<T>, key: T -> int): (e: T)
    requires |xs| > 0
    ensures e in xs && key(e) == MinKey(xs, key)
  {
    var sel := MinSelection(xs, key);
    FilterMembers(xs, HasKey(key, MinKey(xs, key)));
    assert sel[0] in sel;
    assert HasKey(key, MinKey(xs, key))(sel[0]);
    sel[0]
  }

  /** The last element of the input among those with the largest key. */
  function LatestOf<T>(xs: seq<T>, key: T -> int): (e: T)
    requires |xs| > 0
    ensures e in xs && key(e) == MaxKey(xs, key)
  {
    var sel := MaxSelection(xs, key);
    FilterMembers(xs, HasKey(key, MaxKey(xs, key)));
    assert sel[|sel| - 1] in sel;
    assert HasKey(key, MaxKey(xs, key))(sel[|sel| - 1]);
    sel[|sel| - 1]
  }

  /** The head of a sorted sequence carries the smallest key. */
  lemma SortedHeadIsMin<T>(xs: seq<T>, key: T -> int)
    requires |xs| > 0
    ensures key(SortBy(xs, key)[0]) == MinKey(xs, key)
  {
    var r := SortBy(xs, key);
    var m := MinKey(xs, key);
    assert key(r[0]) >= m by {
      assert r[0] in multiset(xs);
      var j :| 0 <= j < |xs| && xs[j] == r[0];
    }
    assert key(r[0]) <= m by {
      var i :| 0 <= i < |xs| && key(xs[i]) == m;
      assert xs[i] in multiset(r);
      var j :| 0 <= j < |r| && r[j] == xs[i];
      assert SortedBy(r, key);
    }
  }

  /** The tail end of a sorted sequence carries the largest key. */
  lemma SortedLastIsMax<T>(xs: seq<T>, key: T -> int)
    requires |xs| > 0
    ensures key(SortBy(xs, key)[|xs| - 1]) == MaxKey(xs, key)
  {
    var r := SortBy(xs, key);
    var m := MaxKey(xs, key);
    assert key(r[|r| - 1]) <= m by {
      assert r[|r| - 1] in multiset(xs);
      var j :| 0 <= j < |xs| && xs[j] == r[|r| - 1];
    }
    assert key(r[|r| - 1]) >= m by {
      var i :| 0 <= i < |xs| && key(xs[i]) == m;
      assert xs[i] in multiset(r);
      var j :| 0 <= j < |r| && r[j] == xs[i];
      assert SortedBy(r, key);
    }
  }

  /** The first element after sorting is the earliest-in-input element with
      the smallest key: ties keep input order. */
  lemma SortByFirst<T>(xs: seq<T>, key: T -> int)
    requires |xs| > 0
    ensures SortBy(xs, key)[0] == EarliestOf(xs, key)
  {
    var r := SortBy(xs, key);
    var m := MinKey(xs, key);
    SortedHeadIsMin(xs, key);
    FilterHead(r, HasKey(key, m));
    SortByStable(xs, key, m);
  }

  /** The last element after sorting is the latest-in-input element with the
      largest key: ties keep input order. */
  lemma SortByLast<T>(xs: seq<T>, key: T -> int)
    requires |xs| > 0
    ensures SortBy(xs, key)[|xs| - 1] == LatestOf(xs, key)
  {
    var r := SortBy(xs, key);
    var m := MaxKey(xs, key);
    SortedLastIsMax(xs, key);
    FilterLast(r, HasKey(key, m));
    SortByStable(xs, key, m);
  }

  /** The earliest element is the first one in the input that carries the
      smallest key: every element before it has a larger key. */
  lemma EarliestOfIsFirstMin<T>(xs: seq<T>, key: T -> int)
    requires |xs| > 0
    ensures exists i :: 0 <= i < |xs| && xs[i] == EarliestOf(xs, key)
                        && forall k :: 0 <= k < i ==> key(xs[k]) > MinKey(xs, key)
  {
    var m := MinKey(xs, key);
    var sel := MinSelection(xs, key);
    assert sel == Filter(xs, HasKey(key, m));
    FilterFirstIndex(xs, HasKey(key, m));
    var i :| 0 <= i < |xs| && xs[i] == sel[0] && HasKey(key, m)(xs[i])
             && forall k :: 0 <= k < i ==> !HasKey(key, m)(xs[k]);
    assert forall k :: 0 <= k < i ==> key(xs[k]) > m by {
      forall k | 0 <= k < i ensures key(xs[k]) > m {
        assert !HasKey(key, m)(xs[k]);
      }
    }
  }

  /** The latest element is the last one in the input that carries the
      largest key: every element after it has a smaller key. */
  lemma LatestOfIsLastMax<T>(xs: seq<T>, key: T -> int)
    requires |xs| > 0
    ensures exists i :: 0 <= i < |xs| && xs[i] == LatestOf(xs, key)
                        && forall k :: i < k < |xs| ==> key(xs[k]) < MaxKey(xs, key)
  {
    var m := MaxKey(xs, key);
    var sel := MaxSelection(xs, key);
    assert sel == Filter(xs, HasKey(key, m));
    FilterLastIndex(xs, HasKey(key, m));
    var i :| 0 <= i < |xs| && xs[i] == sel[|sel| - 1] && HasKey(key, m)(xs[i])
             && forall k :: i < k < |xs| ==> !HasKey(key, m)(xs[k]);
    assert forall k :: i < k < |xs| ==> key(xs[k]) < m by {
      forall k | i < k < |xs| ensures key(xs[k]) < m {
        assert !HasKey(key, m)(xs[k]);
      }
    }
  }
}
