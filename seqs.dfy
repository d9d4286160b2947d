/**
 * Sequence helpers shared by the analysis: an order-preserving filter (`Iterator::filter` followed
 * by `collect`) and a strictly sorted sequence standing for an ordered set (`BTreeSet`), whose
 * iteration order is ascending and which holds no duplicates.
 */
module Seqs {

  /** `f` applied to every element of `s`, in order (`Iterator::map` followed by `collect`). */
  function Map<A, B>(s: seq<A>, f: A -> B): (r: seq<B>)
    ensures |r| == |s| && forall i :: 0 <= i < |s| ==> r[i] == f(s[i])
  {
    if s == [] then []
    else
      var init := Map(s[..|s| - 1], f);
      assert forall i :: 0 <= i < |s| - 1 ==> s[..|s| - 1][i] == s[i];
      init + [f(s[|s| - 1])]
  }

  /** The elements of `s` that satisfy `p`, in their order in `s`. */
  function Filter<T>(s: seq<T>, p: T -> bool): (r: seq<T>)
    ensures |r| <= |s|
  {
    if s == [] then []
    else Filter(s[..|s| - 1], p) + (if p(s[|s| - 1]) then [s[|s| - 1]] else [])
  }

  /** The positions of `s` whose element satisfies `p`, in increasing order. */
  function FilterIndices<T>(s: seq<T>, p: T -> bool): (r: seq<nat>)
    ensures forall k :: 0 <= k < |r| ==> r[k] < |s| && p(s[r[k]])
    ensures forall k, l :: 0 <= k < l < |r| ==> r[k] < r[l]
    ensures forall i :: 0 <= i < |s| && p(s[i]) ==> i in r
  {
    if s == [] then []
    else
      var r := FilterIndices(s[..|s| - 1], p);
      assert forall k :: 0 <= k < |r| ==> s[..|s| - 1][r[k]] == s[r[k]];
      r + (if p(s[|s| - 1]) then [|s| - 1] else [])
  }

  /**
   * The filter is the subsequence of `s` at exactly the positions where `p` holds: nothing is
   * reordered, duplicated or dropped beyond what `p` rejects.
   */
  lemma {:induction false} FilterAtIndices<T>(s: seq<T>, p: T -> bool)
    ensures |Filter(s, p)| == |FilterIndices(s, p)|
    ensures forall k :: 0 <= k < |Filter(s, p)| ==> Filter(s, p)[k] == s[FilterIndices(s, p)[k]]
  {
    if s != [] {
      var init := s[..|s| - 1];
      FilterAtIndices(init, p);
      var r := FilterIndices(init, p);
      assert forall k :: 0 <= k < |r| ==> init[r[k]] == s[r[k]];
    }
  }

  /** An element is kept exactly when it occurs in `s` and satisfies `p`. */
  lemma {:induction false} FilterMembership<T>(s: seq<T>, p: T -> bool, x: T)
    ensures x in Filter(s, p) <==> x in s && p(x)
  {
    if s != [] {
      var init := s[..|s| - 1];
      FilterMembership(init, p, x);
      assert s == init + [s[|s| - 1]];
    }
  }

  /** Filtering distributes over concatenation: no element affects what happens to another. */
  lemma {:induction false} FilterAppend<T>(a: seq<T>, b: seq<T>, p: T -> bool)
    ensures Filter(a + b, p) == Filter(a, p) + Filter(b, p)
  {
    if b == [] {
      assert a + b == a;
    } else {
      var init := b[..|b| - 1];
      assert (a + b)[..|a + b| - 1] == a + init;
      FilterAppend(a, init, p);
    }
  }

  /** `less` is a strict total order on all of `T`. */
  ghost predicate IsStrictTotalOrder<T(!new)>(less: (T, T) -> bool) {
    (forall a :: !less(a, a))
    && (forall a, b, c :: less(a, b) && less(b, c) ==> less(a, c))
    && (forall a, b :: a == b || less(a, b) || less(b, a))
  }

  /** Ascending without repetition. */
  predicate StrictlySorted<T>(s: seq<T>, less: (T, T) -> bool) {
    forall i, j :: 0 <= i < j < |s| ==> less(s[i], s[j])
  }

  /** `BTreeSet::insert`: `x` is added unless already present. */
  function Insert<T(==)>(s: seq<T>, x: T, less: (T, T) -> bool): (r: seq<T>)
    ensures x in r && forall y :: y in r ==> y in s || y == x
    ensures forall y :: y in s ==> y in r
  {
    if s == [] then [x]
    else if x == s[0] then s
    else if less(x, s[0]) then [x] + s
    else
      var tail := Insert(s[1..], x, less);
      assert forall y :: y in s ==> y == s[0] || y in s[1..];
      [s[0]] + tail
  }

  /** Insertion keeps the order ascending and free of duplicates. */
  lemma {:induction false} InsertSorted<T(!new)>(s: seq<T>, x: T, less: (T, T) -> bool)
    requires IsStrictTotalOrder(less) && StrictlySorted(s, less)
    ensures StrictlySorted(Insert(s, x, less), less)
  {
    if s != [] && x != s[0] {
      if less(x, s[0]) {
        var r := [x] + s;
        forall i, j | 0 <= i < j < |r|
          ensures less(r[i], r[j])
        {
          if i == 0 && j > 1 {
            assert less(s[0], s[j - 1]);
          }
        }
      } else {
        assert less(s[0], x);
        InsertSorted(s[1..], x, less);
        var tail := Insert(s[1..], x, less);
        forall y | y in tail
          ensures less(s[0], y)
        {
          if y != x {
            var k :| 0 <= k < |s[1..]| && s[1..][k] == y;
            assert s[k + 1] == y;
          }
        }
        var r := [s[0]] + tail;
        forall i, j | 0 <= i < j < |r|
          ensures less(r[i], r[j])
        {
          if i == 0 {
            assert r[j] == tail[j - 1] && tail[j - 1] in tail;
          } else {
            assert r[i] == tail[i - 1] && r[j] == tail[j - 1];
          }
        }
      }
    }
  }

  /**
   * An ordered set is determined by its elements: two strictly sorted sequences holding the same
   * elements are equal.
   */
  lemma {:induction false} SortedUnique<T(!new)>(a: seq<T>, b: seq<T>, less: (T, T) -> bool)
    requires IsStrictTotalOrder(less)
    requires StrictlySorted(a, less) && StrictlySorted(b, less)
    requires forall x :: x in a <==> x in b
    ensures a == b
  {
    assert a != [] ==> a[0] in b;
    assert b != [] ==> b[0] in a;
    if a != [] && b != [] {
      var j :| 0 <= j < |b| && b[j] == a[0];
      var i :| 0 <= i < |a| && a[i] == b[0];
      assert less(b[0], a[0]) || b[0] == a[0];
      assert less(a[0], b[0]) || a[0] == b[0];
      assert a[0] == b[0];
      forall x
        ensures x in a[1..] <==> x in b[1..]
      {
        if x in a[1..] {
          var i :| 0 <= i < |a[1..]| && a[1..][i] == x;
          assert a[i + 1] == x && less(a[0], x) && x in b;
          var k :| 0 <= k < |b| && b[k] == x;
          assert k != 0 && b[1..][k - 1] == x;
        }
        if x in b[1..] {
          var i :| 0 <= i < |b[1..]| && b[1..][i] == x;
          assert b[i + 1] == x && less(b[0], x) && x in a;
          var k :| 0 <= k < |a| && a[k] == x;
          assert k != 0 && a[1..][k - 1] == x;
        }
      }
      SortedUnique(a[1..], b[1..], less);
      assert a == [a[0]] + a[1..] && b == [b[0]] + b[1..];
    }
  }
}
