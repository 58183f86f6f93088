/*
 * Sorting: Python's list.sort(key=...) and sorted(...), which are stable.
 * Keys are numbers or float('inf'); a descending sort on a number p is an
 * ascending sort on -p (Python keeps equal keys in their original order
 * also with reverse=True).
 */
module Sorting {

  /** A sort key: a finite number or float('inf'). */
  datatype Rank = Finite(x: real) | Top

  /** The strict order of keys. */
  predicate Below(a: Rank, b: Rank) {
    match a
    case Top => false
    case Finite(x) => (match b case Top => true case Finite(y) => x < y)
  }

  predicate SortedBy<T>(s: seq<T>, rank: T -> Rank) {
    forall i, j :: 0 <= i < j < |s| ==> !Below(rank(s[j]), rank(s[i]))
  }

  /** Places x after every element whose key is not above x's key. */
  function Insert<T>(s: seq<T>, x: T, rank: T -> Rank): (r: seq<T>)
    ensures |r| == |s| + 1
  {
    if s == [] then [x]
    else if Below(rank(x), rank(s[|s| - 1])) then Insert(s[..|s| - 1], x, rank) + [s[|s| - 1]]
    else s + [x]
  }

  /** The elements of s whose key is k, in their order in s. */
  function WithRank<T>(s: seq<T>, k: Rank, rank: T -> Rank): (r: seq<T>)
    ensures |r| <= |s|
  {
    if s == [] then []
    else WithRank(s[..|s| - 1], k, rank) + (if rank(s[|s| - 1]) == k then [s[|s| - 1]] else [])
  }

  lemma {:induction false} WithRankAppend<T>(s: seq<T>, t: seq<T>, k: Rank, rank: T -> Rank)
    ensures WithRank(s + t, k, rank) == WithRank(s, k, rank) + WithRank(t, k, rank)
    decreases |t|
  {
    if t == [] {
      assert s + t == s;
    } else {
      assert (s + t)[..|s + t| - 1] == s + t[..|t| - 1];
      WithRankAppend(s, t[..|t| - 1], k, rank);
    }
  }

  /** Where Insert puts x: after the last element whose key is not above x's. */
  function InsertIndex<T>(s: seq<T>, x: T, rank: T -> Rank): (k: nat)
    ensures k <= |s|
  {
    if s == [] then 0
    else if Below(rank(x), rank(s[|s| - 1])) then InsertIndex(s[..|s| - 1], x, rank)
    else |s|
  }

  lemma {:induction false} InsertAt<T>(s: seq<T>, x: T, rank: T -> Rank)
    ensures var k := InsertIndex(s, x, rank);
      Insert(s, x, rank) == s[..k] + [x] + s[k..]
      && (forall i :: k <= i < |s| ==> Below(rank(x), rank(s[i])))
      && (k > 0 ==> !Below(rank(x), rank(s[k - 1])))
  {
    if s != [] && Below(rank(x), rank(s[|s| - 1])) {
      var init := s[..|s| - 1];
      InsertAt(init, x, rank);
      var k := InsertIndex(init, x, rank);
      assert s[..k] == init[..k];
      assert s[k..] == init[k..] + [s[|s| - 1]];
    }
  }

  lemma BelowThrough(a: Rank, b: Rank, c: Rank)
    requires Below(a, b) && !Below(c, b)
    ensures Below(a, c)
  {
  }

  lemma BelowAsymmetric(a: Rank, b: Rank)
    requires Below(a, b)
    ensures !Below(b, a)
  {
  }

  lemma {:induction false} InsertSorted<T>(s: seq<T>, x: T, rank: T -> Rank)
    requires SortedBy(s, rank)
    ensures SortedBy(Insert(s, x, rank), rank)
  {
    InsertAt(s, x, rank);
    var k := InsertIndex(s, x, rank);
    var r := Insert(s, x, rank);
    forall i, j | 0 <= i < j < |r| ensures !Below(rank(r[j]), rank(r[i])) {
      if j < k {
        assert r[i] == s[i] && r[j] == s[j];
      } else if i > k {
        assert r[i] == s[i - 1] && r[j] == s[j - 1];
      } else if i == k {
        assert r[i] == x && r[j] == s[j - 1];
        BelowAsymmetric(rank(x), rank(s[j - 1]));
      } else if j == k {
        assert r[i] == s[i] && r[j] == x;
        if Below(rank(x), rank(s[i])) {
          BelowThrough(rank(x), rank(s[i]), rank(s[k - 1]));
        }
      } else {
        assert r[i] == s[i] && r[j] == s[j - 1];
      }
    }
  }

  lemma {:induction false} InsertKeepsRankOrder<T>(s: seq<T>, x: T, k: Rank, rank: T -> Rank)
    ensures WithRank(Insert(s, x, rank), k, rank) == WithRank(s, k, rank) + WithRank([x], k, rank)
  {
    if s == [] {
      assert Insert(s, x, rank) == [] + [x];
    } else if Below(rank(x), rank(s[|s| - 1])) {
      var init, last := s[..|s| - 1], s[|s| - 1];
      InsertKeepsRankOrder(init, x, k, rank);
      WithRankAppend(Insert(init, x, rank), [last], k, rank);
      WithRankAppend(init, [last], k, rank);
      assert init + [last] == s;
      assert rank(x) == k ==> rank(last) != k;
    } else {
      WithRankAppend(s, [x], k, rank);
    }
  }

  lemma {:induction false} InsertMultiset<T>(s: seq<T>, x: T, rank: T -> Rank)
    ensures multiset(Insert(s, x, rank)) == multiset(s) + multiset{x}
  {
    if s != [] && Below(rank(x), rank(s[|s| - 1])) {
      InsertMultiset(s[..|s| - 1], x, rank);
      assert s == s[..|s| - 1] + [s[|s| - 1]];
    }
  }

  /**
   * list.sort(key=rank): a stable insertion sort. The result is sorted and
   * a permutation of the input.
   */
  function SortBy<T(==)>(s: seq<T>, rank: T -> Rank): (r: seq<T>)
    ensures |r| == |s|
    ensures SortedBy(r, rank)
    ensures multiset(r) == multiset(s)
  {
    if s == [] then []
    else
      var init := SortBy(s[..|s| - 1], rank);
      var x := s[|s| - 1];
      InsertSorted(init, x, rank);
      InsertMultiset(init, x, rank);
      assert s == s[..|s| - 1] + [x];
      Insert(init, x, rank)
  }

  /** Stability: elements with equal keys keep their original relative order. */
  lemma {:induction false} SortByStable<T>(s: seq<T>, k: Rank, rank: T -> Rank)
    ensures WithRank(SortBy(s, rank), k, rank) == WithRank(s, k, rank)
  {
    if s != [] {
      var init, last := s[..|s| - 1], s[|s| - 1];
      SortByStable(init, k, rank);
      InsertKeepsRankOrder(SortBy(init, rank), last, k, rank);
    }
  }

  /** Sorting a list made by appending one element to a sorted list inserts
      that element after every element whose key is not above its own. */
  lemma SortAppendSorted<T>(s: seq<T>, x: T, rank: T -> Rank)
    requires SortedBy(s, rank)
    ensures SortBy(s + [x], rank) == Insert(SortBy(s, rank), x, rank)
    ensures SortBy(s, rank) == s
  {
    SortOfSorted(s, rank);
    assert (s + [x])[..|s|] == s;
  }

  /** A list that is already sorted is left as it is. */
  lemma {:induction false} SortOfSorted<T>(s: seq<T>, rank: T -> Rank)
    requires SortedBy(s, rank)
    ensures SortBy(s, rank) == s
  {
    if s != [] {
      var init := s[..|s| - 1];
      SortOfSorted(init, rank);
      assert Insert(init, s[|s| - 1], rank) == s;
    }
  }
}
