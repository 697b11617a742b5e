/**
 * Sequence utilities shared by the events views: duplicate-free sequences and the
 * sort that `Array.prototype.sort` performs with a comparator of the shape
 * `(a, b) => a > b ? 1 : -1`.
 */
module Sequences {

  /** No element occurs twice. */
  ghost predicate Distinct<T>(s: seq<T>) {
    forall i, j :: 0 <= i < j < |s| ==> s[i] != s[j]
  }

  lemma {:induction false} DistinctIffSingleCounts<T>(s: seq<T>)
    ensures Distinct(s) <==> forall x :: multiset(s)[x] <= 1
  {
    if s != [] {
      var t := s[1..];
      assert s == [s[0]] + t;
      assert multiset(s) == multiset{s[0]} + multiset(t);
      DistinctIffSingleCounts(t);
      if Distinct(s) {
        assert Distinct(t) by {
          forall i, j | 0 <= i < j < |t| ensures t[i] != t[j] {
            assert t[i] == s[i + 1] && t[j] == s[j + 1];
          }
        }
        assert s[0] !in t by {
          forall j | 0 <= j < |t| ensures t[j] != s[0] {
            assert t[j] == s[j + 1];
          }
        }
      }
      if forall x :: multiset(s)[x] <= 1 {
        assert forall x :: multiset(t)[x] <= multiset(s)[x];
        assert multiset(t)[s[0]] == 0;
        forall i, j | 0 <= i < j < |s| ensures s[i] != s[j] {
          if i == 0 {
            assert s[j] in multiset(t) by { assert s[j] == t[j - 1]; }
          } else {
            assert s[i] == t[i - 1] && s[j] == t[j - 1];
          }
        }
      }
    }
  }

  /** A permutation of a duplicate-free sequence is duplicate-free. */
  lemma DistinctPermutation<T>(s: seq<T>, r: seq<T>)
    requires Distinct(s) && multiset(r) == multiset(s)
    ensures Distinct(r)
  {
    DistinctIffSingleCounts(s);
    DistinctIffSingleCounts(r);
  }

  /** A duplicate-free sequence has as many elements as its set of elements. */
  lemma {:induction false} DistinctCardinality<T>(s: seq<T>)
    requires Distinct(s)
    ensures |set x | x in s| == |s|
  {
    if s != [] {
      var t := s[1..];
      DistinctTail(s);
      DistinctCardinality(t);
      SetOfCons(s);
    }
  }

  /** Dropping the head of a sequence without repeats leaves one without repeats that lacks the head. */
  lemma DistinctTail<T>(s: seq<T>)
    requires Distinct(s) && s != []
    ensures Distinct(s[1..]) && s[0] !in s[1..]
  {
    var t := s[1..];
    forall i, j | 0 <= i < j < |t| ensures t[i] != t[j] {
      assert t[i] == s[i + 1] && t[j] == s[j + 1];
    }
    forall j | 0 <= j < |t| ensures t[j] != s[0] {
      assert t[j] == s[j + 1];
    }
  }

  /** The elements of a non-empty sequence are its head and the elements of its tail. */
  lemma SetOfCons<T>(s: seq<T>)
    requires s != []
    ensures (set x | x in s) == {s[0]} + (set x | x in s[1..])
  {
    assert s == [s[0]] + s[1..];
  }

  /**
   * `gt(a, b)` holds when the comparator puts `a` after `b`.  A strict weak order is
   * what a sort needs: `gt` is asymmetric and "not after" is transitive.
   */
  ghost predicate StrictWeakOrder<T(!new)>(gt: (T, T) -> bool) {
    && (forall a, b :: gt(a, b) ==> !gt(b, a))
    && (forall a, b, c {:trigger gt(a, b), gt(b, c)} {:trigger gt(a, c), gt(a, b)} {:trigger gt(a, c), gt(b, c)}
          :: gt(a, c) ==> gt(a, b) || gt(b, c))
  }

  /** A strict weak order under which only equal values are unordered. */
  ghost predicate StrictTotalOrder<T(!new)>(gt: (T, T) -> bool) {
    && StrictWeakOrder(gt)
    && (forall a, b :: a != b ==> gt(a, b) || gt(b, a))
  }

  /** No element is put after one that follows it. */
  ghost predicate SortedBy<T>(s: seq<T>, gt: (T, T) -> bool) {
    forall i, j :: 0 <= i < j < |s| ==> !gt(s[i], s[j])
  }

  /** Places `x` before the first element it does not go after. */
  function Insert<T>(x: T, s: seq<T>, gt: (T, T) -> bool): (r: seq<T>)
    ensures multiset(r) == multiset(s) + multiset{x}
    ensures |r| == |s| + 1
  {
    if s == [] || !gt(x, s[0]) then [x] + s
    else
      assert s == [s[0]] + s[1..];
      [s[0]] + Insert(x, s[1..], gt)
  }

  /** Insertion sort under the comparator `gt`: a permutation of its input. */
  function SortBy<T>(s: seq<T>, gt: (T, T) -> bool): (r: seq<T>)
    ensures multiset(r) == multiset(s)
    ensures |r| == |s|
  {
    if s == [] then []
    else
      assert s == [s[0]] + s[1..];
      Insert(s[0], SortBy(s[1..], gt), gt)
  }

  lemma {:induction false} InsertSorted<T(!new)>(x: T, s: seq<T>, gt: (T, T) -> bool)
    requires StrictWeakOrder(gt) && SortedBy(s, gt)
    ensures SortedBy(Insert(x, s, gt), gt)
  {
    if s == [] || !gt(x, s[0]) {
      var r := [x] + s;
      forall i, j | 0 <= i < j < |r| ensures !gt(r[i], r[j]) {
        if i == 0 {
          assert r[j] == s[j - 1];
          if j > 1 {
            assert !gt(s[0], s[j - 1]);
          }
        }
      }
    } else {
      var tail := s[1..];
      assert SortedBy(tail, gt);
      InsertSorted(x, tail, gt);
      var rest := Insert(x, tail, gt);
      var r := [s[0]] + rest;
      forall j | 0 <= j < |rest| ensures !gt(s[0], rest[j]) {
        assert rest[j] in multiset(rest);
        if rest[j] != x {
          assert rest[j] in multiset(tail);
          var k :| 0 <= k < |tail| && tail[k] == rest[j];
          assert tail[k] == s[k + 1];
        }
      }
      forall i, j | 0 <= i < j < |r| ensures !gt(r[i], r[j]) {
        if i == 0 {
          assert r[j] == rest[j - 1];
        } else {
          assert r[i] == rest[i - 1] && r[j] == rest[j - 1];
        }
      }
    }
  }

  /** Under a strict weak order the sort delivers its input in order. */
  lemma {:induction false} SortBySorted<T(!new)>(s: seq<T>, gt: (T, T) -> bool)
    requires StrictWeakOrder(gt)
    ensures SortedBy(SortBy(s, gt), gt)
  {
    if s != [] {
      SortBySorted(s[1..], gt);
      InsertSorted(s[0], SortBy(s[1..], gt), gt);
    }
  }

  lemma SortedTail<T>(r: seq<T>, gt: (T, T) -> bool)
    requires r != [] && SortedBy(r, gt)
    ensures SortedBy(r[1..], gt) && multiset(r[1..]) == multiset(r) - multiset{r[0]}
  {
    assert r == [r[0]] + r[1..];
    forall p, q | 0 <= p < q < |r| - 1 ensures !gt(r[1..][p], r[1..][q]) {
      assert r[1..][p] == r[p + 1] && r[1..][q] == r[q + 1];
    }
  }

  /** In a sorted sequence no element is put before the first one. */
  lemma SortedHeadFirst<T(!new)>(r: seq<T>, gt: (T, T) -> bool, x: T)
    requires StrictWeakOrder(gt) && SortedBy(r, gt) && x in multiset(r)
    ensures !gt(r[0], x)
  {
    var i :| 0 <= i < |r| && r[i] == x;
    if i > 0 {
      assert !gt(r[0], r[i]);
    }
  }

  /**
   * Under a strict total order two sorted arrangements of the same elements are equal,
   * so the result does not depend on how the sort breaks ties or on which algorithm it uses.
   */
  lemma {:induction false} SortedPermutationsEqual<T(!new)>(r1: seq<T>, r2: seq<T>, gt: (T, T) -> bool)
    requires StrictTotalOrder(gt)
    requires SortedBy(r1, gt) && SortedBy(r2, gt) && multiset(r1) == multiset(r2)
    ensures r1 == r2
  {
    assert |r2| == |r1| by {
      assert |multiset(r1)| == |r1| && |multiset(r2)| == |r2|;
    }
    if r1 != [] {
      SortedHeadsEqual(r1, r2, gt);
      SortedTail(r1, gt);
      SortedTail(r2, gt);
      SortedPermutationsEqual(r1[1..], r2[1..], gt);
      assert r1 == [r1[0]] + r1[1..] && r2 == [r2[0]] + r2[1..];
    }
  }

  /** Under a strict total order two sorted arrangements of the same elements start alike. */
  lemma SortedHeadsEqual<T(!new)>(r1: seq<T>, r2: seq<T>, gt: (T, T) -> bool)
    requires StrictTotalOrder(gt)
    requires r1 != [] && r2 != []
    requires SortedBy(r1, gt) && SortedBy(r2, gt) && multiset(r1) == multiset(r2)
    ensures r1[0] == r2[0]
  {
    var a, b := r1[0], r2[0];
    assert a in multiset(r2) && b in multiset(r1);
    SortedHeadFirst(r2, gt, a);
    SortedHeadFirst(r1, gt, b);
  }
}
