/**
 A stable sort by a real-valued key, the behaviour of Python's `list.sort`
 and `sorted` (Timsort is stable). Sorting with `reverse=True` keeps equal
 elements in their original order too, so it is this sort on the negated key.
 */
module StableSort {

  /** Every element's key is no larger than the key of any element after it. */
  ghost predicate Sorted<T>(s: seq<T>, key: T -> real) {
    forall i, j :: 0 <= i < j < |s| ==> key(s[i]) <= key(s[j])
  }

  /** Elements with equal keys appear in strictly increasing `rank`. */
  ghost predicate TiesFollowRank<T>(s: seq<T>, key: T -> real, rank: T -> int) {
    forall i, j :: 0 <= i < j < |s| && key(s[i]) == key(s[j]) ==> rank(s[i]) < rank(s[j])
  }

  /** `rank` strictly increases along `s`. */
  ghost predicate RankIncreasing<T>(s: seq<T>, rank: T -> int) {
    forall i, j :: 0 <= i < j < |s| ==> rank(s[i]) < rank(s[j])
  }

  /** Puts `x` in front of the first element whose key is at least `x`'s. */
  function Insert<T>(x: T, s: seq<T>, key: T -> real): (r: seq<T>)
    ensures multiset(r) == multiset(s) + multiset{x}
  {
    if |s| == 0 || key(x) <= key(s[0]) then [x] + s
    else
      assert s == [s[0]] + s[1..];
      [s[0]] + Insert(x, s[1..], key)
  }

  /** Every element of `Insert(x, s, key)` is `x` or an element of `s`. */
  lemma InsertMembers<T>(x: T, s: seq<T>, key: T -> real)
    ensures forall y :: y in Insert(x, s, key) ==> y == x || y in s
  {
    var r := Insert(x, s, key);
    forall y | y in r ensures y == x || y in s {
      assert y in multiset(r);
    }
  }

  /** Inserting into a sorted sequence keeps it sorted. */
  lemma {:induction false} InsertSorted<T>(x: T, s: seq<T>, key: T -> real)
    requires Sorted(s, key)
    ensures Sorted(Insert(x, s, key), key)
  {
    if |s| == 0 || key(x) <= key(s[0]) {
      var r := [x] + s;
      assert Insert(x, s, key) == r;
      forall i, j | 0 <= i < j < |r| ensures key(r[i]) <= key(r[j]) {
        if i > 0 {
          assert r[i] == s[i - 1] && r[j] == s[j - 1];
        } else {
          assert r[j] == s[j - 1];
        }
      }
    } else {
      var tail := s[1..];
      assert Sorted(tail, key) by {
        forall i, j | 0 <= i < j < |tail| ensures key(tail[i]) <= key(tail[j]) {
          assert tail[i] == s[i + 1] && tail[j] == s[j + 1];
        }
      }
      InsertSorted(x, tail, key);
      var rest := Insert(x, tail, key);
      InsertMembers(x, tail, key);
      var r := [s[0]] + rest;
      assert Insert(x, s, key) == r;
      forall i, j | 0 <= i < j < |r| ensures key(r[i]) <= key(r[j]) {
        if i == 0 {
          assert r[j] in rest;
          if r[j] != x {
            var k :| 0 <= k < |tail| && tail[k] == r[j];
            assert s[k + 1] == r[j];
          }
        } else {
          assert r[i] == rest[i - 1] && r[j] == rest[j - 1];
        }
      }
    }
  }

  /** Insertion sort: each element goes before every later element of equal key. */
  function SortBy<T>(s: seq<T>, key: T -> real): (r: seq<T>)
    ensures multiset(r) == multiset(s)
    ensures Sorted(r, key)
  {
    if |s| == 0 then []
    else
      assert s == [s[0]] + s[1..];
      var sortedTail := SortBy(s[1..], key);
      InsertSorted(s[0], sortedTail, key);
      Insert(s[0], sortedTail, key)
  }

  /** Sorting keeps the length and exactly the elements of the input. */
  lemma SortByMembers<T>(s: seq<T>, key: T -> real)
    ensures |SortBy(s, key)| == |s|
    ensures forall x :: x in SortBy(s, key) <==> x in s
  {
    var r := SortBy(s, key);
    assert |r| == |multiset(r)| == |multiset(s)| == |s|;
    forall x ensures x in r <==> x in s {
      assert x in r <==> x in multiset(r);
      assert x in s <==> x in multiset(s);
    }
  }

  /** Prepending an element that precedes, in rank, every later element of its key keeps ties in rank order. */
  lemma ConsKeepsTies<T>(h: T, rest: seq<T>, key: T -> real, rank: T -> int)
    requires TiesFollowRank(rest, key, rank)
    requires forall y :: y in rest && key(y) == key(h) ==> rank(h) < rank(y)
    ensures TiesFollowRank([h] + rest, key, rank)
  {
    var r := [h] + rest;
    forall i, j | 0 <= i < j < |r| && key(r[i]) == key(r[j]) ensures rank(r[i]) < rank(r[j]) {
      assert r[j] == rest[j - 1];
      if i > 0 {
        assert r[i] == rest[i - 1];
      }
    }
  }

  lemma {:induction false} InsertKeepsTies<T>(x: T, s: seq<T>, key: T -> real, rank: T -> int)
    requires TiesFollowRank(s, key, rank)
    requires forall y :: y in s ==> rank(x) < rank(y)
    ensures TiesFollowRank(Insert(x, s, key), key, rank)
  {
    if |s| == 0 || key(x) <= key(s[0]) {
      ConsKeepsTies(x, s, key, rank);
    } else {
      var tail := s[1..];
      assert TiesFollowRank(tail, key, rank) by {
        forall i, j | 0 <= i < j < |tail| && key(tail[i]) == key(tail[j]) ensures rank(tail[i]) < rank(tail[j]) {
          assert tail[i] == s[i + 1] && tail[j] == s[j + 1];
        }
      }
      assert forall y :: y in tail ==> y in s;
      InsertKeepsTies(x, tail, key, rank);
      var rest := Insert(x, tail, key);
      InsertMembers(x, tail, key);
      forall y | y in rest && key(y) == key(s[0]) ensures rank(s[0]) < rank(y) {
        if y != x {
          var k :| 0 <= k < |tail| && tail[k] == y;
          assert s[k + 1] == y;
        }
      }
      ConsKeepsTies(s[0], rest, key, rank);
      assert Insert(x, s, key) == [s[0]] + rest;
    }
  }

  /**
   Stability: when the input is in increasing `rank`, elements of equal key
   keep that order in the output.
   */
  lemma {:induction false} SortByIsStable<T>(s: seq<T>, key: T -> real, rank: T -> int)
    requires RankIncreasing(s, rank)
    ensures TiesFollowRank(SortBy(s, key), key, rank)
  {
    if |s| > 0 {
      var tail := s[1..];
      assert RankIncreasing(tail, rank) by {
        forall i, j | 0 <= i < j < |tail| ensures rank(tail[i]) < rank(tail[j]) {
          assert tail[i] == s[i + 1] && tail[j] == s[j + 1];
        }
      }
      SortByIsStable(tail, key, rank);
      forall y | y in SortBy(tail, key) ensures rank(s[0]) < rank(y) {
        assert y in multiset(SortBy(tail, key));
        assert y in tail;
        var k :| 0 <= k < |tail| && tail[k] == y;
        assert s[k + 1] == y;
      }
      InsertKeepsTies(s[0], SortBy(tail, key), key, rank);
    }
  }
}
