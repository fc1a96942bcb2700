/** A stable insertion sort by a total preorder, as used for SQL ORDER BY and `Array.prototype.sort`. */
module Sorting {

  /** `above(a, b)` says that `a` may come before `b`: total and transitive. */
  ghost predicate TotalPreorder<T(!new)>(above: (T, T) -> bool)
  {
    && (forall a, b :: above(a, b) || above(b, a))
    && (forall a, b, c :: above(a, b) && above(b, c) ==> above(a, c))
  }

  ghost predicate SortedBy<T>(s: seq<T>, above: (T, T) -> bool)
  {
    forall i, j :: 0 <= i < j < |s| ==> above(s[i], s[j])
  }

  /** Inserts `x` before the first element it may precede, so that equal elements keep their order. */
  function InsertBy<T(!new)>(x: T, s: seq<T>, above: (T, T) -> bool): (r: seq<T>)
    ensures multiset(r) == multiset(s) + multiset{x}
    ensures |r| == |s| + 1
  {
    if s == [] || above(x, s[0]) then [x] + s
    else
      assert s == [s[0]] + s[1..];
      [s[0]] + InsertBy(x, s[1..], above)
  }

  lemma {:induction false} InsertBySorted<T(!new)>(x: T, s: seq<T>, above: (T, T) -> bool)
    requires TotalPreorder(above)
    requires SortedBy(s, above)
    ensures SortedBy(InsertBy(x, s, above), above)
  {
    if s == [] || above(x, s[0]) {
      var r := [x] + s;
      forall i, j | 0 <= i < j < |r| ensures above(r[i], r[j]) {
        if i == 0 && j > 1 {
          assert above(x, s[0]) && above(s[0], s[j - 1]);
        }
      }
    } else {
      var tail := s[1..];
      assert SortedBy(tail, above);
      InsertBySorted(x, tail, above);
      var rest := InsertBy(x, tail, above);
      assert above(s[0], x);
      forall k | 0 <= k < |rest| ensures above(s[0], rest[k]) {
        assert rest[k] in multiset(rest);
        if rest[k] != x {
          assert rest[k] in multiset(tail);
          assert rest[k] in tail;
        }
      }
      var r := [s[0]] + rest;
      assert r == InsertBy(x, s, above);
      forall i, j | 0 <= i < j < |r| ensures above(r[i], r[j]) {
        if i > 0 {
          assert r[i] == rest[i - 1] && r[j] == rest[j - 1];
        } else {
          assert r[j] == rest[j - 1];
        }
      }
    }
  }

  /** `s` sorted by `above`; elements that compare equal keep their input order. */
  function SortBy<T(!new)>(s: seq<T>, above: (T, T) -> bool): (r: seq<T>)
    requires TotalPreorder(above)
    ensures SortedBy(r, above)
    ensures multiset(r) == multiset(s)
    ensures |r| == |s|
  {
    if s == [] then []
    else
      assert s == [s[0]] + s[1..];
      var sortedTail := SortBy(s[1..], above);
      InsertBySorted(s[0], sortedTail, above);
      InsertBy(s[0], sortedTail, above)
  }

  /** The first `k` elements of a sorted permutation of `s` rank above every element of `s` left out. */
  lemma PrefixRanksAbove<T(!new)>(s: seq<T>, sorted: seq<T>, k: nat, above: (T, T) -> bool)
    requires k <= |sorted| && SortedBy(sorted, above) && multiset(sorted) == multiset(s)
    ensures multiset(sorted[..k]) <= multiset(s)
    ensures forall x, y :: x in sorted[..k] && y in s && y !in sorted[..k] ==> above(x, y)
  {
    var top := sorted[..k];
    assert sorted == top + sorted[k..];
    assert multiset(sorted) == multiset(top) + multiset(sorted[k..]);
    forall x, y | x in top && y in s && y !in top ensures above(x, y) {
      assert y in multiset(sorted);
      var j :| 0 <= j < |sorted| && sorted[j] == y;
      var i :| 0 <= i < k && top[i] == x;
      assert sorted[i] == x;
    }
  }
}
