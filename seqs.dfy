/** Sequence utilities used by the rate engine and the learning engine. */
module Seqs {

  /** No element occurs twice. */
  ghost predicate NoDup<T>(s: seq<T>)
  {
    forall i, j :: 0 <= i < j < |s| ==> s[i] != s[j]
  }

  /** The elements of `s` satisfying `keep`, in order (JavaScript `filter`, SQL `WHERE`). */
  function Filter<T(!new)>(s: seq<T>, keep: T -> bool): (r: seq<T>)
    ensures |r| <= |s|
    ensures forall x :: x in r <==> x in s && keep(x)
  {
    if s == [] then [] else
      var init := Filter(s[..|s| - 1], keep);
      if keep(s[|s| - 1]) then init + [s[|s| - 1]] else init
  }

  lemma {:induction false} FilterAppend<T(!new)>(a: seq<T>, b: seq<T>, keep: T -> bool)
    ensures Filter(a + b, keep) == Filter(a, keep) + Filter(b, keep)
    decreases |b|
  {
    if b == [] {
      assert a + b == a;
    } else {
      var b' := b[..|b| - 1];
      assert (a + b)[..|a + b| - 1] == a + b';
      FilterAppend(a, b', keep);
    }
  }

  /** A filter that keeps nothing of `s` returns the empty sequence. */
  lemma FilterNone<T(!new)>(s: seq<T>, keep: T -> bool)
    requires forall x :: x in s ==> !keep(x)
    ensures Filter(s, keep) == []
  {
  }

  /** Number of occurrences of `x` in `s`. */
  function Count<T(==,!new)>(s: seq<T>, x: T): (n: nat)
    ensures n <= |s|
    ensures n == 0 <==> x !in s
  {
    if s == [] then 0 else
      var init := s[..|s| - 1];
      assert s == init + [s[|s| - 1]];
      Count(init, x) + (if s[|s| - 1] == x then 1 else 0)
  }

  /** `x` occurs at every position exactly when its count is the length. */
  lemma {:induction false} CountFull<T(!new)>(s: seq<T>, x: T)
    ensures Count(s, x) == |s| <==> forall y :: y in s ==> y == x
  {
    if s != [] {
      var init, last := s[..|s| - 1], s[|s| - 1];
      assert s == init + [last];
      CountFull(init, x);
      if Count(s, x) == |s| {
        assert last == x;
        assert forall y :: y in s ==> y in init || y == last;
      }
      if forall y :: y in s ==> y == x {
        assert last in s;
        forall y | y in init ensures y == x {
          assert y in s;
        }
      }
    }
  }

  lemma {:induction false} CountAppend<T(!new)>(a: seq<T>, b: seq<T>, x: T)
    ensures Count(a + b, x) == Count(a, x) + Count(b, x)
    decreases |b|
  {
    if b == [] {
      assert a + b == a;
    } else {
      var b' := b[..|b| - 1];
      assert (a + b)[..|a + b| - 1] == a + b';
      CountAppend(a, b', x);
    }
  }

  /** Two distinct values together occur at most |s| times. */
  lemma {:induction false} CountTwo<T(!new)>(s: seq<T>, x: T, y: T)
    requires x != y
    ensures Count(s, x) + Count(s, y) <= |s|
  {
    if s != [] {
      CountTwo(s[..|s| - 1], x, y);
    }
  }

  /** `x` appended unless it is already present: JavaScript `Set.prototype.add`. */
  function AddNew<T(==,!new)>(acc: seq<T>, x: T): (r: seq<T>)
    ensures x in r
    ensures forall y :: y in r <==> y in acc || y == x
  {
    if x in acc then acc else acc + [x]
  }

  /** The distinct elements of `s` in order of first occurrence: `Array.from(new Set(s))`. */
  function Dedup<T(==,!new)>(s: seq<T>): (r: seq<T>)
    ensures NoDup(r)
    ensures forall x :: x in r <==> x in s
  {
    if s == [] then [] else
      var init := s[..|s| - 1];
      assert s == init + [s[|s| - 1]];
      AddNew(Dedup(init), s[|s| - 1])
  }

  lemma DedupSnoc<T(!new)>(s: seq<T>, x: T)
    ensures Dedup(s + [x]) == AddNew(Dedup(s), x)
  {
    assert (s + [x])[..|s + [x]| - 1] == s;
  }

  /** The values in `s` as a set. */
  function Elements<T>(s: seq<T>): set<T>
  {
    set x | x in s
  }

  /** A sequence has at least as many positions as distinct values, and exactly as many when it has no duplicates. */
  lemma {:induction false} ElementsCard<T>(s: seq<T>)
    ensures |Elements(s)| <= |s|
    ensures NoDup(s) ==> |Elements(s)| == |s|
  {
    if s != [] {
      var init, last := s[..|s| - 1], s[|s| - 1];
      assert s == init + [last];
      ElementsCard(init);
      assert Elements(s) == Elements(init) + {last};
      if NoDup(s) {
        assert NoDup(init);
        assert last !in Elements(init);
      }
    }
  }

  /** A subset has no more elements than its superset; an equal-sized subset is the whole set. */
  lemma SubsetCard<T>(a: set<T>, b: set<T>)
    requires a <= b
    ensures |a| <= |b|
    ensures |a| == |b| ==> a == b
  {
    assert b == a + (b - a);
    assert |b| == |a| + |b - a|;
    if |a| == |b| {
      assert |b - a| == 0;
    }
  }

  function Min(a: int, b: int): int
  {
    if a <= b then a else b
  }

  /** At most the first `n` elements: SQL `LIMIT n`. */
  function Take<T>(s: seq<T>, n: nat): (r: seq<T>)
    ensures |r| == Min(n, |s|)
    ensures forall i :: 0 <= i < |r| ==> r[i] == s[i]
  {
    if |s| <= n then s else s[..n]
  }
}
