/** Facts about sequences that the game logic keeps relying on: pairwise
    distinctness, the set of elements, and occurrence counts. JavaScript's
    `new Set(xs).size === xs.length` idiom is related here to pairwise
    distinctness. */
module Seqs {

  /** No element occurs twice. */
  predicate Distinct<T(==)>(s: seq<T>) {
    forall i, j :: 0 <= i < j < |s| ==> s[i] != s[j]
  }

  /** The elements of `s`, as `new Set(s)` builds them. */
  function SetOf<T(==)>(s: seq<T>): set<T> {
    set x | x in s
  }

  /** Number of occurrences of `x` in `s`. */
  function Count<T(==)>(s: seq<T>, x: T): nat {
    if |s| == 0 then 0
    else Count(s[..|s| - 1], x) + (if s[|s| - 1] == x then 1 else 0)
  }

  /** Strictly increasing, hence also free of repetitions. */
  predicate StrictlyAscending(s: seq<int>) {
    forall i, j :: 0 <= i < j < |s| ==> s[i] < s[j]
  }

  lemma SetOfSnoc<T>(s: seq<T>, x: T)
    ensures SetOf(s + [x]) == SetOf(s) + {x}
  {
    assert forall y :: y in s + [x] <==> y in s || y == x;
  }

  lemma {:induction false} CountAppend<T>(s: seq<T>, t: seq<T>, x: T)
    ensures Count(s + t, x) == Count(s, x) + Count(t, x)
    decreases |t|
  {
    if |t| == 0 {
      assert s + t == s;
    } else {
      assert (s + t)[..|s + t| - 1] == s + t[..|t| - 1];
      CountAppend(s, t[..|t| - 1], x);
    }
  }

  /** The recursive count agrees with the multiset multiplicity. */
  lemma {:induction false} CountIsMultiplicity<T>(s: seq<T>, x: T)
    ensures Count(s, x) == multiset(s)[x]
  {
    if |s| > 0 {
      var t := s[..|s| - 1];
      assert s == t + [s[|s| - 1]];
      CountIsMultiplicity(t, x);
    }
  }

  /** A sequence has at most as many distinct elements as positions. */
  lemma {:induction false} SetOfCardinality<T>(s: seq<T>)
    ensures |SetOf(s)| <= |s|
  {
    if |s| > 0 {
      var t := s[..|s| - 1];
      assert s == t + [s[|s| - 1]];
      SetOfSnoc(t, s[|s| - 1]);
      SetOfCardinality(t);
    }
  }

  /** `new Set(s).size === s.length` holds exactly when `s` has no repetition. */
  lemma {:induction false} DistinctIffCardinality<T>(s: seq<T>)
    ensures Distinct(s) <==> |SetOf(s)| == |s|
  {
    if |s| > 0 {
      var t := s[..|s| - 1];
      var x := s[|s| - 1];
      assert s == t + [x];
      SetOfSnoc(t, x);
      DistinctIffCardinality(t);
      if x in t {
        var k :| 0 <= k < |t| && t[k] == x;
        assert s[k] == s[|s| - 1];
        assert SetOf(s) == SetOf(t);
        SetOfCardinality(t);
      } else {
        assert x !in SetOf(t);
        assert Distinct(s) <==> Distinct(t);
      }
    }
  }

  /** Distinctness depends only on the multiset of elements. */
  lemma {:induction false} DistinctIffMultiplicity<T>(s: seq<T>)
    ensures Distinct(s) <==> forall x :: multiset(s)[x] <= 1
  {
    if |s| > 0 {
      var t := s[..|s| - 1];
      var x := s[|s| - 1];
      assert s == t + [x];
      assert multiset(s) == multiset(t) + multiset{x};
      DistinctIffMultiplicity(t);
      if x in t {
        assert multiset(s)[x] >= 2;
        var k :| 0 <= k < |t| && t[k] == x;
        assert s[k] == s[|s| - 1];
      } else {
        assert multiset(t)[x] == 0;
        assert forall y :: multiset(s)[y] == multiset(t)[y] + (if y == x then 1 else 0);
        assert Distinct(s) <==> Distinct(t);
      }
    }
  }

  /** A rearrangement of a repetition-free sequence is repetition-free and has
      the same elements. */
  lemma PermutationKeepsDistinct<T>(s: seq<T>, t: seq<T>)
    requires multiset(s) == multiset(t)
    requires Distinct(s)
    ensures Distinct(t)
    ensures SetOf(t) == SetOf(s)
  {
    DistinctIffMultiplicity(s);
    DistinctIffMultiplicity(t);
    assert forall x :: x in t <==> x in multiset(t);
    assert forall x :: x in s <==> x in multiset(s);
  }

  /** A prefix of a repetition-free sequence is repetition-free. */
  lemma PrefixDistinct<T>(s: seq<T>, n: nat)
    requires Distinct(s) && n <= |s|
    ensures Distinct(s[..n])
  {
  }

  /** Subset cardinality is monotone. */
  lemma {:induction false} SubsetCardinality<T>(a: set<T>, b: set<T>)
    requires a <= b
    ensures |a| <= |b|
    decreases |a|
  {
    if a != {} {
      var x :| x in a;
      SubsetCardinality(a - {x}, b - {x});
    }
  }

  /** A subset as large as its superset is the whole superset. */
  lemma SubsetEqualCardinality<T>(a: set<T>, b: set<T>)
    requires a <= b && |a| == |b|
    ensures a == b
  {
    if x :| x in b && x !in a {
      SubsetCardinality(a, b - {x});
    }
  }

  /** `[...new Set(s)]`: each element once, at its first occurrence. */
  function Dedup<T(==)>(s: seq<T>): (d: seq<T>)
    ensures Distinct(d)
    ensures SetOf(d) == SetOf(s)
    ensures |d| <= |s|
  {
    if |s| == 0 then []
    else
      var front := s[..|s| - 1];
      var last := s[|s| - 1];
      SetOfSnoc(front, last);
      assert s == front + [last];
      Dedup(front) + (if last in front then [] else [last])
  }

  /** A sequence without repetitions is its own deduplication. */
  lemma {:induction false} DedupOfDistinct<T>(s: seq<T>)
    requires Distinct(s)
    ensures Dedup(s) == s
  {
    if |s| > 0 {
      var front := s[..|s| - 1];
      PrefixDistinct(s, |s| - 1);
      DedupOfDistinct(front);
      assert s[|s| - 1] !in front;
      assert s == front + [s[|s| - 1]];
    }
  }

  /** `s.filter(x => !excluded.has(x))`. */
  function Without<T(==)>(s: seq<T>, excluded: set<T>): (r: seq<T>)
    ensures SetOf(r) == SetOf(s) - excluded
    ensures Distinct(s) ==> Distinct(r)
    ensures |r| <= |s|
  {
    if |s| == 0 then []
    else
      var front := s[..|s| - 1];
      var last := s[|s| - 1];
      assert s == front + [last];
      SetOfSnoc(front, last);
      var r := Without(front, excluded);
      SetOfSnoc(r, last);
      assert Distinct(s) ==> Distinct(front) && last !in SetOf(front);
      if last in excluded then r else r + [last]
  }

  /** Leaving one value out of the elements leaves at most as many as the
      positions that hold other values. */
  lemma {:induction false} SetWithoutCardinality<T>(s: seq<T>, x: T)
    ensures |SetOf(s) - {x}| <= |s| - Count(s, x)
  {
    if |s| > 0 {
      var front := s[..|s| - 1];
      var last := s[|s| - 1];
      assert s == front + [last];
      SetOfSnoc(front, last);
      SetWithoutCardinality(front, x);
      if last == x {
        assert SetOf(s) - {x} == SetOf(front) - {x};
      } else {
        assert SetOf(s) - {x} == (SetOf(front) - {x}) + {last};
      }
    }
  }

  /** A set larger than another has an element outside it. */
  lemma LargerSetHasOutsider<T>(a: set<T>, b: set<T>) returns (x: T)
    requires |a| > |b|
    ensures x in a && x !in b
  {
    SubsetCardinality(a * b, b);
    assert a == (a * b) + (a - b);
    assert |a - b| > 0;
    x :| x in a - b;
  }
}
