/** Small generic vocabulary shared by the scheduling model: an optional value,
    distinctness of a sequence, the set of its elements and the position of an
    element, with the counting facts that relate them. */
module Prelude {

  datatype Option<+T> = None | Some(value: T)

  /** No element occurs twice. */
  predicate Distinct<T(==)>(xs: seq<T>) {
    forall i, j :: 0 <= i < j < |xs| ==> xs[i] != xs[j]
  }

  /** A prefix of a repetition-free sequence is repetition-free. */
  lemma DistinctPrefix<T>(xs: seq<T>, m: nat)
    requires Distinct(xs) && m <= |xs|
    ensures Distinct(xs[..m])
  {
    forall i, j | 0 <= i < j < m ensures xs[..m][i] != xs[..m][j] {
      assert xs[..m][i] == xs[i] && xs[..m][j] == xs[j];
    }
  }

  /** The set of elements of a sequence (Python's `set(xs)`). */
  function Elements<T>(xs: seq<T>): set<T> {
    set x | x in xs
  }

  /** Position of the first occurrence of `x` in `xs`. */
  function IndexOf<T(==)>(xs: seq<T>, x: T): (i: nat)
    requires x in xs
    ensures i < |xs| && xs[i] == x
    ensures forall j :: 0 <= j < i ==> xs[j] != x
  {
    if xs[0] == x then 0 else 1 + IndexOf(xs[1..], x)
  }

  /** A sequence has as many distinct elements as it has positions exactly when
      no element repeats; this is what `len(set(xs)) == len(xs)` tests. */
  lemma {:induction false} CardinalityOfElements<T>(xs: seq<T>)
    ensures |Elements(xs)| <= |xs|
    ensures |Elements(xs)| == |xs| <==> Distinct(xs)
  {
    if xs != [] {
      var rest := xs[1..];
      CardinalityOfElements(rest);
      assert Elements(xs) == {xs[0]} + Elements(rest);
      if xs[0] in rest {
        assert Elements(xs) == Elements(rest);
        var j :| 0 <= j < |rest| && rest[j] == xs[0];
        assert xs[0] == xs[j + 1];
        assert !Distinct(xs);
      } else {
        assert |Elements(xs)| == |Elements(rest)| + 1;
        if Distinct(rest) {
          forall i, j | 0 <= i < j < |xs|
            ensures xs[i] != xs[j]
          {
            if i > 0 {
              assert xs[i] == rest[i - 1] && xs[j] == rest[j - 1];
            } else {
              assert xs[j] == rest[j - 1];
            }
          }
        } else {
          var i, j :| 0 <= i < j < |rest| && rest[i] == rest[j];
          assert xs[i + 1] == xs[j + 1];
        }
      }
    }
  }

  /** A subset is no larger than its superset. */
  lemma SubsetCardinality<T>(a: set<T>, b: set<T>)
    requires a <= b
    ensures |a| <= |b|
  {
    assert b == a + (b - a);
  }

  /** Pigeonhole: a sequence longer than the set its elements are drawn from
      repeats an element. */
  lemma Pigeonhole<T>(w: seq<T>, s: set<T>)
    requires forall k :: 0 <= k < |w| ==> w[k] in s
    requires |w| > |s|
    ensures exists i, j :: 0 <= i < j < |w| && w[i] == w[j]
  {
    CardinalityOfElements(w);
    SubsetCardinality(Elements(w), s);
  }

  /** In a repetition-free sequence every element is counted once. */
  lemma {:induction false} DistinctCounts<T>(xs: seq<T>)
    requires Distinct(xs)
    ensures forall x :: multiset(xs)[x] == if x in xs then 1 else 0
  {
    if xs != [] {
      var rest := xs[1..];
      assert Distinct(rest) by {
        forall i, j | 0 <= i < j < |rest| ensures rest[i] != rest[j] {
          assert rest[i] == xs[i + 1] && rest[j] == xs[j + 1];
        }
      }
      DistinctCounts(rest);
      assert xs == [xs[0]] + rest;
      assert xs[0] !in rest by {
        forall j | 0 <= j < |rest| ensures rest[j] != xs[0] {
          assert rest[j] == xs[j + 1];
        }
      }
      assert multiset(xs) == multiset{xs[0]} + multiset(rest);
    }
  }

  /** Conversely, a sequence in which no element is counted twice repeats nothing. */
  lemma CountsDistinct<T>(xs: seq<T>)
    requires forall x :: multiset(xs)[x] <= 1
    ensures Distinct(xs)
  {
    forall i, j | 0 <= i < j < |xs|
      ensures xs[i] != xs[j]
    {
      RepeatCountsTwice(xs, i, j);
    }
  }

  lemma RepeatCountsTwice<T>(xs: seq<T>, i: nat, j: nat)
    requires i < j < |xs|
    ensures xs[i] == xs[j] ==> multiset(xs)[xs[i]] >= 2
  {
    assert xs == xs[..j] + xs[j..];
    assert xs[i] in xs[..j];
    assert xs[j] == xs[j..][0];
    assert multiset(xs) == multiset(xs[..j]) + multiset(xs[j..]);
  }

  /** Being repetition-free is a property of the multiset of elements. */
  lemma PermutationKeepsDistinct<T>(a: seq<T>, b: seq<T>)
    requires multiset(a) == multiset(b)
    requires Distinct(a)
    ensures Distinct(b)
  {
    DistinctCounts(a);
    CountsDistinct(b);
  }

  /** Two repetition-free sequences with the same elements are permutations of
      each other. */
  lemma SameElementsPermutation<T>(a: seq<T>, b: seq<T>)
    requires Distinct(a) && Distinct(b)
    requires Elements(a) == Elements(b)
    ensures multiset(a) == multiset(b)
  {
    DistinctCounts(a);
    DistinctCounts(b);
    assert forall x :: x in a <==> x in b by {
      forall x ensures x in a <==> x in b {
        assert x in Elements(a) <==> x in Elements(b);
      }
    }
  }

  /** Two repetition-free sequences with the same elements are permutations
      of each other. */
  lemma SameElementsPermute<T>(a: seq<T>, b: seq<T>)
    requires Distinct(a) && Distinct(b)
    requires forall x :: x in a <==> x in b
    ensures multiset(a) == multiset(b)
  {
    DistinctCounts(a);
    DistinctCounts(b);
    assert forall x :: multiset(a)[x] == multiset(b)[x];
  }
}
