// Removing an element from a sequence, and sequences without repetition.

module Sequences {

  predicate NoDuplicates<T(==)>(q: seq<T>) {
    forall i, j :: 0 <= i < j < |q| ==> q[i] != q[j]
  }

  lemma ConcatAssociates<T>(a: seq<T>, b: seq<T>, c: seq<T>)
    ensures a + b + c == a + (b + c)
  {
  }

  // The sequence with every occurrence of an element removed.
  function Without<T(==)>(q: seq<T>, x: T): seq<T> {
    if q == [] then []
    else if q[0] == x then Without(q[1..], x)
    else [q[0]] + Without(q[1..], x)
  }

  lemma {:induction false} WithoutMembers<T>(q: seq<T>, x: T)
    ensures forall y :: y in Without(q, x) <==> y in q && y != x
  {
    if q != [] {
      WithoutMembers(q[1..], x);
      assert q == [q[0]] + q[1..];
    }
  }

  lemma {:induction false} WithoutKeepsDistinct<T>(q: seq<T>, x: T)
    requires NoDuplicates(q)
    ensures NoDuplicates(Without(q, x))
  {
    if q != [] {
      assert q[0] !in q[1..];
      WithoutKeepsDistinct(q[1..], x);
      WithoutMembers(q[1..], x);
    }
  }

  lemma {:induction false} WithoutAbsent<T>(q: seq<T>, x: T)
    requires x !in q
    ensures Without(q, x) == q
  {
    if q != [] {
      WithoutAbsent(q[1..], x);
    }
  }

  lemma {:induction false} WithoutConcat<T>(a: seq<T>, b: seq<T>, x: T)
    ensures Without(a + b, x) == Without(a, x) + Without(b, x)
  {
    if a == [] {
      assert a + b == b;
    } else {
      WithoutConcat(a[1..], b, x);
      assert (a + b)[1..] == a[1..] + b;
    }
  }

  // In a sequence without repetition, removing an element is cutting out its one position.
  lemma {:induction false} WithoutAt<T>(q: seq<T>, i: nat)
    requires NoDuplicates(q) && i < |q|
    ensures Without(q, q[i]) == q[..i] + q[i + 1..]
  {
    if i == 0 {
      WithoutAbsent(q[1..], q[0]);
    } else {
      WithoutAt(q[1..], i - 1);
      assert q[..i] == [q[0]] + q[1..][..i - 1];
      assert q[1..][i..] == q[i + 1..];
    }
  }
}
