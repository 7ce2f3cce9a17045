/** Facts about sequences used by the document model and the package selection. */
module Sequences {

  /** No element occurs twice in `s`. */
  ghost predicate Distinct<T>(s: seq<T>) {
    forall x | x in s :: multiset(s)[x] <= 1
  }

  lemma DistinctCons<T>(s: seq<T>)
    requires |s| > 0 && Distinct(s)
    ensures s[0] !in s[1..] && Distinct(s[1..])
  {
    assert s == [s[0]] + s[1..];
    assert multiset(s) == multiset{s[0]} + multiset(s[1..]);
    assert multiset(s)[s[0]] == 1 + multiset(s[1..])[s[0]];
    forall x | x in s[1..]
      ensures multiset(s[1..])[x] <= 1
    {
      assert multiset(s)[x] == (if x == s[0] then 1 else 0) + multiset(s[1..])[x];
    }
  }

  /** `a` is `b` with some elements left out, the rest kept in their order. */
  predicate Subsequence<T(==)>(a: seq<T>, b: seq<T>)
    decreases |b|
  {
    if a == [] then true
    else if b == [] then false
    else if a[0] == b[0] then Subsequence(a[1..], b[1..])
    else Subsequence(a, b[1..])
  }

  lemma {:induction false} SubsequenceMultiset<T>(a: seq<T>, b: seq<T>)
    requires Subsequence(a, b)
    ensures multiset(a) <= multiset(b)
    decreases |b|
  {
    if a != [] {
      assert b == [b[0]] + b[1..];
      if a[0] == b[0] {
        SubsequenceMultiset(a[1..], b[1..]);
        assert a == [a[0]] + a[1..];
      } else {
        SubsequenceMultiset(a, b[1..]);
      }
    }
  }

  lemma {:induction false} SubsequencePrepend<T>(a: seq<T>, b: seq<T>, x: T)
    requires Subsequence(a, b)
    ensures Subsequence(a, [x] + b)
    decreases |b|, 1
  {
    assert ([x] + b)[1..] == b;
    if a != [] && a[0] == x {
      SubsequenceDrop(a, b);
    }
  }

  lemma {:induction false} SubsequenceDrop<T>(a: seq<T>, b: seq<T>)
    requires Subsequence(a, b) && a != []
    ensures Subsequence(a[1..], b)
    decreases |b|, 0
  {
    assert b == [b[0]] + b[1..];
    if a[0] == b[0] {
      SubsequencePrepend(a[1..], b[1..], b[0]);
    } else {
      SubsequenceDrop(a, b[1..]);
      SubsequencePrepend(a[1..], b[1..], b[0]);
    }
  }

  lemma DistinctSubsequence<T>(a: seq<T>, b: seq<T>)
    requires Subsequence(a, b) && Distinct(b)
    ensures Distinct(a)
  {
    SubsequenceMultiset(a, b);
    forall x | x in a
      ensures multiset(a)[x] <= 1
    {
      assert x in multiset(b);
    }
  }

  /** Counting in a sequence with one element in front. */
  lemma CountCons<T>(x: T, s: seq<T>, y: T)
    ensures multiset([x] + s)[y] == (if x == y then 1 else 0) + multiset(s)[y]
  {
    assert multiset([x] + s) == multiset{x} + multiset(s);
  }

  /** Counting in a concatenation. */
  lemma CountAppend<T>(a: seq<T>, b: seq<T>, y: T)
    ensures multiset(a + b)[y] == multiset(a)[y] + multiset(b)[y]
  {
    assert multiset(a + b) == multiset(a) + multiset(b);
  }
}
