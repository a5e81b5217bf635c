/** Facts about sequences seen as collections. */
module Seqs {

  ghost predicate Distinct<T>(s: seq<T>) {
    forall i, j :: 0 <= i < j < |s| ==> s[i] != s[j]
  }

  function Elements<T(==)>(s: seq<T>): set<T> {
    set x | x in s
  }

  lemma NoElements<T>(s: seq<T>)
    ensures s == [] <==> Elements(s) == {}
  {
    if s != [] {
      assert s[0] in Elements(s);
    }
  }

  lemma ElementsOfOneMore<T>(s: seq<T>, x: T)
    ensures Elements(s + [x]) == Elements(s) + {x}
  {
    assert forall y :: y in s + [x] <==> y in s || y == x;
  }

  lemma DistinctGrows<T>(s: seq<T>, x: T)
    ensures Distinct(s + [x]) <==> Distinct(s) && x !in s
  {
    var more := s + [x];
    assert more[|s|] == x && forall i :: 0 <= i < |s| ==> more[i] == s[i];
    if x in s {
      var i :| 0 <= i < |s| && s[i] == x;
      assert more[i] == more[|s|];
    }
  }

  // A distinct sequence holds each of its elements once.
  lemma {:induction false} DistinctMultiplicity<T>(s: seq<T>, x: T)
    requires Distinct(s)
    ensures multiset(s)[x] == if x in s then 1 else 0
  {
    if s != [] {
      var front, last := s[..|s| - 1], s[|s| - 1];
      assert s == front + [last];
      DistinctMultiplicity(front, x);
    }
  }

  // The pigeonhole step: a distinct sequence that fits inside an equally long one is a permutation of it.
  lemma Pigeonhole<T>(a: seq<T>, b: seq<T>)
    requires Distinct(a) && |a| == |b|
    requires forall x :: x in a ==> x in b
    ensures multiset(a) == multiset(b)
  {
    forall x ensures multiset(a)[x] <= multiset(b)[x] {
      DistinctMultiplicity(a, x);
      assert x in a ==> x in multiset(b);
    }
    var rest := multiset(b) - multiset(a);
    assert multiset(b) == multiset(a) + rest;
    assert |rest| == 0;
  }

  // A list is a permutation of a set exactly when it holds the members of the set, each once.
  lemma PermutesSet<T>(s: seq<T>, xs: set<T>)
    ensures multiset(s) == multiset(xs) <==> Distinct(s) && Elements(s) == xs
  {
    if Distinct(s) && Elements(s) == xs {
      forall x ensures multiset(s)[x] == multiset(xs)[x] {
        DistinctMultiplicity(s, x);
      }
    }
    if multiset(s) == multiset(xs) {
      forall x ensures x in s <==> x in xs {
        assert x in multiset(s) <==> x in multiset(xs);
      }
      forall i, j | 0 <= i < j < |s| ensures s[i] != s[j] {
        TwiceMeansTwo(s, i, j);
        assert multiset(xs)[s[i]] <= 1;
      }
    }
  }

  lemma TwiceMeansTwo<T>(s: seq<T>, i: nat, j: nat)
    requires i < j < |s|
    ensures s[i] == s[j] ==> multiset(s)[s[i]] >= 2
  {
    assert s == s[..j] + ([s[j]] + s[j + 1..]);
    assert s[i] in s[..j];
  }
}
