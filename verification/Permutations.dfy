/** Permutations of 0..n-1 held in sequences, and the pigeonhole facts used about them. */
module Permutations {

  ghost predicate Injective<T(!new)>(p: seq<T>) {
    forall i, j :: 0 <= i < j < |p| ==> p[i] != p[j]
  }

  ghost predicate IsPermutation(p: seq<int>, n: nat) {
    && |p| == n
    && (forall i :: 0 <= i < n ==> 0 <= p[i] < n)
    && Injective(p)
  }

  function Elements<T>(p: seq<T>): set<T> {
    set x | x in p
  }

  lemma {:induction false} InjectiveCardinality<T(!new)>(p: seq<T>)
    requires Injective(p)
    ensures |Elements(p)| == |p|
  {
    if p == [] {
      assert Elements(p) == {};
    } else {
      var front, last := p[..|p| - 1], p[|p| - 1];
      InjectiveCardinality(front);
      assert Elements(p) == Elements(front) + {last};
      assert last !in Elements(front);
    }
  }

  ghost function Range(n: nat): (s: set<int>)
    ensures |s| == n
    ensures forall x :: x in s <==> 0 <= x < n
  {
    if n == 0 then {} else Range(n - 1) + {n - 1}
  }

  lemma SubsetCardinality<T>(a: set<T>, b: set<T>)
    requires a <= b
    ensures |a| <= |b|
    ensures |a| == |b| ==> a == b
  {
    assert b == a + (b - a);
  }

  /** Every value of the range is hit. */
  lemma PermutationHits(p: seq<int>, n: nat, x: int)
    requires IsPermutation(p, n) && 0 <= x < n
    ensures exists i :: 0 <= i < n && p[i] == x
  {
    InjectiveCardinality(p);
    SubsetCardinality(Elements(p), Range(n));
    assert x in Elements(p);
  }

  lemma {:induction false} MultisetAtMostOnce<T(!new)>(p: seq<T>, x: T)
    requires Injective(p)
    ensures multiset(p)[x] <= 1
  {
    if p != [] {
      MultisetAtMostOnce(p[..|p| - 1], x);
      assert p == p[..|p| - 1] + [p[|p| - 1]];
    }
  }

  lemma SliceInjective<T(!new)>(p: seq<T>, lo: nat, hi: nat, lo': nat, hi': nat)
    requires lo <= lo' <= hi' <= hi <= |p| && Injective(p[lo..hi])
    ensures Injective(p[lo'..hi'])
  {
    forall i, j | 0 <= i < j < hi' - lo' ensures p[lo'..hi'][i] != p[lo'..hi'][j] {
      assert p[lo..hi][lo' - lo + i] == p[lo'..hi'][i] && p[lo..hi][lo' - lo + j] == p[lo'..hi'][j];
    }
  }

  lemma RearrangedInjective<T(!new)>(p: seq<T>, q: seq<T>)
    requires Injective(p) && multiset(q) == multiset(p)
    ensures Injective(q)
  {
    forall i, j | 0 <= i < j < |q| ensures q[i] != q[j] {
      if q[i] == q[j] {
        assert q == q[..j] + q[j..];
        assert q[i] in multiset(q[..j]) && q[i] in multiset(q[j..]);
        MultisetAtMostOnce(p, q[i]);
      }
    }
  }

  /** Rearranging a permutation gives a permutation. */
  lemma RearrangedPermutation(p: seq<int>, q: seq<int>, n: nat)
    requires IsPermutation(p, n) && multiset(q) == multiset(p)
    ensures IsPermutation(q, n)
  {
    assert |q| == |multiset(q)| == |multiset(p)| == n;
    forall i | 0 <= i < n
      ensures 0 <= q[i] < n
    {
      assert q[i] in multiset(p);
    }
    RearrangedInjective(p, q);
  }
}
