/** The cyclic rotations of a block, their lexicographic order, and the order a block sort must produce. */
module Rotations {
  import opened Numbers
  import opened Permutations

  /** Strict lexicographic order; only strings of equal length are compared. */
  ghost predicate LexLess(s: seq<byte>, t: seq<byte>)
    requires |s| == |t|
  {
    s != [] && (s[0] < t[0] || (s[0] == t[0] && LexLess(s[1..], t[1..])))
  }

  ghost predicate LexLeq(s: seq<byte>, t: seq<byte>)
    requires |s| == |t|
  {
    s == t || LexLess(s, t)
  }

  /** The byte at cyclic position i. */
  function At(b: seq<byte>, i: nat): byte
    requires b != []
  {
    b[i % |b|]
  }

  /** The h bytes of the block that start at cyclic position i. */
  function Window(b: seq<byte>, i: nat, h: nat): (w: seq<byte>)
    requires b != []
    ensures |w| == h
    ensures forall k :: 0 <= k < h ==> w[k] == At(b, i + k)
  {
    seq<byte>(h, k requires 0 <= k < h => At(b, i + k))
  }

  /** Rows i and j ordered by their first h bytes. */
  ghost predicate PrefixLeq(b: seq<byte>, i: nat, j: nat, h: nat)
    requires b != []
  {
    LexLeq(Window(b, i, h), Window(b, j, h))
  }

  /** ptr lists all rotations of b, in weak order of their first h bytes. */
  ghost predicate SortedByPrefix(b: seq<byte>, ptr: seq<int>, h: nat)
  {
    && b != []
    && IsPermutation(ptr, |b|)
    && forall r, s :: 0 <= r < s < |b| ==> PrefixLeq(b, ptr[r], ptr[s], h)
  }

  /** What a block sort has to establish: all rotations, in weak lexicographic order. */
  ghost predicate SortedRotations(b: seq<byte>, ptr: seq<int>)
  {
    SortedByPrefix(b, ptr, |b|)
  }

  lemma {:induction false} LexLessTransitive(s: seq<byte>, t: seq<byte>, u: seq<byte>)
    requires |s| == |t| == |u|
    requires LexLess(s, t) && LexLess(t, u)
    ensures LexLess(s, u)
  {
    if s[0] == t[0] && t[0] == u[0] {
      LexLessTransitive(s[1..], t[1..], u[1..]);
    }
  }

  lemma LexLeqTransitive(s: seq<byte>, t: seq<byte>, u: seq<byte>)
    requires |s| == |t| == |u|
    requires LexLeq(s, t) && LexLeq(t, u)
    ensures LexLeq(s, u)
    ensures LexLess(s, t) || LexLess(t, u) ==> LexLess(s, u)
  {
    if LexLess(s, t) && LexLess(t, u) {
      LexLessTransitive(s, t, u);
    }
  }

  lemma {:induction false} LexIrreflexive(s: seq<byte>)
    ensures !LexLess(s, s)
  {
    if s != [] {
      LexIrreflexive(s[1..]);
    }
  }

  lemma {:induction false} LexTotal(s: seq<byte>, t: seq<byte>)
    requires |s| == |t|
    ensures LexLess(s, t) || s == t || LexLess(t, s)
  {
    if s != [] {
      LexTotal(s[1..], t[1..]);
      if s[0] == t[0] && s[1..] == t[1..] {
        assert s == [s[0]] + s[1..] && t == [t[0]] + t[1..];
      }
    }
  }

  /** Comparing two concatenations is comparing the fronts, then the backs. */
  lemma {:induction false} LexAppend(a: seq<byte>, b: seq<byte>, c: seq<byte>, d: seq<byte>)
    requires |a| == |c| && |b| == |d|
    ensures LexLess(a + b, c + d) <==> LexLess(a, c) || (a == c && LexLess(b, d))
  {
    if a == [] {
      assert a + b == b && c + d == d;
    } else {
      assert (a + b)[1..] == a[1..] + b && (c + d)[1..] == c[1..] + d;
      LexAppend(a[1..], b, c[1..], d);
      if a[0] == c[0] {
        assert a == [a[0]] + a[1..] && c == [c[0]] + c[1..];
        assert a == c <==> a[1..] == c[1..];
      }
    }
  }

  lemma WindowSplit(b: seq<byte>, i: nat, g: nat, h: nat)
    requires b != []
    ensures Window(b, i, g + h) == Window(b, i, g) + Window(b, i + g, h)
  {
  }

  /** Whole turns do not change the position. */
  lemma AtWrap(b: seq<byte>, i: nat, m: nat)
    requires b != []
    ensures At(b, i + m) == At(b, i + m % |b|) == At(b, i % |b| + m)
  {
    ModAdd(i, m, |b|);
    ModAdd(m, i, |b|);
  }

  lemma ModAdd(i: nat, m: nat, n: nat)
    requires n > 0
    ensures (i + m) % n == (i + m % n) % n
  {
    var q, k := m / n, m % n;
    var d, r := (i + k) / n, (i + k) % n;
    var dn, qn := d * n, q * n;
    assert (d + q) * n == dn + qn;
    DivUnique(i + m, n, d + q, r);
  }

  /** Rotations that agree over one whole turn agree everywhere. */
  lemma EqualRotationsEverywhere(b: seq<byte>, i: nat, j: nat, m: nat)
    requires b != [] && Window(b, i, |b|) == Window(b, j, |b|)
    ensures At(b, i + m) == At(b, j + m)
  {
    AtWrap(b, i, m);
    AtWrap(b, j, m);
    var k := m % |b|;
    assert Window(b, i, |b|)[k] == Window(b, j, |b|)[k];
  }

  /** Two orders that sort the same rows agree, row by row, however ties are broken. */
  lemma SortedOrdersAgree(b: seq<byte>, p: seq<int>, q: seq<int>, h: nat, r: nat)
    requires SortedByPrefix(b, p, h) && SortedByPrefix(b, q, h) && r < |b|
    ensures Window(b, p[r], h) == Window(b, q[r], h)
  {
    LexTotal(Window(b, p[r], h), Window(b, q[r], h));
    if LexLess(Window(b, p[r], h), Window(b, q[r], h)) {
      SortedOrdersOneWay(b, p, q, h, r);
    } else if LexLess(Window(b, q[r], h), Window(b, p[r], h)) {
      SortedOrdersOneWay(b, q, p, h, r);
    }
  }

  lemma SortedOrdersOneWay(b: seq<byte>, p: seq<int>, q: seq<int>, h: nat, r: nat)
    requires SortedByPrefix(b, p, h) && SortedByPrefix(b, q, h) && r < |b|
    ensures !LexLess(Window(b, p[r], h), Window(b, q[r], h))
  {
    if LexLess(Window(b, p[r], h), Window(b, q[r], h)) {
      var n := |b|;
      // the r + 1 rows p[0..r] all lie strictly below row q[r], so they are among q[0..r-1]
      forall x | x in Elements(p[..r + 1])
        ensures x in Elements(q[..r])
      {
        var i :| 0 <= i < r + 1 && p[i] == x;
        assert i < r ==> PrefixLeq(b, p[i], p[r], h);
        LexLeqTransitive(Window(b, x, h), Window(b, p[r], h), Window(b, q[r], h));
        PermutationHits(q, n, x);
        var s :| 0 <= s < n && q[s] == x;
        if s >= r {
          assert s > r ==> PrefixLeq(b, q[r], q[s], h);
          LexLeqTransitive(Window(b, x, h), Window(b, q[r], h), Window(b, x, h));
          LexIrreflexive(Window(b, x, h));
          assert false;
        }
        assert q[..r][s] == x;
      }
      assert Injective(p[..r + 1]) && Injective(q[..r]);
      InjectiveCardinality(p[..r + 1]);
      InjectiveCardinality(q[..r]);
      SubsetCardinality(Elements(p[..r + 1]), Elements(q[..r]));
      assert false;
    }
  }
}
