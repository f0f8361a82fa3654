/** Why doubling works: bucket heads as sort keys, and what a round of fallbackSort establishes. */
module FallbackOrder {
  import opened Numbers
  import opened Permutations
  import opened Rotations
  import opened InPlace
  import opened FallbackQuicksort

  // ----- order of windows -----

  lemma LexLeqAntisymmetric(s: seq<byte>, t: seq<byte>)
    requires |s| == |t| && LexLeq(s, t) && LexLeq(t, s)
    ensures s == t
  {
    if s != t {
      LexLessTransitive(s, t, s);
      LexIrreflexive(s);
    }
  }

  /** Rows that agree on h bytes are ordered on g + h bytes like their continuations. */
  lemma LongerWindows(b: seq<byte>, p: nat, q: nat, g: nat, h: nat)
    requires b != []
    ensures LexLess(Window(b, p, g), Window(b, q, g)) ==> LexLess(Window(b, p, g + h), Window(b, q, g + h))
    ensures Window(b, p, g) == Window(b, q, g) ==>
      (LexLess(Window(b, p, g + h), Window(b, q, g + h)) <==> LexLess(Window(b, p + g, h), Window(b, q + g, h)))
    ensures Window(b, p, g + h) == Window(b, q, g + h) <==>
      Window(b, p, g) == Window(b, q, g) && Window(b, p + g, h) == Window(b, q + g, h)
  {
    hide LexLess, At;
    WindowSplit(b, p, g, h);
    WindowSplit(b, q, g, h);
    var s, t, u, v := Window(b, p, g), Window(b, p + g, h), Window(b, q, g), Window(b, q + g, h);
    LexAppend(s, t, u, v);
    LexIrreflexive(s);
    if s + t == u + v {
      assert s == (s + t)[..g] && u == (u + v)[..g] && t == (s + t)[g..] && v == (u + v)[g..];
    }
  }

  /** Order on more bytes implies order on fewer. */
  lemma ShorterWindows(b: seq<byte>, p: nat, q: nat, g: nat, h: nat)
    requires b != [] && PrefixLeq(b, p, q, g + h)
    ensures PrefixLeq(b, p, q, g)
  {
    hide LexLess, At;
    LexTotal(Window(b, p, g), Window(b, q, g));
    if LexLess(Window(b, q, g), Window(b, p, g)) {
      LongerWindows(b, q, p, g, h);
      LexLeqAntisymmetric(Window(b, p, g + h), Window(b, q, g + h));
      LexIrreflexive(Window(b, p, g + h));
    }
  }

  lemma WindowWraps(b: seq<byte>, i: nat, h: nat)
    requires b != []
    ensures Window(b, i, h) == Window(b, i % |b|, h)
  {
    hide At;
    var v, w := Window(b, i, h), Window(b, i % |b|, h);
    forall k | 0 <= k < h ensures v[k] == w[k] {
      AtWrap(b, k, i);
    }
  }

  /** Order between neighbours is order throughout. */
  ghost predicate Stepwise(b: seq<byte>, f: seq<int>, h: nat, n: nat)
    requires b != [] && n <= |f| && forall i :: 0 <= i < n ==> 0 <= f[i]
  {
    forall i :: 1 <= i < n ==> PrefixLeq(b, f[i - 1], f[i], h)
  }

  lemma {:induction false} StepwiseOrdered(b: seq<byte>, f: seq<int>, h: nat, n: nat, r: nat, s: nat)
    requires b != [] && n <= |f| && (forall i :: 0 <= i < n ==> 0 <= f[i]) && Stepwise(b, f, h, n)
    requires r <= s < n
    ensures PrefixLeq(b, f[r], f[s], h)
    decreases s
  {
    hide LexLess, At;
    if r < s {
      StepwiseOrdered(b, f, h, n, r, s - 1);
      LexLeqTransitive(Window(b, f[r], h), Window(b, f[s - 1], h), Window(b, f[s], h));
    }
  }

  // ----- bucket heads -----

  /** The two rows do not share their first h bytes. */
  ghost predicate Differ(b: seq<byte>, f: seq<int>, i: nat, h: nat)
    requires b != [] && 1 <= i < |f| && 0 <= f[i - 1] && 0 <= f[i]
  {
    Window(b, f[i - 1], h) != Window(b, f[i], h)
  }

  /** fmap sorts all rows by h bytes, and the bits mark where a new bucket of equal rows begins. */
  ghost predicate Bucketed(b: seq<byte>, f: seq<int>, bits: seq<bool>, h: nat) {
    && SortedByPrefix(b, f, h) && |bits| >= |b| && bits[0]
    && forall i :: 1 <= i < |b| ==> (bits[i] <==> Differ(b, f, i, h))
  }

  /** The last marked position up to i. */
  function Head(bits: seq<bool>, i: nat): (j: nat)
    requires i < |bits|
    ensures j <= i
  {
    if i == 0 || bits[i] then i else Head(bits, i - 1)
  }

  lemma {:induction false} SameBucket(b: seq<byte>, f: seq<int>, bits: seq<bool>, h: nat, i: nat, j: nat)
    requires Bucketed(b, f, bits, h) && i <= j < |b| && Head(bits, j) <= i
    ensures Window(b, f[i], h) == Window(b, f[j], h) && Head(bits, i) == Head(bits, j)
    decreases j
  {
    hide At, LexLess;
    if i < j {
      SameBucket(b, f, bits, h, i, j - 1);
    }
  }

  lemma {:induction false} HeadMarked(bits: seq<bool>, i: nat)
    requires i < |bits| && bits[0]
    ensures bits[Head(bits, i)]
  {
    if i > 0 && !bits[i] {
      HeadMarked(bits, i - 1);
    }
  }

  lemma LaterBucket(b: seq<byte>, f: seq<int>, bits: seq<bool>, h: nat, i: nat, j: nat)
    requires Bucketed(b, f, bits, h) && i < j < |b| && i < Head(bits, j)
    ensures LexLess(Window(b, f[i], h), Window(b, f[j], h))
  {
    hide At, LexLess;
    var m := Head(bits, j);
    HeadMarked(bits, j);
    assert Differ(b, f, m, h);
    assert PrefixLeq(b, f[m - 1], f[m], h) && LexLess(Window(b, f[m - 1], h), Window(b, f[m], h));
    assert i < m - 1 ==> PrefixLeq(b, f[i], f[m - 1], h);
    assert m < j ==> PrefixLeq(b, f[m], f[j], h);
    LexLeqTransitive(Window(b, f[i], h), Window(b, f[m - 1], h), Window(b, f[m], h));
    LexLeqTransitive(Window(b, f[i], h), Window(b, f[m], h), Window(b, f[j], h));
  }

  /** Heads compare like the rows they are heads of. */
  lemma HeadsCompare(b: seq<byte>, f: seq<int>, bits: seq<bool>, h: nat, i: nat, j: nat)
    requires Bucketed(b, f, bits, h) && i < |b| && j < |b|
    ensures Head(bits, i) <= Head(bits, j) <==> PrefixLeq(b, f[i], f[j], h)
  {
    hide At, LexLess, Bucketed;
    RowsExist(b, f, bits, h);
    if i <= j {
      if Head(bits, j) <= i {
        SameBucket(b, f, bits, h, i, j);
      } else {
        LaterBucket(b, f, bits, h, i, j);
      }
    } else {
      if Head(bits, i) <= j {
        SameBucket(b, f, bits, h, j, i);
      } else {
        LaterBucket(b, f, bits, h, j, i);
        if PrefixLeq(b, f[i], f[j], h) {
          LexLeqTransitive(Window(b, f[i], h), Window(b, f[j], h), Window(b, f[i], h));
          LexIrreflexive(Window(b, f[i], h));
        }
      }
    }
  }

  lemma RowsExist(b: seq<byte>, f: seq<int>, bits: seq<bool>, h: nat)
    requires Bucketed(b, f, bits, h)
    ensures b != [] && |f| == |b| <= |bits| && forall i :: 0 <= i < |b| ==> 0 <= f[i] < |b|
  {
  }

  /** eclass orders the positions like the h bytes that begin h places further on. */
  ghost predicate ClassKeys(b: seq<byte>, ec: seq<int>, h: nat) {
    && b != [] && |b| <= |ec|
    && forall p, q :: 0 <= p < |b| && 0 <= q < |b| ==> (ec[p] <= ec[q] <==> PrefixLeq(b, p + h, q + h, h))
  }

  /** Position h places before row i's. */
  function Before(f: int, h: nat, n: nat): int {
    if f - h < 0 then f - h + n else f - h
  }

  lemma BeforeWraps(f: nat, h: nat, n: nat)
    requires f < n && h <= n
    ensures 0 <= Before(f, h, n) < n && (Before(f, h, n) + h) % n == f
  {
    if f - h < 0 {
      DivUnique(Before(f, h, n) + h, n, 1, f);
    } else {
      DivUnique(Before(f, h, n) + h, n, 0, f);
    }
  }

  /** Every position lies h places before some row. */
  lemma RowAfter(b: seq<byte>, f: seq<int>, h: nat, p: nat) returns (i: nat)
    requires b != [] && IsPermutation(f, |b|) && h <= |b| && p < |b|
    ensures i < |b| && Before(f[i], h, |b|) == p && f[i] == (p + h) % |b|
  {
    var n := |b|;
    var x := (p + h) % n;
    PermutationHits(f, n, x);
    i :| 0 <= i < n && f[i] == x;
    if p + h < n {
      DivUnique(p + h, n, 0, p + h);
    } else {
      if p + h - n < n {
        DivUnique(p + h, n, 1, p + h - n);
      }
    }
  }

  lemma HeadsAreKeys(b: seq<byte>, f: seq<int>, bits: seq<bool>, h: nat, ec: seq<int>)
    requires Bucketed(b, f, bits, h) && h <= |b| <= |ec|
    requires forall i :: 0 <= i < |b| ==> 0 <= Before(f[i], h, |b|) < |b| && ec[Before(f[i], h, |b|)] == Head(bits, i)
    ensures ClassKeys(b, ec, h)
  {
    hide LexLess, At, Head;
    forall p, q | 0 <= p < |b| && 0 <= q < |b| ensures ec[p] <= ec[q] <==> PrefixLeq(b, p + h, q + h, h) {
      var i := RowAfter(b, f, h, p);
      var j := RowAfter(b, f, h, q);
      HeadsCompare(b, f, bits, h, i, j);
      WindowWraps(b, p + h, h);
      WindowWraps(b, q + h, h);
    }
  }

  // ----- one round -----

  /** In the middle of a round: positions below d are sorted and marked for 2h bytes, the others for h bytes,
      and d begins a bucket. */
  ghost predicate Refining(b: seq<byte>, f: seq<int>, bits: seq<bool>, h: nat, d: nat) {
    && SortedByPrefix(b, f, h) && |b| <= |bits| && d <= |b| && bits[0]
    && (0 < d < |b| ==> bits[d])
    && (forall i :: 1 <= i < |b| && i < d ==> PrefixLeq(b, f[i - 1], f[i], h + h) && (bits[i] <==> Differ(b, f, i, h + h)))
    && forall i :: 1 <= i < |b| && d <= i ==> (bits[i] <==> Differ(b, f, i, h))
  }

  lemma RoundStarts(b: seq<byte>, f: seq<int>, bits: seq<bool>, h: nat)
    requires Bucketed(b, f, bits, h)
    ensures Refining(b, f, bits, h, 0)
  {
    hide LexLess, At;
  }

  /** Buckets of one row need no sorting. */
  lemma SkipSingles(b: seq<byte>, f: seq<int>, bits: seq<bool>, h: nat, d: nat, l: nat)
    requires Refining(b, f, bits, h, d) && d <= l <= |b| && forall i :: d <= i <= l && i < |b| ==> bits[i]
    ensures Refining(b, f, bits, h, l)
  {
    hide LexLess, At;
    var hh := h + h;
    forall i | 1 <= i < |b| && d <= i < l
      ensures PrefixLeq(b, f[i - 1], f[i], hh) && Differ(b, f, i, hh)
    {
      assert bits[i] && Differ(b, f, i, h) && PrefixLeq(b, f[i - 1], f[i], h);
      LongerWindows(b, f[i - 1], f[i], h, h);
    }
  }

  /** The bits after the scan of the bucket from l to r. */
  ghost predicate Marked(g: seq<int>, ec: seq<int>, bits: seq<bool>, marks: seq<bool>, l: nat, r: nat) {
    && |marks| == |bits| && l <= r < |bits| && r < |g| && InRange(g, ec, l, r + 1)
    && (forall i :: 0 <= i < |bits| && !(l <= i <= r) ==> marks[i] == bits[i])
    && marks[l]
    && forall i :: l < i <= r ==> (marks[i] <==> ec[g[i - 1]] != ec[g[i]])
  }

  /** In one bucket all rows agree on h bytes. */
  lemma {:induction false} BucketAgrees(b: seq<byte>, f: seq<int>, bits: seq<bool>, h: nat, l: nat, i: nat)
    requires Refining(b, f, bits, h, l) && l <= i < |b| && forall k :: l < k <= i ==> !bits[k]
    ensures Window(b, f[i], h) == Window(b, f[l], h)
    decreases i
  {
    hide LexLess, At;
    if l < i {
      BucketAgrees(b, f, bits, h, l, i - 1);
      assert !Differ(b, f, i, h);
    }
  }

  /** Permuting a bucket does not change which h bytes a place in the order has. */
  lemma BucketShuffled(b: seq<byte>, f: seq<int>, g: seq<int>, bits: seq<bool>, h: nat, l: nat, r: nat)
    requires Refining(b, f, bits, h, l) && l <= r < |b| && (forall k :: l < k <= r ==> !bits[k]) && Rearranged(f, g, l, r + 1)
    ensures IsPermutation(g, |b|) && forall i :: 0 <= i < |b| ==> Window(b, g[i], h) == Window(b, f[i], h)
    ensures forall i :: 0 <= i < |b| && !(l <= i <= r) ==> g[i] == f[i]
  {
    hide LexLess, At, Window, Rearranged, Injective;
    ShuffledPermutation(f, g, |b|, l, r + 1);
    hide Refining;
    forall i | 0 <= i < |b| ensures Window(b, g[i], h) == Window(b, f[i], h) && (!(l <= i <= r) ==> g[i] == f[i]) {
      var j := RearrangedAt(f, g, l, r + 1, i);
      if l <= i <= r {
        BucketAgrees(b, f, bits, h, l, i);
        BucketAgrees(b, f, bits, h, l, j);
      }
    }
  }

  lemma ShuffledPermutation(f: seq<int>, g: seq<int>, n: nat, l: nat, r: nat)
    requires IsPermutation(f, n) && l <= r <= n && Rearranged(f, g, l, r)
    ensures IsPermutation(g, n)
  {
    assert f == f[..l] + f[l..r] + f[r..] && g == g[..l] + g[l..r] + g[r..];
    RearrangedPermutation(f, g, n);
  }

  /** Neighbours in a sorted bucket. */
  lemma NeighboursRefined(b: seq<byte>, p: nat, q: nat, h: nat, ec: seq<int>)
    requires ClassKeys(b, ec, h) && p < |b| && q < |b| && Window(b, p, h) == Window(b, q, h) && ec[p] <= ec[q]
    ensures PrefixLeq(b, p, q, h + h)
    ensures ec[p] != ec[q] <==> Window(b, p, h + h) != Window(b, q, h + h)
  {
    hide LexLess, At;
    LongerWindows(b, p, q, h, h);
    assert PrefixLeq(b, p + h, q + h, h);
    assert ec[q] <= ec[p] <==> PrefixLeq(b, q + h, p + h, h);
    if ec[p] == ec[q] {
      LexLeqAntisymmetric(Window(b, p + h, h), Window(b, q + h, h));
    }
  }

  /** Sorting one bucket by class and marking where the class changes moves the round forward past it. */
  lemma BucketDone(b: seq<byte>, f: seq<int>, g: seq<int>, bits: seq<bool>, marks: seq<bool>, h: nat, l: nat, r: nat, ec: seq<int>)
    requires Refining(b, f, bits, h, l) && ClassKeys(b, ec, h) && l <= r < |b|
    requires bits[l] && (forall k :: l < k <= r ==> !bits[k]) && (r + 1 < |b| ==> bits[r + 1])
    requires Rearranged(f, g, l, r + 1) && SortedBy(g, ec, l, r + 1) && Marked(g, ec, bits, marks, l, r)
    ensures Refining(b, g, marks, h, r + 1)
  {
    hide LexLess, At, Rearranged;
    BucketShuffled(b, f, g, bits, h, l, r);
    hide Injective;
    forall i, j | 0 <= i < j < |b| ensures PrefixLeq(b, g[i], g[j], h) {
      assert PrefixLeq(b, f[i], f[j], h);
    }
    forall i | 1 <= i < |b| && i < r + 1
      ensures PrefixLeq(b, g[i - 1], g[i], h + h) && (marks[i] <==> Differ(b, g, i, h + h))
    {
      if i > l {
        BucketAgrees(b, f, bits, h, l, i - 1);
        BucketAgrees(b, f, bits, h, l, i);
        NeighboursRefined(b, g[i - 1], g[i], h, ec);
      } else if i == l {
        assert Differ(b, f, i, h) && PrefixLeq(b, f[i - 1], f[i], h);
        LongerWindows(b, g[i - 1], g[i], h, h);
      }
    }
    forall i | 1 <= i < |b| && r + 1 <= i ensures marks[i] <==> Differ(b, g, i, h) {
      assert bits[i] <==> Differ(b, f, i, h);
    }
  }

  /** All buckets done: everything is sorted and marked for 2h bytes. */
  lemma RoundEnds(b: seq<byte>, f: seq<int>, bits: seq<bool>, h: nat)
    requires Refining(b, f, bits, h, |b|)
    ensures Bucketed(b, f, bits, h + h)
  {
    hide LexLess, At;
    forall r, s | 0 <= r < s < |b| ensures PrefixLeq(b, f[r], f[s], h + h) {
      StepwiseOrdered(b, f, h + h, |b|, r, s);
    }
  }

  /** Enough bytes compared, or no two rows alike: the rotations are sorted. */
  lemma Resolved(b: seq<byte>, f: seq<int>, bits: seq<bool>, h: nat)
    requires Bucketed(b, f, bits, h) && (h > |b| || forall i :: 0 <= i < |b| ==> bits[i])
    ensures SortedRotations(b, f)
  {
    hide LexLess, At;
    var n := |b|;
    forall r, s | 0 <= r < s < n ensures PrefixLeq(b, f[r], f[s], n) {
      assert PrefixLeq(b, f[r], f[s], h);
      if h >= n {
        ShorterWindows(b, f[r], f[s], n, h - n);
      } else {
        assert Head(bits, s) == s;
        LaterBucket(b, f, bits, h, r, s);
        LongerWindows(b, f[r], f[s], h, n - h);
      }
    }
  }
}
