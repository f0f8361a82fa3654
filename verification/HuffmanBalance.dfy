/** Why scaling the counts always helps: with all counts 1 or 2 the merge loop works in rounds that halve the number
    of trees, so the tree is as shallow as a tree with so many leaves can be. */
module HuffmanBalance {
  import opened Numbers
  import opened Permutations
  import opened CanonicalCodes
  import opened HuffmanForest

  ghost function Roots(p: seq<int>): set<int> {
    set x: int | 0 <= x < |p| && IsRoot(p, x)
  }

  /** The trees have at most h levels. */
  ghost predicate Low(s: set<int>, w: seq<int>, h: nat) {
    forall r :: r in s ==> 0 <= r < |w| && w[r] >= 0 && Depth(w[r]) <= h
  }

  ghost predicate Lighter(s: set<int>, t: set<int>, w: seq<int>, h: nat)
    requires Low(s, w, h) && Low(t, w, h)
  {
    forall x, y :: x in s && y in t ==> Weight(w[x]) <= Weight(w[y])
  }

  /** No tree is heavier than any two others together. */
  ghost predicate NoGiant(s: set<int>, w: seq<int>, h: nat)
    requires Low(s, w, h)
  {
    forall x, y, z :: x in s && y in s && z in s && x != y ==> Weight(w[z]) <= Weight(w[x]) + Weight(w[y])
  }

  /** In the middle of round h: the trees in early are still to be merged in this round and have at most h levels; the
      others have one more at most, and are no lighter. */
  ghost predicate Balanced(roots: set<int>, w: seq<int>, k: nat, h: nat, early: set<int>) {
    && h <= k && early <= roots
    && Low(roots, w, h + 1) && Low(early, w, h) && Lighter(early, roots - early, w, h + 1) && NoGiant(roots, w, h + 1)
    && |early| + 2 * |roots - early| <= Pow2(k - h)
  }

  /** Single leaves, all weighing 1 or 2. */
  lemma RoundsStart(p: seq<int>, n: nat, w: seq<int>, leaves: seq<nat>, k: nat)
    requires |p| == n + 1 <= |w| && |leaves| == n && n <= Pow2(k)
    requires forall i :: 1 <= i <= n ==> p[i] == -1 && w[i] == leaves[i - 1] * 0x100 && 1 <= leaves[i - 1] <= 2
    ensures Balanced(Roots(p), w, k, 0, Roots(p))
  {
    var roots := Roots(p);
    assert roots == Range(n + 1) - {0};
    assert roots - roots == {};
    forall r | r in roots ensures w[r] >= 0 && Depth(w[r]) == 0 && 1 <= Weight(w[r]) <= 2 {
    }
  }

  /** A round with fewer than two early trees left is over; all trees are early in the next one. */
  lemma NextRound(roots: set<int>, w: seq<int>, k: nat, h: nat, early: set<int>)
    requires Balanced(roots, w, k, h, early) && |early| <= 1 && |roots| >= 2
    ensures Balanced(roots, w, k, h + 1, roots)
  {
    hide Weight, Depth;
    assert |roots - early| == |roots| - |early|;
    assert roots - roots == {};
    assert k > h;
    assert Pow2(k - h) == 2 * Pow2(k - (h + 1));
  }

  /** A tree that is as light as an early one, and not deeper, can take its place. */
  lemma Exchange(roots: set<int>, w: seq<int>, k: nat, h: nat, early: set<int>, a: int, r: int)
    requires Balanced(roots, w, k, h, early) && a in roots - early && r in early && w[a] <= w[r]
    ensures Balanced(roots, w, k, h, early - {r} + {a})
  {
    Tied(w[a], w[r]);
    hide Weight, Depth, Pow2, NoGiant;
    var now := early - {r} + {a};
    assert roots - now == roots - early - {a} + {r};
    assert |now| == |early| && |roots - now| == |roots - early|;
  }

  lemma Tied(x: nat, y: nat)
    requires x <= y && Weight(y) <= Weight(x)
    ensures Weight(x) == Weight(y) && Depth(x) <= Depth(y)
  {
  }

  lemma Another(s: set<int>, x: int) returns (y: int)
    requires |s| >= 2
    ensures y in s && y != x
  {
    if forall z :: z in s ==> z == x {
      assert s <= {x};
      SubsetSize(s, x);
    }
    y :| y in s && y != x;
  }

  lemma SubsetSize(s: set<int>, x: int)
    requires s <= {x}
    ensures |s| <= 1
  {
    assert s == {} || s == {x};
  }

  ghost predicate TwoLightest(roots: set<int>, w: seq<int>, a: int, b: int) {
    && a in roots && b in roots && a != b && 0 <= a < |w| && 0 <= b < |w| && 0 <= w[a] <= w[b]
    && forall r :: r in roots && r != a ==> 0 <= r < |w| && w[b] <= w[r]
  }

  /** The two lightest trees may be taken to be early ones. */
  lemma BothEarly(roots: set<int>, w: seq<int>, k: nat, h: nat, early: set<int>, a: int, b: int) returns (g: nat, now: set<int>)
    requires Balanced(roots, w, k, h, early) && TwoLightest(roots, w, a, b)
    ensures Balanced(roots, w, k, g, now) && a in now && b in now
  {
    hide Balanced, Weight, Depth;
    g, now := h, early;
    EarlyRoots(roots, w, k, g, now);
    if |now| < 2 {
      Pair(roots, a, b);
      NextRound(roots, w, k, h, early);
      g, now := h + 1, roots;
      return;
    }
    if a !in now {
      var r := Another(now, b);
      Exchange(roots, w, k, g, now, a, r);
      now := now - {r} + {a};
    }
    if b !in now {
      var r := Another(now, a);
      Exchange(roots, w, k, g, now, b, r);
      now := now - {r} + {b};
    }
  }

  lemma EarlyRoots(roots: set<int>, w: seq<int>, k: nat, h: nat, early: set<int>)
    requires Balanced(roots, w, k, h, early)
    ensures early <= roots
  {
  }

  lemma Pair(s: set<int>, a: int, b: int)
    requires a in s && b in s && a != b
    ensures |s| >= 2
  {
    var rest := s - {a};
    assert b in rest && |rest| == |s| - 1;
  }

  lemma RootsMerged(p: seq<int>, a: nat, b: nat)
    requires IsRoot(p, a) && IsRoot(p, b) && a != b
    ensures Roots(Merge(p, a, b)) == Roots(p) - {a, b} + {|p|}
  {
    var q := Merge(p, a, b);
    forall x: int ensures x in Roots(q) <==> x in Roots(p) - {a, b} + {|p|} {
      if 0 <= x < |p| {
        assert q[x] == if x == a || x == b then |p| else p[x];
      }
    }
  }

  /** Merging the two lightest trees goes on with the round. */
  lemma RoundGoesOn(roots: set<int>, w: seq<int>, k: nat, h: nat, early: set<int>, a: nat, b: nat, c: nat)
    requires Balanced(roots, w, k, h, early) && TwoLightest(roots, w, a, b) && a in early && b in early
    requires c !in roots && c < |w| && Max(Depth(w[a]), Depth(w[b])) < 255
    ensures Balanced(roots - {a, b} + {c}, w[c := AddWeights(w[a], w[b])], k, h, early - {a, b})
  {
    hide Weight, Depth, AddWeights, Pow2, NoGiant;
    var z := AddWeights(w[a], w[b]);
    var v, rest, now := w[c := z], early - {a, b}, roots - {a, b} + {c};
    Unpack(w[a], w[b]);
    OthersHeavier(roots, w, a, b);
    assert now - rest == (roots - early) + {c};
    assert |rest| == |early| - 2 by {
      assert early == rest + {a, b};
    }
    HeaviestLast(roots, w, h + 1, a, b);
    StillNoGiant(roots, w, v, h + 1, a, b, c);
  }

  lemma OthersHeavier(roots: set<int>, w: seq<int>, a: nat, b: nat)
    requires TwoLightest(roots, w, a, b)
    ensures Weight(w[a]) <= Weight(w[b])
    ensures forall r :: r in roots && r != a && r != b ==> 0 <= r < |w| && w[r] >= 0 && Weight(w[b]) <= Weight(w[r])
  {
  }

  lemma HeaviestLast(roots: set<int>, w: seq<int>, h: nat, a: nat, b: nat)
    requires Low(roots, w, h) && NoGiant(roots, w, h) && a in roots && b in roots && a != b
    ensures forall r :: r in roots ==> Weight(w[r]) <= Weight(w[a]) + Weight(w[b])
  {
    hide Weight, Depth;
  }

  lemma StillNoGiant(roots: set<int>, w: seq<int>, v: seq<int>, h: nat, a: nat, b: nat, c: nat)
    requires Low(roots, w, h) && NoGiant(roots, w, h) && Low(roots - {a, b} + {c}, v, h)
    requires a in roots && b in roots && a != b && c !in roots && Weight(v[c]) == Weight(w[a]) + Weight(w[b])
    requires forall r :: r in roots - {a, b} ==> 0 <= r < |v| && v[r] == w[r] && Weight(w[a]) <= Weight(w[b]) <= Weight(w[r])
    ensures NoGiant(roots - {a, b} + {c}, v, h)
  {
    hide Weight, Depth;
    var now := roots - {a, b} + {c};
    forall x, y, z | x in now && y in now && z in now && x != y ensures Weight(v[z]) <= Weight(v[x]) + Weight(v[y]) {
      assert z != c ==> Weight(w[z]) <= Weight(w[a]) + Weight(w[b]);
    }
  }

  /** The same for the forest in the parent array. */
  lemma OneMerge(p: seq<int>, n: nat, w: seq<int>, leaves: seq<nat>, m: nat, k: nat, h: nat, early: set<int>, a: int, b: int)
    returns (g: nat, now: set<int>)
    requires Balanced(Roots(p), w, k, h, early) && ForestOk(p, n, w, leaves, m) && |p| < |w|
    requires IsRoot(p, a) && IsRoot(p, b) && a != b && w[a] <= w[b] && forall r :: IsRoot(p, r) && r != a ==> w[b] <= w[r]
    ensures Balanced(Roots(Merge(p, a, b)), w[|p| := AddWeights(w[a], w[b])], k, g, now)
  {
    TreesShallow(p, n, w, leaves, m, a);
    TreesShallow(p, n, w, leaves, m, b);
    hide Balanced, RootOk, Weight, Depth, AddWeights, Merge;
    g, now := BothEarly(Roots(p), w, k, h, early, a, b);
    RoundGoesOn(Roots(p), w, k, g, now, a, b, |p|);
    RootsMerged(p, a, b);
    now := now - {a, b};
  }

  /** When one tree is left it has at most k levels. */
  lemma RoundsEnd(roots: set<int>, w: seq<int>, k: nat, h: nat, early: set<int>, r: int)
    requires Balanced(roots, w, k, h, early) && r in roots
    ensures 0 <= r < |w| && w[r] >= 0 && Depth(w[r]) <= k
  {
    hide Depth, Weight;
    if Depth(w[r]) > h {
      assert r in roots - early;
      assert Pow2(k - h) >= 2;
    }
  }

  // ----- when the loop of MakeCodeLengths ends -----

  lemma {:induction false} KraftAtLeast(lens: seq<byte>, d: nat)
    requires forall i :: 0 <= i < |lens| ==> lens[i] <= d
    ensures Kraft(lens, d, d + 1) >= |lens|
  {
    hide Pow2;
    if lens != [] {
      KraftAtLeast(lens[..|lens| - 1], d);
    }
  }

  /** With more symbols than codes of maxLen bits every tree is too deep, whatever the counts. */
  lemma AlwaysTooLong(p: seq<int>, n: nat, w: seq<int>, leaves: seq<nat>, m: nat, lens: seq<byte>, d: nat)
    requires ForestOk(p, n, w, leaves, m) && |p| > n + 1 && forall r :: IsRoot(p, r) ==> r == |p| - 1
    requires LengthsAre(p, n, lens) && d <= 255 && n > Pow2(d)
    ensures exists i :: 0 <= i < n && lens[i] > d
  {
    hide Pow2, Kraft, RootOk, Forest;
    if forall i :: 0 <= i < n ==> lens[i] <= d {
      FinalKraft(p, n, w, leaves, m, lens, d);
      KraftAtLeast(lens, d);
    }
  }

  /** If a length is too long, scaling lowers the sum of the counts: it leaves only counts of 1 and 2 alone, and with
      those no length is too long. */
  lemma ScalingHelps(p: seq<int>, n: nat, w: seq<int>, leaves: seq<nat>, m: nat, lens: seq<byte>, less: seq<nat>, d: nat)
    requires ForestOk(p, n, w, leaves, m) && LengthsAre(p, n, lens) && exists i :: 0 <= i < n && lens[i] > d
    requires (forall i :: 0 <= i < n ==> leaves[i] <= 2) ==> forall r :: IsRoot(p, r) ==> 0 <= r < |w| && w[r] >= 0 && Depth(w[r]) <= d
    requires |less| == n && forall i :: 0 <= i < n ==> leaves[i] >= 1 && less[i] == Scaled(leaves[i])
    ensures Sum(less) < Sum(leaves)
  {
    hide Sum, RootOk, Weight, Depth, Owners, Depths;
    ScaledFixed(leaves, less);
    var i :| 0 <= i < n && lens[i] > d;
    NotDeeper(p, n, w, leaves, m, i);
  }

  lemma NotDeeper(p: seq<int>, n: nat, w: seq<int>, leaves: seq<nat>, m: nat, i: nat)
    requires ForestOk(p, n, w, leaves, m) && i < n
    ensures var r := Owners(p, n)[i]; IsRoot(p, r) && w[r] >= 0 && Depths(p, n)[i] <= Depth(w[r])
  {
    hide SumAt, Fib, Shares, Weight, Depth;
    var r := Owners(p, n)[i];
    assert RootOk(p, n, leaves, w[r], m, r);
  }

  /** Scaling never raises the sum, and keeps it only when all counts are 1 or 2. */
  lemma {:induction false} ScaledFixed(leaves: seq<nat>, less: seq<nat>)
    requires |less| == |leaves| && forall i :: 0 <= i < |leaves| ==> leaves[i] >= 1 && less[i] == Scaled(leaves[i])
    ensures Sum(less) <= Sum(leaves)
    ensures Sum(less) == Sum(leaves) ==> forall i :: 0 <= i < |leaves| ==> leaves[i] <= 2
  {
    if leaves != [] {
      ScaledFixed(leaves[..|leaves| - 1], less[..|leaves| - 1]);
    }
  }
}
