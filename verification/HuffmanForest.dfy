/** The forest BZ2_hbMakeCodeLengths builds in its parent array: what merging two trees does to depths, weights
    and Kraft sums, and the Fibonacci bound that keeps Huffman trees shallow. */
module HuffmanForest {
  import opened Numbers
  import opened CanonicalCodes

  /** Above every depth that can occur; Kraft sums are scaled by 2^SCALE. */
  const SCALE := 256

  /** Nodes run from 1; the first n are leaves, and parents have higher numbers than their children. */
  ghost predicate Forest(p: seq<int>, n: nat) {
    && 1 <= n < |p|
    && forall x :: 1 <= x < |p| ==> p[x] == -1 || (n < p[x] < |p| && x < p[x])
  }

  predicate IsRoot(p: seq<int>, x: int) {
    1 <= x < |p| && p[x] == -1
  }

  /** How many steps lead from x to its root. */
  ghost function Up(p: seq<int>, n: nat, x: nat): nat
    requires Forest(p, n) && 1 <= x < |p|
    decreases |p| - x
  {
    if p[x] == -1 then 0 else 1 + Up(p, n, p[x])
  }

  ghost function Root(p: seq<int>, n: nat, x: nat): (r: nat)
    requires Forest(p, n) && 1 <= x < |p|
    ensures IsRoot(p, r)
    decreases |p| - x
  {
    if p[x] == -1 then x else Root(p, n, p[x])
  }

  /** The root of every leaf. */
  ghost function Owners(p: seq<int>, n: nat): (s: seq<nat>)
    requires Forest(p, n)
    ensures |s| == n
  {
    seq(n, i requires 0 <= i < n => Root(p, n, i + 1))
  }

  ghost function Depths(p: seq<int>, n: nat): (s: seq<nat>)
    requires Forest(p, n)
    ensures |s| == n
  {
    seq(n, i requires 0 <= i < n => Up(p, n, i + 1))
  }

  /** Two roots get a common parent, the next node. */
  function Merge(p: seq<int>, a: nat, b: nat): seq<int>
    requires a < |p| && b < |p|
  {
    p[a := |p|][b := |p|] + [-1]
  }

  lemma {:induction false} MergeNode(p: seq<int>, n: nat, a: nat, b: nat, x: nat)
    requires Forest(p, n) && IsRoot(p, a) && IsRoot(p, b) && 1 <= x < |p|
    ensures var q := Merge(p, a, b); var r := Root(p, n, x);
      && Forest(q, n)
      && Root(q, n, x) == (if r == a || r == b then |p| else r)
      && Up(q, n, x) == Up(p, n, x) + (if r == a || r == b then 1 else 0)
    decreases |p| - x
  {
    var q := Merge(p, a, b);
    if p[x] != -1 {
      MergeNode(p, n, a, b, p[x]);
      assert q[x] == p[x];
    } else if x == a || x == b {
      assert q[x] == |p| && q[|p|] == -1;
      assert Root(q, n, |p|) == |p| && Up(q, n, |p|) == 0;
    }
  }

  // ----- sums over the leaves of a tree -----

  function SumAt(vals: seq<nat>, owner: seq<nat>, r: nat): nat
    requires |vals| == |owner|
  {
    if vals == [] then 0
    else SumAt(vals[..|vals| - 1], owner[..|vals| - 1], r) + if owner[|vals| - 1] == r then vals[|vals| - 1] else 0
  }

  function Sum(vals: seq<nat>): nat {
    if vals == [] then 0 else Sum(vals[..|vals| - 1]) + vals[|vals| - 1]
  }

  lemma {:induction false} SumAtLeast(vals: seq<nat>, owner: seq<nat>, r: nat)
    requires |vals| == |owner|
    ensures SumAt(vals, owner, r) <= Sum(vals)
    ensures (forall i :: 0 <= i < |owner| ==> owner[i] == r) ==> SumAt(vals, owner, r) == Sum(vals)
  {
    if vals != [] {
      SumAtLeast(vals[..|vals| - 1], owner[..|vals| - 1], r);
    }
  }

  /** v and o after the trees of a and b became the tree of c; with halved set, the leaves there count half. */
  ghost predicate Merged(vals: seq<nat>, owner: seq<nat>, v: seq<nat>, o: seq<nat>, a: nat, b: nat, c: nat, halved: bool) {
    && |vals| == |owner| == |v| == |o|
    && forall i :: 0 <= i < |vals| ==>
         && owner[i] != c
         && if owner[i] == a || owner[i] == b then o[i] == c && vals[i] == Twice(v[i], halved)
            else o[i] == owner[i] && vals[i] == v[i]
  }

  function Twice(x: nat, really: bool): nat {
    if really then x + x else x
  }

  lemma {:induction false} MergedSums(vals: seq<nat>, owner: seq<nat>, v: seq<nat>, o: seq<nat>, a: nat, b: nat, c: nat,
                                      halved: bool, r: nat)
    requires Merged(vals, owner, v, o, a, b, c, halved) && a != b && c != a && c != b
    ensures Twice(SumAt(v, o, c), halved) == SumAt(vals, owner, a) + SumAt(vals, owner, b)
    ensures r != a && r != b && r != c ==> SumAt(v, o, r) == SumAt(vals, owner, r)
    decreases |vals|
  {
    if vals != [] {
      var k := |vals| - 1;
      MergedSums(vals[..k], owner[..k], v[..k], o[..k], a, b, c, halved, r);
    }
  }

  /** What each leaf adds to the scaled Kraft sum of its tree. */
  ghost function Shares(depths: seq<nat>): (s: seq<nat>)
    ensures |s| == |depths|
  {
    seq(|depths|, i requires 0 <= i < |depths| => if depths[i] <= SCALE then Pow2(SCALE - depths[i]) else 0)
  }

  // ----- Fibonacci numbers -----

  function Fib(k: nat): (f: nat)
    ensures k >= 1 ==> f >= 1
  {
    if k < 2 then k else Fib(k - 1) + Fib(k - 2)
  }

  lemma {:induction false} FibMonotone(j: nat, k: nat)
    requires j <= k
    ensures Fib(j) <= Fib(k)
    decreases k
  {
    if j < k {
      FibMonotone(j, k - 1);
    }
  }

  lemma FibValues()
    ensures Fib(20) == 6765 && Fib(35) == 9227465
  {
    assert Fib(4) == 3 && Fib(5) == 5;
    assert Fib(6) == 8 && Fib(7) == 13;
    assert Fib(8) == 21 && Fib(9) == 34;
    assert Fib(10) == 55 && Fib(11) == 89;
    assert Fib(12) == 144 && Fib(13) == 233;
    assert Fib(14) == 377 && Fib(15) == 610;
    assert Fib(16) == 987 && Fib(17) == 1597;
    assert Fib(18) == 2584 && Fib(19) == 4181;
    assert Fib(20) == 6765 && Fib(21) == 10946;
    assert Fib(22) == 17711 && Fib(23) == 28657;
    assert Fib(24) == 46368 && Fib(25) == 75025;
    assert Fib(26) == 121393 && Fib(27) == 196418;
    assert Fib(28) == 317811 && Fib(29) == 514229;
    assert Fib(30) == 832040 && Fib(31) == 1346269;
    assert Fib(32) == 2178309 && Fib(33) == 3524578;
    assert Fib(34) == 5702887 && Fib(35) == 9227465;
  }

  /** A tree lighter than Fib(k) is less than k - 1 levels deep. */
  lemma Shallow(w: nat, d: nat, k: nat)
    requires w >= Fib(d + 2) && w < Fib(k) && k >= 2
    ensures d + 2 < k
  {
    if d + 2 >= k {
      FibMonotone(k, d + 2);
    }
  }

  // ----- packed weights -----

  function Weight(x: nat): nat {
    x / 0x100
  }

  function Depth(x: nat): nat {
    x % 0x100
  }

  /** ADDWEIGHTS: weights add, depths take the larger one plus 1. The two parts share no bits as long as the
      depth fits, so the or of the two is a sum. */
  function AddWeights(x: nat, y: nat): nat {
    Weight(x) * 0x100 + Weight(y) * 0x100 + (1 + Max(Depth(x), Depth(y)))
  }

  lemma Unpack(x: nat, y: nat)
    requires Max(Depth(x), Depth(y)) < 255
    ensures Weight(AddWeights(x, y)) == Weight(x) + Weight(y)
    ensures Depth(AddWeights(x, y)) == 1 + Max(Depth(x), Depth(y))
  {
  }

  // ----- the invariant of the merge loop -----

  /** The tree at root r with packed weight x: x packs its weight and a bound on its depth, the Kraft sum of its
      leaves is 1, and it is no deeper than the Fibonacci bound allows. No root is lighter than m, the heaviest
      node that has a parent. */
  ghost predicate RootOk(p: seq<int>, n: nat, leaves: seq<nat>, x: nat, m: nat, r: nat)
    requires Forest(p, n) && |leaves| == n
  {
    && Weight(x) == SumAt(leaves, Owners(p, n), r)
    && SumAt(Shares(Depths(p, n)), Owners(p, n), r) == Pow2(SCALE)
    && (forall i :: 0 <= i < n && Owners(p, n)[i] == r ==> Depths(p, n)[i] <= Depth(x))
    && Weight(x) >= Fib(Depth(x) + 2)
    && Weight(x) >= m
    && (Depth(x) > 0 ==> m >= Fib(Depth(x) + 1))
  }

  const TOTAL := 0x80_0000

  ghost predicate ForestOk(p: seq<int>, n: nat, w: seq<int>, leaves: seq<nat>, m: nat) {
    && Forest(p, n) && |leaves| == n && |p| <= |w|
    && Sum(leaves) < TOTAL
    && forall r :: IsRoot(p, r) ==> w[r] >= 0 && RootOk(p, n, leaves, w[r], m, r)
  }

  lemma MergeVectors(p: seq<int>, n: nat, a: nat, b: nat)
    requires Forest(p, n) && IsRoot(p, a) && IsRoot(p, b)
    ensures var q := Merge(p, a, b);
      && Forest(q, n)
      && forall i :: 0 <= i < n ==>
           var moved := Owners(p, n)[i] == a || Owners(p, n)[i] == b;
           && Owners(p, n)[i] < |p|
           && Owners(q, n)[i] == (if moved then |p| else Owners(p, n)[i])
           && Depths(q, n)[i] == Depths(p, n)[i] + (if moved then 1 else 0)
  {
    var q := Merge(p, a, b);
    MergeNode(p, n, a, b, 1);
    forall i | 0 <= i < n
      ensures var moved := Owners(p, n)[i] == a || Owners(p, n)[i] == b;
        && Owners(p, n)[i] < |p|
        && Owners(q, n)[i] == (if moved then |p| else Owners(p, n)[i])
        && Depths(q, n)[i] == Depths(p, n)[i] + (if moved then 1 else 0)
    {
      MergeNode(p, n, a, b, i + 1);
    }
  }

  lemma MergeShares(p: seq<int>, n: nat, a: nat, b: nat)
    requires Forest(p, n) && IsRoot(p, a) && IsRoot(p, b)
    requires forall i :: 0 <= i < n ==> Depths(p, n)[i] < SCALE
    ensures var q := Merge(p, a, b);
      && Forest(q, n)
      && Merged(Shares(Depths(p, n)), Owners(p, n), Shares(Depths(q, n)), Owners(q, n), a, b, |p|, true)
  {
    MergeVectors(p, n, a, b);
  }

  /** The two lightest trees weigh less than the total, so they are shallow. */
  lemma TreesShallow(p: seq<int>, n: nat, w: seq<int>, leaves: seq<nat>, m: nat, r: nat)
    requires ForestOk(p, n, w, leaves, m) && IsRoot(p, r)
    ensures Depth(w[r]) < 33
  {
    hide Fib;
    SumAtLeast(leaves, Owners(p, n), r);
    FibValues();
    Shallow(Weight(w[r]), Depth(w[r]), 35);
  }

  lemma AllShallow(p: seq<int>, n: nat, w: seq<int>, leaves: seq<nat>, m: nat)
    requires ForestOk(p, n, w, leaves, m)
    ensures forall i :: 0 <= i < n ==> Depths(p, n)[i] < 33
  {
    forall i | 0 <= i < n ensures Depths(p, n)[i] < 33 {
      TreesShallow(p, n, w, leaves, m, Owners(p, n)[i]);
    }
  }

  /** The new tree: the Fibonacci bound grows by one level because the lighter tree still outweighs every child
      of the heavier one. */
  lemma MergedWeight(x: nat, y: nat, m: nat)
    requires Weight(x) <= Weight(y) && Depth(x) < 33 && Depth(y) < 33
    requires Weight(x) >= Fib(Depth(x) + 2) && Weight(x) >= m && (Depth(x) > 0 ==> m >= Fib(Depth(x) + 1))
    requires Weight(y) >= Fib(Depth(y) + 2) && Weight(y) >= m && (Depth(y) > 0 ==> m >= Fib(Depth(y) + 1))
    ensures var z := AddWeights(x, y);
      && Weight(z) == Weight(x) + Weight(y) && Depth(z) == 1 + Max(Depth(x), Depth(y))
      && Weight(z) >= Fib(Depth(z) + 2)
      && Weight(y) >= Fib(Depth(z) + 1)
  {
    Unpack(x, y);
    hide Fib, AddWeights, Weight, Depth;
    var d := Max(Depth(x), Depth(y));
    assert Fib(d + 3) == Fib(d + 2) + Fib(d + 1) by {
      FibStep(d + 1);
    }
    FibMonotone(Depth(x) + 2, d + 2);
    if d == Depth(x) {
      FibMonotone(d + 1, d + 2);
    } else {
      FibMonotone(Depth(x) + 2, d + 2);
    }
    FibOne();
  }

  lemma FibStep(k: nat)
    ensures Fib(k + 2) == Fib(k + 1) + Fib(k)
  {
  }

  lemma FibOne()
    ensures Fib(1) == 1 && Fib(2) == 1
  {
  }

  lemma NewRootOk(p: seq<int>, n: nat, w: seq<int>, leaves: seq<nat>, m: nat, a: nat, b: nat)
    requires ForestOk(p, n, w, leaves, m) && IsRoot(p, a) && IsRoot(p, b) && a != b && w[a] <= w[b]
    ensures Forest(Merge(p, a, b), n)
    ensures RootOk(Merge(p, a, b), n, leaves, AddWeights(w[a], w[b]), Weight(w[b]), |p|)
  {
    hide Fib, SumAt, Shares, Owners, Depths, Merge, Forest, Weight, Depth, AddWeights, Merged;
    var q := Merge(p, a, b);
    TreesShallow(p, n, w, leaves, m, a);
    TreesShallow(p, n, w, leaves, m, b);
    AllShallow(p, n, w, leaves, m);
    assert Weight(w[a]) <= Weight(w[b]) by {
      LighterPacked(w[a], w[b]);
    }
    MergedWeight(w[a], w[b], m);
    MergeVectors(p, n, a, b);
    MergeShares(p, n, a, b);
    MergedSums(Shares(Depths(p, n)), Owners(p, n), Shares(Depths(q, n)), Owners(q, n), a, b, |p|, true, 0);
    MergeLeaves(p, n, leaves, a, b);
    MergedSums(leaves, Owners(p, n), leaves, Owners(q, n), a, b, |p|, false, 0);
  }

  lemma LighterPacked(x: nat, y: nat)
    requires x <= y
    ensures Weight(x) <= Weight(y)
  {
  }

  lemma MergeLeaves(p: seq<int>, n: nat, leaves: seq<nat>, a: nat, b: nat)
    requires Forest(p, n) && IsRoot(p, a) && IsRoot(p, b) && |leaves| == n
    ensures Forest(Merge(p, a, b), n)
    ensures Merged(leaves, Owners(p, n), leaves, Owners(Merge(p, a, b), n), a, b, |p|, false)
  {
    MergeVectors(p, n, a, b);
  }

  lemma OldRootOk(p: seq<int>, n: nat, w: seq<int>, leaves: seq<nat>, m: nat, a: nat, b: nat, r: nat)
    requires ForestOk(p, n, w, leaves, m) && IsRoot(p, a) && IsRoot(p, b) && a != b && w[a] <= w[b]
    requires IsRoot(p, r) && r != a && r != b && w[b] <= w[r]
    ensures Forest(Merge(p, a, b), n) && RootOk(Merge(p, a, b), n, leaves, w[r], Weight(w[b]), r)
  {
    hide Fib, SumAt, Shares, Owners, Depths, Merge, Forest, Weight, Depth, Merged;
    var q := Merge(p, a, b);
    AllShallow(p, n, w, leaves, m);
    LighterPacked(w[b], w[r]);
    MergeVectors(p, n, a, b);
    MergeShares(p, n, a, b);
    MergedSums(Shares(Depths(p, n)), Owners(p, n), Shares(Depths(q, n)), Owners(q, n), a, b, |p|, true, r);
    MergeLeaves(p, n, leaves, a, b);
    MergedSums(leaves, Owners(p, n), leaves, Owners(q, n), a, b, |p|, false, r);
  }

  /** Merging the two lightest trees keeps the invariant. */
  lemma MergeOk(p: seq<int>, n: nat, w: seq<int>, leaves: seq<nat>, m: nat, a: nat, b: nat)
    requires ForestOk(p, n, w, leaves, m) && IsRoot(p, a) && IsRoot(p, b) && a != b && w[a] <= w[b] && |p| < |w|
    requires forall r :: IsRoot(p, r) && r != a ==> w[b] <= w[r]
    ensures ForestOk(Merge(p, a, b), n, w[|p| := AddWeights(w[a], w[b])], leaves, Weight(w[b]))
    ensures AddWeights(w[a], w[b]) < 0x8000_0000
  {
    hide RootOk, Forest, Weight, Depth, AddWeights;
    var q := Merge(p, a, b);
    NewRootOk(p, n, w, leaves, m, a, b);
    forall r | IsRoot(q, r) && r != |p| ensures w[r] >= 0 && RootOk(q, n, leaves, w[r], Weight(w[b]), r) {
      OldRootOk(p, n, w, leaves, m, a, b, r);
    }
    PackedFits(q, n, leaves, AddWeights(w[a], w[b]), Weight(w[b]), |p|);
  }

  lemma PackedFits(p: seq<int>, n: nat, leaves: seq<nat>, x: nat, m: nat, r: nat)
    requires Forest(p, n) && |leaves| == n && RootOk(p, n, leaves, x, m, r) && Sum(leaves) < TOTAL
    ensures x < 0x8000_0000
  {
    SumAtLeast(leaves, Owners(p, n), r);
  }

  // ----- the beginning and the end of the merge loop -----

  lemma {:induction false} OwnSum(vals: seq<nat>, owner: seq<nat>, r: nat)
    requires |vals| == |owner| && forall i :: 0 <= i < |owner| ==> owner[i] == i + 1
    ensures SumAt(vals, owner, r) == if 1 <= r <= |vals| then vals[r - 1] else 0
  {
    if vals != [] {
      OwnSum(vals[..|vals| - 1], owner[..|vals| - 1], r);
    }
  }

  /** Single leaves. */
  lemma StartOk(p: seq<int>, n: nat, w: seq<int>, leaves: seq<nat>)
    requires |p| == n + 1 <= |w| && |leaves| == n >= 1 && Sum(leaves) < TOTAL
    requires forall i :: 1 <= i <= n ==> p[i] == -1 && w[i] == leaves[i - 1] * 0x100 && leaves[i - 1] >= 1
    ensures ForestOk(p, n, w, leaves, 0)
  {
    hide Sum;
    SingleLeaves(p, n);
    hide Pow2, Fib, SumAt, Shares, Owners, Depths;
    FibOne();
    forall r | IsRoot(p, r) ensures w[r] >= 0 && RootOk(p, n, leaves, w[r], 0, r) {
      OwnSum(leaves, Owners(p, n), r);
      OwnSum(Shares(Depths(p, n)), Owners(p, n), r);
    }
  }

  lemma SingleLeaves(p: seq<int>, n: nat)
    requires |p| == n + 1 && n >= 1 && forall i :: 1 <= i <= n ==> p[i] == -1
    ensures Forest(p, n)
    ensures forall i :: 0 <= i < n ==> Owners(p, n)[i] == i + 1 && Depths(p, n)[i] == 0
    ensures forall i :: 0 <= i < n ==> Shares(Depths(p, n))[i] == Pow2(SCALE)
  {
    hide Pow2;
  }

  /** The lengths are the depths. */
  ghost predicate LengthsAre(p: seq<int>, n: nat, lens: seq<byte>)
    requires Forest(p, n)
  {
    |lens| == n && forall i :: 0 <= i < n ==> lens[i] == Depths(p, n)[i]
  }

  lemma {:induction false} SharesAreKraft(depths: seq<nat>, lens: seq<byte>)
    requires |lens| == |depths| && forall i :: 0 <= i < |lens| ==> lens[i] == depths[i]
    ensures Sum(Shares(depths)) == Kraft(lens, SCALE, SCALE + 1)
  {
    if lens != [] {
      var k := |lens| - 1;
      SharesAreKraft(depths[..k], lens[..k]);
      assert Shares(depths)[..k] == Shares(depths[..k]);
    }
  }

  lemma {:induction false} KraftRescaled(lens: seq<byte>, d: nat)
    requires d <= SCALE && forall i :: 0 <= i < |lens| ==> lens[i] <= d
    ensures Kraft(lens, SCALE, SCALE + 1) == Kraft(lens, d, d + 1) * Pow2(SCALE - d)
  {
    hide Pow2;
    if lens != [] {
      var k := |lens| - 1;
      KraftRescaled(lens[..k], d);
      Pow2Add(d - lens[k], SCALE - d);
      MulDistribute(Kraft(lens[..k], d, d + 1), Pow2(d - lens[k]), Pow2(SCALE - d));
    }
  }

  lemma CancelFactor(a: nat, b: nat, m: nat)
    requires m >= 1 && a * m == b * m
    ensures a == b
  {
  }

  /** One tree is left: the depths of its leaves are code lengths whose Kraft sum is exactly 1. */
  lemma FinalKraft(p: seq<int>, n: nat, w: seq<int>, leaves: seq<nat>, m: nat, lens: seq<byte>, d: nat)
    requires ForestOk(p, n, w, leaves, m) && |p| > n + 1 && forall r :: IsRoot(p, r) ==> r == |p| - 1
    requires LengthsAre(p, n, lens) && d <= 255 && forall i :: 0 <= i < n ==> lens[i] <= d
    ensures forall i :: 0 <= i < n ==> lens[i] >= 1
    ensures Kraft(lens, d, d + 1) == Pow2(d)
  {
    hide Pow2, SumAt, Kraft, RootOk;
    var r := Owners(p, n)[0];
    assert RootOk(p, n, leaves, w[r], m, r);
    RootShares(p, n, leaves, w[r], m, r);
    SumAtLeast(Shares(Depths(p, n)), Owners(p, n), r);
    SharesAreKraft(Depths(p, n), lens);
    KraftRescaled(lens, d);
    Pow2Split(SCALE, d);
    CancelFactor(Kraft(lens, d, d + 1), Pow2(d), Pow2(SCALE - d));
    forall i | 0 <= i < n ensures lens[i] >= 1 {
      assert Root(p, n, i + 1) == r;
    }
  }

  lemma RootShares(p: seq<int>, n: nat, leaves: seq<nat>, x: nat, m: nat, r: nat)
    requires Forest(p, n) && |leaves| == n && RootOk(p, n, leaves, x, m, r)
    ensures SumAt(Shares(Depths(p, n)), Owners(p, n), r) == Pow2(SCALE)
  {
  }

  /** The count-scaling step of one weight. */
  function Scaled(x: nat): nat {
    1 + x / 2
  }
}
