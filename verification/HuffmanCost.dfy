/** The cost of the code the merge loop builds: no code for the same weights is cheaper. */
module HuffmanCost {
  import opened Numbers
  import opened CanonicalCodes
  import opened HuffmanForest
  import opened HuffmanOptimal

  /** What it costs to send every symbol as often as its weight says. */
  function Total(weights: seq<nat>, lens: seq<nat>): nat
    requires |weights| == |lens|
  {
    if weights == [] then 0
    else Total(weights[..|weights| - 1], lens[..|lens| - 1]) + weights[|weights| - 1] * lens[|lens| - 1]
  }

  /** No prefix code is cheaper for these weights. */
  ghost predicate Cheapest(weights: seq<nat>, lens: seq<byte>) {
    && |lens| == |weights|
    && forall other: seq<byte> :: |other| == |weights| && Kraft(other, 255, 256) <= Pow2(255) ==> Total(weights, lens) <= Total(weights, other)
  }

  function Leaves(weights: seq<nat>, lens: seq<nat>): (s: seq<Leaf>)
    requires |weights| == |lens|
    ensures |s| == |weights|
  {
    seq(|weights|, i requires 0 <= i < |weights| => Leaf(weights[i], lens[i]))
  }

  lemma {:induction false} LeavesSums(weights: seq<nat>, lens: seq<byte>)
    requires |weights| == |lens|
    ensures var s := Leaves(weights, lens);
      Within(s, 255) && Cost(s) == Total(weights, lens) && Space(s, 255) == Kraft(lens, 255, 256) && Weights(s) == multiset(weights)
  {
    hide Pow2;
    var s := Leaves(weights, lens);
    if weights != [] {
      var k := |weights| - 1;
      LeavesSums(weights[..k], lens[..k]);
      assert s[..k] == Leaves(weights[..k], lens[..k]);
      assert weights == weights[..k] + [weights[k]];
    }
  }

  lemma CostIsCheapest(weights: seq<nat>, lens: seq<byte>)
    requires |weights| == |lens| > 0 && Total(weights, lens) == MergeCost(multiset(weights))
    ensures Cheapest(weights, lens)
  {
    hide Pow2, Kraft, Total, MergeCost, Cost, Space, Weights, Leaves;
    forall other: seq<byte> | |other| == |weights| && Kraft(other, 255, 256) <= Pow2(255)
      ensures Total(weights, lens) <= Total(weights, other)
    {
      LeavesSums(weights, other);
      Optimal(Leaves(weights, other), 255);
    }
  }

  /** Two lengths exchanged: the Kraft sum stays, and the cost changes by the product of the differences. */
  lemma ExchangedTotal(weights: seq<nat>, lens: seq<byte>, i: nat, j: nat)
    requires |weights| == |lens| && i < |lens| && j < |lens|
    ensures var other := lens[i := lens[j]][j := lens[i]];
      && Kraft(other, 255, 256) == Kraft(lens, 255, 256)
      && Total(weights, other) + weights[i] * lens[i] + weights[j] * lens[j] == Total(weights, lens) + weights[i] * lens[j] + weights[j] * lens[i]
  {
    hide Pow2, Kraft, Total, Cost, Space, Weights, Lengths;
    var other := lens[i := lens[j]][j := lens[i]];
    var x, y := Leaf(weights[i], lens[j]), Leaf(weights[j], lens[i]);
    var s := Leaves(weights, lens);
    LeavesSums(weights, lens);
    LeavesSums(weights, other);
    if i == j {
      assert other == lens;
    } else {
      ChangedSums(s, i, x, 255);
      ChangedSums(s[i := x], j, y, 255);
      assert Leaves(weights, other) == s[i := x][j := y];
    }
  }

  /** In a cheapest code the heavier symbol never has the longer code word. */
  lemma CheapestOrders(weights: seq<nat>, lens: seq<byte>, i: nat, j: nat)
    requires Cheapest(weights, lens) && Kraft(lens, 255, 256) <= Pow2(255)
    requires i < |weights| && j < |weights| && weights[i] > weights[j]
    ensures lens[i] <= lens[j]
  {
    hide Pow2, Kraft, Total;
    if lens[i] > lens[j] {
      ExchangedTotal(weights, lens, i, j);
      CrossLess(weights[j], weights[i], lens[j], lens[i]);
    }
  }

  lemma CrossLess(a: nat, b: nat, k: nat, l: nat)
    requires a < b && k < l
    ensures a * l + b * k < a * k + b * l
  {
    assert a * l == a * k + a * (l - k) && b * l == b * k + b * (l - k);
    MulMonotone(a + 1, b, l - k);
    MulDistribute(a, 1, l - k);
  }

  // ----- the weights of the roots -----

  /** The weights of the roots before node k, but for some nodes that are skipped. */
  ghost function RootBag(p: seq<int>, w: seq<int>, k: nat, skip: set<int>): multiset<nat>
    requires k <= |p| <= |w|
  {
    if k == 0 then multiset{}
    else RootBag(p, w, k - 1, skip) + WeightOf(p, w, k - 1, skip)
  }

  ghost predicate Stands(p: seq<int>, w: seq<int>, x: int, skip: set<int>) {
    IsRoot(p, x) && x !in skip && x < |w| && w[x] >= 0
  }

  ghost function WeightOf(p: seq<int>, w: seq<int>, x: int, skip: set<int>): multiset<nat> {
    if Stands(p, w, x, skip) then multiset{Weight(w[x])} else multiset{}
  }

  lemma {:induction false} InBag(p: seq<int>, w: seq<int>, k: nat, skip: set<int>, x: int)
    requires k <= |p| <= |w| && x < k && Stands(p, w, x, skip)
    ensures Weight(w[x]) in RootBag(p, w, k, skip)
  {
    hide Weight;
    if x < k - 1 {
      InBag(p, w, k - 1, skip, x);
    }
  }

  lemma {:induction false} FromBag(p: seq<int>, w: seq<int>, k: nat, skip: set<int>, v: nat) returns (x: int)
    requires k <= |p| <= |w| && v in RootBag(p, w, k, skip)
    ensures x < k && Stands(p, w, x, skip) && Weight(w[x]) == v
  {
    hide Weight, IsRoot;
    if Stands(p, w, k - 1, skip) && Weight(w[k - 1]) == v {
      x := k - 1;
    } else {
      x := FromBag(p, w, k - 1, skip, v);
    }
  }

  /** Skipping one root more takes its weight out. */
  lemma {:induction false} BagWithout(p: seq<int>, w: seq<int>, k: nat, skip: set<int>, a: nat)
    requires k <= |p| <= |w| && Stands(p, w, a, skip)
    ensures RootBag(p, w, k, skip) == RootBag(p, w, k, skip + {a as int}) + if a < k then multiset{Weight(w[a])} else multiset{}
  {
    hide *;
    var more := skip + {a as int};
    if k > 0 {
      BagWithout(p, w, k - 1, skip, a);
      BagStep(p, w, k, skip);
      BagStep(p, w, k, more);
      OwnWeight(p, w, a, k - 1, skip);
      StandsMeans(p, w, a, skip);
      PlusSwap(RootBag(p, w, k - 1, more), WeightOf(p, w, k - 1, more), if a < k - 1 then multiset{Weight(w[a])} else multiset{});
    } else {
      NoBag(p, w, skip);
      NoBag(p, w, more);
    }
  }

  lemma StandsMeans(p: seq<int>, w: seq<int>, x: int, skip: set<int>)
    requires Stands(p, w, x, skip)
    ensures 1 <= x < |p| && x < |w| && w[x] >= 0
  {
  }

  lemma NoBag(p: seq<int>, w: seq<int>, skip: set<int>)
    requires |p| <= |w|
    ensures RootBag(p, w, 0, skip) == multiset{}
  {
  }

  lemma OwnWeight(p: seq<int>, w: seq<int>, a: nat, x: int, skip: set<int>)
    requires Stands(p, w, a, skip)
    ensures WeightOf(p, w, x, skip) == if x == a then multiset{Weight(w[a])} else WeightOf(p, w, x, skip + {a as int})
    ensures WeightOf(p, w, a, skip + {a as int}) == multiset{}
  {
  }

  lemma BagStep(p: seq<int>, w: seq<int>, k: nat, skip: set<int>)
    requires 0 < k <= |p| <= |w|
    ensures RootBag(p, w, k, skip) == RootBag(p, w, k - 1, skip) + WeightOf(p, w, k - 1, skip)
  {
  }

  /** The bags of two forests are the same if the same roots stand with the same weights. */
  lemma {:induction false} SameBag(p: seq<int>, w: seq<int>, s: set<int>, q: seq<int>, v: seq<int>, t: set<int>, k: nat)
    requires k <= |p| <= |w| && k <= |q| <= |v| && forall x :: 0 <= x < k ==> WeightOf(p, w, x, s) == WeightOf(q, v, x, t)
    ensures RootBag(p, w, k, s) == RootBag(q, v, k, t)
  {
    hide WeightOf;
    if k > 0 {
      SameBag(p, w, s, q, v, t, k - 1);
    }
  }

  lemma TwoOut(p: seq<int>, w: seq<int>, k: nat, a: nat, b: nat)
    requires k <= |p| <= |w| && Stands(p, w, a, {}) && Stands(p, w, b, {}) && a != b && a < k && b < k
    ensures RootBag(p, w, k, {}) == RootBag(p, w, k, {b as int}) + multiset{Weight(w[b])}
    ensures RootBag(p, w, k, {b as int}) == RootBag(p, w, k, {a as int, b as int}) + multiset{Weight(w[a])}
  {
    hide RootBag, Weight;
    assert {} + {b as int} == {b as int};
    assert {b as int} + {a as int} == {a as int, b as int};
    BagWithout(p, w, k, {}, b);
    BagWithout(p, w, k, {b as int}, a);
  }

  lemma MergedBag(p: seq<int>, w: seq<int>, a: nat, b: nat, z: nat)
    requires |p| < |w| && a < |p| && b < |p|
    ensures |Merge(p, a, b)| == |p| + 1
    ensures RootBag(Merge(p, a, b), w[|p| := z], |p| + 1, {}) == RootBag(p, w, |p|, {a as int, b as int}) + multiset{Weight(z)}
  {
    hide Weight, RootBag;
    var q, v, n := Merge(p, a, b), w[|p| := z], |p|;
    forall x | 0 <= x < n ensures WeightOf(p, w, x, {a as int, b as int}) == WeightOf(q, v, x, {}) {
      assert q[x] == if x == a || x == b then n else p[x];
    }
    SameBag(p, w, {a as int, b as int}, q, v, {}, n);
    BagStep(q, v, n + 1, {});
  }

  /** Merging a and b replaces their weights by their sum. */
  lemma BagMerged(p: seq<int>, w: seq<int>, a: nat, b: nat, z: nat)
    requires |p| < |w| && a < |p| && b < |p| && Stands(p, w, a, {}) && Stands(p, w, b, {}) && a != b
    requires Weight(z) == Weight(w[a]) + Weight(w[b])
    ensures |Merge(p, a, b)| == |p| + 1
    ensures RootBag(Merge(p, a, b), w[|p| := z], |p| + 1, {}) == Joint(RootBag(p, w, |p|, {}), Weight(w[a]), Weight(w[b]))
  {
    hide *;
    StandsMeans(p, w, a, {});
    StandsMeans(p, w, b, {});
    TwoOut(p, w, |p|, a, b);
    MergedBag(p, w, a, b, z);
    JointBack(RootBag(p, w, |p|, {a as int, b as int}), Weight(w[a]), Weight(w[b]));
  }

  /** The first two roots taken from the heap have the two least weights. */
  lemma LeastRoots(p: seq<int>, w: seq<int>, a: nat, b: nat)
    requires |p| <= |w| && Stands(p, w, a, {}) && Stands(p, w, b, {}) && a != b && w[a] <= w[b]
    requires forall r :: IsRoot(p, r) && r != a ==> w[b] <= w[r]
    ensures var m := RootBag(p, w, |p|, {});
      && |m| >= 2 && Weight(w[a]) == Least(m)
      && |m - multiset{Weight(w[a])}| >= 1 && Weight(w[b]) == Least(m - multiset{Weight(w[a])})
  {
    hide Weight, RootBag;
    var m, n, x := RootBag(p, w, |p|, {}), |p|, multiset{Weight(w[a])};
    var rest := RootBag(p, w, n, {a as int});
    assert {} + {a as int} == {a as int};
    BagWithout(p, w, n, {}, a);
    PlusMinus(rest, x);
    InBag(p, w, n, {a as int}, b);
    BagSizes(rest, x);
    LeastIs(p, w, n, {}, a);
    LeastIs(p, w, n, {a as int}, b);
  }

  lemma BagSizes(m: multiset<nat>, x: multiset<nat>)
    ensures |m + x| == |m| + |x|
  {
  }

  /** A root that is in no other's way. */
  lemma LeastIs(p: seq<int>, w: seq<int>, n: nat, skip: set<int>, a: nat)
    requires n == |p| <= |w| && Stands(p, w, a, skip) && forall r :: Stands(p, w, r, skip) ==> w[a] <= w[r]
    ensures |RootBag(p, w, n, skip)| > 0 && Weight(w[a]) == Least(RootBag(p, w, n, skip))
  {
    InBag(p, w, n, skip, a);
    hide Weight, RootBag;
    var x := FromBag(p, w, n, skip, Least(RootBag(p, w, n, skip)));
    LighterPacked(w[a], w[x]);
  }

  // ----- the cost so far -----

  /** What has been merged and what is still to be merged make up the cost of the whole. */
  ghost predicate Costed(p: seq<int>, n: nat, w: seq<int>, leaves: seq<nat>) {
    && Forest(p, n) && |leaves| == n && |p| <= |w|
    && Total(leaves, Depths(p, n)) + MergeCost(RootBag(p, w, |p|, {})) == MergeCost(multiset(leaves))
  }

  lemma {:induction false} NothingSent(weights: seq<nat>, lens: seq<nat>)
    requires |weights| == |lens| && forall i :: 0 <= i < |lens| ==> lens[i] == 0
    ensures Total(weights, lens) == 0
  {
    if weights != [] {
      NothingSent(weights[..|weights| - 1], lens[..|lens| - 1]);
    }
  }

  lemma {:induction false} LeafBag(p: seq<int>, w: seq<int>, leaves: seq<nat>, k: nat)
    requires 1 <= k <= |p| == |leaves| + 1 <= |w|
    requires forall i :: 1 <= i < |p| ==> p[i] == -1 && w[i] == leaves[i - 1] * 0x100
    ensures RootBag(p, w, k, {}) == multiset(leaves[..k - 1])
  {
    hide *;
    BagStep(p, w, k, {});
    LeafWeight(p, w, leaves, k - 1);
    if k == 1 {
      NoBag(p, w, {});
    } else {
      LeafBag(p, w, leaves, k - 1);
      assert leaves[..k - 1] == leaves[..k - 2] + [leaves[k - 2]];
    }
  }

  lemma LeafWeight(p: seq<int>, w: seq<int>, leaves: seq<nat>, x: nat)
    requires x < |p| == |leaves| + 1 <= |w|
    requires forall i :: 1 <= i < |p| ==> p[i] == -1 && w[i] == leaves[i - 1] * 0x100
    ensures WeightOf(p, w, x, {}) == if x == 0 then multiset{} else multiset{leaves[x - 1]}
  {
  }

  /** Single leaves. */
  lemma CostStarts(p: seq<int>, n: nat, w: seq<int>, leaves: seq<nat>)
    requires |p| == n + 1 <= |w| && |leaves| == n >= 1
    requires forall i :: 1 <= i <= n ==> p[i] == -1 && w[i] == leaves[i - 1] * 0x100
    ensures Costed(p, n, w, leaves)
  {
    SingleLeaves(p, n);
    hide MergeCost, RootBag, Total, Depths;
    LeafBag(p, w, leaves, n + 1);
    NothingSent(leaves, Depths(p, n));
    assert leaves[..n] == leaves;
  }

  /** The leaves of two trees move down by one level. */
  lemma {:induction false} OneLevelMore(leaves: seq<nat>, owner: seq<nat>, d: seq<nat>, e: seq<nat>, a: nat, b: nat)
    requires |leaves| == |owner| == |d| == |e| && a != b
    requires forall i :: 0 <= i < |d| ==> e[i] == d[i] + if owner[i] == a || owner[i] == b then 1 else 0
    ensures Total(leaves, e) == Total(leaves, d) + SumAt(leaves, owner, a) + SumAt(leaves, owner, b)
    decreases |leaves|
  {
    if leaves != [] {
      var k := |leaves| - 1;
      OneLevelMore(leaves[..k], owner[..k], d[..k], e[..k], a, b);
      MulDistribute(d[k], 1, leaves[k]);
      assert leaves[k] * e[k] == e[k] * leaves[k] && leaves[k] * d[k] == d[k] * leaves[k];
    }
  }

  /** Merging the two lightest trees keeps the cost of the whole. */
  lemma CostMerges(p: seq<int>, n: nat, w: seq<int>, leaves: seq<nat>, m: nat, a: nat, b: nat)
    requires Costed(p, n, w, leaves) && ForestOk(p, n, w, leaves, m) && |p| < |w|
    requires IsRoot(p, a) && IsRoot(p, b) && a != b && w[a] <= w[b] && forall r :: IsRoot(p, r) && r != a ==> w[b] <= w[r]
    ensures Costed(Merge(p, a, b), n, w[|p| := AddWeights(w[a], w[b])], leaves)
  {
    hide *;
    MergeFacts(p, n, w, leaves, m, a, b);
    var q, z := Merge(p, a, b), AddWeights(w[a], w[b]);
    LeastRoots(p, w, a, b);
    BagMerged(p, w, a, b, z);
    MergeCostStep(RootBag(p, w, |p|, {}), Weight(w[a]), Weight(w[b]));
    OneLevelMore(leaves, Owners(p, n), Depths(p, n), Depths(q, n), a, b);
    CostedIs(p, n, w, leaves);
    IsCosted(q, n, w[|p| := z], leaves);
  }

  lemma MergeFacts(p: seq<int>, n: nat, w: seq<int>, leaves: seq<nat>, m: nat, a: nat, b: nat)
    requires ForestOk(p, n, w, leaves, m) && |p| < |w| && IsRoot(p, a) && IsRoot(p, b) && a != b
    ensures a < |p| && b < |p| && Stands(p, w, a, {}) && Stands(p, w, b, {}) && w[a] >= 0 && w[b] >= 0
    ensures Weight(AddWeights(w[a], w[b])) == Weight(w[a]) + Weight(w[b])
    ensures Forest(p, n) && |leaves| == n && Weight(w[a]) == SumAt(leaves, Owners(p, n), a) && Weight(w[b]) == SumAt(leaves, Owners(p, n), b)
    ensures var q := Merge(p, a, b);
      && Forest(q, n) && |q| == |p| + 1 && |Owners(p, n)| == |Depths(p, n)| == |Depths(q, n)| == n
      && forall i :: 0 <= i < n ==> Depths(q, n)[i] == Depths(p, n)[i] + if Owners(p, n)[i] == a || Owners(p, n)[i] == b then 1 else 0
  {
    RootWeight(p, n, w, leaves, m, a);
    RootWeight(p, n, w, leaves, m, b);
    TreesShallow(p, n, w, leaves, m, a);
    TreesShallow(p, n, w, leaves, m, b);
    Unpack(w[a], w[b]);
    MergeVectors(p, n, a, b);
    hide RootOk, Weight, Depth, AddWeights, Owners, Depths, SumAt;
  }

  lemma CostedIs(p: seq<int>, n: nat, w: seq<int>, leaves: seq<nat>)
    requires Costed(p, n, w, leaves)
    ensures Forest(p, n) && |leaves| == n && |p| <= |w|
    ensures Total(leaves, Depths(p, n)) + MergeCost(RootBag(p, w, |p|, {})) == MergeCost(multiset(leaves))
  {
  }

  lemma IsCosted(p: seq<int>, n: nat, w: seq<int>, leaves: seq<nat>)
    requires Forest(p, n) && |leaves| == n && |p| <= |w|
    requires Total(leaves, Depths(p, n)) + MergeCost(RootBag(p, w, |p|, {})) == MergeCost(multiset(leaves))
    ensures Costed(p, n, w, leaves)
  {
  }

  lemma RootWeight(p: seq<int>, n: nat, w: seq<int>, leaves: seq<nat>, m: nat, r: nat)
    requires ForestOk(p, n, w, leaves, m) && IsRoot(p, r)
    ensures w[r] >= 0 && Weight(w[r]) == SumAt(leaves, Owners(p, n), r)
  {
    assert RootOk(p, n, leaves, w[r], m, r);
  }

  lemma {:induction false} OneRootBag(p: seq<int>, w: seq<int>, k: nat)
    requires k <= |p| <= |w| && forall r :: IsRoot(p, r) ==> r == |p| - 1
    ensures |RootBag(p, w, k, {})| <= if k == |p| then 1 else 0
  {
    if k > 0 {
      OneRootBag(p, w, k - 1);
    }
  }

  /** One tree: its code is a cheapest one. */
  lemma CostEnds(p: seq<int>, n: nat, w: seq<int>, leaves: seq<nat>, lens: seq<byte>)
    requires Costed(p, n, w, leaves) && n >= 1 && (forall r :: IsRoot(p, r) ==> r == |p| - 1) && LengthsAre(p, n, lens)
    ensures Cheapest(leaves, lens)
  {
    OneRootBag(p, w, |p|);
    SingleTree(RootBag(p, w, |p|, {}));
    assert Depths(p, n) == lens;
    CostIsCheapest(leaves, lens);
  }
}
