/** BZ2_hbMakeCodeLengths: Huffman code lengths from symbol frequencies, limited by scaling the frequencies. */
module HuffmanLengths {
  import opened Limits
  import opened Numbers
  import opened CanonicalCodes
  import opened HuffmanHeap
  import opened InPlace
  import opened HuffmanForest
  import opened HuffmanBalance
  import opened HuffmanCost

  /** The weights the first pass starts from: a symbol that does not occur counts once. */
  function LeafWeights(freq: seq<int>): (s: seq<nat>)
    requires forall i :: 0 <= i < |freq| ==> freq[i] >= 0
    ensures |s| == |freq| && forall i :: 0 <= i < |s| ==> s[i] >= 1
  {
    seq(|freq|, i requires 0 <= i < |freq| => if freq[i] == 0 then 1 else freq[i])
  }

  /** The sentinel and all roots. */
  ghost function HeapSet(p: seq<int>): set<int> {
    set x: int | 0 <= x < |p| && (x == 0 || p[x] == -1)
  }

  /** The merge loop between two merges: the heap holds exactly the roots. */
  ghost predicate Building(h: seq<int>, w: seq<int>, p: seq<int>, nHeap: nat, n: nat, leaves: seq<nat>, m: nat) {
    && |h| == MAX_ALPHA_SIZE + 2 && |w| == 2 * MAX_ALPHA_SIZE && n <= MAX_ALPHA_SIZE
    && Ordered(h, w, nHeap) && Holds(h, nHeap, multiset(HeapSet(p)))
    && ForestOk(p, n, w, leaves, m)
    && nHeap + |p| == 2 * n + 1 && nHeap >= 1
  }

  /** The entries of the heap, the sentinel among them. */
  ghost predicate Holds(h: seq<int>, nHeap: nat, s: multiset<int>) {
    nHeap < |h| && multiset(h[..nHeap + 1]) == s
  }

  method Push(heap: array<int>, weight: array<int>, nHeap: nat, x: int, ghost s: multiset<int>)
    requires heap != weight && Ordered(heap[..], weight[..], nHeap) && nHeap + 1 < heap.Length && Holds(heap[..], nHeap, s)
    requires 0 < x < weight.Length && weight[x] > 0
    modifies heap
    ensures Ordered(heap[..], weight[..], nHeap + 1) && Holds(heap[..], nHeap + 1, s + multiset{x})
  {
    hide Ordered, Holds;
    ghost var h := heap[..];
    heap[nHeap + 1] := x;
    ghost var g := heap[..];
    assert g == h[nHeap + 1 := x];
    PushOrdered(h, weight[..], nHeap, x, s);
    UpHeap(heap, weight, nHeap + 1);
    RearrangedHolds(g, heap[..], nHeap + 1, s + multiset{x});
  }

  lemma PushOrdered(h: seq<int>, w: seq<int>, nHeap: nat, x: int, s: multiset<int>)
    requires Holds(h, nHeap, s)
    ensures Holds(h[nHeap + 1 := x], nHeap + 1, s + multiset{x})
    requires Ordered(h, w, nHeap) && nHeap + 1 < |h| && 0 < x < |w| && w[x] > 0
    ensures Ordered(h[nHeap + 1 := x], w, nHeap) && Entries(h[nHeap + 1 := x], w, nHeap + 1)
  {
    var g := h[nHeap + 1 := x];
    assert g[..nHeap + 2] == h[..nHeap + 1] + [x];
    forall i | 2 <= i <= nHeap ensures UnderParent(g, w, i) {
      assert UnderParent(h, w, i);
    }
  }

  lemma PopOrdered(h: seq<int>, w: seq<int>, nHeap: nat)
    requires Ordered(h, w, nHeap) && nHeap >= 2
    ensures OrderedBelow(h[1 := h[nHeap]], w, nHeap - 1, 1) && Entries(h[1 := h[nHeap]], w, nHeap - 1)
  {
    var g := h[1 := h[nHeap]];
    forall i | 2 <= i <= nHeap - 1 && i / 2 != 1 ensures UnderParent(g, w, i) {
      assert UnderParent(h, w, i);
    }
  }

  lemma PopRemoves(h: seq<int>, nHeap: nat)
    requires 1 <= nHeap < |h|
    ensures multiset(h[1 := h[nHeap]][..nHeap]) == multiset(h[..nHeap + 1]) - multiset{h[1]}
  {
    var g := h[1 := h[nHeap]];
    if nHeap == 1 {
      assert h[..2] == h[..1] + [h[1]] && g[..1] == h[..1];
    } else {
      assert h[..nHeap + 1] == h[..1] + [h[1]] + h[2..nHeap] + [h[nHeap]];
      assert g[..nHeap] == h[..1] + [h[nHeap]] + h[2..nHeap];
    }
  }

  lemma FirstLightestOfAll(h: seq<int>, w: seq<int>, nHeap: nat)
    requires Ordered(h, w, nHeap) && nHeap >= 1
    ensures forall y :: y in multiset(h[..nHeap + 1]) && y != 0 ==> 0 < y < |w| && w[h[1]] <= w[y]
  {
    forall y | y in multiset(h[..nHeap + 1]) && y != 0 ensures 0 < y < |w| && w[h[1]] <= w[y] {
      var i :| 0 <= i < nHeap + 1 && h[..nHeap + 1][i] == y;
      FirstIsLightest(h, w, nHeap, i);
    }
  }

  /** x is in s, and nothing in s but the sentinel is lighter. */
  ghost predicate Lightest(s: multiset<int>, w: seq<int>, x: int) {
    && x in s && 0 < x < |w|
    && forall y :: y in s && y != 0 ==> 0 < y < |w| && w[x] <= w[y]
  }

  /** Take the lightest entry out of the heap. On a heap of one entry DOWNHEAP would write that entry back. */
  method PopLightest(heap: array<int>, weight: array<int>, nHeap: nat, ghost s: multiset<int>) returns (x: int)
    requires heap != weight && Ordered(heap[..], weight[..], nHeap) && nHeap >= 1 && Holds(heap[..], nHeap, s)
    modifies heap
    ensures Ordered(heap[..], weight[..], nHeap - 1) && Holds(heap[..], nHeap - 1, s - multiset{x})
    ensures 0 < x < weight.Length && weight[x] > 0 && Lightest(s, weight[..], x)
  {
    hide *;
    ghost var h, w := heap[..], weight[..];
    PopFacts(h, w, nHeap, s);
    x := heap[1];
    heap[1] := heap[nHeap];
    ghost var g := heap[..];
    assert g == h[1 := h[nHeap]];
    if nHeap > 1 {
      PopOrdered(h, w, nHeap);
      DownHeap(heap, weight, 1, nHeap - 1);
      RearrangedHolds(g, heap[..], nHeap - 1, s - multiset{x});
    }
  }

  lemma RearrangedHolds(g: seq<int>, f: seq<int>, nHeap: nat, s: multiset<int>)
    requires Rearranged(g, f, 0, nHeap + 1) && Holds(g, nHeap, s)
    ensures Holds(f, nHeap, s)
  {
    assert g[0..nHeap + 1] == g[..nHeap + 1] && f[0..nHeap + 1] == f[..nHeap + 1];
  }

  lemma PopFacts(h: seq<int>, w: seq<int>, nHeap: nat, s: multiset<int>)
    requires Ordered(h, w, nHeap) && nHeap >= 1 && Holds(h, nHeap, s)
    ensures Entries(h, w, nHeap)
    ensures 0 < h[1] < |w| && w[h[1]] > 0 && Lightest(s, w, h[1])
    ensures nHeap == 1 ==> Ordered(h[1 := h[nHeap]], w, 0)
    ensures Holds(h[1 := h[nHeap]], nHeap - 1, s - multiset{h[1]})
  {
    FirstLightestOfAll(h, w, nHeap);
    PopRemoves(h, nHeap);
    assert h[..nHeap + 1][1] == h[1];
  }

  lemma HeapSetMerged(p: seq<int>, a: nat, b: nat)
    requires IsRoot(p, a) && IsRoot(p, b) && a != b
    ensures multiset(HeapSet(p)) - multiset{a} - multiset{b} + multiset{|p|} == multiset(HeapSet(Merge(p, a, b)))
  {
    var q := Merge(p, a, b);
    forall x: int
      ensures (multiset(HeapSet(p)) - multiset{a} - multiset{b} + multiset{|p|})[x] == multiset(HeapSet(q))[x]
    {
      if 0 <= x < |p| {
        assert q[x] == if x == a || x == b then |p| else p[x];
      }
    }
  }

  lemma SetCount(p: seq<int>, x: int)
    ensures multiset(HeapSet(p))[x] == if x in HeapSet(p) then 1 else 0
  {
  }

  lemma OrderedApart(h: seq<int>, w: seq<int>, nHeap: nat, k: nat, v: int)
    requires Ordered(h, w, nHeap) && 0 < k < |w| && forall i :: 1 <= i <= nHeap ==> h[i] != k
    ensures Ordered(h, w[k := v], nHeap)
  {
    var u := w[k := v];
    forall i | 2 <= i <= nHeap ensures UnderParent(h, u, i) {
      assert UnderParent(h, w, i);
    }
  }

  /** The two entries taken from the heap are the two lightest roots. */
  lemma LightestRoots(p: seq<int>, w: seq<int>, a: int, b: int)
    requires |p| <= |w|
    requires Lightest(multiset(HeapSet(p)), w, a) && Lightest(multiset(HeapSet(p)) - multiset{a}, w, b)
    ensures IsRoot(p, a) && IsRoot(p, b) && a != b && w[a] <= w[b]
    ensures forall r :: IsRoot(p, r) && r != a ==> w[b] <= w[r]
  {
    SetCount(p, a);
    forall r | IsRoot(p, r) && r != a ensures w[b] <= w[r] {
      assert r in multiset(HeapSet(p)) - multiset{a};
    }
  }

  lemma HeapEntryBelow(h: seq<int>, nHeap: nat, p: seq<int>, a: int, b: int)
    requires Holds(h, nHeap, multiset(HeapSet(p)) - multiset{a} - multiset{b})
    ensures forall i :: 1 <= i <= nHeap ==> h[i] != |p|
  {
    forall i | 1 <= i <= nHeap ensures h[i] != |p| {
      assert h[..nHeap + 1][i] in multiset(h[..nHeap + 1]);
    }
  }

  /** The heap after both have been taken out, the new node not yet in. */
  ghost predicate Halfway(h: seq<int>, w: seq<int>, p: seq<int>, nHeap: nat, n: nat, leaves: seq<nat>, m: nat, a: int, b: int) {
    && |h| == MAX_ALPHA_SIZE + 2 && |w| == 2 * MAX_ALPHA_SIZE && n <= MAX_ALPHA_SIZE
    && ForestOk(p, n, w, leaves, m) && nHeap + 2 + |p| == 2 * n + 1
    && IsRoot(p, a) && IsRoot(p, b) && a != b && w[a] <= w[b]
    && (forall r :: IsRoot(p, r) && r != a ==> w[b] <= w[r])
    && Ordered(h, w, nHeap)
    && Holds(h, nHeap, multiset(HeapSet(p)) - multiset{a} - multiset{b})
  }

  lemma HalfwayStep(h: seq<int>, w: seq<int>, p: seq<int>, nHeap: nat, n: nat, leaves: seq<nat>, m: nat, a: int, b: int)
    requires Halfway(h, w, p, nHeap, n, leaves, m, a, b) && |p| < |w|
    ensures var z := AddWeights(w[a], w[b]); var q := Merge(p, a, b);
      && 0 < z < 0x8000_0000
      && Ordered(h, w[|p| := z], nHeap)
      && ForestOk(q, n, w[|p| := z], leaves, Weight(w[b]))
      && multiset(HeapSet(p)) - multiset{a} - multiset{b} + multiset{|p|} == multiset(HeapSet(q))
  {
    hide Ordered, ForestOk, Weight, Depth, HeapSet, AddWeights;
    RootPacked(p, n, w, leaves, m);
    var z := AddWeights(w[a], w[b]);
    MergeOk(p, n, w, leaves, m, a, b);
    HeapEntryBelow(h, nHeap, p, a, b);
    OrderedApart(h, w, nHeap, |p|, z);
    HeapSetMerged(p, a, b);
    assert z > 0 by {
      AddPositive(w[a], w[b]);
    }
  }

  lemma AddPositive(x: nat, y: nat)
    ensures AddWeights(x, y) > 0
  {
  }

  lemma RootPacked(p: seq<int>, n: nat, w: seq<int>, leaves: seq<nat>, m: nat)
    requires ForestOk(p, n, w, leaves, m)
    ensures |p| <= |w| && forall r :: IsRoot(p, r) ==> w[r] >= 0
  {
  }

  lemma TwoPopped(h0: seq<int>, h: seq<int>, w: seq<int>, p: seq<int>, nHeap: nat, n: nat, leaves: seq<nat>, m: nat, a: int, b: int)
    requires Building(h0, w, p, nHeap, n, leaves, m) && nHeap >= 2 && |h| == |h0| && Ordered(h, w, nHeap - 2)
    requires Lightest(multiset(HeapSet(p)), w, a)
    requires Lightest(multiset(HeapSet(p)) - multiset{a}, w, b)
    requires Holds(h, nHeap - 2, multiset(HeapSet(p)) - multiset{a} - multiset{b})
    ensures Halfway(h, w, p, nHeap - 2, n, leaves, m, a, b)
  {
    hide Ordered, RootOk, HeapSet, Lightest, IsRoot, Forest;
    LightestRoots(p, w, a, b);
  }

  lemma BuildingMeans(h: seq<int>, w: seq<int>, p: seq<int>, nHeap: nat, n: nat, leaves: seq<nat>, m: nat)
    requires Building(h, w, p, nHeap, n, leaves, m)
    ensures nHeap < |h| && Ordered(h, w, nHeap) && Holds(h, nHeap, multiset(HeapSet(p)))
  {
  }

  /** Take the two lightest roots out of the heap. */
  method PopTwo(heap: array<int>, weight: array<int>, nHeap: nat, ghost p: seq<int>, ghost n: nat, ghost leaves: seq<nat>, ghost m: nat)
    returns (n1: int, n2: int)
    requires heap != weight && nHeap >= 2 && Building(heap[..], weight[..], p, nHeap, n, leaves, m)
    modifies heap
    ensures Halfway(heap[..], weight[..], p, nHeap - 2, n, leaves, m, n1, n2)
  {
    hide *;
    ghost var h0, w, s := heap[..], weight[..], multiset(HeapSet(p));
    BuildingMeans(h0, w, p, nHeap, n, leaves, m);
    n1 := PopLightest(heap, weight, nHeap, s);
    n2 := PopLightest(heap, weight, nHeap - 1, s - multiset{n1});
    TwoPopped(h0, heap[..], w, p, nHeap, n, leaves, m, n1, n2);
  }

  /** One round of the merge loop: the two lightest trees become one. */
  method MergeLightest(heap: array<int>, weight: array<int>, parent: array<int>, nHeap: nat, nNodes: nat,
                       ghost n: nat, ghost leaves: seq<nat>, ghost m: nat)
    returns (ghost m': nat, ghost a: int, ghost b: int)
    requires heap != weight && heap != parent && weight != parent
    requires parent.Length == 2 * MAX_ALPHA_SIZE && nNodes < parent.Length && nHeap >= 2
    requires Building(heap[..], weight[..], parent[..nNodes + 1], nHeap, n, leaves, m)
    modifies heap, weight, parent
    ensures nNodes + 1 < parent.Length
    ensures Building(heap[..], weight[..], parent[..nNodes + 2], nHeap - 1, n, leaves, m')
    ensures weight[..n + 1] == old(weight[..n + 1])
    ensures MergedLightest(old(parent[..nNodes + 1]), old(weight[..]), a, b, parent[..nNodes + 2], weight[..])
  {
    hide Ordered, ForestOk, AddWeights, HeapSet, Weight, Depth, Holds;
    ghost var p, w := parent[..nNodes + 1], weight[..];
    LeavesBelow(p, n, w, leaves, m);
    var n1, n2 := PopTwo(heap, weight, nHeap, p, n, leaves, m);
    ghost var h := heap[..];
    HalfwayStep(h, w, p, nHeap - 2, n, leaves, m, n1, n2);
    var node := nNodes + 1;
    parent[n1], parent[n2] := node, node;
    weight[node] := AddWeights(weight[n1], weight[n2]);
    parent[node] := -1;
    assert parent[..node + 1] == Merge(p, n1, n2);
    assert weight[..] == w[node := AddWeights(w[n1], w[n2])];
    Push(heap, weight, nHeap - 2, node, multiset(HeapSet(p)) - multiset{n1} - multiset{n2});
    m', a, b := Weight(w[n2]), n1, n2;
  }

  /** The trees of a and b, the two lightest, have become one. */
  ghost predicate MergedLightest(p: seq<int>, w: seq<int>, a: int, b: int, q: seq<int>, v: seq<int>) {
    && |p| < |w| && IsRoot(p, a) && IsRoot(p, b) && a != b && 0 <= w[a] <= w[b]
    && (forall r :: IsRoot(p, r) && r != a ==> w[b] <= w[r])
    && q == Merge(p, a, b) && v == w[|p| := AddWeights(w[a], w[b])]
  }

  lemma LeavesBelow(p: seq<int>, n: nat, w: seq<int>, leaves: seq<nat>, m: nat)
    requires ForestOk(p, n, w, leaves, m)
    ensures n < |p| <= |w| && forall r :: IsRoot(p, r) ==> w[r] >= 0
  {
  }

  /** The leaf weights as they stand in the weight array. */
  ghost predicate LeavesAre(w: seq<int>, n: nat, leaves: seq<nat>) {
    && n < |w| && |leaves| == n
    && forall i :: 0 <= i < n ==> leaves[i] >= 1 && w[i + 1] == leaves[i] * 0x100
  }

  /** The leaves before i are in the heap. */
  ghost predicate Filling(h: seq<int>, w: seq<int>, p: seq<int>, i: nat, n: nat, leaves: seq<nat>, s: multiset<int>) {
    && 1 <= i <= n + 1 <= |p| && 0 < |w| && |h| == MAX_ALPHA_SIZE + 2 && p[0] == -2 && LeavesAre(w, n, leaves)
    && (forall k :: 1 <= k < i ==> p[k] == -1)
    && Ordered(h, w, i - 1) && Holds(h, i - 1, s) && forall x: int :: s[x] == if 0 <= x < i then 1 else 0
  }

  lemma FillStarts(h: seq<int>, w: seq<int>, p: seq<int>, n: nat, leaves: seq<nat>)
    requires |h| == MAX_ALPHA_SIZE + 2 && n < |p| && p[0] == -2 && h[0] == 0 && n < |w| && w[0] == 0 && LeavesAre(w, n, leaves)
    ensures Filling(h, w, p, 1, n, leaves, multiset{0})
  {
    assert h[..1] == [0];
  }

  lemma FillStep(h: seq<int>, g: seq<int>, w: seq<int>, p: seq<int>, i: nat, n: nat, leaves: seq<nat>, s: multiset<int>)
    requires Filling(h, w, p, i, n, leaves, s) && i <= n && |g| == |h| && Ordered(g, w, i) && Holds(g, i, s + multiset{i as int})
    ensures Filling(g, w, p[i := -1], i + 1, n, leaves, s + multiset{i as int})
  {
    hide Ordered, Holds;
  }

  lemma FillingMeans(h: seq<int>, w: seq<int>, p: seq<int>, i: nat, n: nat, leaves: seq<nat>, s: multiset<int>)
    requires Filling(h, w, p, i, n, leaves, s)
    ensures i < |h| ==> Ordered(h, w, i - 1) && Holds(h, i - 1, s)
    ensures i <= n ==> i < |p| && i < |w| && w[i] > 0
    ensures LeavesAre(w, n, leaves)
  {
    hide Ordered, Holds;
    if i <= n {
      assert w[(i - 1) + 1] == leaves[i - 1] * 0x100;
    }
  }

  lemma FillEnds(h: seq<int>, w: seq<int>, p: seq<int>, n: nat, leaves: seq<nat>, s: multiset<int>)
    requires Filling(h, w, p, n + 1, n, leaves, s) && |w| == 2 * MAX_ALPHA_SIZE && 2 <= n <= MAX_ALPHA_SIZE && Sum(leaves) < TOTAL
    ensures Building(h, w, p[..n + 1], n, n, leaves, 0)
  {
    hide Ordered, Holds, ForestOk, Sum;
    var q := p[..n + 1];
    assert s == multiset(HeapSet(q)) by {
      forall x: int ensures s[x] == multiset(HeapSet(q))[x] {
        SetCount(q, x);
      }
    }
    forall i | 1 <= i <= n ensures q[i] == -1 && w[i] == leaves[i - 1] * 0x100 && leaves[i - 1] >= 1 {
      assert w[(i - 1) + 1] == leaves[i - 1] * 0x100;
    }
    StartOk(q, n, w, leaves);
  }

  /** All n leaves go into the heap. */
  method FillHeap(heap: array<int>, weight: array<int>, parent: array<int>, n: nat, ghost leaves: seq<nat>)
    requires heap != weight && heap != parent && weight != parent && 2 <= n <= MAX_ALPHA_SIZE
    requires heap.Length == MAX_ALPHA_SIZE + 2 && weight.Length == parent.Length == 2 * MAX_ALPHA_SIZE
    requires LeavesAre(weight[..], n, leaves) && Sum(leaves) < TOTAL
    modifies heap, weight, parent
    ensures Building(heap[..], weight[..], parent[..n + 1], n, n, leaves, 0) && LeavesAre(weight[..], n, leaves)
  {
    hide Filling, LeavesAre, Building, Ordered, Holds, Sum;
    ghost var v := weight[..];
    heap[0], weight[0], parent[0] := 0, 0, -2;
    RootCleared(v, weight[..], n, leaves);
    ghost var s, w := multiset{0}, weight[..];
    FillStarts(heap[..], w, parent[..], n, leaves);
    for i := 1 to n + 1
      invariant weight[..] == w && Filling(heap[..], w, parent[..], i, n, leaves, s)
    {
      ghost var h, p := heap[..], parent[..];
      FillingMeans(h, w, p, i, n, leaves, s);
      parent[i] := -1;
      assert parent[..] == p[i := -1];
      Push(heap, weight, i - 1, i, s);
      FillStep(h, heap[..], w, p, i, n, leaves, s);
      s := s + multiset{i as int};
    }
    FillingMeans(heap[..], w, parent[..], n + 1, n, leaves, s);
    FillEnds(heap[..], w, parent[..], n, leaves, s);
    assert parent[..n + 1] == parent[..][..n + 1];
  }

  lemma RootCleared(v: seq<int>, w: seq<int>, n: nat, leaves: seq<nat>)
    requires LeavesAre(v, n, leaves) && |w| == |v| && forall i :: 0 < i < |v| ==> w[i] == v[i]
    ensures LeavesAre(w, n, leaves)
  {
    forall i | 0 <= i < n ensures leaves[i] >= 1 && w[i + 1] == leaves[i] * 0x100 {
      assert v[i + 1] == leaves[i] * 0x100;
    }
  }

  /** The same, with the round of the merge loop it belongs to when all counts are 1 or 2. */
  method MergeRound(heap: array<int>, weight: array<int>, parent: array<int>, nHeap: nat, nNodes: nat,
                    ghost n: nat, ghost leaves: seq<nat>, ghost m: nat, ghost flat: bool, ghost k: nat, ghost h: nat, ghost early: set<int>)
    returns (ghost m': nat, ghost h': nat, ghost early': set<int>)
    requires heap != weight && heap != parent && weight != parent
    requires parent.Length == 2 * MAX_ALPHA_SIZE && nNodes < parent.Length && nHeap >= 2
    requires Building(heap[..], weight[..], parent[..nNodes + 1], nHeap, n, leaves, m) && LeavesAre(weight[..], n, leaves)
    requires flat ==> Balanced(Roots(parent[..nNodes + 1]), weight[..], k, h, early)
    requires Costed(parent[..nNodes + 1], n, weight[..], leaves)
    modifies heap, weight, parent
    ensures nNodes + 1 < parent.Length
    ensures Building(heap[..], weight[..], parent[..nNodes + 2], nHeap - 1, n, leaves, m') && LeavesAre(weight[..], n, leaves)
    ensures flat ==> Balanced(Roots(parent[..nNodes + 2]), weight[..], k, h', early')
    ensures Costed(parent[..nNodes + 2], n, weight[..], leaves)
  {
    hide *;
    ghost var p, w, a, b := parent[..nNodes + 1], weight[..], 0, 0;
    BuildingForest(heap[..], w, p, nHeap, n, leaves, m);
    m', a, b := MergeLightest(heap, weight, parent, nHeap, nNodes, n, leaves, m);
    LeavesStay(w, weight[..], n, leaves);
    h', early' := h, early;
    MergedMeans(p, w, a, b, parent[..nNodes + 2], weight[..]);
    CostMerges(p, n, w, leaves, m, a, b);
    if flat {
      h', early' := OneMerge(p, n, w, leaves, m, k, h, early, a, b);
    }
  }

  /** One tree from the leaf weights. If they are all 1 or 2, it has at most k levels when 2^k is not below n. */
  method BuildTree(heap: array<int>, weight: array<int>, parent: array<int>, n: nat, ghost leaves: seq<nat>, ghost k: nat)
    returns (nNodes: nat, ghost m: nat)
    requires heap != weight && heap != parent && weight != parent && 2 <= n <= MAX_ALPHA_SIZE
    requires heap.Length == MAX_ALPHA_SIZE + 2 && weight.Length == parent.Length == 2 * MAX_ALPHA_SIZE
    requires LeavesAre(weight[..], n, leaves) && Sum(leaves) < TOTAL
    modifies heap, weight, parent
    ensures nNodes == 2 * n - 1 && Building(heap[..], weight[..], parent[..nNodes + 1], 1, n, leaves, m)
    ensures LeavesAre(weight[..], n, leaves)
    ensures Flat(leaves) && n <= Pow2(k) ==> LowRoots(parent[..nNodes + 1], weight[..], k)
    ensures Costed(parent[..nNodes + 1], n, weight[..], leaves)
  {
    hide *;
    FillHeap(heap, weight, parent, n, leaves);
    ghost var flat, h, early := Flat(leaves) && n <= Pow2(k), 0, Roots(parent[..n + 1]);
    LeavesStand(heap[..], parent[..n + 1], n, weight[..], leaves);
    CostStarts(parent[..n + 1], n, weight[..], leaves);
    if flat {
      FlatStarts(heap[..], parent[..n + 1], n, weight[..], leaves, k);
    }
    nNodes := n;
    var nHeap := n;
    m := 0;
    while nHeap > 1
      invariant 1 <= nHeap <= n && nHeap + nNodes == 2 * n
      invariant Building(heap[..], weight[..], parent[..nNodes + 1], nHeap, n, leaves, m)
      invariant LeavesAre(weight[..], n, leaves)
      invariant flat ==> Balanced(Roots(parent[..nNodes + 1]), weight[..], k, h, early)
      invariant Costed(parent[..nNodes + 1], n, weight[..], leaves)
    {
      m, h, early := MergeRound(heap, weight, parent, nHeap, nNodes, n, leaves, m, flat, k, h, early);
      nHeap, nNodes := nHeap - 1, nNodes + 1;
    }
    assert nNodes < 2 * MAX_ALPHA_SIZE;
    if flat {
      FlatEnds(parent[..nNodes + 1], weight[..], k, h, early);
    }
  }

  ghost predicate Flat(leaves: seq<nat>) {
    forall i :: 0 <= i < |leaves| ==> leaves[i] <= 2
  }

  /** No tree has more than k levels. */
  ghost predicate LowRoots(p: seq<int>, w: seq<int>, k: nat) {
    forall r :: IsRoot(p, r) ==> 0 <= r < |w| && w[r] >= 0 && Depth(w[r]) <= k
  }

  lemma LeavesStand(h: seq<int>, p: seq<int>, n: nat, w: seq<int>, leaves: seq<nat>)
    requires Building(h, w, p, n, n, leaves, 0) && LeavesAre(w, n, leaves) && n >= 2
    ensures |p| == n + 1 <= |w| && |leaves| == n && forall i :: 1 <= i <= n ==> p[i] == -1 && w[i] == leaves[i - 1] * 0x100
  {
    hide Ordered, Holds, RootOk;
    forall i | 1 <= i <= n ensures p[i] == -1 && w[i] == leaves[i - 1] * 0x100 {
      assert w[(i - 1) + 1] == leaves[i - 1] * 0x100;
    }
  }

  lemma FlatStarts(h: seq<int>, p: seq<int>, n: nat, w: seq<int>, leaves: seq<nat>, k: nat)
    requires Building(h, w, p, n, n, leaves, 0) && LeavesAre(w, n, leaves) && Flat(leaves) && n <= Pow2(k) && n >= 2
    ensures Balanced(Roots(p), w, k, 0, Roots(p))
  {
    hide Ordered, Holds, RootOk, Pow2;
    forall i | 1 <= i <= n ensures p[i] == -1 && w[i] == leaves[i - 1] * 0x100 && 1 <= leaves[i - 1] <= 2 {
      assert w[(i - 1) + 1] == leaves[i - 1] * 0x100;
    }
    RoundsStart(p, n, w, leaves, k);
  }

  lemma FlatEnds(p: seq<int>, w: seq<int>, k: nat, h: nat, early: set<int>)
    requires Balanced(Roots(p), w, k, h, early)
    ensures LowRoots(p, w, k)
  {
    hide Balanced, Depth;
    forall r | IsRoot(p, r) ensures 0 <= r < |w| && w[r] >= 0 && Depth(w[r]) <= k {
      RoundsEnd(Roots(p), w, k, h, early, r);
    }
  }

  lemma MergedMeans(p: seq<int>, w: seq<int>, a: int, b: int, q: seq<int>, v: seq<int>)
    requires MergedLightest(p, w, a, b, q, v)
    ensures |p| < |w| && IsRoot(p, a) && IsRoot(p, b) && a != b && 0 <= w[a] <= w[b]
    ensures forall r :: IsRoot(p, r) && r != a ==> w[b] <= w[r]
    ensures q == Merge(p, a, b) && v == w[|p| := AddWeights(w[a], w[b])]
  {
  }

  lemma BuildingForest(h: seq<int>, w: seq<int>, p: seq<int>, nHeap: nat, n: nat, leaves: seq<nat>, m: nat)
    requires Building(h, w, p, nHeap, n, leaves, m)
    ensures ForestOk(p, n, w, leaves, m)
  {
  }

  lemma LeavesStay(w: seq<int>, v: seq<int>, n: nat, leaves: seq<nat>)
    requires LeavesAre(w, n, leaves) && |v| == |w| && v[..n + 1] == w[..n + 1]
    ensures LeavesAre(v, n, leaves)
  {
    forall i | 0 <= i < n ensures leaves[i] >= 1 && v[i + 1] == leaves[i] * 0x100 {
      assert v[..n + 1][i + 1] == w[..n + 1][i + 1];
    }
  }

  /** Count the steps from each leaf to the root. */
  method ReadLengths(parent: array<int>, len: array<byte>, n: nat, nNodes: nat, maxLen: nat, ghost p: seq<int>)
    returns (tooLong: bool)
    requires nNodes < parent.Length && p == parent[..nNodes + 1] && Forest(p, n) && n <= len.Length && maxLen < 256
    requires forall i :: 0 <= i < n ==> Depths(p, n)[i] < 256
    modifies len
    ensures LengthsAre(p, n, len[..n])
    ensures tooLong <==> exists i :: 0 <= i < n && len[i] > maxLen
    ensures len[n..] == old(len[n..])
  {
    tooLong := false;
    for i := 1 to n + 1
      invariant parent[..nNodes + 1] == p
      invariant forall k :: 0 <= k < i - 1 ==> len[k] == Depths(p, n)[k]
      invariant tooLong <==> exists k :: 0 <= k < i - 1 && len[k] > maxLen
      invariant len[n..] == old(len[n..])
    {
      var j: nat, k: nat := 0, i;
      while parent[k] >= 0
        invariant 1 <= k <= nNodes && j + Up(p, n, k) == Up(p, n, i)
        decreases nNodes - k
      {
        assert parent[k] == p[k];
        k := parent[k];
        j := j + 1;
      }
      assert Depths(p, n)[i - 1] == j;
      len[i - 1] := j;
      if j > maxLen {
        tooLong := true;
      }
    }
  }

  /** Halve all counts, keeping them positive. */
  method ScaleCounts(weight: array<int>, n: nat, ghost leaves: seq<nat>) returns (ghost less: seq<nat>)
    requires LeavesAre(weight[..], n, leaves)
    modifies weight
    ensures LeavesAre(weight[..], n, less) && |less| == n == |leaves|
    ensures forall i :: 0 <= i < n ==> leaves[i] >= 1 && less[i] == Scaled(leaves[i])
  {
    less := seq(n, i requires 0 <= i < n => Scaled(leaves[i]));
    ghost var w := weight[..];
    assert forall i :: 0 <= i < n ==> leaves[i] >= 1;
    for i := 1 to n + 1
      invariant weight.Length == |w|
      invariant forall k :: 1 <= k < i ==> weight[k] == less[k - 1] * 0x100
      invariant forall k :: i <= k <= n ==> weight[k] == w[k]
    {
      assert w[i] == leaves[i - 1] * 0x100;
      var j := weight[i] / 0x100;
      j := 1 + j / 2;
      weight[i] := j * 0x100;
    }
  }

  lemma TreeMeans(h: seq<int>, w: seq<int>, p: seq<int>, n: nat, leaves: seq<nat>, m: nat)
    requires Building(h, w, p, 1, n, leaves, m)
    ensures ForestOk(p, n, w, leaves, m) && |p| == 2 * n
    ensures forall i :: 0 <= i < n ==> Depths(p, n)[i] < 33
    ensures n >= 2 ==> forall r :: IsRoot(p, r) ==> r == |p| - 1
  {
    AllShallow(p, n, w, leaves, m);
    if n >= 2 {
      forall r | IsRoot(p, r) ensures r == |p| - 1 {
        OneRoot(h, p, r);
      }
    }
  }

  /** The heap has one entry, so there is one root: the last node, which has no parent to have. */
  lemma OneRoot(h: seq<int>, p: seq<int>, r: int)
    requires Holds(h, 1, multiset(HeapSet(p))) && IsRoot(p, r) && |p| >= 2
    requires exists n :: Forest(p, n)
    ensures r == |p| - 1
  {
    var s := multiset(HeapSet(p));
    assert |s| == 2 by {
      assert |h[..2]| == 2;
    }
    SetCount(p, 0);
    SetCount(p, r);
    SetCount(p, |p| - 1);
    var others := s - multiset{0} - multiset{r};
    assert |others| == 0;
    assert others[|p| - 1] == 0;
  }

  /** Not too long: these are the lengths. */
  lemma LengthsDone(p: seq<int>, n: nat, w: seq<int>, leaves: seq<nat>, m: nat, lens: seq<byte>, d: nat)
    requires ForestOk(p, n, w, leaves, m) && |p| == 2 * n && n >= 2 && forall r :: IsRoot(p, r) ==> r == |p| - 1
    requires LengthsAre(p, n, lens) && d <= 255 && !exists i :: 0 <= i < n && lens[i] > d
    ensures forall i :: 0 <= i < n ==> 1 <= lens[i] <= d
    ensures Kraft(lens, d, d + 1) == Pow2(d)
  {
    hide Kraft, Pow2, RootOk, Sum, Forest;
    FinalKraft(p, n, w, leaves, m, lens, d);
  }

  lemma ForestMeans(p: seq<int>, n: nat, w: seq<int>, leaves: seq<nat>, m: nat)
    requires ForestOk(p, n, w, leaves, m)
    ensures Forest(p, n)
  {
  }

  /** The counts after some rounds of scaling. */
  ghost function Rescaled(weights: seq<nat>, rounds: nat): (s: seq<nat>)
    ensures |s| == |weights|
  {
    if rounds == 0 then weights
    else
      var t := Rescaled(weights, rounds - 1);
      seq(|t|, i requires 0 <= i < |t| => Scaled(t[i]))
  }

  lemma RescaledStep(weights: seq<nat>, rounds: nat, less: seq<nat>)
    requires |less| == |weights| && forall i :: 0 <= i < |less| ==> less[i] == Scaled(Rescaled(weights, rounds)[i])
    ensures less == Rescaled(weights, rounds + 1)
  {
  }

  /** A complete cheapest code for these weights has a code word of more than d bits. */
  ghost predicate TooDeep(weights: seq<nat>, d: nat) {
    exists deep: seq<byte> :: Cheapest(weights, deep) && Kraft(deep, 255, 256) == Pow2(255) && exists i :: 0 <= i < |deep| && deep[i] > d
  }

  lemma IsTooDeep(weights: seq<nat>, d: nat, deep: seq<byte>)
    requires Cheapest(weights, deep) && Kraft(deep, 255, 256) == Pow2(255) && exists i :: 0 <= i < |deep| && deep[i] > d
    ensures TooDeep(weights, d)
  {
  }

  /** The lengths are those of a cheapest code for the counts, scaled as often as it takes to come down to d bits. */
  ghost predicate MadeFor(freq: seq<int>, lens: seq<byte>, d: nat, rounds: nat)
    requires forall i :: 0 <= i < |freq| ==> freq[i] >= 0
  {
    && Cheapest(Rescaled(LeafWeights(freq), rounds), lens)
    && forall r :: 0 <= r < rounds ==> TooDeep(Rescaled(LeafWeights(freq), r), d)
  }

  // ----- what the counts say about the lengths -----

  lemma {:induction false} RescaledOrder(weights: seq<nat>, rounds: nat, i: nat, j: nat)
    requires i < |weights| && j < |weights| && weights[i] >= weights[j]
    ensures Rescaled(weights, rounds)[i] >= Rescaled(weights, rounds)[j]
  {
    if rounds > 0 {
      RescaledOrder(weights, rounds - 1, i, j);
    }
  }

  /** The more frequent symbol never has the longer code word, as long as the counts the code was made from still
      differ. */
  lemma OrderKept(freq: seq<int>, lens: seq<byte>, d: nat, rounds: nat, i: nat, j: nat)
    requires forall k :: 0 <= k < |freq| ==> freq[k] >= 0
    requires MadeFor(freq, lens, d, rounds) && Kraft(lens, 255, 256) <= Pow2(255)
    requires i < |freq| && j < |freq| && freq[i] > freq[j]
    requires Rescaled(LeafWeights(freq), rounds)[i] != Rescaled(LeafWeights(freq), rounds)[j]
    ensures lens[i] <= lens[j]
  {
    hide Kraft, Pow2, Cheapest, TooDeep, Rescaled;
    RescaledOrder(LeafWeights(freq), rounds, i, j);
    CheapestOrders(Rescaled(LeafWeights(freq), rounds), lens, i, j);
  }

  /** Where they do not differ nothing can be said: the code with the two lengths exchanged is as cheap. */
  lemma TiesExchange(weights: seq<nat>, lens: seq<byte>, i: nat, j: nat)
    requires Cheapest(weights, lens) && i < |weights| && j < |weights| && weights[i] == weights[j]
    ensures Cheapest(weights, lens[i := lens[j]][j := lens[i]])
  {
    hide Kraft, Pow2, Total;
    ExchangedTotal(weights, lens, i, j);
  }

  /** So counts alone do not order the lengths: of three symbols, one of which occurs once and the others never, one has
      a shorter code word than the others, and for one of the three inputs it is not the one that occurs. The source
      sees the same weights in all three. */
  lemma CountsDoNotOrder(lens: seq<byte>) returns (freq: seq<int>, i: nat, j: nat)
    requires |lens| == 3 && Kraft(lens, 255, 256) == Pow2(255)
    ensures |freq| == 3 && i < 3 && j < 3 && (forall k :: 0 <= k < 3 ==> freq[k] >= 0) && LeafWeights(freq) == [1, 1, 1]
    ensures freq[i] > freq[j] && lens[i] > lens[j]
  {
    if lens[0] == lens[1] == lens[2] {
      ThreeAlike(lens);
    }
    i, j := if lens[0] > lens[1] || lens[0] > lens[2] then 0 else if lens[1] > lens[0] || lens[1] > lens[2] then 1 else 2, 0;
    j := if lens[i] > lens[0] then 0 else if lens[i] > lens[1] then 1 else 2;
    freq := [0, 0, 0][i := 1];
  }

  lemma ThreeAlike(lens: seq<byte>)
    requires |lens| == 3 && lens[0] == lens[1] == lens[2]
    ensures Kraft(lens, 255, 256) != Pow2(255)
  {
    var l, p := lens[0], Pow2(255 - lens[0]);
    assert lens[..2][..1][..0] == [] && lens[..2][1] == l && lens[..2][..1][0] == l;
    assert Kraft(lens, 255, 256) == 3 * p by {
      hide Pow2;
      assert Kraft(lens[..2][..1], 255, 256) == p;
      assert Kraft(lens[..2], 255, 256) == 2 * p;
    }
    Pow2Split(255, l);
    NotThree(l);
    hide Pow2, Kraft;
    if Pow2(l) * p == 3 * p {
      CancelFactor(Pow2(l), 3, p);
    }
  }

  lemma NotThree(l: nat)
    ensures Pow2(l) != 3
  {
    if l > 0 {
      assert Pow2(l) == 2 * Pow2(l - 1);
    }
  }

  /** BZ2_hbMakeCodeLengths: the lengths lie in 1..maxLen and their Kraft sum is exactly 1, and no code is cheaper for
      the counts, scaled as often as it takes to come down to maxLen bits. The loop ends because every scaling lowers the
      sum of the counts, as long as there are maxLen-bit codes for all symbols; by AlwaysTooLong it would not end
      otherwise. */
  method MakeCodeLengths(len: array<byte>, freq: seq<int>, alphaSize: nat, maxLen: nat) returns (ghost rounds: nat)
    requires 2 <= alphaSize <= MAX_ALPHA_SIZE && alphaSize <= len.Length && |freq| == alphaSize
    requires forall i :: 0 <= i < alphaSize ==> freq[i] >= 0
    requires Sum(LeafWeights(freq)) < TOTAL && alphaSize <= Pow2(maxLen) && maxLen < 256
    modifies len
    ensures forall i :: 0 <= i < alphaSize ==> 1 <= len[i] <= maxLen
    ensures Kraft(len[..alphaSize], maxLen, maxLen + 1) == Pow2(maxLen)
    ensures MadeFor(freq, len[..alphaSize], maxLen, rounds)
    ensures len[alphaSize..] == old(len[alphaSize..])
  {
    hide *;
    var heap, weight, parent := new int[MAX_ALPHA_SIZE + 2], new int[2 * MAX_ALPHA_SIZE], new int[2 * MAX_ALPHA_SIZE];
    ghost var leaves := LeafWeights(freq);
    rounds := 0;
    NotRescaled(leaves);
    LoadWeights(weight, freq);
    var tooLong := true;
    while tooLong
      invariant LeavesAre(weight[..], alphaSize, leaves) && Sum(leaves) < TOTAL && |leaves| == alphaSize
      invariant leaves == Rescaled(LeafWeights(freq), rounds)
      invariant forall r :: 0 <= r < rounds ==> TooDeep(Rescaled(LeafWeights(freq), r), maxLen)
      invariant fresh(heap) && fresh(weight) && fresh(parent)
      invariant !tooLong ==> forall i :: 0 <= i < alphaSize ==> 1 <= len[i] <= maxLen
      invariant !tooLong ==> Kraft(len[..alphaSize], maxLen, maxLen + 1) == Pow2(maxLen) && Cheapest(leaves, len[..alphaSize])
      invariant len[alphaSize..] == old(len[alphaSize..])
      decreases tooLong, Sum(leaves)
    {
      var nNodes, m := BuildTree(heap, weight, parent, alphaSize, leaves, maxLen);
      ghost var p, w := parent[..nNodes + 1], weight[..];
      TreeMeans(heap[..], w, p, alphaSize, leaves, m);
      ForestMeans(p, alphaSize, w, leaves, m);
      tooLong := ReadLengths(parent, len, alphaSize, nNodes, maxLen, p);
      CostEnds(p, alphaSize, w, leaves, len[..alphaSize]);
      if tooLong {
        LengthsDone(p, alphaSize, w, leaves, m, len[..alphaSize], 255);
        IsTooDeep(leaves, maxLen, len[..alphaSize]);
        ghost var less := ScaleCounts(weight, alphaSize, leaves);
        FlatMeans(p, w, leaves, maxLen);
        ScalingHelps(p, alphaSize, w, leaves, m, len[..alphaSize], less, maxLen);
        RescaledStep(LeafWeights(freq), rounds, less);
        leaves, rounds := less, rounds + 1;
      } else {
        LengthsDone(p, alphaSize, w, leaves, m, len[..alphaSize], maxLen);
      }
    }
    IsMadeFor(freq, len[..alphaSize], maxLen, rounds);
  }

  lemma IsMadeFor(freq: seq<int>, lens: seq<byte>, d: nat, rounds: nat)
    requires forall i :: 0 <= i < |freq| ==> freq[i] >= 0
    requires Cheapest(Rescaled(LeafWeights(freq), rounds), lens)
    requires forall r :: 0 <= r < rounds ==> TooDeep(Rescaled(LeafWeights(freq), r), d)
    ensures MadeFor(freq, lens, d, rounds)
  {
  }

  lemma NotRescaled(weights: seq<nat>)
    ensures Rescaled(weights, 0) == weights
  {
  }

  lemma FlatMeans(p: seq<int>, w: seq<int>, leaves: seq<nat>, k: nat)
    requires Flat(leaves) ==> LowRoots(p, w, k)
    ensures (forall i :: 0 <= i < |leaves| ==> leaves[i] <= 2) ==> forall r :: IsRoot(p, r) ==> 0 <= r < |w| && w[r] >= 0 && Depth(w[r]) <= k
  {
  }

  method LoadWeights(weight: array<int>, freq: seq<int>)
    requires |freq| < weight.Length && forall i :: 0 <= i < |freq| ==> freq[i] >= 0
    modifies weight
    ensures LeavesAre(weight[..], |freq|, LeafWeights(freq))
  {
    for i := 0 to |freq|
      invariant forall k :: 1 <= k <= i ==> weight[k] == LeafWeights(freq)[k - 1] * 0x100
    {
      weight[i + 1] := (if freq[i] == 0 then 1 else freq[i]) * 0x100;
    }
  }
}
