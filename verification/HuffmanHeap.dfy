/** The heap of BZ2_hbMakeCodeLengths: node numbers ordered by weight, in an array that starts at entry 1 and
    keeps a sentinel in entry 0. */
module HuffmanHeap {
  import opened InPlace

  /** The first n entries of the heap name nodes; entry 0 is the sentinel with weight 0. */
  ghost predicate Entries(h: seq<int>, w: seq<int>, n: nat) {
    && 0 < |w| && n < |h| && h[0] == 0 && w[0] == 0
    && forall i :: 1 <= i <= n ==> 0 < h[i] < |w| && w[h[i]] > 0
  }

  ghost predicate Below(h: seq<int>, w: seq<int>, i: nat, j: nat) {
    i < |h| && j < |h| && 0 <= h[i] < |w| && 0 <= h[j] < |w| && w[h[i]] <= w[h[j]]
  }

  /** Entry i is not lighter than its parent. */
  ghost predicate UnderParent(h: seq<int>, w: seq<int>, i: nat) {
    Below(h, w, i / 2, i)
  }

  /** Entry i is not lighter than its grandparent. */
  ghost predicate UnderGrandparent(h: seq<int>, w: seq<int>, i: nat) {
    Below(h, w, i / 4, i)
  }

  ghost predicate Ordered(h: seq<int>, w: seq<int>, n: nat) {
    Entries(h, w, n) && forall i :: 2 <= i <= n ==> UnderParent(h, w, i)
  }

  /** Ordered but for the pair of z and its parent; the parent of z may take its place. */
  ghost predicate OrderedAbove(h: seq<int>, w: seq<int>, n: nat, z: nat) {
    && Entries(h, w, n) && 1 <= z <= n
    && (forall i :: 2 <= i <= n && i != z ==> UnderParent(h, w, i))
    && (forall i :: 4 <= i <= n && i / 2 == z ==> UnderGrandparent(h, w, i))
  }

  /** Ordered but for the pairs of z and its children; each child may take the place of z. */
  ghost predicate OrderedBelow(h: seq<int>, w: seq<int>, n: nat, z: nat) {
    && Entries(h, w, n) && 1 <= z <= n
    && (forall i :: 2 <= i <= n && i / 2 != z ==> UnderParent(h, w, i))
    && (forall i :: 4 <= i <= n && i / 2 == z ==> UnderGrandparent(h, w, i))
  }

  lemma StepUp(h: seq<int>, w: seq<int>, n: nat, z: nat)
    requires OrderedAbove(h, w, n, z) && z >= 2 && w[h[z]] < w[h[z / 2]]
    ensures OrderedAbove(Swap(h, z, z / 2), w, n, z / 2)
  {
    var g := Swap(h, z, z / 2);
    forall i | 2 <= i <= n && i != z / 2 ensures UnderParent(g, w, i) {
      if i / 2 == z {
        assert UnderGrandparent(h, w, i);
      } else if i != z {
        assert UnderParent(h, w, i);
      }
    }
    forall i | 4 <= i <= n && i / 2 == z / 2 ensures UnderGrandparent(g, w, i) {
      assert UnderParent(h, w, z / 2);
      assert i != z ==> UnderParent(h, w, i);
    }
  }

  lemma StepDown(h: seq<int>, w: seq<int>, n: nat, z: nat, y: nat)
    requires OrderedBelow(h, w, n, z) && y / 2 == z && 2 <= y <= n
    requires w[h[y]] <= w[h[z]]
    requires forall i :: 2 <= i <= n && i / 2 == z ==> Below(h, w, y, i)
    ensures OrderedBelow(Swap(h, z, y), w, n, y)
  {
    var g := Swap(h, z, y);
    forall i | 2 <= i <= n && i / 2 != y ensures UnderParent(g, w, i) {
      if i == z {
        assert z >= 2 ==> UnderGrandparent(h, w, y);
      } else if i / 2 == z {
        assert Below(h, w, y, i);
      } else {
        assert UnderParent(h, w, i);
      }
    }
    forall i | 4 <= i <= n && i / 2 == y ensures UnderGrandparent(g, w, i) {
      assert UnderParent(h, w, i);
    }
  }

  /** UPHEAP in progress: the hole has reached z. */
  ghost predicate Rising(start: seq<int>, heap: seq<int>, full: seq<int>, w: seq<int>, n: nat, z: nat, tmp: int) {
    HoleAt(heap, full, z, tmp) && OrderedAbove(full, w, n, z) && Rearranged(start, full, 0, n + 1)
  }

  /** DOWNHEAP in progress. */
  ghost predicate Sinking(start: seq<int>, heap: seq<int>, full: seq<int>, w: seq<int>, n: nat, z: nat, tmp: int) {
    HoleAt(heap, full, z, tmp) && OrderedBelow(full, w, n, z) && Rearranged(start, full, 0, n + 1)
  }

  lemma RiseOnce(start: seq<int>, heap: seq<int>, full: seq<int>, w: seq<int>, n: nat, z: nat, tmp: int)
    requires Rising(start, heap, full, w, n, z, tmp) && z >= 2
    requires 0 <= tmp < |w| && 0 <= heap[z / 2] < |w| && w[tmp] < w[heap[z / 2]]
    ensures Rising(start, heap[z := heap[z / 2]], Swap(full, z, z / 2), w, n, z / 2, tmp)
  {
    StepUp(full, w, n, z);
    SwapRearranges(start, full, z, z / 2, 0, n + 1);
  }

  lemma SinkOnce(start: seq<int>, heap: seq<int>, full: seq<int>, w: seq<int>, n: nat, z: nat, tmp: int, y: nat)
    requires Sinking(start, heap, full, w, n, z, tmp) && Lighter(heap, w, n, z, y)
    requires 0 <= tmp < |w| && w[heap[y]] <= w[tmp]
    ensures Sinking(start, heap[z := heap[y]], Swap(full, z, y), w, n, y, tmp)
  {
    hide Rearranged, Swap, OrderedBelow;
    LighterInFull(heap, full, w, n, z, tmp, y);
    SwapRearranges(start, full, z, y, 0, n + 1);
    StepDown(full, w, n, z, y);
    HoleMoves(heap, full, z, y, tmp);
  }

  lemma LighterInFull(heap: seq<int>, full: seq<int>, w: seq<int>, n: nat, z: nat, tmp: int, y: nat)
    requires HoleAt(heap, full, z, tmp) && Lighter(heap, w, n, z, y) && 0 <= tmp < |w| && w[heap[y]] <= w[tmp]
    ensures full[y] == heap[y] && full[z] == tmp
    ensures forall i :: 2 <= i <= n && i / 2 == z ==> Below(full, w, y, i)
  {
    forall i | 2 <= i <= n && i / 2 == z ensures Below(full, w, y, i) {
      assert i == 2 * z || i == 2 * z + 1;
    }
  }

  /** y is the lighter child of z. */
  ghost predicate Lighter(heap: seq<int>, w: seq<int>, n: nat, z: nat, y: nat) {
    && n < |heap| && 1 <= z && 2 * z <= n && (y == 2 * z || (y == 2 * z + 1 && y <= n))
    && 0 <= heap[y] < |w| && 0 <= heap[2 * z] < |w| && w[heap[y]] <= w[heap[2 * z]]
    && (2 * z < n ==> 0 <= heap[2 * z + 1] < |w| && w[heap[y]] <= w[heap[2 * z + 1]])
  }

  lemma Peek(heap: seq<int>, full: seq<int>, w: seq<int>, n: nat, z: nat, tmp: int, i: nat)
    requires HoleAt(heap, full, z, tmp) && Entries(full, w, n) && i <= n && i != z
    ensures |heap| == |full| > i && heap[i] == full[i] && 0 <= heap[i] < |w|
  {
  }

  /** UPHEAP: the hole moves up until the parent is not heavier. */
  method UpHeap(heap: array<int>, weight: array<int>, z: nat)
    requires heap != weight && 1 <= z && Entries(heap[..], weight[..], z) && Ordered(heap[..], weight[..], z - 1)
    modifies heap
    ensures Ordered(heap[..], weight[..], z) && Rearranged(old(heap[..]), heap[..], 0, z + 1)
  {
    var zz, tmp := z, heap[z];
    ghost var w, full := weight[..], heap[..];
    assert HoleAt(heap[..], full, z, tmp);
    UpStarts(full, w, z);
    RisingMeans(full, full, full, w, z, z, tmp);
    hide Ordered, Rising, Swap;
    while weight[tmp] < weight[heap[zz / 2]]
      invariant 1 <= zz <= z && weight[..] == w
      invariant 0 <= tmp < weight.Length && 0 <= heap[zz / 2] < weight.Length
      invariant zz == 1 ==> weight[tmp] >= weight[heap[0]]
      invariant Rising(old(heap[..]), heap[..], full, w, z, zz, tmp)
      decreases zz
    {
      ghost var h := heap[..];
      RiseOnce(old(heap[..]), h, full, w, z, zz, tmp);
      full := Swap(full, zz, zz / 2);
      heap[zz] := heap[zz / 2];
      assert heap[..] == h[zz := h[zz / 2]];
      zz := zz / 2;
      RisingMeans(old(heap[..]), heap[..], full, w, z, zz, tmp);
    }
    UpEnds(old(heap[..]), heap[..], full, w, z, zz, tmp);
    ghost var h := heap[..];
    heap[zz] := tmp;
    assert heap[..] == h[zz := tmp];
  }

  lemma UpStarts(h: seq<int>, w: seq<int>, z: nat)
    requires 1 <= z && Entries(h, w, z) && Ordered(h, w, z - 1)
    ensures Rising(h, h, h, w, z, z, h[z])
  {
  }

  lemma RisingMeans(start: seq<int>, heap: seq<int>, full: seq<int>, w: seq<int>, n: nat, z: nat, tmp: int)
    requires Rising(start, heap, full, w, n, z, tmp)
    ensures 1 <= z <= n < |heap| && |full| == |heap| && 0 <= tmp < |w| && 0 <= heap[z / 2] < |w|
    ensures z == 1 ==> w[tmp] >= w[heap[0]]
  {
    hide Rearranged;
    Peek(heap, full, w, n, z, tmp, z / 2);
    assert full[z] == tmp;
  }

  lemma UpEnds(start: seq<int>, heap: seq<int>, full: seq<int>, w: seq<int>, n: nat, z: nat, tmp: int)
    requires Rising(start, heap, full, w, n, z, tmp)
    requires 0 <= tmp < |w| && 0 <= heap[z / 2] < |w| && w[tmp] >= w[heap[z / 2]]
    ensures z < |heap| && Ordered(heap[z := tmp], w, n) && Rearranged(start, heap[z := tmp], 0, n + 1)
  {
    hide Rearranged;
    Peek(heap, full, w, n, z, tmp, z / 2);
  }

  /** DOWNHEAP: the hole moves down to the lighter child until tmp is lighter than that. */
  method DownHeap(heap: array<int>, weight: array<int>, z: nat, nHeap: nat)
    requires heap != weight && 1 <= z <= nHeap && Entries(heap[..], weight[..], nHeap) && OrderedBelow(heap[..], weight[..], nHeap, z)
    modifies heap
    ensures Ordered(heap[..], weight[..], nHeap) && Rearranged(old(heap[..]), heap[..], 0, nHeap + 1)
  {
    hide Ordered, Sinking, Swap, OrderedBelow;
    var zz, tmp := z, heap[z];
    ghost var w, full := weight[..], heap[..];
    DownStarts(full, w, nHeap, z);
    while true
      invariant 1 <= zz <= nHeap && weight[..] == w
      invariant Sinking(old(heap[..]), heap[..], full, w, nHeap, zz, tmp)
      decreases nHeap - zz
    {
      ghost var h := heap[..];
      SinkingMeans(old(heap[..]), h, full, w, nHeap, zz, tmp);
      var yy := 2 * zz;
      if yy > nHeap {
        break;
      }
      if yy < nHeap && weight[heap[yy + 1]] < weight[heap[yy]] {
        yy := yy + 1;
      }
      if weight[tmp] < weight[heap[yy]] {
        break;
      }
      assert Lighter(h, w, nHeap, zz, yy);
      SinkOnce(old(heap[..]), h, full, w, nHeap, zz, tmp, yy);
      full := Swap(full, zz, yy);
      heap[zz] := heap[yy];
      assert heap[..] == h[zz := h[yy]];
      zz := yy;
    }
    ghost var h := heap[..];
    DownEnds(old(heap[..]), h, full, w, nHeap, zz, tmp);
    heap[zz] := tmp;
    assert heap[..] == h[zz := tmp];
  }

  lemma DownStarts(h: seq<int>, w: seq<int>, n: nat, z: nat)
    requires OrderedBelow(h, w, n, z)
    ensures Sinking(h, h, h, w, n, z, h[z])
  {
  }

  lemma SinkingMeans(start: seq<int>, heap: seq<int>, full: seq<int>, w: seq<int>, n: nat, z: nat, tmp: int)
    requires Sinking(start, heap, full, w, n, z, tmp)
    ensures 1 <= z <= n < |heap| == |full| && 0 <= tmp < |w|
    ensures forall i :: 0 <= i <= n && i != z ==> 0 <= heap[i] < |w|
  {
    hide Rearranged;
    assert full[z] == tmp;
    forall i | 0 <= i <= n && i != z ensures 0 <= heap[i] < |w| {
      Peek(heap, full, w, n, z, tmp, i);
    }
  }

  lemma DownEnds(start: seq<int>, heap: seq<int>, full: seq<int>, w: seq<int>, n: nat, z: nat, tmp: int)
    requires Sinking(start, heap, full, w, n, z, tmp) && 1 <= z <= n < |heap| && 0 <= tmp < |w|
    requires forall i :: 2 * z <= i <= n && i <= 2 * z + 1 ==> 0 <= heap[i] < |w| && w[tmp] <= w[heap[i]]
    ensures Ordered(heap[z := tmp], w, n) && Rearranged(start, heap[z := tmp], 0, n + 1)
  {
    hide Rearranged;
    forall i | 2 <= i <= n ensures UnderParent(full, w, i) {
      if i / 2 == z {
        assert full[i] == heap[i];
      }
    }
  }

  /** The first entry is a lightest one. */
  lemma {:induction false} FirstIsLightest(h: seq<int>, w: seq<int>, n: nat, i: nat)
    requires Ordered(h, w, n) && 1 <= i <= n
    ensures w[h[1]] <= w[h[i]]
  {
    if i > 1 {
      FirstIsLightest(h, w, n, i / 2);
      assert UnderParent(h, w, i);
    }
  }
}
