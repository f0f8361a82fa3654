/** mainSort, step 2, the scan from the right, and what the two scans have achieved together. */
module BackScan {
  import opened Numbers
  import opened Permutations
  import opened Rotations
  import opened FallbackOrder
  import opened FallbackQuicksort
  import opened MainOrder
  import opened WordBuckets
  import opened InducedOrder
  import opened BucketScan

  /** What the bucket [t, c] holds: from the left list a, and from the rows s that have been scanned from the right. */
  ghost predicate RightPart(f: seq<int>, b: seq<byte>, c: byte, t: byte, closed: bool, x: int, y: int, a: seq<int>, s: seq<int>) {
    && b != [] && |b| <= |f| && RowsIn(b, s) && RowsIn(b, a)
    && var lo, hi := Start(b, 256 * t as nat + c), Start(b, 256 * t as nat + c + 1);
       && lo <= x <= y + 1 <= hi <= |f|
       && if closed then x == lo && y == hi - 1 else f[lo..x] == Preds(b, a, t) && f[y + 1..hi] == Preds(b, s, t)
  }

  ghost predicate RightState(f: seq<int>, start: seq<int>, f0: seq<int>, b: seq<byte>, c: byte, done: seq<bool>, cs: seq<int>, ce: seq<int>,
                             a: seq<int>, j: int) {
    && Kept(f, start, b, c, done) && |cs| == |ce| == |done| == 256 && !done[c] && b != [] && |b| <= |f| == |start|
    && var first, midEnd, last := Start(b, 256 * c as nat), Start(b, 256 * c as nat + c + 1), Start(b, 256 * c as nat + 256);
       && first <= cs[c] <= ce[c] + 1 <= midEnd <= last <= |b| && ce[c] <= j <= last - 1 && Start(b, 256 * c as nat + c) <= cs[c]
       && (forall t: byte :: RightPart(f, b, c, t, done[t], cs[t], ce[t], a, f[j + 1..last]))
       && f[first..cs[c]] == a && f[midEnd..last] == start[midEnd..last]
       && Good(b, c, a) && OneSide(b, c, a, true)
       && Good(b, c, f[ce[c] + 1..last]) && OneSide(b, c, f[ce[c] + 1..last], false)
       && (j == last - 1 ==> f == f0)
  }

  lemma RightPartNext(f: seq<int>, g: seq<int>, b: seq<byte>, c: byte, t: byte, closed: bool, x: int, y: int, a: seq<int>, s: seq<int>, r: int, y': int)
    requires RightPart(f, b, c, t, closed, x, y, a, s) && 0 <= r < |b| && |g| == |f| && 0 <= Previous(r, |b|) < |b|
    requires var k := Previous(r, |b|);
      if b[k] == t && !closed then x <= y && y' == y - 1 && g[y] == k else y' == y
    requires forall z :: Start(b, 256 * t as nat + c) <= z < Start(b, 256 * t as nat + c + 1) && z < |f| && (z < x || z > y) ==> g[z] == f[z]
    ensures RightPart(g, b, c, t, closed, x, y', a, [r] + s)
  {
    hide Start, Previous;
    var lo, hi, k := Start(b, 256 * t as nat + c), Start(b, 256 * t as nat + c + 1), Previous(r, |b|);
    PredsFirst(b, r, s, t);
    assert f[lo..x] == g[lo..x];
    assert f[y + 1..hi] == g[y + 1..hi];
    if b[k] == t && !closed {
      assert g[y..hi] == [k] + g[y + 1..hi];
    }
  }

  lemma RightScanned(f: seq<int>, start: seq<int>, f0: seq<int>, b: seq<byte>, c: byte, done: seq<bool>, cs: seq<int>, ce: seq<int>, a: seq<int>, j: int)
    requires RightState(f, start, f0, b, c, done, cs, ce, a, j) && j > ce[c]
    ensures |cs| == |ce| == |done| == 256 && b != [] && |b| <= |f|
    ensures var last := Start(b, 256 * c as nat + 256); var u := f[ce[c] + 1..last];
      && 0 <= ce[c] + 1 <= j < last <= |b|
      && 0 <= f[j] < |b|
      && (forall t: byte :: RightPart(f, b, c, t, done[t], cs[t], ce[t], a, f[j + 1..last]))
      && Good(b, c, a) && OneSide(b, c, a, true) && Good(b, c, u) && OneSide(b, c, u, false)
  {
    hide RotKeys, Start, Leaves, Previous, Kept, RightPart;
    var u := f[ce[c] + 1..Start(b, 256 * c as nat + 256)];
    assert u[j - ce[c] - 1] == f[j];
  }

  lemma RightPartMeans(f: seq<int>, b: seq<byte>, c: byte, t: byte, x: int, y: int, a: seq<int>, s: seq<int>)
    requires RightPart(f, b, c, t, false, x, y, a, s)
    ensures b != [] && RowsIn(b, a) && RowsIn(b, s)
    ensures var lo, hi := Start(b, 256 * t as nat + c), Start(b, 256 * t as nat + c + 1);
      && lo <= x <= y + 1 <= hi <= |f|
      && x - lo == |Preds(b, a, t)| && hi - (y + 1) == |Preds(b, s, t)|
  {
    hide Start, Preds;
    var lo, hi := Start(b, 256 * t as nat + c), Start(b, 256 * t as nat + c + 1);
    assert |f[lo..x]| == x - lo && |f[y + 1..hi]| == hi - (y + 1);
  }

  /** A scanned row finds room for its predecessor. */
  lemma RightRow(f: seq<int>, start: seq<int>, f0: seq<int>, b: seq<byte>, c: byte, done: seq<bool>, cs: seq<int>, ce: seq<int>, a: seq<int>, j: int)
    requires RightState(f, start, f0, b, c, done, cs, ce, a, j) && j > ce[c]
    ensures 0 <= j < |f| && 0 <= f[j] < |b| && b != []
    ensures var k := Previous(f[j], |b|);
      && 0 <= k < |b|
      && (!done[b[k]] ==> Start(b, 256 * b[k] as nat + c) <= cs[b[k]] <= ce[b[k]] < Start(b, 256 * b[k] as nat + c + 1) <= |b| <= |f|)
  {
    hide RotKeys, Start, Leaves, Previous;
    var last := Start(b, 256 * c as nat + 256);
    RightScanned(f, start, f0, b, c, done, cs, ce, a, j);
    hide RightState, RightPart, Kept, Good, OneSide;
    var u := f[ce[c] + 1..last];
    var i := j - ce[c] - 1;
    var r := u[i];
    var k := Previous(r, |b|);
    PreviousMeans(b, r);
    var t := b[k];
    if !done[t] {
      var s := f[j + 1..last];
      assert u[i..] == [r] + s;
      PrefixGood(b, c, u, i);
      SideSuffix(b, c, u, i);
      JoinSides(b, c, a, [r] + s);
      RoomFor(b, c, a + ([r] + s), t);
      PredsFirst(b, r, s, t);
      PredsAppend(b, a, [r] + s, t);
      RightPartMeans(f, b, c, t, cs[t], ce[t], a, s);
    }
  }

  lemma SideSuffix(b: seq<byte>, c: byte, u: seq<int>, i: nat)
    requires OneSide(b, c, u, false) && i <= |u|
    ensures OneSide(b, c, u[i..], false)
  {
    hide Leaves;
  }

  lemma RightSkip(f: seq<int>, start: seq<int>, f0: seq<int>, b: seq<byte>, c: byte, done: seq<bool>, cs: seq<int>, ce: seq<int>, a: seq<int>, j: int)
    requires RightState(f, start, f0, b, c, done, cs, ce, a, j) && j > ce[c] && 0 <= j < |f| && 0 <= f[j] < |b|
    requires 0 <= Previous(f[j], |b|) < |b| && done[b[Previous(f[j], |b|)]]
    ensures RightState(f, start, f0, b, c, done, cs, ce, a, j - 1)
  {
    hide RotKeys, Start, Leaves, Previous, RightPart, Good, OneSide, Kept;
    var last := Start(b, 256 * c as nat + 256);
    assert f[j..last] == [f[j]] + f[j + 1..last];
    forall t: byte ensures RightPart(f, b, c, t, done[t], cs[t], ce[t], a, f[j..last]) {
      RightPartNext(f, f, b, c, t, done[t], cs[t], ce[t], a, f[j + 1..last], f[j], ce[t]);
    }
  }

  /** The rows right of [c, c] have larger words. */
  lemma LargeRows(f: seq<int>, b: seq<byte>, c: byte)
    requires AllBuckets(f, b)
    ensures Start(b, 256 * c as nat + c + 1) <= Start(b, 256 * c as nat + 256) <= |f|
    ensures var large := f[Start(b, 256 * c as nat + c + 1)..Start(b, 256 * c as nat + 256)];
      forall i :: 0 <= i < |large| ==> 0 <= large[i] < |b| && Words(b)[large[i]] > 256 * (c as nat) + c
  {
    hide BucketOk, Start, Words;
    BucketsApart(b, c, c);
    var lo, hi := Start(b, 256 * c as nat + c + 1), Start(b, 256 * c as nat + 256);
    var large := f[lo..hi];
    forall i | 0 <= i < |large| ensures 0 <= large[i] < |b| && Words(b)[large[i]] > 256 * (c as nat) + c {
      var u := StretchRow(f, b, 256 * c as nat + c + 1, 256 * c as nat + 256, lo + i);
    }
  }

  /** The state of the scanned big bucket itself. */
  lemma RightOwn(f: seq<int>, start: seq<int>, f0: seq<int>, b: seq<byte>, c: byte, done: seq<bool>, cs: seq<int>, ce: seq<int>, a: seq<int>, j: int)
    requires RightState(f, start, f0, b, c, done, cs, ce, a, j)
    ensures |ce| == 256 && b != []
    ensures var midEnd, last := Start(b, 256 * c as nat + c + 1), Start(b, 256 * c as nat + 256);
      && 0 <= ce[c] + 1 <= midEnd <= last <= |f| == |start| && ce[c] <= j <= last - 1
      && Good(b, c, f[ce[c] + 1..last]) && OneSide(b, c, f[ce[c] + 1..last], false)
      && f[midEnd..last] == start[midEnd..last]
      && RowsIn(b, f[j + 1..last]) && f[ce[c] + 1..midEnd] == Preds(b, f[j + 1..last], c)
  {
    hide RotKeys, Start, Leaves, Preds, Good, OneSide, Kept;
    assert RightPart(f, b, c, c, done[c], cs[c], ce[c], a, f[j + 1..Start(b, 256 * c as nat + 256)]);
  }

  lemma OneMoreAside(b: seq<byte>, c: byte, k: int, u: seq<int>, below: bool)
    requires OneSide(b, c, u, below) && 0 <= k < |b| && Leaves(b, c, k, below)
    ensures OneSide(b, c, [k] + u, below)
  {
    hide Leaves;
  }

  lemma SideAt(b: seq<byte>, c: byte, u: seq<int>, below: bool, i: nat)
    requires OneSide(b, c, u, below) && i < |u|
    ensures 0 <= u[i] < |b| && Leaves(b, c, u[i], below)
  {
    hide Leaves;
  }

  lemma RightListNext(f: seq<int>, start: seq<int>, f0: seq<int>, b: seq<byte>, c: byte, done: seq<bool>, cs: seq<int>, ce: seq<int>, a: seq<int>, j: int)
    requires RightState(f, start, f0, b, c, done, cs, ce, a, j) && j > ce[c] && 0 <= j < |f| && 0 <= f[j] < |b| && AllBuckets(start, b)
    requires 0 <= Previous(f[j], |b|) < |b| && b[Previous(f[j], |b|)] == c
    ensures var u := [Previous(f[j], |b|)] + f[ce[c] + 1..Start(b, 256 * c as nat + 256)]; Good(b, c, u) && OneSide(b, c, u, false)
  {
    hide *;
    RightOwn(f, start, f0, b, c, done, cs, ce, a, j);
    var midEnd, last := Start(b, 256 * c as nat + c + 1), Start(b, 256 * c as nat + 256);
    var u, r := f[ce[c] + 1..last], f[j];
    var k, i, m := Previous(r, |b|), j - ce[c] - 1, midEnd - ce[c] - 1;
    LargeRows(start, b, c);
    var large, s := f[midEnd..last], f[j + 1..last];
    assert u[m..] == large && u[i..] == [r] + s && u[i] == r;
    PrefixGood(b, c, u, m);
    PrefixGood(b, c, u, i);
    GoodRows(b, c, [r] + s);
    PlacedAbove(b, c, [r] + s, large);
    PredsFirst(b, r, s, c);
    var x := Preds(b, s, c);
    assert u == x + large;
    assert [k] + x + large == [k] + (x + large);
    SideAt(b, c, u, false, i);
    LeavesBefore(b, c, r, false);
    OneMoreAside(b, c, k, u, false);
  }

  lemma RightFill(f: seq<int>, start: seq<int>, f0: seq<int>, b: seq<byte>, c: byte, done: seq<bool>, cs: seq<int>, ce: seq<int>, a: seq<int>, j: int,
                  t: byte, y: nat, k: int)
    requires RightState(f, start, f0, b, c, done, cs, ce, a, j) && j > ce[c] && 0 <= j < |f| && 0 <= f[j] < |b| && AllBuckets(start, b)
    requires k == Previous(f[j], |b|) && 0 <= k < |b| && t == b[k] && !done[t]
    requires y == ce[t] && Start(b, 256 * t as nat + c) <= cs[t] <= y < Start(b, 256 * t as nat + c + 1) <= |b| <= |f|
    ensures RightState(f[y := k], start, f0, b, c, done, cs, ce[t := y - 1], a, j - 1)
  {
    hide RotKeys, Start, Leaves, Previous, RightPart, Good, OneSide, Kept, AllBuckets;
    var first, midEnd, last := Start(b, 256 * c as nat), Start(b, 256 * c as nat + c + 1), Start(b, 256 * c as nat + 256);
    var g, ct := f[y := k], ce[t := y - 1];
    var s, r := f[j + 1..last], f[j];
    BucketsApart(b, c, t);
    WriteKept(f, start, b, c, done, t, y, k);
    assert y < j || y >= last;
    assert g[j..last] == [r] + s;
    forall u: byte ensures RightPart(g, b, c, u, done[u], cs[u], ct[u], a, g[j..last]) {
      assert RightPart(f, b, c, u, done[u], cs[u], ce[u], a, s);
      OtherBucketBack(f, b, c, u, done[u], cs[u], ce[u], a, s, t, y);
      RightPartNext(f, g, b, c, u, done[u], cs[u], ce[u], a, s, r, ct[u]);
    }
    assert g[midEnd..last] == f[midEnd..last];
    assert g[first..cs[c]] == f[first..cs[c]];
    if t == c {
      RightListNext(f, start, f0, b, c, done, cs, ce, a, j);
      assert g[ct[c] + 1..last] == [k] + f[ce[c] + 1..last];
    } else {
      assert g[ce[c] + 1..last] == f[ce[c] + 1..last];
    }
  }

  lemma OtherBucketBack(f: seq<int>, b: seq<byte>, c: byte, u: byte, closed: bool, x: int, y: int, a: seq<int>, s: seq<int>, t: byte, z: nat)
    requires RightPart(f, b, c, u, closed, x, y, a, s) && Start(b, 256 * t as nat + c) <= z < Start(b, 256 * t as nat + c + 1)
    ensures u != t ==> z < Start(b, 256 * u as nat + c) || z >= Start(b, 256 * u as nat + c + 1)
    ensures Start(b, 256 * u as nat + c) <= x <= y + 1 <= Start(b, 256 * u as nat + c + 1) <= |f|
  {
    hide Start, Preds;
    if u < t {
      StartMonotone(b, 256 * u as nat + c + 1, 256 * t as nat + c);
    } else if t < u {
      StartMonotone(b, 256 * t as nat + c + 1, 256 * u as nat + c);
    }
  }

  // ----- from the left scan to the right scan -----

  lemma RightStarts(f: seq<int>, start: seq<int>, b: seq<byte>, c: byte, done: seq<bool>, cs: seq<int>, ce: seq<int>)
    requires LeftState(f, start, b, c, done, cs, if |cs| == 256 then cs[c] else 0) && |ce| == 256 && AllBuckets(start, b)
    requires forall t: byte :: ce[t] == Start(b, 256 * t as nat + c + 1) - 1
    requires forall k :: 256 * c as int + c + 1 <= k < 256 * c as int + 256 ==> Finished(start, b, k)
    ensures var first, last := Start(b, 256 * c as nat), Start(b, 256 * c as nat + 256);
      first <= cs[c] <= |f| && RightState(f, start, f, b, c, done, cs, ce, f[first..cs[c]], last - 1)
  {
    hide RotKeys, Start, Leaves, Previous, Good, Finished, AllBuckets, Kept;
    var first, midEnd, last := Start(b, 256 * c as nat), Start(b, 256 * c as nat + c + 1), Start(b, 256 * c as nat + 256);
    var a := f[first..cs[c]];
    BucketsApart(b, c, c);
    StretchGood(start, b, c, 256 * c as nat + c + 1, 256 * c as nat + 256);
    KeptStretch(f, start, b, c, done);
    LargeLeave(start, b, c);
    forall t: byte ensures RightPart(f, b, c, t, done[t], cs[t], ce[t], a, f[last..last]) {
      assert LeftPart(f, b, c, t, done[t], cs[t], a);
    }
  }

  /** The buckets [c, more than c] are not touched. */
  lemma KeptStretch(f: seq<int>, start: seq<int>, b: seq<byte>, c: byte, done: seq<bool>)
    requires Kept(f, start, b, c, done)
    ensures Start(b, 256 * c as nat + c + 1) <= Start(b, 256 * c as nat + 256) <= |f|
    ensures var midEnd, last := Start(b, 256 * c as nat + c + 1), Start(b, 256 * c as nat + 256); f[midEnd..last] == start[midEnd..last]
  {
    hide Start;
    BucketsApart(b, c, c);
    var midEnd, last := Start(b, 256 * c as nat + c + 1), Start(b, 256 * c as nat + 256);
    forall x | midEnd <= x < last ensures f[x] == start[x] {
      var k := InStretch(b, 256 * c as nat + c + 1, 256 * c as nat + 256, x);
      DivUnique(k, 256, c, k - 256 * c as int);
      SamePlace(f, start, b, k, x);
    }
  }

  lemma SamePlace(f: seq<int>, g: seq<int>, b: seq<byte>, k: nat, x: nat)
    requires b != [] && |b| <= |f| == |g| && BucketOf(f, b, k) == BucketOf(g, b, k) && Start(b, k) <= x < Start(b, k + 1)
    ensures f[x] == g[x]
  {
    hide Start;
    assert BucketOf(f, b, k)[x - Start(b, k)] == f[x];
    assert BucketOf(g, b, k)[x - Start(b, k)] == g[x];
  }

  lemma LargeLeave(f: seq<int>, b: seq<byte>, c: byte)
    requires AllBuckets(f, b)
    requires var midEnd, last := Start(b, 256 * c as nat + c + 1), Start(b, 256 * c as nat + 256);
      midEnd <= last <= |f| && Good(b, c, f[midEnd..last])
    ensures OneSide(b, c, f[Start(b, 256 * c as nat + c + 1)..Start(b, 256 * c as nat + 256)], false)
  {
    hide RotKeys, Start, Leaves, Words, At, AllBuckets;
    LargeRows(f, b, c);
    var u := f[Start(b, 256 * c as nat + c + 1)..Start(b, 256 * c as nat + 256)];
    forall i | 0 <= i < |u| ensures Leaves(b, c, u[i], false) {
      AtRow(b, u[i]);
      WordSplit(b, u[i], c);
      ShortRun(b, c, u[i]);
    }
  }

  lemma SmallLeave(f: seq<int>, b: seq<byte>, c: byte)
    requires AllBuckets(f, b)
    requires var first, mid := Start(b, 256 * c as nat), Start(b, 256 * c as nat + c); first <= mid <= |f| && Good(b, c, f[first..mid])
    ensures OneSide(b, c, f[Start(b, 256 * c as nat)..Start(b, 256 * c as nat + c)], true)
  {
    hide RotKeys, Start, Leaves, Words, At, AllBuckets;
    SmallRows(f, b, c);
    var u := f[Start(b, 256 * c as nat)..Start(b, 256 * c as nat + c)];
    forall i | 0 <= i < |u| ensures Leaves(b, c, u[i], true) {
      AtRow(b, u[i]);
      WordSplit(b, u[i], c);
      ShortRun(b, c, u[i]);
    }
  }

  lemma LeftStarts(f: seq<int>, b: seq<byte>, c: byte, done: seq<bool>, cs: seq<int>)
    requires AllBuckets(f, b) && |cs| == |done| == 256 && !done[c]
    requires forall t: byte :: cs[t] == Start(b, 256 * t as nat + c)
    requires forall k :: 256 * c as int <= k < 256 * c as int + c ==> Finished(f, b, k)
    ensures LeftState(f, f, b, c, done, cs, Start(b, 256 * c as nat))
  {
    hide RotKeys, Start, Leaves, Previous, Good, Finished, AllBuckets, OneSide;
    AllBucketsSize(f, b);
    BucketsApart(b, c, c);
    StretchGood(f, b, c, 256 * c as nat, 256 * c as nat + c);
    SmallLeave(f, b, c);
    var first := Start(b, 256 * c as nat);
    forall t: byte ensures LeftPart(f, b, c, t, done[t], cs[t], f[first..first]) {
      BucketsApart(b, c, t);
    }
  }

  lemma AllBucketsSize(f: seq<int>, b: seq<byte>)
    requires AllBuckets(f, b)
    ensures b != [] && |b| <= |f|
  {
  }

  // ----- what the two scans have achieved -----

  /** Every row with a run of c that ends with a smaller byte has been reached. */
  lemma LeftComplete(f: seq<int>, start: seq<int>, b: seq<byte>, c: byte, done: seq<bool>, cs: seq<int>, r: int)
    requires LeftState(f, start, b, c, done, cs, if |cs| == 256 then cs[c] else 0) && AllBuckets(start, b)
    requires 0 <= r < |b| && b[r] == c && Leaves(b, c, r, true)
    ensures var first := Start(b, 256 * c as nat); first <= cs[c] <= |f| && r in f[first..cs[c]]
  {
    hide RotKeys, Start, Previous, At, Kept, Preds, Words, BucketOk;
    var first, mid := Start(b, 256 * c as nat), Start(b, 256 * c as nat + c);
    var a := f[first..cs[c]];
    assert LeftPart(f, b, c, c, done[c], cs[c], a);
    forall q | q in Preds(b, a, c) ensures q in a {
      var i :| 0 <= i < |Preds(b, a, c)| && Preds(b, a, c)[i] == q;
      assert f[mid..cs[c]][i] == a[mid - first + i];
    }
    forall q | 0 <= q < |b| && b[q] == c && At(b, q + 1) != c && (true <==> At(b, q + 1) < c) ensures q in a {
      AtRow(b, q);
      WordSplit(b, q, c);
      var w := 256 * c as nat + At(b, q + 1);
      var x := RowFound(start, b, w, q);
      StartMonotone(b, 256 * c as nat, w);
      StartMonotone(b, w + 1, 256 * c as nat + c);
      assert start[first..mid][x - first] == f[first..mid][x - first] == a[x - first];
    }
    var m: nat :| RunOf(b, c, r, m) && (true <==> At(b, r + m) < c);
    AllReached(b, c, a, true, r, m);
  }

  lemma RightComplete(f: seq<int>, start: seq<int>, f0: seq<int>, b: seq<byte>, c: byte, done: seq<bool>, cs: seq<int>, ce: seq<int>, a: seq<int>, r: int)
    requires RightState(f, start, f0, b, c, done, cs, ce, a, if |ce| == 256 then ce[c] else 0) && AllBuckets(start, b)
    requires 0 <= r < |b| && b[r] == c && Leaves(b, c, r, false)
    ensures var last := Start(b, 256 * c as nat + 256); 0 <= ce[c] + 1 <= last <= |f| && r in f[ce[c] + 1..last]
  {
    hide RotKeys, Start, Previous, At, Kept, Preds, Words, BucketOk;
    var midEnd, last := Start(b, 256 * c as nat + c + 1), Start(b, 256 * c as nat + 256);
    var u := f[ce[c] + 1..last];
    assert RightPart(f, b, c, c, done[c], cs[c], ce[c], a, u);
    forall q | q in Preds(b, u, c) ensures q in u {
      var i :| 0 <= i < |Preds(b, u, c)| && Preds(b, u, c)[i] == q;
      assert f[ce[c] + 1..midEnd][i] == u[i];
    }
    forall q | 0 <= q < |b| && b[q] == c && At(b, q + 1) != c && (false <==> At(b, q + 1) < c) ensures q in u {
      AtRow(b, q);
      WordSplit(b, q, c);
      var w := 256 * c as nat + At(b, q + 1);
      var x := RowFound(start, b, w, q);
      StartMonotone(b, 256 * c as nat + c + 1, w);
      StartMonotone(b, w + 1, 256 * c as nat + 256);
      assert start[midEnd..last][x - midEnd] == f[midEnd..last][x - midEnd] == u[x - ce[c] - 1];
    }
    var m: nat :| RunOf(b, c, r, m) && (false <==> At(b, r + m) < c);
    AllReached(b, c, u, false, r, m);
  }

  /** If all rows that begin with c are in the list, all rows that begin with t and c are before one of them. */
  lemma PredsCover(b: seq<byte>, c: byte, t: byte, s: seq<int>)
    requires Good(b, c, s) && RowsIn(b, s) && forall r :: 0 <= r < |b| && b[r] == c ==> r in s
    ensures b != [] && InOrder(b, Preds(b, s, t)) && RowsWith(Words(b), Preds(b, s, t), 256 * (t as nat) + c)
    ensures |Preds(b, s, t)| == Hits(Words(b), 0, 256 * (t as nat) + c)
  {
    hide RotKeys, Previous, At, Preds, Words, Injective, InOrder, RowsWith;
    var w, p := 256 * (t as nat) + c, Preds(b, s, t);
    GoodRows(b, c, s);
    PredsOrdered(b, c, s, t);
    forall q | 0 <= q < |b| && Words(b)[q] == w ensures q in p {
      AtRow(b, q);
      WordSplit(b, q, t);
      var r := if q + 1 == |b| then 0 else q + 1;
      NextRow(b, q);
      PreviousAt(b, r, 0);
      AtRow(b, r);
      var i :| 0 <= i < |s| && s[i] == r;
      PredsHit(b, s, t, i);
    }
    RowsFit(Words(b), p, w);
  }

  /** If all rows of the big bucket have been scanned, the bucket [t, c] is full and in order. */
  lemma BucketFull(f: seq<int>, b: seq<byte>, c: byte, t: byte, x: int, y: int, a: seq<int>, u: seq<int>)
    requires RightPart(f, b, c, t, false, x, y, a, u) && Good(b, c, a + u)
    requires forall r :: 0 <= r < |b| && b[r] == c ==> r in a + u
    ensures x == y + 1 && Finished(f, b, 256 * t as nat + c)
  {
    hide RotKeys, Start, Previous, At, Preds, Words, Good, InOrder, RowsWith, Finished;
    var w := 256 * (t as nat) + c;
    GoodRows(b, c, a + u);
    PredsCover(b, c, t, a + u);
    PredsAppend(b, a, u, t);
    StartNext(b, w);
    var lo, hi := Start(b, w), Start(b, w + 1);
    assert f[lo..hi] == f[lo..x] + f[y + 1..hi];
    FullSorted(f, b, w, Preds(b, a + u, t));
  }

  lemma GoodRows(b: seq<byte>, c: byte, s: seq<int>)
    requires Good(b, c, s)
    ensures RowsIn(b, s) && b != []
  {
  }

  lemma FullSorted(f: seq<int>, b: seq<byte>, w: nat, p: seq<int>)
    requires b != [] && |b| <= |f| && BucketOf(f, b, w) == p && RowsWith(Words(b), p, w) && InOrder(b, p)
    ensures Finished(f, b, w)
  {
    hide RotKeys, Start, Words, At;
    StartNext(b, w);
    var lo, hi := Start(b, w), Start(b, w + 1);
    assert p == f[lo..hi];
    assert InRange(f, RotKeys(b), lo, hi) by {
      forall i | lo <= i < hi ensures 0 <= f[i] < |b| {
        assert p[i - lo] == f[i];
      }
    }
    forall i, j | lo <= i < j < hi ensures RotKeys(b)[f[i]] <= RotKeys(b)[f[j]] {
      assert p[i - lo] == f[i] && p[j - lo] == f[j];
    }
  }

  // ----- a block of equal bytes -----

  lemma {:induction false} ConstantWords(w: seq<nat>, i: nat, k: nat, l: nat)
    requires i <= |w| && forall p :: 0 <= p < |w| ==> w[p] == k
    ensures Under(w, i, l) == if k < l then |w| - i else 0
    decreases |w| - i
  {
    if i < |w| {
      ConstantWords(w, i + 1, k, l);
    }
  }

  lemma ConstantRows(b: seq<byte>, c: byte, p: int, q: int)
    requires b != [] && (forall i :: 0 <= i < |b| ==> b[i] == c) && 0 <= p < |b| && 0 <= q < |b|
    ensures RotKeys(b)[p] <= RotKeys(b)[q] && Words(b)[p] == 256 * (c as nat) + c
    ensures !Leaves(b, c, p, true) && !Leaves(b, c, p, false)
  {
    hide RotKeys;
    assert Window(b, p, |b|) == Window(b, q, |b|);
    RankOrders(b, p, q);
  }

  lemma ConstantFinished(f: seq<int>, b: seq<byte>, c: byte, w: nat)
    requires (forall i :: 0 <= i < |b| ==> b[i] == c) && BucketOk(f, b, w)
    ensures Finished(f, b, w)
    ensures Start(b, 256 * c as nat) == 0 && Start(b, 256 * c as nat + 256) == |b|
  {
    hide RotKeys, At, Words;
    StartNext(b, w);
    var lo, hi := Start(b, w), Start(b, w + 1);
    forall i | lo <= i < hi ensures 0 <= f[i] < |b| {
      BucketAt(f, b, w, i);
    }
    forall i, j | lo <= i < j < hi ensures RotKeys(b)[f[i]] <= RotKeys(b)[f[j]] {
      ConstantRows(b, c, f[i], f[j]);
    }
    forall p | 0 <= p < |b| ensures Words(b)[p] == 256 * (c as nat) + c {
      ConstantRows(b, c, p, p);
    }
    ConstantWords(Words(b), 0, 256 * (c as nat) + c, 256 * c as nat);
    ConstantWords(Words(b), 0, 256 * (c as nat) + c, 256 * c as nat + 256);
  }

  /** Nothing of a block of equal bytes is reached from either end, so nothing has been written. */
  lemma NothingScanned(b: seq<byte>, c: byte, s: seq<int>, below: bool)
    requires b != [] && (forall i :: 0 <= i < |b| ==> b[i] == c) && OneSide(b, c, s, below)
    ensures s == []
  {
    hide Leaves;
    if s != [] {
      ConstantRows(b, c, s[0], s[0]);
    }
  }

  // ----- the end of the scans -----

  /** The two pointers have met, or all bytes of the block are equal: assertion 1007. And all open buckets [t, c]
      are finished. */
  lemma ScansEnd(f: seq<int>, start: seq<int>, f0: seq<int>, b: seq<byte>, c: byte, done: seq<bool>, cs: seq<int>, ce: seq<int>, a: seq<int>)
    requires AllBuckets(start, b) && |cs| == |ce| == 256
    requires LeftState(f0, start, b, c, done, cs, cs[c]) && RightState(f, start, f0, b, c, done, cs, ce, a, ce[c])
    requires Start(b, 256 * c as nat) <= cs[c] <= |f0| && a == f0[Start(b, 256 * c as nat)..cs[c]]
    ensures cs[c] - 1 == ce[c] || (cs[c] == 0 && ce[c] == |b| - 1)
    ensures forall t: byte :: !done[t] ==> Finished(f, b, 256 * t as nat + c)
  {
    hide RotKeys, Start, Previous, At, Preds, Words, Kept, Leaves, AllBuckets, LeftPart, Good, OneSide, RightPart, Finished;
    var u := f[ce[c] + 1..Start(b, 256 * c as nat + 256)];
    assert RightPart(f, b, c, c, done[c], cs[c], ce[c], a, u);
    if p :| 0 <= p < |b| && b[p] != c {
      forall r | 0 <= r < |b| && b[r] == c ensures r in a + u {
        OtherByte(b, c, r, p);
        if Leaves(b, c, r, true) {
          LeftComplete(f0, start, b, c, done, cs, r);
        } else {
          RightComplete(f, start, f0, b, c, done, cs, ce, a, r);
        }
      }
      JoinSides(b, c, a, u);
      BucketFull(f, b, c, c, cs[c], ce[c], a, u);
      forall t: byte | !done[t] ensures Finished(f, b, 256 * t as nat + c) {
        assert RightPart(f, b, c, t, done[t], cs[t], ce[t], a, u);
        BucketFull(f, b, c, t, cs[t], ce[t], a, u);
      }
    } else {
      NothingScanned(b, c, a, true);
      NothingScanned(b, c, u, false);
      forall t: byte | !done[t] ensures Finished(f, b, 256 * t as nat + c) {
        OkBucket(start, b, 256 * t as nat + c);
        ConstantFinished(f, b, c, 256 * t as nat + c);
      }
      OkBucket(start, b, 256 * c as nat + c);
      ConstantFinished(f, b, c, 256 * c as nat + c);
    }
  }

  lemma OkBucket(f: seq<int>, b: seq<byte>, k: nat)
    requires AllBuckets(f, b) && k < WORDS
    ensures BucketOk(f, b, k)
  {
  }
}
