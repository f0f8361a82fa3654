/** mainSort, step 2: one scan of the big bucket of c from each end fills the small buckets [t, c], and [c, c] as well. */
module BucketScan {
  import opened Numbers
  import opened Permutations
  import opened Rotations
  import opened FallbackQuicksort
  import opened MainOrder
  import opened WordBuckets
  import opened InducedOrder

  // ----- stretches of finished buckets -----

  /** The bucket is complete and its rows are in order. */
  ghost predicate Finished(f: seq<int>, b: seq<byte>, k: nat) {
    && BucketOk(f, b, k) && Start(b, k) <= Start(b, k + 1) <= |f|
    && SortedBy(f, RotKeys(b), Start(b, k), Start(b, k + 1))
  }

  /** A smaller word means a smaller row. */
  lemma WordsDecide(b: seq<byte>, p: nat, q: nat)
    requires p < |b| && q < |b| && Words(b)[p] < Words(b)[q]
    ensures RotKeys(b)[p] <= RotKeys(b)[q]
  {
    hide RotKeys, At;
    NoneAgree(b, p, q);
    if At(b, p) < At(b, q) {
      ByteDecides(b, p, q, 0);
    } else {
      AgreeMore(b, p, q, 0);
      ByteDecides(b, p, q, 1);
    }
    RankOrders(b, p, q);
  }

  /** Finished buckets that follow each other form a list of distinct rows in order. */
  lemma StretchOrdered(f: seq<int>, b: seq<byte>, k: nat, l: nat, x: nat, y: nat)
    requires b != [] && |b| <= |f| && k <= l && forall i :: k <= i < l ==> Finished(f, b, i)
    requires Start(b, k) <= x < y < Start(b, l)
    ensures y < |f| && 0 <= f[x] < |b| && 0 <= f[y] < |b|
    ensures RotKeys(b)[f[x]] <= RotKeys(b)[f[y]] && f[x] != f[y]
  {
    hide At, RotKeys, BucketOk, Start, Words;
    var u := InStretch(b, k, l, x);
    var v := InStretch(b, k, l, y);
    assert Finished(f, b, u) && Finished(f, b, v);
    BucketAt(f, b, u, x);
    BucketAt(f, b, v, y);
    PlacesOrdered(b, u, v, x, y);
    PlacesOrdered(b, v, u, y, x);
    if u == v {
      BucketDistinct(f, b, u, x, y);
    } else {
      WordsDecide(b, f[x], f[y]);
    }
  }

  lemma InStretch(b: seq<byte>, k: nat, l: nat, x: nat) returns (u: nat)
    requires b != [] && k <= l && Start(b, k) <= x < Start(b, l)
    ensures k <= u < l && Start(b, u) <= x < Start(b, u + 1)
  {
    hide Start;
    u := WordAt(b, x, l);
    if u < k {
      StartMonotone(b, u + 1, k);
    }
  }

  lemma StretchRow(f: seq<int>, b: seq<byte>, k: nat, l: nat, x: nat) returns (u: nat)
    requires b != [] && |b| <= |f| && k <= l && forall i :: k <= i < l ==> BucketOk(f, b, i)
    requires Start(b, k) <= x < Start(b, l)
    ensures k <= u < l && x < |f| && 0 <= f[x] < |b| && Words(b)[f[x]] == u && Start(b, u) <= x < Start(b, u + 1)
  {
    hide At, BucketOk, Start, Words;
    u := InStretch(b, k, l, x);
    BucketAt(f, b, u, x);
  }

  /** Buckets [c, k..l) form a good list. */
  lemma StretchGood(f: seq<int>, b: seq<byte>, c: byte, k: nat, l: nat)
    requires b != [] && |b| <= |f| && 256 * c as int <= k <= l <= 256 * c as int + 256
    requires forall i :: k <= i < l ==> Finished(f, b, i)
    ensures Start(b, k) <= Start(b, l) <= |f| && Good(b, c, f[Start(b, k)..Start(b, l)])
  {
    hide At, RotKeys, BucketOk, Start, Words, SortedBy;
    StartMonotone(b, k, l);
    var lo, s := Start(b, k), f[Start(b, k)..Start(b, l)];
    forall i | 0 <= i < |s| ensures 0 <= s[i] < |b| && b[s[i]] == c {
      var u := InStretch(b, k, l, lo + i);
      assert Finished(f, b, u);
      BucketAt(f, b, u, lo + i);
      AtRow(b, s[i]);
      WordSplit(b, s[i], c);
    }
    forall i, j | 0 <= i < j < |s| ensures RotKeys(b)[s[i]] <= RotKeys(b)[s[j]] && s[i] != s[j] {
      StretchOrdered(f, b, k, l, lo + i, lo + j);
    }
  }

  lemma WordSplit(b: seq<byte>, r: int, c: byte)
    requires 0 <= r < |b|
    ensures 256 * c as int <= Words(b)[r] < 256 * c as int + 256 <==> At(b, r) == c
    ensures At(b, r) == c ==> Words(b)[r] == 256 * c as int + At(b, r + 1)
  {
    hide At;
  }

  // ----- the scans -----

  /** Other buckets than the [t, c] that are still open stay as they are. */
  ghost predicate Kept(f: seq<int>, start: seq<int>, b: seq<byte>, c: byte, done: seq<bool>) {
    && b != [] && |b| <= |f| == |start| && |done| == 256
    && f[|b|..] == start[|b|..]
    && forall k :: 0 <= k < WORDS && (k % 256 != c || done[k / 256]) ==> BucketOf(f, b, k) == BucketOf(start, b, k)
  }

  /** All rows of the list have runs of c that end with a smaller byte, or all with a larger one. */
  ghost predicate OneSide(b: seq<byte>, c: byte, s: seq<int>, below: bool) {
    b != [] && RowsIn(b, s) && forall i :: 0 <= i < |s| ==> Leaves(b, c, s[i], below)
  }

  /** What the bucket [t, c] has received from the rows s that have been scanned. */
  ghost predicate LeftPart(f: seq<int>, b: seq<byte>, c: byte, t: byte, closed: bool, x: int, s: seq<int>) {
    && b != [] && |b| <= |f| && RowsIn(b, s)
    && var lo, hi := Start(b, 256 * t as nat + c), Start(b, 256 * t as nat + c + 1);
       && lo <= x <= hi <= |f|
       && if closed then x == lo else f[lo..x] == Preds(b, s, t)
  }

  ghost predicate LeftState(f: seq<int>, start: seq<int>, b: seq<byte>, c: byte, done: seq<bool>, cs: seq<int>, j: int) {
    && Kept(f, start, b, c, done) && |cs| == |done| == 256 && !done[c] && b != [] && |b| <= |f| == |start|
    && var first, mid := Start(b, 256 * c as nat), Start(b, 256 * c as nat + c);
       && first <= mid <= cs[c] <= Start(b, 256 * c as nat + c + 1) <= |b| && first <= j <= cs[c]
       && (forall t: byte :: LeftPart(f, b, c, t, done[t], cs[t], f[first..j]))
       && f[first..mid] == start[first..mid]
       && Good(b, c, f[first..cs[c]]) && OneSide(b, c, f[first..cs[c]], true)
       && (j == first ==> f == start)
  }

  lemma PrefixGood(b: seq<byte>, c: byte, s: seq<int>, j: nat)
    requires Good(b, c, s) && j <= |s|
    ensures Good(b, c, s[..j]) && Good(b, c, s[j..])
  {
    hide RotKeys;
  }

  /** Writing into one bucket leaves the others alone. */
  lemma WriteInBucket(f: seq<int>, b: seq<byte>, k: nat, x: nat, v: int, l: nat)
    requires b != [] && |b| <= |f| && Start(b, k) <= x < Start(b, k + 1) && k != l
    ensures x < |b| && BucketOf(f[x := v], b, l) == BucketOf(f, b, l)
  {
    hide Start;
    if k < l {
      StartMonotone(b, k + 1, l);
    } else {
      StartMonotone(b, l + 1, k);
    }
    StartNext(b, l);
  }

  lemma WriteKept(f: seq<int>, start: seq<int>, b: seq<byte>, c: byte, done: seq<bool>, t: byte, x: nat, v: int)
    requires Kept(f, start, b, c, done) && !done[t]
    requires Start(b, 256 * t as nat + c) <= x < Start(b, 256 * t as nat + c + 1)
    ensures x < |b| && Kept(f[x := v], start, b, c, done)
  {
    hide Start, BucketOf;
    var w := 256 * t as nat + c;
    DivUnique(w, 256, t, c);
    var g := f[x := v];
    WriteInBucket(f, b, w, x, v, w + 1);
    forall k | 0 <= k < WORDS && (k % 256 != c || done[k / 256]) ensures BucketOf(g, b, k) == BucketOf(start, b, k) {
      WriteInBucket(f, b, w, x, v, k);
    }
    assert g[|b|..] == f[|b|..];
  }

  /** A row of [c, less than c] comes before the rows of [c, c], and so on. */
  lemma JoinGood(b: seq<byte>, c: byte, s: seq<int>, u: seq<int>)
    requires Good(b, c, s) && Good(b, c, u)
    requires forall i, j :: 0 <= i < |s| && 0 <= j < |u| ==> Words(b)[s[i]] < Words(b)[u[j]]
    ensures Good(b, c, s + u)
  {
    hide RotKeys, At, Words;
    var v := s + u;
    forall i, j | 0 <= i < j < |v| ensures RotKeys(b)[v[i]] <= RotKeys(b)[v[j]] && v[i] != v[j] {
      if i < |s| <= j {
        assert Words(b)[s[i]] < Words(b)[u[j - |s|]];
        WordsDecide(b, v[i], v[j]);
      }
    }
  }

  lemma JoinSides(b: seq<byte>, c: byte, s: seq<int>, u: seq<int>)
    requires Good(b, c, s) && Good(b, c, u) && OneSide(b, c, s, true) && OneSide(b, c, u, false)
    ensures Good(b, c, s + u)
  {
    hide RotKeys, At, Leaves;
    var v := s + u;
    forall i, j | 0 <= i < j < |v| ensures RotKeys(b)[v[i]] <= RotKeys(b)[v[j]] && v[i] != v[j] {
      if i < |s| <= j {
        BelowFirst(b, c, s[i], u[j - |s|]);
      }
    }
  }

  /** There is room for one more row before. */
  lemma RoomFor(b: seq<byte>, c: byte, s: seq<int>, t: byte)
    requires Good(b, c, s)
    ensures |Preds(b, s, t)| <= Start(b, 256 * t as nat + c + 1) - Start(b, 256 * t as nat + c)
  {
    hide RotKeys, At, Preds, Words;
    PredsOrdered(b, c, s, t);
    RowsFit(Words(b), Preds(b, s, t), 256 * (t as nat) + c);
    StartNext(b, 256 * t as nat + c);
  }

  /** The bucket [t, c] lies apart from what is being scanned of [c, ...] on the left. */
  lemma BucketsApart(b: seq<byte>, c: byte, t: byte)
    requires b != []
    ensures t < c ==> Start(b, 256 * t as nat + c + 1) <= Start(b, 256 * c as nat)
    ensures c < t ==> Start(b, 256 * c as nat + 256) <= Start(b, 256 * t as nat + c)
    ensures Start(b, 256 * c as nat) <= Start(b, 256 * c as nat + c) <= Start(b, 256 * c as nat + c + 1) <= Start(b, 256 * c as nat + 256) <= |b|
    ensures Start(b, 256 * t as nat + c) <= Start(b, 256 * t as nat + c + 1) <= |b|
  {
    hide Start;
    StartMonotone(b, 256 * t as nat + c, 256 * t as nat + c + 1);
    StartMonotone(b, 256 * c as nat, 256 * c as nat + c);
    StartMonotone(b, 256 * c as nat + c, 256 * c as nat + c + 1);
    StartMonotone(b, 256 * c as nat + c + 1, 256 * c as nat + 256);
    if t < c {
      StartMonotone(b, 256 * t as nat + c + 1, 256 * c as nat);
    } else if c < t {
      StartMonotone(b, 256 * c as nat + 256, 256 * t as nat + c);
    }
  }

  /** [c, c] and its neighbours in order: what came from the smaller buckets, then what was placed. */
  lemma PlacedGood(b: seq<byte>, c: byte, small: seq<int>, s: seq<int>)
    requires Good(b, c, small) && Good(b, c, s) && forall i :: 0 <= i < |small| ==> Words(b)[small[i]] < 256 * (c as nat) + c
    ensures Good(b, c, small + Preds(b, s, c))
  {
    hide RotKeys, At, Preds, Words;
    var p := Preds(b, s, c);
    PredsOrdered(b, c, s, c);
    forall i | 0 <= i < |p| ensures b[p[i]] == c {
      assert Words(b)[p[i]] == 256 * (c as nat) + c;
      WordSplit(b, p[i], c);
      AtRow(b, p[i]);
    }
    JoinGood(b, c, small, p);
  }

  lemma PlacedAbove(b: seq<byte>, c: byte, s: seq<int>, large: seq<int>)
    requires Good(b, c, large) && Good(b, c, s) && forall i :: 0 <= i < |large| ==> Words(b)[large[i]] > 256 * (c as nat) + c
    ensures Good(b, c, Preds(b, s, c) + large)
  {
    hide RotKeys, At, Preds, Words;
    var p := Preds(b, s, c);
    PredsOrdered(b, c, s, c);
    forall i | 0 <= i < |p| ensures b[p[i]] == c {
      assert Words(b)[p[i]] == 256 * (c as nat) + c;
      WordSplit(b, p[i], c);
      AtRow(b, p[i]);
    }
    JoinGood(b, c, p, large);
  }

  // ----- from the left -----

  /** One more row is scanned: its predecessor goes to the end of the filled part of its bucket. */
  lemma LeftPartNext(f: seq<int>, g: seq<int>, b: seq<byte>, c: byte, t: byte, closed: bool, x: int, s: seq<int>, r: int, x': int)
    requires LeftPart(f, b, c, t, closed, x, s) && 0 <= r < |b| && |g| == |f| && 0 <= Previous(r, |b|) < |b|
    requires var k := Previous(r, |b|);
      if b[k] == t && !closed then x < Start(b, 256 * t as nat + c + 1) && x' == x + 1 && g[x] == k else x' == x
    requires forall y :: Start(b, 256 * t as nat + c) <= y < x && y < |f| ==> g[y] == f[y]
    ensures LeftPart(g, b, c, t, closed, x', s + [r])
  {
    hide Start, Previous;
    var lo, k := Start(b, 256 * t as nat + c), Previous(r, |b|);
    PredsNext(b, s, r, t);
    assert f[lo..x] == g[lo..x];
    if b[k] == t && !closed {
      assert g[lo..x + 1] == g[lo..x] + [k];
    }
  }

  /** What a row that is scanned from the left says about the state. */
  lemma LeftRow(f: seq<int>, start: seq<int>, b: seq<byte>, c: byte, done: seq<bool>, cs: seq<int>, j: int)
    requires LeftState(f, start, b, c, done, cs, j) && j < cs[c]
    ensures 0 <= j < |f| && 0 <= f[j] < |b| && b != []
    ensures var k := Previous(f[j], |b|);
      0 <= k < |b| && (!done[b[k]] ==> Start(b, 256 * b[k] as nat + c) <= cs[b[k]] < Start(b, 256 * b[k] as nat + c + 1) <= |b| <= |f|)
  {
    hide RotKeys, Start, Leaves, Previous;
    var first := Start(b, 256 * c as nat);
    var a := f[first..cs[c]];
    var r := a[j - first];
    var k := Previous(r, |b|);
    PreviousMeans(b, r);
    var t := b[k];
    if !done[t] {
      var s := f[first..j];
      assert a[..j + 1 - first] == s + [r];
      PrefixGood(b, c, a, j + 1 - first);
      RoomFor(b, c, s + [r], t);
      PredsNext(b, s, r, t);
      assert LeftPart(f, b, c, t, done[t], cs[t], s);
    }
  }

  lemma LeftSkip(f: seq<int>, start: seq<int>, b: seq<byte>, c: byte, done: seq<bool>, cs: seq<int>, j: int)
    requires LeftState(f, start, b, c, done, cs, j) && j < cs[c] && 0 <= j < |f| && 0 <= f[j] < |b|
    requires 0 <= Previous(f[j], |b|) < |b| && done[b[Previous(f[j], |b|)]]
    ensures LeftState(f, start, b, c, done, cs, j + 1)
  {
    hide RotKeys, Start, Leaves, Previous, LeftPart, Good, OneSide, Kept;
    var first := Start(b, 256 * c as nat);
    assert f[first..j + 1] == f[first..j] + [f[j]];
    forall t: byte ensures LeftPart(f, b, c, t, done[t], cs[t], f[first..j + 1]) {
      LeftPartNext(f, f, b, c, t, done[t], cs[t], f[first..j], f[j], cs[t]);
    }
  }

  /** The rows left of [c, c] have smaller words. */
  lemma SmallRows(f: seq<int>, b: seq<byte>, c: byte)
    requires AllBuckets(f, b)
    ensures Start(b, 256 * c as nat) <= Start(b, 256 * c as nat + c) <= |f|
    ensures var small := f[Start(b, 256 * c as nat)..Start(b, 256 * c as nat + c)];
      forall i :: 0 <= i < |small| ==> 0 <= small[i] < |b| && Words(b)[small[i]] < 256 * (c as nat) + c
  {
    hide BucketOk, Start, Words;
    BucketsApart(b, c, c);
    var lo, hi := Start(b, 256 * c as nat), Start(b, 256 * c as nat + c);
    var small := f[lo..hi];
    forall i | 0 <= i < |small| ensures 0 <= small[i] < |b| && Words(b)[small[i]] < 256 * (c as nat) + c {
      var u := StretchRow(f, b, 256 * c as nat, 256 * c as nat + c, lo + i);
    }
  }

  /** The left list stays good when a row of [c, c] is appended. */
  lemma LeftListNext(f: seq<int>, start: seq<int>, b: seq<byte>, c: byte, done: seq<bool>, cs: seq<int>, j: int)
    requires LeftState(f, start, b, c, done, cs, j) && j < cs[c] && 0 <= j < |f| && 0 <= f[j] < |b| && AllBuckets(start, b)
    requires 0 <= Previous(f[j], |b|) < |b| && b[Previous(f[j], |b|)] == c
    ensures var a := f[Start(b, 256 * c as nat)..cs[c]] + [Previous(f[j], |b|)]; Good(b, c, a) && OneSide(b, c, a, true)
  {
    hide RotKeys, Start, Leaves, Previous, Words, Preds, Injective, AllBuckets, InOrder;
    var first, mid := Start(b, 256 * c as nat), Start(b, 256 * c as nat + c);
    var a, r := f[first..cs[c]], f[j];
    var k := Previous(r, |b|);
    SmallRows(start, b, c);
    var small, s := f[first..mid], f[first..j];
    assert small == start[first..mid];
    assert a[..mid - first] == small && a[..j + 1 - first] == s + [r] && a[j - first] == r;
    PrefixGood(b, c, a, mid - first);
    PrefixGood(b, c, a, j + 1 - first);
    PlacedGood(b, c, small, s + [r]);
    PredsNext(b, s, r, c);
    assert LeftPart(f, b, c, c, done[c], cs[c], s);
    assert small + Preds(b, s + [r], c) == a + [k];
    LeavesBefore(b, c, r, true);
    assert RowsIn(b, a + [k]);
  }

  lemma LeftFill(f: seq<int>, start: seq<int>, b: seq<byte>, c: byte, done: seq<bool>, cs: seq<int>, j: int, t: byte, x: nat, k: int)
    requires LeftState(f, start, b, c, done, cs, j) && j < cs[c] && 0 <= j < |f| && 0 <= f[j] < |b| && AllBuckets(start, b)
    requires k == Previous(f[j], |b|) && 0 <= k < |b| && t == b[k] && !done[t]
    requires x == cs[t] && Start(b, 256 * t as nat + c) <= x < Start(b, 256 * t as nat + c + 1) <= |b| <= |f|
    ensures LeftState(f[x := k], start, b, c, done, cs[t := x + 1], j + 1)
  {
    hide RotKeys, Start, Leaves, Previous, LeftPart, Good, OneSide, Kept, AllBuckets;
    var first, mid := Start(b, 256 * c as nat), Start(b, 256 * c as nat + c);
    var g, ct := f[x := k], cs[t := x + 1];
    var s, r := f[first..j], f[j];
    BucketsApart(b, c, t);
    WriteKept(f, start, b, c, done, t, x, k);
    assert x < first || x > j;
    assert g[first..j + 1] == s + [r];
    forall u: byte ensures LeftPart(g, b, c, u, done[u], ct[u], g[first..j + 1]) {
      assert LeftPart(f, b, c, u, done[u], cs[u], s);
      OtherBucket(f, b, c, u, done[u], cs[u], s, t, x);
      LeftPartNext(f, g, b, c, u, done[u], cs[u], s, r, ct[u]);
    }
    assert g[first..mid] == f[first..mid];
    if t == c {
      LeftListNext(f, start, b, c, done, cs, j);
      assert g[first..ct[c]] == f[first..cs[c]] + [k];
    } else {
      assert g[first..cs[c]] == f[first..cs[c]];
    }
  }

  /** A place of one bucket [t, c] is not in another one, [u, c]. */
  lemma OtherBucket(f: seq<int>, b: seq<byte>, c: byte, u: byte, closed: bool, y: int, s: seq<int>, t: byte, x: nat)
    requires LeftPart(f, b, c, u, closed, y, s) && Start(b, 256 * t as nat + c) <= x < Start(b, 256 * t as nat + c + 1)
    ensures u != t ==> x < Start(b, 256 * u as nat + c) || x >= Start(b, 256 * u as nat + c + 1)
    ensures Start(b, 256 * u as nat + c) <= y <= Start(b, 256 * u as nat + c + 1) <= |f|
  {
    hide Start, Preds;
    if u < t {
      StartMonotone(b, 256 * u as nat + c + 1, 256 * t as nat + c);
    } else if t < u {
      StartMonotone(b, 256 * t as nat + c + 1, 256 * u as nat + c);
    }
  }
}
