/** mainSort: radix sort by two bytes, then big bucket by big bucket, quicksorting as few small buckets as possible.
    When the budget runs out the sort is abandoned. */
module MainSorting {
  import opened Limits
  import opened Numbers
  import opened Permutations
  import opened Rotations
  import opened InPlace
  import opened FallbackQuicksort
  import opened FallbackOrder
  import opened MainOrder
  import opened ComparisonLog
  import opened MainShellSort
  import opened MainStack
  import opened WordBuckets
  import opened MainRadix
  import opened RunningOrder
  import opened InducedOrder
  import opened BucketScan
  import opened BackScan

  // ----- flags in ftab -----

  /** An entry of ftab without its flag. */
  function Cleared(x: int): int {
    if x / SETMASK % 2 == 1 then x - SETMASK else x
  }

  predicate HasFlag(x: int) {
    x / SETMASK % 2 == 1
  }

  lemma FtabEntry(ftab: seq<int>, b: seq<byte>, flags: seq<bool>, k: nat)
    requires FtabOk(ftab, b, flags) && k <= WORDS
    ensures |ftab| == WORDS + 1 && b != [] && |b| <= 900000 && Cleared(ftab[k]) == Start(b, k) <= |b|
    ensures k < WORDS ==> |flags| == WORDS && HasFlag(ftab[k]) == flags[k]
    ensures k < WORDS ==> ftab[k] == Start(b, k) + if flags[k] then SETMASK else 0
  {
    hide Start;
    StartEnds(b);
    if k < WORDS {
      var s := Start(b, k);
      assert s < SETMASK;
      if flags[k] {
        DivUnique(s + SETMASK, SETMASK, 1, s);
      } else {
        DivUnique(s, SETMASK, 0, s);
      }
    }
  }

  /** ftab[k] |= SETMASK. */
  method SetFlag(ftab: array<int>, k: nat, ghost b: seq<byte>, ghost flags: seq<bool>)
    requires FtabOk(ftab[..], b, flags) && k < WORDS
    modifies ftab
    ensures |flags| == WORDS && FtabOk(ftab[..], b, flags[k := true])
  {
    FtabEntry(ftab[..], b, flags, k);
    if !HasFlag(ftab[k]) {
      ftab[k] := ftab[k] + SETMASK;
    }
  }

  // ----- step 2: scanning -----

  method FindCopies(ftab: array<int>, ss: byte, ghost b: seq<byte>, ghost flags: seq<bool>) returns (copyStart: array<int>, copyEnd: array<int>)
    requires FtabOk(ftab[..], b, flags)
    ensures fresh(copyStart) && fresh(copyEnd) && copyStart != copyEnd && copyStart.Length == copyEnd.Length == 256 && b != []
    ensures forall t: byte :: copyStart[t] == Start(b, 256 * t as nat + ss) && copyEnd[t] == Start(b, 256 * t as nat + ss + 1) - 1
  {
    hide FtabOk, Start, Cleared;
    FtabEntry(ftab[..], b, flags, 0);
    copyStart, copyEnd := new int[256], new int[256];
    for j := 0 to 256
      invariant copyStart != copyEnd && copyStart.Length == copyEnd.Length == 256
      invariant forall t: byte :: t < j ==> copyStart[t] == Start(b, 256 * t as nat + ss) && copyEnd[t] == Start(b, 256 * t as nat + ss + 1) - 1
    {
      FtabEntry(ftab[..], b, flags, 256 * j + ss);
      FtabEntry(ftab[..], b, flags, 256 * j + ss + 1);
      copyStart[j] := Cleared(ftab[256 * j + ss]);
      copyEnd[j] := Cleared(ftab[256 * j + ss + 1]) - 1;
    }
  }

  lemma LeftShape(f: seq<int>, start: seq<int>, b: seq<byte>, c: byte, done: seq<bool>, cs: seq<int>, j: int)
    requires LeftState(f, start, b, c, done, cs, j)
    ensures |cs| == |done| == 256 && b != [] && |b| <= |f| == |start| && Kept(f, start, b, c, done) && j <= cs[c] <= |b|
    ensures Start(b, 256 * c as nat) <= cs[c]
  {
  }

  lemma RightShape(f: seq<int>, start: seq<int>, f0: seq<int>, b: seq<byte>, c: byte, done: seq<bool>, cs: seq<int>, ce: seq<int>, a: seq<int>, j: int)
    requires RightState(f, start, f0, b, c, done, cs, ce, a, j)
    ensures |cs| == |ce| == |done| == 256 && Kept(f, start, b, c, done) && ce[c] <= j && -1 <= ce[c]
  {
  }

  method ScanFromLeft(ptr: array<word>, block: array<byte>, nblock: nat, first: nat, ss: byte, bigDone: array<bool>, copyStart: array<int>, ghost b: seq<byte>)
    requires nblock <= block.Length && block[..nblock] == b && 0 < nblock <= 900000 && AllBuckets(ptr[..], b)
    requires copyStart.Length == bigDone.Length == 256 && first == Start(b, 256 * ss as nat)
    requires LeftState(ptr[..], ptr[..], b, ss, bigDone[..], copyStart[..], first)
    requires (copyStart as object) != ptr && (copyStart as object) != bigDone
    modifies ptr, copyStart
    ensures LeftState(ptr[..], old(ptr[..]), b, ss, bigDone[..], copyStart[..], copyStart[ss])
  {
    hide *;
    ghost var start, done := ptr[..], bigDone[..];
    var j := first;
    LeftShape(ptr[..], start, b, ss, done, copyStart[..], j);
    while j < copyStart[ss]
      invariant LeftState(ptr[..], start, b, ss, done, copyStart[..], j) && first <= j <= copyStart[ss] && bigDone[..] == done
      decreases nblock - j
    {
      ghost var f: seq<int>, cs := ptr[..], copyStart[..];
      LeftRow(f, start, b, ss, done, cs, j);
      LeftShape(f, start, b, ss, done, cs, j);
      var k := ptr[j] as int - 1;
      if k < 0 {
        k := k + nblock;
      }
      PreviousIs(f[j], nblock, k);
      var c1 := block[k];
      assert c1 == b[k] && done[c1] == bigDone[c1];
      if !bigDone[c1] {
        var x := copyStart[c1];
        LeftFill(f, start, b, ss, done, cs, j, c1, x, k);
        ptr[x] := k;
        copyStart[c1] := x + 1;
        assert ptr[..] == f[x := k] && copyStart[..] == cs[c1 := x + 1];
      } else {
        LeftSkip(f, start, b, ss, done, cs, j);
      }
      j := j + 1;
      LeftShape(ptr[..], start, b, ss, done, copyStart[..], j);
    }
  }

  lemma PreviousIs(r: int, n: nat, k: int)
    requires 0 <= r < n && k == if r - 1 < 0 then r - 1 + n else r - 1
    ensures k == Previous(r, n)
  {
  }

  method ScanFromRight(ptr: array<word>, block: array<byte>, nblock: nat, last: int, ss: byte, bigDone: array<bool>, copyStart: array<int>,
                       copyEnd: array<int>, ghost b: seq<byte>, ghost start: seq<int>, ghost a: seq<int>)
    requires nblock <= block.Length && block[..nblock] == b && 0 < nblock <= 900000 && AllBuckets(start, b)
    requires copyStart.Length == copyEnd.Length == bigDone.Length == 256
    requires RightState(ptr[..], start, ptr[..], b, ss, bigDone[..], copyStart[..], copyEnd[..], a, last)
    requires (copyEnd as object) != ptr && (copyEnd as object) != bigDone && copyEnd != copyStart && (copyStart as object) != ptr
    modifies ptr, copyEnd
    ensures RightState(ptr[..], start, old(ptr[..]), b, ss, bigDone[..], copyStart[..], copyEnd[..], a, copyEnd[ss])
  {
    hide *;
    ghost var f0, done, cs := ptr[..], bigDone[..], copyStart[..];
    var j := last;
    RightShape(f0, start, f0, b, ss, done, cs, copyEnd[..], a, j);
    while j > copyEnd[ss]
      invariant RightState(ptr[..], start, f0, b, ss, done, cs, copyEnd[..], a, j) && copyEnd[ss] <= j && -1 <= copyEnd[ss]
      invariant bigDone[..] == done && copyStart[..] == cs
      decreases j + 1
    {
      ghost var f: seq<int>, ce := ptr[..], copyEnd[..];
      RightRow(f, start, f0, b, ss, done, cs, ce, a, j);
      var k := ptr[j] as int - 1;
      if k < 0 {
        k := k + nblock;
      }
      PreviousIs(f[j], nblock, k);
      var c1 := block[k];
      assert c1 == b[k] && done[c1] == bigDone[c1];
      if !bigDone[c1] {
        var y := copyEnd[c1];
        assert cs[c1] == copyStart[c1];
        RightFill(f, start, f0, b, ss, done, cs, ce, a, j, c1, y, k);
        ptr[y] := k;
        copyEnd[c1] := y - 1;
        assert ptr[..] == f[y := k] && copyEnd[..] == ce[c1 := y - 1];
      } else {
        RightSkip(f, start, f0, b, ss, done, cs, ce, a, j);
      }
      j := j - 1;
      RightShape(ptr[..], start, f0, b, ss, done, cs, copyEnd[..], a, j);
    }
  }

  /** Step 2 for the big bucket of ss. */
  method ScanBucket(ptr: array<word>, block: array<byte>, nblock: nat, ftab: array<int>, ss: byte, bigDone: array<bool>,
                    ghost b: seq<byte>, ghost flags: seq<bool>)
    requires nblock <= block.Length && block[..nblock] == b && 0 < nblock <= 900000 && AllBuckets(ptr[..], b)
    requires FtabOk(ftab[..], b, flags) && bigDone.Length == 256 && !bigDone[ss] && (ptr as object) != ftab && (ptr as object) != bigDone
    requires forall k :: 256 * ss as int <= k < 256 * ss as int + 256 && k != 256 * ss as int + ss ==> Finished(ptr[..], b, k)
    modifies ptr
    ensures Kept(ptr[..], old(ptr[..]), b, ss, bigDone[..])
    ensures forall t: byte :: !bigDone[t] ==> Finished(ptr[..], b, 256 * t as nat + ss)
  {
    hide Start, LeftState, RightState, Finished, AllBuckets, FtabOk, Kept, Cleared;
    ghost var start, done := ptr[..], bigDone[..];
    var copyStart, copyEnd := FindCopies(ftab, ss, b, flags);
    FtabEntry(ftab[..], b, flags, 256 * ss as nat);
    FtabEntry(ftab[..], b, flags, 256 * ss as nat + 256);
    var first, last := Cleared(ftab[256 * ss as nat]), Cleared(ftab[256 * ss as nat + 256]) - 1;
    LeftStarts(start, b, ss, done, copyStart[..]);
    ScanFromLeft(ptr, block, nblock, first, ss, bigDone, copyStart, b);
    ghost var f0, cs := ptr[..], copyStart[..];
    assert copyStart[ss] == cs[ss];
    RightStarts(f0, start, b, ss, done, cs, copyEnd[..]);
    ghost var a := f0[first..cs[ss]];
    ScanFromRight(ptr, block, nblock, last, ss, bigDone, copyStart, copyEnd, b, start, a);
    assert copyEnd[ss] == copyEnd[..][ss];
    ScansEnd(ptr[..], start, f0, b, ss, done, cs, copyEnd[..], a);
    assert copyStart[ss] - 1 == copyEnd[ss] || (copyStart[ss] == 0 && copyEnd[ss] == nblock - 1);
    RightShape(ptr[..], start, f0, b, ss, done, cs, copyEnd[..], a, copyEnd[ss]);
  }

  // ----- the state between steps -----

  /** Every row is in its bucket, and the flagged buckets are in order. */
  ghost predicate InProgress(f: seq<int>, b: seq<byte>, flags: seq<bool>) {
    && AllBuckets(f, b) && |flags| == WORDS
    && forall k :: 0 <= k < WORDS && flags[k] ==> Finished(f, b, k)
  }

  /** Flagged are the buckets of finished bytes, and those of ss that step 1 has reached. */
  ghost predicate FlagsAt(flags: seq<bool>, done: seq<bool>, ss: byte, j: int) {
    && |flags| == WORDS && |done| == 256
    && forall k :: 0 <= k < WORDS ==> (flags[k] <==> done[k / 256] || done[k % 256] || (k / 256 == ss && k % 256 < j && k % 256 != ss))
  }

  lemma SameBucketFinished(f: seq<int>, g: seq<int>, b: seq<byte>, k: nat)
    requires b != [] && |b| <= |f| == |g| && BucketOf(f, b, k) == BucketOf(g, b, k)
    ensures BucketOk(f, b, k) ==> BucketOk(g, b, k)
    ensures Finished(f, b, k) ==> Finished(g, b, k)
  {
    hide Start, RotKeys, Words, At;
    StartNext(b, k);
    forall x | Start(b, k) <= x < Start(b, k + 1) ensures f[x] == g[x] {
      SamePlace(f, g, b, k, x);
    }
  }

  lemma OtherBucketsSame(f: seq<int>, g: seq<int>, b: seq<byte>, k: nat, l: nat)
    requires b != [] && |b| <= |f| && Rearranged(f, g, Start(b, k), Start(b, k + 1)) && k != l
    ensures |g| == |f| && BucketOf(f, b, l) == BucketOf(g, b, l)
  {
    hide Start, Rearranged;
    RearrangedSizes(f, g, Start(b, k), Start(b, k + 1));
    StartNext(b, l);
    if k < l {
      StartMonotone(b, k + 1, l);
    } else {
      StartMonotone(b, l + 1, k);
    }
    forall x | Start(b, l) <= x < Start(b, l + 1) ensures f[x] == g[x] {
      var y := RearrangedAt(f, g, Start(b, k), Start(b, k + 1), x);
    }
  }

  lemma RowsRearranged(w: seq<nat>, s: seq<int>, u: seq<int>, k: nat)
    requires RowsWith(w, s, k) && multiset(s) == multiset(u)
    ensures RowsWith(w, u, k)
  {
    RearrangedInjective(s, u);
    forall i | 0 <= i < |u| ensures 0 <= u[i] < |w| && w[u[i]] == k {
      assert u[i] in multiset(s);
    }
  }

  /** One small bucket has been sorted. */
  lemma OneMoreSorted(f: seq<int>, g: seq<int>, b: seq<byte>, flags: seq<bool>, k: nat)
    requires InProgress(f, b, flags) && k < WORDS && Rearranged(f, g, Start(b, k), Start(b, k + 1))
    requires b != [] && SortedBy(g, RotKeys(b), Start(b, k), Start(b, k + 1))
    ensures InProgress(g, b, flags[k := true])
  {
    hide Start, RotKeys, Words, At, RowsWith, Finished, SortedBy;
    AllBucketsSize(f, b);
    SortedFinished(f, g, b, k);
    forall l | 0 <= l < WORDS && l != k ensures BucketOk(g, b, l) && (flags[l] ==> Finished(g, b, l)) {
      OtherBucketsSame(f, g, b, k, l);
      SameBucketFinished(f, g, b, l);
    }
  }

  lemma SortedFinished(f: seq<int>, g: seq<int>, b: seq<byte>, k: nat)
    requires BucketOk(f, b, k) && Rearranged(f, g, Start(b, k), Start(b, k + 1)) && SortedBy(g, RotKeys(b), Start(b, k), Start(b, k + 1))
    ensures |g| == |f| && Finished(g, b, k) && BucketOk(g, b, k)
  {
    hide Start, RotKeys, Words, At, RowsWith;
    StartNext(b, k);
    RowsRearranged(Words(b), BucketOf(f, b, k), BucketOf(g, b, k), k);
  }

  /** A bucket of one row or none needs no sorting. */
  lemma TinyFinished(f: seq<int>, b: seq<byte>, flags: seq<bool>, k: nat)
    requires InProgress(f, b, flags) && k < WORDS && b != [] && Start(b, k + 1) <= Start(b, k) + 1
    ensures InProgress(f, b, flags[k := true])
  {
    hide Start, RotKeys, Words, At, RowsWith;
    StartNext(b, k);
    assert BucketOk(f, b, k);
    forall x | Start(b, k) <= x < Start(b, k + 1) ensures 0 <= f[x] < |b| {
      BucketAt(f, b, k, x);
    }
  }

  /** The rows of a small bucket share two bytes. */
  lemma BucketShared(f: seq<int>, b: seq<byte>, k: nat)
    requires BucketOk(f, b, k)
    ensures Start(b, k) <= Start(b, k + 1) <= |f| && Shared(b, f, Start(b, k), Start(b, k + 1), 2)
  {
    hide Start, RotKeys, At;
    StartNext(b, k);
    var lo, hi := Start(b, k), Start(b, k + 1);
    forall i | lo <= i < hi ensures 0 <= f[i] < |b| {
      BucketAt(f, b, k, i);
    }
    forall i, j | lo <= i < hi && lo <= j < hi ensures Window(b, f[i], 2) == Window(b, f[j], 2) {
      BucketAt(f, b, k, i);
      BucketAt(f, b, k, j);
      assert Window(b, f[i], 2) == [At(b, f[i]), At(b, f[i] + 1)] && Window(b, f[j], 2) == [At(b, f[j]), At(b, f[j] + 1)];
    }
  }

  lemma ProgressMeans(f: seq<int>, b: seq<byte>, flags: seq<bool>, k: nat)
    requires InProgress(f, b, flags) && k < WORDS
    ensures AllBuckets(f, b) && BucketOk(f, b, k) && b != [] && |b| <= |f| && |flags| == WORDS
    ensures flags[k] ==> Finished(f, b, k)
  {
  }

  lemma FlagMeans(flags: seq<bool>, done: seq<bool>, ss: byte, j: int, k: nat)
    requires FlagsAt(flags, done, ss, j) && k < WORDS
    ensures |flags| == WORDS && |done| == 256
    ensures flags[k] <==> done[k / 256] || done[k % 256] || (k / 256 == ss && k % 256 < j && k % 256 != ss)
  {
  }

  lemma FlagSet(flags: seq<bool>, done: seq<bool>, ss: byte, j: byte)
    requires FlagsAt(flags, done, ss, j)
    ensures if j == ss then FlagsAt(flags, done, ss, j as int + 1) else FlagsAt(flags[256 * ss as int + j := true], done, ss, j as int + 1)
  {
    var k := 256 * ss as nat + j;
    DivUnique(k, 256, ss, j);
    var now := if j == ss then flags else flags[k := true];
    forall l | 0 <= l < WORDS
      ensures now[l] <==> done[l / 256] || done[l % 256] || (l / 256 == ss && l % 256 < j as int + 1 && l % 256 != ss)
    {
      assert l == l / 256 * 256 + l % 256;
    }
  }

  /** Only rows of one flagged bucket have been compared, and no two of them more often than there are increments. */
  ghost predicate BucketLog(log: seq<Comparison>, b: seq<byte>, flags: seq<bool>) {
    AtMost(log, 14) && forall k :: 0 <= k < |log| ==> FlaggedPair(log[k], b, flags)
  }

  ghost predicate FlaggedPair(c: Comparison, b: seq<byte>, flags: seq<bool>) {
    b != [] && c.p < |b| && c.q < |b| && Words(b)[c.p] == Words(b)[c.q] < |flags| && flags[Words(b)[c.p]]
  }

  lemma BucketLogStarts(b: seq<byte>, flags: seq<bool>)
    ensures BucketLog([], b, flags)
  {
  }

  lemma BucketLogMeans(log: seq<Comparison>, b: seq<byte>, flags: seq<bool>)
    requires BucketLog(log, b, flags)
    ensures AtMost(log, 14)
  {
  }

  lemma BucketLogGrows(log: seq<Comparison>, b: seq<byte>, flags: seq<bool>, flags': seq<bool>)
    requires BucketLog(log, b, flags) && |flags'| == |flags| && forall k :: 0 <= k < |flags| && flags[k] ==> flags'[k]
    ensures BucketLog(log, b, flags')
  {
    hide AtMost, Words;
    forall k | 0 <= k < |log| ensures FlaggedPair(log[k], b, flags') {
      assert FlaggedPair(log[k], b, flags);
    }
  }

  lemma ComparedFlagged(log: seq<Comparison>, b: seq<byte>, flags: seq<bool>, p: int, q: int)
    requires BucketLog(log, b, flags) && Times(log, p, q) > 0
    ensures b != [] && 0 <= p < |b| && 0 <= q < |b| && Words(b)[p] == Words(b)[q] < |flags| && flags[Words(b)[p]]
  {
    hide Times, Words;
    var k := Found(log, p, q);
    assert FlaggedPair(log[k], b, flags);
  }

  /** A bucket has been sorted that had no flag. */
  lemma BucketLogMore(log: seq<Comparison>, more: seq<Comparison>, f: seq<int>, b: seq<byte>, flags: seq<bool>, k: nat)
    requires BucketLog(log, b, flags) && k < |flags| && !flags[k] && BucketOk(f, b, k)
    requires ComparedWithin(more, f, Start(b, k), Start(b, k + 1), 14)
    ensures BucketLog(log + more, b, flags[k := true])
  {
    hide Start, Times, Words, At;
    var rows := f[Start(b, k)..Start(b, k + 1)];
    forall p | p in rows ensures 0 <= p < |b| && Words(b)[p] == k {
      var i :| 0 <= i < |rows| && rows[i] == p;
      BucketAt(f, b, k, Start(b, k) + i);
    }
    forall p, q ensures Times(log + more, p, q) <= 14 {
      TimesTwice(log, more, p, q);
      if Times(log, p, q) > 0 {
        ComparedFlagged(log, b, flags, p, q);
        NotAmong(more, rows, p, q);
      }
    }
    forall j | 0 <= j < |log + more| ensures FlaggedPair((log + more)[j], b, flags[k := true]) {
      if j < |log| {
        assert FlaggedPair(log[j], b, flags);
      } else {
        assert more[j - |log|].p in rows && more[j - |log|].q in rows;
      }
    }
  }

  lemma FlagsGrow(flags: seq<bool>, flags': seq<bool>, done: seq<bool>, ss: byte, next: byte)
    requires FlagsAt(flags, done, ss, 256) && |done| == 256 && FlagsAt(flags', done[ss := true], next, 0)
    ensures |flags| == |flags'| && forall k :: 0 <= k < |flags| && flags[k] ==> flags'[k]
  {
  }

  /** Step 1: the small buckets of ss other than [ss, ss] are sorted, unless that has been done before. */
  method SortSmallBuckets(ptr: array<word>, block: array<byte>, quadrant: array<ushort>, nblock: nat, ftab: array<int>, ss: byte, budget: int,
                          ghost b: seq<byte>, ghost flags: seq<bool>, ghost done: seq<bool>, ghost first: int, ghost was: seq<Comparison>)
    returns (left: int, ghost flags': seq<bool>, ghost log: seq<Comparison>)
    requires Readable(block[..], quadrant[..], nblock, b) && InProgress(ptr[..], b, flags) && FtabOk(ftab[..], b, flags)
    requires FlagsAt(flags, done, ss, 0) && (ptr as object) != ftab && budget >= 0
    requires (ptr as object) != block && (ptr as object) != quadrant && (ftab as object) != block && (ftab as object) != quadrant
    requires Charged(b, first, budget, was) && BucketLog(was, b, flags)
    modifies ptr, ftab
    ensures left >= 0 ==> InProgress(ptr[..], b, flags') && FtabOk(ftab[..], b, flags') && FlagsAt(flags', done, ss, 256)
    ensures Charged(b, first, left, log) && AtMost(log, 14) && (left >= 0 ==> BucketLog(log, b, flags'))
  {
    hide Charged, BucketLog, AtMost, ComparedWithin, Readable, InProgress, FtabOk, FlagsAt, Start, RotKeys, Rearranged, Shared, SortedBy, BucketOk, Words, AllBuckets, Cleared, HasFlag;
    left, flags', log := budget, flags, was;
    BucketLogMeans(log, b, flags);
    for j := 0 to 256
      invariant Readable(block[..], quadrant[..], nblock, b) && InProgress(ptr[..], b, flags') && FtabOk(ftab[..], b, flags')
      invariant FlagsAt(flags', done, ss, j) && left >= 0
      invariant Charged(b, first, left, log) && BucketLog(log, b, flags') && AtMost(log, 14)
    {
      FlagSet(flags', done, ss, j);
      if j != ss {
        var sb := 256 * ss as nat + j;
        FtabEntry(ftab[..], b, flags', sb);
        FtabEntry(ftab[..], b, flags', sb + 1);
        ghost var f := ptr[..];
        ProgressMeans(f, b, flags', sb);
        if !HasFlag(ftab[sb]) {
          var lo, hi := Cleared(ftab[sb]), Cleared(ftab[sb + 1]) - 1;
          if hi > lo {
            BucketShared(f, b, sb);
            ghost var more, before := [], left;
            left, more := MainQSort3(ptr, block, quadrant, nblock, lo, hi, 2, left, b);
            ChargedTwice(b, first, before, left, log, more);
            BucketLogMore(log, more, f, b, flags', sb);
            log := log + more;
            BucketLogMeans(log, b, flags'[sb := true]);
            if left < 0 {
              return;
            }
            OneMoreSorted(f, ptr[..], b, flags', sb);
          } else {
            TinyFinished(f, b, flags', sb);
            BucketLogGrows(log, b, flags', flags'[sb := true]);
          }
        } else {
          assert flags'[sb := true] == flags';
        }
        SetFlag(ftab, sb, b, flags');
        flags' := flags'[sb := true];
      }
    }
  }

  // ----- the end of a big bucket -----

  /** Flagged are the buckets of finished bytes, all of ss but [ss, ss], and those [t, ss] that have been marked. */
  ghost predicate FlagsMarked(flags: seq<bool>, done: seq<bool>, ss: byte, j: int) {
    && |flags| == WORDS && |done| == 256
    && forall k :: 0 <= k < WORDS ==>
         (flags[k] <==> done[k / 256] || done[k % 256] || (k / 256 == ss && k % 256 != ss) || (k % 256 == ss && k / 256 < j))
  }

  lemma MarkingStarts(flags: seq<bool>, done: seq<bool>, ss: byte)
    requires FlagsAt(flags, done, ss, 256)
    ensures FlagsMarked(flags, done, ss, 0)
  {
  }

  lemma MarkSet(flags: seq<bool>, done: seq<bool>, ss: byte, j: byte)
    requires FlagsMarked(flags, done, ss, j)
    ensures FlagsMarked(flags[256 * j as int + ss := true], done, ss, j as int + 1)
  {
    var k := 256 * j as nat + ss;
    DivUnique(k, 256, j, ss);
    var now := flags[k := true];
    forall l | 0 <= l < WORDS
      ensures now[l] <==> done[l / 256] || done[l % 256] || (l / 256 == ss && l % 256 != ss) || (l % 256 == ss && l / 256 < j as int + 1)
    {
      assert l == l / 256 * 256 + l % 256;
    }
  }

  lemma MarkingEnds(flags: seq<bool>, done: seq<bool>, ss: byte, next: byte)
    requires FlagsMarked(flags, done, ss, 256)
    ensures FlagsAt(flags, done[ss := true], next, 0)
  {
  }

  ghost predicate CellFinished(f: seq<int>, b: seq<byte>, t: byte, c: byte) {
    Finished(f, b, 256 * t as nat + c)
  }

  /** After the scans every bucket [t, ss] is in order, and what was flagged still is. */
  lemma ScanKeeps(f: seq<int>, g: seq<int>, b: seq<byte>, ss: byte, done: seq<bool>, flags: seq<bool>)
    requires InProgress(f, b, flags) && FlagsAt(flags, done, ss, 256) && Kept(g, f, b, ss, done)
    requires forall t: byte :: !done[t] ==> Finished(g, b, 256 * t as nat + ss)
    ensures InProgress(g, b, flags) && forall t: byte :: CellFinished(g, b, t, ss)
  {
    hide Start, RotKeys, Words, At, RowsWith, Finished, BucketOf, BucketOk, FlagsAt;
    forall k | 0 <= k < WORDS ensures BucketOk(g, b, k) && (flags[k] ==> Finished(g, b, k)) {
      FlagMeans(flags, done, ss, 256, k);
      if k % 256 != ss || done[k / 256] {
        assert BucketOf(g, b, k) == BucketOf(f, b, k);
        SameBucketFinished(f, g, b, k);
      } else {
        assert 256 * (k / 256) + ss == k;
        FinishedOk(g, b, k);
      }
    }
    forall t: byte ensures CellFinished(g, b, t, ss) {
      var k := 256 * t as nat + ss;
      DivUnique(k, 256, t, ss);
      FlagMeans(flags, done, ss, 256, k);
    }
  }

  lemma FinishedOk(f: seq<int>, b: seq<byte>, k: nat)
    requires Finished(f, b, k)
    ensures BucketOk(f, b, k)
  {
  }

  lemma SmallOnesFinished(f: seq<int>, b: seq<byte>, flags: seq<bool>, done: seq<bool>, ss: byte)
    requires InProgress(f, b, flags) && FlagsAt(flags, done, ss, 256)
    ensures forall k :: 256 * ss as int <= k < 256 * ss as int + 256 && k != 256 * ss as int + ss ==> Finished(f, b, k)
  {
    hide Finished, AllBuckets, FlagsAt;
    forall k | 256 * ss as int <= k < 256 * ss as int + 256 && k != 256 * ss as int + ss ensures Finished(f, b, k) {
      DivUnique(k, 256, ss, k - 256 * ss as int);
      FlagMeans(flags, done, ss, 256, k);
    }
  }

  /** Step 2: the buckets [t, ss] are filled by scanning, and marked. */
  method FinishBigBucket(ptr: array<word>, block: array<byte>, nblock: nat, ftab: array<int>, ss: byte, bigDone: array<bool>,
                         ghost b: seq<byte>, ghost flags: seq<bool>, ghost next: byte)
    returns (ghost flags': seq<bool>)
    requires nblock <= block.Length && block[..nblock] == b && 0 < nblock <= 900000 && bigDone.Length == 256 && !bigDone[ss]
    requires InProgress(ptr[..], b, flags) && FtabOk(ftab[..], b, flags) && FlagsAt(flags, bigDone[..], ss, 256)
    requires (ptr as object) != ftab && (ptr as object) != bigDone && (ptr as object) != block && (ftab as object) != bigDone && (ftab as object) != block
    modifies ptr, ftab
    ensures InProgress(ptr[..], b, flags') && FtabOk(ftab[..], b, flags') && FlagsAt(flags', bigDone[..][ss := true], next, 0)
  {
    hide InProgress, FtabOk, FlagsAt, FlagsMarked, Finished, AllBuckets, Start, Kept;
    ghost var f, done := ptr[..], bigDone[..];
    SmallOnesFinished(f, b, flags, done, ss);
    ProgressMeans(f, b, flags, 0);
    ScanBucket(ptr, block, nblock, ftab, ss, bigDone, b, flags);
    ScanKeeps(f, ptr[..], b, ss, done, flags);
    MarkingStarts(flags, done, ss);
    flags' := flags;
    for j := 0 to 256
      invariant InProgress(ptr[..], b, flags') && FtabOk(ftab[..], b, flags') && FlagsMarked(flags', done, ss, j)
      invariant bigDone[..] == done && forall t: byte :: CellFinished(ptr[..], b, t, ss)
    {
      var k := 256 * j + ss;
      MarkSet(flags', done, ss, j);
      FinishedFlag(ptr[..], b, flags', j, ss);
      SetFlag(ftab, k, b, flags');
      flags' := flags'[k := true];
    }
    MarkingEnds(flags', done, ss, next);
  }

  lemma FinishedFlag(f: seq<int>, b: seq<byte>, flags: seq<bool>, t: byte, c: byte)
    requires InProgress(f, b, flags) && CellFinished(f, b, t, c)
    ensures InProgress(f, b, flags[256 * t as int + c := true])
  {
    hide Finished, AllBuckets;
  }

  // ----- step 3: the quadrants -----

  /** The quadrants of unfinished bytes are still zero. */
  ghost predicate QuadrantsAt(b: seq<byte>, quadrant: seq<nat>, done: seq<bool>) {
    && QuadrantOk(b, quadrant) && |done| == 256
    && forall i :: 0 <= i < |b| + N_OVERSHOOT && !done[At(b, i)] ==> quadrant[i] == 0
  }

  /** The rows of the big bucket from place x on have their quadrants, in the overshoot as well. */
  ghost predicate Updated(q: seq<nat>, was: seq<nat>, b: seq<byte>, c: byte, rows: seq<int>, shifts: nat, x: int) {
    && b != [] && |q| == |was| >= |b| + N_OVERSHOOT && |b| > N_OVERSHOOT && 0 <= x <= |rows|
    && (forall i :: x <= i < |rows| ==> RowUpdated(q, b, rows[i], ShiftRight(i, shifts)))
    && forall p :: 0 <= p < |b| + N_OVERSHOOT && At(b, p) != c ==> q[p] == was[p]
  }

  ghost predicate RowUpdated(q: seq<nat>, b: seq<byte>, r: int, v: nat) {
    && 0 <= r < |b| && |q| >= |b| + N_OVERSHOOT
    && q[r] == v && (r < N_OVERSHOOT ==> q[r + |b|] == v)
  }

  ghost function Stored(q: seq<nat>, n: nat, r: int, v: nat): (g: seq<nat>)
    requires 0 <= r < n && |q| >= n + N_OVERSHOOT
    ensures |g| == |q|
  {
    if r < N_OVERSHOOT then q[r := v][r + n := v] else q[r := v]
  }

  lemma UpdateNext(q: seq<nat>, was: seq<nat>, b: seq<byte>, c: byte, rows: seq<int>, shifts: nat, x: int)
    requires Updated(q, was, b, c, rows, shifts, x) && x > 0 && Good(b, c, rows) && 0 <= rows[x - 1] < |b|
    ensures Updated(Stored(q, |b|, rows[x - 1], ShiftRight(x - 1, shifts)), was, b, c, rows, shifts, x - 1)
  {
    hide RotKeys, At, ShiftRight;
    var r := rows[x - 1];
    var v := ShiftRight(x - 1, shifts);
    var g := Stored(q, |b|, r, v);
    AtRow(b, r);
    Overshooting(b, r);
    forall i | x - 1 <= i < |rows| ensures RowUpdated(g, b, rows[i], ShiftRight(i, shifts)) {
      if i >= x {
        assert RowUpdated(q, b, rows[i], ShiftRight(i, shifts));
        assert rows[i] != r;
      }
    }
  }

  lemma Overshooting(b: seq<byte>, r: int)
    requires 0 <= r < |b|
    ensures At(b, r + |b|) == b[r] && (r + |b|) % |b| == r
  {
    DivUnique(r + |b|, |b|, 1, r);
  }

  /** Within one byte, quadrants grow with the place of the row. */
  lemma UpdateEnds(q: seq<nat>, was: seq<nat>, b: seq<byte>, c: byte, rows: seq<int>, shifts: nat, done: seq<bool>)
    requires Updated(q, was, b, c, rows, shifts, 0) && Good(b, c, rows) && QuadrantsAt(b, was, done)
    requires forall r :: 0 <= r < |b| && b[r] == c ==> r in rows
    ensures QuadrantsAt(b, q, done[c := true])
  {
    hide RotKeys, ShiftRight, LexLess, Good, PrefixLeq, Updated;
    UpdatedShape(q, was, b, c, rows, shifts);
    forall i, j | 0 <= i < |b| + N_OVERSHOOT && 0 <= j < |b| + N_OVERSHOOT && At(b, i) == At(b, j) && q[i] < q[j]
      ensures PrefixLeq(b, i, j, |b|)
    {
      if At(b, i) == c {
        var x := UpdatedAt(q, was, b, c, rows, shifts, i);
        var y := UpdatedAt(q, was, b, c, rows, shifts, j);
        if y <= x {
          ShiftMonotone(y, x, shifts);
        }
        PlacesCompare(b, c, rows, x, y, i, j);
      }
    }
  }

  lemma UpdatedShape(q: seq<nat>, was: seq<nat>, b: seq<byte>, c: byte, rows: seq<int>, shifts: nat)
    requires Updated(q, was, b, c, rows, shifts, 0)
    ensures b != [] && |q| == |was| >= |b| + N_OVERSHOOT && |b| > N_OVERSHOOT
    ensures forall p :: 0 <= p < |b| + N_OVERSHOOT && At(b, p) != c ==> q[p] == was[p]
  {
  }

  lemma ShiftMonotone(x: nat, y: nat, m: nat)
    requires x <= y
    ensures ShiftRight(x, m) <= ShiftRight(y, m)
  {
    ShiftRightIsDivision(x, m);
    ShiftRightIsDivision(y, m);
    DivMonotone(x, y, Pow2(m));
  }

  lemma DivMonotone(x: nat, y: nat, p: nat)
    requires x <= y && p > 0
    ensures x / p <= y / p
  {
    var q, r := x / p, y / p;
    assert x == q * p + x % p && y == r * p + y % p;
    MulDistribute(r, 1, p);
    if q > r {
      MulMonotone(r + 1, q, p);
    }
  }

  /** The place of the row of position i, and its quadrant. */
  lemma UpdatedAt(q: seq<nat>, was: seq<nat>, b: seq<byte>, c: byte, rows: seq<int>, shifts: nat, i: nat) returns (x: nat)
    requires Updated(q, was, b, c, rows, shifts, 0) && i < |b| + N_OVERSHOOT && At(b, i) == c
    requires forall r :: 0 <= r < |b| && b[r] == c ==> r in rows
    ensures x < |rows| && rows[x] == i % |b| && q[i] == ShiftRight(x, shifts)
  {
    hide ShiftRight;
    var n := |b|;
    var r := if i < n then i else i - n;
    DivUnique(i, n, if i < n then 0 else 1, r);
    assert b[r] == c;
    x :| 0 <= x < |rows| && rows[x] == r;
    assert RowUpdated(q, b, rows[x], ShiftRight(x, shifts));
  }

  lemma PlacesCompare(b: seq<byte>, c: byte, rows: seq<int>, x: nat, y: nat, i: nat, j: nat)
    requires Good(b, c, rows) && x < y < |rows| && b != [] && rows[x] == i % |b| && rows[y] == j % |b|
    ensures PrefixLeq(b, i, j, |b|)
  {
    hide RotKeys, At, LexLess;
    RankOrders(b, rows[x], rows[y]);
    WindowWraps(b, i, |b|);
    WindowWraps(b, j, |b|);
  }

  /** The rows of a finished big bucket. */
  lemma BigBucketRows(f: seq<int>, b: seq<byte>, flags: seq<bool>, done: seq<bool>, c: byte, next: byte)
    requires InProgress(f, b, flags) && FlagsAt(flags, done, next, 0) && done[c]
    ensures b != [] && Start(b, 256 * c as nat) <= Start(b, 256 * c as nat + 256) <= |b| <= |f|
    ensures var rows := f[Start(b, 256 * c as nat)..Start(b, 256 * c as nat + 256)];
      Good(b, c, rows) && forall r :: 0 <= r < |b| && b[r] == c ==> r in rows
  {
    hide RotKeys, At, Start, Words, Finished, FlagsAt, BucketOk;
    AllBucketsSize(f, b);
    BucketsApart(b, c, c);
    var lo, hi := Start(b, 256 * c as nat), Start(b, 256 * c as nat + 256);
    var rows := f[lo..hi];
    forall k | 256 * c as int <= k < 256 * c as int + 256 ensures Finished(f, b, k) {
      DivUnique(k, 256, c, k - 256 * c as int);
      FlagMeans(flags, done, next, 0, k);
    }
    StretchGood(f, b, c, 256 * c as nat, 256 * c as nat + 256);
    forall r | 0 <= r < |b| && b[r] == c ensures r in rows {
      AtRow(b, r);
      WordSplit(b, r, c);
      var w := Words(b)[r];
      var x := RowFound(f, b, w, r);
      StartMonotone(b, 256 * c as nat, w);
      StartMonotone(b, w + 1, 256 * c as nat + 256);
      assert rows[x - lo] == r;
    }
  }

  lemma UpdateStarts(q: seq<nat>, b: seq<byte>, c: byte, rows: seq<int>, shifts: nat)
    requires |b| > N_OVERSHOOT && |q| >= |b| + N_OVERSHOOT
    ensures Updated(q, q, b, c, rows, shifts, |rows|)
  {
  }

  lemma GoodEntry(b: seq<byte>, c: byte, s: seq<int>, i: nat)
    requires Good(b, c, s) && i < |s|
    ensures 0 <= s[i] < |b|
  {
  }

  /** Step 3: the quadrants of the finished big bucket, scaled so that they fit 16 bits. */
  method UpdateQuadrants(ptr: array<word>, quadrant: array<ushort>, nblock: nat, ftab: array<int>, ss: byte,
                         ghost b: seq<byte>, ghost flags: seq<bool>, ghost done: seq<bool>, ghost next: byte)
    requires |b| == nblock && N_OVERSHOOT < nblock && quadrant.Length >= nblock + N_OVERSHOOT
    requires InProgress(ptr[..], b, flags) && FtabOk(ftab[..], b, flags) && FlagsAt(flags, done, next, 0) && |done| == 256 && done[ss]
    requires QuadrantsAt(b, quadrant[..], done[ss := false])
    requires (ptr as object) != quadrant && (ftab as object) != quadrant
    modifies quadrant
    ensures QuadrantsAt(b, quadrant[..], done)
  {
    hide InProgress, FtabOk, FlagsAt, Start, Cleared, Good, QuadrantsAt, Updated, ShiftRight, Stored, RotKeys, At, Words, Finished, BucketOk;
    BigBucketRows(ptr[..], b, flags, done, ss, next);
    FtabEntry(ftab[..], b, flags, 256 * ss as nat);
    FtabEntry(ftab[..], b, flags, 256 * ss as nat + 256);
    var bbStart := Cleared(ftab[256 * ss as nat]);
    var bbSize := Cleared(ftab[256 * ss as nat + 256]) - bbStart;
    var shifts := 0;
    while ShiftRight(bbSize, shifts) > 65534
      invariant quadrant[..] == old(quadrant[..])
      decreases ShiftRight(bbSize, shifts)
    {
      ShiftRightOnce(bbSize, shifts);
      shifts := shifts + 1;
    }
    ghost var rows: seq<int>, was: seq<nat> := ptr[..][bbStart..bbStart + bbSize], quadrant[..];
    UpdateStarts(was, b, ss, rows, shifts);
    var j := bbSize - 1;
    while j >= 0
      invariant -1 <= j < bbSize && Updated(quadrant[..], was, b, ss, rows, shifts, j + 1)
      invariant ptr[..][bbStart..bbStart + bbSize] == rows
    {
      ghost var q: seq<nat> := quadrant[..];
      GoodEntry(b, ss, rows, j);
      UpdateNext(q, was, b, ss, rows, shifts, j + 1);
      var a2update := ptr[bbStart + j];
      assert a2update == rows[j];
      ShiftMonotone(j, bbSize, shifts);
      var qVal := ShiftRight(j, shifts);
      assert qVal <= 65535;
      quadrant[a2update] := qVal;
      if a2update < N_OVERSHOOT {
        quadrant[a2update + nblock] := qVal;
      }
      StoredIs(q, quadrant[..], nblock, a2update, qVal);
      j := j - 1;
    }
    UpdateEnds(quadrant[..], was, b, ss, rows, shifts, done[ss := false]);
    assert done[ss := false][ss := true] == done;
  }

  lemma StoredIs(q: seq<nat>, g: seq<nat>, n: nat, r: int, v: nat)
    requires 0 <= r < n && |q| >= n + N_OVERSHOOT && g == if r < N_OVERSHOOT then q[r := v][r + n := v] else q[r := v]
    ensures g == Stored(q, n, r, v)
  {
  }

  // ----- the whole sort -----

  /** The finished bytes are those the running order has come to. */
  ghost predicate DoneAre(done: seq<bool>, order: seq<int>, i: int) {
    && IsPermutation(order, 256) && |done| == 256 && 0 <= i <= 256
    && forall x :: 0 <= x < 256 ==> (done[order[x]] <==> x < i)
  }

  lemma NoneDone(done: seq<bool>, order: seq<int>)
    requires IsPermutation(order, 256) && |done| == 256 && forall c :: 0 <= c < 256 ==> !done[c]
    ensures DoneAre(done, order, 0)
  {
  }

  lemma OneMoreDone(done: seq<bool>, order: seq<int>, i: int)
    requires DoneAre(done, order, i) && i < 256
    ensures 0 <= order[i] < 256 && !done[order[i]] && DoneAre(done[order[i] := true], order, i + 1)
  {
    var now := done[order[i] := true];
    forall x | 0 <= x < 256 ensures now[order[x]] <==> x < i + 1 {
      assert x != i ==> order[x] != order[i];
    }
  }

  lemma AllDone(done: seq<bool>, order: seq<int>)
    requires DoneAre(done, order, 256)
    ensures forall c :: 0 <= c < 256 ==> done[c]
  {
    forall c | 0 <= c < 256 ensures done[c] {
      PermutationHits(order, 256, c);
    }
  }

  lemma NoFlagsAt(done: seq<bool>, next: byte, f: seq<int>, b: seq<byte>)
    requires |done| == 256 && (forall c :: 0 <= c < 256 ==> !done[c]) && AllBuckets(f, b)
    ensures FlagsAt(NoFlags(), done, next, 0) && InProgress(f, b, NoFlags())
  {
    hide AllBuckets;
  }

  /** With every bucket finished, the rotations are sorted. */
  lemma AllFinished(f: seq<int>, b: seq<byte>, flags: seq<bool>, done: seq<bool>, next: byte)
    requires InProgress(f, b, flags) && FlagsAt(flags, done, next, 0) && forall c :: 0 <= c < 256 ==> done[c]
    ensures |b| <= |f| && SortedRotations(b, f[..|b|])
  {
    hide RotKeys, At, Start, Words, Finished, LexLess, FlagsAt, BucketOk;
    BucketsPermutation(f, b);
    StartEnds(b);
    forall k | 0 <= k < WORDS ensures Finished(f, b, k) {
      FlagMeans(flags, done, next, 0, k);
    }
    var n := |b|;
    forall r, s | 0 <= r < s < n ensures PrefixLeq(b, f[..n][r], f[..n][s], n) {
      StretchOrdered(f, b, 0, WORDS, r, s);
      RankOrders(b, f[r], f[s]);
    }
  }

  lemma ZeroQuadrants(b: seq<byte>, quadrant: seq<nat>, done: seq<bool>)
    requires b != [] && |done| == 256 && |quadrant| >= |b| + N_OVERSHOOT && forall i :: 0 <= i < |b| + N_OVERSHOOT ==> quadrant[i] == 0
    ensures QuadrantsAt(b, quadrant, done)
  {
  }

  lemma QuadrantsMean(b: seq<byte>, quadrant: seq<nat>, done: seq<bool>)
    requires QuadrantsAt(b, quadrant, done)
    ensures QuadrantOk(b, quadrant)
  {
  }

  lemma OvershotIs(block: seq<byte>, b: seq<byte>)
    requires |b| > N_OVERSHOOT && |block| >= |b| + N_OVERSHOOT && block[..|b|] == b
    requires forall i :: 0 <= i < N_OVERSHOOT ==> block[|b| + i] == block[i]
    ensures Overshot(block, b)
  {
    forall i | 0 <= i < |b| + N_OVERSHOOT ensures block[i] == At(b, i) {
      if i < |b| {
        DivUnique(i, |b|, 0, i);
        assert block[..|b|][i] == b[i];
      } else {
        DivUnique(i, |b|, 1, i - |b|);
        assert block[|b| + (i - |b|)] == block[i - |b|] == block[..|b|][i - |b|];
      }
    }
  }

  /** Copy the first bytes behind the block, and clear their quadrants. */
  method CopyOvershoot(block: array<byte>, quadrant: array<ushort>, nblock: nat)
    requires N_OVERSHOOT < nblock && nblock + N_OVERSHOOT <= block.Length && nblock + N_OVERSHOOT <= quadrant.Length
    requires (block as object) != quadrant && forall k :: 0 <= k < nblock ==> quadrant[k] == 0
    modifies block, quadrant
    ensures block[..nblock] == old(block[..nblock]) && Overshot(block[..], old(block[..nblock]))
    ensures forall k :: 0 <= k < nblock + N_OVERSHOOT ==> quadrant[k] == 0
  {
    hide At;
    ghost var b := block[..nblock];
    for i := 0 to N_OVERSHOOT
      invariant block[..nblock] == b && forall k :: 0 <= k < i ==> block[nblock + k] == block[k]
      invariant forall k :: 0 <= k < nblock + i ==> quadrant[k] == 0
    {
      block[nblock + i] := block[i];
      quadrant[nblock + i] := 0;
    }
    OvershotIs(block[..], b);
  }

  /** mainSort: unless the budget runs out, the rotations are sorted. In either case the block is intact. Only
      comparisons of rows that agree on 20 bytes cost anything: without such rows the sort does not give up, and if it
      does, more rounds have been made than the budget allows, though no two rows have been compared more often than
      there are increments. */
  method MainSort(ptr: array<word>, block: array<byte>, quadrant: array<ushort>, nblock: nat, budget: int)
    returns (left: int, ghost log: seq<Comparison>)
    requires N_OVERSHOOT < nblock <= 900000 && nblock <= ptr.Length && budget >= 0
    requires nblock + N_OVERSHOOT <= block.Length && nblock + N_OVERSHOOT <= quadrant.Length
    requires (ptr as object) != block && (ptr as object) != quadrant && (block as object) != quadrant
    modifies ptr, block, quadrant
    ensures block[..nblock] == old(block[..nblock])
    ensures left >= 0 ==> SortedRotations(block[..nblock], ptr[..nblock])
    ensures Charged(block[..nblock], budget, left, log) && (left < 0 <==> Rounds(log) > budget) && AtMost(log, 14)
    ensures DifferWithin(block[..nblock], 20) ==> left == budget
  {
    hide Charged, DifferWithin, Rounds, BucketLog, AtMost, Readable, InProgress, FtabOk, FlagsAt, AllBuckets, QuadrantsAt, Overshot, QuadrantOk, DoneAre, SortedRotations, SortedBy, IsPermutation;
    ghost var b := block[..nblock];
    var ftab := new int[65537];
    left, log := budget, [];
    NothingCharged(b, budget);
    BucketLogStarts(b, NoFlags());
    RadixSort(ptr, block, quadrant, ftab, nblock);
    CopyOvershoot(block, quadrant, nblock);
    var runningOrder := MakeRunningOrder(ftab);
    var bigDone := new bool[256](_ => false);
    ghost var flags, order := NoFlags(), runningOrder[..];
    NoneDone(bigDone[..], order);
    NoFlagsAt(bigDone[..], 0, ptr[..], b);
    ZeroQuadrants(b, quadrant[..], bigDone[..]);
    FlagsAny(flags, bigDone[..], 0);
    for i := 0 to 256
      invariant fresh(ftab) && fresh(bigDone) && fresh(runningOrder) && bigDone.Length == runningOrder.Length == 256 && left >= 0
      invariant Charged(b, budget, left, log) && BucketLog(log, b, flags)
      invariant block[..nblock] == b && Overshot(block[..], b) && runningOrder[..] == order && DoneAre(bigDone[..], order, i)
      invariant InProgress(ptr[..], b, flags) && FtabOk(ftab[..], b, flags)
      invariant forall next: byte :: FlagsAt(flags, bigDone[..], next, 0)
      invariant i < 256 ==> QuadrantsAt(b, quadrant[..], bigDone[..])
    {
      ghost var done := bigDone[..];
      OneMoreDone(done, order, i);
      var ss: byte := runningOrder[i];
      QuadrantsMean(b, quadrant[..], done);
      ReadableIs(block[..], quadrant[..], nblock, b);
      left, flags, log := SortSmallBuckets(ptr, block, quadrant, nblock, ftab, ss, left, b, flags, done, budget, log);
      if left < 0 {
        ChargesAll(b, budget, left, log);
        return;
      }
      assert !bigDone[ss];
      ghost var sorted := flags;
      flags := FinishBigBucket(ptr, block, nblock, ftab, ss, bigDone, b, flags, 0);
      FlagsGrow(sorted, flags, done, ss, 0);
      BucketLogGrows(log, b, sorted, flags);
      bigDone[ss] := true;
      assert bigDone[..] == done[ss := true];
      if i < 255 {
        assert done[ss := true][ss := false] == done;
        UpdateQuadrants(ptr, quadrant, nblock, ftab, ss, b, flags, bigDone[..], 0);
      }
      FlagsAny(flags, bigDone[..], 0);
    }
    ChargesAll(b, budget, left, log);
    BucketLogMeans(log, b, flags);
    AllDone(bigDone[..], order);
    AllFinished(ptr[..], b, flags, bigDone[..], 0);
    assert ptr[..][..nblock] == ptr[..nblock];
  }

  lemma ChargesAll(b: seq<byte>, budget: int, left: int, log: seq<Comparison>)
    requires Charged(b, budget, left, log)
    ensures (left < 0 <==> Rounds(log) > budget) && (DifferWithin(b, 20) ==> left == budget)
  {
    if DifferWithin(b, 20) {
      NeverCharged(b, budget, left, log);
    }
  }

  lemma ReadableIs(block: seq<byte>, quadrant: seq<nat>, nblock: nat, b: seq<byte>)
    requires |b| == nblock <= 900000 && Overshot(block, b) && QuadrantOk(b, quadrant)
    ensures Readable(block, quadrant, nblock, b)
  {
  }

  lemma FlagsAny(flags: seq<bool>, done: seq<bool>, ss: byte)
    requires FlagsAt(flags, done, ss, 0)
    ensures forall next: byte :: FlagsAt(flags, done, next, 0)
  {
  }
}
