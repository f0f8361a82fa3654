/** mainQSort3: three-way radix quicksort of a small bucket, one byte at a time, with an explicit stack. */
module MainQuicksort {
  import opened Numbers
  import opened Rotations
  import opened InPlace
  import opened FallbackQuicksort
  import opened MainOrder
  import opened MainShellSort

  const MAIN_QSORT_SMALL_THRESH := 20
  const MAIN_QSORT_DEPTH_THRESH := 14
  const MAIN_QSORT_STACK_SIZE := 100

  /** mmed3: the middle one of three bytes. */
  function Med3(x: byte, y: byte, z: byte): (m: byte)
    ensures m == x || m == y || m == z
    ensures (m <= x || m <= y) && (m <= x || m <= z) && (m <= y || m <= z)
    ensures (m >= x || m >= y) && (m >= x || m >= z) && (m >= y || m >= z)
  {
    var a, b := if x > y then y else x, if x > y then x else y;
    if b > z then (if a > z then a else z) else b
  }

  /** The bytes d places behind each row's start: the keys of one partition. */
  ghost function ByteKeys(b: seq<byte>, d: nat): (k: seq<byte>)
    requires b != []
    ensures |k| == |b| && forall p :: 0 <= p < |b| ==> k[p] == At(b, p + d)
  {
    seq<byte>(|b|, p requires 0 <= p < |b| => At(b, p + d))
  }

  lemma ByteRead(block: seq<byte>, quadrant: seq<nat>, nblock: nat, b: seq<byte>, p: nat, d: nat)
    requires Readable(block, quadrant, nblock, b) && p < nblock && d <= 14
    ensures b != [] && p + d < |block| && block[p + d] == ByteKeys(b, d)[p]
  {
    hide At;
  }

  lemma PartingRead(f: seq<int>, block: seq<byte>, quadrant: seq<nat>, nblock: nat, b: seq<byte>, d: nat, med: int, lo: nat, ltLo: nat, unLo: nat,
                    unHi: int, gtHi: int, hi: int, i: nat)
    requires Readable(block, quadrant, nblock, b) && d <= 14 && b != [] && Parting(f, ByteKeys(b, d), med, lo, ltLo, unLo, unHi, gtHi, hi)
    requires unLo <= i <= unHi
    ensures hi < |f| && 0 <= f[i] < nblock == |b| && f[i] + d < |block| && block[f[i] + d] == ByteKeys(b, d)[f[i]]
    ensures lo <= ltLo <= unLo && unHi <= gtHi <= hi
  {
    hide At;
    ByteRead(block, quadrant, nblock, b, f[i], d);
  }

  lemma UpBelow(f: seq<int>, ec: seq<int>, med: int, lo: nat, ltLo: nat, unLo: nat, unHi: int, gtHi: int, hi: int)
    requires Parting(f, ec, med, lo, ltLo, unLo, unHi, gtHi, hi) && unLo <= unHi && ec[f[unLo]] < med
    ensures Parting(f, ec, med, lo, ltLo, unLo + 1, unHi, gtHi, hi)
  {
  }

  lemma DownAbove(f: seq<int>, ec: seq<int>, med: int, lo: nat, ltLo: nat, unLo: nat, unHi: nat, gtHi: int, hi: int)
    requires Parting(f, ec, med, lo, ltLo, unLo, unHi, gtHi, hi) && unLo <= unHi && ec[f[unHi]] > med
    ensures Parting(f, ec, med, lo, ltLo, unLo, unHi - 1, gtHi, hi)
  {
  }

  method MainScanUp(ptr: array<word>, block: array<byte>, nblock: nat, d: nat, med: int, lo: nat, ltLo: nat, unLo: nat, unHi: int,
                    ghost gtHi: int, ghost hi: nat, ghost start: seq<int>, ghost quadrant: seq<nat>, ghost b: seq<byte>)
    returns (ltLo': nat, unLo': nat)
    requires Readable(block[..], quadrant, nblock, b) && d <= 14 && b != []
    requires Parting(ptr[..], ByteKeys(b, d), med, lo, ltLo, unLo, unHi, gtHi, hi) && Rearranged(start, ptr[..], lo, hi + 1)
    modifies ptr
    ensures Parting(ptr[..], ByteKeys(b, d), med, lo, ltLo', unLo', unHi, gtHi, hi) && Rearranged(start, ptr[..], lo, hi + 1)
    ensures unLo' >= unLo && (unLo' <= unHi ==> unLo' < ptr.Length && 0 <= ptr[unLo'] < |b| && ByteKeys(b, d)[ptr[unLo']] > med)
  {
    hide *;
    ghost var keys := ByteKeys(b, d);
    ltLo', unLo' := ltLo, unLo;
    while unLo' <= unHi
      invariant Parting(ptr[..], keys, med, lo, ltLo', unLo', unHi, gtHi, hi) && Rearranged(start, ptr[..], lo, hi + 1)
      invariant unLo' >= unLo
      decreases unHi - unLo'
    {
      PartingRead(ptr[..], block[..], quadrant, nblock, b, d, med, lo, ltLo', unLo', unHi, gtHi, hi, unLo');
      var n := block[ptr[unLo'] + d] as int - med;
      if n == 0 {
        ghost var f := ptr[..];
        Exchange(ptr, unLo', ltLo');
        UpEqual(start, f, keys, med, lo, ltLo', unLo', unHi, gtHi, hi);
        ltLo', unLo' := ltLo' + 1, unLo' + 1;
        continue;
      }
      if n > 0 {
        break;
      }
      UpBelow(ptr[..], keys, med, lo, ltLo', unLo', unHi, gtHi, hi);
      unLo' := unLo' + 1;
    }
  }

  method MainScanDown(ptr: array<word>, block: array<byte>, nblock: nat, d: nat, med: int, ghost lo: nat, ghost ltLo: nat, unLo: nat, unHi: int,
                      gtHi: int, hi: nat, ghost start: seq<int>, ghost quadrant: seq<nat>, ghost b: seq<byte>)
    returns (unHi': int, gtHi': int)
    requires Readable(block[..], quadrant, nblock, b) && d <= 14 && b != []
    requires Parting(ptr[..], ByteKeys(b, d), med, lo, ltLo, unLo, unHi, gtHi, hi) && Rearranged(start, ptr[..], lo, hi + 1)
    requires unLo <= unHi ==> unLo < ptr.Length && 0 <= ptr[unLo] < |b| && ByteKeys(b, d)[ptr[unLo]] > med
    modifies ptr
    ensures Parting(ptr[..], ByteKeys(b, d), med, lo, ltLo, unLo, unHi', gtHi', hi) && Rearranged(start, ptr[..], lo, hi + 1)
    ensures unHi' <= unHi
    ensures unLo <= unHi' ==>
      && unHi' < ptr.Length && 0 <= ptr[unLo] < |b| && ByteKeys(b, d)[ptr[unLo]] > med
      && 0 <= ptr[unHi'] < |b| && ByteKeys(b, d)[ptr[unHi']] < med
  {
    hide *;
    ghost var keys := ByteKeys(b, d);
    unHi', gtHi' := unHi, gtHi;
    while unLo <= unHi'
      invariant Parting(ptr[..], keys, med, lo, ltLo, unLo, unHi', gtHi', hi) && Rearranged(start, ptr[..], lo, hi + 1)
      invariant unHi' <= unHi && (unLo <= unHi' ==> unLo < ptr.Length && 0 <= ptr[unLo] < |b| && keys[ptr[unLo]] > med)
      decreases unHi' - unLo
    {
      PartingRead(ptr[..], block[..], quadrant, nblock, b, d, med, lo, ltLo, unLo, unHi', gtHi', hi, unHi');
      var n := block[ptr[unHi'] + d] as int - med;
      if n == 0 {
        ghost var f := ptr[..];
        Exchange(ptr, unHi', gtHi');
        DownEqual(start, f, keys, med, lo, ltLo, unLo, unHi', gtHi', hi);
        gtHi', unHi' := gtHi' - 1, unHi' - 1;
        continue;
      }
      if n < 0 {
        break;
      }
      DownAbove(ptr[..], keys, med, lo, ltLo, unLo, unHi', gtHi', hi);
      unHi' := unHi' - 1;
    }
  }

  lemma PartStarts(f: seq<int>, ec: seq<int>, med: int, lo: nat, hi: int)
    requires lo <= hi && InRange(f, ec, lo, hi + 1)
    ensures Parting(f, ec, med, lo, lo, lo, hi, hi, hi) && Rearranged(f, f, lo, hi + 1)
  {
  }

  lemma PartEnds(f: seq<int>, ec: seq<int>, med: int, lo: nat, ltLo: nat, unLo: nat, unHi: int, gtHi: int, hi: int)
    requires Parting(f, ec, med, lo, ltLo, unLo, unHi, gtHi, hi) && unLo > unHi
    ensures unHi == unLo - 1
  {
  }

  method MainPartition(ptr: array<word>, block: array<byte>, nblock: nat, d: nat, med: int, lo: nat, hi: nat, ghost quadrant: seq<nat>, ghost b: seq<byte>)
    returns (ltLo: nat, unLo: nat, unHi: int, gtHi: int)
    requires Readable(block[..], quadrant, nblock, b) && d <= 14 && b != [] && lo <= hi && InRange(ptr[..], ByteKeys(b, d), lo, hi + 1)
    modifies ptr
    ensures unHi == unLo - 1 && Parting(ptr[..], ByteKeys(b, d), med, lo, ltLo, unLo, unHi, gtHi, hi)
    ensures Rearranged(old(ptr[..]), ptr[..], lo, hi + 1)
  {
    hide *;
    ghost var start, keys := ptr[..], ByteKeys(b, d);
    PartStarts(start, keys, med, lo, hi);
    ltLo, unLo, unHi, gtHi := lo, lo, hi, hi;
    while true
      invariant Parting(ptr[..], keys, med, lo, ltLo, unLo, unHi, gtHi, hi) && Rearranged(start, ptr[..], lo, hi + 1)
      decreases unHi - unLo + 1
    {
      ltLo, unLo := MainScanUp(ptr, block, nblock, d, med, lo, ltLo, unLo, unHi, gtHi, hi, start, quadrant, b);
      unHi, gtHi := MainScanDown(ptr, block, nblock, d, med, lo, ltLo, unLo, unHi, gtHi, hi, start, quadrant, b);
      if unLo > unHi {
        PartEnds(ptr[..], keys, med, lo, ltLo, unLo, unHi, gtHi, hi);
        break;
      }
      ghost var f := ptr[..];
      Exchange(ptr, unLo, unHi);
      Crossed(start, f, keys, med, lo, ltLo, unLo, unHi, gtHi, hi);
      unLo, unHi := unLo + 1, unHi - 1;
    }
  }

  /** Partition a stretch of rows by the byte at depth d: below, at and above the pivot. */
  method SplitByByte(ptr: array<word>, block: array<byte>, nblock: nat, d: nat, lo: nat, hi: nat, ghost quadrant: seq<nat>, ghost b: seq<byte>)
    returns (n: int, m: int, ghost med: int)
    requires Readable(block[..], quadrant, nblock, b) && d <= 14 && b != [] && lo <= hi < ptr.Length
    requires forall k :: lo <= k <= hi ==> 0 <= ptr[k] < nblock == |b|
    modifies ptr
    ensures Thirds(ptr[..], ByteKeys(b, d), med, lo, n, m, hi) && n + 1 < m
    ensures Rearranged(old(ptr[..]), ptr[..], lo, hi + 1)
  {
    hide *;
    ghost var start, keys := ptr[..], ByteKeys(b, d);
    ByteRead(block[..], quadrant, nblock, b, ptr[lo], d);
    ByteRead(block[..], quadrant, nblock, b, ptr[hi], d);
    ByteRead(block[..], quadrant, nblock, b, ptr[(lo + hi) / 2], d);
    var pivot := Med3(block[ptr[lo] + d], block[ptr[hi] + d], block[ptr[(lo + hi) / 2] + d]);
    med := pivot;
    ghost var x0 := if keys[ptr[lo]] == med then lo else if keys[ptr[hi]] == med then hi else (lo + hi) / 2;
    RowsNamed(start, keys, lo, hi);
    var ltLo, unLo, unHi, gtHi := MainPartition(ptr, block, nblock, d, pivot, lo, hi, quadrant, b);
    ghost var f := ptr[..];
    PartingMeans(start, f, keys, med, lo, ltLo, unLo, gtHi, hi, x0);
    if gtHi < ltLo {
      return lo - 1, hi + 1, med;
    }
    JoinEquals(ptr, keys, med, lo, ltLo, unLo, gtHi, hi);
    RearrangedTwice(start, f, ptr[..], lo, hi + 1);
    n := lo + unLo - ltLo - 1;
    m := hi - (gtHi - unHi) + 1;
  }

  lemma RowsNamed(f: seq<int>, keys: seq<int>, lo: nat, hi: nat)
    requires lo <= hi < |f| && forall k :: lo <= k <= hi ==> 0 <= f[k] < |keys|
    ensures InRange(f, keys, lo, hi + 1)
  {
  }
}
