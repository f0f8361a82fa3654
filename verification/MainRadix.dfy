/** mainSort, the two-byte radix sort: afterwards ftab holds the bucket starts and ptr every row in its bucket. */
module MainRadix {
  import opened Numbers
  import opened Rotations
  import opened MainOrder
  import opened WordBuckets

  /** ftab counts the rows from i on. */
  ghost predicate Counted(ftab: seq<int>, w: seq<nat>, i: nat) {
    i <= |w| && |ftab| == WORDS + 1 && forall k :: 0 <= k <= WORDS ==> ftab[k] == Hits(w, i, k)
  }

  lemma NothingCounted(ftab: seq<int>, w: seq<nat>)
    requires |ftab| == WORDS + 1 && forall k :: 0 <= k <= WORDS ==> ftab[k] == 0
    ensures Counted(ftab, w, |w|)
  {
  }

  lemma CountedNext(ftab: seq<int>, w: seq<nat>, i: nat)
    requires Counted(ftab, w, i + 1) && i < |w| && w[i] < WORDS
    ensures Counted(ftab[w[i] := ftab[w[i]] + 1], w, i)
  {
  }

  /** The running two-byte key: the byte before it moves to the second place. */
  lemma WordComputed(b: seq<byte>, i: nat, j: nat)
    requires i < |b| && j / 256 == At(b, i + 1)
    ensures j / 256 < 256 && j / 256 + 256 * (b[i] as int) == Words(b)[i] < WORDS && (j / 256 + 256 * (b[i] as int)) / 256 == At(b, i)
  {
    hide At;
    AtInside(b, i);
    DivUnique(j / 256 + 256 * (b[i] as int), 256, b[i], j / 256);
  }

  lemma AtInside(b: seq<byte>, i: nat)
    requires i < |b|
    ensures At(b, i) == b[i]
  {
    DivUnique(i, |b|, 0, i);
  }

  lemma AtTurn(b: seq<byte>)
    requires b != []
    ensures At(b, |b|) == b[0]
  {
    DivUnique(|b|, |b|, 1, 0);
  }

  lemma HighByte(x: byte)
    ensures (256 * (x as int)) / 256 == x
  {
    DivUnique(256 * (x as int), 256, x, 0);
  }

  /** Count the two-byte words, and clear the quadrants of the block. */
  method CountWords(block: array<byte>, quadrant: array<ushort>, ftab: array<int>, nblock: nat)
    requires 0 < nblock <= block.Length && nblock <= quadrant.Length && ftab.Length == WORDS + 1
    requires (quadrant as object) != ftab && (quadrant as object) != block && (ftab as object) != block
    modifies quadrant, ftab
    ensures Counted(ftab[..], Words(block[..nblock]), 0) && forall k :: 0 <= k < nblock ==> quadrant[k] == 0
  {
    hide Counted, Words, At;
    ghost var b := block[..nblock];
    var i: int := 65536;
    while i >= 0
      invariant -1 <= i <= 65536 && forall k :: i < k <= WORDS ==> ftab[k] == 0
    {
      ftab[i] := 0;
      i := i - 1;
    }
    NothingCounted(ftab[..], Words(b));
    var j: nat := 256 * (block[0] as int);
    HighByte(block[0]);
    AtTurn(b);
    i := nblock - 1;
    while i >= 0
      invariant -1 <= i < nblock && block[..nblock] == b && Counted(ftab[..], Words(b), (i + 1) as nat) && j / 256 == At(b, (i + 1) as nat)
      invariant forall k :: i < k < nblock ==> quadrant[k] == 0
    {
      ghost var e := ftab[..];
      assert b[i] == block[i];
      WordComputed(b, i, j);
      CountedNext(e, Words(b), i);
      quadrant[i] := 0;
      j := j / 256 + 256 * (block[i] as int);
      ftab[j] := ftab[j] + 1;
      assert ftab[..] == e[j := e[j] + 1];
      i := i - 1;
    }
  }

  /** The sums up to place i. */
  ghost predicate Summed(ftab: seq<int>, w: seq<nat>, i: nat) {
    |ftab| == WORDS + 1 && forall k :: 0 <= k <= WORDS ==> ftab[k] == if k < i then Under(w, 0, k + 1) else Hits(w, 0, k)
  }

  lemma SummedStart(ftab: seq<int>, w: seq<nat>)
    requires Counted(ftab, w, 0) && forall p :: 0 <= p < |w| ==> w[p] < WORDS
    ensures Summed(ftab, w, 1)
  {
    UnderStep(w, 0, 0);
    UnderEnds(w, 0, WORDS);
  }

  lemma SummedNext(ftab: seq<int>, w: seq<nat>, i: nat)
    requires Summed(ftab, w, i) && 1 <= i <= WORDS
    ensures Summed(ftab[i := ftab[i] + ftab[i - 1]], w, i + 1)
  {
    UnderStep(w, 0, i);
  }

  /** Every bucket is filled from its end down to ftab, with the rows from i on. */
  ghost predicate Filling(f: seq<int>, ftab: seq<int>, w: seq<nat>, i: nat) {
    && |ftab| == WORDS + 1 && i <= |w| <= |f| && ftab[WORDS] == |w|
    && (forall k :: 0 <= k < WORDS ==> ftab[k] == Under(w, 0, k + 1) - Hits(w, i, k))
    && forall k :: 0 <= k < WORDS ==> Filled(f, w, i, k, ftab[k])
  }

  ghost predicate Filled(f: seq<int>, w: seq<nat>, i: nat, k: nat, from: int) {
    && 0 <= from <= Under(w, 0, k + 1) <= |f|
    && (forall x :: from <= x < Under(w, 0, k + 1) ==> i <= f[x] < |w| && w[f[x]] == k)
    && forall x, y :: from <= x < y < Under(w, 0, k + 1) ==> f[x] != f[y]
  }

  lemma FillingStarts(f: seq<int>, ftab: seq<int>, w: seq<nat>)
    requires Summed(ftab, w, WORDS + 1) && |w| <= |f| && forall p :: 0 <= p < |w| ==> w[p] < WORDS
    ensures Filling(f, ftab, w, |w|)
  {
    UnderEnds(w, 0, WORDS);
    UnderStep(w, 0, WORDS);
  }

  lemma FillingNext(f: seq<int>, ftab: seq<int>, w: seq<nat>, i: nat)
    requires Filling(f, ftab, w, i + 1) && i < |w| && w[i] < WORDS
    ensures 0 <= ftab[w[i]] - 1 < |w|
    ensures Filling(f[ftab[w[i]] - 1 := i], ftab[w[i] := ftab[w[i]] - 1], w, i)
  {
    hide Filled;
    var s := w[i];
    var j := ftab[s] - 1;
    PlaceInBucket(ftab, w, i, s);
    var g, e := f[j := i], ftab[s := j];
    forall k | 0 <= k < WORDS ensures e[k] == Under(w, 0, k + 1) - Hits(w, i, k) && Filled(g, w, i, k, e[k]) {
      assert Filled(f, w, i + 1, k, ftab[k]);
      HitsShrink(w, 0, i + 1, k);
      UnderStep(w, 0, k);
      FilledNext(f, w, i, k, ftab[k], j);
    }
  }

  lemma PlaceInBucket(ftab: seq<int>, w: seq<nat>, i: nat, s: nat)
    requires i < |w| && w[i] == s && s < |ftab| && ftab[s] == Under(w, 0, s + 1) - Hits(w, i + 1, s)
    ensures Under(w, 0, s) <= ftab[s] - 1 < Under(w, 0, s + 1) <= |w|
  {
    HitsShrink(w, 0, i, s);
    UnderStep(w, 0, s);
  }

  lemma FilledNext(f: seq<int>, w: seq<nat>, i: nat, k: nat, from: int, j: nat)
    requires i < |w| <= |f| && Filled(f, w, i + 1, k, from) && from >= Under(w, 0, k)
    requires Under(w, 0, w[i]) <= j < Under(w, 0, w[i] + 1) <= |w| && (k == w[i] ==> j == from - 1)
    ensures Filled(f[j := i], w, i, k, if k == w[i] then j else from)
  {
    var s := w[i];
    if k < s {
      UnderMonotone(w, 0, k + 1, s);
    } else if s < k {
      UnderMonotone(w, 0, s + 1, k);
    }
  }

  /** ftab as the sort uses it from now on: bucket starts, with a flag in bit 21. */
  const SETMASK := 0x20_0000

  ghost predicate FtabOk(ftab: seq<int>, b: seq<byte>, flags: seq<bool>) {
    && b != [] && |b| <= 900000 && |ftab| == WORDS + 1 && |flags| == WORDS && ftab[WORDS] == |b|
    && forall k :: 0 <= k < WORDS ==> ftab[k] == Start(b, k) + if flags[k] then SETMASK else 0
  }

  ghost function NoFlags(): (s: seq<bool>)
    ensures |s| == WORDS && forall k :: 0 <= k < WORDS ==> !s[k]
  {
    seq(WORDS, _ => false)
  }

  lemma FillingEnds(f: seq<int>, ftab: seq<int>, b: seq<byte>)
    requires b != [] && |b| <= 900000 && Filling(f, ftab, Words(b), 0)
    ensures FtabOk(ftab, b, NoFlags()) && AllBuckets(f, b)
  {
    hide At, Words;
    var w := Words(b);
    forall k | 0 <= k < WORDS ensures ftab[k] == Start(b, k) && BucketOk(f, b, k) {
      UnderStep(w, 0, k);
      assert Filled(f, w, 0, k, ftab[k]);
    }
  }

  /** The initial radix sort. */
  method RadixSort(ptr: array<word>, block: array<byte>, quadrant: array<ushort>, ftab: array<int>, nblock: nat)
    requires 0 < nblock <= block.Length && nblock <= quadrant.Length && nblock <= ptr.Length && nblock <= 900000 && ftab.Length == WORDS + 1
    requires (quadrant as object) != ftab && (quadrant as object) != block && (ftab as object) != block
    requires (ptr as object) != quadrant && (ptr as object) != ftab && (ptr as object) != block
    modifies ptr, quadrant, ftab
    ensures FtabOk(ftab[..], block[..nblock], NoFlags()) && AllBuckets(ptr[..], block[..nblock])
    ensures forall k :: 0 <= k < nblock ==> quadrant[k] == 0
  {
    hide Counted, Summed, Filling, Words, At, FtabOk, AllBuckets, NoFlags;
    ghost var b := block[..nblock];
    CountWords(block, quadrant, ftab, nblock);
    ghost var w := Words(b);
    WordsSmall(b);
    SummedStart(ftab[..], w);
    for i := 1 to 65537
      invariant block[..nblock] == b && Summed(ftab[..], w, i) && forall k :: 0 <= k < nblock ==> quadrant[k] == 0
    {
      ghost var e := ftab[..];
      SummedNext(e, w, i);
      ftab[i] := ftab[i] + ftab[i - 1];
      assert ftab[..] == e[i := e[i] + e[i - 1]];
    }
    FillingStarts(ptr[..], ftab[..], w);
    var s: nat := 256 * (block[0] as int);
    HighByte(block[0]);
    AtTurn(b);
    var i: int := nblock - 1;
    while i >= 0
      invariant -1 <= i < nblock && block[..nblock] == b && Filling(ptr[..], ftab[..], w, (i + 1) as nat) && s / 256 == At(b, (i + 1) as nat)
      invariant forall k :: 0 <= k < nblock ==> quadrant[k] == 0
    {
      ghost var f: seq<int>, e := ptr[..], ftab[..];
      assert b[i] == block[i];
      WordComputed(b, i, s);
      FillingNext(f, e, w, i);
      s := s / 256 + 256 * (block[i] as int);
      var j := ftab[s] - 1;
      ftab[s] := j;
      ptr[j] := i;
      assert ftab[..] == e[s := e[s] - 1] && ptr[..] == f[j := i];
      i := i - 1;
    }
    FillingEnds(ptr[..], ftab[..], b);
  }

  lemma WordsSmall(b: seq<byte>)
    requires b != []
    ensures |Words(b)| == |b| && forall p :: 0 <= p < |b| ==> Words(b)[p] < WORDS
  {
  }
}
