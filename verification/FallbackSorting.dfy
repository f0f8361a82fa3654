/** fallbackSort: the doubling sort. Its arrays overlay the block in the source, so the block is lost when the
    classes are first written, and rebuilt at the end from the order and the byte counts. */
module FallbackSorting {
  import opened Numbers
  import opened Permutations
  import opened Rotations
  import opened CountingSort
  import opened InPlace
  import opened FallbackQuicksort
  import opened FallbackOrder
  import opened BucketBits

  // ----- the initial radix sort -----

  /** Where the radix loop puts row i: buckets in byte order, later rows first within a bucket. */
  function RadixPlace(b: seq<byte>, i: nat): int
    requires i < |b|
  {
    CountLess(b, b[i] as nat + 1) - 1 - Count(b[..i], b[i])
  }

  lemma RadixBucket(b: seq<byte>, i: nat)
    requires i < |b|
    ensures CountLess(b, b[i]) <= RadixPlace(b, i) < CountLess(b, b[i] as nat + 1) <= |b|
  {
    var c, n := b[i], |b|;
    CountLessStep(b, c);
    assert Count(b[..i], c) < Count(b, c) by {
      CountPrefix<byte>(b, i, n, c);
      assert b[..n] == b;
    }
  }

  lemma RadixApart(b: seq<byte>, i: nat, j: nat)
    requires i < j < |b|
    ensures RadixPlace(b, i) != RadixPlace(b, j)
  {
    RadixBucket(b, i);
    RadixBucket(b, j);
    if b[i] < b[j] {
      CountLessMonotone(b, b[i] as nat + 1, b[j]);
    } else if b[j] < b[i] {
      CountLessMonotone(b, b[j] as nat + 1, b[i]);
    } else {
      CountPrefix<byte>(b, i, j, b[i]);
    }
  }

  ghost predicate Placed(f: seq<int>, b: seq<byte>, i: nat) {
    && |f| == |b| && i <= |b|
    && forall k :: 0 <= k < i ==> 0 <= RadixPlace(b, k) < |b| && f[RadixPlace(b, k)] == k
  }

  lemma RadixPermutation(f: seq<int>, b: seq<byte>)
    requires Placed(f, b, |b|)
    ensures IsPermutation(f, |b|)
    ensures forall k :: 0 <= k < |b| ==> 0 <= f[k] < |b| && RadixPlace(b, f[k]) == k
  {
    hide RadixPlace;
    var n := |b|;
    var t := seq(n, i requires 0 <= i < n => RadixPlace(b, i));
    forall i, j | 0 <= i < j < n ensures t[i] != t[j] {
      RadixApart(b, i, j);
    }
    forall k | 0 <= k < n ensures 0 <= f[k] < n && RadixPlace(b, f[k]) == k {
      PermutationHits(t, n, k);
      var i :| 0 <= i < n && t[i] == k;
      assert f[RadixPlace(b, i)] == i;
    }
  }

  lemma WindowOne(b: seq<byte>, p: nat, q: nat)
    requires p < |b| && q < |b|
    ensures PrefixLeq(b, p, q, 1) <==> b[p] <= b[q]
    ensures Window(b, p, 1) == Window(b, q, 1) <==> b[p] == b[q]
  {
    DivUnique(p, |b|, 0, p);
    DivUnique(q, |b|, 0, q);
    var s, t := Window(b, p, 1), Window(b, q, 1);
    assert s == [b[p]] && t == [b[q]];
    assert LexLess([], []) == false;
  }

  /** Whatever order sorts the rows by their first byte, its first column is the sorted block. */
  lemma FirstColumn(b: seq<byte>, f: seq<int>, k: nat)
    requires SortedByPrefix(b, f, 1) && k < |b|
    ensures CountLess(b, b[f[k]]) <= k < CountLess(b, b[f[k]] as nat + 1)
  {
    hide LexLess, At, RadixPlace;
    var n := |b|;
    var t := seq(n, i requires 0 <= i < n => RadixPlace(b, i));
    var g := seq(n, k requires 0 <= k < n => RadixRow(b, k));
    RadixRows(b, g);
    forall r, s | 0 <= r < s < n ensures PrefixLeq(b, g[r], g[s], 1) {
      RadixRowsOrdered(b, g, r, s);
    }
    SortedOrdersAgree(b, f, g, 1, k);
    WindowOne(b, f[k], g[k]);
    RadixBucket(b, g[k]);
  }

  /** The row the radix loop puts at place k. */
  ghost function RadixRow(b: seq<byte>, k: nat): (i: nat)
    requires k < |b|
    ensures i < |b| && RadixPlace(b, i) == k
  {
    RadixHit(b, k);
    var i: nat :| i < |b| && RadixPlace(b, i) == k;
    i
  }

  lemma RadixHit(b: seq<byte>, k: nat)
    requires k < |b|
    ensures exists i: nat :: i < |b| && RadixPlace(b, i) == k
  {
    hide RadixPlace;
    var n := |b|;
    var t := seq(n, i requires 0 <= i < n => RadixPlace(b, i));
    forall i, j | 0 <= i < j < n ensures t[i] != t[j] {
      RadixApart(b, i, j);
    }
    forall i | 0 <= i < n ensures 0 <= t[i] < n {
      RadixBucket(b, i);
    }
    PermutationHits(t, n, k);
    var i :| 0 <= i < n && t[i] == k;
    assert RadixPlace(b, i) == k;
  }

  lemma RadixRows(b: seq<byte>, g: seq<int>)
    requires |g| == |b| && forall k :: 0 <= k < |b| ==> g[k] == RadixRow(b, k)
    ensures IsPermutation(g, |b|)
  {
    hide RadixPlace;
    forall r, s | 0 <= r < s < |b| ensures g[r] != g[s] {
      assert RadixPlace(b, RadixRow(b, r)) == r && RadixPlace(b, RadixRow(b, s)) == s;
    }
  }

  /** The bucket of byte c starts at k. */
  ghost predicate IsStart(b: seq<byte>, c: byte, k: nat) {
    k == CountLess(b, c)
  }

  /** Rows further down have larger first bytes; and one place down the byte changes exactly at a bucket start. */
  lemma RadixRowsOrdered(b: seq<byte>, g: seq<int>, r: nat, s: nat)
    requires |g| == |b| && r < s < |b| && forall k :: 0 <= k < |b| ==> 0 <= g[k] < |b| && RadixPlace(b, g[k]) == k
    ensures b[g[r]] <= b[g[s]] && PrefixLeq(b, g[r], g[s], 1)
    ensures s == r + 1 ==> (Differ(b, g, s, 1) <==> exists c: byte :: IsStart(b, c, s))
  {
    hide LexLess, At, RadixPlace, CountLess;
    RadixBucket(b, g[r]);
    RadixBucket(b, g[s]);
    WindowOne(b, g[r], g[s]);
    var x, y := b[g[r]], b[g[s]];
    if x > y {
      CountLessMonotone(b, y as nat + 1, x);
    }
    if s == r + 1 {
      if x < y {
        CountLessMonotone(b, x as nat + 1, y);
        assert IsStart(b, y, s);
      }
      forall c: byte | IsStart(b, c, s) ensures x < y {
        if c <= x {
          CountLessMonotone(b, c, x);
        } else if c > y {
          CountLessMonotone(b, y as nat + 1, c);
        }
      }
    }
  }

  /** Byte counts, and where each bucket ends. */
  method CountBytes(block: array<byte>, nblock: nat) returns (ftab: array<int>, ftabCopy: array<int>)
    requires nblock <= block.Length
    ensures fresh(ftab) && fresh(ftabCopy) && ftab != ftabCopy && ftab.Length == 257 && ftabCopy.Length == 256
    ensures forall c: byte :: ftab[c] == CountLess(block[..nblock], c as nat + 1) && ftabCopy[c] == Count(block[..nblock], c)
  {
    ghost var b := block[..nblock];
    ftab, ftabCopy := new int[257](i => 0), new int[256];
    for i := 0 to nblock
      invariant ftab.Length == 257 && ftab[256] == 0 && block[..nblock] == b
      invariant forall c: byte :: ftab[c] == Count(b[..i], c)
    {
      assert b[..i + 1][..i] == b[..i];
      ftab[block[i]] := ftab[block[i]] + 1;
    }
    assert b[..nblock] == b;
    for i := 0 to 256
      invariant ftab.Length == 257 && ftab[256] == 0 && ftab != ftabCopy
      invariant forall c: byte :: ftab[c] == Count(b, c)
      invariant forall c: byte :: c < i ==> ftabCopy[c] == Count(b, c)
    {
      ftabCopy[i] := ftab[i];
    }
    CountLessAll(b);
    CountLessStep(b, 0);
    for i := 1 to 257
      invariant ftab.Length == 257 && ftab[256] >= 0
      invariant forall c: byte :: ftab[c] == if c < i then CountLess(b, c as nat + 1) else Count(b, c)
      invariant forall c: byte :: ftabCopy[c] == Count(b, c)
    {
      if i < 256 {
        CountLessStep(b, i);
      }
      ftab[i] := ftab[i] + ftab[i - 1];
    }
  }

  /** The bucket ends move down as rows are placed. */
  ghost predicate Ends(ftab: seq<int>, b: seq<byte>, i: nat) {
    i <= |b| && |ftab| == 257 && forall c: byte :: ftab[c] == CountLess(b, c as nat + 1) - Count(b[..i], c)
  }

  lemma EndsNext(ftab: seq<int>, b: seq<byte>, i: nat)
    requires Ends(ftab, b, i) && i < |b|
    ensures ftab[b[i]] - 1 == RadixPlace(b, i) && 0 <= RadixPlace(b, i) < |b|
    ensures Ends(ftab[b[i] := ftab[b[i]] - 1], b, i + 1)
  {
    assert b[..i + 1][..i] == b[..i];
    RadixBucket(b, i);
  }

  lemma PlacedNext(f: seq<int>, b: seq<byte>, i: nat)
    requires Placed(f, b, i) && i < |b| && 0 <= RadixPlace(b, i) < |b|
    ensures Placed(f[RadixPlace(b, i) := i], b, i + 1)
  {
    hide RadixPlace;
    forall k | 0 <= k < i ensures RadixPlace(b, k) != RadixPlace(b, i) {
      RadixApart(b, k, i);
    }
  }

  /** The radix loop: afterwards ftab holds the bucket starts. */
  method PlaceRows(fmap: array<word>, block: array<byte>, ftab: array<int>, nblock: nat)
    requires nblock <= block.Length && nblock <= fmap.Length && nblock < 0x1_0000_0000 && ftab.Length == 257 && Ends(ftab[..], block[..nblock], 0)
    modifies fmap, ftab
    ensures Placed(fmap[..nblock], block[..nblock], nblock) && fmap[nblock..] == old(fmap[nblock..])
    ensures ftab.Length == 257 && forall c: byte :: ftab[c] == CountLess(block[..nblock], c)
  {
    hide Placed, Ends, RadixPlace, Count, CountLess;
    ghost var b := block[..nblock];
    NothingPlaced(fmap[..nblock], b);
    for i := 0 to nblock
      invariant block[..nblock] == b && ftab.Length == 257 && Placed(fmap[..nblock], b, i) && Ends(ftab[..], b, i)
      invariant fmap[nblock..] == old(fmap[nblock..])
    {
      ghost var f, e := fmap[..nblock], ftab[..];
      EndsNext(e, b, i);
      PlacedNext(f, b, i);
      var j := block[i];
      assert j == b[i];
      var k := ftab[j] - 1;
      ftab[j] := k;
      fmap[k] := i;
      assert ftab[..] == e[j := e[j] - 1] && fmap[..nblock] == f[k := i];
    }
    EndsAreStarts(ftab[..], b);
  }

  lemma NothingPlaced(f: seq<int>, b: seq<byte>)
    requires |f| == |b|
    ensures Placed(f, b, 0)
  {
  }

  lemma EndsAreStarts(ftab: seq<int>, b: seq<byte>)
    requires Ends(ftab, b, |b|)
    ensures |ftab| == 257 && forall c: byte :: ftab[c] == CountLess(b, c)
  {
    assert b[..|b|] == b;
    forall c: byte ensures ftab[c] == CountLess(b, c) {
      CountLessStep(b, c);
    }
  }

  // ----- bits -----

  /** The first m bits. */
  ghost function Bits(bhtab: seq<Word32>, m: nat): (s: seq<bool>)
    requires m <= 32 * |bhtab|
    ensures |s| == m && forall k :: 0 <= k < m ==> s[k] == IsSet(bhtab, k)
  {
    seq(m, k requires 0 <= k < m => IsSet(bhtab, k))
  }

  /** The starts of the buckets of b are marked, the end of the block and nothing right behind it. */
  ghost predicate StartsMarked(bits: seq<bool>, b: seq<byte>) {
    && |bits| == |b| + 2 && bits[|b|] && !bits[|b| + 1]
    && forall k :: 0 <= k < |b| ==> (bits[k] <==> StartBelow(b, 256, k))
  }

  ghost predicate StartBelow(b: seq<byte>, i: nat, k: nat) {
    exists c: byte :: c < i && IsStart(b, c, k)
  }

  /** In the first n words, exactly the starts of the buckets below i are marked. */
  ghost predicate MarksBelow(bh: seq<Word32>, n: nat, b: seq<byte>, i: nat) {
    n <= |bh| && forall k: nat :: k / 32 < n ==> (IsSet(bh, k) <==> StartBelow(b, i, k))
  }

  lemma MarksStart(bh: seq<Word32>, n: nat, b: seq<byte>)
    requires n <= |bh| && forall w :: 0 <= w < n ==> bh[w] == AllBits(false)
    ensures MarksBelow(bh, n, b, 0)
  {
    AllClear(bh, n);
  }

  lemma OneMoreStart(b: seq<byte>, i: byte, k: nat)
    ensures StartBelow(b, i as nat + 1, k) <==> StartBelow(b, i, k) || k == CountLess(b, i)
  {
    hide CountLess;
    if k == CountLess(b, i) {
      assert IsStart(b, i, k);
    }
  }

  lemma MarksNext(bh: seq<Word32>, bh': seq<Word32>, n: nat, b: seq<byte>, i: byte)
    requires MarksBelow(bh, n, b, i) && |bh'| == |bh|
    requires forall k: nat :: k / 32 < |bh| ==> IsSet(bh', k) == if k == CountLess(b, i) then true else IsSet(bh, k)
    ensures MarksBelow(bh', n, b, i as nat + 1)
  {
    hide IsSet, CountLess, StartBelow;
    forall k: nat | k / 32 < n ensures IsSet(bh', k) <==> StartBelow(b, i as nat + 1, k) {
      assert IsSet(bh, k) <==> StartBelow(b, i, k);
      OneMoreStart(b, i, k);
    }
  }

  method MarkStarts(bhtab: array<Word32>, ftab: array<int>, nblock: nat, ghost b: seq<byte>)
    requires |b| == nblock && bhtab.Length >= nblock / 32 + 3
    requires ftab.Length == 257 && forall c: byte :: ftab[c] == CountLess(b, c)
    modifies bhtab
    ensures StartsMarked(Bits(bhtab[..], nblock + 2), b)
  {
    hide IsSet, CountLess, StartBelow;
    var nBhtab := 2 + nblock / 32;
    for i := 0 to nBhtab
      invariant forall w :: 0 <= w < i ==> bhtab[w] == AllBits(false)
    {
      bhtab[i] := AllBits(false);
    }
    MarksStart(bhtab[..], nBhtab, b);
    for i := 0 to 256
      invariant MarksBelow(bhtab[..], nBhtab, b, i)
    {
      ghost var bh := bhtab[..];
      Put(bhtab, ftab[i], true);
      MarksNext(bh, bhtab[..], nBhtab, b, i);
    }
    ghost var starts := Bits(bhtab[..], nblock + 2);
    for i := 0 to 32
      invariant forall k: nat :: k < nblock ==> IsSet(bhtab[..], k) == starts[k]
      invariant i > 0 ==> IsSet(bhtab[..], nblock) && !IsSet(bhtab[..], nblock + 1)
    {
      Put(bhtab, nblock + 2 * i, true);
      Put(bhtab, nblock + 2 * i + 1, false);
    }
  }

  lemma AllClear(bhtab: seq<Word32>, n: nat)
    requires n <= |bhtab| && forall w :: 0 <= w < n ==> bhtab[w] == AllBits(false)
    ensures forall k: nat :: k / 32 < n ==> !IsSet(bhtab, k)
  {
  }

  /** After the radix sort everything is sorted and marked for one byte. */
  lemma RadixBucketed(f: seq<int>, b: seq<byte>, bits: seq<bool>)
    requires b != [] && Placed(f, b, |b|) && StartsMarked(bits, b)
    ensures Bucketed(b, f, bits, 1)
  {
    hide LexLess, At, RadixPlace, CountLess, Differ, StartBelow;
    RadixPermutation(f, b);
    CountLessAll(b);
    assert IsStart(b, 0, 0);
    StartsBelow(b, 0);
    forall r, s | 0 <= r < s < |b| ensures PrefixLeq(b, f[r], f[s], 1) {
      RadixRowsOrdered(b, f, r, s);
    }
    forall i | 1 <= i < |b| ensures bits[i] <==> Differ(b, f, i, 1) {
      RadixRowsOrdered(b, f, i - 1, i);
      StartsBelow(b, i);
    }
  }

  lemma StartsBelow(b: seq<byte>, k: nat)
    ensures StartBelow(b, 256, k) <==> exists c: byte :: IsStart(b, c, k)
  {
  }

  // ----- one round -----

  /** The classes of the rows below i are written. */
  ghost predicate ClassesBelow(ec: seq<int>, f: seq<int>, bits: seq<bool>, h: nat, n: nat, i: nat) {
    && n <= |ec| && i <= n <= |f| && n <= |bits|
    && forall k :: 0 <= k < i ==> 0 <= Before(f[k], h, n) < n && ec[Before(f[k], h, n)] == Head(bits, k)
  }

  lemma ClassesNext(ec: seq<int>, b: seq<byte>, f: seq<int>, bits: seq<bool>, h: nat, i: nat)
    requires ClassesBelow(ec, f, bits, h, |b|, i) && i < |b| && IsPermutation(f, |b|) && h <= |b|
    ensures 0 <= Before(f[i], h, |b|) < |b|
    ensures ClassesBelow(ec[Before(f[i], h, |b|) := Head(bits, i)], f, bits, h, |b|, i + 1)
  {
    hide Head;
    var n := |b|;
    BeforeWraps(f[i], h, n);
    forall k | 0 <= k < i ensures Before(f[k], h, n) != Before(f[i], h, n) {
      BeforeWraps(f[k], h, n);
    }
  }

  /** For every row, the head of its bucket becomes the class of the position H before it. The block, which the
      classes overlay, is lost. */
  method SetClasses(fmap: array<word>, eclass: array<word>, block: array<byte>, bhtab: array<Word32>, nblock: nat, H: nat,
                    ghost b: seq<byte>, ghost bits: seq<bool>)
    requires fmap != eclass && |b| == nblock < 0x1_0000_0000 && nblock <= fmap.Length && nblock <= eclass.Length
    requires nblock + 2 <= 32 * bhtab.Length && bits == Bits(bhtab[..], nblock + 2)
    requires H <= nblock && Bucketed(b, fmap[..nblock], bits, H)
    modifies eclass, block
    ensures ClassKeys(b, eclass[..], H) && forall k :: 0 <= k < nblock ==> eclass[k] < nblock
    ensures eclass[nblock..] == old(eclass[nblock..])
  {
    hide Head, Before, Bucketed, ClassesBelow, ClassKeys;
    ghost var f := fmap[..nblock];
    modify block;
    assert fmap[..nblock] == f;
    BucketedMeans(b, f, bits, H);
    NoClasses(eclass[..], f, bits, H, nblock);
    var j := 0;
    for i := 0 to nblock
      invariant 0 <= j <= i && (i > 0 ==> j == Head(bits, i - 1))
      invariant ClassesBelow(eclass[..], f, bits, H, nblock, i)
      invariant eclass[nblock..] == old(eclass[nblock..])
    {
      ghost var ec := eclass[..];
      HeadStep(bits, i);
      if bhtab[i / 32][i % 32] {
        j := i;
      }
      var k: int := fmap[i] as int - H;
      if k < 0 {
        k := k + nblock;
      }
      BeforeIs(f[i], H, nblock);
      ClassesNext(ec, b, f, bits, H, i);
      eclass[k] := j;
      assert eclass[..] == ec[k := j];
    }
    ClassesDone(eclass[..], b, f, bits, H);
  }

  lemma BeforeIs(f: int, h: nat, n: nat)
    ensures Before(f, h, n) == if f - h < 0 then f - h + n else f - h
  {
  }

  lemma HeadStep(bits: seq<bool>, i: nat)
    requires i < |bits| && bits[0]
    ensures Head(bits, i) == if bits[i] then i else Head(bits, i - 1)
  {
  }

  lemma NoClasses(ec: seq<int>, f: seq<int>, bits: seq<bool>, h: nat, n: nat)
    requires n <= |ec| && n <= |f| && n <= |bits|
    ensures ClassesBelow(ec, f, bits, h, n, 0)
  {
  }

  lemma ClassesDone(ec: seq<int>, b: seq<byte>, f: seq<int>, bits: seq<bool>, h: nat)
    requires Bucketed(b, f, bits, h) && h <= |b| && ClassesBelow(ec, f, bits, h, |b|, |b|)
    ensures ClassKeys(b, ec, h) && forall k :: 0 <= k < |b| ==> 0 <= ec[k] < |b|
  {
    hide Head, Differ, LexLess, At;
    HeadsAreKeys(b, f, bits, h, ec);
    forall p | 0 <= p < |b| ensures 0 <= ec[p] < |b| {
      var i := RowAfter(b, f, h, p);
    }
  }

  lemma BucketedMeans(b: seq<byte>, f: seq<int>, bits: seq<bool>, h: nat)
    requires Bucketed(b, f, bits, h)
    ensures b != [] && IsPermutation(f, |b|) && |b| <= |bits| && bits[0]
  {
  }

  /** Find the next bucket of more than one row. The search for its end always succeeds inside the block. */
  method FindBucket(bhtab: array<Word32>, from: nat, nblock: nat, ghost bits: seq<bool>) returns (l: int, r: int)
    requires nblock + 2 <= 32 * bhtab.Length && bits == Bits(bhtab[..], nblock + 2)
    requires from <= nblock && bits[nblock] && !bits[nblock + 1] && (from < nblock ==> bits[from])
    ensures from <= l <= nblock && (forall k :: from <= k <= l ==> bits[k])
    ensures l < nblock ==> l < r < nblock && (forall k :: l < k <= r ==> !bits[k]) && bits[r + 1]
  {
    hide IsSet, AllBits;
    var k := FirstOther(bhtab, from, true, nblock + 1);
    RunOf(bhtab[..], bits, from, k, true);
    l := k - 1;
    r := l;
    if l < nblock {
      var start := k;
      k := FirstOther(bhtab, k, false, nblock);
      RunOf(bhtab[..], bits, start, k, false);
      r := k - 1;
    }
  }

  lemma RunOf(bhtab: seq<Word32>, bits: seq<bool>, lo: nat, hi: nat, b: bool)
    requires |bits| <= 32 * |bhtab| && bits == Bits(bhtab, |bits|) && lo <= hi < |bits| && Uniform(bhtab, lo, hi, b)
    requires IsSet(bhtab, hi) != b
    ensures forall k :: lo <= k < hi ==> bits[k] == b
    ensures bits[hi] != b
  {
  }

  /** Scan a sorted bucket and mark where the class changes. */
  method MarkBucket(fmap: array<word>, eclass: array<word>, bhtab: array<Word32>, l: nat, r: nat, nblock: nat,
                    ghost g: seq<int>, ghost bits: seq<bool>)
    returns (ghost marks: seq<bool>)
    requires fmap != eclass && l <= r < nblock <= fmap.Length && g == fmap[..nblock]
    requires nblock + 2 <= 32 * bhtab.Length && bits == Bits(bhtab[..], nblock + 2)
    requires InRange(g, eclass[..], l, r + 1) && forall k :: l < k <= r ==> !bits[k]
    modifies bhtab
    ensures marks == Bits(bhtab[..], nblock + 2) && Marked(g, eclass[..], bits, marks, l, r)
  {
    hide IsSet, Bits;
    ghost var ec := eclass[..];
    var cc: int := -1;
    marks := bits;
    for i := l to r + 1
      invariant cc == if i == l then -1 else ec[g[i - 1]]
      invariant |marks| == |bits| == nblock + 2 && marks == Bits(bhtab[..], nblock + 2)
      invariant forall k :: 0 <= k < |bits| && !(l <= k < i) ==> marks[k] == bits[k]
      invariant i > l ==> marks[l]
      invariant forall k :: l < k < i ==> (marks[k] <==> ec[g[k - 1]] != ec[g[k]])
    {
      assert fmap[i] == g[i];
      var cc1 := eclass[fmap[i]];
      if cc != cc1 {
        ghost var bh := bhtab[..];
        Put(bhtab, i, true);
        BitPut(bh, bhtab[..], nblock + 2, i, true);
        marks := marks[i := true];
        cc := cc1;
      }
    }
  }

  lemma BitPut(bh: seq<Word32>, bh': seq<Word32>, m: nat, zz: nat, b: bool)
    requires m <= 32 * |bh| && |bh'| == |bh| && zz < m
    requires forall k: nat :: k / 32 < |bh| ==> IsSet(bh', k) == if k == zz then b else IsSet(bh, k)
    ensures Bits(bh', m) == Bits(bh, m)[zz := b]
  {
  }

  /** Between two buckets of a round. */
  ghost predicate InRound(b: seq<byte>, f: seq<int>, bits: seq<bool>, ec: seq<int>, h: nat, d: nat) {
    && |b| <= 900000 && |bits| == |b| + 2 && bits[|b|] && !bits[|b| + 1]
    && Refining(b, f, bits, h, d) && ClassKeys(b, ec, h)
  }

  lemma InRoundMeans(b: seq<byte>, f: seq<int>, bits: seq<bool>, ec: seq<int>, h: nat, d: nat)
    requires InRound(b, f, bits, ec, h, d)
    ensures d <= |b| && |b| <= 900000 && |bits| == |b| + 2 && bits[|b|] && !bits[|b| + 1] && (d < |b| ==> bits[d])
    ensures |f| == |b| <= |ec| && forall i :: 0 <= i < |b| ==> 0 <= f[i] < |b|
  {
  }

  lemma InRoundSkip(b: seq<byte>, f: seq<int>, bits: seq<bool>, ec: seq<int>, h: nat, d: nat, l: nat)
    requires InRound(b, f, bits, ec, h, d) && d <= l <= |b| && forall k :: d <= k <= l ==> bits[k]
    ensures InRound(b, f, bits, ec, h, l)
  {
    hide Refining, ClassKeys;
    SkipSingles(b, f, bits, h, d, l);
  }

  lemma InRoundBucket(b: seq<byte>, f: seq<int>, g: seq<int>, bits: seq<bool>, marks: seq<bool>, ec: seq<int>, h: nat, l: nat, r: nat)
    requires InRound(b, f, bits, ec, h, l) && l <= r < |b|
    requires bits[l] && (forall k :: l < k <= r ==> !bits[k]) && bits[r + 1]
    requires Rearranged(f, g, l, r + 1) && SortedBy(g, ec, l, r + 1) && Marked(g, ec, bits, marks, l, r)
    ensures InRound(b, g, marks, ec, h, r + 1)
  {
    hide Refining, ClassKeys, Rearranged, SortedBy;
    BucketDone(b, f, g, bits, marks, h, l, r, ec);
  }

  lemma PrefixSorted(a: seq<int>, c: seq<int>, ec: seq<int>, l: nat, h: nat, n: nat)
    requires Rearranged(a, c, l, h) && SortedBy(c, ec, l, h) && h <= n <= |a|
    ensures n <= |c| && Rearranged(a[..n], c[..n], l, h) && SortedBy(c[..n], ec, l, h) && InRange(c[..n], ec, l, h)
    ensures a[n..] == c[n..]
  {
    assert a[..n][..l] == a[..l] && c[..n][..l] == c[..l];
    assert a[..n][h..] == a[h..][..n - h] && c[..n][h..] == c[h..][..n - h];
    assert a[..n][l..h] == a[l..h] && c[..n][l..h] == c[l..h];
    assert a[n..] == a[h..][n - h..] && c[n..] == c[h..][n - h..];
  }

  /** Sort one bucket by class. */
  method SortBucket(fmap: array<word>, eclass: array<word>, nblock: nat, l: nat, r: nat)
    requires fmap != eclass && nblock <= fmap.Length && l <= r < nblock <= 900000 && InRange(fmap[..nblock], eclass[..], l, r + 1)
    modifies fmap
    ensures Rearranged(old(fmap[..nblock]), fmap[..nblock], l, r + 1) && SortedBy(fmap[..nblock], eclass[..], l, r + 1)
    ensures InRange(fmap[..nblock], eclass[..], l, r + 1) && fmap[nblock..] == old(fmap[nblock..])
  {
    ghost var a := fmap[..];
    assert InRange(a, eclass[..], l, r + 1) by {
      assert forall i :: l <= i < r + 1 ==> a[i] == fmap[..nblock][i];
    }
    hide *;
    FallbackQSort3(fmap, eclass, l, r);
    PrefixSorted(a, fmap[..], eclass[..], l, r + 1, nblock);
    assert fmap[..][..nblock] == fmap[..nblock] && fmap[..][nblock..] == fmap[nblock..];
  }

  lemma RowsInRange(b: seq<byte>, f: seq<int>, bits: seq<bool>, ec: seq<int>, h: nat, l: nat, r: nat)
    requires InRound(b, f, bits, ec, h, l) && l <= r < |b|
    ensures InRange(f, ec, l, r + 1) && |b| <= 900000
  {
    hide LexLess, At;
    InRoundMeans(b, f, bits, ec, h, l);
  }

  /** Sort one bucket by class and mark its new buckets. */
  method RefineBucket(fmap: array<word>, eclass: array<word>, bhtab: array<Word32>, nblock: nat, l: nat, r: nat,
                      ghost b: seq<byte>, ghost bits: seq<bool>, ghost H: nat)
    returns (ghost marks: seq<bool>)
    requires fmap != eclass && |b| == nblock <= fmap.Length && nblock + 2 <= 32 * bhtab.Length && |bits| == nblock + 2
    requires bits == Bits(bhtab[..], nblock + 2) && InRound(b, fmap[..nblock], bits, eclass[..], H, l)
    requires l <= r < nblock && bits[l] && (forall k :: l < k <= r ==> !bits[k]) && bits[r + 1]
    modifies fmap, bhtab
    ensures marks == Bits(bhtab[..], nblock + 2) && InRound(b, fmap[..nblock], marks, eclass[..], H, r + 1)
    ensures fmap[nblock..] == old(fmap[nblock..])
  {
    hide *;
    ghost var f, ec := fmap[..nblock], eclass[..];
    RowsInRange(b, f, bits, ec, H, l, r);
    SortBucket(fmap, eclass, nblock, l, r);
    ghost var g := fmap[..nblock];
    marks := MarkBucket(fmap, eclass, bhtab, l, r, nblock, g, bits);
    InRoundBucket(b, f, g, bits, marks, ec, H, l, r);
  }

  /** One pass over all buckets of more than one row. */
  method RefineBuckets(fmap: array<word>, eclass: array<word>, bhtab: array<Word32>, nblock: nat,
                       ghost b: seq<byte>, ghost bits: seq<bool>, ghost H: nat)
    returns (nNotDone: nat, ghost bits': seq<bool>)
    requires fmap != eclass && |b| == nblock <= fmap.Length && nblock + 2 <= 32 * bhtab.Length
    requires bits == Bits(bhtab[..], nblock + 2) && InRound(b, fmap[..nblock], bits, eclass[..], H, 0)
    modifies fmap, bhtab
    ensures bits' == Bits(bhtab[..], nblock + 2) && InRound(b, fmap[..nblock], bits', eclass[..], H, nblock)
    ensures nNotDone == 0 ==> forall i :: 0 <= i < nblock ==> bits'[i]
    ensures fmap[nblock..] == old(fmap[nblock..])
  {
    hide InRound, Bits;
    nNotDone := 0;
    bits' := bits;
    var r: int := -1;
    while true
      invariant -1 <= r < nblock && bits' == Bits(bhtab[..], nblock + 2) && InRound(b, fmap[..nblock], bits', eclass[..], H, r + 1)
      invariant nNotDone == 0 ==> forall i :: 0 <= i <= r ==> bits'[i]
      invariant fmap[nblock..] == old(fmap[nblock..])
      decreases nblock - r
    {
      ghost var d := r + 1;
      InRoundMeans(b, fmap[..nblock], bits', eclass[..], H, d);
      var l;
      l, r := FindBucket(bhtab, r + 1, nblock, bits');
      InRoundSkip(b, fmap[..nblock], bits', eclass[..], H, d, l);
      if l >= nblock {
        break;
      }
      nNotDone := nNotDone + (r - l + 1);
      bits' := RefineBucket(fmap, eclass, bhtab, nblock, l, r, b, bits', H);
    }
  }

  // ----- the sort -----

  lemma RoundBegins(b: seq<byte>, f: seq<int>, bits: seq<bool>, ec: seq<int>, h: nat)
    requires Bucketed(b, f, bits, h) && ClassKeys(b, ec, h) && |b| <= 900000 && |bits| == |b| + 2 && bits[|b|] && !bits[|b| + 1]
    ensures InRound(b, f, bits, ec, h, 0)
  {
    hide Bucketed, Refining, ClassKeys;
    RoundStarts(b, f, bits, h);
  }

  lemma RoundCompletes(b: seq<byte>, f: seq<int>, bits: seq<bool>, ec: seq<int>, h: nat)
    requires InRound(b, f, bits, ec, h, |b|)
    ensures Bucketed(b, f, bits, 2 * h) && |bits| == |b| + 2 && bits[|b|] && !bits[|b| + 1]
  {
    hide Bucketed, Refining, ClassKeys;
    RoundEnds(b, f, bits, h);
  }

  /** The log(N) loop: every round doubles the number of bytes by which the rows are sorted. */
  method Doubling(fmap: array<word>, eclass: array<word>, block: array<byte>, bhtab: array<Word32>, nblock: nat,
                  ghost b: seq<byte>, ghost bits0: seq<bool>)
    requires fmap != eclass && |b| == nblock <= 900000 && nblock <= fmap.Length && nblock <= eclass.Length
    requires nblock + 2 <= 32 * bhtab.Length && bits0 == Bits(bhtab[..], nblock + 2) && |bits0| == nblock + 2
    requires Bucketed(b, fmap[..nblock], bits0, 1) && b != [] && bits0[nblock] && !bits0[nblock + 1]
    modifies fmap, eclass, block, bhtab
    ensures SortedRotations(b, fmap[..nblock]) && fmap[nblock..] == old(fmap[nblock..])
  {
    hide *;
    ghost var bits := bits0;
    var H := 1;
    while true
      invariant 1 <= H <= nblock && fmap[nblock..] == old(fmap[nblock..])
      invariant |bits| == nblock + 2 && bits == Bits(bhtab[..], nblock + 2) && bits[nblock] && !bits[nblock + 1]
      invariant Bucketed(b, fmap[..nblock], bits, H)
      decreases nblock - H
    {
      SetClasses(fmap, eclass, block, bhtab, nblock, H, b, bits);
      RoundBegins(b, fmap[..nblock], bits, eclass[..], H);
      var nNotDone;
      nNotDone, bits := RefineBuckets(fmap, eclass, bhtab, nblock, b, bits, H);
      RoundCompletes(b, fmap[..nblock], bits, eclass[..], H);
      H := 2 * H;
      if H > nblock || nNotDone == 0 {
        break;
      }
    }
    Resolved(b, fmap[..nblock], bits, H);
  }

  lemma SortedByFirst(b: seq<byte>, f: seq<int>)
    requires SortedRotations(b, f)
    ensures SortedByPrefix(b, f, 1)
  {
    hide LexLess, At;
    forall r, s | 0 <= r < s < |b| ensures PrefixLeq(b, f[r], f[s], 1) {
      assert PrefixLeq(b, f[r], f[s], |b|);
      ShorterWindows(b, f[r], f[s], 1, |b| - 1);
    }
  }

  /** How many rows from place i on begin with byte c. */
  function RowsLeft(b: seq<byte>, c: byte, i: nat): int {
    Max(0, CountLess(b, c as nat + 1) - Max(i, CountLess(b, c)))
  }

  lemma RowsLeftStart(b: seq<byte>, c: byte)
    ensures RowsLeft(b, c, 0) == Count(b, c)
  {
    CountLessStep(b, c);
  }

  lemma RowsLeftNext(b: seq<byte>, i: nat, c0: byte)
    requires CountLess(b, c0) <= i < CountLess(b, c0 as nat + 1)
    ensures RowsLeft(b, c0, i) > 0
    ensures forall c: byte :: RowsLeft(b, c, i + 1) == RowsLeft(b, c, i) - if c == c0 then 1 else 0
  {
    hide CountLess;
    forall c: byte ensures RowsLeft(b, c, i + 1) == RowsLeft(b, c, i) - if c == c0 then 1 else 0 {
      if c < c0 {
        CountLessMonotone(b, c as nat + 1, c0);
      } else if c > c0 {
        CountLessMonotone(b, c0 as nat + 1, c);
      }
      CountLessMonotone(b, c, c as nat + 1);
    }
  }

  /** The bucket that place i belongs to is the only one whose start is passed and whose end is not. */
  lemma RightBucket(b: seq<byte>, i: nat, c0: byte, j: byte)
    requires CountLess(b, c0) <= i < CountLess(b, c0 as nat + 1) && CountLess(b, j) <= i
    ensures RowsLeft(b, j, i) == 0 ==> CountLess(b, j as nat + 1) <= i && j < c0
    ensures RowsLeft(b, j, i) > 0 ==> j == c0
  {
    hide CountLess;
    if j < c0 {
      CountLessMonotone(b, j as nat + 1, c0);
    } else if j > c0 {
      CountLessMonotone(b, c0 as nat + 1, j);
    }
  }

  ghost predicate LeftAre(left: seq<int>, b: seq<byte>, i: nat) {
    |left| == 256 && forall c: byte :: left[c] == RowsLeft(b, c, i)
  }

  lemma AllLeft(left: seq<int>, b: seq<byte>)
    requires |left| == 256 && forall c: byte :: left[c] == Count(b, c)
    ensures LeftAre(left, b, 0) && CountLess(b, 0) == 0
  {
    hide CountLess, Count, RowsLeft;
    CountLessAll(b);
    forall c: byte ensures left[c] == RowsLeft(b, c, 0) {
      RowsLeftStart(b, c);
    }
  }

  lemma OneLess(left: seq<int>, b: seq<byte>, i: nat, c0: byte)
    requires LeftAre(left, b, i) && CountLess(b, c0) <= i < CountLess(b, c0 as nat + 1)
    ensures LeftAre(left[c0 := left[c0] - 1], b, i + 1)
  {
    hide CountLess, RowsLeft;
    RowsLeftNext(b, i, c0);
  }

  /** Skip the bytes that are used up: this finds the first byte of row i. */
  method NextByte(ftabCopy: array<int>, from: byte, ghost b: seq<byte>, ghost i: nat, ghost c0: byte) returns (j: byte)
    requires LeftAre(ftabCopy[..], b, i) && CountLess(b, from) <= i && CountLess(b, c0) <= i < CountLess(b, c0 as nat + 1)
    ensures j == c0
  {
    hide CountLess, RowsLeft;
    ghost var left := ftabCopy[..];
    j := from;
    RightBucket(b, i, c0, j);
    while ftabCopy[j] == 0
      invariant CountLess(b, j) <= i
      decreases 256 - j
    {
      assert left[j] == RowsLeft(b, j, i);
      RightBucket(b, i, c0, j);
      j := j + 1;
    }
    assert left[j] == RowsLeft(b, j, i);
    RowsNotNegative(b, j, i);
    RightBucket(b, i, c0, j);
  }

  lemma RowsNotNegative(b: seq<byte>, c: byte, i: nat)
    ensures RowsLeft(b, c, i) >= 0
  {
  }

  /** Reconstruct the block: the rows in order begin with the bytes in order. */
  method Rebuild(fmap: array<word>, block: array<byte>, ftabCopy: array<int>, nblock: nat, ghost b: seq<byte>)
    requires |b| == nblock <= fmap.Length && nblock <= block.Length && ftabCopy.Length == 256
    requires SortedRotations(b, fmap[..nblock]) && forall c: byte :: ftabCopy[c] == Count(b, c)
    modifies block, ftabCopy
    ensures block[..nblock] == b
  {
    ghost var f := fmap[..nblock];
    SortedByFirst(b, f);
    assert IsPermutation(f, nblock);
    AllLeft(ftabCopy[..], b);
    hide CountLess, LeftAre, SortedByPrefix, Injective;
    var j: byte := 0;
    for i := 0 to nblock
      invariant CountLess(b, j) <= i && fmap[..nblock] == f && ftabCopy.Length == 256 && LeftAre(ftabCopy[..], b, i)
      invariant forall k :: 0 <= k < i ==> block[f[k]] == b[f[k]]
    {
      ghost var left := ftabCopy[..];
      FirstColumn(b, f, i);
      j := NextByte(ftabCopy, j, b, i, b[f[i]]);
      OneLess(left, b, i, j);
      ftabCopy[j] := ftabCopy[j] - 1;
      assert ftabCopy[..] == left[j := left[j] - 1];
      assert fmap[i] == f[i];
      block[fmap[i]] := j;
    }
    forall x | 0 <= x < nblock ensures block[x] == b[x] {
      PermutationHits(f, nblock, x);
      var k :| 0 <= k < nblock && f[k] == x;
      assert block[f[k]] == b[f[k]];
    }
  }

  /** fallbackSort: fmap becomes a sorted order of the rotations, and the block is back afterwards. */
  method FallbackSort(fmap: array<word>, eclass: array<word>, block: array<byte>, bhtab: array<Word32>, nblock: nat)
    requires fmap != eclass && 1 <= nblock <= 900000
    requires nblock <= fmap.Length && nblock <= eclass.Length && nblock <= block.Length && bhtab.Length >= nblock / 32 + 3
    modifies fmap, eclass, block, bhtab
    ensures SortedRotations(old(block[..nblock]), fmap[..nblock]) && fmap[nblock..] == old(fmap[nblock..])
    ensures block[..nblock] == old(block[..nblock])
  {
    hide *;
    ghost var b := block[..nblock];
    var ftab, ftabCopy := CountBytes(block, nblock);
    EndsStart(ftab[..], b);
    PlaceRows(fmap, block, ftab, nblock);
    MarkStarts(bhtab, ftab, nblock, b);
    ghost var bits := Bits(bhtab[..], nblock + 2);
    RadixBucketed(fmap[..nblock], b, bits);
    Sentinels(bits, b);
    Doubling(fmap, eclass, block, bhtab, nblock, b, bits);
    Rebuild(fmap, block, ftabCopy, nblock, b);
  }

  lemma EndsStart(ftab: seq<int>, b: seq<byte>)
    requires |ftab| == 257 && forall c: byte :: ftab[c] == CountLess(b, c as nat + 1)
    ensures Ends(ftab, b, 0)
  {
  }

  lemma Sentinels(bits: seq<bool>, b: seq<byte>)
    requires StartsMarked(bits, b)
    ensures |bits| == |b| + 2 && bits[|b|] && !bits[|b| + 1]
  {
  }
}
