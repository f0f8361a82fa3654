/** How long the bit string of a block can get: it always fits into the part of arr2 behind the block. */
module Capacity {
  import opened Limits
  import opened Numbers
  import opened CanonicalCodes
  import opened MoveToFront
  import opened Rotations
  import opened BlockFormat

  lemma {:induction false} UnaryLength(m: seq<nat>, k: nat)
    requires forall i :: 0 <= i < |m| ==> m[i] < k
    ensures |UnaryBits(m)| <= k * |m|
  {
    if m != [] {
      UnaryLength(m[1..], k);
      MulDistribute(1, |m| - 1, k);
    }
  }

  lemma {:induction false} DeltaLength(curr: int, want: int)
    requires 0 <= curr <= 17 && 0 <= want <= 17
    ensures |DeltaBits(curr, want)| == 1 + 2 * (if curr < want then want - curr else curr - want) <= 35
    decreases if curr < want then want - curr else curr - want
  {
    if curr < want {
      DeltaLength(curr + 1, want);
    } else if curr > want {
      DeltaLength(curr - 1, want);
    }
  }

  lemma {:induction false} DeltasLength(lens: seq<byte>, curr: int)
    requires 0 <= curr <= 17 && forall i :: 0 <= i < |lens| ==> lens[i] <= 17
    ensures |LengthDeltas(lens, curr)| <= 35 * |lens|
  {
    if lens != [] {
      DeltaLength(curr, lens[0]);
      DeltasLength(lens[1..], lens[0]);
    }
  }

  lemma {:induction false} TablesLength(lens: seq<seq<byte>>)
    requires forall t :: 0 <= t < |lens| ==> lens[t] != [] && |lens[t]| <= 258 && forall i :: 0 <= i < |lens[t]| ==> lens[t][i] <= 17
    ensures |AllTableBits(lens)| <= 9035 * |lens|
  {
    hide LengthDeltas;
    if lens != [] {
      DeltasLength(lens[0], lens[0][0]);
      TablesLength(lens[1..]);
    }
  }

  lemma {:induction false} DataLength(syms: seq<nat>, k: nat, selectors: seq<nat>, lens: seq<seq<byte>>)
    requires Codable(syms, k, selectors, lens)
    requires forall t, i :: 0 <= t < |lens| && 0 <= i < |lens[t]| ==> lens[t][i] <= 17
    ensures |DataBits(syms, k, selectors, lens)| <= 17 * |syms|
    decreases |syms|
  {
    if syms != [] {
      assert Codable(syms[1..], k + 1, selectors, lens);
      DataLength(syms[1..], k + 1, selectors, lens);
    }
  }

  lemma {:induction false} RowsLength(inUse: seq<bool>, i: nat)
    requires |inUse| == 256 && i <= 16
    ensures |UsedRows(inUse, i)| <= 16 * (16 - i)
    decreases 16 - i
  {
    if i < 16 {
      RowsLength(inUse, i + 1);
    }
  }

  /** Header, byte map and tables take at most 55000 bits, selectors 6 bits and symbols 17 bits each. */
  lemma BlockLength(img: Image, blockSize100k: nat)
    requires ValidImage(img, blockSize100k)
    ensures |BlockBits(img, blockSize100k)| <= 55000 + 6 * |img.selectors| + 17 * (|img.block| + 1)
  {
    hide LexLess, At, Kraft, Count, MtfSymbols, UsedRows, LengthDeltas, DataBits, UnaryBits, AllTableBits, BlockSyms, UsedBytes, SelectorMtf;
    ImageCodable(img, blockSize100k);
    var inUse := UsedFlags(img.block);
    RowsLength(inUse, 0);
    InIdentity(|img.lens|, img.selectors);
    UnaryLength(SelectorMtf(img.selectors, Identity(|img.lens|)), 6);
    TablesLength(img.lens);
    DataLength(BlockSyms(img), 0, img.selectors, img.lens);
  }

  lemma SelectorCount(img: Image, blockSize100k: nat)
    requires ValidImage(img, blockSize100k)
    ensures GROUP_SIZE * |img.selectors| <= |img.block| + 50
  {
    hide BlockSyms, LexLess, At, Kraft;
    ImageCodable(img, blockSize100k);
  }

  /** With the residual bits of the block before, a stream header, the trailer and its padding, the bits of a
      block fit in the bytes of arr2 behind the block. */
  lemma BlockFits(img: Image, blockSize100k: nat)
    requires ValidImage(img, blockSize100k)
    ensures 64 + |BlockBits(img, blockSize100k)| + 80 + 7 <= 8 * (4 * (100000 * blockSize100k + N_OVERSHOOT) - |img.block|)
  {
    hide BlockBits, BlockSyms, LexLess, At, Kraft;
    BlockLength(img, blockSize100k);
    SelectorCount(img, blockSize100k);
  }
}
