/** The bit format of one compressed block and of the whole stream, as functions of the block's image:
    its bytes, the sorted rotations and the coding tables chosen for it. */
module BlockFormat {
  import opened Limits
  import opened Numbers
  import opened BitStrings
  import opened Rotations
  import opened InverseBwt
  import opened MoveToFront
  import opened CanonicalCodes
  import Crc

  datatype Image = Image(
    block: seq<byte>,
    ptr: seq<int>,
    origPtr: nat,
    crc: word,
    lens: seq<seq<byte>>,
    selectors: seq<byte>)

  ghost predicate Sorted(img: Image) {
    SortedRotations(img.block, img.ptr) && img.origPtr < |img.block| && img.ptr[img.origPtr] == 0
  }

  /** The symbols sent for a sorted block. */
  ghost function BlockSyms(img: Image): seq<nat>
    requires Sorted(img)
  {
    BlockColumnUsed(img);
    BlockSymbols(LastColumn(img.block, img.ptr), UsedFlags(img.block))
  }

  lemma BlockColumnUsed(img: Image)
    requires Sorted(img)
    ensures var col := LastColumn(img.block, img.ptr);
      forall k :: 0 <= k < |col| ==> UsedFlags(img.block)[col[k]]
  {
  }

  function AlphaSize(block: seq<byte>): nat {
    |UsedBytes(UsedFlags(block), 256)| + 2
  }

  function GroupCount(nMTF: nat): nat {
    (nMTF + GROUP_SIZE - 1) / GROUP_SIZE
  }

  /** The tables fit the block: any choice of tables and selectors with these bounds is a legal encoding. */
  ghost predicate ValidImage(img: Image, blockSize100k: nat) {
    && 1 <= blockSize100k <= 9
    && |img.block| <= 100000 * blockSize100k - 10
    && Sorted(img)
    && 2 <= |img.lens| <= 6
    && (forall t :: 0 <= t < |img.lens| ==> |img.lens[t]| == AlphaSize(img.block) && ValidLengths(img.lens[t], MAX_SENT_CODE))
    && |img.selectors| == GroupCount(|BlockSyms(img)|)
    && |img.selectors| <= MAX_SELECTORS
    && forall k :: 0 <= k < |img.selectors| ==> img.selectors[k] < |img.lens|
  }

  function WordBits(w: word): Bits {
    ToBits(8, w / 0x100_0000) + ToBits(8, w / 0x1_0000 % 256) + ToBits(8, w / 0x100 % 256) + ToBits(8, w % 256)
  }

  /** Block magic, checksum, the always-zero randomisation bit and the origin pointer. */
  function HeaderBits(crc: word, origPtr: nat): Bits {
    ToBits(8, 0x31) + ToBits(8, 0x41) + ToBits(8, 0x59) + ToBits(8, 0x26) + ToBits(8, 0x53) + ToBits(8, 0x59)
    + WordBits(crc) + ToBits(1, 0) + ToBits(24, origPtr)
  }

  predicate RowUsed(inUse: seq<bool>, i: nat)
    requires |inUse| == 256 && i < 16
  {
    true in inUse[16 * i..16 * i + 16]
  }

  function RowFlags(inUse: seq<bool>): (r: Bits)
    requires |inUse| == 256
    ensures |r| == 16
  {
    seq(16, i requires 0 <= i < 16 => RowUsed(inUse, i))
  }

  function UsedRows(inUse: seq<bool>, i: nat): Bits
    requires |inUse| == 256 && i <= 16
    decreases 16 - i
  {
    if i == 16 then []
    else (if RowUsed(inUse, i) then inUse[16 * i..16 * i + 16] else []) + UsedRows(inUse, i + 1)
  }

  /** Which byte values occur: one bit per row of 16, then the bits of the used rows. */
  function MappingBits(inUse: seq<bool>): Bits
    requires |inUse| == 256
  {
    RowFlags(inUse) + UsedRows(inUse, 0)
  }

  /** The selectors after move-to-front. */
  function SelectorMtf(selectors: seq<byte>, pos: seq<byte>): (r: seq<nat>)
    requires forall k :: 0 <= k < |selectors| ==> selectors[k] in pos
    ensures |r| == |selectors|
    ensures forall k :: 0 <= k < |r| ==> r[k] < |pos|
  {
    if selectors == [] then []
    else
      var j := IndexOf(pos, selectors[0]);
      ToFrontKeepsEntries(pos, j);
      [j] + SelectorMtf(selectors[1..], ToFront(pos, j))
  }

  function Ones(n: nat): (s: Bits)
    ensures |s| == n
  {
    seq(n, _ => true)
  }

  function UnaryBits(m: seq<nat>): Bits {
    if m == [] then [] else Ones(m[0]) + [false] + UnaryBits(m[1..])
  }

  function SelectorBits(nGroups: nat, selectors: seq<byte>): Bits
    requires nGroups <= 6 && forall k :: 0 <= k < |selectors| ==> selectors[k] < nGroups
  {
    InIdentity(nGroups, selectors);
    ToBits(3, nGroups) + ToBits(15, |selectors|) + UnaryBits(SelectorMtf(selectors, Identity(nGroups)))
  }

  lemma InIdentity(n: nat, selectors: seq<byte>)
    requires n <= 256 && forall k :: 0 <= k < |selectors| ==> selectors[k] < n
    ensures forall k :: 0 <= k < |selectors| ==> selectors[k] in Identity(n)
  {
    forall k | 0 <= k < |selectors| ensures selectors[k] in Identity(n) {
      assert Identity(n)[selectors[k]] == selectors[k];
    }
  }

  /** Step the current length to the wanted one, then a 0 bit. */
  function DeltaBits(curr: int, want: int): Bits
    decreases if curr < want then want - curr else curr - want
  {
    if curr < want then ToBits(2, 2) + DeltaBits(curr + 1, want)
    else if curr > want then ToBits(2, 3) + DeltaBits(curr - 1, want)
    else [false]
  }

  function LengthDeltas(lens: seq<byte>, curr: int): Bits {
    if lens == [] then [] else DeltaBits(curr, lens[0]) + LengthDeltas(lens[1..], lens[0])
  }

  function TableBits(lens: seq<byte>): Bits
    requires lens != []
  {
    ToBits(5, lens[0]) + LengthDeltas(lens, lens[0])
  }

  function AllTableBits(lens: seq<seq<byte>>): Bits
    requires forall t :: 0 <= t < |lens| ==> lens[t] != []
  {
    if lens == [] then [] else TableBits(lens[0]) + AllTableBits(lens[1..])
  }

  ghost predicate Codable(syms: seq<nat>, k: nat, selectors: seq<nat>, lens: seq<seq<byte>>) {
    && k + |syms| <= GROUP_SIZE * |selectors|
    && (forall g :: 0 <= g < |selectors| ==> selectors[g] < |lens|)
    && lens != []
    && (forall t :: 0 <= t < |lens| ==> |lens[t]| == |lens[0]|)
    && forall m :: 0 <= m < |syms| ==> syms[m] < |lens[0]|
  }

  /** The code words of syms, the first of which is symbol number k of the block. */
  function DataBits(syms: seq<nat>, k: nat, selectors: seq<nat>, lens: seq<seq<byte>>): Bits
    requires Codable(syms, k, selectors, lens)
  {
    if syms == [] then []
    else CodeBits(lens[selectors[k / GROUP_SIZE]], syms[0]) + DataBits(syms[1..], k + 1, selectors, lens)
  }

  lemma {:induction false} DataBitsAppend(a: seq<nat>, b: seq<nat>, k: nat, selectors: seq<nat>, lens: seq<seq<byte>>)
    requires Codable(a + b, k, selectors, lens)
    ensures Codable(a, k, selectors, lens) && Codable(b, k + |a|, selectors, lens)
    ensures DataBits(a + b, k, selectors, lens) == DataBits(a, k, selectors, lens) + DataBits(b, k + |a|, selectors, lens)
    decreases |a|
  {
    CodableParts(a, b, k, selectors, lens);
    if a == [] {
      assert a + b == b;
    } else {
      assert (a + b)[1..] == a[1..] + b;
      DataBitsAppend(a[1..], b, k + 1, selectors, lens);
    }
  }

  lemma CodableParts(a: seq<nat>, b: seq<nat>, k: nat, selectors: seq<nat>, lens: seq<seq<byte>>)
    requires Codable(a + b, k, selectors, lens)
    ensures Codable(a, k, selectors, lens) && Codable(b, k + |a|, selectors, lens)
  {
    forall m | 0 <= m < |a| ensures a[m] < |lens[0]| {
      assert (a + b)[m] == a[m];
    }
    forall m | 0 <= m < |b| ensures b[m] < |lens[0]| {
      assert (a + b)[|a| + m] == b[m];
    }
  }

  /** All symbols of a valid image have codes. */
  lemma ImageCodable(img: Image, blockSize100k: nat)
    requires ValidImage(img, blockSize100k)
    ensures Codable(BlockSyms(img), 0, img.selectors, img.lens)
    ensures |BlockSyms(img)| <= |img.block| + 1
  {
    var col, inUse := LastColumn(img.block, img.ptr), UsedFlags(img.block);
    var m := |UsedBytes(inUse, 256)|;
    BlockColumnUsed(img);
    RanksInList(col, inUse);
    MtfSymbolsBounded(Ranks(col, inUse), Identity(m), 0);
  }

  /** The bits of one block. */
  ghost function BlockBits(img: Image, blockSize100k: nat): Bits
    requires ValidImage(img, blockSize100k)
  {
    ImageCodable(img, blockSize100k);
    HeaderBits(img.crc, img.origPtr)
    + MappingBits(UsedFlags(img.block))
    + SelectorBits(|img.lens|, img.selectors)
    + AllTableBits(img.lens)
    + DataBits(BlockSyms(img), 0, img.selectors, img.lens)
  }

  function StreamHeaderBits(blockSize100k: nat): Bits {
    ToBits(8, 0x42) + ToBits(8, 0x5a) + ToBits(8, 0x68) + ToBits(8, 0x30 + blockSize100k)
  }

  ghost function BlocksBits(images: seq<Image>, blockSize100k: nat): Bits
    requires forall k :: 0 <= k < |images| ==> ValidImage(images[k], blockSize100k)
  {
    if images == [] then [] else BlocksBits(images[..|images| - 1], blockSize100k) + BlockBits(images[|images| - 1], blockSize100k)
  }

  function CombinedCrc(images: seq<Image>): word {
    if images == [] then 0 else Crc.Combine(CombinedCrc(images[..|images| - 1]), images[|images| - 1].crc)
  }

  function TrailerBits(crc: word): Bits {
    ToBits(8, 0x17) + ToBits(8, 0x72) + ToBits(8, 0x45) + ToBits(8, 0x38) + ToBits(8, 0x50) + ToBits(8, 0x90)
    + WordBits(crc)
  }

  /** The whole stream, before padding to a byte boundary. */
  ghost function StreamBits(images: seq<Image>, blockSize100k: nat): Bits
    requires forall k :: 0 <= k < |images| ==> ValidImage(images[k], blockSize100k)
  {
    StreamHeaderBits(blockSize100k) + BlocksBits(images, blockSize100k) + TrailerBits(CombinedCrc(images))
  }
}
