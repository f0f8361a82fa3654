/** Whole blocks: the decoder turns the bits of a valid image back into the last column it was made from. */
module BlockDecoding {
  import opened Numbers
  import opened BitStrings
  import opened Rotations
  import opened InverseBwt
  import opened MoveToFront
  import opened RunLength
  import opened CanonicalCodes
  import opened BlockFormat
  import opened DecoderMachine
  import opened DecoderRun
  import opened HeaderDecoding
  import opened TablesDecoding
  import opened SymbolsDecoding
  import opened ColumnDecoding

  /** The names of the ranks are the bytes themselves. */
  lemma NamesOfRanks(col: seq<byte>, inUse: seq<bool>)
    requires |inUse| == 256 && forall k :: 0 <= k < |col| ==> inUse[col[k]]
    ensures var u := UsedBytes(inUse, 256);
      && (forall m :: 0 <= m < |col| ==> Ranks(col, inUse)[m] < |u|)
      && Names(u, Ranks(col, inUse)) == col
  {
    forall k | 0 <= k < |col|
      ensures Ranks(col, inUse)[k] < |UsedBytes(inUse, 256)|
      ensures UsedBytes(inUse, 256)[Ranks(col, inUse)[k]] == col[k]
    {
      UsedBytesAt(inUse, col[k], 256);
    }
  }

  /** The state in which the first symbol of a block is read. */
  ghost function SymbolsBegin(e: DState): DState {
    e.(s := e.s.(EOB := |e.t.seqToUnseq| + 1, nblockMAX := 100000 * e.h.blockSize100k, groupNo := -1,
                 groupPos := 0, gSel := 0, unzftab := Zeros(256), mtf := Identity(256), tt := []))
  }

  /** The decoder tables are those of the image. */
  ghost predicate TablesOf(e: DState, img: Image) {
    && TablesRead(e.t) && |e.t.len| == e.t.nGroups
    && e.t.len == img.lens && e.t.selector == img.selectors
    && e.t.seqToUnseq == UsedBytes(UsedFlags(img.block), 256)
  }

  lemma SymbolsReady(e: DState, img: Image, blockSize100k: nat)
    requires ValidImage(img, blockSize100k) && TablesOf(e, img) && e.h.blockSize100k == blockSize100k
    ensures var d := SymbolsBegin(e);
      && StartSymbols(e) == StartMtfVal(d, MTF_1)
      && Ready(d, MTF_1, BlockSyms(img), 0)
      && ListAgrees(d, Identity(|d.t.seqToUnseq|))
  {
    hide StartMtfVal, Kraft, MtfSymbols, SortedRotations;
    var d := SymbolsBegin(e);
    assert Column(d.s);
    assert Identity(256)[..|d.t.seqToUnseq|] == Identity(|d.t.seqToUnseq|);
    ImageCodable(img, blockSize100k);
  }

  ghost predicate BlockStart(d: DState, img: Image, blockSize100k: nat) {
    && ValidImage(img, blockSize100k)
    && Ready(d, MTF_1, BlockSyms(img), 0)
    && ListAgrees(d, Identity(|d.t.seqToUnseq|))
    && d.t.seqToUnseq == UsedBytes(UsedFlags(img.block), 256)
    && d.s.tt == [] && d.s.nblockMAX == 100000 * blockSize100k
  }

  /** The block's symbols are the stream the column decoder expects. */
  lemma StreamOfBlock(d: DState, img: Image, blockSize100k: nat)
    requires BlockStart(d, img, blockSize100k)
    ensures var xs := Ranks(LastColumn(img.block, img.ptr), UsedFlags(img.block));
      var list := Identity(|d.t.seqToUnseq|);
      && StreamAhead(d, MTF_1, 0, xs, list, 0)
      && MtfSymbols(xs, list, 0) + [d.s.EOB] == BlockSyms(img)
  {
    hide Ready, Kraft, MtfSymbols, LexLess, ValidLengths, UsedBytes;
    var col, inUse := LastColumn(img.block, img.ptr), UsedFlags(img.block);
    BlockColumnUsed(img);
    RanksInList(col, inUse);
    NamesOfRanks(col, inUse);
  }

  /** The data part of a block rebuilds its last column. */
  lemma DataRead(d: DState, img: Image, blockSize100k: nat) returns (f: DState)
    requires BlockStart(d, img, blockSize100k)
    ensures Symbolic(f.t, f.s) && f.h == d.h && f.s.tt == LastColumn(img.block, img.ptr)
    ensures Feeds(d, MTF_1, BlockSyms(img), 0, FinishBlock(f))
  {
    hide Feeds, FinishBlock, Ready, StreamAhead, MtfSymbols, UsedBytes, Kraft, Column;
    var col, inUse := LastColumn(img.block, img.ptr), UsedFlags(img.block);
    var xs := Ranks(col, inUse);
    StreamOfBlock(d, img, blockSize100k);
    f := StreamRead(d, MTF_1, 0, xs, Identity(|d.t.seqToUnseq|), 0);
    BlockColumnUsed(img);
    NamesOfRanks(col, inUse);
    assert Repeat(Front(d), 0) == [];
  }

  lemma UsedNotEmpty(img: Image)
    requires Sorted(img)
    ensures UsedBytes(UsedFlags(img.block), 256) != []
  {
    UsedBytesAt(UsedFlags(img.block), img.block[0], 256);
  }

  /** Header, byte map, selectors and tables: the decoder now holds the image's tables. */
  lemma PrologueRead(d: DState, img: Image, blockSize100k: nat) returns (e: DState, bits: Bits)
    requires Invariant(d) && d.state == BLKHDR_1 && d.h.blockSize100k == blockSize100k && ValidImage(img, blockSize100k)
    ensures bits == HeaderBits(img.crc, img.origPtr) + MappingBits(UsedFlags(img.block))
                    + SelectorBits(|img.lens|, img.selectors) + AllTableBits(img.lens)
    ensures TablesOf(e, img)
    ensures e.h == d.h.(currBlockNo := d.h.currBlockNo + 1, storedBlockCRC := img.crc, origPtr := img.origPtr)
    ensures Delivers(d, bits, StartSymbols(e))
  {
    hide Delivers, StartSymbols, LexLess, Kraft, HeaderBits, MappingBits, SelectorBits, AllTableBits, UsedBytes, Advance;
    var inUse := UsedFlags(img.block);
    UsedNotEmpty(img);
    BlockHeaderRead(d, img.crc, img.origPtr);
    var d1 := d.(h := d.h.(currBlockNo := d.h.currBlockNo + 1, storedBlockCRC := img.crc, origPtr := img.origPtr),
                 t := d.t.(i := 0), state := MAPPING_1);
    var b1 := HeaderBits(img.crc, img.origPtr);
    var d2 := MapRead(d1, inUse);
    var b2 := b1 + MappingBits(inUse);
    ReachesThen(d, b1, d1, MappingBits(inUse), d2);
    SomeSelector(img, blockSize100k);
    var d3 := SelectorsReadBack(d2, |img.lens|, img.selectors);
    var b3 := b2 + SelectorBits(|img.lens|, img.selectors);
    ReachesThen(d, b2, d2, SelectorBits(|img.lens|, img.selectors), d3);
    e := TablesReadBack(d3, img.lens);
    assert img.lens[0..] == img.lens;
    bits := b3 + AllTableBits(img.lens);
    DeliversThen(d, b3, d3, AllTableBits(img.lens), StartSymbols(e));
  }

  lemma SomeSelector(img: Image, blockSize100k: nat)
    requires ValidImage(img, blockSize100k)
    ensures 1 <= |img.selectors| < 0x8000
    ensures forall t :: 0 <= t < |img.lens| ==> LengthsOk(img.lens[t])
  {
    hide Kraft;
  }

  /** One block: the decoder goes from block header to output state, holding the last column, the origin
      pointer and the stored checksum. */
  lemma BlockRead(d: DState, img: Image, blockSize100k: nat) returns (f: DState)
    requires Invariant(d) && d.state == BLKHDR_1 && d.h.blockSize100k == blockSize100k && ValidImage(img, blockSize100k)
    ensures Invariant(f) && f.state == OUTPUT && f.s.tt == LastColumn(img.block, img.ptr)
    ensures f.h == d.h.(currBlockNo := d.h.currBlockNo + 1, storedBlockCRC := img.crc, origPtr := img.origPtr)
    ensures Delivers(d, BlockBits(img, blockSize100k), Return(f, OK))
  {
    hide Delivers, StartSymbols, StartMtfVal, LexLess, Kraft, HeaderBits, MappingBits, SelectorBits, AllTableBits, DataBits,
         UsedBytes, Advance, BlockSyms;
    var e, bits := PrologueRead(d, img, blockSize100k);
    SymbolsReady(e, img, blockSize100k);
    ImageCodable(img, blockSize100k);
    var g := DataRead(SymbolsBegin(e), img, blockSize100k);
    f := g.(state := OUTPUT);
    assert FinishBlock(g) == Return(f, OK);
    var data := DataBits(BlockSyms(img), 0, img.selectors, img.lens);
    DeliversThen(d, bits, StartSymbols(e).ds, data, Return(f, OK));
  }
}
