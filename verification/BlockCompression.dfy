/** BZ2_compressBlock: from the bytes of a block to the bits of its image, with the stream header before the first
    block and the trailer after the last. */
module BlockCompression {
  import opened Limits
  import opened Numbers
  import opened BitStrings
  import opened Rotations
  import opened InverseBwt
  import opened CanonicalCodes
  import opened MoveToFront
  import opened BlockFormat
  import opened BitWriting
  import opened MtfGeneration
  import opened TableChoice
  import Sending = MtfSending

  /** bsPutUChar. */
  method PutUChar(w: BitWriter, c: byte)
    requires w.Valid()
    modifies w
    ensures w.Valid() && w.Written() == old(w.Written()) + ToBits(8, c)
  {
    Pow2Values();
    w.W(8, c);
  }

  /** bsPutUInt32. */
  method PutUInt32(w: BitWriter, u: word)
    requires w.Valid()
    modifies w
    ensures w.Valid() && w.Written() == old(w.Written()) + WordBits(u)
  {
    hide ToBits, Pow2, BitWriter.Valid, BitWriter.Written;
    Pow2Values();
    ghost var start := w.Written();
    w.W(8, u / 0x100_0000);
    w.W(8, u / 0x1_0000 % 256);
    w.W(8, u / 0x100 % 256);
    w.W(8, u % 256);
    assert w.Written() == start + WordBits(u);
  }

  method PutStreamHeader(w: BitWriter, blockSize100k: nat)
    requires w.Valid() && 1 <= blockSize100k <= 9
    modifies w
    ensures w.Valid() && w.Written() == old(w.Written()) + StreamHeaderBits(blockSize100k)
  {
    hide ToBits, BitWriter.Valid, BitWriter.Written;
    ghost var start := w.Written();
    PutUChar(w, 0x42);
    PutUChar(w, 0x5a);
    PutUChar(w, 0x68);
    PutUChar(w, 0x30 + blockSize100k);
    assert w.Written() == start + StreamHeaderBits(blockSize100k);
  }

  method PutBlockHeader(w: BitWriter, crc: word, origPtr: nat)
    requires w.Valid() && origPtr < 0x100_0000
    modifies w
    ensures w.Valid() && w.Written() == old(w.Written()) + HeaderBits(crc, origPtr)
  {
    hide ToBits, WordBits, Pow2, BitWriter.Valid, BitWriter.Written;
    ghost var start := w.Written();
    Pow2Values();
    PutUChar(w, 0x31);
    PutUChar(w, 0x41);
    PutUChar(w, 0x59);
    PutUChar(w, 0x26);
    PutUChar(w, 0x53);
    PutUChar(w, 0x59);
    PutUInt32(w, crc);
    w.W(1, 0);
    w.W(24, origPtr);
    assert w.Written() == start + HeaderBits(crc, origPtr);
  }

  method PutTrailer(w: BitWriter, crc: word)
    requires w.Valid()
    modifies w
    ensures w.Valid() && w.Written() == old(w.Written()) + TrailerBits(crc)
  {
    hide ToBits, WordBits, BitWriter.Valid, BitWriter.Written;
    ghost var start := w.Written();
    PutUChar(w, 0x17);
    PutUChar(w, 0x72);
    PutUChar(w, 0x45);
    PutUChar(w, 0x38);
    PutUChar(w, 0x50);
    PutUChar(w, 0x90);
    PutUInt32(w, crc);
    assert w.Written() == start + TrailerBits(crc);
  }

  /** What sendMTFValues writes. */
  ghost predicate BodyWritten(start: Bits, end: Bits, inUse: seq<bool>, syms: seq<nat>, lens: seq<seq<byte>>, selectors: seq<byte>) {
    && |inUse| == 256 && |lens| <= 6 && (forall k :: 0 <= k < |selectors| ==> selectors[k] < |lens|)
    && (forall t :: 0 <= t < |lens| ==> lens[t] != []) && Codable(syms, 0, selectors, lens)
    && end == start + MappingBits(inUse) + SelectorBits(|lens|, selectors) + AllTableBits(lens) + DataBits(syms, 0, selectors, lens)
  }

  lemma TablesUsable(lens: seq<seq<byte>>, alphaSize: nat, syms: seq<nat>, selectors: seq<byte>)
    requires AllComplete(lens, alphaSize) && 2 <= alphaSize <= MAX_ALPHA_SIZE && lens != [] && InAlphabet(syms, alphaSize)
    requires |selectors| == GroupCount(|syms|) && forall g :: 0 <= g < |selectors| ==> selectors[g] < |lens|
    ensures Codable(syms, 0, selectors, lens)
    ensures forall t :: 0 <= t < |lens| ==>
      && lens[t] != [] && |lens[t]| == alphaSize && ValidLengths(lens[t], MAX_SENT_CODE)
      && forall v :: 0 <= v < alphaSize ==> lens[t][v] <= MAX_SENT_CODE
  {
    hide Kraft;
    CompleteTables(lens, alphaSize);
  }

  /** sendMTFValues. */
  method SendMtfValues(w: BitWriter, arr1: array<word>, nMTF: nat, mtfFreq: seq<nat>, inUse: seq<bool>, ghost syms: seq<nat>)
    returns (ghost lens: seq<seq<byte>>, ghost selectors: seq<byte>)
    requires w.Valid() && 1 <= nMTF == |syms| <= 2 * arr1.Length && nMTF <= 900001 && syms == Symbols(arr1[..], nMTF)
    requires 2 <= |mtfFreq| <= MAX_ALPHA_SIZE && InAlphabet(syms, |mtfFreq|) && Counted(mtfFreq, syms) && |inUse| == 256
    modifies w
    ensures w.Valid() && BodyWritten(old(w.Written()), w.Written(), inUse, syms, lens, selectors)
    ensures 2 <= |lens| <= 6 && AllComplete(lens, |mtfFreq|) && |selectors| == GroupCount(nMTF)
    ensures forall k :: 0 <= k < |selectors| ==> selectors[k] < |lens|
    ensures Refined(lens, selectors, syms, |mtfFreq|)
  {
    hide Refined, BitWriter.Valid, BitWriter.Written, Symbols, InAlphabet, Counted, AllComplete, BestChoices, MappingBits, SelectorBits,
      AllTableBits, DataBits, Codable, ValidLengths, Sending.Sendable, Sending.CodesAre;
    var len, selector := ChooseTables(arr1, nMTF, mtfFreq, syms);
    TablesUsable(len, |mtfFreq|, syms, selector);
    assert GroupCount(nMTF) <= 18002;
    var code := Sending.MakeCodes(len);
    ghost var start := w.Written();
    Sending.SendMapping(w, inUse);
    Sending.SendSelectors(w, |len|, selector);
    Sending.SendTables(w, len);
    SendableFrom(syms, selector, len, code);
    Sending.SendData(w, arr1, nMTF, selector, len, code, syms);
    lens, selectors := len, selector;
  }

  lemma SendableFrom(syms: seq<nat>, selectors: seq<byte>, lens: seq<seq<byte>>, codes: seq<seq<int>>)
    requires Codable(syms, 0, selectors, lens) && Sending.CodesAre(codes, lens)
    requires forall t :: 0 <= t < |lens| ==> ValidLengths(lens[t], MAX_SENT_CODE)
    ensures Sending.Sendable(syms, selectors, lens, codes)
  {
  }

  lemma SentInAlphabet(block: seq<byte>, ptr: seq<int>, inUse: seq<bool>)
    requires MtfGeneration.Sendable(block, ptr, inUse)
    ensures InAlphabet(SentSymbols(block, ptr, inUse), |UsedBytes(inUse, 256)| + 2)
  {
    hide MtfSymbols, UsedBytes, At;
    ColumnUsed(block, ptr, inUse);
    var col := LastColumn(block, ptr);
    RanksInList(col, inUse);
    MtfSymbolsBounded(Ranks(col, inUse), Identity(|UsedBytes(inUse, 256)|), 0);
  }

  /** The image of a block that has been sorted and coded. */
  ghost predicate Coded(img: Image, b: seq<byte>, ptr: seq<int>, origPtr: nat, inUse: seq<bool>, syms: seq<nat>, blockSize100k: nat) {
    && b != [] && |b| <= 100000 * blockSize100k - 10 && 1 <= blockSize100k <= 9
    && img.block == b && img.ptr == ptr && img.origPtr == origPtr
    && SortedRotations(b, ptr) && origPtr < |b| && ptr[origPtr] == 0
    && inUse == UsedFlags(b) && MtfGeneration.Sendable(b, ptr, inUse) && syms == SentSymbols(b, ptr, inUse)
    && |syms| <= |b| + 1
    && 2 <= |img.lens| <= 6 && AllComplete(img.lens, |UsedBytes(inUse, 256)| + 2)
    && |img.selectors| == GroupCount(|syms|) && forall k :: 0 <= k < |img.selectors| ==> img.selectors[k] < |img.lens|
  }

  lemma CodedIsValid(img: Image, b: seq<byte>, ptr: seq<int>, origPtr: nat, inUse: seq<bool>, syms: seq<nat>, blockSize100k: nat)
    requires Coded(img, b, ptr, origPtr, inUse, syms, blockSize100k)
    ensures ValidImage(img, blockSize100k) && BlockSyms(img) == syms
  {
    hide LexLess, At, Kraft, UsedBytes, BlockSymbols;
    CompleteTables(img.lens, |UsedBytes(inUse, 256)| + 2);
  }

  lemma ImageBits(img: Image, blockSize100k: nat, start: Bits, middle: Bits, end: Bits, inUse: seq<bool>, syms: seq<nat>)
    requires ValidImage(img, blockSize100k) && BlockSyms(img) == syms && inUse == UsedFlags(img.block)
    requires middle == start + HeaderBits(img.crc, img.origPtr) && BodyWritten(middle, end, inUse, syms, img.lens, img.selectors)
    ensures end == start + BlockBits(img, blockSize100k)
  {
    hide HeaderBits, MappingBits, SelectorBits, AllTableBits, DataBits, Codable, LexLess, At, ValidLengths, BlockSymbols;
    ImageCodable(img, blockSize100k);
    var m, s, t, d := MappingBits(inUse), SelectorBits(|img.lens|, img.selectors), AllTableBits(img.lens), DataBits(syms, 0, img.selectors, img.lens);
    assert start + HeaderBits(img.crc, img.origPtr) + m + s + t + d == start + (HeaderBits(img.crc, img.origPtr) + m + s + t + d);
  }

  lemma SortedIsSendable(b: seq<byte>, ptr: seq<int>, inUse: seq<bool>)
    requires SortedRotations(b, ptr) && inUse == UsedFlags(b)
    ensures MtfGeneration.Sendable(b, ptr, inUse) && b != [] && |ptr| == |b|
    ensures |UsedBytes(inUse, 256)| <= 256
  {
    hide LexLess, At;
  }

  /** The tables and selectors of a block are those of four passes of refinement. */
  ghost predicate WellCoded(img: Image) {
    Sorted(img) && Refined(img.lens, img.selectors, BlockSyms(img), AlphaSize(img.block))
  }

  lemma CodedIsWell(img: Image, inUse: seq<bool>, syms: seq<nat>, alphaSize: nat)
    requires SortedRotations(img.block, img.ptr) && img.origPtr < |img.block| && img.ptr[img.origPtr] == 0
    requires inUse == UsedFlags(img.block) && syms == SentSymbols(img.block, img.ptr, inUse) && alphaSize == |UsedBytes(inUse, 256)| + 2
    requires Refined(img.lens, img.selectors, syms, alphaSize)
    ensures WellCoded(img)
  {
    hide Refined, LexLess, At;
  }

  /** Header, symbols and tables of a sorted block. */
  method EncodeBlock(w: BitWriter, arr1: array<word>, block: array<byte>, nblock: nat, origPtr: nat, blockCRC: word, inUse: seq<bool>,
                     ghost blockSize100k: nat)
    returns (ghost img: Image)
    requires w.Valid() && nblock <= arr1.Length && nblock <= block.Length
    requires 1 <= blockSize100k <= 9 && nblock <= 100000 * blockSize100k - 10
    requires SortedRotations(block[..nblock], arr1[..nblock]) && origPtr < nblock && arr1[origPtr] == 0
    requires inUse == UsedFlags(block[..nblock])
    modifies w, arr1
    ensures w.Valid() && ValidImage(img, blockSize100k) && img.block == block[..nblock] && img.crc == blockCRC
    ensures w.Written() == old(w.Written()) + BlockBits(img, blockSize100k) && WellCoded(img)
  {
    hide Refined, WellCoded, SortedRotations, BitWriter.Valid, BitWriter.Written, HeaderBits, BodyWritten, SentSymbols, Symbols, Counted, UsedBytes, MtfGeneration.Sendable,
      InAlphabet, AllComplete, ValidImage, BlockBits, BlockSyms, UsedFlags, GroupCount;
    ghost var b, ptr, start := block[..nblock], arr1[..nblock], w.Written();
    SortedIsSendable(b, ptr, inUse);
    PutBlockHeader(w, blockCRC, origPtr);
    ghost var middle, syms := w.Written(), SentSymbols(b, ptr, inUse);
    SentInAlphabet(b, ptr, inUse);
    var nMTF, nInUse, mtfFreq := GenerateMtfValues(arr1, block, nblock, inUse);
    var freq := NonNegative(mtfFreq, syms);
    ghost var lens, selectors := SendMtfValues(w, arr1, nMTF, freq, inUse, syms);
    img := Image(b, ptr, origPtr, blockCRC, lens, selectors);
    assert Coded(img, b, ptr, origPtr, inUse, syms, blockSize100k);
    CodedIsWell(img, inUse, syms, |freq|);
    CodedIsValid(img, b, ptr, origPtr, inUse, syms, blockSize100k);
    ImageBits(img, blockSize100k, start, middle, w.Written(), inUse, syms);
  }

  /** The counts as natural numbers. */
  method NonNegative(mtfFreq: array<int>, ghost syms: seq<nat>) returns (freq: seq<nat>)
    requires Counted(mtfFreq[..], syms)
    ensures |freq| == mtfFreq.Length && Counted(freq, syms)
  {
    assert forall c: nat :: c < mtfFreq.Length ==> mtfFreq[..][c] == Count(syms, c);
    assert forall c :: 0 <= c < mtfFreq.Length ==> mtfFreq[..][c] >= 0;
    freq := mtfFreq[..];
  }
}
