/** Whole streams: what the decoder delivers for a bit string, and the round trip of the stream format. */
module StreamDecoding {
  import opened Numbers
  import opened BitStrings
  import opened CountingSort
  import opened Rotations
  import opened InverseBwt
  import opened RunLength
  import opened BlockFormat
  import opened DecoderMachine
  import opened DecoderRun
  import opened HeaderDecoding
  import opened BlockDecoding
  import Crc
  import CrcDetection

  /** NeedInput: every complete field has been used. End: the call that reaches this point returns the code. */
  datatype Verdict = NeedInput | End(code: ReturnCode)

  /** rest: the bits behind the place where the verdict was reached. */
  datatype Result = Result(out: seq<byte>, verdict: Verdict, rest: Bits)

  function Prepend(out: seq<byte>, r: Result): Result {
    Result(out + r.out, r.verdict, r.rest)
  }

  /** The bytes the inverse transform delivers for a decoded block, and the one fetched ahead. */
  ghost function BlockBytes(d: DState): (r: seq<byte>)
    requires Column(d.s) && d.h.origPtr < |d.s.tt|
    ensures |r| == |d.s.tt| + 1
  {
    UnrankInverse(d.s.tt);
    seq<byte>(|d.s.tt| + 1, k requires 0 <= k <= |d.s.tt| => WalkByte(d.s.tt, Unrank(d.s.tt), d.h.origPtr, k))
  }

  /** The state in which the next block header is read, once a block's checksum was right. */
  function NextBlock(d: DState): DState {
    d.(h := d.h.(calculatedCombinedCRC := Crc.Combine(d.h.calculatedCombinedCRC, d.h.storedBlockCRC)), state := BLKHDR_1)
  }

  /** Everything delivered from state d on these bits, with unlimited output space, and how it ends. */
  ghost function Decode(d: DState, bits: Bits): Result
    requires Invariant(d) && Waiting(d)
    decreases |bits|, 0
  {
    match Run(d, bits)
    case Suspended(_, _) => Result([], NeedInput, [])
    case Returned(e, OK, rest) => DecodeBlock(e, UnRle(BlockBytes(e)), Crc.INITIAL, rest)
    case Returned(e, STREAM_END, rest) =>
      Result([], End(if e.h.calculatedCombinedCRC == e.h.storedCombinedCRC then STREAM_END else DATA_ERROR), rest)
    case Returned(_, code, rest) => Result([], End(code), rest)
  }

  /** The same in the middle of a block: pending is what un-RLE has yet to deliver, crc covers what it delivered. */
  ghost function DecodeBlock(d: DState, pending: Decoded, crc: word, bits: Bits): Result
    requires Invariant(d)
    decreases |bits|, 1
  {
    if pending.corrupt || Crc.Finalise(Crc.UpdateAll(crc, pending.out)) != d.h.storedBlockCRC
    then Result(pending.out, End(DATA_ERROR), bits)
    else Prepend(pending.out, Decode(NextBlock(d), bits))
  }

  /** A block that is decoded to something that differs from the block compressed within four consecutive bytes ends
      the stream with DATA_ERROR, and nothing behind it is delivered. */
  lemma DamageRefused(d: DState, before: seq<byte>, s: seq<byte>, t: seq<byte>, after: seq<byte>, corrupt: bool, bits: Bits)
    requires Invariant(d) && d.h.storedBlockCRC == Crc.OfBlock(before + s + after) && |s| == |t| <= 4 && s != t
    ensures DecodeBlock(d, Decoded(before + t + after, corrupt), Crc.INITIAL, bits) == Result(before + t + after, End(DATA_ERROR), bits)
  {
    hide Crc.UpdateAll, Invariant, Decode;
    CrcDetection.DamageDetected(before, s, t, after);
  }

  /** The data is a complete stream that stands for plain, with less than a byte of padding. */
  ghost predicate Decodes(data: seq<byte>, plain: seq<byte>) {
    var r := Decode(START, BytesToBits(data));
    r.out == plain && r.verdict == End(STREAM_END) && |r.rest| < 8
  }

  /** Once the verdict is reached, what follows does not matter; it is left over. */
  lemma {:induction false} DecodeExtends(d: DState, bits: Bits, more: Bits)
    requires Invariant(d) && Waiting(d) && Decode(d, bits).verdict != NeedInput
    ensures Decode(d, bits + more) == Decode(d, bits).(rest := Decode(d, bits).rest + more)
    decreases |bits|
  {
    hide Run, Advance, UnRle, BlockBytes, Crc.Combine, Crc.Finalise, Crc.UpdateAll;
    RunResumes(d, bits, more);
    match Run(d, bits)
    case Returned(e, OK, rest) =>
      var pending := UnRle(BlockBytes(e));
      if !(pending.corrupt || Crc.Finalise(Crc.UpdateAll(Crc.INITIAL, pending.out)) != e.h.storedBlockCRC) {
        DecodeExtends(NextBlock(e), rest, more);
      }
    case _ =>
  }

  /** A complete stream with anything behind it stands for the same, and what is behind it is left over. */
  lemma StreamThenTail(x: seq<byte>, plain: seq<byte>, tail: seq<byte>)
    requires Decodes(x, plain)
    ensures var r := Decode(START, BytesToBits(x + tail));
      r.out == plain && r.verdict == End(STREAM_END) && |r.rest| / 8 == |tail|
  {
    hide Decode, BytesToBits;
    BytesToBitsAppend(x, tail);
    DecodeExtends(START, BytesToBits(x), BytesToBits(tail));
  }

  // ----- the encoder's streams -----

  /** plain is what the block's bytes stand for, and the stored checksum is its checksum. */
  ghost predicate Carries(img: Image, plain: seq<byte>) {
    && img.block != []
    && UnRle(img.block + [img.block[0]]) == Decoded(plain, false)
    && img.crc == Crc.OfBlock(plain)
  }

  ghost predicate ValidStream(images: seq<Image>, plains: seq<seq<byte>>, blockSize100k: nat) {
    && 1 <= blockSize100k <= 9
    && |images| == |plains|
    && forall k :: 0 <= k < |images| ==> ValidImage(images[k], blockSize100k) && Carries(images[k], plains[k])
  }

  function Flatten(ss: seq<seq<byte>>): seq<byte> {
    if ss == [] then [] else Flatten(ss[..|ss| - 1]) + ss[|ss| - 1]
  }

  lemma BlockThenFirst(b: seq<byte>, k: nat)
    requires b != [] && k <= |b|
    ensures At(b, k) == (b + [b[0]])[k]
  {
    if k == |b| {
      AtTurn(b, 0);
    } else {
      DivUnique(k, |b|, 0, k);
    }
  }

  /** A decoded image delivers its block, and one byte more: the first again. */
  lemma ImageBytes(d: DState, img: Image)
    requires Sorted(img) && Column(d.s) && d.s.tt == LastColumn(img.block, img.ptr) && d.h.origPtr == img.origPtr
    ensures BlockBytes(d) == img.block + [img.block[0]]
  {
    hide LexLess, Rank, Row, At, Unrank;
    UnrankInverse(d.s.tt);
    var n := |img.block|;
    forall k | 0 <= k <= n
      ensures BlockBytes(d)[k] == (img.block + [img.block[0]])[k]
    {
      WalkSpellsBlock(img.block, img.ptr, Unrank(d.s.tt), img.origPtr, k);
      BlockThenFirst(img.block, k);
    }
  }

  /** One block of a valid stream: its plain bytes come out and the next header is read. */
  lemma BlockDecodes(d: DState, img: Image, plain: seq<byte>, blockSize100k: nat, rest: Bits) returns (e: DState)
    requires Invariant(d) && d.state == BLKHDR_1 && d.h.blockSize100k == blockSize100k
    requires ValidImage(img, blockSize100k) && Carries(img, plain)
    ensures Invariant(e) && e.state == BLKHDR_1 && e.h.blockSize100k == blockSize100k
    ensures e.h.calculatedCombinedCRC == Crc.Combine(d.h.calculatedCombinedCRC, img.crc)
    ensures Decode(d, BlockBits(img, blockSize100k) + rest) == Prepend(plain, Decode(e, rest))
  {
    hide Delivers, Run, BlockBits, LexLess, UnRle, Advance, LastColumn;
    var f := BlockRead(d, img, blockSize100k);
    DeliversRun(d, BlockBits(img, blockSize100k), Return(f, OK), rest);
    ImageBytes(f, img);
    e := NextBlock(f);
  }

  /** All blocks of a valid stream, from the start of the stream header. */
  lemma {:induction false} BlocksDecode(images: seq<Image>, plains: seq<seq<byte>>, blockSize100k: nat, rest: Bits)
    returns (e: DState)
    requires ValidStream(images, plains, blockSize100k)
    ensures Invariant(e) && e.state == BLKHDR_1 && e.h.blockSize100k == blockSize100k
    ensures e.h.calculatedCombinedCRC == CombinedCrc(images)
    ensures Decode(START, StreamHeaderBits(blockSize100k) + BlocksBits(images, blockSize100k) + rest)
         == Prepend(Flatten(plains), Decode(e, rest))
    decreases |images|
  {
    hide Delivers, Advance, BlockBits, ValidImage, Carries, Decode, StreamHeaderBits;
    if images == [] {
      e := HeaderDecodes(blockSize100k, rest);
      assert StreamHeaderBits(blockSize100k) + [] == StreamHeaderBits(blockSize100k);
      var r := Decode(e, rest);
      assert Flatten(plains) + r.out == r.out;
    } else {
      var k := |images| - 1;
      var bb := BlockBits(images[k], blockSize100k);
      var d := BlocksDecode(images[..k], plains[..k], blockSize100k, bb + rest);
      e := BlockDecodes(d, images[k], plains[k], blockSize100k, rest);
      var front := StreamHeaderBits(blockSize100k) + BlocksBits(images[..k], blockSize100k);
      assert StreamHeaderBits(blockSize100k) + BlocksBits(images, blockSize100k) + rest == front + (bb + rest);
      PrependTwice(Flatten(plains[..k]), plains[k], Decode(e, rest));
    }
  }

  lemma PrependTwice(a: seq<byte>, b: seq<byte>, r: Result)
    ensures Prepend(a, Prepend(b, r)) == Prepend(a + b, r)
  {
    assert a + (b + r.out) == a + b + r.out;
  }

  lemma HeaderDecodes(blockSize100k: nat, rest: Bits) returns (e: DState)
    requires 1 <= blockSize100k <= 9
    ensures Invariant(e) && e.state == BLKHDR_1 && e.h.blockSize100k == blockSize100k && e.h.calculatedCombinedCRC == 0
    ensures Decode(START, StreamHeaderBits(blockSize100k) + rest) == Decode(e, rest)
  {
    hide Delivers, Advance, Decode, Run, StreamHeaderBits;
    StreamHeaderRead(START, blockSize100k);
    e := START.(h := START.h.(blockSize100k := blockSize100k), state := BLKHDR_1);
    DeliversRun(START, StreamHeaderBits(blockSize100k), Next(e), rest);
    SameRunSameDecode(START, StreamHeaderBits(blockSize100k) + rest, e, rest);
  }

  lemma SameRunSameDecode(d: DState, a: Bits, e: DState, b: Bits)
    requires Invariant(d) && Waiting(d) && Invariant(e) && Waiting(e) && Run(d, a) == Run(e, b)
    ensures Decode(d, a) == Decode(e, b)
  {
  }

  /** Round trip of the format: whatever sorted orders, tables and selectors the encoder chose, the decoder
      delivers exactly the plain bytes, accepts both checksums and ends the stream. Padding is ignored. */
  lemma StreamRoundTrip(images: seq<Image>, plains: seq<seq<byte>>, blockSize100k: nat, padding: Bits)
    requires ValidStream(images, plains, blockSize100k)
    ensures Decode(START, StreamBits(images, blockSize100k) + padding) == Result(Flatten(plains), End(STREAM_END), padding)
  {
    hide Delivers, Run, Advance, BlocksBits, TrailerBits, StreamHeaderBits, ValidImage, Carries;
    var trailer := TrailerBits(CombinedCrc(images));
    var e := BlocksDecode(images, plains, blockSize100k, trailer + padding);
    assert StreamBits(images, blockSize100k) + padding
        == StreamHeaderBits(blockSize100k) + BlocksBits(images, blockSize100k) + (trailer + padding);
    TrailerRead(e, CombinedCrc(images));
    DeliversRun(e, trailer, Return(e.(h := e.h.(storedCombinedCRC := CombinedCrc(images)), state := IDLE), STREAM_END), padding);
    assert Flatten(plains) + [] == Flatten(plains);
  }
}
