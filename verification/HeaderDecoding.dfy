/** The decoder reads back the fixed-width fields of the stream and block headers and of the trailer. */
module HeaderDecoding {
  import opened Numbers
  import opened BitStrings
  import opened BlockFormat
  import opened DecoderMachine
  import opened DecoderRun

  /** Delivered, and the machine waits at e. */
  ghost predicate Reaches(d: DState, bits: Bits, e: DState) {
    Invariant(d) && Waiting(d) && Invariant(e) && Waiting(e) && Delivers(d, bits, Next(e))
  }

  lemma ReachesThen(d: DState, a: Bits, e: DState, b: Bits, f: DState)
    requires Reaches(d, a, e) && Reaches(e, b, f)
    ensures Reaches(d, a + b, f)
  {
    hide Advance, Invariant;
    DeliversThen(d, a, e, b, Next(f));
  }

  /** One more 8-bit field. */
  lemma ThenByte(d: DState, a: Bits, e: DState, v: byte, f: DState)
    requires Reaches(d, a, e) && Need(e) == 8 && Advance(e, v) == Next(f)
    ensures Reaches(d, a + ToBits(8, v), f)
  {
    hide Advance, Invariant, Pow2;
    assert v < Pow2(8) by {
      Pow2Values();
    }
    ThenField(d, a, e, 8, v);
  }

  lemma FirstByte(d: DState, v: byte, f: DState)
    requires Invariant(d) && Waiting(d) && Need(d) == 8 && Advance(d, v) == Next(f)
    ensures Reaches(d, ToBits(8, v), f)
  {
    hide Advance, Invariant, Pow2;
    assert v < Pow2(8) by {
      Pow2Values();
    }
    FieldDelivers(d, 8, v);
    DeliversGood(d, ToBits(8, v), Next(f));
    assert Good(Next(f));
  }

  /** 'B', 'Z', 'h' and the block size digit. */
  lemma StreamHeaderRead(d: DState, blockSize100k: nat)
    requires d == START && 1 <= blockSize100k <= 9
    ensures Reaches(d, StreamHeaderBits(blockSize100k), d.(h := d.h.(blockSize100k := blockSize100k), state := BLKHDR_1))
  {
    hide Delivers, ToBits;
    var d1, d2, d3 := d.(state := MAGIC_2), d.(state := MAGIC_3), d.(state := MAGIC_4);
    var b1 := ToBits(8, 0x42);
    var b2 := b1 + ToBits(8, 0x5a);
    var b3 := b2 + ToBits(8, 0x68);
    FirstByte(d, 0x42, d1);
    ThenByte(d, b1, d1, 0x5a, d2);
    ThenByte(d, b2, d2, 0x68, d3);
    ThenByte(d, b3, d3, 0x30 + blockSize100k, d.(h := d.h.(blockSize100k := blockSize100k), state := BLKHDR_1));
  }

  function MagicBits(): Bits {
    ToBits(8, 0x31) + ToBits(8, 0x41) + ToBits(8, 0x59) + ToBits(8, 0x26) + ToBits(8, 0x53) + ToBits(8, 0x59)
  }

  lemma BlockMagicRead(d: DState)
    requires Invariant(d) && d.state == BLKHDR_1
    ensures Reaches(d, MagicBits(), d.(h := d.h.(currBlockNo := d.h.currBlockNo + 1, storedBlockCRC := 0), state := BCRC_1))
  {
    hide Delivers, ToBits;
    var b1 := ToBits(8, 0x31);
    var b2 := b1 + ToBits(8, 0x41);
    var b3 := b2 + ToBits(8, 0x59);
    var b4 := b3 + ToBits(8, 0x26);
    var b5 := b4 + ToBits(8, 0x53);
    FirstByte(d, 0x31, d.(state := BLKHDR_2));
    ThenByte(d, b1, d.(state := BLKHDR_2), 0x41, d.(state := BLKHDR_3));
    ThenByte(d, b2, d.(state := BLKHDR_3), 0x59, d.(state := BLKHDR_4));
    ThenByte(d, b3, d.(state := BLKHDR_4), 0x26, d.(state := BLKHDR_5));
    ThenByte(d, b4, d.(state := BLKHDR_5), 0x53, d.(state := BLKHDR_6));
    ThenByte(d, b5, d.(state := BLKHDR_6), 0x59,
             d.(h := d.h.(currBlockNo := d.h.currBlockNo + 1, storedBlockCRC := 0), state := BCRC_1));
  }

  lemma BlockCrcStep(d: DState, a: Bits, e: DState, v: byte, c: word)
    requires Reaches(d, a, e) && BCRC_1 <= e.state <= BCRC_4 && c == e.h.storedBlockCRC * 256 + v
    ensures Reaches(d, a + ToBits(8, v), e.(h := e.h.(storedBlockCRC := c), state := e.state + 1))
  {
    hide Delivers, ToBits;
    ThenByte(d, a, e, v, e.(h := e.h.(storedBlockCRC := c), state := e.state + 1));
  }

  /** The four bytes of a word, shifted in one after the other. */
  lemma WordBytes(w: word)
    ensures w / 0x1_0000 == w / 0x100_0000 * 256 + w / 0x1_0000 % 256
    ensures w / 0x100 == w / 0x1_0000 * 256 + w / 0x100 % 256
    ensures w == w / 0x100 * 256 + w % 256
  {
  }

  lemma BlockCrcRead(d: DState, crc: word)
    requires Invariant(d) && d.state == BCRC_1 && d.h.storedBlockCRC == 0
    ensures Reaches(d, WordBits(crc), d.(h := d.h.(storedBlockCRC := crc), state := RANDBIT))
  {
    hide Delivers, ToBits, Invariant;
    WordBytes(crc);
    var c1, c2, c3 := crc / 0x100_0000, crc / 0x1_0000, crc / 0x100;
    var d1 := d.(h := d.h.(storedBlockCRC := c1), state := BCRC_2);
    assert Advance(d, c1) == Next(d1);
    FirstByte(d, c1, d1);
    hide Advance;
    var d2 := d1.(h := d1.h.(storedBlockCRC := c2), state := BCRC_3);
    var d3 := d2.(h := d2.h.(storedBlockCRC := c3), state := BCRC_4);
    BlockCrcStep(d, ToBits(8, c1), d1, c2 % 256, c2);
    BlockCrcStep(d, ToBits(8, c1) + ToBits(8, c2 % 256), d2, c3 % 256, c3);
    BlockCrcStep(d, ToBits(8, c1) + ToBits(8, c2 % 256) + ToBits(8, c3 % 256), d3, crc % 256, crc);
  }

  /** The origin pointer is written as one 24-bit field and read as three bytes. */
  lemma OrigPtrBytes(o: nat)
    requires o < 0x100_0000
    ensures ToBits(24, o) == ToBits(8, o / 0x1_0000) + ToBits(8, o / 0x100 % 256) + ToBits(8, o % 256)
  {
    hide ToBits, Pow2, ShiftRight;
    ToBitsSplit(16, 8, o);
    ToBitsSplit(8, 8, o / 0x100);
    Pow2Values();
    ShiftRightIsDivision(o, 8);
    ShiftRightIsDivision(o / 0x100, 8);
    ToBitsLow(8, 8, o / 0x100);
    ToBitsLow(8, 8, o);
  }

  lemma OrigPtrStep(d: DState, a: Bits, e: DState, v: byte, o: nat)
    requires Reaches(d, a, e) && ORIGPTR_1 <= e.state <= ORIGPTR_3 && o == e.h.origPtr * 256 + v
    requires o <= 10 + 100000 * d.h.blockSize100k && d.h.blockSize100k == e.h.blockSize100k
    ensures e.state < ORIGPTR_3 ==> Reaches(d, a + ToBits(8, v), e.(h := e.h.(origPtr := o), state := e.state + 1))
    ensures e.state == ORIGPTR_3 ==>
      Reaches(d, a + ToBits(8, v), e.(h := e.h.(origPtr := o), t := e.t.(i := 0), state := MAPPING_1))
  {
    hide Delivers, ToBits;
    if e.state < ORIGPTR_3 {
      ThenByte(d, a, e, v, e.(h := e.h.(origPtr := o), state := e.state + 1));
    } else {
      ThenByte(d, a, e, v, e.(h := e.h.(origPtr := o), t := e.t.(i := 0), state := MAPPING_1));
    }
  }

  lemma RandBitRead(d: DState)
    requires Invariant(d) && d.state == RANDBIT
    ensures Reaches(d, ToBits(1, 0), d.(h := d.h.(origPtr := 0), state := ORIGPTR_1))
  {
    FieldDelivers(d, 1, 0);
  }

  lemma OrigPtrRead(d: DState, a: Bits, e: DState, o: nat)
    requires Reaches(d, a, e) && e.state == ORIGPTR_1 && e.h.origPtr == 0
    requires o <= 10 + 100000 * d.h.blockSize100k && d.h.blockSize100k == e.h.blockSize100k && o < 0x100_0000
    ensures Reaches(d, a + ToBits(24, o), e.(h := e.h.(origPtr := o), t := e.t.(i := 0), state := MAPPING_1))
  {
    hide Delivers, ToBits, Advance, Invariant, Reaches;
    WordBytes(o);
    var o1, o2 := o / 0x1_0000, o / 0x100;
    var d1 := e.(h := e.h.(origPtr := o1), state := ORIGPTR_2);
    var d2 := d1.(h := d1.h.(origPtr := o2), state := ORIGPTR_3);
    var b1 := ToBits(8, o1);
    var b2, b3 := ToBits(8, o2 % 256), ToBits(8, o % 256);
    OrigPtrStep(d, a, e, o1, o1);
    OrigPtrStep(d, a + b1, d1, o2 % 256, o2);
    OrigPtrStep(d, a + b1 + b2, d2, o % 256, o);
    assert a + (b1 + b2 + b3) == a + b1 + b2 + b3;
    OrigPtrBytes(o);
  }

  /** From the end of the previous block (or of the stream header) to the byte map of this one. */
  lemma BlockHeaderRead(d: DState, crc: word, o: nat)
    requires Invariant(d) && d.state == BLKHDR_1 && o <= 10 + 100000 * d.h.blockSize100k && o < 0x100_0000
    ensures Reaches(d, HeaderBits(crc, o),
                    d.(h := d.h.(currBlockNo := d.h.currBlockNo + 1, storedBlockCRC := crc, origPtr := o),
                       t := d.t.(i := 0), state := MAPPING_1))
  {
    hide Delivers, ToBits, Advance;
    var d1 := d.(h := d.h.(currBlockNo := d.h.currBlockNo + 1, storedBlockCRC := 0), state := BCRC_1);
    var d2 := d1.(h := d1.h.(storedBlockCRC := crc), state := RANDBIT);
    var d3 := d2.(h := d2.h.(origPtr := o), t := d2.t.(i := 0), state := MAPPING_1);
    BlockMagicRead(d);
    BlockCrcRead(d1, crc);
    RandBitRead(d2);
    ReachesThen(d, MagicBits(), d1, WordBits(crc), d2);
    ReachesThen(d, MagicBits() + WordBits(crc), d2, ToBits(1, 0), d2.(h := d2.h.(origPtr := 0), state := ORIGPTR_1));
    OrigPtrRead(d, MagicBits() + WordBits(crc) + ToBits(1, 0), d2.(h := d2.h.(origPtr := 0), state := ORIGPTR_1), o);
    assert d2.(h := d2.h.(origPtr := 0)).(h := d2.h.(origPtr := o), t := d2.t.(i := 0), state := MAPPING_1) == d3;
  }

  /** The trailer ends the stream with the combined checksum stored. */
  lemma TrailerRead(d: DState, crc: word)
    requires Invariant(d) && d.state == BLKHDR_1
    ensures Delivers(d, TrailerBits(crc), Return(d.(h := d.h.(storedCombinedCRC := crc), state := IDLE), STREAM_END))
  {
    hide Delivers, ToBits;
    var b1 := ToBits(8, 0x17);
    var b2 := b1 + ToBits(8, 0x72);
    var b3 := b2 + ToBits(8, 0x45);
    var b4 := b3 + ToBits(8, 0x38);
    var b5 := b4 + ToBits(8, 0x50);
    var b6 := b5 + ToBits(8, 0x90);
    var e := d.(h := d.h.(storedCombinedCRC := 0), state := CCRC_1);
    FirstByte(d, 0x17, d.(state := ENDHDR_2));
    ThenByte(d, b1, d.(state := ENDHDR_2), 0x72, d.(state := ENDHDR_3));
    ThenByte(d, b2, d.(state := ENDHDR_3), 0x45, d.(state := ENDHDR_4));
    ThenByte(d, b3, d.(state := ENDHDR_4), 0x38, d.(state := ENDHDR_5));
    ThenByte(d, b4, d.(state := ENDHDR_5), 0x50, d.(state := ENDHDR_6));
    ThenByte(d, b5, d.(state := ENDHDR_6), 0x90, e);
    StreamCrcRead(e, crc);
    DeliversThen(d, b6, e, WordBits(crc), Return(e.(h := e.h.(storedCombinedCRC := crc), state := IDLE), STREAM_END));
  }

  lemma StreamCrcStep(d: DState, a: Bits, e: DState, v: byte, c: word)
    requires Reaches(d, a, e) && CCRC_1 <= e.state < CCRC_4 && c == e.h.storedCombinedCRC * 256 + v
    ensures Reaches(d, a + ToBits(8, v), e.(h := e.h.(storedCombinedCRC := c), state := e.state + 1))
  {
    hide Delivers, ToBits;
    ThenByte(d, a, e, v, e.(h := e.h.(storedCombinedCRC := c), state := e.state + 1));
  }

  lemma StreamCrcLast(d: DState, a: Bits, e: DState, v: byte, c: word)
    requires Invariant(d) && Reaches(d, a, e) && e.state == CCRC_4 && c == e.h.storedCombinedCRC * 256 + v
    ensures Delivers(d, a + ToBits(8, v), Return(e.(h := e.h.(storedCombinedCRC := c), state := IDLE), STREAM_END))
  {
    hide Delivers, ToBits, Pow2;
    Pow2Values();
    ThenField(d, a, e, 8, v);
  }

  lemma StreamCrcRead(d: DState, crc: word)
    requires Invariant(d) && d.state == CCRC_1 && d.h.storedCombinedCRC == 0
    ensures Delivers(d, WordBits(crc), Return(d.(h := d.h.(storedCombinedCRC := crc), state := IDLE), STREAM_END))
  {
    hide Delivers, ToBits, Invariant;
    WordBytes(crc);
    var c1, c2, c3 := crc / 0x100_0000, crc / 0x1_0000, crc / 0x100;
    var d1 := d.(h := d.h.(storedCombinedCRC := c1), state := CCRC_2);
    assert Advance(d, c1) == Next(d1);
    FirstByte(d, c1, d1);
    hide Advance;
    var d2 := d1.(h := d1.h.(storedCombinedCRC := c2), state := CCRC_3);
    var d3 := d2.(h := d2.h.(storedCombinedCRC := c3), state := CCRC_4);
    StreamCrcStep(d, ToBits(8, c1), d1, c2 % 256, c2);
    StreamCrcStep(d, ToBits(8, c1) + ToBits(8, c2 % 256), d2, c3 % 256, c3);
    StreamCrcLast(d, ToBits(8, c1) + ToBits(8, c2 % 256) + ToBits(8, c3 % 256), d3, crc % 256, crc);
  }
}
