/** The bit input register of the decompressor, and BZ2_decompress driven from it. */
module BitReading {
  import opened Numbers
  import opened BitStrings
  import opened CanonicalCodes
  import opened DecoderMachine
  import opened DecoderRun
  import opened TableReading
  import opened DecoderState

  /** The unread bits: the low live bits of the register. What lies above them is left over and ignored. */
  function Live(buff: word, live: nat): (s: Bits)
    ensures |s| == live
  {
    ToBits(live, buff)
  }

  lemma LoadByte(buff: word, live: nat, b: byte)
    requires live + 8 <= 32
    ensures Live((buff * 0x100 + b) % 0x1_0000_0000, live + 8) == Live(buff, live) + ToBits(8, b)
  {
    hide ToBits, Pow2, ShiftRight;
    Pow2Values();
    ToBitsLow(live + 8, 32, buff * 0x100 + b);
    ToBitsSplit(live, 8, buff * 0x100 + b);
    ShiftRightIsDivision(buff * 0x100 + b, 8);
    ToBitsLow(8, 8, buff * 0x100 + b);
  }

  /** The next n bits as GET_BITS computes them. */
  function Field(buff: word, live: nat, n: nat): nat
    requires n <= live
  {
    buff / Pow2(live - n) % Pow2(n)
  }

  lemma TakeField(buff: word, live: nat, n: nat)
    requires n <= live
    ensures Field(buff, live, n) < Pow2(n)
    ensures Live(buff, live) == ToBits(n, Field(buff, live, n)) + Live(buff, live - n)
  {
    hide ToBits, Pow2, ShiftRight;
    ToBitsSplit(n, live - n, buff);
    ShiftRightIsDivision(buff, live - n);
    ToBitsLow(n, n, buff / Pow2(live - n));
  }

  lemma {:induction false} BytesToBitsFront(b: byte, rest: seq<byte>)
    ensures BytesToBits([b] + rest) == ToBits(8, b) + BytesToBits(rest)
  {
    BytesToBitsAppend([b], rest);
    assert [b][..0] == [];
    assert BytesToBits([b]) == BytesToBits([]) + ToBits(8, b);
  }

  lemma TableFields(d: DState, v: nat)
    requires v < Pow2(Need(d)) && AtTables(d.state)
    ensures v < 0x8000
  {
    Pow2Monotone(Need(d), 15);
    Pow2Values();
  }

  /** No field is wider than the register minus one byte. */
  lemma NeedFits(d: DState)
    requires Invariant(d) && DecoderRun.Waiting(d)
    ensures 1 <= Need(d) <= 24
  {
    NeedPositive(d);
    if FirstBits(d.state) {
      var lens := d.t.len[d.s.gSel];
      assert |lens| > 0 && MinLength(lens) <= lens[0];
    }
  }

  class BitReader {
    const dec: Decoder
    var bsBuff: word
    var bsLive: nat

    /** A byte is taken in only when the field that is waited for needs it. */
    ghost predicate Sound()
      reads this, dec, dec.Repr, dec.tables
    {
      dec.Valid() && this !in dec.Repr && bsLive < Need(dec.ds) + 8 && bsLive < 32
    }

    constructor (small: bool)
      ensures Sound() && fresh(dec) && fresh(dec.Repr) && dec.ds == START && bsLive == 0 && dec.tables.small == small
    {
      dec := new Decoder(small);
      bsBuff, bsLive := 0, 0;
    }

    /** The unread bits, in the register and in the bytes still to come. */
    ghost function Ahead(coming: seq<byte>): Bits
      reads this
    {
      Live(bsBuff, bsLive) + BytesToBits(coming)
    }

    /** Shift one input byte into the register. */
    method Load(b: byte, ghost rest: seq<byte>)
      requires bsLive <= 24
      modifies `bsBuff, `bsLive
      ensures bsLive == old(bsLive) + 8 && Ahead(rest) == old(Ahead([b] + rest))
    {
      hide Live, ToBits, BytesToBits, Pow2;
      LoadByte(bsBuff, bsLive, b);
      BytesToBitsFront(b, rest);
      assert Live(bsBuff, bsLive) + ToBits(8, b) + BytesToBits(rest) == Live(bsBuff, bsLive) + (ToBits(8, b) + BytesToBits(rest));
      bsBuff := (bsBuff * 0x100 + b) % 0x1_0000_0000;
      bsLive := bsLive + 8;
    }

    /** BZ2_decompress on the input from pos on. later stands for any input of later calls: whatever it is, the
        saved state and the unread bits continue the run that was started. A return leaves less than a byte in the
        register. */
    method Decompress(inp: seq<byte>, pos: nat, ghost later: seq<byte>) returns (next: nat, code: ReturnCode)
      requires Sound() && DecoderRun.Waiting(dec.ds) && pos <= |inp|
      modifies this, dec.Repr
      ensures fresh(dec.Repr - old(dec.Repr)) && pos <= next <= |inp|
      ensures code != OK ==> dec.state != OUTPUT
      ensures code == OK || code == STREAM_END ==> Sound()
      ensures code == OK && dec.state == OUTPUT ==> dec.HasColumn()
      ensures code == OK && dec.state != OUTPUT ==>
        && next == |inp| && bsLive < Need(dec.ds) && DecoderRun.Waiting(dec.ds)
        && Run(dec.ds, Ahead(later)) == old(Run(dec.ds, Ahead(inp[pos..] + later)))
      ensures !(code == OK && dec.state != OUTPUT) ==>
        && bsLive < 8 && Good(Return(dec.ds, code))
        && old(Run(dec.ds, Ahead(inp[pos..] + later))) == Returned(dec.ds, code, Ahead(inp[next..] + later))
    {
      hide Advance, Invariant, Run, Live, BytesToBits, Need, Field, Decoder.Layout, Decoder.Holds, Decoder.Need, Decoder.HasColumn;
      next := pos;
      ghost var start := Run(dec.ds, Ahead(inp[pos..] + later));
      while true
        invariant Sound() && DecoderRun.Waiting(dec.ds) && pos <= next <= |inp| && fresh(dec.Repr - old(dec.Repr))
        invariant Run(dec.ds, Ahead(inp[next..] + later)) == start
        decreases 9 * (|inp| - next) + bsLive
      {
        NeedFits(dec.ds);
        dec.NeedIs();
        var n := dec.Need();
        if bsLive >= n {
          var r := TakeAndAdvance(n, inp[next..] + later);
          if r.Stop? {
            return next, r.code;
          }
        } else if next == |inp| {
          assert inp[next..] + later == later;
          return next, OK;
        } else {
          assert inp[next..] + later == [inp[next]] + (inp[next + 1..] + later);
          Load(inp[next], inp[next + 1..] + later);
          next := next + 1;
        }
      }
    }

    /** One complete field: take it from the register and run on to the next label. */
    method TakeAndAdvance(n: nat, ghost coming: seq<byte>) returns (r: Answer)
      requires Sound() && DecoderRun.Waiting(dec.ds) && n == Need(dec.ds) && 1 <= n <= bsLive
      modifies this, dec.Repr
      ensures fresh(dec.Repr - old(dec.Repr)) && bsLive == old(bsLive) - n
      ensures match r
        case Wait(_) =>
          && Sound() && DecoderRun.Waiting(dec.ds)
          && Run(dec.ds, Ahead(coming)) == old(Run(dec.ds, Ahead(coming)))
        case Stop(code) =>
          && (code == OK || code == STREAM_END ==> Sound())
          && (if code == OK then dec.state == OUTPUT && dec.HasColumn() else dec.state != OUTPUT)
          && bsLive < 8 && Good(Return(dec.ds, code))
          && old(Run(dec.ds, Ahead(coming))) == Returned(dec.ds, code, Ahead(coming))
        case Complete => false
    {
      hide DecoderMachine.Advance, Invariant, Run, Live, BytesToBits, Need, Field, Decoder.HasColumn, Decoder.Layout, Decoder.Holds;
      var v := Field(bsBuff, bsLive, n);
      TakeField(bsBuff, bsLive, n);
      ghost var rest := Live(bsBuff, bsLive - n) + BytesToBits(coming);
      FieldDelivers(dec.ds, n, v);
      DeliversRun(dec.ds, ToBits(n, v), DecoderMachine.Advance(dec.ds, v), rest);
      assert Live(bsBuff, bsLive) + BytesToBits(coming) == ToBits(n, v) + rest;
      if AtTables(dec.state) {
        TableFields(dec.ds, v);
      }
      r := dec.Advance(v);
      bsLive := bsLive - n;
    }
  }
}
