/** BZ2_bzDecompress: the bit reader, the inverse transform tables and the un-RLE loops behind one call that
    takes any slice of input and any amount of output space. */
module Decompression {
  import opened Numbers
  import opened BitStrings
  import opened CountingSort
  import opened InverseBwt
  import opened RunLength
  import opened LinkTables
  import opened DecoderMachine
  import opened DecoderRun
  import opened StreamDecoding
  import opened DecoderState
  import opened BitReading
  import opened BlockOutput
  import Crc

  lemma NextWaits(d: DState)
    requires Invariant(d)
    ensures Invariant(NextBlock(d)) && DecoderRun.Waiting(NextBlock(d))
  {
  }

  lemma OutputColumn(d: DState)
    requires Invariant(d) && d.state == OUTPUT
    ensures d.h.origPtr < |d.s.tt| <= 900000 && Column(d.s)
    ensures |d.s.unzftab| == 256 && forall c: byte :: d.s.unzftab[c] == Count(d.s.tt, c)
  {
  }

  // ----- what a partly delivered block still stands for -----

  /** Delivering part of a block changes what is left, not what is delivered in all. */
  lemma DeliveredPart(d: DState, p: Decoded, out: seq<byte>, q: Decoded, crc: word, bits: Bits)
    requires Invariant(d) && Splits(p, out, q)
    ensures DecodeBlock(d, p, crc, bits) == Prepend(out, DecodeBlock(d, q, Crc.UpdateAll(crc, out), bits))
  {
    hide Decode, Crc.UpdateAll, Invariant;
    Crc.UpdateAllAppend(crc, out, q.out);
    NextWaits(d);
    if !(p.corrupt || Crc.Finalise(Crc.UpdateAll(crc, p.out)) != d.h.storedBlockCRC) {
      PrependTwice(out, q.out, Decode(NextBlock(d), bits));
    }
  }

  lemma CorruptBlock(d: DState, p: Decoded, crc: word, bits: Bits)
    requires Invariant(d) && p.corrupt
    ensures DecodeBlock(d, p, crc, bits) == Result(p.out, End(DATA_ERROR), bits)
  {
  }

  /** Nothing left of the block: the checksum decides. */
  lemma BlockDone(d: DState, p: Decoded, crc: word, bits: Bits)
    requires Invariant(d) && p == Decoded([], false)
    ensures Invariant(NextBlock(d)) && NextBlock(d).state == BLKHDR_1
    ensures DecodeBlock(d, p, crc, bits)
         == if Crc.Finalise(crc) != d.h.storedBlockCRC then Result([], End(DATA_ERROR), bits) else Decode(NextBlock(d), bits)
  {
    hide Decode;
    var r := Decode(NextBlock(d), bits);
    assert Prepend([], r) == r;
  }

  lemma PrependNothing(r: Result)
    ensures Prepend([], r) == r
  {
  }

  /** The verdict of the whole, on what was left over, with a beginning of the output delivered. */
  ghost predicate Ends(r: Result, out: seq<byte>, code: ReturnCode, rest: Bits) {
    r.verdict == End(code) && out <= r.out && r.rest == rest
  }

  lemma SameBytes(d: DState)
    requires Column(d.s) && d.h.origPtr < |d.s.tt|
    ensures BlockBytes(d) == WalkBytes(d.s.tt, d.h.origPtr)
  {
    hide Unrank, Rank, WalkByte, Count;
  }

  lemma NothingPending(col: seq<byte>, o: nat, ch: byte)
    requires o < |col|
    ensures Pending(WalkBytes(col, o), ch, 0, |col|) == Decoded([], false)
  {
    hide WalkBytes;
    EmitNothing(ch, UnRle(WalkBytes(col, o)[|col|..]));
  }

  /** What a return of the bit-level machine means for the whole. */
  lemma DecodeReturns(d: DState, bits: Bits, e: DState, code: ReturnCode, rest: Bits)
    requires Invariant(d) && DecoderRun.Waiting(d) && Run(d, bits) == Returned(e, code, rest)
    ensures code == OK ==>
      && Invariant(e) && e.state == OUTPUT
      && Decode(d, bits) == DecodeBlock(e, UnRle(WalkBytes(e.s.tt, e.h.origPtr)), Crc.INITIAL, rest)
    ensures code == STREAM_END ==>
      && Invariant(e) && e.state == IDLE
      && Decode(d, bits) == Result([], End(if e.h.calculatedCombinedCRC != e.h.storedCombinedCRC then DATA_ERROR else STREAM_END), rest)
    ensures code != OK && code != STREAM_END ==> Decode(d, bits) == Result([], End(code), rest)
  {
    hide Invariant, DecodeBlock, Run, RunLength.UnRle, WalkBytes, BlockBytes, Column;
    if code == OK {
      OutputColumn(e);
      SameBytes(e);
    } else if code == STREAM_END {
    }
  }

  /** Not even one more field: nothing happens. */
  lemma Starved(d: DState, bits: Bits)
    requires Invariant(d) && DecoderRun.Waiting(d) && |bits| < Need(d)
    ensures Decode(d, bits) == Result([], NeedInput, [])
  {
    hide Invariant, Advance;
  }

  class Decompressor {
    const reader: BitReader
    const writer: BlockWriter

    /** In the output phase the tables are those of the decoded column. */
    ghost predicate Outputting()
      reads reader, reader.dec, writer
    {
      && writer.col == reader.dec.ds.s.tt && writer.orig == reader.dec.ds.h.origPtr
      && writer.orig < |writer.col|
    }

    /** The parts are separate, except that the tables grow out of what the reader stored. */
    ghost predicate Layout()
      reads reader, reader.dec
    {
      writer.tables == reader.dec.tables && writer !in reader.dec.Repr
    }

    ghost predicate Valid()
      reads this, reader, reader.dec, reader.dec.Repr, reader.dec.tables, writer
      reads writer.tables, writer.tables.tt, writer.tables.ll16, writer.tables.ll4, writer.tables.cftab
    {
      && reader.Sound() && Layout()
      && (reader.dec.state == OUTPUT ==> Outputting() && writer.Valid())
    }

    /** Everything still to be delivered if the coming bytes are all the input there is, and how it ends. */
    ghost function Future(coming: seq<byte>): Result
      requires Valid()
      reads this, reader, reader.dec, reader.dec.Repr, reader.dec.tables, writer
      reads writer.tables, writer.tables.tt, writer.tables.ll16, writer.tables.ll4, writer.tables.cftab
    {
      if reader.dec.state == IDLE then Result([], End(SEQUENCE_ERROR), reader.Ahead(coming))
      else if reader.dec.state == OUTPUT
      then DecodeBlock(reader.dec.ds, writer.Remaining(), writer.calculatedBlockCRC, reader.Ahead(coming))
      else Decode(reader.dec.ds, reader.Ahead(coming))
    }

    constructor (small: bool)
      ensures Valid() && fresh(reader) && fresh(reader.dec) && fresh(reader.dec.Repr) && fresh(writer) && writer.tables.small == small
      ensures forall coming :: Future(coming) == Decode(START, BytesToBits(coming))
    {
      var r := new BitReader(small);
      reader := r;
      writer := new BlockWriter(r.dec.tables);
      new;
      forall coming ensures Future(coming) == Decode(START, BytesToBits(coming)) {
        assert reader.Ahead(coming) == BytesToBits(coming);
      }
    }

    /** The un-RLE loop of the variant chosen at initialisation. */
    method UnRle(availOut: nat) returns (out: seq<byte>, corrupt: bool)
      requires writer.Valid() && writer !in writer.tables.Repr()
      modifies writer
      ensures writer.col == old(writer.col) && writer.orig == old(writer.orig)
      ensures corrupt ==> old(writer.Remaining()).corrupt && out <= old(writer.Remaining()).out && |out| <= availOut
      ensures !corrupt ==>
        && writer.Valid()
        && Splits(old(writer.Remaining()), out, writer.Remaining())
        && writer.calculatedBlockCRC == Crc.UpdateAll(old(writer.calculatedBlockCRC), out)
        && |out| <= availOut && (|out| == availOut || writer.Done())
    {
      if writer.tables.small {
        out, corrupt := writer.UnRleSmall(availOut);
      } else {
        out, corrupt := writer.UnRleFast(availOut);
      }
    }

    /** The output half of the loop: deliver what fits, and when the block is complete check its checksum. */
    method Deliver(availOut: nat, ghost coming: seq<byte>, ghost future: Result) returns (out: seq<byte>, ret: ReturnCode, more: bool)
      requires Valid() && reader.dec.state == OUTPUT
      requires future == Future(coming)
      modifies reader.dec`ds, reader.dec`state, reader.dec`calculatedCombinedCRC, writer
      ensures |out| <= availOut
      ensures ret != OK ==> !more && ret == DATA_ERROR && reader.bsLive < 8 && Ends(future, out, ret, reader.Ahead(coming))
      ensures ret == OK ==>
        && Valid() && future == Prepend(out, Future(coming))
        && (if more then DecoderRun.Waiting(reader.dec.ds) else |out| == availOut)
    {
      hide Invariant, DecodeBlock, Decode, Splits, Crc.UpdateAll, WalkBytes, RunLength.UnRle, Pending, NextBlock, Crc.Finalise, Crc.Combine, RowOf, ByteOf;
      ghost var d, p, crc, bits := reader.dec.ds, writer.Remaining(), writer.calculatedBlockCRC, reader.Ahead(coming);
      var corrupt;
      out, corrupt := UnRle(availOut);
      if corrupt {
        CorruptBlock(d, p, crc, bits);
        return out, DATA_ERROR, false;
      }
      DeliveredPart(d, p, out, writer.Remaining(), crc, bits);
      if !writer.Done() {
        return out, OK, false;
      }
      NothingPending(writer.col, writer.orig, writer.state_out_ch);
      BlockDone(d, writer.Remaining(), writer.calculatedBlockCRC, bits);
      if Crc.Finalise(writer.calculatedBlockCRC) != reader.dec.storedBlockCRC {
        return out, DATA_ERROR, false;
      }
      reader.dec.BeginNext(Crc.Finalise(writer.calculatedBlockCRC));
      NextWaits(d);
      return out, OK, true;
    }

    /** A block has been read: build its tables. */
    method Open(ghost coming: seq<byte>)
      requires reader.Sound() && Layout() && reader.dec.state == OUTPUT && reader.dec.HasColumn()
      modifies writer, writer.tables.tt, writer.tables.ll16, writer.tables.ll4, writer.tables.cftab
      ensures Valid()
      ensures var d := reader.dec.ds;
        && d.h.origPtr < |d.s.tt|
        && Future(coming) == DecodeBlock(d, RunLength.UnRle(WalkBytes(d.s.tt, d.h.origPtr)), Crc.INITIAL, reader.Ahead(coming))
    {
      hide Invariant, DecodeBlock, RunLength.UnRle, WalkBytes, Column, BlockWriter.Built, BlockWriter.Fetched, BlockWriter.Remaining;
      OutputColumn(reader.dec.ds);
      writer.Prepare(reader.dec.s.nblock, reader.dec.s.unzftab, reader.dec.origPtr, reader.dec.ds.s.tt);
    }

    /** The input half of the loop: read on to the next block, the end of the stream, an error, or the end of
        the input. */
    method Parse(inp: seq<byte>, pos: nat, ghost later: seq<byte>, ghost future: Result) returns (next: nat, ret: ReturnCode, more: bool)
      requires Valid() && DecoderRun.Waiting(reader.dec.ds) && pos <= |inp| && future == Future(inp[pos..] + later)
      modifies reader, reader.dec, reader.dec.Repr, writer
      ensures fresh(reader.dec.Repr - old(reader.dec.Repr)) && pos <= next <= |inp|
      ensures more ==>
        && ret == OK && Valid() && reader.dec.state == OUTPUT
        && 8 * (|inp| - next) + reader.bsLive < 8 * (|inp| - pos) + old(reader.bsLive)
      ensures ret == OK ==> Valid() && future == Future(inp[next..] + later)
      ensures ret == OK && !more ==> next == |inp| && Future([]) == Result([], NeedInput, [])
      ensures ret != OK ==> future == Result([], End(ret), reader.Ahead(inp[next..] + later)) && reader.bsLive < 8
      ensures ret == STREAM_END ==> Valid() && reader.dec.state == IDLE
    {
      hide Invariant, DecodeBlock, Decode, Run, RunLength.UnRle, WalkBytes, Column, BlockWriter.Valid, BlockWriter.Remaining, Live, BytesToBits;
      ghost var d, bits := reader.dec.ds, reader.Ahead(inp[pos..] + later);
      next, ret := reader.Decompress(inp, pos, later);
      ghost var e := reader.dec.ds;
      ghost var rest := reader.Ahead(inp[next..] + later);
      if ret == OK && reader.dec.state != OUTPUT {
        assert inp[next..] + later == later;
        SameRunSameDecode(d, bits, e, rest);
        Starved(e, reader.Ahead([]));
        return next, ret, false;
      }
      DecodeReturns(d, bits, e, ret, rest);
      if ret == STREAM_END {
        ret := if reader.dec.calculatedCombinedCRC != reader.dec.storedCombinedCRC then DATA_ERROR else STREAM_END;
        return next, ret, false;
      }
      if reader.dec.state != OUTPUT {
        return next, ret, false;
      }
      Open(inp[next..] + later);
      more := true;
    }

    /** BZ2_bzDecompress with the input inp and room for availOut bytes. later stands for any input of later
        calls: what this call delivers comes first in what the whole input stands for, and the saved state
        accounts for all the rest. OK means that the room or the input is used up. A call that ends in an error has
        delivered nothing but a beginning of it. */
    method BzDecompress(inp: seq<byte>, availOut: nat, ghost later: seq<byte>)
      returns (ret: ReturnCode, out: seq<byte>, used: nat)
      requires Valid()
      modifies reader, reader.dec, reader.dec.Repr, writer
      ensures fresh(reader.dec.Repr - old(reader.dec.Repr)) && used <= |inp| && |out| <= availOut
      ensures ret == OK ==> Valid() && (|out| == availOut || used == |inp|)
      ensures ret == OK ==> old(Future(inp + later)) == Prepend(out, Future(inp[used..] + later))
      ensures ret == OK && |out| < availOut ==> Future([]) == Result([], NeedInput, [])
      ensures ret == STREAM_END ==> Valid() && reader.dec.state == IDLE
      ensures ret != OK ==> reader.bsLive < 8 && Ends(old(Future(inp + later)), out, ret, reader.Ahead(inp[used..] + later))
      ensures ret != OK && ret != DATA_ERROR ==> out == old(Future(inp + later)).out
    {
      hide Future, Valid, Invariant, Live, BytesToBits, BitReader.Ahead;
      ghost var future := Future(inp + later);
      out, used := [], 0;
      assert inp[0..] == inp;
      PrependNothing(future);
      while true
        invariant Valid() && used <= |inp| && |out| <= availOut && fresh(reader.dec.Repr - old(reader.dec.Repr))
        invariant future == Prepend(out, Future(inp[used..] + later))
        decreases 8 * (|inp| - used) + reader.bsLive
      {
        if reader.dec.state == IDLE {
          IdleFuture(inp[used..] + later);
          return SEQUENCE_ERROR, out, used;
        }
        StateIs();
        var more := true;
        if reader.dec.state == OUTPUT {
          ret, out, more := DeliverMore(availOut, out, future, inp[used..] + later);
          if !more {
            return;
          }
        }
        ghost var ahead := Future(inp[used..] + later);
        used, ret, more := Parse(inp, used, later, ahead);
        if !more {
          PrependTwice(out, [], ahead);
          assert out + [] == out;
          return;
        }
      }
    }

    /** Less than a byte in the register: the unread bits are as many whole bytes as are still to come. */
    lemma LeftOver(coming: seq<byte>)
      ensures reader.bsLive < 8 ==> |reader.Ahead(coming)| / 8 == |coming|
    {
    }

    lemma StateIs()
      requires Valid()
      ensures reader.dec.state == reader.dec.ds.state
    {
    }

    lemma IdleFuture(coming: seq<byte>)
      requires Valid() && reader.dec.state == IDLE
      ensures reader.bsLive < 8 && Future(coming) == Result([], End(SEQUENCE_ERROR), reader.Ahead(coming))
    {
    }

    /** Deliver into the room that is left. */
    method DeliverMore(availOut: nat, before: seq<byte>, ghost future: Result, ghost coming: seq<byte>)
      returns (ret: ReturnCode, out: seq<byte>, more: bool)
      requires Valid() && reader.dec.state == OUTPUT && |before| <= availOut && future == Prepend(before, Future(coming))
      modifies reader.dec`ds, reader.dec`state, reader.dec`calculatedCombinedCRC, writer
      ensures |out| <= availOut
      ensures ret != OK ==> !more && ret == DATA_ERROR && reader.bsLive < 8 && Ends(future, out, ret, reader.Ahead(coming))
      ensures ret == OK ==>
        && Valid() && future == Prepend(out, Future(coming))
        && (if more then DecoderRun.Waiting(reader.dec.ds) else |out| == availOut)
    {
      hide Future, Valid;
      var part;
      part, ret, more := Deliver(availOut - |before|, coming, Future(coming));
      out := before + part;
      if ret == OK {
        PrependTwice(before, part, Future(coming));
      }
    }
  }
}
