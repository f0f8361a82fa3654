/** Filling a block with run-length coded input: add_pair_to_block, ADD_CHAR_TO_BLOCK and flush_RL. */
module RunFilling {
  import opened Numbers
  import opened MoveToFront
  import opened RunLength
  import Crc

  /** What the pending run stands for; 256 means that there is none. */
  function PendingBytes(ch: int, len: nat): seq<byte> {
    if 0 <= ch < 256 then Repeat(ch, len) else []
  }

  /** The pending run is empty or a run that may follow the last one in the block. */
  ghost predicate PendingOk(runs: seq<ByteRun>, ch: int, len: nat) {
    || (ch == 256 && len == 0)
    || (0 <= ch < 256 && 1 <= len <= 255 && (runs != [] ==> runs[|runs| - 1].ch != ch || runs[|runs| - 1].len == 255))
  }

  /** The block is the coding of the runs, and flags and checksum belong to it. */
  ghost predicate Filled(b: seq<byte>, runs: seq<ByteRun>, inUse: seq<bool>, crc: word) {
    ValidRuns(runs) && b == Encode(runs) && inUse == UsedFlags(b) && crc == Crc.UpdateAll(Crc.INITIAL, Expand(runs))
  }

  lemma RunsExtend(runs: seq<ByteRun>, r: ByteRun)
    requires ValidRuns(runs) && ValidRun(r) && (runs != [] ==> runs[|runs| - 1].ch != r.ch || runs[|runs| - 1].len == 255)
    ensures ValidRuns(runs + [r]) && Encode(runs + [r]) == Encode(runs) + EncodeRun(r)
    ensures Expand(runs + [r]) == Expand(runs) + Repeat(r.ch, r.len)
  {
    hide EncodeRun;
    assert (runs + [r])[..|runs|] == runs;
  }

  lemma FlagsExtend(b: seq<byte>, r: ByteRun)
    requires ValidRun(r)
    ensures UsedFlags(b + EncodeRun(r))
      == if r.len < 4 then UsedFlags(b)[r.ch := true] else UsedFlags(b)[r.ch := true][r.len - 4 := true]
  {
    var e := EncodeRun(r);
    forall c: byte ensures c in b + e <==> c in b || c == r.ch || (r.len >= 4 && c == r.len - 4) {
      assert c in b + e <==> c in b || c in e;
      assert e[0] == r.ch && (r.len >= 4 ==> e[4] == r.len - 4);
    }
    assert forall c: byte :: UsedFlags(b + e)[c] <==> c in b + e;
    var want := if r.len < 4 then UsedFlags(b)[r.ch := true] else UsedFlags(b)[r.ch := true][r.len - 4 := true];
    forall c | 0 <= c < 256 ensures UsedFlags(b + e)[c] == want[c] {
      var k: byte := c;
      assert UsedFlags(b)[k] <==> k in b;
    }
  }

  /** One more run in the block. */
  lemma FilledExtends(b: seq<byte>, runs: seq<ByteRun>, inUse: seq<bool>, crc: word, r: ByteRun)
    requires Filled(b, runs, inUse, crc) && PendingOk(runs, r.ch, r.len)
    ensures ValidRun(r) && |inUse| == 256
    ensures Filled(b + EncodeRun(r), runs + [r],
                   if r.len < 4 then inUse[r.ch := true] else inUse[r.ch := true][r.len - 4 := true],
                   Crc.UpdateAll(crc, Repeat(r.ch, r.len)))
  {
    hide Crc.UpdateAll, Crc.Update, UsedFlags, Encode, Expand, EncodeRun;
    RunsExtend(runs, r);
    FlagsExtend(b, r);
    Crc.UpdateAllAppend(Crc.INITIAL, Expand(runs), Repeat(r.ch, r.len));
  }

  lemma NothingFilled()
    ensures Filled([], [], UsedFlags([]), Crc.INITIAL)
    ensures forall c :: 0 <= c < 256 ==> !UsedFlags([])[c]
  {
    forall c | 0 <= c < 256 ensures !UsedFlags([])[c] {
      var k: byte := c;
      assert UsedFlags([])[k] <==> k in [];
    }
  }

  /** The input side of the compressor state. */
  class RunBuffer {
    const block: array<byte>
    var nblock: nat
    var inUse: seq<bool>
    var blockCRC: word
    var state_in_ch: int
    var state_in_len: nat
    ghost var runs: seq<ByteRun>

    ghost predicate Valid()
      reads this, block
    {
      && nblock <= block.Length
      && Filled(block[..nblock], runs, inUse, blockCRC)
      && PendingOk(runs, state_in_ch, state_in_len)
    }

    /** Everything taken in since the block was begun. */
    ghost function Taken(): seq<byte>
      reads this
    {
      Expand(runs) + PendingBytes(state_in_ch, state_in_len)
    }

    predicate IsEmptyRL()
      reads this
    {
      !(state_in_ch < 256 && state_in_len > 0)
    }

    constructor (size: nat)
      ensures Valid() && fresh(block) && block.Length == size && nblock == 0 && runs == [] && IsEmptyRL() && Taken() == []
    {
      block := new byte[size];
      nblock, inUse, blockCRC, state_in_ch, state_in_len, runs := 0, UsedFlags([]), Crc.INITIAL, 256, 0, [];
      new;
      NothingFilled();
      assert block[..0] == [];
    }

    /** The part of prepare_new_block that concerns the input side: an empty block; a pending run stays pending. */
    method Clear()
      requires Valid()
      modifies this
      ensures Valid() && nblock == 0 && runs == []
      ensures state_in_ch == old(state_in_ch) && state_in_len == old(state_in_len)
    {
      nblock, inUse, blockCRC, runs := 0, seq(256, _ => false), Crc.INITIAL, [];
      NothingFilled();
      assert inUse == UsedFlags([]);
      assert block[..0] == [];
    }

    /** Write n copies of ch behind the block. */
    method Store(ch: byte, n: nat)
      requires nblock + n <= block.Length
      modifies this`nblock, block
      ensures nblock == old(nblock) + n && block[..nblock] == old(block[..nblock]) + Repeat(ch, n)
    {
      ghost var b, n0 := block[..nblock], nblock;
      for i := 0 to n
        invariant nblock == n0 + i && block[..nblock] == b + Repeat(ch, i)
      {
        block[nblock] := ch;
        nblock := nblock + 1;
      }
    }

    /** add_pair_to_block. */
    method AddPairToBlock()
      requires Valid() && 0 <= state_in_ch < 256 && nblock + 5 <= block.Length
      modifies this`nblock, this`inUse, this`blockCRC, this`runs, block
      ensures nblock <= old(nblock) + 5 && nblock > old(nblock)
      ensures runs == old(runs) + [ByteRun(state_in_ch, state_in_len)]
      ensures Filled(block[..nblock], runs, inUse, blockCRC)
      ensures Expand(runs) == old(Taken())
    {
      hide Filled, UsedFlags, Encode, Expand, Crc.Update, ValidRuns, Crc.UpdateAll;
      ghost var b, r := block[..nblock], ByteRun(state_in_ch, state_in_len);
      FilledExtends(b, runs, inUse, blockCRC, r);
      FilledRuns(b, runs, inUse, blockCRC);
      RunsExtend(runs, r);
      var ch: byte := state_in_ch;
      blockCRC := UpdateTimes(blockCRC, ch, state_in_len);
      inUse := inUse[state_in_ch := true];
      if state_in_len < 4 {
        Store(ch, state_in_len);
      } else {
        inUse := inUse[state_in_len - 4 := true];
        Store(ch, 4);
        Store(state_in_len - 4, 1);
        assert Repeat(ch, 4) + Repeat(state_in_len - 4, 1) == EncodeRun(r);
        assert b + Repeat(ch, 4) + Repeat(state_in_len - 4, 1) == b + EncodeRun(r);
      }
      runs := runs + [r];
    }

    lemma FilledRuns(b: seq<byte>, runs: seq<ByteRun>, inUse: seq<bool>, crc: word)
      requires Filled(b, runs, inUse, crc)
      ensures ValidRuns(runs)
    {
    }

    /** Fold the same byte into the checksum len times. */
    method UpdateTimes(crc: word, ch: byte, len: nat) returns (r: word)
      ensures r == Crc.UpdateAll(crc, Repeat(ch, len))
    {
      hide Crc.Update;
      r := crc;
      for i := 0 to len
        invariant r == Crc.UpdateAll(crc, Repeat(ch, i))
      {
        assert Repeat(ch, i + 1)[..i] == Repeat(ch, i);
        r := Crc.Update(r, ch);
      }
    }

    /** flush_RL. */
    method FlushRL()
      requires Valid() && nblock + 5 <= block.Length
      modifies this, block
      ensures Valid() && IsEmptyRL() && Taken() == old(Taken()) && old(nblock) <= nblock <= old(nblock) + 5
      ensures Expand(runs) == old(Taken()) && (old(IsEmptyRL()) ==> nblock == old(nblock))
    {
      hide Filled, Expand;
      if state_in_ch < 256 {
        AddPairToBlock();
      } else {
        assert Expand(runs) + [] == Expand(runs);
      }
      state_in_ch, state_in_len := 256, 0;
      assert Expand(runs) + [] == Expand(runs);
    }

    /** ADD_CHAR_TO_BLOCK. */
    method AddCharToBlock(zchh: byte)
      requires Valid() && (IsEmptyRL() ==> runs == []) && nblock + 5 <= block.Length
      modifies this, block
      ensures Valid() && !IsEmptyRL() && Taken() == old(Taken()) + [zchh] && old(nblock) <= nblock <= old(nblock) + 5
    {
      hide Filled, Expand;
      if zchh as int != state_in_ch && state_in_len == 1 {
        AddSingle();
        state_in_ch := zchh;
        assert PendingBytes(state_in_ch, 1) == [zchh];
      } else if zchh as int != state_in_ch || state_in_len == 255 {
        if state_in_ch < 256 {
          AddPairToBlock();
        } else {
          assert Expand(runs) + [] == Expand(runs);
        }
        state_in_ch, state_in_len := zchh, 1;
        assert PendingBytes(state_in_ch, 1) == [zchh];
      } else {
        assert Repeat(zchh, state_in_len + 1) == Repeat(zchh, state_in_len) + [zchh];
        assert Expand(runs) + (Repeat(zchh, state_in_len) + [zchh]) == Expand(runs) + Repeat(zchh, state_in_len) + [zchh];
        state_in_len := state_in_len + 1;
      }
    }

    /** The fast track for a run of one byte. */
    method AddSingle()
      requires Valid() && 0 <= state_in_ch < 256 && state_in_len == 1 && nblock + 5 <= block.Length
      modifies this`nblock, this`inUse, this`blockCRC, this`runs, block
      ensures nblock == old(nblock) + 1
      ensures runs == old(runs) + [ByteRun(state_in_ch, 1)]
      ensures Filled(block[..nblock], runs, inUse, blockCRC)
      ensures Expand(runs) == old(Taken())
    {
      hide Filled, UsedFlags, Encode, Expand, Crc.Update, ValidRuns, Crc.UpdateAll;
      ghost var b, r := block[..nblock], ByteRun(state_in_ch, 1);
      FilledExtends(b, runs, inUse, blockCRC, r);
      FilledRuns(b, runs, inUse, blockCRC);
      RunsExtend(runs, r);
      var ch: byte := state_in_ch;
      UpdateOnce(blockCRC, ch);
      blockCRC := Crc.Update(blockCRC, ch);
      inUse := inUse[state_in_ch := true];
      block[nblock] := ch;
      nblock := nblock + 1;
      assert block[..nblock] == b + EncodeRun(r);
      runs := runs + [r];
    }

    lemma UpdateOnce(crc: word, ch: byte)
      ensures Crc.UpdateAll(crc, Repeat(ch, 1)) == Crc.Update(crc, ch)
    {
      assert Repeat(ch, 1)[..0] == [];
    }
  }
}
