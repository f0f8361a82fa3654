/** The output phase of a block: fetching bytes along the inverse transform and undoing the run-length layer,
    in the FAST and in the SMALL variant, into whatever output space there is. */
module BlockOutput {
  import opened Numbers
  import opened CountingSort
  import opened InverseBwt
  import opened RunLength
  import opened LinkTables
  import Crc

  // ----- what un-RLE still has to deliver -----

  /** len more copies of ch, then whatever the block bytes from position p on stand for. */
  function Pending(chars: seq<byte>, ch: byte, len: nat, p: nat): Decoded
    requires p <= |chars|
  {
    Emit(ch, len, UnRle(chars[p..]))
  }

  /** all is what is left after out has been delivered and rest is still to come. */
  ghost predicate Splits(all: Decoded, out: seq<byte>, rest: Decoded) {
    all.out == out + rest.out && all.corrupt == rest.corrupt
  }

  lemma SplitsMore(all: Decoded, out: seq<byte>, chars: seq<byte>, ch: byte, len: nat, p: nat)
    requires p <= |chars| && len > 0 && Splits(all, out, Pending(chars, ch, len, p))
    ensures Splits(all, out + [ch], Pending(chars, ch, len - 1, p))
  {
    assert Repeat(ch, len) == [ch] + Repeat(ch, len - 1);
  }

  /** The parse at position p, in the order in which the loops look at the bytes. */
  lemma ParseRun(chars: seq<byte>, p: nat)
    requires p + 1 < |chars|
    ensures var c, n := chars[p], |chars|;
      && (n == p + 2 || chars[p + 1] != c ==> Pending(chars, c, 0, p) == Pending(chars, c, 1, p + 1))
      && (n > p + 2 && chars[p + 1] == c && (n == p + 3 || chars[p + 2] != c) ==>
            Pending(chars, c, 0, p) == Pending(chars, c, 2, p + 2))
      && (n > p + 3 && chars[p + 1] == chars[p + 2] == c && (n == p + 4 || chars[p + 3] != c) ==>
            Pending(chars, c, 0, p) == Pending(chars, c, 3, p + 3))
      && (n > p + 4 && chars[p + 1] == chars[p + 2] == chars[p + 3] == c ==>
            Pending(chars, c, 0, p) == Pending(chars, c, chars[p + 4] as nat + 4, p + 5))
  {
    var s := chars[p..];
    assert forall k :: 0 <= k < |s| ==> s[k] == chars[p + k];
    assert s[Span(s)..] == chars[p + Span(s)..];
    EmitNothing(chars[p], UnRle(s));
  }

  lemma EmitNothing(ch: byte, d: Decoded)
    ensures Emit(ch, 0, d) == d
  {
    assert Repeat(ch, 0) + d.out == d.out;
  }

  lemma PendingNone(chars: seq<byte>, a: byte, b: byte, p: nat)
    requires p <= |chars|
    ensures Pending(chars, a, 0, p) == Pending(chars, b, 0, p) == UnRle(chars[p..])
  {
    EmitNothing(a, UnRle(chars[p..]));
    EmitNothing(b, UnRle(chars[p..]));
  }

  lemma CrcMore(crc: word, out: seq<byte>, ch: byte)
    ensures Crc.UpdateAll(crc, out + [ch]) == Crc.Update(Crc.UpdateAll(crc, out), ch)
  {
    assert (out + [ch])[..|out|] == out;
  }

  /** The bytes delivered for a column: the walk from o, one byte further than the block is long. */
  ghost function WalkBytes(col: seq<byte>, o: nat): (r: seq<byte>)
    requires o < |col|
    ensures |r| == |col| + 1
  {
    UnrankInverse(col);
    seq<byte>(|col| + 1, k requires 0 <= k <= |col| => WalkByte(col, Unrank(col), o, k))
  }

  ghost function RowOf(col: seq<byte>, o: nat, k: nat): (r: nat)
    requires o < |col|
    ensures r < |col|
  {
    UnrankInverse(col);
    Row(Unrank(col), o, k)
  }

  ghost function ByteOf(col: seq<byte>, o: nat, k: nat): byte
    requires o < |col|
  {
    UnrankInverse(col);
    WalkByte(col, Unrank(col), o, k)
  }

  lemma WalkBytesAt(col: seq<byte>, o: nat, k: nat)
    requires o < |col| && k <= |col|
    ensures WalkBytes(col, o)[k] == ByteOf(col, o, k)
  {
  }

  /** One look-up in the FAST table: this row's byte and the next row. */
  lemma FastStep(tt: seq<word>, col: seq<byte>, o: nat, k: nat)
    requires o < |col| && FastTable(tt, col)
    ensures var x := tt[RowOf(col, o, k + 1)]; x % 256 == ByteOf(col, o, k) && x / 256 == RowOf(col, o, k + 2)
  {
    hide Unrank, Rank;
    UnrankInverse(col);
    assert RowOf(col, o, k + 2) == Unrank(col)[RowOf(col, o, k + 1)];
  }

  /** One look-up in the SMALL table: the bucket of the row gives its byte. */
  lemma SmallStep(ll: seq<nat>, col: seq<byte>, o: nat, k: nat, ch: byte)
    requires SmallTable(ll, col, o)
    requires CountLess(col, ch) <= RowOf(col, o, k) < CountLess(col, ch as nat + 1)
    ensures ch == ByteOf(col, o, k) && ll[RowOf(col, o, k)] == RowOf(col, o, k + 1)
  {
    hide Rank, Unrank, CountLess;
    var r := RowOf(col, o, k);
    var next := Unrank(col)[r];
    assert RowOf(col, o, k + 1) == next && ByteOf(col, o, k) == col[next];
    UnrankBucket(col, Unrank(col), r);
    if ch < col[next] {
      CountLessMonotone(col, ch as nat + 1, col[next]);
    } else if ch > col[next] {
      CountLessMonotone(col, col[next] as nat + 1, ch);
    }
  }

  class BlockWriter {
    const tables: BlockTables
    var save_nblock: nat
    var tPos: nat
    var k0: byte
    var nblock_used: nat
    var state_out_ch: byte
    var state_out_len: nat
    var calculatedBlockCRC: word
    ghost var col: seq<byte>    // the last column and the origin pointer the tables were built from
    ghost var orig: nat

    ghost predicate Built()
      reads `col, `orig, `save_nblock, tables, tables.tt, tables.ll16, tables.ll4, tables.cftab
    {
      orig < |col| == save_nblock && tables.Linking(col, orig)
    }

    /** used bytes have been fetched, the last of them into k (if it can still start a run). */
    ghost predicate Fetched(k: byte, used: nat, pos: nat)
      reads `col, `orig
      requires orig < |col|
    {
      && 1 <= used <= |col| + 2
      && (used <= |col| ==> k == ByteOf(col, orig, used - 1))
      && pos == RowOf(col, orig, if tables.small then used else used + 1)
    }

    ghost predicate Valid()
      reads this, tables, tables.tt, tables.ll16, tables.ll4, tables.cftab
    {
      Built() && Fetched(k0, nblock_used, tPos)
    }

    /** What the block still has to deliver. */
    ghost function Remaining(): Decoded
      reads this
      requires orig < |col| && 1 <= nblock_used <= |col| + 2
    {
      Pending(WalkBytes(col, orig), state_out_ch, state_out_len, nblock_used - 1)
    }

    constructor (tables: BlockTables)
      ensures this.tables == tables
    {
      this.tables := tables;
      save_nblock, tPos, k0, nblock_used, state_out_ch, state_out_len := 0, 0, 0, 0, 0, 0;
      calculatedBlockCRC := 0;
      col, orig := [], 0;
    }

    /** BZ_GET_FAST or BZ_GET_SMALL: the next byte of the walk. */
    method Get(pos: nat, ghost used: nat) returns (ch: byte, next: nat)
      requires Built() && used <= |col| + 1 && pos == RowOf(col, orig, if tables.small then used else used + 1)
      ensures ch == ByteOf(col, orig, used) && next == RowOf(col, orig, if tables.small then used + 1 else used + 2)
    {
      hide CountLess, RowOf, ByteOf, SmallTable, Entries;
      if tables.small {
        ch := IndexIntoF(pos, tables.cftab, col);
        SmallStep(Entries(tables.ll16[..save_nblock], tables.ll4[..]), col, orig, used, ch);
        next := GetLL(tables.ll16, tables.ll4, pos, save_nblock);
      } else {
        FastStep(tables.tt[..], col, orig, used);
        var x := tables.tt[pos];
        ch := x % 256;
        next := x / 256;
      }
    }

    /** Store the progress of an output loop. */
    method Save(ch: byte, len: nat, k: byte, used: nat, pos: nat, crc: word)
      modifies `state_out_ch, `state_out_len, `k0, `nblock_used, `tPos, `calculatedBlockCRC
      ensures state_out_ch == ch && state_out_len == len && k0 == k && nblock_used == used && tPos == pos
      ensures calculatedBlockCRC == crc
    {
      state_out_ch, state_out_len, k0, nblock_used, tPos, calculatedBlockCRC := ch, len, k, used, pos, crc;
    }

    /** Build the tables in place of a decoded column, and the position of the first row to visit. */
    method BuildTables(nblock: nat, unzftab: array<nat>, origPtr: nat, ghost column: seq<byte>) returns (pos: nat)
      requires tables.Holds(column) && origPtr < nblock == |column| <= 900000 && this !in tables.Repr()
      requires unzftab.Length == 256 && tables.cftab != unzftab && forall c: byte :: unzftab[c] == Count(column, c)
      modifies this, tables.tt, tables.ll16, tables.ll4, tables.cftab
      ensures Built() && col == column && orig == origPtr
      ensures pos == RowOf(col, orig, if tables.small then 0 else 1)
    {
      hide SmallTable, FastTable, Entries, Count, CountLess, RowOf;
      tables.Build(nblock, unzftab, origPtr, column);
      if tables.small {
        pos := origPtr;
      } else {
        pos := tables.tt[origPtr] / 256;
        FirstRow(tables.tt[..], column, origPtr);
      }
      col, orig, save_nblock := column, origPtr, nblock;
      FirstRowSmall(column, origPtr);
    }

    lemma FirstRowSmall(column: seq<byte>, o: nat)
      requires o < |column|
      ensures RowOf(column, o, 0) == o
    {
    }

    lemma FirstRow(table: seq<word>, column: seq<byte>, o: nat)
      requires o < |column| && FastTable(table, column)
      ensures table[o] / 256 == RowOf(column, o, 1)
    {
      hide Unrank, Rank;
      UnrankInverse(column);
      assert Row(Unrank(column), o, 0) == o;
    }

    /** Build the tables in place of a decoded column and fetch the first byte. */
    method Prepare(nblock: nat, unzftab: array<nat>, origPtr: nat, ghost column: seq<byte>)
      requires tables.Holds(column) && origPtr < nblock == |column| <= 900000 && this !in tables.Repr()
      requires unzftab.Length == 256 && tables.cftab != unzftab && forall c: byte :: unzftab[c] == Count(column, c)
      modifies this, tables.tt, tables.ll16, tables.ll4, tables.cftab
      ensures Valid() && col == column && orig == origPtr
      ensures calculatedBlockCRC == Crc.INITIAL && Remaining() == UnRle(WalkBytes(column, origPtr))
    {
      hide BlockTables.Linking, RowOf, ByteOf, Count, UnRle, WalkBytes;
      var pos := BuildTables(nblock, unzftab, origPtr, column);
      var k;
      k, pos := Get(pos, 0);
      Save(0, 0, k, 1, pos, Crc.INITIAL);
      PendingNone(WalkBytes(col, orig), 0, 0, 0);
      assert WalkBytes(col, orig)[0..] == WalkBytes(col, orig);
    }

    /** The block has been delivered completely. */
    predicate Done()
      reads this
    {
      nblock_used == save_nblock + 1 && state_out_len == 0
    }

    /** State of an un-RLE loop that has delivered out: len more copies of ch are due, and used bytes are fetched. */
    ghost predicate Midway(all: Decoded, crc0: word, out: seq<byte>, ch: byte, len: nat, k: byte, used: nat, pos: nat, crc: word)
      reads `col, `orig, `save_nblock
    {
      && orig < |col| == save_nblock
      && Fetched(k, used, pos)
      && Splits(all, out, Pending(WalkBytes(col, orig), ch, len, used - 1))
      && crc == Crc.UpdateAll(crc0, out)
    }

    lemma LoopStarts(all: Decoded, crc: word)
      requires Valid() && all == Remaining()
      ensures Midway(all, crc, [], state_out_ch, state_out_len, k0, nblock_used, tPos, crc)
    {
    }

    lemma MidwayMeans(all: Decoded, crc0: word, out: seq<byte>, ch: byte, len: nat, k: byte, used: nat, pos: nat, crc: word)
      requires Midway(all, crc0, out, ch, len, k, used, pos, crc)
      ensures orig < |col| && 1 <= used <= |col| + 2
      ensures Splits(all, out, Pending(WalkBytes(col, orig), ch, len, used - 1)) && crc == Crc.UpdateAll(crc0, out)
    {
    }

    /** Deliver one of the len bytes that are due. */
    lemma Delivered(all: Decoded, crc0: word, out: seq<byte>, ch: byte, len: nat, k: byte, used: nat, pos: nat, crc: word)
      requires Midway(all, crc0, out, ch, len, k, used, pos, crc) && len > 0
      ensures Midway(all, crc0, out + [ch], ch, len - 1, k, used, pos, Crc.Update(crc, ch))
    {
      hide Pending, Splits, WalkBytes, RowOf, ByteOf;
      SplitsMore(all, out, WalkBytes(col, orig), ch, len, used - 1);
      CrcMore(crc0, out, ch);
    }

    /** A freshly read run is what comes next. */
    lemma RunBegins(all: Decoded, crc0: word, out: seq<byte>, old_ch: byte, k: byte, used: nat, pos: nat, crc: word,
                    ch: byte, len: nat, k': byte, used': nat, pos': nat)
      requires Midway(all, crc0, out, old_ch, 0, k, used, pos, crc) && used <= |col|
      requires Fetched(k', used', pos')
      requires Pending(WalkBytes(col, orig), k, 0, used - 1) == Pending(WalkBytes(col, orig), ch, len, used' - 1)
      ensures Midway(all, crc0, out, ch, len, k', used', pos', crc)
    {
      hide RowOf, WalkBytes, ByteOf;
      PendingNone(WalkBytes(col, orig), old_ch, k, used - 1);
    }

    /** The byte fetched is the block byte at that position, as long as there is one. */
    method GetAt(pos: nat, used: nat, ghost chars: seq<byte>) returns (ch: byte, next: nat)
      requires Built() && used <= |col| + 1 && pos == RowOf(col, orig, if tables.small then used else used + 1)
      requires chars == WalkBytes(col, orig)
      ensures next == RowOf(col, orig, if tables.small then used + 1 else used + 2)
      ensures ch == ByteOf(col, orig, used) && (used <= |col| ==> ch == chars[used])
    {
      hide RowOf, ByteOf, WalkBytes;
      ch, next := Get(pos, used);
      if used <= |col| {
        WalkBytesAt(col, orig, used);
      }
    }

    /** Read the run that starts with the byte in k: its length, and the byte that starts the next one. */
    method NextRun(k: byte, used: nat, pos: nat) returns (ch: byte, len: nat, k': byte, used': nat, pos': nat)
      requires Built() && Fetched(k, used, pos) && used <= save_nblock
      ensures used' > used && len > 0 && Fetched(k', used', pos')
      ensures Pending(WalkBytes(col, orig), k, 0, used - 1) == Pending(WalkBytes(col, orig), ch, len, used' - 1)
    {
      hide Pending, RowOf, ByteOf, WalkBytes, BlockTables.Linking;
      ghost var chars := WalkBytes(col, orig);
      var nblockPP := save_nblock + 1;
      assert |chars| == nblockPP && k == chars[used - 1] by {
        WalkBytesAt(col, orig, used - 1);
      }
      ParseRun(chars, used - 1);
      var k1;
      ch, k', used', pos', len := k, k, used, pos, 1;
      k1, pos' := GetAt(pos', used', chars);
      used' := used' + 1;
      if tables.small && used' == nblockPP {
        return;
      }
      if k1 != k' {
        k' := k1;
        return;
      }
      if used' == nblockPP {
        return;
      }
      len := 2;
      k1, pos' := GetAt(pos', used', chars);
      used' := used' + 1;
      if used' == nblockPP {
        return;
      }
      if k1 != k' {
        k' := k1;
        return;
      }
      len := 3;
      k1, pos' := GetAt(pos', used', chars);
      used' := used' + 1;
      if used' == nblockPP {
        return;
      }
      if k1 != k' {
        k' := k1;
        return;
      }
      k1, pos' := GetAt(pos', used', chars);
      used' := used' + 1;
      len := k1 as nat + 4;
      k', pos' := GetAt(pos', used', chars);
      used' := used' + 1;
    }

    /** Copy the bytes that are due to the output, as far as there is space, and fold them into the checksum. */
    method DeliverRun(availOut: nat, out: seq<byte>, ch: byte, len: nat, crc: word,
                      ghost all: Decoded, ghost crc0: word, ghost k: byte, ghost used: nat, ghost pos: nat)
      returns (out': seq<byte>, len': nat, crc': word)
      requires Midway(all, crc0, out, ch, len, k, used, pos, crc) && |out| <= availOut
      ensures Midway(all, crc0, out', ch, len', k, used, pos, crc') && |out'| <= availOut
      ensures len' == 0 || |out'| == availOut
    {
      hide Midway;
      out', len', crc' := out, len, crc;
      while |out'| < availOut && len' > 0
        invariant |out'| <= availOut && Midway(all, crc0, out', ch, len', k, used, pos, crc')
      {
        Delivered(all, crc0, out', ch, len', k, used, pos, crc');
        out', len', crc' := out' + [ch], len' - 1, Crc.Update(crc', ch);
      }
    }

    /** The locals c_* of the source are working copies, next_out among them, saved unless the block turns out to be
        corrupt: then nothing has been delivered. A jump to s_state_out_len_eq_one is an iteration that starts with a run of length one. */
    method UnRleFast(availOut: nat) returns (out: seq<byte>, corrupt: bool)
      requires Valid() && !tables.small && this !in tables.Repr()
      modifies this
      ensures col == old(col) && orig == old(orig) && save_nblock == old(save_nblock)
      ensures corrupt ==> old(Remaining()).corrupt && out <= old(Remaining()).out && |out| <= availOut
      ensures !corrupt ==>
        && Valid()
        && Splits(old(Remaining()), out, Remaining())
        && calculatedBlockCRC == Crc.UpdateAll(old(calculatedBlockCRC), out)
        && |out| <= availOut && (|out| == availOut || Done())
    {
      hide Midway, Pending, RowOf, ByteOf, BlockTables.Linking, Splits, WalkBytes, Crc.UpdateAll, Crc.Update;
      ghost var all, crc0 := Remaining(), calculatedBlockCRC;
      var crc, ch, k := calculatedBlockCRC, state_out_ch, k0;
      var len: nat, used: nat, pos: nat := state_out_len, nblock_used, tPos;
      out := [];
      corrupt := false;
      LoopStarts(all, crc0);
      while true
        invariant Built() && Fetched(k, used, pos) && Midway(all, crc0, out, ch, len, k, used, pos, crc) && |out| <= availOut
        invariant unchanged(this)
        decreases |col| + 3 - used
      {
        out, len, crc := DeliverRun(availOut, out, ch, len, crc, all, crc0, k, used, pos);
        if len > 0 {
          break;
        }
        if used > save_nblock + 1 {
          ReadTooFar(all, crc0, out, ch, k, used, pos, crc);
          return [], true;
        }
        if used == save_nblock + 1 {
          break;
        }
        var ch', len', k', used', pos' := NextRun(k, used, pos);
        RunBegins(all, crc0, out, ch, k, used, pos, crc, ch', len', k', used', pos');
        ch, len, k, used, pos := ch', len', k', used', pos';
      }
      ghost var rest := Pending(WalkBytes(col, orig), ch, len, used - 1);
      MidwayMeans(all, crc0, out, ch, len, k, used, pos, crc);
      Save(ch, len, k, used, pos, crc);
      assert Remaining() == rest;
    }

    method UnRleSmall(availOut: nat) returns (out: seq<byte>, corrupt: bool)
      requires Valid() && tables.small && this !in tables.Repr()
      modifies this
      ensures col == old(col) && orig == old(orig) && save_nblock == old(save_nblock)
      ensures corrupt ==> old(Remaining()).corrupt && out <= old(Remaining()).out && |out| <= availOut
      ensures !corrupt ==>
        && Valid()
        && Splits(old(Remaining()), out, Remaining())
        && calculatedBlockCRC == Crc.UpdateAll(old(calculatedBlockCRC), out)
        && |out| <= availOut && (|out| == availOut || Done())
    {
      hide Midway, Pending, RowOf, ByteOf, BlockTables.Linking, Splits, WalkBytes, Crc.UpdateAll, Crc.Update;
      ghost var all, crc0 := Remaining(), calculatedBlockCRC;
      out := [];
      corrupt := false;
      LoopStarts(all, crc0);
      while true
        invariant Valid() && |out| <= availOut
        invariant Midway(all, crc0, out, state_out_ch, state_out_len, k0, nblock_used, tPos, calculatedBlockCRC)
        invariant col == old(col) && orig == old(orig) && save_nblock == old(save_nblock)
        decreases |col| + 3 - nblock_used
      {
        var due, crc;
        out, due, crc := DeliverRun(availOut, out, state_out_ch, state_out_len, calculatedBlockCRC,
                                    all, crc0, k0, nblock_used, tPos);
        Save(state_out_ch, due, k0, nblock_used, tPos, crc);
        if |out| == availOut || nblock_used == save_nblock + 1 {
          MidwayMeans(all, crc0, out, state_out_ch, state_out_len, k0, nblock_used, tPos, calculatedBlockCRC);
          return;
        }
        if nblock_used > save_nblock + 1 {
          ReadTooFar(all, crc0, out, state_out_ch, k0, nblock_used, tPos, calculatedBlockCRC);
          return out, true;
        }
        var ch', len', k', used', pos' := NextRun(k0, nblock_used, tPos);
        RunBegins(all, crc0, out, state_out_ch, k0, nblock_used, tPos, calculatedBlockCRC, ch', len', k', used', pos');
        Save(ch', len', k', used', pos', crc);
      }
    }

    /** More bytes fetched than the block and its look-ahead hold: the data is corrupt. */
    lemma ReadTooFar(all: Decoded, crc0: word, out: seq<byte>, ch: byte, k: byte, used: nat, pos: nat, crc: word)
      requires Midway(all, crc0, out, ch, 0, k, used, pos, crc) && used > save_nblock + 1
      ensures all.corrupt && out <= all.out
    {
    }
  }
}
