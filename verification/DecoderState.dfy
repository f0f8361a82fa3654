/** The DState record updated in place: header fields, the parts for tables and symbols, and the label, which
    together run like the machine. */
module DecoderState {
  import opened Numbers
  import opened DecoderMachine
  import opened DecoderRun
  import opened TableReading
  import opened SymbolReading
  import opened LinkTables
  import StreamDecoding
  import Crc

  class Decoder {
    const t: TableReader
    const s: SymbolReader
    const tables: BlockTables
    var state: Label
    var blockSize100k: Level
    var currBlockNo: nat
    var storedBlockCRC: word
    var storedCombinedCRC: word
    var calculatedCombinedCRC: word
    var origPtr: nat
    ghost var ds: DState           // the machine's state
    ghost var Repr: set<object>

    ghost predicate Owns(cells: set<object>) {
      {this, t, t.inUse16, t.inUse, t.seqToUnseq, t.selectorMtf, t.selector, s, s.mtf.mtfa, s.mtf.mtfbase, s.unzftab,
       tables, tables.cftab} <= cells
    }

    ghost predicate Layout()
      reads `Repr, tables
    {
      && s.maps == t && s.tables == tables && t.Sized() && s.Sized()
      && s.unzftab != t.selectorMtf && tables.cftab != t.selectorMtf && tables.cftab != t.selector && tables.ll4 != t.seqToUnseq && tables.ll4 != s.mtf.mtfa
      && Owns(Repr) && tables.tt in Repr && tables.ll16 in Repr && tables.ll4 in Repr
    }

    ghost predicate HeaderIs(h: Header)
      reads `blockSize100k, `currBlockNo, `storedBlockCRC, `storedCombinedCRC, `calculatedCombinedCRC, `origPtr
    {
      h == Header(blockSize100k, currBlockNo, storedBlockCRC, storedCombinedCRC, calculatedCombinedCRC, origPtr)
    }

    /** The fields that are live at a label hold what the machine's state holds. */
    ghost predicate Holds(d: DState)
      reads this, Repr, tables
      requires Layout()
    {
      && HeaderIs(d.h)
      && (AtTables(d.state) ==> t.Represents(d.state, d.t))
      && (AtCode(d.state) ==> s.Represents(d.state, d.t, d.s))
    }

    ghost predicate Valid()
      reads this, Repr, tables
    {
      && Layout() && Invariant(ds) && state == ds.state && Holds(ds)
      && (state == OUTPUT || state > MAGIC_4 ==> tables.Room(100000 * blockSize100k))
    }

    /** A block has been read, and its column waits to be turned into tables. */
    ghost predicate HasColumn()
      reads this, Repr, tables
    {
      Layout() && s.ColumnIs(ds.s.tt, ds.s.unzftab)
    }

    /** The number of bits the current label waits for. */
    function Need(): nat
      reads this, s
    {
      NeedAt(state, s.zn)
    }

    lemma NeedIs()
      requires Valid()
      ensures Need() == DecoderMachine.Need(ds)
    {
      hide Invariant, SymbolReader.Ready;
    }

    constructor (small: bool)
      ensures Valid() && fresh(Repr) && ds == START && tables.small == small
    {
      var maps := new TableReader();
      var store := new BlockTables(small);
      var symbols := new SymbolReader(maps, store);
      t, s, tables := maps, symbols, store;
      state, blockSize100k, currBlockNo, origPtr := MAGIC_1, 0, 0, 0;
      storedBlockCRC, storedCombinedCRC, calculatedCombinedCRC := 0, 0, 0;
      ds := START;
      Repr := {this, maps, maps.inUse16, maps.inUse, maps.seqToUnseq, maps.selectorMtf, maps.selector,
               symbols, symbols.mtf.mtfa, symbols.mtf.mtfbase, symbols.unzftab,
               store, store.tt, store.ll16, store.ll4, store.cftab};
    }

    /** The answer is the machine's step, and the fields represent the state it leads to. */
    ghost predicate Reached(r: Answer, step: Step)
      reads this, Repr, tables
      requires Layout()
    {
      match step
      case Next(e) => r == Wait(e.state) && Holds(e)
      case Return(e, OK) => r == Stop(OK) && e.state == OUTPUT && Holds(e) && s.ColumnIs(e.s.tt, e.s.unzftab)
      case Return(e, STREAM_END) => r == Stop(STREAM_END) && e.state == IDLE && Holds(e)
      case Return(_, code) => r == Stop(code)
    }

    function Expect(v: nat, want: nat, next: Label): Answer {
      if v == want then Wait(next) else Stop(DATA_ERROR)
    }

    /** Stream header and block header. */
    method AdvanceHeader(v: nat) returns (r: Answer)
      requires Valid() && AtHeader(state)
      modifies `blockSize100k, `currBlockNo, `storedBlockCRC, `origPtr, `Repr, t`i, tables
      ensures Layout() && fresh(Repr - old(Repr)) && old(Repr) <= Repr
      ensures Reached(r, DecoderMachine.AdvanceHeader(ds, v))
      ensures r != Stop(OK) && (r.Wait? && r.next > MAGIC_4 ==> tables.Room(100000 * blockSize100k))
    {
      hide SymbolReader.Represents, TableReader.Represents, SymbolReader.ColumnIs;
      if state == MAGIC_1 {
        r := if v == 0x42 then Wait(MAGIC_2) else Stop(DATA_ERROR_MAGIC);
      } else if state == MAGIC_2 {
        r := if v == 0x5a then Wait(MAGIC_3) else Stop(DATA_ERROR_MAGIC);
      } else if state == MAGIC_3 {
        r := if v == 0x68 then Wait(MAGIC_4) else Stop(DATA_ERROR_MAGIC);
      } else if state == MAGIC_4 {
        r := BlockSize(v);
      } else if state == BLKHDR_1 {
        r := if v == 0x17 then Wait(ENDHDR_2) else Expect(v, 0x31, BLKHDR_2);
      } else if state == BLKHDR_2 {
        r := Expect(v, 0x41, BLKHDR_3);
      } else if state == BLKHDR_3 {
        r := Expect(v, 0x59, BLKHDR_4);
      } else if state == BLKHDR_4 {
        r := Expect(v, 0x26, BLKHDR_5);
      } else if state == BLKHDR_5 {
        r := Expect(v, 0x53, BLKHDR_6);
      } else if state == BLKHDR_6 {
        r := Expect(v, 0x59, BCRC_1);
        currBlockNo, storedBlockCRC := currBlockNo + 1, 0;
      } else if state <= BCRC_4 {
        storedBlockCRC := ShiftIn(storedBlockCRC, v);
        r := Wait(state + 1);
      } else if state == RANDBIT {
        r := if v == 1 then Stop(RANDOMISED) else Wait(ORIGPTR_1);
        origPtr := 0;
      } else {
        r := OriginByte(v);
      }
    }

    /** The last byte of the stream header sizes the tables. */
    method BlockSize(v: nat) returns (r: Answer)
      requires Valid() && state == MAGIC_4
      modifies `blockSize100k, `Repr, tables
      ensures Layout() && fresh(Repr - old(Repr)) && old(Repr) <= Repr
      ensures Reached(r, DecoderMachine.AdvanceHeader(ds, v))
      ensures r.Wait? ==> tables.Room(100000 * blockSize100k)
    {
      hide Reached, Invariant, Layout, DecoderMachine.AdvanceHeader, SymbolReader.Represents, TableReader.Represents, SymbolReader.ColumnIs;
      SizeStep(ds, v);
      if v < 0x31 || v > 0x39 {
        StoppedThere(ds, DATA_ERROR_MAGIC);
        return Stop(DATA_ERROR_MAGIC);
      }
      blockSize100k := v - 0x30;
      SizeTables();
      r := Wait(BLKHDR_1);
      WaitsThere(ds.(h := ds.h.(blockSize100k := v - 0x30), state := BLKHDR_1));
    }

    /** Room for the largest block of the stream. */
    method SizeTables()
      requires Layout()
      modifies `Repr, tables
      ensures Layout() && fresh(Repr - old(Repr)) && old(Repr) <= Repr && tables.Room(100000 * blockSize100k)
    {
      hide Owns, SymbolReader.Sized, TableReader.Sized;
      TablesSized();
      tables.Allocate(blockSize100k);
      OwnsMore(Repr, {this, tables.tt, tables.ll16, tables.ll4});
      ghost var more: set<object> := {this, tables.tt, tables.ll16, tables.ll4};
      Repr := Repr + more;
    }

    lemma OwnsMore(cells: set<object>, more: set<object>)
      requires Owns(cells)
      ensures Owns(cells + more) && this in cells && t in cells && tables in cells && tables.cftab in cells
    {
    }

    lemma TablesSized()
      requires s.Sized() && s.tables == tables
      ensures tables.cftab.Length == 257
    {
    }

    static lemma SizeStep(d: DState, v: nat)
      requires Invariant(d) && d.state == MAGIC_4
      ensures DecoderMachine.AdvanceHeader(d, v) ==
        if v < 0x31 || v > 0x39 then Return(d, DATA_ERROR_MAGIC)
        else Next(d.(h := d.h.(blockSize100k := v - 0x30), state := BLKHDR_1))
    {
    }

    lemma WaitsThere(e: DState)
      requires Layout() && HeaderIs(e.h) && !AtTables(e.state) && !AtCode(e.state)
      ensures Reached(Wait(e.state), Next(e))
    {
    }

    lemma StoppedThere(e: DState, code: ReturnCode)
      requires Layout() && code != OK && code != STREAM_END
      ensures Reached(Stop(code), Return(e, code))
    {
    }

    /** One byte of the origin pointer. */
    method OriginByte(v: nat) returns (r: Answer)
      requires Valid() && ORIGPTR_1 <= state <= ORIGPTR_3
      modifies `origPtr, t`i
      ensures Layout()
      ensures Reached(r, DecoderMachine.AdvanceHeader(ds, v))
    {
      origPtr := origPtr * 256 + v;
      if state < ORIGPTR_3 {
        return Wait(state + 1);
      }
      if origPtr > 10 + 100000 * blockSize100k {
        return Stop(DATA_ERROR);
      }
      t.Start(ds.t);
      r := Wait(MAPPING_1);
    }

    /** End-of-stream trailer. */
    method AdvanceTrailer(v: nat) returns (r: Answer)
      requires Valid() && AtTrailer(state)
      modifies `storedCombinedCRC
      ensures Layout()
      ensures Reached(r, DecoderMachine.AdvanceTrailer(ds, v))
    {
      if state == ENDHDR_2 {
        r := Expect(v, 0x72, ENDHDR_3);
      } else if state == ENDHDR_3 {
        r := Expect(v, 0x45, ENDHDR_4);
      } else if state == ENDHDR_4 {
        r := Expect(v, 0x38, ENDHDR_5);
      } else if state == ENDHDR_5 {
        r := Expect(v, 0x50, ENDHDR_6);
      } else if state == ENDHDR_6 {
        r := Expect(v, 0x90, CCRC_1);
        storedCombinedCRC := 0;
      } else {
        storedCombinedCRC := ShiftIn(storedCombinedCRC, v);
        r := if state < CCRC_4 then Wait(state + 1) else Stop(STREAM_END);
      }
    }

    /** Byte map, selectors and code lengths; with the last of them the symbols begin. */
    method AdvanceTables(v: nat) returns (r: Answer)
      requires Valid() && AtTables(state) && v < 0x8000
      modifies Repr - {this, tables}
      ensures Layout()
      ensures Reached(r, DecoderMachine.AdvanceTables(ds, v))
    {
      r := t.Advance(state, v, ds);
      if r == Complete {
        r := s.Begin(blockSize100k, LengthsComplete(ds));
      }
    }

    /** Code words. */
    method AdvanceCode(v: nat) returns (r: Answer)
      requires Valid() && AtCode(state)
      modifies Repr - {this, tables}
      ensures Layout()
      ensures Reached(r, DecoderMachine.AdvanceCode(ds, v))
    {
      hide Invariant, DecoderMachine.AdvanceCode, SymbolReader.Represents, SymbolReader.ColumnIs, TableReader.Represents;
      r := s.Advance(state, v, origPtr, ds);
    }

    lemma Labels(d: DState)
      requires Invariant(d) && DecoderRun.Waiting(d)
      ensures AtHeader(d.state) || AtTables(d.state) || AtCode(d.state) || AtTrailer(d.state)
    {
    }

    method Dispatch(v: nat) returns (r: Answer)
      requires Valid() && DecoderRun.Waiting(ds) && (AtTables(state) ==> v < 0x8000)
      modifies Repr
      ensures Layout() && fresh(Repr - old(Repr)) && ds == old(ds) && state == old(state)
      ensures Reached(r, DecoderMachine.Advance(ds, v))
      ensures (r.Wait? && r.next > MAGIC_4) || r == Stop(OK) ==> tables.Room(100000 * blockSize100k)
    {
      hide Invariant, DecoderMachine.AdvanceCode, DecoderMachine.AdvanceTables, DecoderMachine.AdvanceHeader, DecoderMachine.AdvanceTrailer, Holds, BlockTables.Room;
      Labels(ds);
      if AtHeader(state) {
        r := AdvanceHeader(v);
      } else if AtTables(state) {
        r := AdvanceTables(v);
      } else if AtCode(state) {
        r := AdvanceCode(v);
      } else {
        r := AdvanceTrailer(v);
      }
    }

    /** From one label to the next. */
    method Advance(v: nat) returns (r: Answer)
      requires Valid() && DecoderRun.Waiting(ds) && (AtTables(state) ==> v < 0x8000)
      modifies Repr
      ensures fresh(Repr - old(Repr))
      ensures match r
        case Wait(_) => Valid() && DecoderMachine.Advance(old(ds), v) == Next(ds) && DecoderRun.Waiting(ds)
        case Stop(code) =>
          && DecoderMachine.Advance(old(ds), v) == Return(ds, code)
          && (code == OK ==> Valid() && state == OUTPUT && HasColumn())
          && (code == STREAM_END ==> Valid() && state == IDLE)
          && (code != OK ==> state != OUTPUT)
        case Complete => false
    {
      hide Invariant, DecoderMachine.Advance, SymbolReader.Represents, SymbolReader.ColumnIs, TableReader.Represents, BlockTables.Room;
      ghost var step := DecoderMachine.Advance(ds, v);
      r := Dispatch(v);
      ds := step.ds;
      if r.Wait? {
        state := r.next;
      } else if r == Stop(OK) {
        state := OUTPUT;
      } else if r == Stop(STREAM_END) {
        state := IDLE;
      }
    }

    /** A block with this checksum, the one stored with it, has been delivered: on to the next one. */
    method BeginNext(blockCRC: word)
      requires Valid() && state == OUTPUT && blockCRC == storedBlockCRC
      modifies `state, `calculatedCombinedCRC, `ds
      ensures Valid() && ds == StreamDecoding.NextBlock(old(ds))
    {
      hide SymbolReader.Represents, TableReader.Represents, Crc.Combine, BlockTables.Room, Column, TablesInvariant, CodeInvariant;
      calculatedCombinedCRC := Crc.Combine(calculatedCombinedCRC, blockCRC);
      state := BLKHDR_1;
      ds := StreamDecoding.NextBlock(ds);
    }
  }
}
