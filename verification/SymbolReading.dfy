/** The symbol loop of BZ2_decompress in place: code words with the decode tables, runs and literals into the
    last column, label by label. */
module SymbolReading {
  import opened Limits
  import opened Numbers
  import opened CountingSort
  import opened CanonicalCodes
  import opened MoveToFront
  import opened RunLength
  import opened HuffmanTables
  import opened LazyMtf
  import opened LinkTables
  import opened DecoderMachine
  import opened TableReading

  /** The decode tables of one list of code lengths. */
  ghost predicate DecodesWith(minLen: nat, limit: seq<int>, base: seq<int>, perm: seq<int>, lens: seq<byte>) {
    && minLen == MinLength(lens)
    && |limit| == |base| == MAX_CODE_LEN && perm == Unrank(lens)
    && forall n :: 0 <= n < MAX_CODE_LEN ==> limit[n] == Limit(lens, n) && base[n] == Base(lens, n)
  }

  class SymbolReader {
    const maps: TableReader
    const tables: BlockTables
    const mtf: MtfList
    const unzftab: array<nat>
    var minLens: seq<nat>
    var limit: seq<seq<int>>
    var base: seq<seq<int>>
    var perm: seq<seq<int>>
    var EOB: nat
    var nblockMAX: nat
    var nblock: nat
    var groupNo: int
    var groupPos: nat
    var gSel: nat
    var es: int
    var N: nat
    var zn: nat
    var zvec: nat

    /** The parts have their sizes and share nothing. */
    ghost predicate Sized() {
      && mtf.Sized() && unzftab.Length == 256 && tables.cftab.Length == 257
      && mtf.mtfa != maps.seqToUnseq && unzftab != maps.selector && unzftab != tables.cftab
    }

    constructor (maps: TableReader, tables: BlockTables)
      requires tables.cftab.Length == 257
      ensures this.maps == maps && this.tables == tables && Sized()
      ensures fresh(mtf) && fresh(mtf.mtfa) && fresh(mtf.mtfbase) && fresh(unzftab)
    {
      this.maps, this.tables := maps, tables;
      mtf := new MtfList();
      unzftab := new nat[256];
    }

    // ----- what the fields represent -----

    ghost predicate CodesAre(t: Tables)
      reads `minLens, `limit, `base, `perm
    {
      && |minLens| == |limit| == |base| == |perm| == |t.len|
      && forall g :: 0 <= g < |t.len| ==> DecodesWith(minLens[g], limit[g], base[g], perm[g], t.len[g])
    }

    ghost predicate PlaceIs(s: Symbols)
      reads `EOB, `nblockMAX, `groupNo, `groupPos, `gSel
    {
      && EOB == s.EOB && nblockMAX == s.nblockMAX && groupNo == s.groupNo && groupPos == s.groupPos
      && (groupNo >= 0 ==> gSel == s.gSel)
    }

    ghost predicate ColumnIs(col: seq<byte>, counts: seq<nat>)
      reads `nblock, unzftab, tables, tables.tt, tables.ll16
    {
      nblock == |col| && unzftab.Length == 256 && unzftab[..] == counts && tables.Holds(col)
    }

    ghost predicate ListIs(list: seq<byte>)
      reads mtf.mtfa, mtf.mtfbase
    {
      mtf.Valid() && mtf.Contents() == list
    }

    /** Between two symbols. */
    ghost predicate Ready(t: Tables, s: Symbols)
      reads this, maps, maps.seqToUnseq, maps.selector, unzftab, tables, tables.tt, tables.ll16, mtf.mtfa, mtf.mtfbase
    {
      && Sized() && maps.ForSymbols(t) && CodesAre(t) && PlaceIs(s) && ColumnIs(s.tt, s.unzftab) && ListIs(s.mtf)
      && tables.Room(s.nblockMAX)
    }

    /** The run that is being read. */
    ghost predicate RunIs(l: Label, s: Symbols)
      reads `es, `N
    {
      InRun(l) ==> es == s.es && N == s.N
    }

    /** The fields that are live at a label hold what the machine's state holds. */
    ghost predicate Represents(l: Label, t: Tables, s: Symbols)
      reads this, maps, maps.seqToUnseq, maps.selector, unzftab, tables, tables.tt, tables.ll16, mtf.mtfa, mtf.mtfbase
    {
      Ready(t, s) && RunIs(l, s) && zn == s.zn && (FirstBits(l) || zvec == s.zvec)
    }

    /** The answer is the machine's step, and the fields represent the state it leads to. */
    ghost predicate Agrees(h: Header, t: Tables, r: Answer, s: Step)
      reads this, maps, maps.seqToUnseq, maps.selector, unzftab, tables, tables.tt, tables.ll16, mtf.mtfa, mtf.mtfbase
    {
      match s
      case Next(e) => r == Wait(e.state) && e.h == h && e.t == t && AtCode(e.state) && Represents(e.state, e.t, e.s)
      case Return(e, OK) => r == Stop(OK) && e.h == h && e.t == t && e.state == OUTPUT && Sized() && ColumnIs(e.s.tt, e.s.unzftab)
      case Return(_, code) => r == Stop(code) && code == DATA_ERROR
    }

    // ----- before the first symbol -----

    /** The decode tables of all lists of code lengths. */
    method CreateTables(ghost t: Tables)
      requires TablesRead(t) && maps.len == t.len
      modifies `minLens, `limit, `base, `perm
      ensures CodesAre(t)
    {
      hide MinLength, MaxLength, Limit, Base, Unrank;
      minLens, limit, base, perm := [], [], [], [];
      for g := 0 to |maps.len|
        invariant |minLens| == |limit| == |base| == |perm| == g
        invariant forall k :: 0 <= k < g ==> DecodesWith(minLens[k], limit[k], base[k], perm[k], t.len[k])
      {
        var minLen, l, b, p := CreateTable(maps.len[g]);
        minLens, limit, base, perm := minLens + [minLen], limit + [l], base + [b], perm + [p];
      }
    }

    method CreateTable(lens: seq<byte>) returns (minLen: nat, limit: seq<int>, base: seq<int>, perm: seq<int>)
      requires LengthsOk(lens)
      ensures DecodesWith(minLen, limit, base, perm, lens)
    {
      hide MinLength, Limit, Base, Unrank;
      var l, b, p := new int[MAX_CODE_LEN], new int[MAX_CODE_LEN], new int[|lens|];
      var maxLen;
      minLen, maxLen := LengthRange(lens);
      CreateDecodeTables(l, b, p, lens, minLen, maxLen);
      assert p[..] == p[..|lens|];
      limit, base, perm := l[..], b[..], p[..];
    }

    /** All code lengths have been read: make everything ready for the first symbol. */
    method Begin(blockSize100k: nat, ghost d: DState) returns (r: Answer)
      requires TablesRead(d.t) && |d.t.len| == d.t.nGroups && maps.ForSymbols(d.t)
      requires Sized() && blockSize100k == d.h.blockSize100k && tables.Room(100000 * blockSize100k)
      modifies this, mtf.mtfa, mtf.mtfbase, unzftab
      ensures Agrees(d.h, d.t, r, StartSymbols(d))
    {
      hide CodesAre, TableReader.ForSymbols, TablesRead, StartSymbols, Symbolic, Count, DecoderMachine.StartMtfVal, Agrees, Ready, FirstSymbols;
      MapSize(d.t);
      CreateTables(d.t);
      Reset(blockSize100k, d);
      SymbolsStart(d);
      r := StartMtfVal(MTF_1, d.(s := FirstSymbols(d)));
    }

    /** An empty column and the bytes in order. */
    method Reset(blockSize100k: nat, ghost d: DState)
      requires maps.ForSymbols(d.t) && CodesAre(d.t)
      requires Sized() && blockSize100k == d.h.blockSize100k && tables.Room(100000 * blockSize100k)
      modifies `EOB, `nblockMAX, `groupNo, `groupPos, `nblock, mtf.mtfa, mtf.mtfbase, unzftab
      ensures Ready(d.t, FirstSymbols(d))
    {
      hide CodesAre, TableReader.ForSymbols, MtfList.Valid, MtfList.Contents, Identity, Zeros, Ready, FirstSymbols, BlockTables.Room;
      MapSize(d.t);
      EOB, nblockMAX, groupNo, groupPos, nblock := maps.nInUse + 1, 100000 * blockSize100k, -1, 0, 0;
      ClearCounts();
      mtf.Init();
      ReadyFirst(d);
    }

    lemma ReadyFirst(d: DState)
      requires Sized() && maps.ForSymbols(d.t) && CodesAre(d.t) && tables.Room(100000 * d.h.blockSize100k)
      requires EOB == |d.t.seqToUnseq| + 1 && nblockMAX == 100000 * d.h.blockSize100k && groupNo == -1 && groupPos == 0
      requires nblock == 0 && unzftab[..] == Zeros(256) && mtf.Valid() && mtf.Contents() == Identity(256)
      ensures Ready(d.t, FirstSymbols(d))
    {
      hide CodesAre, TableReader.ForSymbols, MtfList.Valid, MtfList.Contents, Identity, Zeros;
    }

    method ClearCounts()
      requires unzftab.Length == 256
      modifies unzftab
      ensures unzftab[..] == Zeros(256)
    {
      for i := 0 to 256
        invariant forall k :: 0 <= k < i ==> unzftab[k] == 0
      {
        unzftab[i] := 0;
      }
    }

    lemma MapSize(t: Tables)
      requires maps.ForSymbols(t)
      ensures maps.nInUse == |t.seqToUnseq| && maps.len == t.len
    {
    }

    /** The state before the first symbol. */
    ghost function FirstSymbols(d: DState): Symbols {
      d.s.(EOB := |d.t.seqToUnseq| + 1, nblockMAX := 100000 * d.h.blockSize100k, groupNo := -1, groupPos := 0, gSel := 0,
           unzftab := Zeros(256), mtf := Identity(256), tt := [])
    }

    lemma SymbolsStart(d: DState)
      requires TablesRead(d.t) && |d.t.len| == d.t.nGroups
      ensures Symbolic(d.t, FirstSymbols(d))
      ensures StartSymbols(d) == DecoderMachine.StartMtfVal(d.(s := FirstSymbols(d)), MTF_1)
    {
    }

    // ----- one symbol -----

    /** Everything GET_MTF_VAL does before its first GET_BITS. */
    method StartMtfVal(next: Label, ghost d: DState) returns (r: Answer)
      requires Symbolic(d.t, d.s) && Ready(d.t, d.s) && RunIs(next, d.s)
      requires next == MTF_1 || next == MTF_5 || (next == MTF_3 && d.s.es >= 0 && d.s.N >= 1)
      modifies `groupNo, `groupPos, `gSel, `zn
      ensures Agrees(d.h, d.t, r, DecoderMachine.StartMtfVal(d, next))
    {
      hide CodesAre, ColumnIs, ListIs, TableReader.ForSymbols, Symbolic, Good, MinLength, DecoderMachine.StartMtfVal, BlockTables.Room, TablesInvariant, Invariant, LengthsOk, TablesRead, Column, Count, UsedBytes, Unrank, Limit, Base, Zeros, MtfList.Valid, MtfList.Contents, BlockTables.Holds;
      ValStarts(d, next);
      SelectorsFit(d.t, d.s);
      if groupPos == 0 {
        if groupNo + 1 >= maps.nSelectors {
          return Stop(DATA_ERROR);
        }
        groupNo := groupNo + 1;
        groupPos := GROUP_SIZE;
        gSel := maps.selector[groupNo];
      }
      groupPos := groupPos - 1;
      zn := minLens[gSel];
      r := Wait(next);
    }

    lemma ValStarts(d: DState, next: Label)
      requires Symbolic(d.t, d.s)
      requires next == MTF_1 || next == MTF_5 || (next == MTF_3 && d.s.es >= 0 && d.s.N >= 1)
      ensures Symbolic(d.t, d.s)
      ensures DecoderMachine.StartMtfVal(d, next) ==
        if d.s.groupPos == 0 && d.s.groupNo + 1 >= d.t.nSelectors then Return(d, DATA_ERROR)
        else
          var k := if d.s.groupPos == 0 then d.s.groupNo + 1 else d.s.groupNo;
          var g := if d.s.groupPos == 0 then d.t.selector[k] else d.s.gSel;
          Next(d.(s := d.s.(groupNo := k, groupPos := if d.s.groupPos == 0 then GROUP_SIZE - 1 else d.s.groupPos - 1, gSel := g,
                            zn := MinLength(d.t.len[g])), state := next))
    {
      hide MinLength, Column;
    }

    /** The tables a group may ask for are there. */
    lemma SelectorsFit(t: Tables, s: Symbols)
      requires Symbolic(t, s) && Ready(t, s)
      ensures maps.nSelectors == t.nSelectors == |t.selector| <= maps.selector.Length
      ensures forall k :: 0 <= k < |t.selector| ==> maps.selector[k] == t.selector[k] < |minLens|
      ensures |minLens| == |t.len| && forall g :: 0 <= g < |t.len| ==> minLens[g] == MinLength(t.len[g])
      ensures -1 <= s.groupNo && (s.groupNo == -1 ==> s.groupPos == 0) && s.gSel < |t.len|
    {
      hide MinLength, Column, Limit, Base, Unrank, ListIs, ColumnIs;
      assert maps.selector[..maps.nSelectors] == t.selector;
    }

    /** The code loop of GET_MTF_VAL, after zvec has been set or extended. */
    method CheckCode(l: Label, origPtr: nat, ghost d: DState) returns (r: Answer)
      requires Invariant(d) && AtCode(d.state) && l == d.state && origPtr == d.h.origPtr
      requires Ready(d.t, d.s) && RunIs(l, d.s) && zn == d.s.zn && zvec == d.s.zvec
      modifies this, mtf.mtfa, mtf.mtfbase, unzftab, tables.tt, tables.ll16
      ensures Agrees(d.h, d.t, r, DecoderMachine.CheckCode(d))
    {
      hide CodesAre, ColumnIs, ListIs, TableReader.ForSymbols, Invariant, Symbolic, DecoderMachine.GotSymbol, ReadOneMore, Limit, Base, Unrank, MinLength;
      CodeState(d);
      ghost var lens := d.t.len[d.s.gSel];
      if zn > LONGEST_CODE {
        return Stop(DATA_ERROR);
      }
      if zvec <= limit[gSel][zn] {
        var idx := zvec - base[gSel][zn];
        if idx < 0 || idx >= MAX_ALPHA_SIZE {
          return Stop(DATA_ERROR);
        }
        IndexWithinAlphabet(lens, zn, zvec);
        SymbolKnown(d, Unrank(lens)[idx]);
        r := GotSymbol(l, perm[gSel][idx], origPtr, d.(s := d.s.(nextSym := Unrank(lens)[idx])));
      } else {
        OneMore(d);
        zn := zn + 1;
        r := Wait(if FirstBits(l) then l + 1 else l);
      }
    }

    method GotSymbol(l: Label, nextSym: nat, origPtr: nat, ghost d: DState) returns (r: Answer)
      requires Symbolic(d.t, d.s) && nextSym == d.s.nextSym <= d.s.EOB && (InRun(l) ==> d.s.es >= 0 && d.s.N >= 1)
      requires Ready(d.t, d.s) && RunIs(l, d.s) && l == d.state && origPtr == d.h.origPtr
      modifies this, mtf.mtfa, mtf.mtfbase, unzftab, tables.tt, tables.ll16
      ensures Agrees(d.h, d.t, r, DecoderMachine.GotSymbol(d))
    {
      hide Agrees, Ready, Symbolic, DecoderMachine.AddDigit, DecoderMachine.ProcessFlushed, DecoderMachine.ProcessSymbol;
      if InRun(l) {
        if nextSym == RUNA || nextSym == RUNB {
          r := AddDigit(nextSym, d);
        } else {
          r := ProcessFlushed(nextSym, origPtr, d);
        }
      } else {
        r := ProcessSymbol(nextSym, origPtr, d);
      }
    }

    /** One more digit of a run. */
    method AddDigit(nextSym: nat, ghost d: DState) returns (r: Answer)
      requires Symbolic(d.t, d.s) && nextSym == d.s.nextSym && d.s.es >= -1 && d.s.N >= 1
      requires Ready(d.t, d.s) && es == d.s.es && N == d.s.N
      modifies `es, `N, `groupNo, `groupPos, `gSel, `zn
      ensures Agrees(d.h, d.t, r, DecoderMachine.AddDigit(d))
    {
      hide Agrees, DecoderMachine.StartMtfVal, TableReader.ForSymbols, CodesAre, ListIs, ColumnIs, MinLength, Count;
      es := es + if nextSym == RUNA then N else 2 * N;
      N := 2 * N;
      r := StartMtfVal(MTF_3, d.(s := d.s.(es := es, N := N)));
    }

    /** A run has ended: store its bytes, if there is room, then process the symbol that ended it. */
    method ProcessFlushed(nextSym: nat, origPtr: nat, ghost d: DState) returns (r: Answer)
      requires Symbolic(d.t, d.s) && nextSym == d.s.nextSym <= d.s.EOB && d.s.es >= 0
      requires Ready(d.t, d.s) && es == d.s.es && origPtr == d.h.origPtr
      modifies this, mtf.mtfa, mtf.mtfbase, unzftab, tables.tt, tables.ll16
      ensures Agrees(d.h, d.t, r, DecoderMachine.ProcessFlushed(d))
    {
      hide Represents, Symbolic, CodesAre, ListIs, TableReader.ForSymbols, DecoderMachine.ProcessSymbol, DecoderMachine.ProcessFlushed, Repeat, Column, Append, BlockTables.Holds;
      SymbolsSound(d.t, d.s);
      ListMeans(d.s.mtf);
      FlushStep(d);
      es := es + 1;
      var front := mtf.Front();
      MapAt(d.t, front);
      var uc := maps.seqToUnseq[front];
      var ok := StoreRun(uc, d.s.tt, d.s.unzftab);
      if !ok {
        return Stop(DATA_ERROR);
      }
      r := ProcessSymbol(nextSym, origPtr, d.(s := Append(d.s, uc, d.s.es + 1)));
    }

    /** es copies of uc, or as many as there is room for. */
    method StoreRun(uc: byte, ghost col: seq<byte>, ghost counts: seq<nat>) returns (ok: bool)
      requires Sized() && ColumnIs(col, counts) && |counts| == 256 && es >= 0 && nblock <= nblockMAX && tables.Room(nblockMAX)
      modifies `nblock, `es, unzftab, tables.tt, tables.ll16
      ensures ok == (|col| + old(es) <= nblockMAX)
      ensures ok ==> ColumnIs(col + Repeat(uc, old(es)), counts[uc := counts[uc] + old(es)])
    {
      unzftab[uc] := unzftab[uc] + es;
      ghost var now := counts[uc := counts[uc] + es];
      ghost var n: nat := 0;
      assert col + Repeat(uc, 0) == col;
      assert ColumnIs(col + Repeat(uc, n), now);
      while es > 0
        invariant es >= 0 && es + n == old(es) && nblock == |col| + n <= nblockMAX && ColumnIs(col + Repeat(uc, n), now)
      {
        if nblock >= nblockMAX {
          return false;
        }
        tables.Put(nblock, uc, col + Repeat(uc, n));
        nblock := nblock + 1;
        es := es - 1;
        assert col + Repeat(uc, n) + [uc] == col + Repeat(uc, n + 1);
        n := n + 1;
      }
      ok := true;
    }

    /** The end of the block, the first digit of a run, or a byte. */
    method ProcessSymbol(nextSym: nat, origPtr: nat, ghost d: DState) returns (r: Answer)
      requires Symbolic(d.t, d.s) && nextSym == d.s.nextSym <= d.s.EOB
      requires Ready(d.t, d.s) && origPtr == d.h.origPtr
      modifies this, mtf.mtfa, mtf.mtfbase, unzftab, tables.tt, tables.ll16
      ensures Agrees(d.h, d.t, r, DecoderMachine.ProcessSymbol(d))
    {
      if nextSym == EOB {
        r := if origPtr >= nblock then Stop(DATA_ERROR) else Stop(OK);
      } else if nextSym == RUNA || nextSym == RUNB {
        es, N := -1, 1;
        r := AddDigit(nextSym, d.(s := d.s.(es := -1, N := 1)));
      } else {
        r := Literal(nextSym, d);
      }
    }

    method StoreByte(uc: byte, ghost col: seq<byte>, ghost counts: seq<nat>)
      requires Sized() && ColumnIs(col, counts) && |counts| == 256 && tables.Room(nblock + 1)
      modifies `nblock, unzftab, tables.tt, tables.ll16
      ensures ColumnIs(col + [uc], counts[uc := counts[uc] + 1])
    {
      unzftab[uc] := unzftab[uc] + 1;
      tables.Put(nblock, uc, col);
      nblock := nblock + 1;
    }

    method Literal(nextSym: nat, ghost d: DState) returns (r: Answer)
      requires Symbolic(d.t, d.s) && nextSym == d.s.nextSym <= d.s.EOB && nextSym != RUNA && nextSym != RUNB && nextSym != d.s.EOB
      requires Ready(d.t, d.s)
      modifies this, mtf.mtfa, mtf.mtfbase, unzftab, tables.tt, tables.ll16
      ensures Agrees(d.h, d.t, r, DecoderMachine.ProcessSymbol(d))
    {
      hide Represents, Symbolic, CodesAre, TableReader.ForSymbols, DecoderMachine.StartMtfVal, DecoderMachine.ProcessSymbol, Repeat, ToFront, Column, Append, BlockTables.Holds, Count;
      SymbolsSound(d.t, d.s);
      LiteralStep(d);
      if nblock >= nblockMAX {
        return Stop(DATA_ERROR);
      }
      var i := mtf.Take(nextSym - 1);
      MapAt(d.t, i);
      var uc := maps.seqToUnseq[i];
      StoreByte(uc, d.s.tt, d.s.unzftab);
      r := StartMtfVal(MTF_5, d.(s := d.s.(unzftab := d.s.unzftab[uc := d.s.unzftab[uc] + 1], tt := d.s.tt + [uc], mtf := ToFront(d.s.mtf, nextSym - 1))));
    }

    lemma SymbolsSound(t: Tables, s: Symbols)
      requires Symbolic(t, s)
      ensures |s.tt| <= s.nblockMAX && |s.unzftab| == 256 && |s.mtf| == 256 && 1 <= |t.seqToUnseq| <= 256 && s.EOB == |t.seqToUnseq| + 1
      ensures forall k :: 0 <= k < |t.seqToUnseq| ==> s.mtf[k] < |t.seqToUnseq|
    {
    }

    lemma FlushStep(d: DState)
      requires Symbolic(d.t, d.s) && d.s.es >= 0 && d.s.nextSym <= d.s.EOB
      ensures d.s.mtf[0] < |d.t.seqToUnseq| && Column(d.s)
      ensures var uc, n := d.t.seqToUnseq[d.s.mtf[0]], d.s.es + 1;
        if |d.s.tt| + n > d.s.nblockMAX then DecoderMachine.ProcessFlushed(d) == Return(d, DATA_ERROR)
        else
          var e := d.(s := Append(d.s, uc, n));
          && Symbolic(e.t, e.s) && DecoderMachine.ProcessFlushed(d) == DecoderMachine.ProcessSymbol(e)
          && e.s == d.s.(unzftab := d.s.unzftab[uc := d.s.unzftab[uc] + n], tt := d.s.tt + Repeat(uc, n))
    {
      hide Count, DecoderMachine.ProcessSymbol;
    }

    lemma LiteralStep(d: DState)
      requires Symbolic(d.t, d.s) && d.s.nextSym < d.s.EOB && d.s.nextSym != RUNA && d.s.nextSym != RUNB
      ensures var nn := d.s.nextSym - 1;
        && 0 <= nn < 256 && |d.s.mtf| == 256 && d.s.mtf[nn] < |d.t.seqToUnseq|
        && if |d.s.tt| >= d.s.nblockMAX then DecoderMachine.ProcessSymbol(d) == Return(d, DATA_ERROR)
           else
             var uc := d.t.seqToUnseq[d.s.mtf[nn]];
             |d.s.unzftab| == 256 &&
             var e := d.(s := d.s.(unzftab := d.s.unzftab[uc := d.s.unzftab[uc] + 1], tt := d.s.tt + [uc], mtf := ToFront(d.s.mtf, nn)));
             Symbolic(e.t, e.s) && DecoderMachine.ProcessSymbol(d) == DecoderMachine.StartMtfVal(e, MTF_5)
    {
      hide Count, DecoderMachine.StartMtfVal;
      if |d.s.tt| < d.s.nblockMAX {
        var uc := d.t.seqToUnseq[d.s.mtf[d.s.nextSym - 1]];
        assert Append(d.s, uc, 1).tt == d.s.tt + [uc];
      }
    }

    lemma ListMeans(list: seq<byte>)
      requires ListIs(list)
      ensures mtf.Valid() && mtf.Contents() == list
    {
    }

    lemma MapAt(t: Tables, k: nat)
      requires maps.ForSymbols(t) && k < |t.seqToUnseq|
      ensures k < maps.seqToUnseq.Length && maps.seqToUnseq[k] == t.seqToUnseq[k]
    {
      assert maps.seqToUnseq[..maps.nInUse] == t.seqToUnseq;
    }

    lemma SymbolKnown(d: DState, n: nat)
      requires Invariant(d) && AtCode(d.state) && n < |d.t.len[d.s.gSel]| && Ready(d.t, d.s)
      ensures var e := d.(s := d.s.(nextSym := n)); Symbolic(e.t, e.s) && n <= e.s.EOB && (InRun(e.state) ==> e.s.es >= 0 && e.s.N >= 1) && Ready(e.t, e.s)
    {
    }

    /** A first code word, or one more bit of it. */
    method Advance(l: Label, v: nat, origPtr: nat, ghost d: DState) returns (r: Answer)
      requires Invariant(d) && AtCode(d.state) && l == d.state && origPtr == d.h.origPtr && Represents(l, d.t, d.s)
      modifies this, mtf.mtfa, mtf.mtfbase, unzftab, tables.tt, tables.ll16
      ensures Agrees(d.h, d.t, r, AdvanceCode(d, v))
    {
      hide Agrees, Invariant, DecoderMachine.CheckCode, TableReader.ForSymbols, CodesAre, ListIs, ColumnIs;
      zvec := if FirstBits(l) then v else 2 * zvec + v;
      Extended(d, zvec);
      r := CheckCode(l, origPtr, d.(s := d.s.(zvec := zvec)));
    }

    lemma Extended(d: DState, z: nat)
      requires Invariant(d) && AtCode(d.state)
      ensures Invariant(d.(s := d.s.(zvec := z)))
    {
    }

    /** What the code loop relies on. */
    lemma CodeState(d: DState)
      requires Invariant(d) && AtCode(d.state) && Ready(d.t, d.s)
      ensures gSel == d.s.gSel < |limit| == |base| == |perm| == |d.t.len|
      ensures var lens := d.t.len[d.s.gSel];
        && |lens| > 0 && LengthsOk(lens) && |limit[gSel]| == |base[gSel]| == MAX_CODE_LEN && perm[gSel] == Unrank(lens)
        && forall n :: 0 <= n < MAX_CODE_LEN ==> limit[gSel][n] == Limit(lens, n) && base[gSel][n] == Base(lens, n)
    {
    }

    lemma OneMore(d: DState)
      requires Invariant(d) && AtCode(d.state)
      ensures DecoderMachine.ReadOneMore(d) ==
        Next(d.(s := d.s.(zn := d.s.zn + 1), state := if FirstBits(d.state) then d.state + 1 else d.state))
    {
    }
  }
}
