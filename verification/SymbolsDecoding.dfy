/** The decoder reads back the symbol stream of a block and rebuilds the last column. */
module SymbolsDecoding {
  import opened Limits
  import opened Numbers
  import opened BitStrings
  import opened CountingSort
  import opened CanonicalCodes
  import opened BlockFormat
  import opened DecoderMachine
  import opened DecoderRun

  // ----- one code word -----

  /** e is d after the code word of sym: only the code scratch fields and the label inside the pair differ. */
  ghost predicate Arrived(d: DState, sym: nat, e: DState) {
    && e.h == d.h && e.t == d.t
    && AtCode(e.state) && InRun(e.state) == InRun(d.state)
    && e.s == d.s.(zn := e.s.zn, zvec := e.s.zvec, nextSym := sym)
  }

  /** The top bit of a field. */
  lemma TopBit(n: nat, c: nat)
    requires n > 0
    ensures ToBits(n, c) == [ShiftRight(c, n - 1) % 2 == 1] + ToBits(n - 1, c)
  {
    ToBitsSplit(1, n - 1, c);
  }

  /** The machine is inside the code word of sym and zvec holds its first zn bits. */
  ghost predicate InsideCode(d: DState, sym: nat) {
    && Invariant(d) && AtCode(d.state)
    && var lens := d.t.len[d.s.gSel];
       && ValidLengths(lens, MAX_SENT_CODE) && sym < |lens|
       && MinLength(lens) <= d.s.zn <= lens[sym]
       && d.s.zvec == ShiftRight(Code(lens, sym), lens[sym] - d.s.zn)
  }

  /** All bits of the code word are in: the table lookup yields the symbol. */
  lemma CodeComplete(d: DState, sym: nat)
    requires InsideCode(d, sym) && d.s.zn == d.t.len[d.s.gSel][sym]
    ensures CheckCode(d) == GotSymbol(d.(s := d.s.(nextSym := sym)))
    ensures sym <= d.s.EOB
  {
    hide Invariant, Symbolic, InsideCode, CheckCode, GotSymbol, Code, Limit, Base, Kraft, Unrank, Rank, MinLength, MaxLength;
    InsideMeans(d, sym);
    var lens := d.t.len[d.s.gSel];
    assert d.s.zvec == Code(lens, sym);
    CodeInRange(lens, MAX_SENT_CODE, sym);
    BaseGivesRank(lens, MAX_SENT_CODE, sym);
    LooksUp(d, sym);
  }

  /** A code within the limit of its length is looked up. */
  lemma LooksUp(d: DState, sym: nat)
    requires Invariant(d) && AtCode(d.state) && d.s.zn <= LONGEST_CODE
    requires var lens := d.t.len[d.s.gSel]; var idx := d.s.zvec - Base(lens, d.s.zn);
      d.s.zvec <= Limit(lens, d.s.zn) && 0 <= idx < |lens| && Unrank(lens)[idx] == sym < |lens|
    ensures sym <= d.s.EOB && Symbolic(d.t, d.s.(nextSym := sym)) && (InRun(d.state) ==> d.s.es >= 0 && d.s.N >= 1)
    ensures CheckCode(d) == GotSymbol(d.(s := d.s.(nextSym := sym)))
  {
    hide GotSymbol, Limit, Base, Unrank, MinLength, Column;
    SymbolicIgnoresScratch(d.t, d.s, d.s.(nextSym := sym));
  }

  /** Some bits are missing: the machine asks for one more. */
  lemma CodeIncomplete(d: DState, sym: nat, h: DState)
    requires InsideCode(d, sym) && d.s.zn < d.t.len[d.s.gSel][sym]
    requires var c, n := Code(d.t.len[d.s.gSel], sym), d.t.len[d.s.gSel][sym] - d.s.zn;
      h == ReadOneMore(d).ds.(s := d.s.(zn := d.s.zn + 1, zvec := 2 * d.s.zvec + ShiftRight(c, n - 1) % 2))
    ensures CheckCode(d) == ReadOneMore(d) && InsideCode(h, sym)
    ensures Advance(ReadOneMore(d).ds, h.s.zvec - 2 * d.s.zvec) == CheckCode(h)
  {
    hide Invariant, Symbolic, InsideCode, CheckCode, ReadOneMore, Code, Limit, Kraft, Advance, ShiftRight, MinLength, MaxLength;
    InsideMeans(d, sym);
    ReadsOn(d);
    var lens := d.t.len[d.s.gSel];
    ShorterPrefixExceedsLimit(lens, MAX_SENT_CODE, sym, d.s.zn);
    ShiftRightOnce(Code(lens, sym), lens[sym] - d.s.zn - 1);
    OneMoreBitIn(ReadOneMore(d).ds, h.s.zvec - 2 * d.s.zvec);
    InsideIs(h, sym);
  }

  lemma InsideMeans(d: DState, sym: nat)
    requires InsideCode(d, sym)
    ensures Invariant(d) && AtCode(d.state) && d.s.gSel < |d.t.len|
    ensures var lens := d.t.len[d.s.gSel];
      && ValidLengths(lens, MAX_SENT_CODE) && sym < |lens| && MinLength(lens) <= d.s.zn <= lens[sym] <= MAX_SENT_CODE
      && d.s.zvec == ShiftRight(Code(lens, sym), lens[sym] - d.s.zn)
  {
    hide Column, Code, Kraft, ShiftRight, MinLength;
  }

  lemma InsideIs(d: DState, sym: nat)
    requires Invariant(d) && AtCode(d.state)
    requires var lens := d.t.len[d.s.gSel];
      && ValidLengths(lens, MAX_SENT_CODE) && sym < |lens| && MinLength(lens) <= d.s.zn <= lens[sym]
      && d.s.zvec == ShiftRight(Code(lens, sym), lens[sym] - d.s.zn)
    ensures InsideCode(d, sym)
  {
    hide Invariant, Code, Kraft, ShiftRight, MinLength;
  }

  /** A code above the limit of its length is not complete. */
  lemma ReadsOn(d: DState)
    requires Invariant(d) && AtCode(d.state)
    ensures d.s.gSel < |d.t.len|
    ensures d.s.zn <= LONGEST_CODE && d.s.zvec > Limit(d.t.len[d.s.gSel], d.s.zn) ==> CheckCode(d) == ReadOneMore(d)
    ensures ReadOneMore(d) == Next(d.(s := d.s.(zn := d.s.zn + 1), state := if FirstBits(d.state) then d.state + 1 else d.state))
  {
    hide Column, Limit, Base, Unrank, MinLength, GotSymbol;
  }

  /** A bit that follows the first ones of a code word. */
  lemma OneMoreBitIn(g: DState, v: nat)
    requires Invariant(g) && AtCode(g.state) && !FirstBits(g.state)
    ensures Invariant(g.(s := g.s.(zvec := 2 * g.s.zvec + v)))
    ensures Advance(g, v) == CheckCode(g.(s := g.s.(zvec := 2 * g.s.zvec + v)))
  {
    hide CheckCode, AdvanceTables, AdvanceHeader, AdvanceTrailer, Column;
    SymbolicIgnoresScratch(g.t, g.s, g.s.(zvec := 2 * g.s.zvec + v));
  }

  lemma {:induction false} CodeRest(d: DState, sym: nat) returns (e: DState)
    requires InsideCode(d, sym)
    ensures Arrived(d, sym, e) && Symbolic(e.t, e.s) && sym <= e.s.EOB
    ensures InRun(d.state) ==> e.s.es >= 0 && e.s.N >= 1
    ensures var n := d.t.len[d.s.gSel][sym] - d.s.zn;
      if n == 0 then CheckCode(d) == GotSymbol(e)
      else CheckCode(d).Next? && Invariant(CheckCode(d).ds) && Waiting(CheckCode(d).ds)
           && Delivers(CheckCode(d).ds, ToBits(n, Code(d.t.len[d.s.gSel], sym)), GotSymbol(e))
    decreases d.t.len[d.s.gSel][sym] - d.s.zn
  {
    hide Delivers, GotSymbol, CheckCode, Advance, ShiftRight, ToBits, Code, Kraft, Column, LengthsOk, Count, ValidLengths;
    var lens := d.t.len[d.s.gSel];
    var c, n := Code(lens, sym), lens[sym] - d.s.zn;
    if n == 0 {
      CodeComplete(d, sym);
      e := d.(s := d.s.(nextSym := sym));
      assert Symbolic(e.t, e.s) by {
        SymbolicIgnoresScratch(d.t, d.s, e.s);
      }
    } else {
      var bit := ShiftRight(c, n - 1) % 2;
      var h := ReadOneMore(d).ds.(s := d.s.(zn := d.s.zn + 1, zvec := 2 * d.s.zvec + bit));
      CodeIncomplete(d, sym, h);
      e := CodeRest(h, sym);
      TopBit(n, c);
      OneMoreBit(ReadOneMore(d).ds, bit, ToBits(n - 1, c), CheckCode(h), GotSymbol(e));
    }
  }

  lemma SymbolicIgnoresScratch(t: Tables, a: Symbols, b: Symbols)
    requires Symbolic(t, a) && b == a.(zn := b.zn, zvec := b.zvec, nextSym := b.nextSym, es := b.es, N := b.N)
    ensures Symbolic(t, b)
  {
  }

  lemma OneMoreBit(g: DState, bit: nat, rest: Bits, r: Step, s: Step)
    requires Invariant(g) && Waiting(g) && Need(g) == 1 && bit < 2 && Advance(g, bit) == r
    requires if rest == [] then r == s else r.Next? && Invariant(r.ds) && Waiting(r.ds) && Delivers(r.ds, rest, s)
    ensures Delivers(g, [bit == 1] + rest, s)
  {
    hide Advance, Invariant;
    var bits := [bit == 1] + rest;
    assert bits[..1] == [bit == 1] && bits[1..] == rest;
    assert [bit == 1][..0] == [];
    assert FromBits(bits[..1]) == bit;
  }

  // ----- one symbol, including the change of table every 50 symbols -----

  /** About to read symbol number k of the block. */
  ghost predicate Before(d: DState, k: nat) {
    && Symbolic(d.t, d.s)
    && (forall t :: 0 <= t < |d.t.len| ==> ValidLengths(d.t.len[t], MAX_SENT_CODE))
    && d.s.groupNo == (k + GROUP_SIZE - 1) / GROUP_SIZE - 1
    && d.s.groupPos == (GROUP_SIZE - k % GROUP_SIZE) % GROUP_SIZE
  }

  /** What reading symbols leaves alone. */
  ghost predicate SameBlock(d: DState, e: DState) {
    e.h == d.h && e.t == d.t && e.s.EOB == d.s.EOB && e.s.nblockMAX == d.s.nblockMAX
  }

  lemma SymbolRead(d: DState, k: nat, next: Label, sym: nat) returns (e: DState)
    requires Before(d, k) && k < GROUP_SIZE * d.t.nSelectors && sym < d.t.alphaSize
    requires next == MTF_1 || next == MTF_5 || (next == MTF_3 && d.s.es >= 0 && d.s.N >= 1)
    ensures Before(e, k + 1) && SameBlock(d, e) && e.s.nextSym == sym && InRun(e.state) == (next == MTF_3)
    ensures e.s.mtf == d.s.mtf && e.s.tt == d.s.tt && e.s.es == d.s.es && e.s.N == d.s.N
    ensures StartMtfVal(d, next).Next?
    ensures Delivers(StartMtfVal(d, next).ds, CodeBits(d.t.len[d.t.selector[k / GROUP_SIZE]], sym), GotSymbol(e))
  {
    hide Delivers, GotSymbol, StartMtfVal, CodeBits, Advance, CheckCode, Kraft, Code;
    var g := SymbolStart(d, k, next);
    var top := ShiftRight(Code(g.t.len[g.s.gSel], sym), g.t.len[g.s.gSel][sym] - g.s.zn);
    var h := g.(s := g.s.(zvec := top));
    CodeEntered(g, sym, h);
    e := CodeRest(h, sym);
    CodeWordRead(g, h, sym, top, e);
  }

  /** The first MinLength bits of a code word put the machine inside it. */
  lemma CodeEntered(g: DState, sym: nat, h: DState)
    requires Invariant(g) && FirstBits(g.state) && g.s.zn == MinLength(g.t.len[g.s.gSel])
    requires ValidLengths(g.t.len[g.s.gSel], MAX_SENT_CODE) && sym < |g.t.len[g.s.gSel]|
    requires var lens := g.t.len[g.s.gSel]; g.s.zn <= lens[sym] ==>
      h == g.(s := g.s.(zvec := ShiftRight(Code(lens, sym), lens[sym] - g.s.zn)))
    ensures g.s.zn <= g.t.len[g.s.gSel][sym] && InsideCode(h, sym) && Advance(g, h.s.zvec) == CheckCode(h)
  {
    hide CheckCode, Kraft, Code, ShiftRight, Invariant, Advance, InsideCode, MinLength;
    FirstBitsIn(g, h.s.zvec);
    CodeStart(g.t.len[g.s.gSel], sym);
    InsideIs(h, sym);
  }

  /** The first bits of a code word. */
  lemma FirstBitsIn(g: DState, v: nat)
    requires Invariant(g) && AtCode(g.state) && FirstBits(g.state)
    ensures g.s.gSel < |g.t.len| && Invariant(g.(s := g.s.(zvec := v)))
    ensures Advance(g, v) == CheckCode(g.(s := g.s.(zvec := v)))
  {
    hide CheckCode, AdvanceTables, AdvanceHeader, AdvanceTrailer, Column;
    SymbolicIgnoresScratch(g.t, g.s, g.s.(zvec := v));
  }

  /** Before each symbol the group counters move on, to a new table every 50 symbols. */
  lemma SymbolStart(d: DState, k: nat, next: Label) returns (g: DState)
    requires Before(d, k) && k < GROUP_SIZE * d.t.nSelectors
    requires next == MTF_1 || next == MTF_5 || (next == MTF_3 && d.s.es >= 0 && d.s.N >= 1)
    ensures StartMtfVal(d, next) == Next(g) && Invariant(g) && Before(g, k + 1)
    ensures g.state == next && g.h == d.h && g.t == d.t
    ensures g.s == d.s.(groupNo := g.s.groupNo, groupPos := g.s.groupPos, gSel := d.t.selector[k / GROUP_SIZE],
                        zn := MinLength(d.t.len[d.t.selector[k / GROUP_SIZE]]))
  {
    hide MinLength, Kraft, Column, LengthsOk, ValidLengths, Count;
    GroupAdvance(k, d.t.nSelectors);
    g := StartMtfVal(d, next).ds;
  }

  /** First field, then single bits: together the code word. */
  lemma CodeWordRead(g: DState, h: DState, sym: nat, top: nat, e: DState)
    requires Invariant(g) && FirstBits(g.state) && InsideCode(h, sym) && h == g.(s := g.s.(zvec := top))
    requires Advance(g, top) == CheckCode(h) && Symbolic(e.t, e.s) && sym <= e.s.EOB
    requires e.s.nextSym == sym && (InRun(e.state) ==> e.s.es >= 0 && e.s.N >= 1)
    requires var lens := g.t.len[g.s.gSel];
      && g.s.zn == MinLength(lens)
      && var n := lens[sym] - g.s.zn;
      if n == 0 then CheckCode(h) == GotSymbol(e)
      else CheckCode(h).Next? && Invariant(CheckCode(h).ds) && Waiting(CheckCode(h).ds)
           && Delivers(CheckCode(h).ds, ToBits(n, Code(lens, sym)), GotSymbol(e))
    ensures Delivers(g, CodeBits(g.t.len[g.s.gSel], sym), GotSymbol(e))
  {
    hide Delivers, GotSymbol, Code, Kraft, ShiftRight, CheckCode, ToBits, Advance, StartMtfVal, Column, LengthsOk;
    var lens := g.t.len[g.s.gSel];
    var m, c := MinLength(lens), Code(lens, sym);
    CodeStart(lens, sym);
    FieldDelivers(g, m, top);
    if lens[sym] > m {
      DeliversThen(g, ToBits(m, top), CheckCode(h).ds, ToBits(lens[sym] - m, c), GotSymbol(e));
    } else {
      assert ToBits(m, top) + ToBits(0, c) == ToBits(m, top);
    }
  }

  lemma GroupAdvance(k: nat, nSelectors: nat)
    requires k < GROUP_SIZE * nSelectors
    ensures k / GROUP_SIZE < nSelectors
    ensures (k + GROUP_SIZE - 1) / GROUP_SIZE - 1 == if k % GROUP_SIZE == 0 then k / GROUP_SIZE - 1 else k / GROUP_SIZE
    ensures (k + GROUP_SIZE) / GROUP_SIZE - 1 == k / GROUP_SIZE
    ensures (GROUP_SIZE - (k + 1) % GROUP_SIZE) % GROUP_SIZE == GROUP_SIZE - 1 - k % GROUP_SIZE
  {
  }

  lemma CodeStart(lens: seq<byte>, sym: nat)
    requires ValidLengths(lens, MAX_SENT_CODE) && sym < |lens|
    ensures var m, c := MinLength(lens), Code(lens, sym);
      && 1 <= m <= lens[sym]
      && ShiftRight(c, lens[sym] - m) < Pow2(m)
      && CodeBits(lens, sym) == ToBits(m, ShiftRight(c, lens[sym] - m)) + ToBits(lens[sym] - m, c)
  {
    hide Code, Kraft, Pow2, ShiftRight, ToBits, MinLength, MaxLength, Limit;
    CodeInRange(lens, MAX_SENT_CODE, sym);
    var m, c := MinLength(lens), Code(lens, sym);
    ToBitsSplit(m, lens[sym] - m, c);
    ShiftRightFits(c, m, lens[sym] - m);
  }
}
