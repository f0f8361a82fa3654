/** From the symbol stream to the last column: zero runs, move-to-front symbols and the end of the block. */
module ColumnDecoding {
  import opened Limits
  import opened Numbers
  import opened CanonicalCodes
  import opened MoveToFront
  import opened RunLength
  import opened BlockFormat
  import opened DecoderMachine
  import opened DecoderRun
  import opened SymbolsDecoding

  predicate RunDigit(x: nat) {
    x == RUNA || x == RUNB
  }

  ghost predicate CanStart(d: DState, next: Label) {
    Symbolic(d.t, d.s) && (next == MTF_1 || next == MTF_5 || (next == MTF_3 && d.s.es >= 0 && d.s.N >= 1))
  }

  /** About to read the symbols syms, the first of which is number k, with tables that code them all. */
  ghost predicate Ready(d: DState, next: Label, syms: seq<nat>, k: nat) {
    Before(d, k) && CanStart(d, next) && syms != [] && Codable(syms, k, d.t.selector, d.t.len)
  }

  /** The bits of syms drive the machine into the step s. */
  ghost predicate Feeds(d: DState, next: Label, syms: seq<nat>, k: nat, s: Step) {
    && Ready(d, next, syms, k)
    && var st := StartMtfVal(d, next);
       st.Next? && Delivers(st.ds, DataBits(syms, k, d.t.selector, d.t.len), s)
  }

  /** The code word of the first symbol drives the machine into the step s. */
  ghost predicate FirstLeads(d: DState, next: Label, syms: seq<nat>, k: nat, s: Step) {
    && Ready(d, next, syms, k)
    && var st := StartMtfVal(d, next);
       st.Next? && Delivers(st.ds, CodeBits(d.t.len[d.t.selector[k / GROUP_SIZE]], syms[0]), s)
  }

  lemma OneSymbol(d: DState, next: Label, syms: seq<nat>, k: nat) returns (e: DState)
    requires Ready(d, next, syms, k)
    ensures Before(e, k + 1) && SameBlock(d, e) && e.s.nextSym == syms[0] && InRun(e.state) == (next == MTF_3)
    ensures e.s.mtf == d.s.mtf && e.s.tt == d.s.tt && e.s.es == d.s.es && e.s.N == d.s.N && syms[0] <= e.s.EOB
    ensures FirstLeads(d, next, syms, k, GotSymbol(e))
  {
    hide Delivers, GotSymbol, StartMtfVal, CodeBits;
    e := SymbolRead(d, k, next, syms[0]);
  }

  /** The last symbol of a list. */
  lemma FeedsLast(d: DState, next: Label, syms: seq<nat>, k: nat, s: Step)
    requires Ready(d, next, syms, k) && |syms| == 1
    requires FirstLeads(d, next, syms, k, s)
    ensures Feeds(d, next, syms, k, s)
  {
    hide Delivers, StartMtfVal, CodeBits;
    var c := CodeBits(d.t.len[d.t.selector[k / GROUP_SIZE]], syms[0]);
    assert syms[1..] == [] && DataBits(syms[1..], k + 1, d.t.selector, d.t.len) == [];
    assert c + [] == c;
  }

  /** A symbol that leads to reading further symbols. */
  lemma FeedsMore(d: DState, next: Label, syms: seq<nat>, k: nat, e: DState, onto: Label, s: Step)
    requires Ready(d, next, syms, k) && |syms| > 1 && e.t == d.t && Ready(e, onto, syms[1..], k + 1)
    requires FirstLeads(d, next, syms, k, StartMtfVal(e, onto))
    requires Feeds(e, onto, syms[1..], k + 1, s)
    ensures Feeds(d, next, syms, k, s)
  {
    hide Delivers, StartMtfVal, CodeBits, Invariant, Column;
    var a, b := StartMtfVal(d, next).ds, StartMtfVal(e, onto).ds;
    DeliversThen(a, CodeBits(d.t.len[d.t.selector[k / GROUP_SIZE]], syms[0]), b,
                 DataBits(syms[1..], k + 1, d.t.selector, d.t.len), s);
  }

  // ----- zero runs -----

  /** e is d after n more symbols, the last of them y. */
  ghost predicate AfterSymbols(d: DState, e: DState, k: nat, y: nat) {
    Before(e, k) && SameBlock(d, e) && e.s.mtf == d.s.mtf && e.s.nextSym == y && y <= e.s.EOB
  }

  /** Digits inside a run, then the symbol y that ends it. */
  lemma {:induction false} DigitsRead(d: DState, k: nat, digits: seq<nat>, y: nat) returns (e: DState)
    requires Ready(d, MTF_3, digits + [y], k) && !RunDigit(y)
    requires forall m :: 0 <= m < |digits| ==> RunDigit(digits[m])
    ensures AfterSymbols(d, e, k + |digits| + 1, y) && e.s.tt == d.s.tt
    ensures e.s.es == d.s.es + RunValue(digits, d.s.N) && e.s.es >= 0
    ensures Feeds(d, MTF_3, digits + [y], k, ProcessFlushed(e))
    decreases |digits|
  {
    hide Delivers, StartMtfVal, CodeBits, ProcessFlushed, DataBits, Codable, Column, ValidLengths, TablesRead;
    var syms := digits + [y];
    var f := OneSymbol(d, MTF_3, syms, k);
    if digits == [] {
      e := f;
      assert GotSymbol(f) == ProcessFlushed(f);
      FeedsLast(d, MTF_3, syms, k, ProcessFlushed(f));
    } else {
      assert syms[1..] == digits[1..] + [y];
      var g := f.(s := f.s.(es := f.s.es + if digits[0] == RUNA then f.s.N else 2 * f.s.N, N := 2 * f.s.N));
      BeforeIgnoresScratch(f, g, k + 1);
      assert GotSymbol(f) == StartMtfVal(g, MTF_3);
      ReadyRest(d, MTF_3, syms, k, g, MTF_3);
      e := DigitsRead(g, k + 1, digits[1..], y);
      FeedsMore(d, MTF_3, syms, k, g, MTF_3, ProcessFlushed(e));
    }
  }

  lemma BeforeIgnoresScratch(f: DState, g: DState, k: nat)
    requires Before(f, k) && g == f.(s := f.s.(es := g.s.es, N := g.s.N))
    ensures Before(g, k)
  {
    SymbolicIgnoresScratch(f.t, f.s, g.s);
  }

  lemma ReadyRest(d: DState, next: Label, syms: seq<nat>, k: nat, e: DState, onto: Label)
    requires Ready(d, next, syms, k) && |syms| > 1 && e.t == d.t && Before(e, k + 1) && CanStart(e, onto)
    ensures Ready(e, onto, syms[1..], k + 1)
  {
    hide Before, CanStart;
  }

  /** The front byte of the list. */
  ghost function Front(d: DState): byte
    requires Symbolic(d.t, d.s)
  {
    d.t.seqToUnseq[d.s.mtf[0]]
  }

  /** A non-empty run from its first digit on, then the symbol y. */
  lemma RunRead(d: DState, next: Label, k: nat, digits: seq<nat>, y: nat) returns (h: DState)
    requires Ready(d, next, digits + [y], k) && next != MTF_3 && !RunDigit(y) && digits != []
    requires forall m :: 0 <= m < |digits| ==> RunDigit(digits[m])
    ensures AfterSymbols(d, h, k + |digits| + 1, y) && h.s.tt == d.s.tt
    ensures h.s.es == RunValue(digits, 1) - 1 && h.s.es >= 0
    ensures Feeds(d, next, digits + [y], k, ProcessFlushed(h))
  {
    hide Delivers, StartMtfVal, CodeBits, DataBits, Codable, ValidLengths, TablesRead, ProcessFlushed, Column;
    var syms := digits + [y];
    var f := OneSymbol(d, next, syms, k);
    assert syms[1..] == digits[1..] + [y];
    var g := f.(s := f.s.(es := if digits[0] == RUNA then 0 else 1, N := 2));
    BeforeIgnoresScratch(f, g, k + 1);
    EndBeyondDigits(f);
    FirstDigitStep(f, g);
    ReadyRest(d, next, syms, k, g, MTF_3);
    h := DigitsRead(g, k + 1, digits[1..], y);
    FeedsMore(d, next, syms, k, g, MTF_3, ProcessFlushed(h));
  }

  lemma FirstDigitStep(f: DState, g: DState)
    requires Symbolic(f.t, f.s) && !InRun(f.state) && RunDigit(f.s.nextSym) && f.s.nextSym <= f.s.EOB
    requires g == f.(s := f.s.(es := if f.s.nextSym == RUNA then 0 else 1, N := 2)) && Symbolic(g.t, g.s)
    ensures GotSymbol(f) == StartMtfVal(g, MTF_3)
  {
    hide StartMtfVal, Column, TablesRead;
    EndBeyondDigits(f);
  }

  /** A zero run of any length z, possibly none, then the symbol y: the column grows by z front bytes. */
  lemma ZeroRunRead(d: DState, next: Label, k: nat, z: nat, y: nat) returns (e: DState)
    requires Ready(d, next, ZeroRun(z) + [y], k) && next != MTF_3 && !RunDigit(y) && |d.s.tt| + z <= d.s.nblockMAX
    ensures AfterSymbols(d, e, k + |ZeroRun(z)| + 1, y) && e.s.tt == d.s.tt + Repeat(Front(d), z)
    ensures Feeds(d, next, ZeroRun(z) + [y], k, ProcessSymbol(e))
  {
    hide Delivers, StartMtfVal, CodeBits, DataBits, Codable, ValidLengths, LengthsOk, Feeds, ProcessSymbol;
    ZeroRunShort(z);
    if z == 0 {
      assert ZeroRun(0) + [y] == [y];
      e := OneSymbol(d, next, [y], k);
      assert GotSymbol(e) == ProcessSymbol(e);
      FeedsLast(d, next, [y], k, ProcessSymbol(e));
    } else {
      var h := RunRead(d, next, k, ZeroRun(z), y);
      ZeroRunDecodes(z, 1);
      assert h.s.es + 1 == z;
      e := h.(s := Append(h.s, Front(d), z));
    }
  }

  lemma EndBeyondDigits(d: DState)
    requires Symbolic(d.t, d.s)
    ensures d.s.EOB >= 2
  {
  }

  // ----- the whole stream -----

  lemma FeedsAppend(d: DState, next: Label, a: seq<nat>, b: seq<nat>, k: nat, g: DState, onto: Label, s: Step)
    requires Ready(d, next, a + b, k) && g.t == d.t && CanStart(g, onto)
    requires Feeds(d, next, a, k, StartMtfVal(g, onto))
    requires Feeds(g, onto, b, k + |a|, s)
    ensures Feeds(d, next, a + b, k, s)
  {
    hide Delivers, StartMtfVal, DataBits, Invariant, Codable;
    DataBitsAppend(a, b, k, d.t.selector, d.t.len);
    DeliversThen(StartMtfVal(d, next).ds, DataBits(a, k, d.t.selector, d.t.len), StartMtfVal(g, onto).ds,
                 DataBits(b, k + |a|, d.t.selector, d.t.len), s);
  }

  lemma ReadyParts(d: DState, next: Label, a: seq<nat>, b: seq<nat>, k: nat)
    requires Ready(d, next, a + b, k) && a != []
    ensures Ready(d, next, a, k) && Codable(b, k + |a|, d.t.selector, d.t.len)
  {
    hide Before, CanStart;
    CodableParts(a, b, k, d.t.selector, d.t.len);
  }

  /** The state after a move-to-front symbol for list position j. */
  ghost function AfterLiteral(e: DState, j: nat): DState
    requires Symbolic(e.t, e.s) && j < |e.t.seqToUnseq| && |e.s.tt| < e.s.nblockMAX
  {
    e.(s := Append(e.s, e.t.seqToUnseq[e.s.mtf[j]], 1).(mtf := ToFront(e.s.mtf, j)))
  }

  lemma LiteralStep(e: DState, k: nat, j: nat)
    requires Before(e, k) && 1 <= j < |e.t.seqToUnseq| && |e.s.tt| < e.s.nblockMAX && e.s.nextSym == j + 1
    ensures Before(AfterLiteral(e, j), k) && ProcessSymbol(e) == StartMtfVal(AfterLiteral(e, j), MTF_5)
  {
    hide StartMtfVal, ValidLengths, LengthsOk;
    var g := AfterLiteral(e, j);
    assert Symbolic(g.t, g.s);
  }

  ghost function Names(u: seq<byte>, xs: seq<byte>): (r: seq<byte>)
    requires forall m :: 0 <= m < |xs| ==> xs[m] < |u|
    ensures |r| == |xs|
  {
    seq<byte>(|xs|, m requires 0 <= m < |xs| => u[xs[m]])
  }

  /** The decoder's list starts with the encoder's list. */
  ghost predicate ListAgrees(d: DState, list: seq<byte>) {
    Symbolic(d.t, d.s) && list != [] && |list| == |d.t.seqToUnseq| && d.s.mtf[..|list|] == list
  }

  /** A literal symbol: z front bytes, then the byte at list position j, which moves to the front. */
  lemma LiteralRead(d: DState, next: Label, k: nat, list: seq<byte>, z: nat, j: nat, b: seq<nat>) returns (g: DState)
    requires ListAgrees(d, list) && 1 <= j < |list| && b != []
    requires Ready(d, next, ZeroRun(z) + [j + 1] + b, k) && next != MTF_3 && |d.s.tt| + z < d.s.nblockMAX
    ensures SameBlock(d, g) && ListAgrees(g, ToFront(list, j))
    ensures g.s.tt == d.s.tt + Repeat(Front(d), z) + [d.t.seqToUnseq[list[j]]] && Front(g) == d.t.seqToUnseq[list[j]]
    ensures Ready(g, MTF_5, b, k + |ZeroRun(z)| + 1) && Ready(d, next, ZeroRun(z) + [j + 1], k)
    ensures Feeds(d, next, ZeroRun(z) + [j + 1], k, StartMtfVal(g, MTF_5))
  {
    hide Feeds, StartMtfVal, Codable, ValidLengths, LengthsOk, ProcessSymbol;
    ReadyParts(d, next, ZeroRun(z) + [j + 1], b, k);
    var e := ZeroRunRead(d, next, k, z, j + 1);
    LiteralStep(e, k + |ZeroRun(z)| + 1, j);
    g := AfterLiteral(e, j);
    assert d.s.mtf[j] == list[j];
    assert g.s.mtf[..|list|] == ToFront(list, j);
    assert g.s.mtf[0] == list[j];
    assert Repeat(g.t.seqToUnseq[list[j]], 1) == [g.t.seqToUnseq[list[j]]];
  }

  ghost predicate StreamAhead(d: DState, next: Label, k: nat, xs: seq<byte>, list: seq<byte>, z: nat) {
    && ListAgrees(d, list) && next != MTF_3
    && (forall m :: 0 <= m < |xs| ==> xs[m] in list && xs[m] < |d.t.seqToUnseq|)
    && Ready(d, next, MtfSymbols(xs, list, z) + [d.s.EOB], k)
    && |d.s.tt| + z + |xs| <= d.s.nblockMAX
  }

  ghost predicate StreamDone(d: DState, next: Label, k: nat, xs: seq<byte>, list: seq<byte>, z: nat, f: DState)
    requires StreamAhead(d, next, k, xs, list, z)
  {
    && SameBlock(d, f) && Symbolic(f.t, f.s)
    && f.s.tt == d.s.tt + Repeat(Front(d), z) + Names(d.t.seqToUnseq, xs)
    && Feeds(d, next, MtfSymbols(xs, list, z) + [d.s.EOB], k, FinishBlock(f))
  }

  /** Reading the symbols of xs with z front symbols pending, up to the end of the block, rebuilds z + |xs| bytes. */
  lemma {:induction false} StreamRead(d: DState, next: Label, k: nat, xs: seq<byte>, list: seq<byte>, z: nat) returns (f: DState)
    requires StreamAhead(d, next, k, xs, list, z)
    ensures StreamDone(d, next, k, xs, list, z, f)
    decreases |xs|, 1
  {
    if xs == [] {
      f := EndStream(d, next, k, xs, list, z);
    } else if list[0] == xs[0] {
      f := FrontStream(d, next, k, xs, list, z);
    } else {
      f := LiteralStream(d, next, k, xs, list, z);
    }
  }

  lemma EndStream(d: DState, next: Label, k: nat, xs: seq<byte>, list: seq<byte>, z: nat) returns (f: DState)
    requires StreamAhead(d, next, k, xs, list, z) && xs == []
    ensures StreamDone(d, next, k, xs, list, z, f)
  {
    hide Feeds, Ready, FinishBlock, LengthsOk, ZeroRun, Column;
    f := EndRead(d, next, k, z);
    assert Names(d.t.seqToUnseq, xs) == [];
  }

  lemma {:induction false} FrontStream(d: DState, next: Label, k: nat, xs: seq<byte>, list: seq<byte>, z: nat) returns (f: DState)
    requires StreamAhead(d, next, k, xs, list, z) && xs != [] && list[0] == xs[0]
    ensures StreamDone(d, next, k, xs, list, z, f)
    decreases |xs|, 0
  {
    hide Feeds, Ready, LengthsOk, FinishBlock, ZeroRun, Column;
    assert MtfSymbols(xs, list, z) == MtfSymbols(xs[1..], list, z + 1);
    hide MtfSymbols;
    f := StreamRead(d, next, k, xs[1..], list, z + 1);
    NamesFront(d.t.seqToUnseq, xs);
    assert Repeat(Front(d), z + 1) == Repeat(Front(d), z) + [Front(d)];
  }

  lemma {:induction false} LiteralStream(d: DState, next: Label, k: nat, xs: seq<byte>, list: seq<byte>, z: nat) returns (f: DState)
    requires StreamAhead(d, next, k, xs, list, z) && xs != [] && list[0] != xs[0]
    ensures StreamDone(d, next, k, xs, list, z, f)
    decreases |xs|, 0
  {
    hide Feeds, Ready, TablesRead, Column, ValidLengths, MtfSymbols, ToFront;
    var j := IndexOf(list, xs[0]);
    hide StreamAhead, ListAgrees;
    var g, rest := LiteralAhead(d, next, k, xs, list, z, j);
    f := StreamRead(g, MTF_5, k + |ZeroRun(z)| + 1, xs[1..], ToFront(list, j), 0);
    LiteralFeeds(d, next, k, ZeroRun(z) + [j + 1], rest, g, f);
    ColumnGrows(d.s.tt, g.s.tt, f.s.tt, Repeat(Front(d), z), Repeat(Front(g), 0), d.t.seqToUnseq, xs);
  }

  lemma LiteralFeeds(d: DState, next: Label, k: nat, a: seq<nat>, rest: seq<nat>, g: DState, f: DState)
    requires Ready(d, next, a + rest, k) && CanStart(g, MTF_5) && g.t == d.t && Symbolic(f.t, f.s)
    requires Feeds(d, next, a, k, StartMtfVal(g, MTF_5)) && Feeds(g, MTF_5, rest, k + |a|, FinishBlock(f))
    ensures Feeds(d, next, a + rest, k, FinishBlock(f))
  {
    hide Feeds, StartMtfVal, FinishBlock, Ready, CanStart;
    FeedsAppend(d, next, a, rest, k, g, MTF_5, FinishBlock(f));
  }

  lemma LiteralSplit(xs: seq<byte>, list: seq<byte>, z: nat, j: nat, end: nat) returns (rest: seq<nat>)
    requires (forall m :: 0 <= m < |xs| ==> xs[m] in list) && xs != [] && list != [] && list[0] != xs[0] && j == IndexOf(list, xs[0])
    ensures forall m :: 0 <= m < |xs| ==> xs[m] in ToFront(list, j)
    ensures rest == MtfSymbols(xs[1..], ToFront(list, j), 0) + [end] && 1 <= j
    ensures MtfSymbols(xs, list, z) + [end] == ZeroRun(z) + [j + 1] + rest
  {
    hide ZeroRun;
    ToFrontKeepsEntries(list, j);
    rest := MtfSymbols(xs[1..], ToFront(list, j), 0) + [end];
  }

  lemma LiteralAhead(d: DState, next: Label, k: nat, xs: seq<byte>, list: seq<byte>, z: nat, j: nat)
    returns (g: DState, rest: seq<nat>)
    requires StreamAhead(d, next, k, xs, list, z) && xs != [] && list[0] != xs[0] && j == IndexOf(list, xs[0])
    ensures StreamAhead(g, MTF_5, k + |ZeroRun(z)| + 1, xs[1..], ToFront(list, j), 0)
    ensures rest == MtfSymbols(xs[1..], ToFront(list, j), 0) + [g.s.EOB]
    ensures MtfSymbols(xs, list, z) + [d.s.EOB] == ZeroRun(z) + [j + 1] + rest
    ensures SameBlock(d, g) && Front(g) == d.t.seqToUnseq[xs[0]]
    ensures g.s.tt == d.s.tt + Repeat(Front(d), z) + [d.t.seqToUnseq[xs[0]]]
    ensures Feeds(d, next, ZeroRun(z) + [j + 1], k, StartMtfVal(g, MTF_5))
  {
    hide Feeds, StartMtfVal, TablesRead, ZeroRun, Column, Ready, MtfSymbols, ToFront;
    rest := LiteralSplit(xs, list, z, j, d.s.EOB);
    g := LiteralRead(d, next, k, list, z, j, rest);
  }

  lemma ColumnGrows(t: seq<byte>, t1: seq<byte>, t2: seq<byte>, run: seq<byte>, none: seq<byte>, u: seq<byte>, xs: seq<byte>)
    requires xs != [] && none == [] && forall m :: 0 <= m < |xs| ==> xs[m] < |u|
    requires t1 == t + run + [u[xs[0]]] && t2 == t1 + none + Names(u, xs[1..])
    ensures t2 == t + run + Names(u, xs)
  {
    NamesFront(u, xs);
  }

  lemma NamesFront(u: seq<byte>, xs: seq<byte>)
    requires xs != [] && forall m :: 0 <= m < |xs| ==> xs[m] < |u|
    ensures Names(u, xs) == [u[xs[0]]] + Names(u, xs[1..])
  {
  }

  lemma EndRead(d: DState, next: Label, k: nat, z: nat) returns (f: DState)
    requires Symbolic(d.t, d.s) && Ready(d, next, ZeroRun(z) + [d.s.EOB], k) && next != MTF_3
    requires |d.s.tt| + z <= d.s.nblockMAX
    ensures SameBlock(d, f) && Symbolic(f.t, f.s)
    ensures f.s.tt == d.s.tt + Repeat(Front(d), z)
    ensures Feeds(d, next, ZeroRun(z) + [d.s.EOB], k, FinishBlock(f))
  {
    hide Feeds, FinishBlock, LengthsOk, Codable;
    EndBeyondDigits(d);
    f := ZeroRunRead(d, next, k, z, d.s.EOB);
    assert ProcessSymbol(f) == FinishBlock(f);
  }
}
