/** BZ2_decompress as a resumable machine. Every GET_BITS is a label: the machine names how many bits it
    waits for, and Advance runs the code from one label to the next on the saved state alone. */
module DecoderMachine {
  import opened Limits
  import opened Numbers
  import opened CountingSort
  import opened CanonicalCodes
  import opened MoveToFront
  import opened RunLength

  type Label = int

  const IDLE := 1
  const OUTPUT := 2
  const MAGIC_1 := 10
  const MAGIC_2 := 11
  const MAGIC_3 := 12
  const MAGIC_4 := 13
  const BLKHDR_1 := 14
  const BLKHDR_2 := 15
  const BLKHDR_3 := 16
  const BLKHDR_4 := 17
  const BLKHDR_5 := 18
  const BLKHDR_6 := 19
  const BCRC_1 := 20
  const BCRC_2 := 21
  const BCRC_3 := 22
  const BCRC_4 := 23
  const RANDBIT := 24
  const ORIGPTR_1 := 25
  const ORIGPTR_2 := 26
  const ORIGPTR_3 := 27
  const MAPPING_1 := 28
  const MAPPING_2 := 29
  const SELECTOR_1 := 30
  const SELECTOR_2 := 31
  const SELECTOR_3 := 32
  const CODING_1 := 33
  const CODING_2 := 34
  const CODING_3 := 35
  const MTF_1 := 36
  const MTF_2 := 37
  const MTF_3 := 38
  const MTF_4 := 39
  const MTF_5 := 40
  const MTF_6 := 41
  const ENDHDR_2 := 42
  const ENDHDR_3 := 43
  const ENDHDR_4 := 44
  const ENDHDR_5 := 45
  const ENDHDR_6 := 46
  const CCRC_1 := 47
  const CCRC_2 := 48
  const CCRC_3 := 49
  const CCRC_4 := 50

  datatype ReturnCode = OK | STREAM_END | DATA_ERROR | DATA_ERROR_MAGIC | RANDOMISED | SEQUENCE_ERROR

  /** The block size digit of the stream header, 0 before it has been read. */
  type Level = x: int | 0 <= x <= 9

  /** Stream and block header fields. */
  datatype Header = Header(blockSize100k: Level, currBlockNo: nat, storedBlockCRC: word, storedCombinedCRC: word,
                           calculatedCombinedCRC: word, origPtr: nat)

  /** Byte map, selectors and code lengths, with the loop counters that fill them. len holds the finished
      tables, partLen the one being read. */
  datatype Tables = Tables(inUse16: seq<bool>, inUse: seq<bool>, seqToUnseq: seq<byte>, alphaSize: nat,
                           nGroups: nat, nSelectors: nat, selectorMtf: seq<nat>, selector: seq<nat>,
                           len: seq<seq<byte>>, partLen: seq<byte>, i: nat, j: nat, curr: int)

  /** The symbol loop: MTF list, column decoded so far and its byte counts, position in the current group. */
  datatype Symbols = Symbols(mtf: seq<byte>, tt: seq<byte>, unzftab: seq<nat>, EOB: nat, nblockMAX: nat,
                             groupNo: int, groupPos: nat, gSel: nat, nextSym: nat, es: int, N: nat,
                             zn: nat, zvec: nat)

  /** Everything that survives between calls. nblock is |s.tt| and t is |t.len|. */
  datatype DState = DState(state: Label, h: Header, t: Tables, s: Symbols)

  datatype Step = Next(ds: DState) | Return(ds: DState, code: ReturnCode)

  const START := DState(MAGIC_1, Header(0, 0, 0, 0, 0, 0),
                        Tables(AllFalse(16), AllFalse(256), [], 0, 0, 0, [], [], [], [], 0, 0, 0),
                        Symbols([], [], [], 0, 0, 0, 0, 0, 0, 0, 0, 0, 0))

  function AllFalse(n: nat): (s: seq<bool>)
    ensures |s| == n && forall k :: 0 <= k < n ==> !s[k]
  {
    seq(n, _ => false)
  }

  function Zeros(n: nat): (s: seq<nat>)
    ensures |s| == n && forall k :: 0 <= k < n ==> s[k] == 0
  {
    seq(n, _ => 0)
  }

  /** The number of bits a label waits for; 0 where no GET_BITS is pending. */
  function NeedAt(l: Label, zn: nat): nat {
    if l == IDLE || l == OUTPUT then 0
    else if FirstBits(l) then zn
    else if l == SELECTOR_1 then 3
    else if l == SELECTOR_2 then 15
    else if l == CODING_1 then 5
    else if l == RANDBIT || MAPPING_1 <= l <= MTF_6 then 1
    else 8
  }

  function Need(d: DState): nat {
    NeedAt(d.state, d.s.zn)
  }

  predicate AtHeader(l: Label) {
    MAGIC_1 <= l <= ORIGPTR_3
  }

  predicate AtTables(l: Label) {
    MAPPING_1 <= l <= CODING_3
  }

  predicate AtCode(l: Label) {
    MTF_1 <= l <= MTF_6
  }

  predicate AtTrailer(l: Label) {
    ENDHDR_2 <= l <= CCRC_4
  }

  predicate FirstBits(l: Label) {
    l == MTF_1 || l == MTF_3 || l == MTF_5
  }

  predicate InRun(l: Label) {
    l == MTF_3 || l == MTF_4
  }

  // ----- what holds at every label -----

  ghost predicate Sized(t: Tables) {
    |t.inUse16| == 16 && |t.inUse| == 256
  }

  ghost predicate Mapped(t: Tables) {
    Sized(t) && 1 <= |t.seqToUnseq| <= 256 && t.alphaSize == |t.seqToUnseq| + 2
  }

  ghost predicate Grouped(t: Tables) {
    Mapped(t) && 2 <= t.nGroups <= 6
  }

  ghost predicate SelectorsRead(t: Tables) {
    && Grouped(t)
    && |t.selectorMtf| <= t.nSelectors
    && t.nSelectors >= 1
    && forall k :: 0 <= k < |t.selectorMtf| ==> t.selectorMtf[k] < t.nGroups
  }

  ghost predicate Selected(t: Tables) {
    && Grouped(t)
    && |t.selector| == t.nSelectors >= 1
    && forall k :: 0 <= k < t.nSelectors ==> t.selector[k] < t.nGroups
  }

  ghost predicate LengthsOk(lens: seq<byte>) {
    forall k :: 0 <= k < |lens| ==> 1 <= lens[k] <= LONGEST_CODE
  }

  ghost predicate TablesRead(t: Tables) {
    && Selected(t)
    && |t.len| <= t.nGroups
    && forall k :: 0 <= k < |t.len| ==> |t.len[k]| == t.alphaSize && LengthsOk(t.len[k])
  }

  ghost predicate ReadingTable(t: Tables) {
    TablesRead(t) && |t.len| < t.nGroups && |t.partLen| < t.alphaSize && LengthsOk(t.partLen) && 1 <= t.curr <= LONGEST_CODE
  }

  /** The byte counts are those of the decoded column. */
  ghost predicate Column(s: Symbols) {
    && |s.tt| <= s.nblockMAX <= 900000
    && |s.unzftab| == 256
    && forall c: byte :: s.unzftab[c] == Count(s.tt, c)
  }

  ghost predicate Symbolic(t: Tables, s: Symbols) {
    && TablesRead(t) && |t.len| == t.nGroups
    && s.EOB == |t.seqToUnseq| + 1
    && Column(s)
    && |s.mtf| == 256
    && (forall k :: 0 <= k < |t.seqToUnseq| ==> s.mtf[k] < |t.seqToUnseq|)
    && -1 <= s.groupNo < t.nSelectors
    && s.groupPos < GROUP_SIZE
    && s.gSel < t.nGroups
    && (s.groupNo >= 0 ==> s.gSel == t.selector[s.groupNo])
    && (s.groupNo == -1 ==> s.groupPos == 0)
  }

  ghost predicate Invariant(d: DState) {
    && Sized(d.t)
    && (d.state == IDLE || d.state == OUTPUT || MAGIC_1 <= d.state <= CCRC_4)
    && (d.state == OUTPUT ==> Column(d.s) && d.h.origPtr < |d.s.tt|)
    && (AtTables(d.state) ==> TablesInvariant(d.state, d.t))
    && (AtCode(d.state) ==> CodeInvariant(d.state, d.t, d.s))
  }

  ghost predicate TablesInvariant(state: Label, t: Tables) {
    if state == MAPPING_1 then Sized(t) && t.i < 16
    else if state == MAPPING_2 then Sized(t) && t.i < 16 && t.j < 16 && t.inUse16[t.i]
    else if state == SELECTOR_1 then Mapped(t)
    else if state == SELECTOR_2 then Grouped(t)
    else if state == SELECTOR_3 then SelectorsRead(t) && |t.selectorMtf| < t.nSelectors && t.j < t.nGroups
    else if state == CODING_1 then TablesRead(t) && |t.len| < t.nGroups
    else ReadingTable(t)
  }

  ghost predicate CodeInvariant(state: Label, t: Tables, s: Symbols) {
    && Symbolic(t, s) && s.groupNo >= 0
    && (if FirstBits(state) then s.zn == MinLength(t.len[s.gSel]) else s.zn >= 2)
    && (InRun(state) ==> s.es >= 0 && s.N >= 1)
  }

  ghost predicate Good(s: Step) {
    match s
    case Next(d) => Invariant(d) && d.state != IDLE && d.state != OUTPUT
    case Return(d, OK) => d.state == OUTPUT && Invariant(d)
    case Return(d, STREAM_END) => d.state == IDLE && Invariant(d)
    case Return(_, _) => true
  }

  // ----- the code between two labels -----

  function ShiftIn(crc: word, v: nat): word {
    (crc * 256 + v) % 0x1_0000_0000
  }

  function Expect(d: DState, v: nat, want: nat, next: Label): Step {
    if v == want then Next(d.(state := next)) else Return(d, DATA_ERROR)
  }

  /** The two loops that skip unused rows of the byte map. */
  function SeekMapping(d: DState): (s: Step)
    requires Sized(d.t) && d.t.i <= 16
    ensures Good(s)
    decreases 16 - d.t.i
  {
    if d.t.i == 16 then MappingDone(d)
    else if d.t.inUse16[d.t.i] then Next(d.(state := MAPPING_2, t := d.t.(j := 0)))
    else SeekMapping(d.(t := d.t.(i := d.t.i + 1)))
  }

  function MappingDone(d: DState): (s: Step)
    requires Sized(d.t)
    ensures Good(s)
  {
    var used := UsedBytes(d.t.inUse, 256);
    if |used| == 0 then Return(d, DATA_ERROR)
    else Next(d.(t := d.t.(seqToUnseq := used, alphaSize := |used| + 2), state := SELECTOR_1))
  }

  /** Undo the move-to-front coding of the selectors. */
  function UndoSelectors(m: seq<nat>, pos: seq<byte>): (r: seq<nat>)
    requires forall k :: 0 <= k < |m| ==> m[k] < |pos|
    ensures |r| == |m|
  {
    if m == [] then [] else [pos[m[0]]] + UndoSelectors(m[1..], ToFront(pos, m[0]))
  }

  lemma {:induction false} UndoSelectorsBound(m: seq<nat>, pos: seq<byte>, n: nat)
    requires forall k :: 0 <= k < |m| ==> m[k] < |pos|
    requires forall k :: 0 <= k < |pos| ==> pos[k] < n
    ensures forall k :: 0 <= k < |m| ==> UndoSelectors(m, pos)[k] < n
  {
    if m != [] {
      UndoSelectorsBound(m[1..], ToFront(pos, m[0]), n);
    }
  }

  function SelectorBit(d: DState, v: nat): (s: Step)
    requires Invariant(d) && d.state == SELECTOR_3
    ensures Good(s)
  {
    var t := d.t;
    if v == 0 then
      var m := t.selectorMtf + [t.j];
      if |m| < t.nSelectors then Next(d.(t := t.(selectorMtf := m, j := 0)))
      else
        UndoSelectorsBound(m, Identity(t.nGroups), t.nGroups);
        Next(d.(t := t.(selectorMtf := m, selector := UndoSelectors(m, Identity(t.nGroups)), len := []), state := CODING_1))
    else if t.j + 1 >= t.nGroups then Return(d, DATA_ERROR)
    else Next(d.(t := t.(j := t.j + 1)))
  }

  function CheckCurr(d: DState): (s: Step)
    requires Sized(d.t)
    requires TablesRead(d.t) && |d.t.len| < d.t.nGroups && |d.t.partLen| < d.t.alphaSize && LengthsOk(d.t.partLen)
    ensures Good(s)
  {
    if d.t.curr < 1 || d.t.curr > LONGEST_CODE then Return(d, DATA_ERROR) else Next(d.(state := CODING_2))
  }

  function LengthRead(d: DState): (s: Step)
    requires Invariant(d) && d.state == CODING_2
    ensures Good(s)
  {
    var part := d.t.partLen + [d.t.curr as byte];
    if |part| < d.t.alphaSize then CheckCurr(d.(t := d.t.(partLen := part)))
    else
      var e := d.(t := d.t.(len := d.t.len + [part]));
      if |e.t.len| < d.t.nGroups then Next(e.(state := CODING_1)) else StartSymbols(e)
  }

  function StartSymbols(d: DState): (s: Step)
    requires TablesRead(d.t) && |d.t.len| == d.t.nGroups
    ensures Good(s)
  {
    StartMtfVal(d.(s := d.s.(EOB := |d.t.seqToUnseq| + 1, nblockMAX := 100000 * d.h.blockSize100k, groupNo := -1,
                             groupPos := 0, gSel := 0, unzftab := Zeros(256), mtf := Identity(256), tt := [])), MTF_1)
  }

  /** Everything GET_MTF_VAL does before its first GET_BITS. */
  function StartMtfVal(d: DState, next: Label): (s: Step)
    requires Symbolic(d.t, d.s)
    requires next == MTF_1 || next == MTF_5 || (next == MTF_3 && d.s.es >= 0 && d.s.N >= 1)
    ensures Good(s)
  {
    if d.s.groupPos == 0 then
      if d.s.groupNo + 1 >= d.t.nSelectors then Return(d, DATA_ERROR)
      else
        var g := d.t.selector[d.s.groupNo + 1];
        Next(d.(s := d.s.(groupNo := d.s.groupNo + 1, groupPos := GROUP_SIZE - 1, gSel := g, zn := MinLength(d.t.len[g])), state := next))
    else
      Next(d.(s := d.s.(groupPos := d.s.groupPos - 1, zn := MinLength(d.t.len[d.s.gSel])), state := next))
  }

  /** The code loop of GET_MTF_VAL, after zvec has been set or extended. */
  function CheckCode(d: DState): (s: Step)
    requires Invariant(d) && AtCode(d.state)
    ensures Good(s)
  {
    var lens := d.t.len[d.s.gSel];
    if d.s.zn > LONGEST_CODE then Return(d, DATA_ERROR)
    else if d.s.zvec <= Limit(lens, d.s.zn) then
      var idx := d.s.zvec - Base(lens, d.s.zn);
      if idx < 0 || idx >= MAX_ALPHA_SIZE then Return(d, DATA_ERROR)
      else
        IndexWithinAlphabet(lens, d.s.zn, d.s.zvec);
        GotSymbol(d.(s := d.s.(nextSym := Unrank(lens)[idx])))
    else ReadOneMore(d)
  }

  function ReadOneMore(d: DState): (s: Step)
    requires Invariant(d) && AtCode(d.state)
    ensures Good(s)
  {
    MinimumPositive(d.t.len[d.s.gSel]);
    Next(d.(s := d.s.(zn := d.s.zn + 1),
            state := if FirstBits(d.state) then d.state + 1 else d.state))
  }

  lemma MinimumPositive(lens: seq<byte>)
    requires LengthsOk(lens)
    ensures MinLength(lens) >= 1
  {
  }

  /** Whatever the code lengths, an index accepted by the two checks falls inside the alphabet. */
  lemma IndexWithinAlphabet(lens: seq<byte>, n: nat, zvec: nat)
    requires |lens| > 0 && n < 256 && zvec <= Limit(lens, n) && 0 <= zvec - Base(lens, n)
    requires LengthsOk(lens)
    ensures zvec - Base(lens, n) < |lens|
    ensures 0 <= Unrank(lens)[zvec - Base(lens, n)] < |lens|
  {
    UnrankInverse(lens);
    if MinLength(lens) <= n <= MaxLength(lens) {
      CountLessStep(lens, n);
      if n == MinLength(lens) {
        NoneBelowMinimum(lens, n);
      }
      assert CountLess(lens, n + 1) <= |lens|;
    } else if n > MaxLength(lens) {
      AllBelow(lens, n);
    }
  }

  lemma {:induction false} AllBelow(lens: seq<byte>, n: nat)
    requires forall k :: 0 <= k < |lens| ==> lens[k] < n
    ensures CountLess(lens, n) == |lens|
  {
    if lens != [] {
      AllBelow(lens[..|lens| - 1], n);
    }
  }

  function GotSymbol(d: DState): (s: Step)
    requires Symbolic(d.t, d.s) && d.s.nextSym <= d.s.EOB && (InRun(d.state) ==> d.s.es >= 0 && d.s.N >= 1)
    ensures Good(s)
  {
    if InRun(d.state) then
      if d.s.nextSym == RUNA || d.s.nextSym == RUNB then AddDigit(d) else ProcessFlushed(d)
    else ProcessSymbol(d)
  }

  function AddDigit(d: DState): (s: Step)
    requires Symbolic(d.t, d.s) && d.s.es >= -1 && d.s.N >= 1
    ensures Good(s)
  {
    StartMtfVal(d.(s := d.s.(es := d.s.es + if d.s.nextSym == RUNA then d.s.N else 2 * d.s.N, N := 2 * d.s.N)), MTF_3)
  }

  /** Append n copies of uc to the column and count them. */
  function Append(s: Symbols, uc: byte, n: nat): (r: Symbols)
    requires Column(s) && |s.tt| + n <= s.nblockMAX
    ensures Column(r)
  {
    CountRepeat(s.tt, uc, n);
    s.(unzftab := s.unzftab[uc := s.unzftab[uc] + n], tt := s.tt + Repeat(uc, n))
  }

  lemma {:induction false} CountRepeat(s: seq<byte>, x: byte, n: nat)
    ensures forall c: byte :: Count(s + Repeat(x, n), c) == Count(s, c) + if c == x then n else 0
  {
    if n == 0 {
      assert s + Repeat(x, n) == s;
    } else {
      CountRepeat(s, x, n - 1);
      assert (s + Repeat(x, n))[..|s| + n - 1] == s + Repeat(x, n - 1);
    }
  }

  /** A run has ended: emit es + 1 copies of the front byte, then process the symbol that ended it. */
  function ProcessFlushed(d: DState): (s: Step)
    requires Symbolic(d.t, d.s) && d.s.es >= 0 && d.s.nextSym <= d.s.EOB
    ensures Good(s)
  {
    if |d.s.tt| + d.s.es + 1 > d.s.nblockMAX then Return(d, DATA_ERROR)
    else ProcessSymbol(d.(s := Append(d.s, d.t.seqToUnseq[d.s.mtf[0]], d.s.es + 1)))
  }

  function ProcessSymbol(d: DState): (s: Step)
    requires Symbolic(d.t, d.s) && d.s.nextSym <= d.s.EOB
    ensures Good(s)
  {
    if d.s.nextSym == d.s.EOB then FinishBlock(d)
    else if d.s.nextSym == RUNA || d.s.nextSym == RUNB then AddDigit(d.(s := d.s.(es := -1, N := 1)))
    else if |d.s.tt| >= d.s.nblockMAX then Return(d, DATA_ERROR)
    else
      var nn := d.s.nextSym - 1;
      StartMtfVal(d.(s := Append(d.s, d.t.seqToUnseq[d.s.mtf[nn]], 1).(mtf := ToFront(d.s.mtf, nn))), MTF_5)
  }

  function FinishBlock(d: DState): (s: Step)
    requires Sized(d.t) && Column(d.s)
    ensures Good(s)
  {
    if d.h.origPtr >= |d.s.tt| then Return(d, DATA_ERROR) else Return(d.(state := OUTPUT), OK)
  }

  function BlockCrcByte(d: DState, v: nat, next: Label): Step {
    Next(d.(h := d.h.(storedBlockCRC := ShiftIn(d.h.storedBlockCRC, v)), state := next))
  }

  function StreamCrcByte(d: DState, v: nat, next: Label): DState {
    d.(h := d.h.(storedCombinedCRC := ShiftIn(d.h.storedCombinedCRC, v)), state := next)
  }

  /** Stream header and block header. */
  function AdvanceHeader(d: DState, v: nat): (s: Step)
    requires Invariant(d) && AtHeader(d.state)
    ensures Good(s)
  {
    if d.state == MAGIC_1 then if v == 0x42 then Next(d.(state := MAGIC_2)) else Return(d, DATA_ERROR_MAGIC)
    else if d.state == MAGIC_2 then if v == 0x5a then Next(d.(state := MAGIC_3)) else Return(d, DATA_ERROR_MAGIC)
    else if d.state == MAGIC_3 then if v == 0x68 then Next(d.(state := MAGIC_4)) else Return(d, DATA_ERROR_MAGIC)
    else if d.state == MAGIC_4 then
      if v < 0x31 || v > 0x39 then Return(d, DATA_ERROR_MAGIC)
      else Next(d.(h := d.h.(blockSize100k := v - 0x30), state := BLKHDR_1))
    else if d.state == BLKHDR_1 then if v == 0x17 then Next(d.(state := ENDHDR_2)) else Expect(d, v, 0x31, BLKHDR_2)
    else if d.state == BLKHDR_2 then Expect(d, v, 0x41, BLKHDR_3)
    else if d.state == BLKHDR_3 then Expect(d, v, 0x59, BLKHDR_4)
    else if d.state == BLKHDR_4 then Expect(d, v, 0x26, BLKHDR_5)
    else if d.state == BLKHDR_5 then Expect(d, v, 0x53, BLKHDR_6)
    else if d.state == BLKHDR_6 then Expect(d.(h := d.h.(currBlockNo := d.h.currBlockNo + 1, storedBlockCRC := 0)), v, 0x59, BCRC_1)
    else if d.state == BCRC_1 then BlockCrcByte(d, v, BCRC_2)
    else if d.state == BCRC_2 then BlockCrcByte(d, v, BCRC_3)
    else if d.state == BCRC_3 then BlockCrcByte(d, v, BCRC_4)
    else if d.state == BCRC_4 then BlockCrcByte(d, v, RANDBIT)
    else if d.state == RANDBIT then if v == 1 then Return(d, RANDOMISED) else Next(d.(h := d.h.(origPtr := 0), state := ORIGPTR_1))
    else if d.state == ORIGPTR_1 then Next(d.(h := d.h.(origPtr := d.h.origPtr * 256 + v), state := ORIGPTR_2))
    else if d.state == ORIGPTR_2 then Next(d.(h := d.h.(origPtr := d.h.origPtr * 256 + v), state := ORIGPTR_3))
    else (
      var o := d.h.origPtr * 256 + v;
      if o > 10 + 100000 * d.h.blockSize100k then Return(d, DATA_ERROR)
      else Next(d.(h := d.h.(origPtr := o), t := d.t.(i := 0), state := MAPPING_1)))
  }

  /** Byte map, selectors and code lengths. */
  function AdvanceTables(d: DState, v: nat): (s: Step)
    requires Invariant(d) && AtTables(d.state)
    ensures Good(s)
  {
    if d.state == MAPPING_1 then (
      var t := d.t.(inUse16 := d.t.inUse16[d.t.i := v == 1], i := d.t.i + 1);
      if t.i < 16 then Next(d.(t := t)) else SeekMapping(d.(t := t.(inUse := AllFalse(256), i := 0))))
    else if d.state == MAPPING_2 then (
      var t := if v == 1 then d.t.(inUse := d.t.inUse[d.t.i * 16 + d.t.j := true]) else d.t;
      if t.j + 1 < 16 then Next(d.(t := t.(j := t.j + 1))) else SeekMapping(d.(t := t.(i := t.i + 1))))
    else if d.state == SELECTOR_1 then
      if v < 2 || v > 6 then Return(d, DATA_ERROR) else Next(d.(t := d.t.(nGroups := v), state := SELECTOR_2))
    else if d.state == SELECTOR_2 then
      if v < 1 then Return(d, DATA_ERROR)
      else Next(d.(t := d.t.(nSelectors := v, j := 0, selectorMtf := []), state := SELECTOR_3))
    else if d.state == SELECTOR_3 then SelectorBit(d, v)
    else if d.state == CODING_1 then CheckCurr(d.(t := d.t.(curr := v, partLen := [])))
    else if d.state == CODING_2 then if v == 0 then LengthRead(d) else Next(d.(state := CODING_3))
    else CheckCurr(d.(t := d.t.(curr := if v == 0 then d.t.curr + 1 else d.t.curr - 1)))
  }

  /** End-of-stream trailer. */
  function AdvanceTrailer(d: DState, v: nat): (s: Step)
    requires Invariant(d) && AtTrailer(d.state)
    ensures Good(s)
  {
    if d.state == ENDHDR_2 then Expect(d, v, 0x72, ENDHDR_3)
    else if d.state == ENDHDR_3 then Expect(d, v, 0x45, ENDHDR_4)
    else if d.state == ENDHDR_4 then Expect(d, v, 0x38, ENDHDR_5)
    else if d.state == ENDHDR_5 then Expect(d, v, 0x50, ENDHDR_6)
    else if d.state == ENDHDR_6 then Expect(d.(h := d.h.(storedCombinedCRC := 0)), v, 0x90, CCRC_1)
    else if d.state == CCRC_1 then Next(StreamCrcByte(d, v, CCRC_2))
    else if d.state == CCRC_2 then Next(StreamCrcByte(d, v, CCRC_3))
    else if d.state == CCRC_3 then Next(StreamCrcByte(d, v, CCRC_4))
    else Return(StreamCrcByte(d, v, IDLE), STREAM_END)
  }

  /** A first code word, or one more bit of it. */
  function AdvanceCode(d: DState, v: nat): (s: Step)
    requires Invariant(d) && AtCode(d.state)
    ensures Good(s)
  {
    if FirstBits(d.state)
    then CheckCode(d.(s := d.s.(zvec := v)))
    else CheckCode(d.(s := d.s.(zvec := 2 * d.s.zvec + v)))
  }

  /** From one GET_BITS to the next, given the bits just read. Whatever the bits, the next label finds
      everything it relies on. */
  function Advance(d: DState, v: nat): (s: Step)
    requires Invariant(d) && d.state != IDLE && d.state != OUTPUT
    ensures Good(s)
  {
    if AtHeader(d.state) then AdvanceHeader(d, v)
    else if AtTables(d.state) then AdvanceTables(d, v)
    else if AtCode(d.state) then AdvanceCode(d, v)
    else AdvanceTrailer(d, v)
  }
}
