/** The second half of sendMTFValues: everything of a block that follows its header, bit by bit. */
module MtfSending {
  import opened Limits
  import opened Numbers
  import opened BitStrings
  import opened BitWriting
  import opened CanonicalCodes
  import opened HuffmanTables
  import opened MoveToFront
  import opened MtfGeneration
  import opened BlockFormat

  /** One bit. */
  method SendBit(w: BitWriter, b: bool)
    requires w.Valid()
    modifies w
    ensures w.Valid() && w.Written() == old(w.Written()) + [b]
  {
    OneBit();
    Pow2Values();
    if b {
      w.W(1, 1);
    } else {
      w.W(1, 0);
    }
  }

  lemma OneBit()
    ensures ToBits(1, 1) == [true] && ToBits(1, 0) == [false]
  {
  }

  /** A stretch of flags. */
  method SendFlags(w: BitWriter, flags: seq<bool>)
    requires w.Valid()
    modifies w
    ensures w.Valid() && w.Written() == old(w.Written()) + flags
  {
    for i := 0 to |flags|
      invariant w.Valid() && w.Written() == old(w.Written()) + flags[..i]
    {
      SendBit(w, flags[i]);
      assert flags[..i + 1] == flags[..i] + [flags[i]];
    }
    assert flags[..|flags|] == flags;
  }

  // ----- byte map -----

  method UsedInRows(inUse: seq<bool>) returns (inUse16: seq<bool>)
    requires |inUse| == 256
    ensures inUse16 == RowFlags(inUse)
  {
    inUse16 := [];
    for i := 0 to 16
      invariant |inUse16| == i && forall k :: 0 <= k < i ==> inUse16[k] == RowUsed(inUse, k)
    {
      var used := false;
      for j := 0 to 16
        invariant used == (true in inUse[16 * i..16 * i + j])
      {
        assert inUse[16 * i..16 * i + (j + 1)] == inUse[16 * i..16 * i + j] + [inUse[16 * i + j]];
        if inUse[16 * i + j] {
          used := true;
        }
      }
      inUse16 := inUse16 + [used];
    }
  }

  lemma RowDone(before: Bits, inUse: seq<bool>, i: nat, whole: Bits)
    requires |inUse| == 256 && i < 16 && before + UsedRows(inUse, i) == whole
    ensures if RowUsed(inUse, i) then before + inUse[16 * i..16 * i + 16] + UsedRows(inUse, i + 1) == whole
            else before + UsedRows(inUse, i + 1) == whole
  {
    if RowUsed(inUse, i) {
      assert before + inUse[16 * i..16 * i + 16] + UsedRows(inUse, i + 1) == before + (inUse[16 * i..16 * i + 16] + UsedRows(inUse, i + 1));
    } else {
      assert [] + UsedRows(inUse, i + 1) == UsedRows(inUse, i + 1);
    }
  }

  method SendMapping(w: BitWriter, inUse: seq<bool>)
    requires w.Valid() && |inUse| == 256
    modifies w
    ensures w.Valid() && w.Written() == old(w.Written()) + MappingBits(inUse)
  {
    hide BitWriter.Valid, BitWriter.Written, UsedRows, RowUsed;
    var inUse16 := UsedInRows(inUse);
    ghost var start := w.Written();
    SendFlags(w, inUse16);
    ghost var whole := start + inUse16 + UsedRows(inUse, 0);
    for i := 0 to 16
      invariant w.Valid() && w.Written() + UsedRows(inUse, i) == whole
    {
      RowDone(w.Written(), inUse, i, whole);
      if inUse16[i] {
        SendFlags(w, inUse[16 * i..16 * i + 16]);
      }
    }
    NoRows(inUse);
    assert w.Written() + [] == w.Written();
    assert whole == start + (inUse16 + UsedRows(inUse, 0));
  }

  lemma NoRows(inUse: seq<bool>)
    requires |inUse| == 256
    ensures UsedRows(inUse, 16) == []
  {
  }

  // ----- selectors -----

  /** Find x from the front while shifting what is passed over up by one, then put x in front. */
  method SelectorToFront(pos: array<byte>, m: nat, x: byte) returns (j: nat)
    requires m <= pos.Length && x in pos[..m]
    modifies pos
    ensures j == old(IndexOf(pos[..m], x)) && pos[..m] == old(ToFront(pos[..m], IndexOf(pos[..m], x)))
  {
    ghost var list := pos[..m];
    ghost var want := IndexOf(list, x);
    j := 0;
    var tmp := pos[0];
    while x != tmp
      invariant 0 <= j <= want < m && tmp == list[j]
      invariant forall k :: 1 <= k <= j ==> pos[k] == list[k - 1]
      invariant forall k :: j < k < m ==> pos[k] == list[k]
      decreases m - j
    {
      j := j + 1;
      var tmp2 := tmp;
      tmp := pos[j];
      pos[j] := tmp2;
    }
    FirstIndex(list, x, j);
    pos[0] := tmp;
    assert pos[..m] == ToFront(list, j);
  }

  /** done together with the coding of what is left is the coding of the whole. */
  ghost predicate Coding(done: seq<nat>, rest: seq<byte>, pos: seq<byte>, whole: seq<nat>) {
    (forall k :: 0 <= k < |rest| ==> rest[k] in pos) && done + SelectorMtf(rest, pos) == whole
  }

  lemma CodeNext(done: seq<nat>, rest: seq<byte>, pos: seq<byte>, whole: seq<nat>)
    requires Coding(done, rest, pos, whole) && rest != []
    ensures Coding(done + [IndexOf(pos, rest[0])], rest[1..], ToFront(pos, IndexOf(pos, rest[0])), whole)
  {
    var j := IndexOf(pos, rest[0]);
    ToFrontKeepsEntries(pos, j);
    var more := SelectorMtf(rest[1..], ToFront(pos, j));
    assert SelectorMtf(rest, pos) == [j] + more;
    hide SelectorMtf, ToFront, IndexOf;
    Associate(done, [j], more);
  }

  method CodeSelectors(selectors: seq<byte>, nGroups: nat) returns (selectorMtf: seq<nat>)
    requires nGroups <= 6 && forall k :: 0 <= k < |selectors| ==> selectors[k] < nGroups
    ensures (forall k :: 0 <= k < |selectors| ==> selectors[k] in Identity(nGroups))
    ensures selectorMtf == SelectorMtf(selectors, Identity(nGroups))
  {
    hide IndexOf, ToFront, SelectorMtf;
    InIdentity(nGroups, selectors);
    ghost var whole := SelectorMtf(selectors, Identity(nGroups));
    var pos := InitialList(nGroups);
    selectorMtf := [];
    assert selectors[0..] == selectors && [] + whole == whole;
    for i := 0 to |selectors|
      invariant fresh(pos) && pos.Length == 256 && |selectorMtf| == i
      invariant Coding(selectorMtf, selectors[i..], pos[..nGroups], whole)
    {
      CodeNext(selectorMtf, selectors[i..], pos[..nGroups], whole);
      assert selectors[i..][1..] == selectors[i + 1..];
      var j := SelectorToFront(pos, nGroups, selectors[i]);
      selectorMtf := selectorMtf + [j];
    }
    assert selectors[|selectors|..] == [];
    CodedAll(selectorMtf, pos[..nGroups], whole);
  }

  lemma CodedAll(done: seq<nat>, pos: seq<byte>, whole: seq<nat>)
    requires Coding(done, [], pos, whole)
    ensures done == whole
  {
    assert done + [] == done;
  }

  lemma UnaryNext(before: Bits, m: seq<nat>, whole: Bits)
    requires m != [] && before + UnaryBits(m) == whole
    ensures before + Ones(m[0]) + [false] + UnaryBits(m[1..]) == whole
  {
    assert before + Ones(m[0]) + [false] + UnaryBits(m[1..]) == before + (Ones(m[0]) + [false] + UnaryBits(m[1..]));
  }

  method SendSelectors(w: BitWriter, nGroups: nat, selectors: seq<byte>)
    requires w.Valid() && 2 <= nGroups <= 6 && |selectors| < 0x8000
    requires forall k :: 0 <= k < |selectors| ==> selectors[k] < nGroups
    modifies w
    ensures w.Valid() && w.Written() == old(w.Written()) + SelectorBits(nGroups, selectors)
  {
    hide BitWriter.Valid, BitWriter.Written, UnaryBits, SelectorMtf, ToBits, Ones, Pow2;
    var m := CodeSelectors(selectors, nGroups);
    ghost var start := w.Written();
    Pow2Values();
    w.W(3, nGroups);
    w.W(15, |selectors|);
    ghost var whole := w.Written() + UnaryBits(m);
    assert m[0..] == m;
    for i := 0 to |m|
      invariant w.Valid() && w.Written() + UnaryBits(m[i..]) == whole
    {
      UnaryNext(w.Written(), m[i..], whole);
      assert m[i..][1..] == m[i + 1..];
      SendFlags(w, Ones(m[i]));
      SendBit(w, false);
    }
    assert m[|m|..] == [];
    NoUnary();
    assert w.Written() + [] == w.Written();
    assert whole == start + (ToBits(3, nGroups) + ToBits(15, |selectors|) + UnaryBits(m));
  }

  lemma NoUnary()
    ensures UnaryBits([]) == []
  {
  }

  // ----- coding tables -----

  lemma DeltaStep(before: Bits, curr: int, want: int, rest: Bits, whole: Bits)
    requires before + DeltaBits(curr, want) + rest == whole
    ensures curr < want ==> before + ToBits(2, 2) + DeltaBits(curr + 1, want) + rest == whole
    ensures curr > want ==> before + ToBits(2, 3) + DeltaBits(curr - 1, want) + rest == whole
    ensures curr == want ==> before + [false] + rest == whole
  {
    if curr < want {
      assert before + (ToBits(2, 2) + DeltaBits(curr + 1, want)) + rest == before + ToBits(2, 2) + DeltaBits(curr + 1, want) + rest;
    } else if curr > want {
      assert before + (ToBits(2, 3) + DeltaBits(curr - 1, want)) + rest == before + ToBits(2, 3) + DeltaBits(curr - 1, want) + rest;
    }
  }

  lemma TwoBits()
    ensures Pow2(2) == 4
  {
  }

  /** Step to one length. */
  method SendDelta(w: BitWriter, curr: int, want: int, ghost rest: Bits, ghost whole: Bits)
    requires w.Valid() && w.Written() + DeltaBits(curr, want) + rest == whole
    modifies w
    ensures w.Valid() && w.Written() + rest == whole
  {
    hide BitWriter.Valid, BitWriter.Written, DeltaBits, ToBits, Pow2;
    TwoBits();
    var c := curr;
    while c < want
      invariant w.Valid() && w.Written() + DeltaBits(c, want) + rest == whole && (curr <= want ==> c <= want)
      decreases want - c
    {
      DeltaStep(w.Written(), c, want, rest, whole);
      w.W(2, 2);
      c := c + 1;
    }
    while c > want
      invariant w.Valid() && w.Written() + DeltaBits(c, want) + rest == whole && c >= want
      decreases c - want
    {
      DeltaStep(w.Written(), c, want, rest, whole);
      w.W(2, 3);
      c := c - 1;
    }
    DeltaStep(w.Written(), c, want, rest, whole);
    SendBit(w, false);
  }

  lemma DeltasNext(before: Bits, lens: seq<byte>, curr: int, whole: Bits)
    requires lens != [] && before + LengthDeltas(lens, curr) == whole
    ensures before + DeltaBits(curr, lens[0]) + LengthDeltas(lens[1..], lens[0]) == whole
  {
    assert before + DeltaBits(curr, lens[0]) + LengthDeltas(lens[1..], lens[0])
        == before + (DeltaBits(curr, lens[0]) + LengthDeltas(lens[1..], lens[0]));
  }

  method SendTable(w: BitWriter, lens: seq<byte>)
    requires w.Valid() && lens != [] && lens[0] < 32
    modifies w
    ensures w.Valid() && w.Written() == old(w.Written()) + TableBits(lens)
  {
    hide BitWriter.Valid, BitWriter.Written, DeltaBits, LengthDeltas, ToBits, Pow2;
    ghost var start := w.Written();
    Pow2Values();
    var curr: byte := lens[0];
    w.W(5, curr);
    ghost var whole := w.Written() + LengthDeltas(lens, curr);
    assert lens[0..] == lens;
    for i := 0 to |lens|
      invariant w.Valid() && w.Written() + LengthDeltas(lens[i..], curr) == whole
    {
      DeltasNext(w.Written(), lens[i..], curr, whole);
      assert lens[i..][1..] == lens[i + 1..];
      SendDelta(w, curr, lens[i], LengthDeltas(lens[i + 1..], lens[i]), whole);
      curr := lens[i];
    }
    assert lens[|lens|..] == [];
    NoDeltas(curr);
    assert w.Written() + [] == w.Written();
    assert whole == start + (ToBits(5, lens[0]) + LengthDeltas(lens, lens[0]));
  }

  lemma NoDeltas(curr: int)
    ensures LengthDeltas([], curr) == []
  {
  }

  lemma TablesNext(before: Bits, lens: seq<seq<byte>>, whole: Bits)
    requires lens != [] && (forall t :: 0 <= t < |lens| ==> lens[t] != []) && before + AllTableBits(lens) == whole
    ensures before + TableBits(lens[0]) + AllTableBits(lens[1..]) == whole
  {
    hide *;
    FirstTable(lens);
    Associate(before, TableBits(lens[0]), AllTableBits(lens[1..]));
  }

  lemma FirstTable(lens: seq<seq<byte>>)
    requires lens != [] && forall t :: 0 <= t < |lens| ==> lens[t] != []
    ensures AllTableBits(lens) == TableBits(lens[0]) + AllTableBits(lens[1..])
  {
    hide TableBits;
  }

  method SendTables(w: BitWriter, lens: seq<seq<byte>>)
    requires w.Valid() && forall t :: 0 <= t < |lens| ==> lens[t] != [] && lens[t][0] < 32
    modifies w
    ensures w.Valid() && w.Written() == old(w.Written()) + AllTableBits(lens)
  {
    hide BitWriter.Valid, BitWriter.Written, TableBits, AllTableBits;
    ghost var whole := w.Written() + AllTableBits(lens);
    assert lens[0..] == lens;
    for t := 0 to |lens|
      invariant w.Valid() && w.Written() + AllTableBits(lens[t..]) == whole
    {
      TablesNext(w.Written(), lens[t..], whole);
      assert lens[t..][1..] == lens[t + 1..];
      SendTable(w, lens[t]);
    }
    assert lens[|lens|..] == [];
    NoTables();
    assert w.Written() + [] == w.Written();
  }

  lemma NoTables()
    ensures AllTableBits([]) == []
  {
  }

  // ----- codes and data -----

  ghost predicate CodesAre(codes: seq<seq<int>>, lens: seq<seq<byte>>) {
    && |codes| == |lens|
    && forall t :: 0 <= t < |lens| ==> |codes[t]| == |lens[t]| && forall i :: 0 <= i < |lens[t]| ==> codes[t][i] == Code(lens[t], i)
  }

  /** Codes for every table. */
  method MakeCodes(lens: seq<seq<byte>>) returns (codes: seq<seq<int>>)
    requires forall t :: 0 <= t < |lens| ==> |lens[t]| <= MAX_ALPHA_SIZE && forall v :: 0 <= v < |lens[t]| ==> lens[t][v] <= MAX_SENT_CODE
    ensures CodesAre(codes, lens)
  {
    hide Code, MinLength, MaxLength;
    codes := [];
    var code := new int[MAX_ALPHA_SIZE];
    for t := 0 to |lens|
      invariant CodesAre(codes, lens[..t])
    {
      var minLen, maxLen := LengthRange(lens[t]);
      assert maxLen <= MAX_SENT_CODE;
      AssignCodes(code, lens[t], minLen, maxLen);
      codes := codes + [code[..|lens[t]|]];
    }
    assert lens[..|lens|] == lens;
  }

  lemma DataNext(before: Bits, start: Bits, syms: seq<nat>, i: nat, selectors: seq<nat>, lens: seq<seq<byte>>)
    requires Codable(syms, 0, selectors, lens) && i < |syms|
    requires Codable(syms[..i], 0, selectors, lens) && before == start + DataBits(syms[..i], 0, selectors, lens)
    ensures i / GROUP_SIZE < |selectors|
    ensures Codable(syms[..i + 1], 0, selectors, lens)
    ensures before + CodeBits(lens[selectors[i / GROUP_SIZE]], syms[i]) == start + DataBits(syms[..i + 1], 0, selectors, lens)
  {
    hide CodeBits;
    assert syms[..i + 1] == syms[..i] + [syms[i]];
    assert Codable(syms[..i + 1], 0, selectors, lens);
    DataBitsAppend(syms[..i], [syms[i]], 0, selectors, lens);
    OneSymbol(syms[i], i, selectors, lens);
    assert start + DataBits(syms[..i], 0, selectors, lens) + CodeBits(lens[selectors[i / GROUP_SIZE]], syms[i])
        == start + (DataBits(syms[..i], 0, selectors, lens) + CodeBits(lens[selectors[i / GROUP_SIZE]], syms[i]));
  }

  lemma OneSymbol(sym: nat, k: nat, selectors: seq<nat>, lens: seq<seq<byte>>)
    requires Codable([sym], k, selectors, lens) && [sym][0] == sym
    ensures DataBits([sym], k, selectors, lens) == CodeBits(lens[selectors[k / GROUP_SIZE]], sym)
  {
  }

  /** One code word. */
  method SendCode(w: BitWriter, lens: seq<byte>, code: seq<int>, sym: nat)
    requires w.Valid() && sym < |lens| == |code| && ValidLengths(lens, MAX_SENT_CODE) && code[sym] == Code(lens, sym)
    modifies w
    ensures w.Valid() && w.Written() == old(w.Written()) + CodeBits(lens, sym)
  {
    hide BitWriter.Valid, BitWriter.Written, Code, Kraft, MinLength, MaxLength, Pow2;
    CodeInRange(lens, MAX_SENT_CODE, sym);
    w.W(lens[sym], code[sym]);
  }

  ghost predicate Sendable(syms: seq<nat>, selectors: seq<byte>, lens: seq<seq<byte>>, codes: seq<seq<int>>) {
    && Codable(syms, 0, selectors, lens) && CodesAre(codes, lens)
    && forall t :: 0 <= t < |lens| ==> ValidLengths(lens[t], MAX_SENT_CODE)
  }

  lemma SendableAt(syms: seq<nat>, selectors: seq<byte>, lens: seq<seq<byte>>, codes: seq<seq<int>>, i: nat)
    requires Sendable(syms, selectors, lens, codes) && i < |syms|
    ensures i / GROUP_SIZE < |selectors| && selectors[i / GROUP_SIZE] < |lens| == |codes|
    ensures var t := selectors[i / GROUP_SIZE];
      && ValidLengths(lens[t], MAX_SENT_CODE) && syms[i] < |lens[t]| == |codes[t]| && codes[t][syms[i]] == Code(lens[t], syms[i])
  {
    hide ValidLengths, Code;
  }

  /** The code words of one group. With six tables and a full group the source unrolls this loop. */
  method SendGroup(w: BitWriter, arr1: array<word>, gs: nat, ge: nat, selCtr: nat, selectors: seq<byte>, lens: seq<seq<byte>>,
                   codes: seq<seq<int>>, ghost syms: seq<nat>, ghost start: Bits)
    requires w.Valid() && gs <= ge < |syms| <= 2 * arr1.Length && syms == Symbols(arr1[..], |syms|)
    requires Sendable(syms, selectors, lens, codes) && GROUP_SIZE * selCtr <= gs && ge < GROUP_SIZE * selCtr + GROUP_SIZE
    requires selCtr < |selectors|
    requires Codable(syms[..gs], 0, selectors, lens) && w.Written() == start + DataBits(syms[..gs], 0, selectors, lens)
    modifies w
    ensures w.Valid() && Codable(syms[..ge + 1], 0, selectors, lens)
    ensures w.Written() == start + DataBits(syms[..ge + 1], 0, selectors, lens)
  {
    hide BitWriter.Valid, BitWriter.Written, Code, CodeBits, DataBits, Codable, ValidLengths, Half, CodesAre;
    SendableMeans(syms, selectors, lens, codes);
    for i := gs to ge + 1
      invariant w.Valid() && Codable(syms[..i], 0, selectors, lens) && w.Written() == start + DataBits(syms[..i], 0, selectors, lens)
    {
      var sym := Half(arr1[i / 2], i % 2 == 1);
      assert sym == syms[i] && i / GROUP_SIZE == selCtr;
      SendableAt(syms, selectors, lens, codes, i);
      DataNext(w.Written(), start, syms, i, selectors, lens);
      SendCode(w, lens[selectors[selCtr]], codes[selectors[selCtr]], sym);
    }
  }

  lemma SendableMeans(syms: seq<nat>, selectors: seq<byte>, lens: seq<seq<byte>>, codes: seq<seq<int>>)
    requires Sendable(syms, selectors, lens, codes)
    ensures Codable(syms, 0, selectors, lens) && CodesAre(codes, lens)
  {
  }

  method SendData(w: BitWriter, arr1: array<word>, nMTF: nat, selectors: seq<byte>, lens: seq<seq<byte>>, codes: seq<seq<int>>,
                  ghost syms: seq<nat>)
    requires w.Valid() && nMTF == |syms| <= 2 * arr1.Length && syms == Symbols(arr1[..], nMTF)
    requires Sendable(syms, selectors, lens, codes) && |selectors| == GroupCount(nMTF)
    modifies w
    ensures w.Valid() && Codable(syms, 0, selectors, lens)
    ensures w.Written() == old(w.Written()) + DataBits(syms, 0, selectors, lens)
  {
    hide BitWriter.Valid, BitWriter.Written, DataBits, Codable, Sendable, Symbols;
    ghost var start := w.Written();
    SendableMeans(syms, selectors, lens, codes);
    NoData(syms, selectors, lens, start);
    var selCtr, gs := 0, 0;
    while gs < nMTF
      invariant w.Valid() && gs == Min(GROUP_SIZE * selCtr, nMTF) && 0 <= selCtr <= GroupCount(nMTF)
      invariant Codable(syms[..gs], 0, selectors, lens) && w.Written() == start + DataBits(syms[..gs], 0, selectors, lens)
      decreases nMTF - gs
    {
      var ge := gs + GROUP_SIZE - 1;
      if ge >= nMTF {
        ge := nMTF - 1;
      }
      SendGroup(w, arr1, gs, ge, selCtr, selectors, lens, codes, syms, start);
      gs := ge + 1;
      selCtr := selCtr + 1;
    }
    assert selCtr == |selectors|;
    assert syms[..nMTF] == syms;
  }

  lemma NoData(syms: seq<nat>, selectors: seq<nat>, lens: seq<seq<byte>>, start: Bits)
    requires Codable(syms, 0, selectors, lens)
    ensures syms[..0] == [] && Codable([], 0, selectors, lens) && start == start + DataBits([], 0, selectors, lens)
  {
  }
}
