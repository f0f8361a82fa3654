/** The tables part of BZ2_decompress in place: byte map, selectors and code lengths, label by label. */
module TableReading {
  import opened Limits
  import opened Numbers
  import opened MoveToFront
  import opened DecoderMachine

  /** What the code between two labels ends with. Complete: all code lengths have been read. */
  datatype Answer = Wait(next: Label) | Stop(code: ReturnCode) | Complete

  /** The state in which the symbols begin, when the last length of the last table has been read. */
  ghost function LengthsComplete(d: DState): DState
    requires Invariant(d) && d.state == CODING_2
  {
    d.(t := d.t.(len := d.t.len + [d.t.partLen + [d.t.curr as byte]]))
  }

  class TableReader {
    const inUse16: array<bool>
    const inUse: array<bool>
    const seqToUnseq: array<byte>
    const selectorMtf: array<nat>
    const selector: array<nat>
    var nInUse: nat
    var alphaSize: nat
    var nGroups: nat
    var nSelectors: nat
    var len: seq<seq<byte>>
    var part: seq<byte>
    var i: nat
    var j: nat
    var curr: int

    ghost predicate Sized() {
      && inUse16.Length == 16 && inUse.Length == 256 && inUse16 != inUse && seqToUnseq.Length == 256
      && selectorMtf.Length == 0x8000 && selector.Length == 0x8000 && selectorMtf != selector
    }

    ghost function Repr(): set<object> {
      {this, inUse16, inUse, seqToUnseq, selectorMtf, selector}
    }

    constructor ()
      ensures Sized() && fresh(Repr())
    {
      inUse16, inUse, seqToUnseq := new bool[16], new bool[256], new byte[256];
      selectorMtf, selector := new nat[0x8000], new nat[0x8000];
      nInUse, alphaSize, nGroups, nSelectors, len, part, i, j, curr := 0, 0, 0, 0, [], [], 0, 0, 0;
    }

    ghost predicate MapsAre(t: Tables)
      reads `nInUse, `alphaSize, seqToUnseq
    {
      && nInUse == |t.seqToUnseq| <= 256 == seqToUnseq.Length && alphaSize == t.alphaSize
      && seqToUnseq[..nInUse] == t.seqToUnseq
    }

    ghost predicate SelectorsAre(t: Tables)
      reads `nGroups, `nSelectors, selector
    {
      && nGroups == t.nGroups && nSelectors == t.nSelectors == |t.selector| <= selector.Length
      && selector[..nSelectors] == t.selector
    }

    /** The fields that are live at a label hold what the machine's state holds. */
    ghost predicate Represents(l: Label, t: Tables)
      reads this, inUse16, inUse, seqToUnseq, selectorMtf, selector
    {
      && Sized()
      && if l == MAPPING_1 then i == t.i < 16 == |t.inUse16| && forall k :: 0 <= k < i ==> inUse16[k] == t.inUse16[k]
         else if l == MAPPING_2 then i == t.i && j == t.j && inUse16[..] == t.inUse16 && inUse[..] == t.inUse
         else MapsAre(t) && LaterPart(l, t)
    }

    ghost predicate LaterPart(l: Label, t: Tables)
      reads this, selectorMtf, selector
    {
      if l == SELECTOR_1 then true
      else if l == SELECTOR_2 then nGroups == t.nGroups
      else if l == SELECTOR_3 then
        && nGroups == t.nGroups && nSelectors == t.nSelectors <= selectorMtf.Length && j == t.j
        && i == |t.selectorMtf| <= nSelectors && selectorMtf[..i] == t.selectorMtf
      else SelectorsAre(t) && len == t.len && (l == CODING_2 || l == CODING_3 ==> curr == t.curr && part == t.partLen)
    }

    /** What the symbols are read with. */
    ghost predicate ForSymbols(t: Tables)
      reads this, seqToUnseq, selector
    {
      Sized() && MapsAre(t) && SelectorsAre(t) && len == t.len
    }

    /** The answer is the machine's step from d, and the fields represent the state it leads to. */
    ghost predicate Agrees(d: DState, r: Answer, s: Step)
      reads this, inUse16, inUse, seqToUnseq, selectorMtf, selector
    {
      match s
      case Next(e) => r == Wait(e.state) && e.h == d.h && AtTables(e.state) && Represents(e.state, e.t)
      case Return(_, code) => r == Stop(code) && code == DATA_ERROR
    }

    // ----- the byte map -----

    /** Begin with the first row. */
    method Start(ghost t: Tables)
      requires Sized() && DecoderMachine.Sized(t)
      modifies `i
      ensures Represents(MAPPING_1, t.(i := 0))
    {
      i := 0;
    }

    /** One flag of a row of the map. */
    method RowFlag(v: nat, ghost d: DState) returns (r: Answer)
      requires Invariant(d) && d.state == MAPPING_1 && Represents(MAPPING_1, d.t)
      modifies Repr()
      ensures Agrees(d, r, AdvanceTables(d, v))
    {
      hide UsedBytes, SeekMapping;
      ghost var rows := d.t.inUse16[d.t.i := v == 1];
      inUse16[i] := v == 1;
      i := i + 1;
      if i < 16 {
        return Wait(MAPPING_1);
      }
      for k := 0 to 256
        invariant forall m :: 0 <= m < k ==> !inUse[m]
        invariant i == 16 && forall m :: 0 <= m < 16 ==> inUse16[m] == rows[m]
      {
        inUse[k] := false;
      }
      i := 0;
      ghost var f := d.(t := d.t.(inUse16 := rows, i := d.t.i + 1).(inUse := AllFalse(256), i := 0));
      assert inUse16[..] == f.t.inUse16 && inUse[..] == f.t.inUse;
      r := Seek(f);
    }

    /** One flag of a byte. */
    method ByteFlag(v: nat, ghost d: DState) returns (r: Answer)
      requires Invariant(d) && d.state == MAPPING_2 && Represents(MAPPING_2, d.t)
      modifies Repr()
      ensures Agrees(d, r, AdvanceTables(d, v))
    {
      hide UsedBytes, SeekMapping;
      if v == 1 {
        inUse[i * 16 + j] := true;
      }
      ghost var t := if v == 1 then d.t.(inUse := d.t.inUse[d.t.i * 16 + d.t.j := true]) else d.t;
      assert inUse[..] == t.inUse;
      j := j + 1;
      if j < 16 {
        return Wait(MAPPING_2);
      }
      i := i + 1;
      r := Seek(d.(t := t.(i := t.i + 1)));
    }

    /** Skip unused rows; behind the last one the map is complete. */
    method Seek(ghost d: DState) returns (r: Answer)
      requires Sized() && DecoderMachine.Sized(d.t) && i == d.t.i <= 16 && inUse16[..] == d.t.inUse16 && inUse[..] == d.t.inUse
      modifies this, seqToUnseq
      ensures Agrees(d, r, SeekMapping(d))
    {
      hide UsedBytes;
      ghost var f := d;
      while i < 16
        invariant i == f.t.i <= 16 && DecoderMachine.Sized(f.t) && f.h == d.h && SeekMapping(f) == SeekMapping(d)
        invariant inUse16[..] == f.t.inUse16 && inUse[..] == f.t.inUse
      {
        if inUse16[i] {
          j := 0;
          return Wait(MAPPING_2);
        }
        i := i + 1;
        f := f.(t := f.t.(i := f.t.i + 1));
      }
      MakeMaps(f.t.inUse);
      if nInUse == 0 {
        return Stop(DATA_ERROR);
      }
      alphaSize := nInUse + 2;
      r := Wait(SELECTOR_1);
    }

    /** makeMaps_d. */
    method MakeMaps(ghost flags: seq<bool>)
      requires Sized() && inUse[..] == flags
      modifies `nInUse, seqToUnseq
      ensures nInUse == |UsedBytes(flags, 256)| <= 256 && seqToUnseq[..nInUse] == UsedBytes(flags, 256)
    {
      nInUse := 0;
      for k := 0 to 256
        invariant nInUse == |UsedBytes(flags, k)| <= k && seqToUnseq[..nInUse] == UsedBytes(flags, k)
      {
        assert inUse[k] == flags[k];
        if inUse[k] {
          ghost var s := seqToUnseq[..nInUse];
          seqToUnseq[nInUse] := k;
          nInUse := nInUse + 1;
          assert seqToUnseq[..nInUse] == s + [k];
        }
      }
    }

    // ----- selectors -----

    method GroupCount(v: nat, ghost d: DState) returns (r: Answer)
      requires Invariant(d) && d.state == SELECTOR_1 && Represents(SELECTOR_1, d.t)
      modifies `nGroups
      ensures Agrees(d, r, AdvanceTables(d, v))
    {
      if v < 2 || v > 6 {
        return Stop(DATA_ERROR);
      }
      nGroups := v;
      r := Wait(SELECTOR_2);
    }

    method SelectorCount(v: nat, ghost d: DState) returns (r: Answer)
      requires Invariant(d) && d.state == SELECTOR_2 && Represents(SELECTOR_2, d.t) && v < 0x8000
      modifies `nSelectors, `i, `j
      ensures Agrees(d, r, AdvanceTables(d, v))
    {
      if v < 1 {
        return Stop(DATA_ERROR);
      }
      nSelectors, i, j := v, 0, 0;
      r := Wait(SELECTOR_3);
    }

    /** One bit of a selector in unary. */
    method SelectorFlag(v: nat, ghost d: DState) returns (r: Answer)
      requires Invariant(d) && d.state == SELECTOR_3 && Represents(SELECTOR_3, d.t)
      modifies this, selectorMtf, selector
      ensures Agrees(d, r, AdvanceTables(d, v))
    {
      hide UndoSelectors;
      if v == 0 {
        ghost var m := d.t.selectorMtf + [d.t.j];
        selectorMtf[i] := j;
        i := i + 1;
        assert selectorMtf[..i] == m;
        if i < nSelectors {
          j := 0;
          return Wait(SELECTOR_3);
        }
        UndoMtf(m);
        len := [];
        return Wait(CODING_1);
      }
      j := j + 1;
      r := if j >= nGroups then Stop(DATA_ERROR) else Wait(SELECTOR_3);
    }

    /** Undo the move-to-front coding of the selectors. */
    method UndoMtf(ghost m: seq<nat>)
      requires Sized() && nGroups <= 6 && nSelectors == |m| <= 0x8000 && selectorMtf[..nSelectors] == m
      requires forall k :: 0 <= k < |m| ==> m[k] < nGroups
      modifies selector
      ensures selector[..nSelectors] == UndoSelectors(m, Identity(nGroups))
    {
      hide UndoSelectors, ToFront;
      var pos := new byte[6](k => k);
      ghost var list, all := Identity(nGroups), UndoSelectors(m, Identity(nGroups));
      assert m[0..] == m;
      for k := 0 to nSelectors
        invariant pos.Length == 6 && |list| == nGroups && pos[..nGroups] == list
        invariant selector[..k] + UndoSelectors(m[k..], list) == all
      {
        UndoNext(m, list, k);
        assert selectorMtf[..nSelectors][k] == m[k];
        var tmp := BringForward(pos, selectorMtf[k], nGroups);
        ghost var done := selector[..k];
        selector[k] := tmp;
        list := ToFront(list, m[k]);
        assert selector[..k + 1] == done + [tmp];
        assert done + [tmp] + UndoSelectors(m[k + 1..], list) == done + ([tmp] + UndoSelectors(m[k + 1..], list));
      }
      assert m[|m|..] == [];
      assert UndoSelectors([], list) == [];
    }

    lemma UndoNext(m: seq<nat>, list: seq<byte>, k: nat)
      requires k < |m| && forall q :: 0 <= q < |m| ==> m[q] < |list|
      ensures UndoSelectors(m[k..], list) == [list[m[k]]] + UndoSelectors(m[k + 1..], ToFront(list, m[k]))
    {
      assert m[k..][1..] == m[k + 1..];
    }

    /** Entry x of the list comes to the front. */
    method BringForward(pos: array<byte>, x: nat, ghost n: nat) returns (tmp: byte)
      requires x < n <= pos.Length && x < 256
      modifies pos
      ensures tmp == old(pos[x]) && pos[..n] == ToFront(old(pos[..n]), x)
    {
      ghost var p := pos[..n];
      var v := x;
      tmp := pos[v];
      while v > 0
        invariant 0 <= v <= x
        invariant forall q :: 0 <= q <= v || x < q < n ==> pos[q] == p[q]
        invariant forall q :: v < q <= x ==> pos[q] == p[q - 1]
      {
        pos[v] := pos[v - 1];
        v := v - 1;
      }
      pos[0] := tmp;
      assert pos[..n] == ToFront(p, x);
    }

    // ----- code lengths -----

    /** The length being read has changed. */
    method CheckLength(ghost d: DState) returns (r: Answer)
      requires TablesRead(d.t) && |d.t.len| < d.t.nGroups && |d.t.partLen| < d.t.alphaSize && LengthsOk(d.t.partLen)
      requires Represents(CODING_2, d.t)
      ensures Agrees(d, r, CheckCurr(d))
    {
      r := if curr < 1 || curr > LONGEST_CODE then Stop(DATA_ERROR) else Wait(CODING_2);
    }

    method FirstLength(v: nat, ghost d: DState) returns (r: Answer)
      requires Invariant(d) && d.state == CODING_1 && Represents(CODING_1, d.t)
      modifies `curr, `part
      ensures Agrees(d, r, AdvanceTables(d, v))
    {
      curr, part := v, [];
      r := CheckLength(d.(t := d.t.(curr := v, partLen := [])));
    }

    /** A bit that says whether the length is right. */
    method LengthFlag(v: nat, ghost d: DState) returns (r: Answer)
      requires Invariant(d) && d.state == CODING_2 && Represents(CODING_2, d.t)
      modifies `len, `part
      ensures r != Complete ==> Agrees(d, r, AdvanceTables(d, v))
      ensures r == Complete ==> AllRead(d, v)
    {
      hide StartSymbols;
      if v != 0 {
        return Wait(CODING_3);
      }
      part := part + [curr as byte];
      if |part| < alphaSize {
        r := CheckLength(d.(t := d.t.(partLen := part)));
        return;
      }
      len := len + [part];
      r := if |len| < nGroups then Wait(CODING_1) else Complete;
    }

    /** The bit completed the last table, and the fields represent the state in which the symbols begin. */
    ghost predicate AllRead(d: DState, v: nat)
      requires Invariant(d) && AtTables(d.state)
      reads this, inUse16, inUse, seqToUnseq, selectorMtf, selector
    {
      && d.state == CODING_2
      && var e := LengthsComplete(d);
         && ForSymbols(e.t) && TablesRead(e.t) && |e.t.len| == e.t.nGroups
         && AdvanceTables(d, v) == StartSymbols(e)
    }

    /** A bit that says how the length changes. */
    method LengthStep(v: nat, ghost d: DState) returns (r: Answer)
      requires Invariant(d) && d.state == CODING_3 && Represents(CODING_3, d.t)
      modifies `curr
      ensures Agrees(d, r, AdvanceTables(d, v))
    {
      curr := if v == 0 then curr + 1 else curr - 1;
      r := CheckLength(d.(t := d.t.(curr := curr)));
    }

    /** From one label of this part to the next. */
    method Advance(l: Label, v: nat, ghost d: DState) returns (r: Answer)
      requires Invariant(d) && l == d.state && AtTables(l) && Represents(l, d.t) && v < 0x8000
      modifies Repr()
      ensures r != Complete ==> Agrees(d, r, AdvanceTables(d, v))
      ensures r == Complete ==> AllRead(d, v)
    {
      hide AdvanceTables, Invariant, Represents, AllRead;
      if l == MAPPING_1 {
        r := RowFlag(v, d);
      } else if l == MAPPING_2 {
        r := ByteFlag(v, d);
      } else if l == SELECTOR_1 {
        r := GroupCount(v, d);
      } else if l == SELECTOR_2 {
        r := SelectorCount(v, d);
      } else if l == SELECTOR_3 {
        r := SelectorFlag(v, d);
      } else if l == CODING_1 {
        r := FirstLength(v, d);
      } else if l == CODING_2 {
        r := LengthFlag(v, d);
      } else {
        r := LengthStep(v, d);
      }
    }
  }
}
