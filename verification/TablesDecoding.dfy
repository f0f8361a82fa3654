/** The decoder reads back the byte map, the selectors and the code lengths of a block. */
module TablesDecoding {
  import opened Limits
  import opened Numbers
  import opened BitStrings
  import opened CanonicalCodes
  import opened MoveToFront
  import opened BlockFormat
  import opened DecoderMachine
  import opened DecoderRun
  import opened HeaderDecoding

  /** A one-bit field in front of more bits. */
  lemma BitThen(d: DState, bits: Bits, s: Step)
    requires Invariant(d) && Waiting(d) && Need(d) == 1 && bits != []
    requires var r := Advance(d, BitValue(bits[0]));
      if |bits| == 1 then r == s else r.Next? && Invariant(r.ds) && Waiting(r.ds) && Delivers(r.ds, bits[1..], s)
    ensures Delivers(d, bits, s)
  {
    hide Advance, Invariant;
    assert bits[..1] == [bits[0]];
    assert [bits[0]][..0] == [];
    assert FromBits(bits[..1]) == BitValue(bits[0]);
  }

  // ----- byte map -----

  /** The map known after reading its first n entries. */
  function Known(inUse: seq<bool>, n: nat): (r: seq<bool>)
    requires n <= |inUse| == 256
    ensures |r| == 256
  {
    inUse[..n] + AllFalse(256 - n)
  }

  lemma {:induction false} FlagsRead(d: DState, f: Bits)
    requires Invariant(d) && d.state == MAPPING_1 && |f| == 16 && d.t.inUse16[..d.t.i] == f[..d.t.i]
    ensures Delivers(d, f[d.t.i..], SeekMapping(d.(t := d.t.(inUse16 := f, inUse := AllFalse(256), i := 0))))
    decreases 16 - d.t.i
  {
    hide Delivers, SeekMapping;
    var i := d.t.i;
    var t := d.t.(inUse16 := d.t.inUse16[i := f[i]], i := i + 1);
    assert t.inUse16[..i + 1] == f[..i + 1];
    assert f[i..][1..] == f[i + 1..];
    if i == 15 {
      assert t.inUse16 == f;
    } else {
      FlagsRead(d.(t := t), f);
    }
    BitThen(d, f[i..], SeekMapping(d.(t := d.t.(inUse16 := f, inUse := AllFalse(256), i := 0))));
  }

  lemma {:induction false} RowRead(d: DState, inUse: seq<bool>)
    requires Invariant(d) && d.state == MAPPING_2 && |inUse| == 256
    requires d.t.inUse == Known(inUse, 16 * d.t.i + d.t.j)
    ensures Delivers(d, inUse[16 * d.t.i + d.t.j..16 * d.t.i + 16],
                     SeekMapping(d.(t := d.t.(inUse := Known(inUse, 16 * d.t.i + 16), i := d.t.i + 1, j := 15))))
    decreases 16 - d.t.j
  {
    hide Delivers, SeekMapping;
    var i, j := d.t.i, d.t.j;
    var n := 16 * i + j;
    var row := inUse[n..16 * i + 16];
    var t := if inUse[n] then d.t.(inUse := d.t.inUse[n := true]) else d.t;
    assert t.inUse == Known(inUse, n + 1);
    assert row[1..] == inUse[n + 1..16 * i + 16];
    if j < 15 {
      RowRead(d.(t := t.(j := j + 1)), inUse);
    }
    BitThen(d, row, SeekMapping(d.(t := d.t.(inUse := Known(inUse, 16 * i + 16), i := i + 1, j := 15))));
  }

  lemma KnownSkip(inUse: seq<bool>, i: nat)
    requires |inUse| == 256 && i < 16 && !RowUsed(inUse, i)
    ensures Known(inUse, 16 * i + 16) == Known(inUse, 16 * i)
  {
    forall k | 16 * i <= k < 16 * i + 16 ensures !inUse[k] {
      assert inUse[16 * i..16 * i + 16][k - 16 * i] == inUse[k];
    }
  }

  /** Finished: the whole map is known. */
  ghost predicate MapFinished(d: DState, inUse: seq<bool>, f: DState) {
    && |inUse| == 256
    && Invariant(f) && f.state == SELECTOR_1 && f.h == d.h && f.s == d.s
    && f.t.seqToUnseq == UsedBytes(inUse, 256)
  }

  /** Seeking from row i on lands at f, after the bits of the used rows. */
  ghost predicate RowsLead(d: DState, inUse: seq<bool>, f: DState)
    requires Sized(d.t) && d.t.i <= 16 && |inUse| == 256
  {
    var s := SeekMapping(d);
    && s.Next? && Invariant(s.ds) && Waiting(s.ds)
    && if UsedRows(inUse, d.t.i) == [] then s == Next(f) else Delivers(s.ds, UsedRows(inUse, d.t.i), Next(f))
  }

  ghost predicate AtRow(d: DState, inUse: seq<bool>) {
    && |inUse| == 256 && UsedBytes(inUse, 256) != []
    && Sized(d.t) && d.t.i <= 16 && d.t.inUse16 == RowFlags(inUse) && d.t.inUse == Known(inUse, 16 * d.t.i)
  }

  lemma SeekStops(d: DState, e: DState)
    requires Sized(d.t) && d.t.i < 16 && d.t.inUse16[d.t.i] && e == d.(state := MAPPING_2, t := d.t.(j := 0))
    ensures SeekMapping(d) == Next(e) && Invariant(e)
  {
  }

  lemma UsedRowLeads(d: DState, inUse: seq<bool>, g: DState, f: DState)
    requires AtRow(d, inUse) && d.t.i < 16 && RowUsed(inUse, d.t.i)
    requires g == d.(state := MAPPING_2, t := d.t.(inUse := Known(inUse, 16 * d.t.i + 16), i := d.t.i + 1, j := 15))
    requires RowsLead(g, inUse, f)
    ensures RowsLead(d, inUse, f)
  {
    hide Delivers, Advance, SeekMapping, Known;
    var i := d.t.i;
    var e := d.(state := MAPPING_2, t := d.t.(j := 0));
    SeekStops(d, e);
    RowRead(e, inUse);
    var row := inUse[16 * i..16 * i + 16];
    assert UsedRows(inUse, i) == row + UsedRows(inUse, i + 1);
    if UsedRows(inUse, i + 1) == [] {
      assert UsedRows(inUse, i) == row;
    } else {
      DeliversThen(e, row, SeekMapping(g).ds, UsedRows(inUse, i + 1), Next(f));
    }
  }

  lemma {:induction false} RowsRead(d: DState, inUse: seq<bool>) returns (f: DState)
    requires AtRow(d, inUse)
    ensures MapFinished(d, inUse, f) && RowsLead(d, inUse, f)
    decreases 16 - d.t.i
  {
    hide Delivers, Advance;
    var i := d.t.i;
    if i == 16 {
      assert Known(inUse, 256) == inUse;
      f := SeekMapping(d).ds;
    } else if RowUsed(inUse, i) {
      var g := d.(state := MAPPING_2, t := d.t.(inUse := Known(inUse, 16 * i + 16), i := i + 1, j := 15));
      f := RowsRead(g, inUse);
      UsedRowLeads(d, inUse, g, f);
    } else {
      KnownSkip(inUse, i);
      var g := d.(t := d.t.(i := i + 1));
      f := RowsRead(g, inUse);
      assert SeekMapping(d) == SeekMapping(g);
      assert UsedRows(inUse, i) == UsedRows(inUse, i + 1);
    }
  }

  lemma MapRead(d: DState, inUse: seq<bool>) returns (f: DState)
    requires Invariant(d) && d.state == MAPPING_1 && d.t.i == 0
    requires |inUse| == 256 && UsedBytes(inUse, 256) != []
    ensures MapFinished(d, inUse, f) && Reaches(d, MappingBits(inUse), f)
  {
    hide Delivers, SeekMapping, UsedRows;
    FlagsRead(d, RowFlags(inUse));
    assert RowFlags(inUse)[0..] == RowFlags(inUse);
    var e := d.(t := d.t.(inUse16 := RowFlags(inUse), inUse := AllFalse(256), i := 0));
    assert e.t.inUse == Known(inUse, 0);
    f := RowsRead(e, inUse);
    if UsedRows(inUse, 0) == [] {
      assert MappingBits(inUse) == RowFlags(inUse);
    } else {
      DeliversThen(d, RowFlags(inUse), SeekMapping(e).ds, UsedRows(inUse, 0), Next(f));
    }
  }

  // ----- selectors -----

  /** Undoing the move-to-front of the selectors gives them back. */
  lemma {:induction false} SelectorsInvert(selectors: seq<byte>, pos: seq<byte>)
    requires forall k :: 0 <= k < |selectors| ==> selectors[k] in pos
    ensures UndoSelectors(SelectorMtf(selectors, pos), pos) == selectors
    decreases |selectors|
  {
    if selectors != [] {
      var j := IndexOf(pos, selectors[0]);
      ToFrontKeepsEntries(pos, j);
      SelectorsInvert(selectors[1..], ToFront(pos, j));
      assert SelectorMtf(selectors, pos)[1..] == SelectorMtf(selectors[1..], ToFront(pos, j));
    }
  }

  lemma {:induction false} UnaryRead(d: DState, n: nat, rest: Bits, s: Step)
    requires Invariant(d) && d.state == SELECTOR_3 && d.t.j <= n < d.t.nGroups
    requires var r := SelectorBit(d.(t := d.t.(j := n)), 0);
      if rest == [] then r == s else r.Next? && Delivers(r.ds, rest, s)
    ensures Delivers(d, Ones(n - d.t.j) + [false] + rest, s)
    decreases n - d.t.j
  {
    hide Delivers;
    var bits := Ones(n - d.t.j) + [false] + rest;
    if d.t.j == n {
      assert bits[1..] == rest;
    } else {
      assert bits[1..] == Ones(n - (d.t.j + 1)) + [false] + rest;
      UnaryRead(d.(t := d.t.(j := d.t.j + 1)), n, rest, s);
    }
    BitThen(d, bits, s);
  }

  lemma {:induction false} UnariesRead(d: DState, m: seq<nat>)
    requires Invariant(d) && d.state == SELECTOR_3 && d.t.j == 0 && m != []
    requires |d.t.selectorMtf| + |m| == d.t.nSelectors && forall k :: 0 <= k < |m| ==> m[k] < d.t.nGroups
    ensures var all := d.t.selectorMtf + m;
      exists j :: Reaches(d, UnaryBits(m), d.(t := d.t.(selectorMtf := all, j := j, len := [],
                            selector := UndoSelectors(all, Identity(d.t.nGroups))), state := CODING_1))
    decreases |m|
  {
    hide Delivers, UndoSelectors;
    var all := d.t.selectorMtf + m;
    var e := d.(t := d.t.(j := m[0]));
    var r := SelectorBit(e, 0);
    if |m| == 1 {
      assert all == d.t.selectorMtf + [m[0]];
      UnaryRead(d, m[0], [], r);
      assert Ones(m[0]) + [false] + [] == UnaryBits(m);
      assert Reaches(d, UnaryBits(m), d.(t := d.t.(selectorMtf := all, j := m[0], len := [],
                            selector := UndoSelectors(all, Identity(d.t.nGroups))), state := CODING_1));
    } else {
      assert all == r.ds.t.selectorMtf + m[1..];
      UnariesRead(r.ds, m[1..]);
      var j :| Reaches(r.ds, UnaryBits(m[1..]), r.ds.(t := r.ds.t.(selectorMtf := all, j := j, len := [],
                            selector := UndoSelectors(all, Identity(d.t.nGroups))), state := CODING_1));
      var f := r.ds.(t := r.ds.t.(selectorMtf := all, j := j, len := [],
                            selector := UndoSelectors(all, Identity(d.t.nGroups))), state := CODING_1);
      DeliversGood(r.ds, UnaryBits(m[1..]), Next(f));
      UnaryRead(d, m[0], UnaryBits(m[1..]), Next(f));
      assert f == d.(t := d.t.(selectorMtf := all, j := j, len := [],
                            selector := UndoSelectors(all, Identity(d.t.nGroups))), state := CODING_1);
    }
  }

  lemma SelectorsReadBack(d: DState, nGroups: nat, selectors: seq<byte>) returns (f: DState)
    requires Invariant(d) && d.state == SELECTOR_1 && 2 <= nGroups <= 6
    requires 1 <= |selectors| < 0x8000 && forall k :: 0 <= k < |selectors| ==> selectors[k] < nGroups
    ensures Reaches(d, SelectorBits(nGroups, selectors), f)
    ensures f.state == CODING_1 && f.h == d.h && f.s == d.s
    ensures f.t.selector == selectors && f.t.nSelectors == |selectors| && f.t.nGroups == nGroups && f.t.len == []
    ensures f.t.seqToUnseq == d.t.seqToUnseq && f.t.alphaSize == d.t.alphaSize
  {
    hide Delivers, ToBits, UnaryBits, Pow2;
    Pow2Values();
    var n := |selectors|;
    var d1 := d.(t := d.t.(nGroups := nGroups), state := SELECTOR_2);
    var d2 := d1.(t := d1.t.(nSelectors := n, j := 0, selectorMtf := []), state := SELECTOR_3);
    FieldDelivers(d, 3, nGroups);
    ThenField(d, ToBits(3, nGroups), d1, 15, n);
    InIdentity(nGroups, selectors);
    var m := SelectorMtf(selectors, Identity(nGroups));
    UnariesRead(d2, m);
    assert d2.t.selectorMtf + m == m;
    var j :| Reaches(d2, UnaryBits(m), d2.(t := d2.t.(selectorMtf := m, j := j, len := [],
                            selector := UndoSelectors(m, Identity(nGroups))), state := CODING_1));
    f := d2.(t := d2.t.(selectorMtf := m, j := j, len := [], selector := UndoSelectors(m, Identity(nGroups))), state := CODING_1);
    SelectorsInvert(selectors, Identity(nGroups));
    DeliversThen(d, ToBits(3, nGroups) + ToBits(15, n), d2, UnaryBits(m), Next(f));
  }

  // ----- code lengths -----

  lemma {:induction false} DeltaRead(d: DState, want: byte, rest: Bits, s: Step)
    requires Invariant(d) && d.state == CODING_2 && 1 <= want <= LONGEST_CODE
    requires var r := LengthRead(d.(t := d.t.(curr := want)));
      if rest == [] then r == s else r.Next? && Delivers(r.ds, rest, s)
    ensures Delivers(d, DeltaBits(d.t.curr, want) + rest, s)
    decreases if d.t.curr < want then want - d.t.curr else d.t.curr - want
  {
    hide Delivers, LengthRead;
    var bits := DeltaBits(d.t.curr, want) + rest;
    if d.t.curr == want {
      assert bits[1..] == rest;
      BitThen(d, bits, s);
    } else {
      var next := if d.t.curr < want then d.t.curr + 1 else d.t.curr - 1;
      var e := d.(t := d.t.(curr := next));
      DeltaRead(e, want, rest, s);
      var more := DeltaBits(next, want) + rest;
      TwoBits();
      assert bits[1..] == [d.t.curr > want] + more && bits[0];
      assert ([d.t.curr > want] + more)[1..] == more;
      BitThen(d.(state := CODING_3), [d.t.curr > want] + more, s);
      BitThen(d, bits, s);
    }
  }

  lemma TwoBits()
    ensures ToBits(2, 2) == [true, false] && ToBits(2, 3) == [true, true]
  {
    assert ToBits(1, 1) == [true];
  }

  /** The step taken once the last length of a table has been read. */
  ghost function AfterTable(d: DState, lens: seq<byte>): Step
    requires ReadingTable(d.t) && |lens| == d.t.alphaSize && LengthsOk(lens)
  {
    var last := |lens| - 1;
    var e := d.(t := d.t.(len := d.t.len + [lens], partLen := lens[..last], curr := lens[last]));
    if |e.t.len| < d.t.nGroups then Next(e.(state := CODING_1)) else StartSymbols(e)
  }

  lemma {:induction false} LengthsReadBack(d: DState, lens: seq<byte>)
    requires Invariant(d) && d.state == CODING_2
    requires |lens| == d.t.alphaSize && LengthsOk(lens) && d.t.partLen == lens[..|d.t.partLen|]
    ensures Delivers(d, LengthDeltas(lens[|d.t.partLen|..], d.t.curr), AfterTable(d, lens))
    decreases d.t.alphaSize - |d.t.partLen|
  {
    hide Delivers, DeltaBits, StartSymbols;
    var n := |d.t.partLen|;
    var more := lens[n..];
    assert more[1..] == lens[n + 1..];
    var e := d.(t := d.t.(curr := lens[n]));
    assert d.t.partLen + [lens[n]] == lens[..n + 1];
    if n + 1 == |lens| {
      assert lens[..n + 1] == lens;
      assert LengthRead(e) == AfterTable(d, lens);
      DeltaRead(d, lens[n], [], AfterTable(d, lens));
      assert DeltaBits(d.t.curr, lens[n]) + [] == LengthDeltas(more, d.t.curr) by {
        assert LengthDeltas(more[1..], lens[n]) == [];
      }
    } else {
      var g := e.(t := e.t.(partLen := lens[..n + 1]));
      LengthsReadBack(g, lens);
      DeliversGood(g, LengthDeltas(lens[n + 1..], lens[n]), AfterTable(g, lens));
      DeltaRead(d, lens[n], LengthDeltas(lens[n + 1..], lens[n]), AfterTable(d, lens));
    }
  }

  lemma TableReadBack(d: DState, lens: seq<byte>)
    requires Invariant(d) && d.state == CODING_1 && |lens| == d.t.alphaSize && LengthsOk(lens)
    ensures var e := d.(t := d.t.(curr := lens[0], partLen := []), state := CODING_2);
      Invariant(e) && Delivers(d, TableBits(lens), AfterTable(e, lens))
  {
    hide Delivers, ToBits, Pow2, LengthDeltas, StartSymbols;
    Pow2Values();
    var e := d.(t := d.t.(curr := lens[0], partLen := []), state := CODING_2);
    FieldDelivers(d, 5, lens[0]);
    LengthsReadBack(e, lens);
    assert lens[0..] == lens;
    DeliversThen(d, ToBits(5, lens[0]), e, LengthDeltas(lens, lens[0]), AfterTable(e, lens));
  }

  /** All remaining tables, up to the start of the symbols. */
  lemma {:induction false} TablesReadBack(d: DState, lens: seq<seq<byte>>) returns (e: DState)
    requires Invariant(d) && d.state == CODING_1 && |lens| == d.t.nGroups && d.t.len == lens[..|d.t.len|]
    requires forall t :: 0 <= t < |lens| ==> |lens[t]| == d.t.alphaSize && LengthsOk(lens[t])
    ensures e.h == d.h && e.s == d.s && e.t == d.t.(len := lens, partLen := e.t.partLen, curr := e.t.curr)
    ensures TablesRead(e.t) && |e.t.len| == e.t.nGroups
    ensures Delivers(d, AllTableBits(lens[|d.t.len|..]), StartSymbols(e))
    decreases d.t.nGroups - |d.t.len|
  {
    hide Delivers, TableBits, StartSymbols;
    var n := |d.t.len|;
    var lt := lens[n];
    TableReadBack(d, lt);
    assert lens[n..][1..] == lens[n + 1..];
    var c := d.(t := d.t.(curr := lt[0], partLen := []), state := CODING_2);
    var g := c.(t := c.t.(len := d.t.len + [lt], partLen := lt[..|lt| - 1], curr := lt[|lt| - 1]));
    assert d.t.len + [lt] == lens[..n + 1];
    if n + 1 == |lens| {
      assert lens[..n + 1] == lens;
      e := g;
      assert AllTableBits(lens[n..]) == TableBits(lt) + AllTableBits(lens[n + 1..]) == TableBits(lt);
    } else {
      var r := g.(state := CODING_1);
      assert AfterTable(c, lt) == Next(r);
      DeliversGood(d, TableBits(lt), Next(r));
      e := TablesReadBack(r, lens);
      DeliversThen(d, TableBits(lt), r, AllTableBits(lens[n + 1..]), StartSymbols(e));
    }
  }
}
