/** The command history of cmdedit: a circular area of records, a cursor that walks over them, and eviction of whole
    records when a new command needs their room. */
module CommandHistory {
  import opened Numbers
  import opened HistoryRecords

  // ----- the ring -----

  lemma ModApart(x: nat, i: nat, j: nat, n: nat)
    requires n > 0 && i < j < i + n
    ensures (x + i) % n != (x + j) % n
  {
    var q, r := (x + i) / n, (x + i) % n;
    assert x + i == q * n + r;
    MulDistribute(q, 1, n);
    if r + (j - i) < n {
      DivUnique(x + j, n, q, r + (j - i));
    } else {
      DivUnique(x + j, n, q + 1, r + (j - i) - n);
    }
  }

  lemma ModStep(x: int, a: int, n: nat)
    requires n > 0
    ensures (x % n + a) % n == (x + a) % n
  {
    var q, r := x / n, x % n;
    var p, s := (r + a) / n, (r + a) % n;
    assert x == q * n + r && r + a == p * n + s;
    MulDistribute(q, p, n);
    DivUnique(x + a, n, q + p, s);
  }

  /** A place of the ring of n cells. */
  function Wrap(x: int, n: nat): (r: nat)
    requires n > 0
    ensures r < n
  {
    x % n
  }

  lemma WrapApart(x: nat, i: nat, j: nat, n: nat)
    requires n > 0 && i < j < i + n
    ensures Wrap(x + i, n) != Wrap(x + j, n)
  {
    ModApart(x, i, j, n);
  }

  lemma WrapStep(x: int, a: int, n: nat)
    requires n > 0
    ensures Wrap(Wrap(x, n) + a, n) == Wrap(x + a, n)
  {
    ModStep(x, a, n);
  }

  lemma WrapSmall(x: nat, n: nat)
    requires x < n
    ensures Wrap(x, n) == x && Wrap(x + n, n) == x
  {
    DivUnique(x, n, 0, x);
    DivUnique(x + n, n, 1, x);
  }

  /** Cell i counted from first. */
  function CellAt(area: seq<int>, first: nat, i: nat): int
    requires area != []
  {
    area[Wrap(first + i, |area|)]
  }

  /** From first up to free the area holds the given cells. */
  ghost predicate Ring(area: seq<int>, first: nat, free: nat, cells: seq<int>) {
    && first < |area| && |cells| <= |area| && free == Wrap(first + |cells|, |area|)
    && forall i: nat :: i < |cells| ==> CellAt(area, first, i) == cells[i]
  }

  /** The two ends meet exactly when the area is full. */
  lemma EndsMeet(area: seq<int>, first: nat, free: nat, cells: seq<int>, k: nat)
    requires Ring(area, first, free, cells) && 0 < k <= |cells|
    ensures Wrap(first + k, |area|) == free <==> k == |cells|
    ensures Wrap(first + k, |area|) == first <==> k == |area|
    ensures free < |area|
  {
    hide Wrap;
    WrapSmall(first, |area|);
    if k < |cells| {
      WrapApart(first, k, |cells|, |area|);
    }
    if k < |area| {
      WrapApart(first, 0, k, |area|);
    }
  }

  lemma RingAppend(area: seq<int>, first: nat, free: nat, cells: seq<int>, v: int)
    requires Ring(area, first, free, cells) && |cells| < |area|
    ensures free < |area| && Ring(area[free := v], first, Wrap(free + 1, |area|), cells + [v])
  {
    hide Wrap;
    var n := |area|;
    WrapStep(first + |cells|, 1, n);
    var now, all := area[free := v], cells + [v];
    forall i: nat | i < |all| ensures CellAt(now, first, i) == all[i] {
      if i < |cells| {
        WrapApart(first, i, |cells|, n);
        assert CellAt(area, first, i) == cells[i];
      }
    }
  }

  lemma RingDrop(area: seq<int>, first: nat, free: nat, cells: seq<int>, k: nat)
    requires Ring(area, first, free, cells) && k <= |cells|
    ensures Ring(area, Wrap(first + k, |area|), free, cells[k..])
  {
    hide Wrap;
    var n := |area|;
    WrapStep(first + k, |cells| - k, n);
    var rest := cells[k..];
    forall i: nat | i < |rest| ensures CellAt(area, Wrap(first + k, n), i) == rest[i] {
      WrapStep(first + k, i, n);
      assert CellAt(area, first, k + i) == cells[k + i];
    }
  }

  // ----- the cursor -----

  /** One place back; the oldest record is the end. */
  function Back(p: nat): nat {
    if p == 0 then 0 else p - 1
  }

  function Ahead(p: nat, m: nat): nat {
    if p >= m then m else p + 1
  }

  /** What is shown at place p: nothing at the oldest record and behind the newest. */
  function Shown(rs: seq<Command>, p: nat): Command {
    if 1 <= p < |rs| then rs[p] else []
  }

  /** Going back and forth ends where it began, and shows again what was shown before. */
  lemma CursorUndone(rs: seq<Command>, p: nat)
    requires p <= |rs|
    ensures p > 0 ==> Ahead(Back(p), |rs|) == p && Shown(rs, Ahead(Back(p), |rs|)) == Shown(rs, p)
    ensures p < |rs| ==> Back(Ahead(p, |rs|)) == p && Shown(rs, Back(Ahead(p, |rs|))) == Shown(rs, p)
  {
  }

  /** Where the cursor stands: at the record shown if it was reached by NextCmd, else at the one before. */
  function CursorRecord(p: nat, lastWasNext: bool): int {
    if lastWasNext then p else p - 1
  }

  /** Only the oldest record may be empty. */
  ghost predicate NoneEmpty(rs: seq<Command>) {
    forall k :: 1 <= k < |rs| ==> |rs[k]| >= 1
  }

  /** The whole state. */
  ghost predicate HistoryOk(area: seq<int>, first: nat, free: nat, curr: nat, lastWasNext: bool, rs: seq<Command>, p: nat) {
    && Ring(area, first, free, Cells(rs)) && rs != [] && NoneEmpty(rs)
    && p <= |rs| && 0 <= CursorRecord(p, lastWasNext)
    && curr == Wrap(first + Offset(rs, CursorRecord(p, lastWasNext)), |area|)
    && (CursorRecord(p, lastWasNext) == |rs| ==> |Cells(rs)| < |area|)
  }

  /** Record k in the area: its length in front and behind, and its characters. */
  lemma RecordInRing(area: seq<int>, first: nat, free: nat, rs: seq<Command>, k: nat)
    requires Ring(area, first, free, Cells(rs)) && k < |rs|
    ensures area != [] && Offset(rs, k + 1) == Offset(rs, k) + |rs[k]| + 2 <= |Cells(rs)| <= |area|
    ensures CellAt(area, first, Offset(rs, k)) == |rs[k]| && CellAt(area, first, Offset(rs, k + 1) - 1) == |rs[k]|
    ensures forall i :: 0 <= i < |rs[k]| ==> CellAt(area, first, Offset(rs, k) + 1 + i) == rs[k][i]
  {
    hide Cells, Offset, CellAt, Wrap;
    RecordAt(rs, k);
    forall i | 0 <= i < |rs[k]| ensures CellAt(area, first, Offset(rs, k) + 1 + i) == rs[k][i] {
      assert Cells(rs)[Offset(rs, k) + 1 + i] == rs[k][i];
    }
  }

  /** From the length in front of a record on to the next one. */
  lemma StepAhead(area: seq<int>, first: nat, free: nat, rs: seq<Command>, k: nat, curr: nat)
    requires Ring(area, first, free, Cells(rs)) && k < |rs| && curr == Wrap(first + Offset(rs, k), |area|)
    ensures curr < |area| && area[curr] == |rs[k]| && Wrap(curr + (area[curr] + 2), |area|) == Wrap(first + Offset(rs, k + 1), |area|)
    ensures Wrap(first + Offset(rs, k + 1), |area|) == free <==> k + 1 == |rs|
  {
    hide Cells, Offset, Wrap;
    RecordInRing(area, first, free, rs, k);
    WrapStep(first + Offset(rs, k), |rs[k]| + 2, |area|);
    EndsMeet(area, first, free, Cells(rs), Offset(rs, k + 1));
    OffsetEnds(rs);
    if k + 1 < |rs| {
      RecordInRing(area, first, free, rs, k + 1);
    }
  }

  /** From the start of a record, or the free end, back over the length behind the record before. */
  lemma StepBack(area: seq<int>, first: nat, free: nat, rs: seq<Command>, k: nat, curr: nat)
    requires Ring(area, first, free, Cells(rs)) && 0 < k <= |rs| && curr == Wrap(first + Offset(rs, k), |area|)
    ensures area != [] && var c := Wrap(curr - 1, |area|); area[c] == |rs[k - 1]| && Wrap(c - (area[c] + 1), |area|) == Wrap(first + Offset(rs, k - 1), |area|)
  {
    hide Cells, Offset, Wrap;
    var n := |area|;
    RecordInRing(area, first, free, rs, k - 1);
    WrapStep(first + Offset(rs, k), -1, n);
    WrapStep(first + Offset(rs, k) - 1, -(|rs[k - 1]| + 1), n);
  }

  /** Only the oldest record begins where the area of records begins. */
  lemma OldestOnly(area: seq<int>, first: nat, free: nat, rs: seq<Command>, k: nat)
    requires Ring(area, first, free, Cells(rs)) && k <= |rs| && (k == |rs| ==> |Cells(rs)| < |area|) && rs != []
    ensures Wrap(first + Offset(rs, k), |area|) == first <==> k == 0
  {
    hide Cells, Offset, Wrap;
    OffsetEnds(rs);
    WrapSmall(first, |area|);
    if k > 0 {
      RecordInRing(area, first, free, rs, k - 1);
      EndsMeet(area, first, free, Cells(rs), Offset(rs, k));
      if k < |rs| {
        RecordInRing(area, first, free, rs, k);
      }
    }
  }

  class History {
    const SAVE_SIZE: nat
    const SaveArea: array<int>
    var FirstCmd: nat
    var FirstFree: nat
    var CurrCmd: nat
    var LastWasNext: bool
    /** The records in the area, oldest first. */
    ghost var records: seq<Command>
    /** The place of the record that is shown. */
    ghost var position: nat

    ghost predicate Sized() {
      SaveArea.Length == SAVE_SIZE >= 4
    }

    ghost predicate Valid()
      reads this, SaveArea
    {
      Sized() && HistoryOk(SaveArea[..], FirstCmd, FirstFree, CurrCmd, LastWasNext, records, position)
    }

    /** The newest record has been deleted while it was shown: the cursor points at the free end. */
    ghost predicate Stranded()
      reads this
    {
      LastWasNext && position == |records|
    }

    /** _ModIndex; the size of the area is a power of two, so the mask is a remainder. */
    function ModIndex(x: nat, adj: int): (r: nat)
      requires SAVE_SIZE > 0
      ensures r < SAVE_SIZE
    {
      Wrap(x + adj, SAVE_SIZE)
    }

    /** InitSave without a file: one empty record. */
    constructor (size: nat)
      requires size == 512 || size == 4096
      ensures Valid() && SAVE_SIZE == size && records == [[]] && position == 1 && fresh(SaveArea)
    {
      SAVE_SIZE := size;
      SaveArea := new int[size];
      FirstCmd, CurrCmd, LastWasNext, FirstFree := 0, 0, false, 2;
      records, position := [[]], 1;
      new;
      SaveArea[0], SaveArea[1] := 0, 0;
      FreshArea(SaveArea[..]);
    }

    static lemma FreshArea(area: seq<int>)
      requires |area| >= 4 && area[0] == 0 && area[1] == 0
      ensures HistoryOk(area, 0, 2, 0, false, [[]], 1)
    {
      hide Wrap;
      CellsOne([]);
      WrapSmall(0, |area|);
      WrapSmall(1, |area|);
      WrapSmall(2, |area|);
      OffsetEnds([[]]);
      assert Cells([[]]) == [0, 0];
    }

    lemma SizedMeans()
      requires Sized()
      ensures SaveArea.Length == SAVE_SIZE >= 4
    {
    }

    lemma ValidMeans()
      requires Valid()
      ensures Sized() && SaveArea.Length == SAVE_SIZE >= 4
      ensures HistoryOk(SaveArea[..], FirstCmd, FirstFree, CurrCmd, LastWasNext, records, position)
    {
    }

    lemma ValidIs()
      requires Sized() && HistoryOk(SaveArea[..], FirstCmd, FirstFree, CurrCmd, LastWasNext, records, position)
      ensures Valid()
    {
    }

    lemma ModIndexIs(x: nat, adj: int)
      requires SAVE_SIZE > 0
      ensures ModIndex(x, adj) == Wrap(x + adj, SAVE_SIZE)
    {
    }

    /** If the area is full, the oldest record goes. */
    method MakeRoom(ghost partial: seq<int>)
      requires Sized() && Ring(SaveArea[..], FirstCmd, FirstFree, Cells(records) + partial)
      requires Cells(records) + partial != [] && |partial| < SAVE_SIZE
      modifies this`FirstCmd, this`records
      ensures Ring(SaveArea[..], FirstCmd, FirstFree, Cells(records) + partial) && |Cells(records) + partial| < SAVE_SIZE
      ensures records == Fit(old(records), |partial| + 1, SAVE_SIZE)
      ensures Wrap(FirstCmd + |Cells(records)|, SAVE_SIZE) == Wrap(old(FirstCmd + |Cells(records)|), SAVE_SIZE)
    {
      hide *;
      SizedMeans();
      ghost var area, rs, cells := SaveArea[..], records, Cells(records) + partial;
      RingShape(area, FirstCmd, FirstFree, cells);
      EndsMeet(area, FirstCmd, FirstFree, cells, |cells|);
      FitOnce(rs, |partial|, SAVE_SIZE);
      if FirstFree == FirstCmd {
        Evicted(area, FirstCmd, FirstFree, rs, partial);
        ModIndexIs(FirstCmd, area[FirstCmd] + 2);
        FirstCmd := ModIndex(FirstCmd, SaveArea[FirstCmd] + 2);
        records := records[1..];
      }
    }

    /** SaveByte: make room, then store one cell. */
    method SaveByte(ch: int, ghost partial: seq<int>)
      requires Sized() && Ring(SaveArea[..], FirstCmd, FirstFree, Cells(records) + partial)
      requires Cells(records) + partial != [] && |partial| < SAVE_SIZE
      modifies this`FirstCmd, this`FirstFree, this`records, SaveArea
      ensures Ring(SaveArea[..], FirstCmd, FirstFree, Cells(records) + (partial + [ch]))
      ensures records == Fit(old(records), |partial| + 1, SAVE_SIZE)
      ensures Wrap(FirstCmd + |Cells(records)|, SAVE_SIZE) == Wrap(old(FirstCmd + |Cells(records)|), SAVE_SIZE)
    {
      hide *;
      SizedMeans();
      MakeRoom(partial);
      ghost var area := SaveArea[..];
      RingAppend(area, FirstCmd, FirstFree, Cells(records) + partial, ch);
      ModIndexIs(FirstFree, 1);
      assert Cells(records) + partial + [ch] == Cells(records) + (partial + [ch]);
      SaveArea[FirstFree] := ch;
      assert SaveArea[..] == area[FirstFree := ch];
      FirstFree := ModIndex(FirstFree, 1);
    }

    static lemma RingShape(area: seq<int>, first: nat, free: nat, cells: seq<int>)
      requires Ring(area, first, free, cells)
      ensures first < |area| && |cells| <= |area|
    {
    }

    /** One record is enough when one cell is missing. */
    static lemma FitOnce(rs: seq<Command>, w: nat, size: nat)
      requires |Cells(rs)| + w <= size && w < size
      ensures Fit(rs, w + 1, size) == if |Cells(rs)| + w == size then rs[1..] else rs
      ensures |Cells(rs)| + w == size ==> rs != []
    {
    }

    /** The oldest record is dropped. */
    static lemma Evicted(area: seq<int>, first: nat, free: nat, rs: seq<Command>, partial: seq<int>)
      requires Ring(area, first, free, Cells(rs) + partial) && rs != []
      ensures first < |area| && area[first] == |rs[0]|
      ensures var f := Wrap(first + (area[first] + 2), |area|);
        && Ring(area, f, free, Cells(rs[1..]) + partial)
        && Wrap(f + |Cells(rs[1..])|, |area|) == Wrap(first + |Cells(rs)|, |area|)
    {
      hide Ring, CellAt, Wrap;
      var cells, k := Cells(rs) + partial, |rs[0]| + 2;
      FirstCell(area, first, free, cells);
      assert cells == Framed(rs[0]) + (Cells(rs[1..]) + partial);
      assert cells[k..] == Cells(rs[1..]) + partial;
      RingDrop(area, first, free, cells, k);
      WrapStep(first + k, |Cells(rs[1..])|, |area|);
    }

    static lemma FirstCell(area: seq<int>, first: nat, free: nat, cells: seq<int>)
      requires Ring(area, first, free, cells) && cells != []
      ensures first < |area| && area[first] == cells[0]
    {
      hide Wrap;
      WrapSmall(first, |area|);
      assert CellAt(area, first, 0) == cells[0];
    }

    /** Part of a record has been stored behind the records that are left; the cursor stands where it begins. */
    ghost predicate Storing(rs: seq<Command>, partial: seq<int>)
      reads this, SaveArea
    {
      && Sized() && Ring(SaveArea[..], FirstCmd, FirstFree, Cells(records) + partial) && Cells(records) + partial != []
      && records == Fit(rs, |partial|, SAVE_SIZE) && CurrCmd == Wrap(FirstCmd + |Cells(records)|, SAVE_SIZE)
    }

    /** Store one more cell of the record. */
    method StoreNext(ch: int, ghost rs: seq<Command>, ghost partial: seq<int>)
      requires Storing(rs, partial) && |partial| < SAVE_SIZE
      modifies this`FirstCmd, this`FirstFree, this`records, SaveArea
      ensures Storing(rs, partial + [ch])
    {
      hide Ring, Cells, Fit, Wrap;
      FitAgain(rs, |partial|, |partial| + 1, SAVE_SIZE);
      SaveByte(ch, partial);
    }

    /** SaveIt: the length, the characters, the length again. */
    method SaveIt(cmd: Command)
      requires Valid() && !LastWasNext && 1 <= |cmd| && |cmd| + 2 <= SAVE_SIZE
      modifies this`FirstCmd, this`FirstFree, this`CurrCmd, this`records, this`position, SaveArea
      ensures Valid() && records == Fit(old(records), |cmd| + 2, SAVE_SIZE) + [cmd] && position == |records|
    {
      hide *;
      ValidMeans();
      ghost var rs, curr := records, CurrCmd;
      HistoryShape(SaveArea[..], FirstCmd, FirstFree, CurrCmd, LastWasNext, records, position);
      CurrCmd := FirstFree;
      StoringStarts();
      StoreNext(|cmd|, rs, []);
      ghost var partial := [|cmd|];
      assert [] + [|cmd|] == partial;
      var i := 0;
      while true
        invariant 0 <= i < |cmd| && partial == [|cmd|] + cmd[..i] && Storing(rs, partial) && !LastWasNext
        decreases |cmd| - i
      {
        StoreNext(cmd[i], rs, partial);
        partial := partial + [cmd[i]];
        i := i + 1;
        if i == |cmd| {
          break;
        }
      }
      StoreNext(|cmd|, rs, partial);
      assert partial + [|cmd|] == Framed(cmd) by {
        assert cmd[..|cmd|] == cmd;
        FramedIs(cmd);
      }
      Stored(rs, cmd);
      records := records + [cmd];
      position := |records|;
      ValidIs();
    }

    lemma StoringStarts()
      requires Sized() && Ring(SaveArea[..], FirstCmd, FirstFree, Cells(records)) && Cells(records) != []
      requires CurrCmd == FirstFree == Wrap(FirstCmd + |Cells(records)|, SAVE_SIZE)
      ensures Storing(records, [])
    {
      hide Cells, Fit, Wrap;
      assert Cells(records) + [] == Cells(records);
      FitNothing(records, SAVE_SIZE);
    }

    lemma StoringMeans(rs: seq<Command>, partial: seq<int>)
      requires Storing(rs, partial)
      ensures Sized() && SaveArea.Length == SAVE_SIZE >= 4
      ensures Ring(SaveArea[..], FirstCmd, FirstFree, Cells(records) + partial)
      ensures records == Fit(rs, |partial|, SAVE_SIZE) && CurrCmd == Wrap(FirstCmd + |Cells(records)|, SAVE_SIZE)
    {
    }

    /** The record is complete: it is the newest, and the cursor stands on it. */
    lemma Stored(rs: seq<Command>, cmd: Command)
      requires Storing(rs, Framed(cmd)) && cmd != [] && NoneEmpty(rs)
      ensures Sized() && HistoryOk(SaveArea[..], FirstCmd, FirstFree, CurrCmd, false, records + [cmd], |records| + 1)
      ensures records == Fit(rs, |cmd| + 2, SAVE_SIZE)
    {
      hide *;
      StoringMeans(rs, Framed(cmd));
      NoneEmptyKept(rs, records, |cmd| + 2, SAVE_SIZE);
      Appended(SaveArea[..], FirstCmd, FirstFree, CurrCmd, records, cmd);
    }

    static lemma NoneEmptyKept(rs: seq<Command>, kept: seq<Command>, n: nat, size: nat)
      requires kept == Fit(rs, n, size) && NoneEmpty(rs)
      ensures NoneEmpty(kept)
    {
      FitSuffix(rs, n, size);
    }

    static lemma FramedIs(cmd: Command)
      ensures Framed(cmd) == [|cmd|] + cmd + [|cmd|]
    {
    }

    static lemma FitNothing(rs: seq<Command>, size: nat)
      requires |Cells(rs)| <= size
      ensures Fit(rs, 0, size) == rs
    {
    }

    static lemma HistoryShape(area: seq<int>, first: nat, free: nat, curr: nat, lastWasNext: bool, rs: seq<Command>, p: nat)
      requires HistoryOk(area, first, free, curr, lastWasNext, rs, p)
      ensures Ring(area, first, free, Cells(rs)) && rs != [] && NoneEmpty(rs)
      ensures first < |area| && Cells(rs) != [] && |Cells(rs)| <= |area| && free == Wrap(first + |Cells(rs)|, |area|)
    {
    }

    /** The new record is the newest, and the cursor stands on it. */
    static lemma Appended(area: seq<int>, first: nat, free: nat, curr: nat, kept: seq<Command>, cmd: Command)
      requires Ring(area, first, free, Cells(kept) + Framed(cmd)) && curr == Wrap(first + |Cells(kept)|, |area|) && cmd != []
      requires NoneEmpty(kept)
      ensures HistoryOk(area, first, free, curr, false, kept + [cmd], |kept| + 1)
    {
      hide Ring, Cells, Framed, Wrap;
      CellsAppend(kept, [cmd]);
      CellsOne(cmd);
      assert (kept + [cmd])[..|kept|] == kept;
    }

    // ----- saving a command -----

    /** The newest record, found from the free end. */
    static lemma AtNewest(area: seq<int>, first: nat, free: nat, curr: nat, lastWasNext: bool, rs: seq<Command>, p: nat)
      requires HistoryOk(area, first, free, curr, lastWasNext, rs, p)
      ensures first < |area| && rs != [] && free < |area|
      ensures var c := Wrap(free - 1, |area|); area[c] == |rs[|rs| - 1]| && HistoryOk(area, first, free, Wrap(c - (area[c] + 1), |area|), false, rs, |rs|)
    {
      hide Cells, Wrap, Ring, Offset, NoneEmpty;
      HistoryShape(area, first, free, curr, lastWasNext, rs, p);
      OffsetEnds(rs);
      StepBack(area, first, free, rs, |rs|, free);
    }

    /** Compare the newest record, at which the cursor stands, with a command. */
    method SameAsNewest(cmd: Command) returns (same: bool)
      requires Valid() && !LastWasNext && position == |records|
      ensures same <==> records[|records| - 1] == cmd
    {
      hide *;
      ValidMeans();
      ghost var newest := |records| - 1;
      NewestCells(SaveArea[..], FirstCmd, FirstFree, CurrCmd, records);
      var chk := CurrCmd;
      if SaveArea[chk] != |cmd| {
        return false;
      }
      for chk_len := 0 to |cmd|
        invariant chk == Wrap(CurrCmd + chk_len, SAVE_SIZE) && forall i :: 0 <= i < chk_len ==> records[newest][i] == cmd[i]
      {
        ModIndexIs(chk, 1);
        WrapStep(CurrCmd + chk_len, 1, SAVE_SIZE);
        chk := ModIndex(chk, 1);
        assert SaveArea[chk] == CellAt(SaveArea[..], CurrCmd, chk_len + 1) by {
          CellIs(SaveArea[..], CurrCmd, chk_len + 1);
        }
        if SaveArea[chk] != cmd[chk_len] {
          return false;
        }
      }
      same := true;
    }

    static lemma CellIs(area: seq<int>, first: nat, i: nat)
      requires area != []
      ensures CellAt(area, first, i) == area[Wrap(first + i, |area|)]
    {
    }

    static lemma NewestCells(area: seq<int>, first: nat, free: nat, curr: nat, rs: seq<Command>)
      requires HistoryOk(area, first, free, curr, false, rs, |rs|)
      ensures curr < |area| && rs != [] && area[curr] == |rs[|rs| - 1]| && Wrap(curr, |area|) == curr
      ensures var newest := rs[|rs| - 1]; forall i :: 0 <= i < |newest| ==> CellAt(area, curr, i + 1) == newest[i]
    {
      hide Cells, Wrap, Ring, Offset, NoneEmpty, CellAt;
      HistoryShape(area, first, free, curr, false, rs, |rs|);
      CharactersAt(area, first, free, rs, |rs| - 1, curr);
      WrapSmall(curr, |area|);
    }

    /** The characters of record k behind its length. */
    static lemma CharactersAt(area: seq<int>, first: nat, free: nat, rs: seq<Command>, k: nat, curr: nat)
      requires Ring(area, first, free, Cells(rs)) && k < |rs| && first < |area| && curr == Wrap(first + Offset(rs, k), |area|)
      ensures area[curr] == |rs[k]| && forall i :: 0 <= i < |rs[k]| ==> CellAt(area, curr, i + 1) == rs[k][i]
    {
      hide Cells, Wrap, Ring, Offset;
      RecordInRing(area, first, free, rs, k);
      forall i | 0 <= i < |rs[k]| ensures CellAt(area, curr, i + 1) == rs[k][i] {
        WrapStep(first + Offset(rs, k), i + 1, |area|);
        assert CellAt(area, first, Offset(rs, k) + 1 + i) == rs[k][i];
      }
    }

    /** SaveCmd: the command becomes the newest record, unless it is empty or repeats the newest one. */
    method SaveCmd(cmd: Command)
      requires Valid() && |cmd| + 2 <= SAVE_SIZE
      modifies this, SaveArea
      ensures Valid() && records == Saved(old(records), cmd, SAVE_SIZE) && position == |records| && !LastWasNext
    {
      hide *;
      ValidMeans();
      AtNewest(SaveArea[..], FirstCmd, FirstFree, CurrCmd, LastWasNext, records, position);
      LastWasNext := false;
      CurrCmd := FirstFree;
      ModIndexIs(CurrCmd, -1);
      CurrCmd := ModIndex(CurrCmd, -1);
      ModIndexIs(CurrCmd, -(SaveArea[CurrCmd] + 1));
      CurrCmd := ModIndex(CurrCmd, -(SaveArea[CurrCmd] + 1));
      position := |records|;
      ValidIs();
      SavedIs(records, cmd, SAVE_SIZE);
      if |cmd| != 0 {
        var same := SameAsNewest(cmd);
        if !same {
          SaveIt(cmd);
        }
      }
    }

    static lemma SavedIs(rs: seq<Command>, cmd: Command, size: nat)
      requires rs != []
      ensures Saved(rs, cmd, size) == if cmd == [] || rs[|rs| - 1] == cmd then rs else Fit(rs, |cmd| + 2, size) + [cmd]
    {
    }

    // ----- moving the cursor -----

    /** Copy as many cells as the length at start says. The loop runs at least once. */
    method CopyOut(start: nat) returns (cmd: Command)
      requires Sized() && start < SAVE_SIZE && SaveArea[start] >= 1
      ensures |cmd| == SaveArea[start] && forall i :: 0 <= i < |cmd| ==> cmd[i] == CellAt(SaveArea[..], start, i + 1)
    {
      hide *;
      SizedMeans();
      WrapSmall(start, SAVE_SIZE);
      var curr := start;
      var len := SaveArea[curr];
      var cnt := len;
      cmd := [];
      while true
        invariant 1 <= cnt <= len && |cmd| == len - cnt && curr == Wrap(start + |cmd|, SAVE_SIZE)
        invariant forall i :: 0 <= i < |cmd| ==> cmd[i] == CellAt(SaveArea[..], start, i + 1)
        decreases cnt
      {
        ModIndexIs(curr, 1);
        WrapStep(start + |cmd|, 1, SAVE_SIZE);
        curr := ModIndex(curr, 1);
        CellIs(SaveArea[..], start, |cmd| + 1);
        cmd := cmd + [SaveArea[curr]];
        cnt := cnt - 1;
        if cnt == 0 {
          break;
        }
      }
    }

    /** Copy record k. */
    method CopyRecord(start: nat, ghost k: nat) returns (cmd: Command)
      requires Sized() && Ring(SaveArea[..], FirstCmd, FirstFree, Cells(records)) && FirstCmd < SAVE_SIZE
      requires k < |records| && start == Wrap(FirstCmd + Offset(records, k), SAVE_SIZE) && |records[k]| >= 1
      ensures cmd == records[k]
    {
      hide *;
      SizedMeans();
      CharactersAt(SaveArea[..], FirstCmd, FirstFree, records, k, start);
      cmd := CopyOut(start);
    }

    /** One record back. */
    static lemma OneBack(area: seq<int>, first: nat, free: nat, curr: nat, lastWasNext: bool, rs: seq<Command>, p: nat)
      requires HistoryOk(area, first, free, curr, lastWasNext, rs, p)
      ensures first < |area| && (curr == first <==> CursorRecord(p, lastWasNext) == 0)
      ensures curr != first ==>
        var k := CursorRecord(p, lastWasNext) - 1; var c := Wrap(curr - 1, |area|);
        Wrap(c - (area[c] + 1), |area|) == Wrap(first + Offset(rs, k), |area|)
    {
      hide Cells, Wrap, Ring, Offset, NoneEmpty;
      HistoryShape(area, first, free, curr, lastWasNext, rs, p);
      var k := CursorRecord(p, lastWasNext);
      OldestOnly(area, first, free, rs, k);
      if k > 0 {
        StepBack(area, first, free, rs, k, curr);
      }
    }

    /** The cursor may stand at any record, and be there as shown or as the one before. */
    static lemma CursorAt(area: seq<int>, first: nat, free: nat, curr: nat, lastWasNext: bool, rs: seq<Command>, p: nat, k: nat, next: bool)
      requires HistoryOk(area, first, free, curr, lastWasNext, rs, p) && k < |rs| && first < |area|
      ensures HistoryOk(area, first, free, Wrap(first + Offset(rs, k), |area|), next, rs, if next then k else k + 1)
      ensures k >= 1 ==> |rs[k]| >= 1
    {
      hide Cells, Wrap, Ring, Offset;
    }

    /** PrevCmd: one place back, and the command there; nothing when only the oldest record is left. */
    method PrevCmd() returns (cmd: Command)
      requires Valid()
      modifies this`CurrCmd, this`LastWasNext, this`position
      ensures Valid() && position == Back(old(position)) && cmd == Shown(records, position)
    {
      hide *;
      ValidMeans();
      ghost var area, p, was := SaveArea[..], position, CurrCmd;
      ghost var c := CursorRecord(p, LastWasNext);
      CursorIs(area, FirstCmd, FirstFree, CurrCmd, LastWasNext, records, p);
      HistoryShape(area, FirstCmd, FirstFree, CurrCmd, LastWasNext, records, p);
      OneBack(area, FirstCmd, FirstFree, CurrCmd, LastWasNext, records, p);
      ShownIs(records, Back(p));
      BackIs(p);
      if CurrCmd == FirstCmd {
        CursorAt(area, FirstCmd, FirstFree, CurrCmd, LastWasNext, records, p, 0, true);
        LastWasNext, position := true, 0;
        ValidIs();
        return [];
      }
      var curr := CurrCmd;
      CursorAt(area, FirstCmd, FirstFree, was, LastWasNext, records, p, c - 1, true);
      CursorAt(area, FirstCmd, FirstFree, was, LastWasNext, records, p, c - 1, false);
      StepCursorBack();
      if LastWasNext {
        OneBack(area, FirstCmd, FirstFree, CurrCmd, true, records, c - 1);
        CursorIs(area, FirstCmd, FirstFree, CurrCmd, true, records, c - 1);
        if CurrCmd == FirstCmd {
          position := 0;
          ValidIs();
          return [];
        }
        curr := CurrCmd;
        c := c - 1;
        CursorAt(area, FirstCmd, FirstFree, CurrCmd, true, records, c, c, true);
        CursorAt(area, FirstCmd, FirstFree, CurrCmd, true, records, c, c - 1, false);
        StepCursorBack();
      } else {
        CursorAt(area, FirstCmd, FirstFree, was, false, records, p, c, true);
      }
      LastWasNext, position := false, c;
      ValidIs();
      cmd := CopyRecord(curr, c);
    }

    method StepCursorBack()
      requires Sized() && CurrCmd < SAVE_SIZE
      modifies this`CurrCmd
      ensures var c := Wrap(old(CurrCmd) - 1, SAVE_SIZE); CurrCmd == Wrap(c - (SaveArea[c] + 1), SAVE_SIZE)
    {
      CurrCmd := ModIndex(CurrCmd, -1);
      CurrCmd := ModIndex(CurrCmd, -(SaveArea[CurrCmd] + 1));
    }

    static lemma CursorIs(area: seq<int>, first: nat, free: nat, curr: nat, lastWasNext: bool, rs: seq<Command>, p: nat)
      requires HistoryOk(area, first, free, curr, lastWasNext, rs, p)
      ensures first < |area| && curr < |area| && 0 <= CursorRecord(p, lastWasNext) <= |rs| && p <= |rs|
      ensures curr == Wrap(first + Offset(rs, CursorRecord(p, lastWasNext)), |area|)
      ensures CursorRecord(p, lastWasNext) == if lastWasNext then p else p - 1
    {
      hide Cells, Offset, NoneEmpty, CellAt;
    }

    static lemma ShownIs(rs: seq<Command>, p: nat)
      ensures Shown(rs, p) == if 1 <= p < |rs| then rs[p] else []
    {
    }

    static lemma BackIs(p: nat)
      ensures Back(p) == if p == 0 then 0 else p - 1
    {
    }

    static lemma AheadIs(p: nat, m: nat)
      ensures Ahead(p, m) == if p >= m then m else p + 1
    {
    }

    method StepCursorAhead(c: nat) returns (curr: nat)
      requires Sized() && c < SAVE_SIZE
      ensures curr == Wrap(c + (SaveArea[c] + 2), SAVE_SIZE)
    {
      curr := ModIndex(c, SaveArea[c] + 2);
    }

    /** NextCmd: one place ahead, and the command there; nothing behind the newest. */
    method NextCmd() returns (cmd: Command)
      requires Valid() && !Stranded()
      modifies this`CurrCmd, this`LastWasNext, this`position
      ensures Valid() && position == Ahead(old(position), |records|) && cmd == Shown(records, position)
    {
      hide *;
      ValidMeans();
      NotStranded();
      ghost var area, p, m, first, free := SaveArea[..], position, |records|, FirstCmd, FirstFree;
      CursorIs(area, first, free, CurrCmd, LastWasNext, records, p);
      HistoryShape(area, first, free, CurrCmd, LastWasNext, records, p);
      ShownIs(records, Ahead(p, m));
      AheadIs(p, m);
      StepAhead(area, first, free, records, CursorRecord(p, LastWasNext), CurrCmd);
      var curr := StepCursorAhead(CurrCmd);
      if !LastWasNext {
        if curr == FirstFree {
          return [];
        }
        CursorAt(area, first, free, CurrCmd, false, records, p, p, true);
        CurrCmd := curr;
        StepAhead(area, first, free, records, p, CurrCmd);
        curr := StepCursorAhead(curr);
        CursorIs(area, first, free, CurrCmd, true, records, p);
      }
      assert HistoryOk(area, first, free, CurrCmd, true, records, p);
      CursorAt(area, first, free, CurrCmd, true, records, p, p, false);
      LastWasNext := false;
      if curr == FirstFree {
        position := p + 1;
        ValidIs();
        return [];
      }
      CursorAt(area, first, free, CurrCmd, true, records, p, p + 1, true);
      LastWasNext := true;
      CurrCmd := curr;
      position := p + 1;
      ValidIs();
      cmd := CopyRecord(curr, p + 1);
    }

    lemma PlaceIs()
      requires Valid()
      ensures position <= |records|
    {
    }

    lemma NotStranded()
      requires !Stranded() && Valid()
      ensures CursorRecord(position, LastWasNext) < |records|
    {
    }

    // ----- deleting a command -----

    /** The records without record p. */
    static function Without(rs: seq<Command>, p: nat): (r: seq<Command>)
      requires p < |rs|
      ensures |r| == |rs| - 1
    {
      rs[..p] + rs[p + 1..]
    }

    static lemma WithoutCells(rs: seq<Command>, p: nat)
      requires p < |rs|
      ensures Offset(rs, p) + |rs[p]| + 2 <= |Cells(rs)| && |Cells(Without(rs, p))| == |Cells(rs)| - |rs[p]| - 2
      ensures Cells(Without(rs, p)) == Cells(rs)[..Offset(rs, p)] + Cells(rs)[Offset(rs, p) + |rs[p]| + 2..]
      ensures Offset(Without(rs, p), p) == Offset(rs, p)
    {
      hide Cells, Framed;
      var a, b := rs[..p], rs[p + 1..];
      assert rs == a + ([rs[p]] + b);
      CellsAppend(a, [rs[p]] + b);
      CellsAppend([rs[p]], b);
      CellsAppend(a, b);
      CellsOne(rs[p]);
      var x, y, z := Cells(a), Framed(rs[p]), Cells(b);
      assert Cells(rs) == x + (y + z);
      assert Cells(rs)[..|x|] == x && Cells(rs)[|x| + |y|..] == z;
      assert Without(rs, p)[..p] == a;
    }

    /** Cell i once a gap of l cells at a has been closed. */
    static function Moved(cells: seq<int>, a: nat, l: nat, i: nat): int
      requires a <= |cells| && i + l < |cells|
    {
      if i < a then cells[i] else cells[i + l]
    }

    /** t cells have been moved down over a gap of l cells at a. */
    static ghost predicate Closing(area: seq<int>, first: nat, cells: seq<int>, a: nat, l: nat, t: nat) {
      && first < |area| && |cells| <= |area| && 0 < a && l > 0 && a + l + t <= |cells|
      && (forall i: nat :: i < a + t ==> CellAt(area, first, i) == Moved(cells, a, l, i))
      && forall i: nat :: a + l + t <= i < |cells| ==> CellAt(area, first, i) == cells[i]
    }

    static lemma ClosingStarts(area: seq<int>, first: nat, free: nat, cells: seq<int>, a: nat, l: nat)
      requires Ring(area, first, free, cells) && 0 < a && l > 0 && a + l <= |cells|
      ensures Closing(area, first, cells, a, l, 0)
    {
      hide CellAt, Wrap;
    }

    static lemma ClosingStep(area: seq<int>, first: nat, cells: seq<int>, a: nat, l: nat, t: nat)
      requires Closing(area, first, cells, a, l, t) && a + l + t < |cells|
      ensures first < |area|
      ensures var dst, src := Wrap(first + (a + t), |area|), Wrap(first + (a + l + t), |area|);
        && Closing(area[dst := area[src]], first, cells, a, l, t + 1)
        && Wrap(dst + 1, |area|) == Wrap(first + (a + (t + 1)), |area|) && Wrap(src + 1, |area|) == Wrap(first + (a + l + (t + 1)), |area|)
    {
      hide Wrap;
      var n := |area|;
      var dst, src := Wrap(first + (a + t), n), Wrap(first + (a + l + t), n);
      var now := area[dst := area[src]];
      WrapStep(first + (a + t), 1, n);
      WrapStep(first + (a + l + t), 1, n);
      assert area[src] == CellAt(area, first, a + l + t) == cells[a + l + t];
      forall i: nat | i < a + (t + 1) ensures CellAt(now, first, i) == Moved(cells, a, l, i) {
        if i < a + t {
          WrapApart(first, i, a + t, n);
          assert CellAt(now, first, i) == CellAt(area, first, i);
        } else {
          assert i == a + t && first + i == first + (a + t);
          assert CellAt(now, first, i) == now[dst];
        }
      }
      forall i: nat | a + l + (t + 1) <= i < |cells| ensures CellAt(now, first, i) == cells[i] {
        WrapApart(first, a + t, i, n);
        assert CellAt(now, first, i) == CellAt(area, first, i);
      }
    }

    static lemma ClosingEnds(area: seq<int>, first: nat, cells: seq<int>, a: nat, l: nat, t: nat, free: nat)
      requires Closing(area, first, cells, a, l, t) && a + l + t == |cells| && free == Wrap(first + |cells|, |area|)
      ensures Ring(area, first, Wrap(free - l, |area|), cells[..a] + cells[a + l..])
    {
      hide Wrap, CellAt;
      WrapStep(first + |cells|, 0 - l, |area|);
      var rest := cells[..a] + cells[a + l..];
      forall i: nat | i < |rest| ensures CellAt(area, first, i) == rest[i] {
        assert CellAt(area, first, i) == Moved(cells, a, l, i);
      }
    }

    /** The end of what is left to move is the free end. */
    static lemma ClosingMeets(area: seq<int>, first: nat, cells: seq<int>, a: nat, l: nat, t: nat, free: nat)
      requires Closing(area, first, cells, a, l, t) && free == Wrap(first + |cells|, |area|)
      ensures Wrap(first + (a + l + t), |area|) == free <==> a + l + t == |cells|
      ensures |cells| <= |area|
    {
      hide Wrap, CellAt;
      if a + l + t < |cells| {
        WrapApart(first, a + l + t, |cells|, |area|);
      }
    }

    /** Move everything behind the gap down over it. */
    method CloseGap(dst0: nat, src0: nat, ghost cells: seq<int>, ghost a: nat, ghost l: nat)
      requires Sized() && Closing(SaveArea[..], FirstCmd, cells, a, l, 0) && FirstCmd < SAVE_SIZE
      requires FirstFree == Wrap(FirstCmd + |cells|, SAVE_SIZE)
      requires dst0 == Wrap(FirstCmd + a, SAVE_SIZE) && src0 == Wrap(FirstCmd + (a + l), SAVE_SIZE)
      modifies SaveArea
      ensures Ring(SaveArea[..], FirstCmd, Wrap(FirstFree - l, SAVE_SIZE), cells[..a] + cells[a + l..])
      ensures a + l == |cells| ==> SaveArea[..] == old(SaveArea[..])
    {
      hide *;
      SizedMeans();
      var dst, src := dst0, src0;
      ghost var t := 0;
      ClosingMeets(SaveArea[..], FirstCmd, cells, a, l, t, FirstFree);
      ClosingFits(SaveArea[..], FirstCmd, cells, a, l, t);
      while src != FirstFree
        invariant Closing(SaveArea[..], FirstCmd, cells, a, l, t) && a + l + t <= |cells|
        invariant dst == Wrap(FirstCmd + (a + t), SAVE_SIZE) && src == Wrap(FirstCmd + (a + l + t), SAVE_SIZE)
        invariant t == 0 ==> SaveArea[..] == old(SaveArea[..])
        decreases |cells| - t
      {
        ghost var area := SaveArea[..];
        ClosingMeets(area, FirstCmd, cells, a, l, t, FirstFree);
        ClosingStep(area, FirstCmd, cells, a, l, t);
        ModIndexIs(dst, 1);
        ModIndexIs(src, 1);
        SaveArea[dst] := SaveArea[src];
        assert SaveArea[..] == area[dst := area[src]];
        dst := ModIndex(dst, 1);
        src := ModIndex(src, 1);
        t := t + 1;
        ClosingFits(SaveArea[..], FirstCmd, cells, a, l, t);
      }
      ClosingMeets(SaveArea[..], FirstCmd, cells, a, l, t, FirstFree);
      ClosingEnds(SaveArea[..], FirstCmd, cells, a, l, t, FirstFree);
    }

    static lemma ClosingFits(area: seq<int>, first: nat, cells: seq<int>, a: nat, l: nat, t: nat)
      requires Closing(area, first, cells, a, l, t)
      ensures a + l + t <= |cells|
    {
      hide CellAt;
    }

    static lemma WithoutOk(area: seq<int>, first: nat, free: nat, curr: nat, rs: seq<Command>, p: nat)
      requires 1 <= p < |rs| && NoneEmpty(rs) && |Cells(rs)| <= |area| && Ring(area, first, free, Cells(Without(rs, p)))
      requires curr == Wrap(first + Offset(rs, p), |area|)
      ensures HistoryOk(area, first, free, curr, true, Without(rs, p), p)
    {
      hide Cells, Offset, Wrap, Ring;
      WithoutCells(rs, p);
    }

    /** The first part of DelCmd: the cursor goes to the command shown, and that record is closed over. */
    method RemoveShown()
      requires Valid() && 1 <= position < |records|
      modifies this`CurrCmd, this`FirstFree, this`records, SaveArea
      ensures Sized() && FirstCmd < SAVE_SIZE && HistoryOk(SaveArea[..], FirstCmd, FirstFree, CurrCmd, true, records, position)
      ensures records == Without(old(records), position) && CurrCmd < SAVE_SIZE
      ensures |Cells(records)| + |old(records)[position]| + 2 <= SAVE_SIZE
      ensures var c := old(records)[position]; position == |records| ==> SaveArea[CurrCmd] == |c|
      ensures var c := old(records)[position]; position == |records| ==>
        forall i :: 0 <= i < |c| ==> CellAt(SaveArea[..], CurrCmd, i + 1) == c[i]
    {
      hide *;
      ValidMeans();
      ghost var area, rs, p, first, cells := SaveArea[..], records, position, FirstCmd, Cells(records);
      HistoryShape(area, first, FirstFree, CurrCmd, LastWasNext, rs, p);
      CursorIs(area, first, FirstFree, CurrCmd, LastWasNext, rs, p);
      if !LastWasNext {
        StepAhead(area, first, FirstFree, rs, p - 1, CurrCmd);
        CurrCmd := StepCursorAhead(CurrCmd);
      }
      StepAhead(area, first, FirstFree, rs, p, CurrCmd);
      RecordInRing(area, first, FirstFree, rs, p);
      CharactersAt(area, first, FirstFree, rs, p, CurrCmd);
      OffsetEnough(rs, p);
      var len := SaveArea[CurrCmd] + 2;
      var src := StepCursorAhead(CurrCmd);
      ghost var a := Offset(rs, p);
      assert first + (a + len) == first + Offset(rs, p + 1);
      ClosingStarts(area, first, FirstFree, cells, a, len);
      CloseGap(CurrCmd, src, cells, a, len);
      WithoutCells(rs, p);
      OffsetEnds(rs);
      ModIndexIs(FirstFree, -len);
      FirstFree := ModIndex(FirstFree, -len);
      records := Without(rs, p);
      WithoutOk(SaveArea[..], first, FirstFree, CurrCmd, rs, p);
    }

    /** DelCmd: the command shown is deleted, and the one behind it is shown. If the newest one is deleted, the
        cursor is left at the free end, where NextCmd would not find the end of the records: what it reads there
        is the length of the deleted record. */
    method DelCmd() returns (cmd: Command, shown: nat)
      requires Valid() && 1 <= position < |records|
      modifies this`CurrCmd, this`LastWasNext, this`FirstFree, this`records, SaveArea
      ensures Valid() && records == Without(old(records), position) && LastWasNext
      ensures Stranded() <==> position == |old(records)| - 1
      ensures !Stranded() ==> cmd == Shown(records, position) && shown == |cmd|
      ensures Stranded() ==> shown == 0 && cmd == old(records)[position]
      ensures Stranded() ==> CurrCmd < SAVE_SIZE == SaveArea.Length && Wrap(CurrCmd + (SaveArea[CurrCmd] + 2), SAVE_SIZE) != FirstFree
    {
      hide *;
      ghost var c, p := records[position], position;
      ShownSize(records, p);
      RemoveShown();
      SizedMeans();
      LastWasNext := true;
      ValidIs();
      StrandedIs();
      ShownIs(records, p);
      OffsetEnds(records);
      ghost var after := SaveArea[..];
      HistoryShape(after, FirstCmd, FirstFree, CurrCmd, true, records, p);
      CursorIs(after, FirstCmd, FirstFree, CurrCmd, true, records, p);
      if p < |records| {
        CursorAt(after, FirstCmd, FirstFree, CurrCmd, true, records, p, p, true);
        CharactersAt(after, FirstCmd, FirstFree, records, p, CurrCmd);
        CursorNotFree(after, FirstCmd, FirstFree, records, p);
      } else {
        StaleLength(after, FirstCmd, FirstFree, records, |c| + 2);
      }
      cmd := CopyOut(CurrCmd);
      assert SaveArea[..] == after;
      shown := if CurrCmd == FirstFree then 0 else SaveArea[CurrCmd];
    }

    lemma ShownSize(rs: seq<Command>, p: nat)
      requires Valid() && rs == records && 1 <= p < |rs|
      ensures |rs[p]| >= 1
    {
    }

    lemma StrandedIs()
      ensures Stranded() <==> LastWasNext && position == |records|
    {
    }

    static lemma OffsetEnough(rs: seq<Command>, p: nat)
      requires p < |rs|
      ensures Offset(rs, p) >= 2 * p
    {
      RecordAt(rs, p);
    }

    /** A record does not begin at the free end, unless it is the oldest of a full area. */
    static lemma CursorNotFree(area: seq<int>, first: nat, free: nat, rs: seq<Command>, p: nat)
      requires Ring(area, first, free, Cells(rs)) && 1 <= p < |rs|
      ensures area != [] && Wrap(first + Offset(rs, p), |area|) != free
    {
      hide Cells, Offset, Wrap;
      RecordInRing(area, first, free, rs, p);
      OffsetEnough(rs, p);
      EndsMeet(area, first, free, Cells(rs), Offset(rs, p));
    }

    /** The length of the deleted record does not lead back to the free end. */
    static lemma StaleLength(area: seq<int>, first: nat, free: nat, rs: seq<Command>, l: nat)
      requires Ring(area, first, free, Cells(rs)) && rs != [] && l > 0 && |Cells(rs)| + l <= |area|
      ensures area != [] && Wrap(free + l, |area|) != free
    {
      hide Wrap, CellAt;
      WrapStep(first + |Cells(rs)|, l, |area|);
      WrapApart(first, |Cells(rs)|, |Cells(rs)| + l, |area|);
    }
  }

  /** A session: whatever commands are saved, the area reads the same forwards and backwards, as the longest suffix
      of the empty record and the commands, without empty ones and adjacent repeats, for which there is room. */
  method Session(size: nat, commands: seq<Command>) returns (h: History)
    requires (size == 512 || size == 4096) && forall k :: 0 <= k < |commands| ==> |commands[k]| + 2 <= size
    ensures h.Valid() && h.SAVE_SIZE == size && fresh(h) && fresh(h.SaveArea) && h.records == Fit(Kept(commands), 0, size)
    ensures Ring(h.SaveArea[..], h.FirstCmd, h.FirstFree, Cells(h.records))
    ensures Forward(Cells(h.records)) == h.records && Backward(Cells(h.records)) == h.records
  {
    hide *;
    h := new History(size);
    NothingSaved(size);
    for i := 0 to |commands|
      invariant h.Valid() && h.SAVE_SIZE == size && fresh(h) && fresh(h.SaveArea) && h.records == SavedAll(commands[..i], size)
    {
      SavedOneMore(commands, i, size);
      h.SaveCmd(commands[i]);
    }
    assert commands[..|commands|] == commands;
    HistoryIsSuffix(commands, size);
    h.ValidMeans();
    History.HistoryShape(h.SaveArea[..], h.FirstCmd, h.FirstFree, h.CurrCmd, h.LastWasNext, h.records, h.position);
    ParsesForward(h.records);
    ParsesBackward(h.records);
  }

  lemma NothingSaved(size: nat)
    ensures SavedAll([], size) == [[]]
  {
  }

  lemma SavedOneMore(cs: seq<Command>, i: nat, size: nat)
    requires i < |cs|
    ensures SavedAll(cs[..i + 1], size) == Saved(SavedAll(cs[..i], size), cs[i], size)
  {
    assert cs[..i + 1][..i] == cs[..i];
  }

  /** From anywhere but the oldest record, PrevCmd and then NextCmd show the same command again. */
  method BackAndAhead(h: History) returns (cmd: Command)
    requires h.Valid() && h.position > 0
    modifies h`CurrCmd, h`LastWasNext, h`position
    ensures h.Valid() && h.position == old(h.position) && cmd == Shown(h.records, h.position)
  {
    hide History.Valid, Shown;
    h.PlaceIs();
    CursorUndone(h.records, h.position);
    cmd := h.PrevCmd();
    cmd := h.NextCmd();
  }

  /** From anywhere up to the newest record, NextCmd and then PrevCmd do. */
  method AheadAndBack(h: History) returns (cmd: Command)
    requires h.Valid() && h.position < |h.records|
    modifies h`CurrCmd, h`LastWasNext, h`position
    ensures h.Valid() && h.position == old(h.position) && cmd == Shown(h.records, h.position)
  {
    hide History.Valid, Shown;
    CursorUndone(h.records, h.position);
    cmd := h.NextCmd();
    cmd := h.PrevCmd();
  }

  /** After the newest command has been deleted while it is shown, NextCmd does not find the end of the records:
      one command is enough. */
  method DeletingNewest(size: nat) returns (h: History)
    requires size == 512 || size == 4096
    ensures h.Valid() && h.Stranded() && h.records == [[]]
    ensures h.CurrCmd < h.SAVE_SIZE == h.SaveArea.Length
    ensures Wrap(h.CurrCmd + (h.SaveArea[h.CurrCmd] + 2), h.SAVE_SIZE) != h.FirstFree
  {
    hide *;
    h := new History(size);
    OneSaved(size);
    h.SaveCmd([65]);
    h.ValidMeans();
    TwoPlaces();
    var shown := h.PrevCmd();
    var next, len := h.DelCmd();
    h.StrandedIs();
  }

  lemma OneSaved(size: nat)
    requires size >= 5
    ensures Saved([[]], [65], size) == [[], [65]]
  {
    CellsOne([]);
  }

  lemma TwoPlaces()
    ensures Back(2) == 1 && History.Without([[], [65]], 1) == [[]]
  {
  }
}
