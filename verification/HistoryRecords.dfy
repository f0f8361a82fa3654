/** The record format of the command history: every record carries its length at both ends, so a ring of records can
    be read in either direction. */
module HistoryRecords {

  /** A command as it is stored. */
  type Command = seq<int>

  function Framed(c: Command): (s: seq<int>)
    ensures |s| == |c| + 2
  {
    [|c|] + c + [|c|]
  }

  /** The cells of a list of records, oldest first. */
  function Cells(rs: seq<Command>): (s: seq<int>)
    ensures |s| >= 2 * |rs|
  {
    if rs == [] then [] else Framed(rs[0]) + Cells(rs[1..])
  }

  lemma {:induction false} CellsAppend(rs: seq<Command>, ss: seq<Command>)
    ensures Cells(rs + ss) == Cells(rs) + Cells(ss)
  {
    if rs == [] {
      assert rs + ss == ss;
    } else {
      assert (rs + ss)[1..] == rs[1..] + ss;
      CellsAppend(rs[1..], ss);
      assert Framed(rs[0]) + (Cells(rs[1..]) + Cells(ss)) == Framed(rs[0]) + Cells(rs[1..]) + Cells(ss);
    }
  }

  lemma CellsOne(c: Command)
    ensures Cells([c]) == Framed(c)
  {
  }

  /** Reading from the front: a length, so many cells, and the length again. */
  function Forward(s: seq<int>): seq<Command>
    decreases |s|
  {
    if s == [] || s[0] < 0 || s[0] + 2 > |s| then [] else [s[1..s[0] + 1]] + Forward(s[s[0] + 2..])
  }

  /** Reading from the back, as the cursor does. */
  function Backward(s: seq<int>): seq<Command>
    decreases |s|
  {
    if s == [] then []
    else
      var n := s[|s| - 1];
      if n < 0 || n + 2 > |s| then [] else Backward(s[..|s| - n - 2]) + [s[|s| - n - 1..|s| - 1]]
  }

  /** Both directions find the same records. */
  lemma {:induction false} ParsesForward(rs: seq<Command>)
    ensures Forward(Cells(rs)) == rs
  {
    if rs != [] {
      var s, c := Cells(rs), rs[0];
      assert s[0] == |c| && s[1..|c| + 1] == c && s[|c| + 2..] == Cells(rs[1..]);
      ParsesForward(rs[1..]);
    }
  }

  lemma {:induction false} ParsesBackward(rs: seq<Command>)
    ensures Backward(Cells(rs)) == rs
  {
    if rs != [] {
      var front, c := rs[..|rs| - 1], rs[|rs| - 1];
      CellsAppend(front, [c]);
      CellsOne(c);
      assert front + [c] == rs;
      ParsesBackward(front);
      hide Cells;
      LastBackward(Cells(front), c);
    }
  }

  lemma LastBackward(s: seq<int>, c: Command)
    ensures Backward(s + Framed(c)) == Backward(s) + [c]
  {
    var t := s + Framed(c);
    assert t[|t| - 1] == |c| && t[|t| - |c| - 1..|t| - 1] == c && t[..|t| - |c| - 2] == s;
  }

  /** Where record k begins. */
  function Offset(rs: seq<Command>, k: nat): nat
    requires k <= |rs|
  {
    |Cells(rs[..k])|
  }

  /** The cells of record k and their place. */
  lemma RecordAt(rs: seq<Command>, k: nat)
    requires k < |rs|
    ensures Offset(rs, k + 1) == Offset(rs, k) + |rs[k]| + 2 <= |Cells(rs)|
    ensures Cells(rs)[Offset(rs, k)] == |rs[k]| && Cells(rs)[Offset(rs, k + 1) - 1] == |rs[k]|
    ensures forall i :: 0 <= i < |rs[k]| ==> Cells(rs)[Offset(rs, k) + 1 + i] == rs[k][i]
    ensures Offset(rs, k) >= 2 * k
  {
    hide Cells;
    var a, b := rs[..k], rs[k + 1..];
    assert rs == a + ([rs[k]] + b) && rs[..k + 1] == a + [rs[k]];
    CellsAppend(a, [rs[k]] + b);
    CellsAppend([rs[k]], b);
    CellsAppend(a, [rs[k]]);
    CellsOne(rs[k]);
    var x, y, z := Cells(a), Framed(rs[k]), Cells(b);
    assert Cells(rs) == x + (y + z);
    assert Cells(rs)[|x|] == y[0] && Cells(rs)[|x| + |y| - 1] == y[|y| - 1];
    forall i | 0 <= i < |rs[k]| ensures Cells(rs)[|x| + 1 + i] == rs[k][i] {
      assert Cells(rs)[|x| + 1 + i] == y[1 + i];
    }
  }

  lemma OffsetEnds(rs: seq<Command>)
    ensures Offset(rs, 0) == 0 && Offset(rs, |rs|) == |Cells(rs)|
  {
    assert rs[..|rs|] == rs;
  }

  // ----- eviction -----

  /** Drop the oldest records until n more cells fit into the area. */
  function Fit(rs: seq<Command>, n: nat, size: nat): (r: seq<Command>)
    ensures |r| <= |rs|
    ensures n <= size ==> |Cells(r)| + n <= size
  {
    if rs == [] || |Cells(rs)| + n <= size then rs else Fit(rs[1..], n, size)
  }

  /** What is left is the newest part of the list. */
  lemma {:induction false} FitSuffix(rs: seq<Command>, n: nat, size: nat)
    ensures Fit(rs, n, size) == rs[|rs| - |Fit(rs, n, size)|..]
    decreases |rs|
  {
    if rs != [] && |Cells(rs)| + n > size {
      FitSuffix(rs[1..], n, size);
    }
  }

  /** Whatever newest part of the list fits is kept. */
  lemma {:induction false} FitLongest(rs: seq<Command>, n: nat, size: nat, k: nat)
    requires k <= |rs| && |Cells(rs[k..])| + n <= size
    ensures |Fit(rs, n, size)| >= |rs| - k
    decreases |rs|
  {
    assert rs[0..] == rs;
    if rs != [] && |Cells(rs)| + n > size && k > 0 {
      assert rs[k..] == rs[1..][k - 1..];
      FitLongest(rs[1..], n, size, k - 1);
    }
  }

  /** Making room step by step is the same as making it at once. */
  lemma {:induction false} FitAgain(rs: seq<Command>, n: nat, m: nat, size: nat)
    requires n <= m
    ensures Fit(Fit(rs, n, size), m, size) == Fit(rs, m, size)
    decreases |rs|
  {
    if rs != [] && |Cells(rs)| + n > size {
      FitAgain(rs[1..], n, m, size);
    }
  }

  /** What a save does to the records. */
  function Saved(rs: seq<Command>, c: Command, size: nat): (r: seq<Command>)
    ensures rs != [] ==> r != []
  {
    if c == [] || (rs != [] && rs[|rs| - 1] == c) then rs else Fit(rs, |c| + 2, size) + [c]
  }

  /** A run of saves, from the single empty record of a fresh area. */
  function SavedAll(cs: seq<Command>, size: nat): (r: seq<Command>)
    ensures r != []
  {
    if cs == [] then [[]] else Saved(SavedAll(cs[..|cs| - 1], size), cs[|cs| - 1], size)
  }

  /** One more command, unless it is empty or repeats the last one. */
  function Extended(r: seq<Command>, c: Command): (k: seq<Command>)
    ensures r != [] ==> k != []
  {
    if c == [] || (r != [] && r[|r| - 1] == c) then r else r + [c]
  }

  /** The empty record, and the commands without empty ones and without adjacent repeats. */
  function Kept(cs: seq<Command>): (r: seq<Command>)
    ensures r != []
  {
    if cs == [] then [[]] else Extended(Kept(cs[..|cs| - 1]), cs[|cs| - 1])
  }

  lemma {:induction false} FitPush(rs: seq<Command>, c: Command, size: nat)
    requires |c| + 2 <= size
    ensures Fit(rs + [c], 0, size) == Fit(rs, |c| + 2, size) + [c]
    decreases |rs|
  {
    CellsAppend(rs, [c]);
    CellsOne(c);
    if rs != [] && |Cells(rs)| + |c| + 2 > size {
      assert (rs + [c])[1..] == rs[1..] + [c];
      FitPush(rs[1..], c, size);
    } else if rs == [] {
      assert rs + [c] == [c];
    }
  }

  lemma FreshFits(size: nat)
    requires size >= 2
    ensures Fit([[]], 0, size) == [[]]
  {
    CellsOne([]);
  }

  /** One save on the longest suffix gives the longest suffix of the longer list. */
  lemma SavedSuffix(r: seq<Command>, k: seq<Command>, c: Command, size: nat)
    requires r != [] && k != [] && r == Fit(k, 0, size) && r[|r| - 1] == k[|k| - 1] && |c| + 2 <= size
    ensures Saved(r, c, size) == Fit(Extended(k, c), 0, size)
    ensures Saved(r, c, size)[|Saved(r, c, size)| - 1] == Extended(k, c)[|Extended(k, c)| - 1]
  {
    hide Cells, Fit;
    if c != [] && k[|k| - 1] != c {
      FitPush(k, c, size);
      FitAgain(k, 0, |c| + 2, size);
    }
  }

  /** After any run of saves the area holds the longest suffix of the kept commands for which there is room. */
  lemma {:induction false} HistoryIsSuffix(cs: seq<Command>, size: nat)
    requires size >= 2 && forall k :: 0 <= k < |cs| ==> |cs[k]| + 2 <= size
    ensures SavedAll(cs, size) == Fit(Kept(cs), 0, size)
    ensures SavedAll(cs, size)[|SavedAll(cs, size)| - 1] == Kept(cs)[|Kept(cs)| - 1]
  {
    hide Cells, Fit, Saved, Extended;
    if cs == [] {
      FreshFits(size);
    } else {
      var front := cs[..|cs| - 1];
      HistoryIsSuffix(front, size);
      SavedSuffix(SavedAll(front, size), Kept(front), cs[|cs| - 1], size);
    }
  }
}
