/** Why scanning a finished big bucket sorts other buckets: the rows one place before a sorted list of rows are
    sorted too, and runs of the bucket's own byte are reached from both ends. */
module InducedOrder {
  import opened Numbers
  import opened Permutations
  import opened Rotations
  import opened FallbackOrder
  import opened MainOrder
  import opened WordBuckets

  ghost predicate RowsIn(b: seq<byte>, s: seq<int>) {
    forall i :: 0 <= i < |s| ==> 0 <= s[i] < |b|
  }

  /** The row one place before row r. */
  function Previous(r: int, n: nat): int {
    Before(r, 1, n)
  }

  lemma PreviousMeans(b: seq<byte>, r: int)
    requires 0 <= r < |b|
    ensures 0 <= Previous(r, |b|) < |b| && (Previous(r, |b|) + 1) % |b| == r
    ensures forall q :: 0 <= q < |b| && Previous(q, |b|) == Previous(r, |b|) ==> q == r
  {
    BeforeWraps(r, 1, |b|);
  }

  /** Bytes from the row before on. */
  lemma PreviousAt(b: seq<byte>, r: int, i: nat)
    requires 0 <= r < |b|
    ensures 0 <= Previous(r, |b|) < |b|
    ensures At(b, Previous(r, |b|)) == b[Previous(r, |b|)] && At(b, Previous(r, |b|) + 1 + i) == At(b, r + i)
  {
    PreviousMeans(b, r);
    var p := Previous(r, |b|);
    DivUnique(p, |b|, 0, p);
    ModAdd(i, p + 1, |b|);
  }

  /** The rows before those of s, as far as they begin with t. */
  ghost function Preds(b: seq<byte>, s: seq<int>, t: byte): (r: seq<int>)
    requires RowsIn(b, s)
    ensures |r| <= |s|
  {
    if s == [] then [] else
      var k := Previous(s[|s| - 1], |b|);
      PreviousMeans(b, s[|s| - 1]);
      Preds(b, s[..|s| - 1], t) + if b[k] == t then [k] else []
  }

  lemma PredsNext(b: seq<byte>, s: seq<int>, r: int, t: byte)
    requires RowsIn(b, s) && 0 <= r < |b|
    ensures RowsIn(b, s + [r]) && 0 <= Previous(r, |b|) < |b|
    ensures Preds(b, s + [r], t) == Preds(b, s, t) + if b[Previous(r, |b|)] == t then [Previous(r, |b|)] else []
  {
    PreviousMeans(b, r);
    assert (s + [r])[..|s|] == s;
  }

  lemma AppendRows(b: seq<byte>, s: seq<int>, u: seq<int>)
    requires RowsIn(b, s) && RowsIn(b, u)
    ensures RowsIn(b, s + u)
    ensures u != [] ==> RowsIn(b, u[..|u| - 1]) && 0 <= u[|u| - 1] < |b|
  {
  }

  lemma PredsNone(b: seq<byte>, t: byte)
    ensures RowsIn(b, []) && Preds(b, [], t) == []
  {
  }

  lemma {:induction false} PredsAppend(b: seq<byte>, s: seq<int>, u: seq<int>, t: byte)
    requires RowsIn(b, s) && RowsIn(b, u)
    ensures RowsIn(b, s + u) && Preds(b, s + u, t) == Preds(b, s, t) + Preds(b, u, t)
  {
    hide Previous, RowsIn, Preds;
    AppendRows(b, s, u);
    if u == [] {
      assert s + u == s;
      PredsNone(b, t);
    } else {
      var v, r := u[..|u| - 1], u[|u| - 1];
      PredsAppend(b, s, v, t);
      PredsNext(b, s + v, r, t);
      PredsNext(b, v, r, t);
      assert v + [r] == u && s + v + [r] == s + u;
    }
  }

  lemma PredsFirst(b: seq<byte>, r: int, s: seq<int>, t: byte)
    requires RowsIn(b, s) && 0 <= r < |b|
    ensures RowsIn(b, [r] + s) && 0 <= Previous(r, |b|) < |b|
    ensures Preds(b, [r] + s, t) == (if b[Previous(r, |b|)] == t then [Previous(r, |b|)] else []) + Preds(b, s, t)
  {
    PredsNext(b, [], r, t);
    assert [] + [r] == [r];
    PredsAppend(b, [r], s, t);
  }

  /** Where an entry of Preds comes from. */
  lemma {:induction false} PredsFrom(b: seq<byte>, s: seq<int>, t: byte, q: nat) returns (i: nat)
    requires RowsIn(b, s) && q < |Preds(b, s, t)|
    ensures i < |s| && Preds(b, s, t)[q] == Previous(s[i], |b|) && 0 <= Previous(s[i], |b|) < |b| && b[Previous(s[i], |b|)] == t
  {
    var v := s[..|s| - 1];
    PreviousMeans(b, s[|s| - 1]);
    if q < |Preds(b, v, t)| {
      i := PredsFrom(b, v, t, q);
    } else {
      i := |s| - 1;
    }
  }

  lemma {:induction false} PredsHit(b: seq<byte>, s: seq<int>, t: byte, i: nat)
    requires RowsIn(b, s) && i < |s| && 0 <= Previous(s[i], |b|) < |b| && b[Previous(s[i], |b|)] == t
    ensures Previous(s[i], |b|) in Preds(b, s, t)
  {
    if i < |s| - 1 {
      PredsHit(b, s[..|s| - 1], t, i);
    }
  }

  // ----- sorted lists -----

  ghost predicate InOrder(b: seq<byte>, s: seq<int>) {
    && b != [] && RowsIn(b, s)
    && forall i, j :: 0 <= i < j < |s| ==> RotKeys(b)[s[i]] <= RotKeys(b)[s[j]]
  }

  /** Distinct rows that begin with c, in order. */
  ghost predicate Good(b: seq<byte>, c: byte, s: seq<int>) {
    && InOrder(b, s) && Injective(s)
    && forall i :: 0 <= i < |s| ==> b[s[i]] == c
  }

  /** Of two rows that begin with the same byte, the one whose rest is smaller is smaller. */
  lemma PreviousOrdered(b: seq<byte>, q: int, r: int)
    requires 0 <= q < |b| && 0 <= r < |b| && RotKeys(b)[q] <= RotKeys(b)[r]
    requires 0 <= Previous(q, |b|) < |b| && 0 <= Previous(r, |b|) < |b| && b[Previous(q, |b|)] == b[Previous(r, |b|)]
    ensures RotKeys(b)[Previous(q, |b|)] <= RotKeys(b)[Previous(r, |b|)]
  {
    hide RotKeys, LexLess, At;
    var n := |b|;
    var x, y := Previous(q, n), Previous(r, n);
    PreviousMeans(b, q);
    PreviousMeans(b, r);
    RankOrders(b, q, r);
    WindowWraps(b, x + 1, n);
    WindowWraps(b, y + 1, n);
    PreviousAt(b, q, 0);
    PreviousAt(b, r, 0);
    assert Window(b, x, 1) == Window(b, y, 1);
    SharedPrefix(b, x, y, 1);
    RankOrders(b, x, y);
  }

  lemma PredsOrdered(b: seq<byte>, c: byte, s: seq<int>, t: byte)
    requires Good(b, c, s)
    ensures InOrder(b, Preds(b, s, t)) && RowsWith(Words(b), Preds(b, s, t), 256 * (t as nat) + c)
  {
    hide RotKeys, At, Preds, Previous;
    var p := Preds(b, s, t);
    var w := Words(b);
    forall q | 0 <= q < |p| ensures 0 <= p[q] < |b| && w[p[q]] == 256 * (t as nat) + c {
      var i := PredsFrom(b, s, t, q);
      PreviousAt(b, s[i], 0);
      PreviousAt(b, s[i], 0);
      AtRow(b, s[i]);
    }
    forall x, y | 0 <= x < y < |p| ensures RotKeys(b)[p[x]] <= RotKeys(b)[p[y]] && p[x] != p[y] {
      var i, j := PredsApart(b, s, t, x, y);
      PreviousOrdered(b, s[i], s[j]);
      PreviousMeans(b, s[j]);
    }
  }

  lemma AtRow(b: seq<byte>, r: int)
    requires 0 <= r < |b|
    ensures At(b, r) == b[r]
  {
    DivUnique(r, |b|, 0, r);
  }

  /** Entries of Preds come from entries in the same order. */
  lemma {:induction false} PredsApart(b: seq<byte>, s: seq<int>, t: byte, x: nat, y: nat) returns (i: nat, j: nat)
    requires RowsIn(b, s) && x < y < |Preds(b, s, t)|
    ensures i < j < |s| && Preds(b, s, t)[x] == Previous(s[i], |b|) && Preds(b, s, t)[y] == Previous(s[j], |b|)
    ensures 0 <= Previous(s[i], |b|) < |b| && 0 <= Previous(s[j], |b|) < |b|
    ensures b[Previous(s[i], |b|)] == t && b[Previous(s[j], |b|)] == t
  {
    hide Previous;
    var v := s[..|s| - 1];
    PreviousMeans(b, s[|s| - 1]);
    if y < |Preds(b, v, t)| {
      i, j := PredsApart(b, v, t, x, y);
    } else {
      i := PredsFrom(b, v, t, x);
      j := |s| - 1;
    }
  }

  // ----- runs of the byte c -----

  /** The byte i places behind row r is c. */
  ghost predicate Has(b: seq<byte>, c: byte, r: nat, i: nat)
    requires b != []
  {
    At(b, r + i) == c
  }

  /** The run of c that begins at r has m bytes. */
  ghost predicate RunOf(b: seq<byte>, c: byte, r: nat, m: nat)
    requires b != []
  {
    (forall i: nat :: i < m ==> Has(b, c, r, i)) && !Has(b, c, r, m)
  }

  /** The run of c that begins at row r ends with a smaller byte, or else with a larger one. */
  ghost predicate Leaves(b: seq<byte>, c: byte, r: nat, below: bool)
    requires b != []
  {
    exists m: nat :: RunOf(b, c, r, m) && (below <==> At(b, r + m) < c)
  }

  lemma RunsAgree(b: seq<byte>, c: byte, p: nat, q: nat, t: nat)
    requires b != [] && forall i: nat :: i < t ==> Has(b, c, p, i) && Has(b, c, q, i)
    ensures Agree(b, p, q, t)
  {
    hide At;
    var v, w := Window(b, p, t), Window(b, q, t);
    forall i: nat | i < t ensures v[i] == w[i] {
      assert Has(b, c, p, i) && Has(b, c, q, i);
    }
  }

  /** Runs that end with a smaller byte come before those that end with a larger one. */
  lemma BelowFirst(b: seq<byte>, c: byte, p: nat, q: nat)
    requires p < |b| && q < |b| && Leaves(b, c, p, true) && Leaves(b, c, q, false)
    ensures RotKeys(b)[p] <= RotKeys(b)[q] && p != q
  {
    hide RotKeys, At;
    var m: nat :| RunOf(b, c, p, m) && At(b, p + m) < c;
    var l: nat :| RunOf(b, c, q, l) && At(b, q + l) > c;
    var t := Min(m, l);
    assert m < l ==> Has(b, c, q, m);
    assert l < m ==> Has(b, c, p, l);
    RunsAgree(b, c, p, q, t);
    ByteDecides(b, p, q, t);
    RankOrders(b, p, q);
  }

  lemma HasBefore(b: seq<byte>, c: byte, r: int, i: nat)
    requires 0 <= r < |b|
    ensures 0 <= Previous(r, |b|) < |b| && (Has(b, c, Previous(r, |b|), i + 1) <==> Has(b, c, r, i))
  {
    hide At, Previous;
    PreviousAt(b, r, i);
    assert Previous(r, |b|) + (i + 1) == Previous(r, |b|) + 1 + i;
  }

  /** The run grows by one at the row before. */
  lemma LeavesBefore(b: seq<byte>, c: byte, r: int, below: bool)
    requires 0 <= r < |b| && Leaves(b, c, r, below)
    requires 0 <= Previous(r, |b|) < |b| && b[Previous(r, |b|)] == c
    ensures Leaves(b, c, Previous(r, |b|), below)
  {
    hide At, Previous;
    var p := Previous(r, |b|);
    var m: nat :| RunOf(b, c, r, m) && (below <==> At(b, r + m) < c);
    forall i: nat | i < m + 1 ensures Has(b, c, p, i) {
      if i == 0 {
        PreviousAt(b, r, 0);
      } else {
        HasBefore(b, c, r, i - 1);
      }
    }
    HasBefore(b, c, r, m);
    PreviousAt(b, r, m);
    assert RunOf(b, c, p, m + 1);
  }

  lemma ShortRun(b: seq<byte>, c: byte, r: int)
    requires 0 <= r < |b| && b[r] == c && At(b, r + 1) != c
    ensures Leaves(b, c, r, At(b, r + 1) < c) && RunOf(b, c, r, 1)
  {
    hide At;
    AtRow(b, r);
    assert Has(b, c, r, 0);
    assert RunOf(b, c, r, 1);
  }

  /** If the block has another byte, every run ends. */
  lemma RunEnds(b: seq<byte>, c: byte, r: nat, j: nat) returns (m: nat)
    requires b != [] && At(b, r + j) != c
    ensures RunOf(b, c, r, m)
    decreases j
  {
    hide At;
    if i: nat :| i < j && !Has(b, c, r, i) {
      m := RunEnds(b, c, r, i);
    } else {
      m := j;
    }
  }

  lemma OtherByte(b: seq<byte>, c: byte, r: nat, p: nat)
    requires r < |b| && p < |b| && b[p] != c
    ensures Leaves(b, c, r, true) || Leaves(b, c, r, false)
  {
    var n := |b|;
    var j := if p >= r then p - r else p + n - r;
    if p >= r {
      DivUnique(r + j, n, 0, p);
    } else {
      DivUnique(r + j, n, 1, p);
    }
    hide At;
    var m := RunEnds(b, c, r, j);
    assert At(b, r + m) < c || !(At(b, r + m) < c);
  }

  /** A list that holds the rows with a run of one byte, and with each row of it the row before, holds all. */
  lemma {:induction false} AllReached(b: seq<byte>, c: byte, s: seq<int>, below: bool, r: int, m: nat)
    requires RowsIn(b, s) && 0 <= r < |b| && b[r] == c && RunOf(b, c, r, m) && (below <==> At(b, r + m) < c)
    requires forall q :: 0 <= q < |b| && b[q] == c && At(b, q + 1) != c && (below <==> At(b, q + 1) < c) ==> q in s
    requires forall q :: q in Preds(b, s, c) ==> q in s
    ensures r in s
    decreases m
  {
    hide At, Preds, Previous;
    AtRow(b, r);
    assert Has(b, c, r, 0);
    if m > 1 {
      var q := if r + 1 == |b| then 0 else r + 1;
      NextRow(b, r);
      forall i: nat | i < m - 1 ensures Has(b, c, q, i) {
        HasBefore(b, c, q, i);
      }
      HasBefore(b, c, q, m - 1);
      PreviousAt(b, q, m - 1);
      AtRow(b, q);
      assert Has(b, c, q, 0);
      AllReached(b, c, s, below, q, m - 1);
      var i :| 0 <= i < |s| && s[i] == q;
      PredsHit(b, s, c, i);
    }
  }

  lemma NextRow(b: seq<byte>, r: int)
    requires 0 <= r < |b|
    ensures var q := if r + 1 == |b| then 0 else r + 1; q < |b| && Previous(q, |b|) == r
  {
  }
}
