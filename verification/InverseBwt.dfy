/** The inverse Burrows-Wheeler transform: walking the counting-sort map between the last and the
    first column, and the proof that the walk from origPtr spells the block. */
module InverseBwt {
  import opened Numbers
  import opened CountingSort
  import opened Rotations

  /** The row reached from row o after k steps along link. */
  ghost function Row(link: seq<int>, o: int, k: nat): (r: int)
    requires 0 <= o < |link| && forall r :: 0 <= r < |link| ==> 0 <= link[r] < |link|
    ensures 0 <= r < |link|
  {
    if k == 0 then o else link[Row(link, o, k - 1)]
  }

  /** The last column of the sorted rotations. */
  function LastColumn(b: seq<byte>, ptr: seq<int>): (col: seq<byte>)
    requires b != [] && |ptr| == |b| && forall r :: 0 <= r < |b| ==> 0 <= ptr[r] < |b|
    ensures |col| == |b|
    ensures forall r :: 0 <= r < |b| ==> col[r] == At(b, ptr[r] + |b| - 1)
  {
    seq<byte>(|b|, r requires 0 <= r < |b| => At(b, ptr[r] + |b| - 1))
  }

  /** Prefixing every row by its last byte and re-sorting by that byte permutes the sorted rows onto themselves. */
  lemma RotatedOrderSorted(b: seq<byte>, ptr: seq<int>, link: seq<int>, q: seq<int>)
    requires SortedRotations(b, ptr) && IsUnrank(LastColumn(b, ptr), link)
    requires |q| == |b| && forall r :: 0 <= r < |b| ==> q[r] == (ptr[link[r]] + |b| - 1) % |b|
    ensures SortedRotations(b, q)
  {
    hide At, LexLess, Rank;
    var n := |b|;
    var col := LastColumn(b, ptr);
    forall r, s | 0 <= r < s < n
      ensures q[r] != q[s]
    {
      assert link[r] != link[s];
      if q[r] == q[s] {
        SamePredecessor(ptr[link[r]], ptr[link[s]], n);
      }
    }
    forall r, s | 0 <= r < s < n
      ensures PrefixLeq(b, q[r], q[s], n)
    {
      var i, j := link[r], link[s];
      assert Rank(col, i) == r && Rank(col, j) == s;
      if col[j] < col[i] || (col[j] == col[i] && j < i) {
        RankMonotone(col, j, i);
      }
      assert i < j ==> PrefixLeq(b, ptr[i], ptr[j], n);
      EarlierRowsOrdered(b, ptr[i], ptr[j]);
    }
  }

  lemma EarlierRowsOrdered(b: seq<byte>, x: nat, y: nat)
    requires b != [] && x < |b| && y < |b|
    requires At(b, x + |b| - 1) <= At(b, y + |b| - 1)
    requires At(b, x + |b| - 1) == At(b, y + |b| - 1) ==> PrefixLeq(b, x, y, |b|)
    ensures PrefixLeq(b, (x + |b| - 1) % |b|, (y + |b| - 1) % |b|, |b|)
  {
    hide At;
    var n := |b|;
    RowBehindItsLastByte(b, x);
    RowBehindItsLastByte(b, y);
    WindowSplit(b, x, n - 1, 1);
    WindowSplit(b, y, n - 1, 1);
    var u, v := Window(b, x, n - 1), Window(b, y, n - 1);
    LexAppend(u, Window(b, x + n - 1, 1), v, Window(b, y + n - 1, 1));
    if At(b, x + n - 1) == At(b, y + n - 1) && Window(b, x, n) == Window(b, y, n) {
      assert u == Window(b, x, n)[..n - 1] && v == Window(b, y, n)[..n - 1];
    }
    LexAppend([At(b, x + n - 1)], u, [At(b, y + n - 1)], v);
  }

  lemma SamePredecessor(x: nat, y: nat, n: nat)
    requires x < n && y < n && (x + n - 1) % n == (y + n - 1) % n
    ensures x == y
  {
    if x == 0 {
      DivUnique(x + n - 1, n, 0, n - 1);
    } else {
      DivUnique(x + n - 1, n, 1, x - 1);
    }
    if y == 0 {
      DivUnique(y + n - 1, n, 0, n - 1);
    } else {
      DivUnique(y + n - 1, n, 1, y - 1);
    }
  }

  /** The row one step earlier is the last byte of row i followed by the rest of row i. */
  lemma RowBehindItsLastByte(b: seq<byte>, i: nat)
    requires b != [] && i < |b|
    ensures Window(b, (i + |b| - 1) % |b|, |b|) == [At(b, i + |b| - 1)] + Window(b, i, |b| - 1)
  {
    var n := |b|;
    var j := (i + n - 1) % n;
    forall k | 0 <= k < n
      ensures Window(b, j, n)[k] == ([At(b, i + n - 1)] + Window(b, i, n - 1))[k]
    {
      CellBehind(b, i, k);
    }
  }

  lemma CellBehind(b: seq<byte>, i: nat, k: nat)
    requires b != [] && i < |b| && k < |b|
    ensures At(b, (i + |b| - 1) % |b| + k) == if k == 0 then At(b, i + |b| - 1) else At(b, i + (k - 1))
  {
    AtWrap(b, k, i + |b| - 1);
    hide At;
    assert k + (i + |b| - 1) % |b| == (i + |b| - 1) % |b| + k;
    if k > 0 {
      AtTurn(b, i + k - 1);
      assert i + k - 1 + |b| == k + (i + |b| - 1);
    }
  }

  lemma AtTurn(b: seq<byte>, i: nat)
    requires b != []
    ensures At(b, i + |b|) == At(b, i)
  {
    AtWrap(b, i, |b|);
    DivUnique(|b|, |b|, 1, 0);
  }

  /** One step along link turns a row by one place, as a string. */
  lemma LinkStep(b: seq<byte>, ptr: seq<int>, link: seq<int>, r: nat, m: nat)
    requires SortedRotations(b, ptr) && IsUnrank(LastColumn(b, ptr), link) && r < |b|
    ensures At(b, ptr[link[r]] + m) == At(b, ptr[r] + 1 + m)
  {
    var n := |b|;
    var q := seq(n, s requires 0 <= s < n => (ptr[link[s]] + n - 1) % n);
    RotatedOrderSorted(b, ptr, link, q);
    SortedOrdersAgree(b, ptr, q, n, r);
    EqualRotationsEverywhere(b, ptr[r], q[r], 1 + m);
    AtWrap(b, 1 + m, ptr[link[r]] + n - 1);
    AtTurn(b, ptr[link[r]] + m);
    assert At(b, q[r] + (1 + m)) == At(b, (1 + m) + (ptr[link[r]] + n - 1));
  }

  /** After k steps from origPtr the row reads like the block turned by k, ties or not. */
  lemma {:induction false} RowSpellsBlock(b: seq<byte>, ptr: seq<int>, link: seq<int>, o: int, k: nat, m: nat)
    requires SortedRotations(b, ptr) && IsUnrank(LastColumn(b, ptr), link)
    requires 0 <= o < |b| && ptr[o] == 0
    ensures At(b, ptr[Row(link, o, k)] + m) == At(b, k + m)
    decreases k
  {
    hide LexLeq, Rank, At;
    if k > 0 {
      var r := Row(link, o, k - 1);
      assert Row(link, o, k) == link[r];
      calc {
        At(b, ptr[link[r]] + m);
        { LinkStep(b, ptr, link, r, m); }
        At(b, ptr[r] + (m + 1));
        { RowSpellsBlock(b, ptr, link, o, k - 1, m + 1); }
        At(b, k + m);
      }
    }
  }

  /** The k-th byte delivered by the decoder: the last-column byte of the row reached after k + 1 steps. */
  ghost function WalkByte(col: seq<byte>, link: seq<int>, o: int, k: nat): byte
    requires IsUnrank(col, link) && 0 <= o < |col|
  {
    col[Row(link, o, k + 1)]
  }

  /** Inverse transform: the walk from origPtr emits the block, cyclically. */
  lemma WalkSpellsBlock(b: seq<byte>, ptr: seq<int>, link: seq<int>, o: int, k: nat)
    requires SortedRotations(b, ptr) && IsUnrank(LastColumn(b, ptr), link)
    requires 0 <= o < |b| && ptr[o] == 0
    ensures WalkByte(LastColumn(b, ptr), link, o, k) == At(b, k)
  {
    hide At, LexLess, Rank;
    RowSpellsBlock(b, ptr, link, o, k + 1, |b| - 1);
    AtTurn(b, k);
    assert k + 1 + (|b| - 1) == k + |b|;
  }
}
