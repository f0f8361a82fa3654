/** generateMTFValues: move-to-front with zero runs, reading the sort order from arr1 and writing 16-bit symbols
    over it in the same buffer. */
module MtfGeneration {
  import opened Limits
  import opened Numbers
  import opened MoveToFront
  import opened Rotations
  import opened InverseBwt

  // ----- two 16-bit values in a 32-bit word -----

  function Half(w: word, upper: bool): (h: nat)
    ensures h < 0x1_0000
  {
    if upper then w / 0x1_0000 else w % 0x1_0000
  }

  function WithHalf(w: word, upper: bool, h: nat): (r: word)
    requires h < 0x1_0000
    ensures Half(r, upper) == h && Half(r, !upper) == Half(w, !upper)
  {
    if upper then w % 0x1_0000 + 0x1_0000 * h else w / 0x1_0000 * 0x1_0000 + h
  }

  /** Entry k of the buffer seen as an array of 16-bit values. */
  function Mtfv(arr1: seq<word>, k: nat): nat
    requires k / 2 < |arr1|
  {
    Half(arr1[k / 2], k % 2 == 1)
  }

  /** Its first n entries. */
  function Symbols(arr1: seq<word>, n: nat): (s: seq<nat>)
    requires n <= 2 * |arr1|
    ensures |s| == n
  {
    seq(n, k requires 0 <= k < n => Mtfv(arr1, k))
  }

  /** mtfv[k] = v: entry k changes, the other half of its word and all other words stay. */
  method SetMtfv(arr1: array<word>, k: nat, v: nat)
    requires k / 2 < arr1.Length && v < 0x1_0000
    modifies arr1
    ensures forall i :: 0 <= i < 2 * arr1.Length ==> Mtfv(arr1[..], i) == if i == k then v else old(Mtfv(arr1[..], i))
    ensures forall w :: 0 <= w < arr1.Length && w != k / 2 ==> arr1[w] == old(arr1[w])
  {
    hide Half, WithHalf;
    ghost var a := arr1[..];
    arr1[k / 2] := WithHalf(arr1[k / 2], k % 2 == 1, v);
    assert arr1[..] == a[k / 2 := WithHalf(a[k / 2], k % 2 == 1, v)];
    forall i | 0 <= i < 2 * arr1.Length ensures Mtfv(arr1[..], i) == if i == k then v else Mtfv(a, i) {
      if i / 2 == k / 2 && i != k {
        assert (i % 2 == 1) == !(k % 2 == 1);
      }
    }
  }

  /** freq holds the symbol counts of out. */
  ghost predicate Counted(freq: seq<int>, out: seq<nat>) {
    forall c: nat :: c < |freq| ==> freq[c] == Count(out, c)
  }

  lemma CountNext(freq: seq<int>, out: seq<nat>, v: nat)
    requires Counted(freq, out) && v < |freq|
    ensures Counted(freq[v := freq[v] + 1], out + [v])
  {
    assert (out + [v])[..|out|] == out;
  }

  /** The words behind the first n symbols still hold the sort order. */
  ghost predicate Unread(arr1: seq<word>, ptr: seq<int>, n: nat) {
    |ptr| <= |arr1| && forall w :: 0 <= w < |ptr| && 2 * w >= n ==> arr1[w] == ptr[w]
  }

  /** Append one symbol and count it. */
  method Emit(arr1: array<word>, mtfFreq: array<int>, wr: nat, v: nat, ghost out: seq<nat>)
    requires wr / 2 < arr1.Length && v < mtfFreq.Length <= 0x1_0000 && |out| == wr && out == Symbols(arr1[..], wr)
    requires Counted(mtfFreq[..], out)
    modifies arr1, mtfFreq
    ensures Symbols(arr1[..], wr + 1) == out + [v]
    ensures Counted(mtfFreq[..], out + [v])
    ensures forall w :: 0 <= w < arr1.Length && w != wr / 2 ==> arr1[w] == old(arr1[w])
  {
    hide Mtfv, Counted;
    SetMtfv(arr1, wr, v);
    ghost var f := mtfFreq[..];
    CountNext(f, out, v);
    mtfFreq[v] := mtfFreq[v] + 1;
    assert mtfFreq[..] == f[v := f[v] + 1];
  }

  lemma ZeroRunStep(done: seq<nat>, p: nat, v: nat)
    requires v == if p % 2 == 1 then RUNB else RUNA
    ensures done + ZeroRun(p + 1) == done + [v] + ZeroRun(p / 2)
    ensures p < 2 ==> done + ZeroRun(p + 1) == done + [v]
  {
    ZeroRunDigit(p + 1);
    hide ZeroRun;
    assert done + [v] + ZeroRun(p / 2) == done + ([v] + ZeroRun(p / 2));
    if p < 2 {
      assert ZeroRun(p / 2) == [] by {
        ZeroRunDigit(p / 2);
      }
    }
  }

  lemma ZeroRunDigit(z: nat)
    ensures ZeroRun(z) == if z == 0 then [] else [if z % 2 == 1 then RUNA else RUNB] + ZeroRun((z - 1) / 2)
  {
  }

  lemma NoZeroRun(out: seq<nat>)
    ensures out + ZeroRun(0) == out
  {
  }

  /** The digits of the pending zero run. */
  method EmitZeroRun(arr1: array<word>, mtfFreq: array<int>, wr: nat, zPend: nat, ghost out: seq<nat>) returns (next: nat)
    requires wr + zPend <= 2 * arr1.Length && 2 <= mtfFreq.Length <= 0x1_0000
    requires |out| == wr && out == Symbols(arr1[..], wr)
    requires Counted(mtfFreq[..], out)
    modifies arr1, mtfFreq
    ensures wr <= next <= wr + zPend && Symbols(arr1[..], next) == out + ZeroRun(zPend)
    ensures Counted(mtfFreq[..], out + ZeroRun(zPend))
    ensures forall w :: 0 <= w < arr1.Length && 2 * w >= next ==> arr1[w] == old(arr1[w])
  {
    hide Counted, ZeroRun, Symbols, Mtfv;
    next := wr;
    if zPend > 0 {
      var p: nat := zPend - 1;
      ghost var done := out;
      while true
        invariant wr <= next && next + p + 1 <= wr + zPend && |done| == next && done == Symbols(arr1[..], next)
        invariant Counted(mtfFreq[..], done)
        invariant done + ZeroRun(p + 1) == out + ZeroRun(zPend)
        invariant forall w :: 0 <= w < arr1.Length && 2 * w >= next ==> arr1[w] == old(arr1[w])
        decreases p
      {
        var v := if p % 2 == 1 then RUNB else RUNA;
        Emit(arr1, mtfFreq, next, v, done);
        ZeroRunStep(done, p, v);
        done := done + [v];
        next := next + 1;
        if p < 2 {
          break;
        }
        p := (p - 2) / 2;
      }
    } else {
      NoZeroRun(out);
    }
  }

  lemma FirstIndex(list: seq<byte>, x: byte, j: nat)
    requires x in list && j <= IndexOf(list, x) && list[j] == x
    ensures j == IndexOf(list, x)
  {
    var want := IndexOf(list, x);
    assert forall k :: 0 <= k < want ==> list[..want][k] == list[k];
  }

  /** Search for x from the second place on while shifting what is passed over up by one, then put x in front. */
  method BringToFront(yy: array<byte>, m: nat, x: byte) returns (j: nat)
    requires m <= yy.Length && x in yy[..m] && yy[0] != x
    modifies yy
    ensures j == old(IndexOf(yy[..m], x)) && yy[..m] == old(ToFront(yy[..m], IndexOf(yy[..m], x)))
  {
    ghost var list := yy[..m];
    ghost var want := IndexOf(list, x);
    var rtmp := yy[1];
    yy[1] := yy[0];
    j := 1;
    while x != rtmp
      invariant 1 <= j <= want < m && rtmp == list[j] && yy[0] == list[0]
      invariant forall k :: 1 <= k <= j ==> yy[k] == list[k - 1]
      invariant forall k :: j < k < m ==> yy[k] == list[k]
      decreases m - j
    {
      j := j + 1;
      var rtmp2 := rtmp;
      rtmp := yy[j];
      yy[j] := rtmp2;
    }
    FirstIndex(list, x, j);
    yy[0] := rtmp;
    assert yy[..m] == ToFront(list, j);
  }

  method InitialList(m: nat) returns (yy: array<byte>)
    requires m <= 256
    ensures fresh(yy) && yy.Length == 256 && yy[..m] == Identity(m)
  {
    yy := new byte[256];
    for i := 0 to m
      invariant forall k :: 0 <= k < i ==> yy[k] == k
    {
      yy[i] := i;
    }
  }

  ghost predicate Mapped(inUse: seq<bool>, unseqToSeq: seq<byte>) {
    |inUse| == |unseqToSeq| == 256 && forall c: byte :: inUse[c] ==> unseqToSeq[c] == RankOf(inUse, c)
  }

  /** makeMaps_e: number the used byte values. */
  method MakeMaps(inUse: seq<bool>) returns (nInUse: nat, unseqToSeq: array<byte>)
    requires |inUse| == 256
    ensures fresh(unseqToSeq) && unseqToSeq.Length == 256 && nInUse == |UsedBytes(inUse, 256)|
    ensures Mapped(inUse, unseqToSeq[..])
  {
    unseqToSeq := new byte[256];
    nInUse := 0;
    for i := 0 to 256
      invariant nInUse == |UsedBytes(inUse, i)|
      invariant forall c: byte :: c < i && inUse[c] ==> unseqToSeq[c] == RankOf(inUse, c)
    {
      if inUse[i] {
        unseqToSeq[i] := nInUse;
        nInUse := nInUse + 1;
      }
    }
  }

  /** The byte before row i's first byte, as the loop finds it. */
  lemma PreviousByte(block: seq<byte>, ptr: seq<int>, i: nat)
    requires block != [] && |ptr| == |block| && (forall r :: 0 <= r < |ptr| ==> 0 <= ptr[r] < |block|) && i < |block|
    ensures var j := if ptr[i] - 1 < 0 then ptr[i] - 1 + |block| else ptr[i] - 1;
      0 <= j < |block| && LastColumn(block, ptr)[i] == block[j]
  {
    if ptr[i] == 0 {
      DivUnique(ptr[i] + |block| - 1, |block|, 0, |block| - 1);
    } else {
      DivUnique(ptr[i] + |block| - 1, |block|, 1, ptr[i] - 1);
    }
  }

  /** What has been sent and what is left to send make up the whole. */
  ghost predicate Sending(out: seq<nat>, xs: seq<byte>, yy: seq<byte>, zPend: nat, whole: seq<nat>) {
    && yy != [] && (forall k :: 0 <= k < |xs| ==> xs[k] in yy)
    && out + MtfSymbols(xs, yy, zPend) == whole
  }

  lemma SendPending(out: seq<nat>, xs: seq<byte>, yy: seq<byte>, zPend: nat, whole: seq<nat>)
    requires Sending(out, xs, yy, zPend, whole) && xs != [] && yy[0] == xs[0]
    ensures Sending(out, xs[1..], yy, zPend + 1, whole)
  {
  }

  lemma SendSymbol(out: seq<nat>, xs: seq<byte>, yy: seq<byte>, zPend: nat, whole: seq<nat>)
    requires Sending(out, xs, yy, zPend, whole) && xs != [] && yy[0] != xs[0]
    ensures var j := IndexOf(yy, xs[0]);
      Sending(out + ZeroRun(zPend) + [j + 1], xs[1..], ToFront(yy, j), 0, whole)
  {
    var j := IndexOf(yy, xs[0]);
    ToFrontKeepsEntries(yy, j);
    assert out + (ZeroRun(zPend) + [j + 1] + MtfSymbols(xs[1..], ToFront(yy, j), 0))
        == out + ZeroRun(zPend) + [j + 1] + MtfSymbols(xs[1..], ToFront(yy, j), 0);
  }

  lemma SendNothing(out: seq<nat>, yy: seq<byte>, zPend: nat, whole: seq<nat>)
    requires Sending(out, [], yy, zPend, whole)
    ensures out + ZeroRun(zPend) == whole
  {
  }

  /** Emit the pending run and the list position of x. */
  method EmitPosition(arr1: array<word>, mtfFreq: array<int>, yy: array<byte>, m: nat, wr: nat, zPend: nat, x: byte, ghost out: seq<nat>)
    returns (next: nat)
    requires m <= yy.Length && m <= 256 && x in yy[..m] && yy[0] != x
    requires wr + zPend < 2 * arr1.Length && m + 2 == mtfFreq.Length
    requires |out| == wr && out == Symbols(arr1[..], wr)
    requires Counted(mtfFreq[..], out)
    modifies arr1, mtfFreq, yy
    ensures wr <= next <= wr + zPend + 1
    ensures var j := old(IndexOf(yy[..m], x));
      && Symbols(arr1[..], next) == out + ZeroRun(zPend) + [j + 1]
      && yy[..m] == old(ToFront(yy[..m], IndexOf(yy[..m], x)))
      && Counted(mtfFreq[..], out + ZeroRun(zPend) + [j + 1])
    ensures forall w :: 0 <= w < arr1.Length && 2 * w >= next ==> arr1[w] == old(arr1[w])
  {
    hide Mtfv, Counted, ZeroRun, IndexOf, ToFront;
    next := EmitZeroRun(arr1, mtfFreq, wr, zPend, out);
    var j := BringToFront(yy, m, x);
    Emit(arr1, mtfFreq, next, j + 1, out + ZeroRun(zPend));
    next := next + 1;
  }

  /** Rows below i are done: out has been written over the words of the buffer that are no longer needed. */
  ghost predicate Progress(arr1: seq<word>, freq: seq<int>, yy: seq<byte>, ptr: seq<int>, xs: seq<byte>, whole: seq<nat>,
                           i: nat, wr: nat, zPend: nat, out: seq<nat>) {
    && i <= |xs| == |ptr| <= |arr1| && wr + zPend <= i && |out| == wr && out == Symbols(arr1, wr)
    && Counted(freq, out) && Unread(arr1, ptr, wr) && Sending(out, xs[i..], yy, zPend, whole)
  }

  lemma StillUnread(a: seq<word>, arr1: seq<word>, ptr: seq<int>, wr: nat, next: nat)
    requires Unread(a, ptr, wr) && wr <= next && |arr1| == |a|
    requires forall w :: 0 <= w < |a| && 2 * w >= next ==> arr1[w] == a[w]
    ensures Unread(arr1, ptr, next)
  {
  }

  /** The loop body for row i, given the rank of the byte before it. */
  method SendRow(arr1: array<word>, mtfFreq: array<int>, yy: array<byte>, m: nat, wr: nat, zPend: nat, ll_i: byte,
                 ghost ptr: seq<int>, ghost xs: seq<byte>, ghost whole: seq<nat>, ghost i: nat, ghost out: seq<nat>)
    returns (wr': nat, zPend': nat, ghost out': seq<nat>)
    requires m <= yy.Length && m <= 256 && m + 2 == mtfFreq.Length && i < |xs| && xs[i] == ll_i
    requires Progress(arr1[..], mtfFreq[..], yy[..m], ptr, xs, whole, i, wr, zPend, out)
    modifies arr1, mtfFreq, yy
    ensures Progress(arr1[..], mtfFreq[..], yy[..m], ptr, xs, whole, i + 1, wr', zPend', out')
  {
    hide Mtfv, Counted, ZeroRun, IndexOf, ToFront, MtfSymbols, Symbols, Unread;
    ghost var list, a := yy[..m], arr1[..];
    assert xs[i..][0] == ll_i && xs[i..][1..] == xs[i + 1..];
    SendingMeans(out, xs[i..], list, zPend, whole);
    if yy[0] == ll_i {
      SendPending(out, xs[i..], list, zPend, whole);
      wr', zPend', out' := wr, zPend + 1, out;
    } else {
      SendSymbol(out, xs[i..], list, zPend, whole);
      wr' := EmitPosition(arr1, mtfFreq, yy, m, wr, zPend, ll_i, out);
      StillUnread(a, arr1[..], ptr, wr, wr');
      zPend' := 0;
      out' := out + ZeroRun(zPend) + [IndexOf(list, ll_i) + 1];
      assert Symbols(arr1[..], wr') == out';
    }
  }

  lemma SendingMeans(out: seq<nat>, xs: seq<byte>, yy: seq<byte>, zPend: nat, whole: seq<nat>)
    requires Sending(out, xs, yy, zPend, whole) && xs != []
    ensures xs[0] in yy && yy != []
  {
  }

  /** Rank of the byte before row i. */
  method RankBefore(arr1: array<word>, block: array<byte>, nblock: nat, unseqToSeq: array<byte>, i: nat,
                    ghost ptr: seq<int>, ghost inUse: seq<bool>, ghost wr: nat) returns (ll_i: byte)
    requires i < nblock <= block.Length && |ptr| == nblock && wr <= i && Unread(arr1[..], ptr, wr)
    requires unseqToSeq.Length == 256 && Mapped(inUse, unseqToSeq[..])
    requires forall r :: 0 <= r < nblock ==> 0 <= ptr[r] < nblock
    requires forall k :: 0 <= k < nblock ==> inUse[block[k]]
    ensures ll_i == Ranks(LastColumn(block[..nblock], ptr), inUse)[i]
  {
    hide RankOf, At;
    PreviousByte(block[..nblock], ptr, i);
    var j: int := arr1[i] as int - 1;
    if j < 0 {
      j := j + nblock;
    }
    ll_i := unseqToSeq[block[j]];
  }

  /** What the sort order and the block determine. */
  ghost predicate Sendable(block: seq<byte>, ptr: seq<int>, inUse: seq<bool>) {
    && block != [] && |ptr| == |block| && |inUse| == 256
    && (forall r :: 0 <= r < |ptr| ==> 0 <= ptr[r] < |block|)
    && forall k :: 0 <= k < |block| ==> inUse[block[k]]
  }

  lemma ColumnUsed(block: seq<byte>, ptr: seq<int>, inUse: seq<bool>)
    requires Sendable(block, ptr, inUse)
    ensures forall k :: 0 <= k < |block| ==> inUse[LastColumn(block, ptr)[k]]
  {
    forall k | 0 <= k < |block| ensures inUse[LastColumn(block, ptr)[k]] {
      PreviousByte(block, ptr, k);
    }
  }

  ghost function SentSymbols(block: seq<byte>, ptr: seq<int>, inUse: seq<bool>): seq<nat>
    requires Sendable(block, ptr, inUse)
  {
    ColumnUsed(block, ptr, inUse);
    BlockSymbols(LastColumn(block, ptr), inUse)
  }

  lemma StartProgress(arr1: seq<word>, freq: seq<int>, block: seq<byte>, ptr: seq<int>, inUse: seq<bool>, m: nat, whole: seq<nat>)
    requires Sendable(block, ptr, inUse) && |block| <= |arr1| && arr1[..|block|] == ptr
    requires m == |UsedBytes(inUse, 256)| && (forall c :: 0 <= c < |freq| ==> freq[c] == 0)
    requires whole + [m + 1] == SentSymbols(block, ptr, inUse)
    ensures m > 0 && Progress(arr1, freq, Identity(m), ptr, Ranks(LastColumn(block, ptr), inUse), whole, 0, 0, 0, [])
  {
    hide MtfSymbols, At, UsedBytes;
    var col := LastColumn(block, ptr);
    var xs := Ranks(col, inUse);
    ColumnUsed(block, ptr, inUse);
    RanksInList(col, inUse);
    NothingCounted(freq);
    assert whole == SentSymbols(block, ptr, inUse)[..|SentSymbols(block, ptr, inUse)| - 1];
    assert xs[0..] == xs;
    forall w | 0 <= w < |ptr| ensures arr1[w] == ptr[w] {
      assert arr1[..|block|][w] == arr1[w];
    }
  }

  /** generateMTFValues. A word of arr1 is overwritten only after the sort position it held has been used. */
  method GenerateMtfValues(arr1: array<word>, block: array<byte>, nblock: nat, inUse: seq<bool>)
    returns (nMTF: nat, nInUse: nat, mtfFreq: array<int>)
    requires nblock <= block.Length && nblock <= arr1.Length && Sendable(block[..nblock], arr1[..nblock], inUse)
    modifies arr1
    ensures nInUse == |UsedBytes(inUse, 256)| && 1 <= nInUse
    ensures nMTF <= 2 * arr1.Length && 1 <= nMTF <= nblock + 1
    ensures Symbols(arr1[..], nMTF) == old(SentSymbols(block[..nblock], arr1[..nblock], inUse))
    ensures fresh(mtfFreq) && mtfFreq.Length == nInUse + 2
    ensures Counted(mtfFreq[..], Symbols(arr1[..], nMTF))
  {
    hide *;
    ghost var b, ptr := block[..nblock], arr1[..nblock];
    SendableMeans(b, ptr, inUse);
    ghost var sent, xs := SentSymbols(b, ptr, inUse), Ranks(LastColumn(b, ptr), inUse);
    var unseqToSeq;
    nInUse, unseqToSeq := MakeMaps(inUse);
    var EOB := nInUse + 1;
    mtfFreq := new int[nInUse + 2](i => 0);
    SentEnds(b, ptr, inUse);
    ghost var whole := sent[..|sent| - 1];
    StartProgress(arr1[..], mtfFreq[..], b, ptr, inUse, nInUse, whole);
    var yy := InitialList(nInUse);
    ghost var out: seq<nat> := [];
    var wr, zPend := 0, 0;
    for i := 0 to nblock
      invariant fresh(mtfFreq) && fresh(yy) && fresh(unseqToSeq) && yy != unseqToSeq
      invariant mtfFreq.Length == nInUse + 2 && yy.Length == 256 && unseqToSeq.Length == 256 && block[..nblock] == b
      invariant Mapped(inUse, unseqToSeq[..])
      invariant Progress(arr1[..], mtfFreq[..], yy[..nInUse], ptr, xs, whole, i, wr, zPend, out)
    {
      ProgressMeans(arr1[..], mtfFreq[..], yy[..nInUse], ptr, xs, whole, i, wr, zPend, out);
      var ll_i := RankBefore(arr1, block, nblock, unseqToSeq, i, ptr, inUse, wr);
      wr, zPend, out := SendRow(arr1, mtfFreq, yy, nInUse, wr, zPend, ll_i, ptr, xs, whole, i, out);
    }
    ProgressMeans(arr1[..], mtfFreq[..], yy[..nInUse], ptr, xs, whole, nblock, wr, zPend, out);
    wr := EmitZeroRun(arr1, mtfFreq, wr, zPend, out);
    Emit(arr1, mtfFreq, wr, EOB, whole);
    nMTF := wr + 1;
  }

  lemma SendableMeans(block: seq<byte>, ptr: seq<int>, inUse: seq<bool>)
    requires Sendable(block, ptr, inUse)
    ensures block != [] && |ptr| == |block| && |inUse| == 256
    ensures forall r :: 0 <= r < |ptr| ==> 0 <= ptr[r] < |block|
    ensures forall k :: 0 <= k < |block| ==> inUse[block[k]]
  {
  }

  lemma SentEnds(block: seq<byte>, ptr: seq<int>, inUse: seq<bool>)
    requires Sendable(block, ptr, inUse)
    ensures var sent := SentSymbols(block, ptr, inUse);
      sent != [] && sent == sent[..|sent| - 1] + [|UsedBytes(inUse, 256)| + 1]
  {
    ColumnUsed(block, ptr, inUse);
    RanksInList(LastColumn(block, ptr), inUse);
  }

  lemma ProgressMeans(arr1: seq<word>, freq: seq<int>, yy: seq<byte>, ptr: seq<int>, xs: seq<byte>, whole: seq<nat>,
                      i: nat, wr: nat, zPend: nat, out: seq<nat>)
    requires Progress(arr1, freq, yy, ptr, xs, whole, i, wr, zPend, out)
    ensures wr + zPend <= i <= |arr1| && |out| == wr && out == Symbols(arr1, wr) && Counted(freq, out) && Unread(arr1, ptr, wr)
    ensures i == |xs| ==> out + ZeroRun(zPend) == whole
  {
    if i == |xs| {
      assert xs[i..] == [];
      SendNothing(out, yy, zPend, whole);
    }
  }

  lemma NothingCounted(freq: seq<int>)
    requires forall c :: 0 <= c < |freq| ==> freq[c] == 0
    ensures Counted(freq, [])
  {
  }
}
