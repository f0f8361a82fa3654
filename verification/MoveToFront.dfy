/** Move-to-front coding with bijective base-2 zero runs: the symbol stream of a block. */
module MoveToFront {
  import opened Limits
  import opened Numbers

  /** Bring the entry at position j to the front. */
  function ToFront(list: seq<byte>, j: nat): (r: seq<byte>)
    requires j < |list|
    ensures |r| == |list|
  {
    [list[j]] + list[..j] + list[j + 1..]
  }

  function IndexOf(list: seq<byte>, x: byte): (j: nat)
    requires x in list
    ensures j < |list| && list[j] == x && x !in list[..j]
  {
    if list[0] == x then 0 else 1 + IndexOf(list[1..], x)
  }

  /** The digits of a run of z front symbols, least significant first. */
  function ZeroRun(z: nat): seq<nat> {
    if z == 0 then []
    else [if z % 2 == 1 then RUNA else RUNB] + ZeroRun((z - 1) / 2)
  }

  /** What the decoder's es/N loop computes from a run of digits: N is the weight of the next digit. */
  function RunValue(digits: seq<nat>, weight: nat): nat {
    if digits == [] then 0
    else (digits[0] + 1) * weight + RunValue(digits[1..], 2 * weight)
  }

  /** The symbols for the indices xs with the given list, after zPend pending front symbols. */
  function MtfSymbols(xs: seq<byte>, list: seq<byte>, zPend: nat): (r: seq<nat>)
    requires forall k :: 0 <= k < |xs| ==> xs[k] in list
    requires list != []
    decreases |xs|
  {
    if xs == [] then ZeroRun(zPend)
    else if list[0] == xs[0] then MtfSymbols(xs[1..], list, zPend + 1)
    else
      var j := IndexOf(list, xs[0]);
      ToFrontKeepsEntries(list, j);
      ZeroRun(zPend) + [j + 1] + MtfSymbols(xs[1..], ToFront(list, j), 0)
  }

  lemma ToFrontKeepsEntries(list: seq<byte>, j: nat)
    requires j < |list|
    ensures forall x :: x in list <==> x in ToFront(list, j)
    ensures multiset(ToFront(list, j)) == multiset(list)
  {
    assert list == list[..j] + [list[j]] + list[j + 1..];
  }

  /** The list of the first n bytes in order. */
  function Identity(n: nat): (list: seq<byte>)
    requires n <= 256
    ensures |list| == n
  {
    seq<byte>(n, k requires 0 <= k < n => k)
  }

  /** The digits sent for a zero run decode to its length. */
  lemma {:induction false} ZeroRunDecodes(z: nat, weight: nat)
    ensures RunValue(ZeroRun(z), weight) == z * weight
    decreases z
  {
    if z > 0 {
      var h := (z - 1) / 2;
      var d := if z % 2 == 1 then RUNA else RUNB;
      ZeroRunDecodes(h, 2 * weight);
      assert ZeroRun(z)[1..] == ZeroRun(h);
      assert z == (d + 1) + 2 * h;
      MulDistribute(d + 1, 2 * h, weight);
      MulDouble(h, weight);
    }
  }

  /** While the digits of a run of z are read, the weight of the next one is at most z + 1 and what has been counted at
      most z: neither leaves 32 bits. */
  lemma {:induction false} RunStaysSmall(z: nat, k: nat)
    requires k <= |ZeroRun(z)|
    ensures Pow2(k) <= z + 1 && RunValue(ZeroRun(z)[..k], 1) <= z
    decreases z
  {
    if k > 0 {
      var h := (z - 1) / 2;
      var digits, rest := ZeroRun(z)[..k], ZeroRun(h)[..k - 1];
      var d := if z % 2 == 1 then RUNA else RUNB;
      assert ZeroRun(z) == [d] + ZeroRun(h) && z == d + 1 + 2 * h;
      RunStaysSmall(h, k - 1);
      hide ZeroRun;
      assert digits == [d] + rest && digits[1..] == rest;
      WeightDoubled(rest, 1);
      assert Pow2(k) == 2 * Pow2(k - 1);
    }
  }

  lemma {:induction false} WeightDoubled(digits: seq<nat>, weight: nat)
    ensures RunValue(digits, 2 * weight) == 2 * RunValue(digits, weight)
  {
    if digits != [] {
      WeightDoubled(digits[1..], 2 * weight);
      MulDouble(digits[0] + 1, weight);
    }
  }

  lemma {:induction false} ZeroRunShort(z: nat)
    ensures |ZeroRun(z)| <= z
    ensures forall k :: 0 <= k < |ZeroRun(z)| ==> ZeroRun(z)[k] == RUNA || ZeroRun(z)[k] == RUNB
    decreases z
  {
    if z > 0 {
      ZeroRunShort((z - 1) / 2);
    }
  }

  /** One symbol at most per byte, and every symbol names a run digit or a list position. */
  lemma {:induction false} MtfSymbolsBounded(xs: seq<byte>, list: seq<byte>, zPend: nat)
    requires forall k :: 0 <= k < |xs| ==> xs[k] in list
    requires list != []
    ensures |MtfSymbols(xs, list, zPend)| <= |xs| + zPend
    ensures forall k :: 0 <= k < |MtfSymbols(xs, list, zPend)| ==> MtfSymbols(xs, list, zPend)[k] <= Max(1, |list|)
    decreases |xs|
  {
    ZeroRunShort(zPend);
    if xs != [] {
      if list[0] == xs[0] {
        MtfSymbolsBounded(xs[1..], list, zPend + 1);
      } else {
        var j := IndexOf(list, xs[0]);
        ToFrontKeepsEntries(list, j);
        MtfSymbolsBounded(xs[1..], ToFront(list, j), 0);
      }
    }
  }

  /** Which byte values occur in a block. */
  function UsedFlags(block: seq<byte>): (f: seq<bool>)
    ensures |f| == 256
    ensures forall c: byte :: f[c] <==> c in block
  {
    seq(256, c requires 0 <= c < 256 => (c as byte) in block)
  }

  /** The used byte values below n, in order. */
  function UsedBytes(inUse: seq<bool>, n: nat): (r: seq<byte>)
    requires n <= |inUse| <= 256
    ensures |r| <= n
  {
    if n == 0 then []
    else UsedBytes(inUse, n - 1) + if inUse[n - 1] then [(n - 1) as byte] else []
  }

  /** The rank of a used byte value is its place in the list of used values. */
  lemma {:induction false} UsedBytesAt(inUse: seq<bool>, c: nat, n: nat)
    requires c < n <= |inUse| <= 256 && inUse[c]
    ensures |UsedBytes(inUse, c)| < |UsedBytes(inUse, n)|
    ensures UsedBytes(inUse, n)[|UsedBytes(inUse, c)|] == c
    decreases n
  {
    if c < n - 1 {
      UsedBytesAt(inUse, c, n - 1);
    }
  }

  /** The block bytes renumbered by rank among the used values. */
  function Ranks(col: seq<byte>, inUse: seq<bool>): (r: seq<byte>)
    requires |inUse| == 256
    ensures |r| == |col|
  {
    seq<byte>(|col|, k requires 0 <= k < |col| => RankOf(inUse, col[k]))
  }

  function RankOf(inUse: seq<bool>, c: byte): byte
    requires |inUse| == 256
  {
    |UsedBytes(inUse, c)|
  }

  /** The whole symbol stream of a column: MTF symbols with zero runs, then the end-of-block symbol. */
  function BlockSymbols(col: seq<byte>, inUse: seq<bool>): (r: seq<nat>)
    requires |inUse| == 256 && (forall k :: 0 <= k < |col| ==> inUse[col[k]]) && col != []
  {
    RanksInList(col, inUse);
    var m := |UsedBytes(inUse, 256)|;
    MtfSymbols(Ranks(col, inUse), Identity(m), 0) + [m + 1]
  }

  lemma RanksInList(col: seq<byte>, inUse: seq<bool>)
    requires |inUse| == 256 && forall k :: 0 <= k < |col| ==> inUse[col[k]]
    ensures var m := |UsedBytes(inUse, 256)|;
      && (forall k :: 0 <= k < |col| ==> Ranks(col, inUse)[k] in Identity(m))
      && (col != [] ==> m > 0)
  {
    var m := |UsedBytes(inUse, 256)|;
    forall k | 0 <= k < |col|
      ensures Ranks(col, inUse)[k] in Identity(m) && m > 0
    {
      UsedBytesAt(inUse, col[k], 256);
      assert Identity(m)[Ranks(col, inUse)[k]] == Ranks(col, inUse)[k];
    }
    if col != [] {
      assert Ranks(col, inUse)[0] in Identity(m);
    }
  }
}
