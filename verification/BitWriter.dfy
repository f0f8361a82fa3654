/** The bit output buffer of the compressor: a 32-bit shift register filled from the top, drained by bytes. */
module BitWriting {
  import opened Numbers
  import opened BitStrings

  class BitWriter {
    var zbits: seq<byte>        // numZ bytes
    var bsBuff: word
    var bsLive: int
    ghost var pending: Bits     // the bits that wait in the register

    /** The waiting bits fill the register from the top; everything below them is zero. */
    ghost predicate Valid()
      reads this
    {
      Register(bsBuff, bsLive, pending)
    }

    /** Everything written since zbits was last emptied, residual bits included. */
    ghost function Written(): Bits
      reads this
    {
      BytesToBits(zbits) + pending
    }

    constructor ()
      ensures Valid() && zbits == [] && pending == []
    {
      zbits, pending := [], [];
      bsBuff, bsLive := 0, 0;
    }

    /** BZ2_bsInitWrite. */
    method InitWrite()
      modifies this`bsBuff, this`bsLive, this`pending
      ensures Valid() && pending == [] && Written() == BytesToBits(zbits)
    {
      bsBuff, bsLive, pending := 0, 0, [];
    }

    /** A new block starts at the beginning of zbits; the bits that wait in the register stay there. */
    method Restart()
      requires Valid()
      modifies this`zbits
      ensures Valid() && zbits == [] && Written() == pending
    {
      zbits := [];
    }

    /** Move the top byte of the register to zbits. */
    method DrainTop()
      requires Valid() && bsLive >= 8
      modifies this
      ensures Valid() && bsLive == old(bsLive) - 8 && Written() == old(Written())
      ensures old(zbits) <= zbits
    {
      DrainedRegister(bsBuff, pending);
      var b: byte := bsBuff / 0x100_0000;
      PushByte(zbits, b, pending);
      zbits := zbits + [b];
      bsBuff := bsBuff * 0x100 % 0x1_0000_0000;
      bsLive := bsLive - 8;
      pending := pending[8..];
    }

    /** bsW: drain whole bytes, then append the n-bit field v. The field and the waiting bits are disjoint,
        so the or of the two is their sum, and nothing is shifted out at either end. */
    method W(n: nat, v: nat)
      requires Valid() && 1 <= n <= 24 && v < Pow2(n)
      modifies this
      ensures Valid() && Written() == old(Written()) + ToBits(n, v)
      ensures old(zbits) <= zbits
    {
      hide ToBits, BytesToBits;
      while bsLive >= 8
        invariant Valid() && Written() == old(Written()) && old(zbits) <= zbits
        decreases bsLive
      {
        DrainTop();
      }
      FilledRegister(bsBuff, pending, n, v);
      bsBuff := bsBuff + v * Pow2(32 - bsLive - n);
      bsLive := bsLive + n;
      pending := pending + ToBits(n, v);
    }

    /** bsFinishWrite: pad with zero bits to a whole byte and empty the register. */
    method Finish() returns (ghost padding: Bits)
      requires Valid()
      modifies this
      ensures old(zbits) <= zbits && |padding| < 8 && pending == []
      ensures BytesToBits(zbits) == old(Written()) + padding
    {
      hide ToBits, BytesToBits;
      padding := [];
      while bsLive > 0
        invariant bsLive > 0 ==> Valid()
        invariant bsLive <= 0 ==> pending == []
        invariant Written() == old(Written()) + padding && old(zbits) <= zbits
        invariant bsLive > 0 ==> padding == []
        invariant |padding| < 8
        decreases bsLive
      {
        if bsLive >= 8 {
          DrainTop();
        } else {
          var b: byte := bsBuff / 0x100_0000;
          padding := LastByte(bsBuff, pending);
          PushByte(zbits, b, pending + padding);
          zbits := zbits + [b];
          bsBuff := bsBuff * 0x100 % 0x1_0000_0000;
          bsLive := bsLive - 8;
          pending := [];
        }
      }
    }
  }

  ghost predicate Register(buff: word, live: int, pending: Bits) {
    live == |pending| <= 32 && buff == FromBits(pending) * Pow2(32 - |pending|)
  }

  lemma PushByte(zbits: seq<byte>, b: byte, pending: Bits)
    requires |pending| >= 8 && ToBits(8, b) == pending[..8]
    ensures BytesToBits(zbits + [b]) + pending[8..] == BytesToBits(zbits) + pending
  {
    assert (zbits + [b])[..|zbits|] == zbits;
    assert pending == pending[..8] + pending[8..];
  }

  lemma Regroup(a: nat, y: nat, c: nat, x: nat)
    ensures (a * y + c) * x == a * (y * x) + c * x
  {
    MulDistribute(a * y, c, x);
    MulAssociate(a, y, x);
  }

  lemma ScaleLess(c: nat, y: nat, x: nat)
    requires c < y && x > 0
    ensures c * x < y * x
  {
  }

  lemma DrainedRegister(buff: word, pending: Bits)
    requires Register(buff, |pending|, pending) && |pending| >= 8
    ensures ToBits(8, buff / 0x100_0000) == pending[..8]
    ensures Register(buff * 0x100 % 0x1_0000_0000, |pending| - 8, pending[8..])
  {
    hide FromBits, ToBits, Pow2;
    var live := |pending|;
    var top, rest := pending[..8], pending[8..];
    var a, c := FromBits(top), FromBits(rest);
    var x, y := Pow2(32 - live), Pow2(live - 8);
    assert pending == top + rest;
    FromBitsAppend(top, rest);
    ToFromBits(top);
    ToFromBits(rest);
    Pow2Values();
    Pow2Split(24, live - 8);
    Pow2Add(32 - live, 8);
    Regroup(a, y, c, x);
    ScaleLess(c, y, x);
    DrainArithmetic(buff, a, c * x);
    MulAssociate(c, x, 0x100);
  }

  lemma DrainArithmetic(buff: word, a: byte, r: nat)
    requires buff == a * 0x100_0000 + r && r < 0x100_0000
    ensures buff / 0x100_0000 == a && buff * 0x100 % 0x1_0000_0000 == r * 0x100
  {
  }

  lemma FilledRegister(buff: word, pending: Bits, n: nat, v: nat)
    requires Register(buff, |pending|, pending) && |pending| < 8 && 1 <= n <= 24 && v < Pow2(n)
    ensures 0 <= buff + v * Pow2(32 - |pending| - n) < 0x1_0000_0000
    ensures Register(buff + v * Pow2(32 - |pending| - n), |pending| + n, pending + ToBits(n, v))
  {
    hide FromBits, ToBits, Pow2;
    var live := |pending|;
    var a, x, y := FromBits(pending), Pow2(32 - live - n), Pow2(n);
    var all := pending + ToBits(n, v);
    FromBitsAppend(pending, ToBits(n, v));
    FromToBits(n, v);
    Pow2Add(n, 32 - live - n);
    Regroup(a, y, v, x);
    ToFromBits(all);
    Pow2Values();
    Pow2Add(live + n, 32 - live - n);
    ScaleLess(FromBits(all), Pow2(live + n), x);
  }

  lemma LastByte(buff: word, pending: Bits) returns (padding: Bits)
    requires Register(buff, |pending|, pending) && 0 < |pending| < 8
    ensures |padding| == 8 - |pending| && ToBits(8, buff / 0x100_0000) == pending + padding
  {
    hide FromBits, ToBits, Pow2;
    var live := |pending|;
    var a := FromBits(pending);
    padding := ToBits(8 - live, 0);
    FromBitsAppend(pending, padding);
    Pow2Positive(8 - live);
    FromToBits(8 - live, 0);
    ToFromBits(pending + padding);
    Pow2Values();
    Pow2Add(8 - live, 24);
    MulAssociate(a, Pow2(8 - live), 0x100_0000);
    DivUnique(buff, 0x100_0000, a * Pow2(8 - live), 0);
  }

  lemma Pow2Positive(n: nat)
    ensures 0 < Pow2(n)
  {
  }
}
