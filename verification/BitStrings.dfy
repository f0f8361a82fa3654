/** Bit strings, most significant bit first: the common language of the bit writer and the bit reader. */
module BitStrings {
  import opened Numbers

  type Bits = seq<bool>

  /** The low n bits of v, most significant first. */
  function ToBits(n: nat, v: nat): (s: Bits)
    ensures |s| == n
  {
    if n == 0 then [] else ToBits(n - 1, v / 2) + [v % 2 == 1]
  }

  function BitValue(b: bool): nat {
    if b then 1 else 0
  }

  function FromBits(s: Bits): nat {
    if s == [] then 0 else 2 * FromBits(s[..|s| - 1]) + BitValue(s[|s| - 1])
  }

  function BytesToBits(s: seq<byte>): (r: Bits)
    ensures |r| == 8 * |s|
  {
    if s == [] then [] else BytesToBits(s[..|s| - 1]) + ToBits(8, s[|s| - 1])
  }

  lemma {:induction false} FromToBits(n: nat, v: nat)
    requires v < Pow2(n)
    ensures FromBits(ToBits(n, v)) == v
    decreases n
  {
    if n > 0 {
      FromToBits(n - 1, v / 2);
      assert ToBits(n, v)[..n - 1] == ToBits(n - 1, v / 2);
    }
  }

  lemma {:induction false} ToFromBits(s: Bits)
    ensures FromBits(s) < Pow2(|s|)
    ensures ToBits(|s|, FromBits(s)) == s
    decreases |s|
  {
    if s != [] {
      ToFromBits(s[..|s| - 1]);
    }
  }

  /** A field of n + m bits is its top n bits followed by its low m bits. */
  lemma {:induction false} ToBitsSplit(n: nat, m: nat, v: nat)
    ensures ToBits(n + m, v) == ToBits(n, ShiftRight(v, m)) + ToBits(m, v)
    decreases m
  {
    if m > 0 {
      ToBitsSplit(n, m - 1, v / 2);
      assert ToBits(n, ShiftRight(v, m)) + ToBits(m - 1, v / 2) + [v % 2 == 1]
          == ToBits(n, ShiftRight(v, m)) + (ToBits(m - 1, v / 2) + [v % 2 == 1]);
    }
  }

  /** Only the low n bits of v matter. */
  lemma {:induction false} ToBitsLow(n: nat, k: nat, v: nat)
    requires n <= k
    ensures ToBits(n, v % Pow2(k)) == ToBits(n, v)
    decreases n
  {
    if n > 0 {
      var p := Pow2(k - 1);
      var w := v % Pow2(k);
      var q := v / Pow2(k);
      assert v == q * (2 * p) + w;
      assert v / 2 == q * p + w / 2 by {
        assert q * (2 * p) == 2 * (q * p);
      }
      DivUnique(v / 2, p, q, w / 2);
      assert w / 2 == v / 2 % p;
      ToBitsLow(n - 1, k - 1, v / 2);
      assert w % 2 == v % 2 by {
        assert q * (2 * p) == 2 * (q * p);
      }
    }
  }

  lemma {:induction false} BytesToBitsAppend(a: seq<byte>, b: seq<byte>)
    ensures BytesToBits(a + b) == BytesToBits(a) + BytesToBits(b)
    decreases |b|
  {
    if b == [] {
      assert a + b == a;
    } else {
      var c := a + b;
      assert c[..|c| - 1] == a + b[..|b| - 1];
      BytesToBitsAppend(a, b[..|b| - 1]);
    }
  }

  lemma {:induction false} FromBitsAppend(a: Bits, b: Bits)
    ensures FromBits(a + b) == FromBits(a) * Pow2(|b|) + FromBits(b)
    decreases |b|
  {
    if b == [] {
      assert a + b == a;
    } else {
      var c := a + b;
      assert c[..|c| - 1] == a + b[..|b| - 1];
      FromBitsAppend(a, b[..|b| - 1]);
      MulDouble(FromBits(a), Pow2(|b| - 1));
    }
  }
}
