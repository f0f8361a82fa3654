/** Machine numbers of the codec: bytes, 32-bit words, powers of two and sums over sequences. */
module Numbers {

  type byte = x: int | 0 <= x < 256
  type word = x: int | 0 <= x < 0x1_0000_0000
  type ushort = x: int | 0 <= x < 0x1_0000

  function Pow2(n: nat): (p: nat)
    ensures p >= 1
  {
    if n == 0 then 1 else 2 * Pow2(n - 1)
  }

  lemma {:induction false} Pow2Add(a: nat, b: nat)
    ensures Pow2(a + b) == Pow2(a) * Pow2(b)
    decreases b
  {
    if b == 0 {
      assert Pow2(b) == 1;
    } else {
      Pow2Add(a, b - 1);
      assert Pow2(a + b) == 2 * (Pow2(a) * Pow2(b - 1));
      assert Pow2(a) * (2 * Pow2(b - 1)) == 2 * (Pow2(a) * Pow2(b - 1));
    }
  }

  lemma Pow2Values()
    ensures Pow2(1) == 2 && Pow2(3) == 8 && Pow2(5) == 32 && Pow2(8) == 256
    ensures Pow2(15) == 0x8000 && Pow2(24) == 0x100_0000 && Pow2(32) == 0x1_0000_0000
  {
    assert Pow2(8) == 256;
    Pow2Add(8, 7);
    Pow2Add(8, 8);
    Pow2Add(16, 8);
    Pow2Add(16, 16);
  }

  lemma Pow2Split(d: nat, n: nat)
    requires n <= d
    ensures Pow2(d) == Pow2(n) * Pow2(d - n)
  {
    Pow2Add(n, d - n);
  }

  lemma Pow2Monotone(a: nat, b: nat)
    requires a <= b
    ensures Pow2(a) <= Pow2(b)
  {
    Pow2Add(a, b - a);
    assert Pow2(a) * Pow2(b - a) >= Pow2(a) * 1;
  }

  function Min(a: int, b: int): int {
    if a <= b then a else b
  }

  function Max(a: int, b: int): int {
    if a >= b then a else b
  }

  /** How often x occurs in s. */
  function Count<T(==)>(s: seq<T>, x: T): (c: nat)
    ensures c <= |s|
  {
    if s == [] then 0
    else Count(s[..|s| - 1], x) + if s[|s| - 1] == x then 1 else 0
  }

  lemma Associate<T>(a: seq<T>, b: seq<T>, c: seq<T>)
    ensures a + b + c == a + (b + c)
  {
  }

  lemma MulAssociate(a: nat, b: nat, c: nat)
    ensures (a * b) * c == a * (b * c)
  {
  }

  lemma MulMonotone(a: int, b: int, m: nat)
    requires a <= b
    ensures a * m <= b * m
  {
  }

  lemma MulDistribute(a: int, b: int, m: int)
    ensures (a + b) * m == a * m + b * m
  {
  }

  lemma MulDouble(a: int, m: int)
    ensures a * (2 * m) == 2 * (a * m) == (2 * a) * m
  {
  }

  lemma DivUnique(x: int, m: int, q: int, r: int)
    requires m > 0 && 0 <= r < m && x == q * m + r
    ensures x / m == q && x % m == r
  {
    var q', r' := x / m, x % m;
    var d := q' * m;
    assert x == d + r' && 0 <= r' < m;
    if q' > q {
      MulMonotone(q + 1, q', m);
      assert false;
    } else if q' < q {
      MulMonotone(q' + 1, q, m);
      assert false;
    }
  }

  /** v shifted right by m bits. */
  function ShiftRight(v: nat, m: nat): nat
    decreases m
  {
    if m == 0 then v else ShiftRight(v / 2, m - 1)
  }

  lemma {:induction false} ShiftRightOnce(v: nat, k: nat)
    ensures ShiftRight(v, k + 1) == ShiftRight(v, k) / 2
    decreases k
  {
    if k > 0 {
      ShiftRightOnce(v / 2, k - 1);
    }
  }

  lemma {:induction false} ShiftRightIsDivision(v: nat, m: nat)
    ensures ShiftRight(v, m) == v / Pow2(m)
    decreases m
  {
    if m > 0 {
      ShiftRightIsDivision(v / 2, m - 1);
      HalfThenDivide(v, Pow2(m - 1));
    }
  }

  lemma HalfThenDivide(v: nat, p: nat)
    requires p >= 1
    ensures v / 2 / p == v / (2 * p)
  {
    var q, r := v / 2 / p, v / 2 % p;
    var d := q * p;
    assert v / 2 == d + r;
    MulDouble(q, p);
    DivUnique(v, 2 * p, q, 2 * r + v % 2);
  }

  lemma {:induction false} ShiftRightFits(v: nat, n: nat, m: nat)
    requires v < Pow2(n + m)
    ensures ShiftRight(v, m) < Pow2(n)
    decreases m
  {
    if m > 0 {
      ShiftRightFits(v / 2, n, m - 1);
    }
  }
}
