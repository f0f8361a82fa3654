/** What the checksum detects. The table is linear in exclusive or, one step of it is a division by eight bits, and so
    two texts that differ within four consecutive bytes never have the same checksum. */
module CrcDetection {
  import opened Numbers
  import opened Crc

  // ----- exclusive or -----

  lemma {:induction false} XorSwap(n: nat, a: nat, b: nat)
    ensures Xor(n, a, b) == Xor(n, b, a)
  {
    if n > 0 {
      XorSwap(n - 1, a / 2, b / 2);
    }
  }

  lemma {:induction false} XorZero(n: nat, a: nat)
    requires a < Pow2(n)
    ensures Xor(n, a, 0) == a == Xor(n, 0, a)
  {
    if n > 0 {
      XorZero(n - 1, a / 2);
    }
  }

  lemma {:induction false} XorSelf(n: nat, a: nat)
    ensures Xor(n, a, a) == 0
  {
    if n > 0 {
      XorSelf(n - 1, a / 2);
    }
  }

  lemma {:induction false} XorAssociates(n: nat, a: nat, b: nat, c: nat)
    ensures Xor(n, Xor(n, a, b), c) == Xor(n, a, Xor(n, b, c))
  {
    if n > 0 {
      XorAssociates(n - 1, a / 2, b / 2, c / 2);
      AssociatesStep(n, a, b, c);
    }
  }

  lemma AssociatesStep(n: nat, a: nat, b: nat, c: nat)
    requires n > 0 && Xor(n - 1, Xor(n - 1, a / 2, b / 2), c / 2) == Xor(n - 1, a / 2, Xor(n - 1, b / 2, c / 2))
    ensures Xor(n, Xor(n, a, b), c) == Xor(n, a, Xor(n, b, c))
  {
    hide Xor;
    var x, y := Xor(n, a, b), Xor(n, b, c);
    XorHalves(n, a, b);
    XorHalves(n, b, c);
    XorHalves(n, x, c);
    XorHalves(n, a, y);
    SameParity(x, a + b, c);
    SameParity(y, b + c, a);
  }

  lemma XorHalves(n: nat, a: nat, b: nat)
    requires n > 0
    ensures Xor(n, a, b) == 2 * Xor(n - 1, a / 2, b / 2) + (a + b) % 2
    ensures Xor(n, a, b) / 2 == Xor(n - 1, a / 2, b / 2) && Xor(n, a, b) % 2 == (a + b) % 2
  {
  }

  lemma SameParity(x: nat, y: nat, c: nat)
    requires x % 2 == y % 2
    ensures (x + c) % 2 == (y + c) % 2
  {
  }

  lemma {:induction false} XorCancels(n: nat, a: nat, b: nat, c: nat)
    requires b < Pow2(n) && c < Pow2(n) && Xor(n, a, b) == Xor(n, a, c)
    ensures b == c
  {
    hide Xor;
    if n > 0 {
      XorHalves(n, a, b);
      XorHalves(n, a, c);
      XorCancels(n - 1, a / 2, b / 2, c / 2);
    }
  }

  /** High and low parts are treated separately. */
  lemma {:induction false} XorSplit(n: nat, k: nat, a: nat, x: nat, b: nat, y: nat)
    requires k <= n && x < Pow2(k) && y < Pow2(k)
    ensures Xor(n, a * Pow2(k) + x, b * Pow2(k) + y) == Xor(n - k, a, b) * Pow2(k) + Xor(k, x, y)
  {
    hide Xor;
    if k == 0 {
      XorNone(x, y);
      assert Pow2(0) == 1;
    } else {
      var p := Pow2(k - 1);
      assert Pow2(k) == 2 * p && x / 2 < p && y / 2 < p;
      XorSplit(n - 1, k - 1, a, x / 2, b, y / 2);
      SplitStep(n, k, a, x, b, y, p, Pow2(k));
    }
  }

  lemma XorNone(x: nat, y: nat)
    ensures Xor(0, x, y) == 0
  {
  }

  lemma SplitStep(n: nat, k: nat, a: nat, x: nat, b: nat, y: nat, p: nat, q: nat)
    requires 1 <= k <= n && q == 2 * p
    requires Xor(n - 1, a * p + x / 2, b * p + y / 2) == Xor(n - k, a, b) * p + Xor(k - 1, x / 2, y / 2)
    ensures Xor(n, a * q + x, b * q + y) == Xor(n - k, a, b) * q + Xor(k, x, y)
  {
    hide Xor;
    var u, v := a * q + x, b * q + y;
    Doubled(a, p, x);
    Doubled(b, p, y);
    XorHalves(n, u, v);
    XorHalves(k, x, y);
    SameParity(u, x, v);
    SameParity(v, y, x);
    Doubled(Xor(n - k, a, b), p, 0);
  }

  lemma Doubled(a: nat, p: nat, x: nat)
    ensures (a * (2 * p) + x) / 2 == a * p + x / 2 && (a * (2 * p) + x) % 2 == x % 2
    ensures a * (2 * p) == 2 * (a * p)
  {
    assert a * (2 * p) == 2 * (a * p);
  }

  lemma WordSize()
    ensures Pow2(32) == TOP && Pow2(31) == 0x8000_0000 && Pow2(24) == 0x100_0000 && Pow2(8) == 256 && Pow2(1) == 2
  {
    Pow2Values();
  }

  // ----- one bit of the division -----

  function Step(r: word): word {
    Divide(r, 1)
  }

  lemma StepIs(r: word)
    ensures r < 0x8000_0000 ==> Step(r) == 2 * r
    ensures r >= 0x8000_0000 ==> Step(r) == XorWord(2 * (r - 0x8000_0000), 0x04c1_1db7)
  {
    hide XorWord;
    assert Divide(Step(r), 0) == Step(r);
  }

  lemma {:induction false} DivideMore(r: word, j: nat, k: nat)
    ensures Divide(Divide(r, j), k) == Divide(r, j + k)
    decreases j
  {
    hide XorWord;
    if j > 0 {
      DivideMore(Step(r), j - 1, k);
    }
  }

  /** Doubling goes through exclusive or, with the top bits taken off. */
  lemma XorTops(a: word, b: word)
    ensures var x, y := a % 0x8000_0000, b % 0x8000_0000;
      && 2 * Xor(31, x, y) == XorWord(2 * x, 2 * y)
      && XorWord(a, b) == (if (a >= 0x8000_0000) == (b >= 0x8000_0000) then 0 else 0x8000_0000) + Xor(31, x, y)
  {
    hide Pow2, Xor;
    WordSize();
    var x, y := a % 0x8000_0000, b % 0x8000_0000;
    var s, t := a / 0x8000_0000, b / 0x8000_0000;
    XorSplit(32, 31, s, x, t, y);
    XorHalves(1, s, t);
    XorNone(s / 2, t / 2);
    XorHalves(32, 2 * x, 2 * y);
  }

  lemma StepLinear(a: word, b: word)
    ensures Step(XorWord(a, b)) == XorWord(Step(a), Step(b))
  {
    hide Xor, Divide;
    var g: word := 0x04c1_1db7;
    var x, y: word := 2 * (a % 0x8000_0000), 2 * (b % 0x8000_0000);
    XorTops(a, b);
    XorLess(a % 0x8000_0000, b % 0x8000_0000);
    StepIs(a);
    StepIs(b);
    StepIs(XorWord(a, b));
    Regroup(x, y, g);
  }

  lemma XorLess(x: nat, y: nat)
    ensures Xor(31, x, y) < 0x8000_0000
  {
    hide Pow2;
    WordSize();
  }

  lemma Regroup(x: word, y: word, g: word)
    ensures XorWord(XorWord(x, g), y) == XorWord(XorWord(x, y), g) == XorWord(x, XorWord(y, g))
    ensures XorWord(XorWord(x, g), XorWord(y, g)) == XorWord(x, y)
  {
    hide Xor, Pow2;
    WordSize();
    XorAssociates(32, x, g, y);
    XorAssociates(32, x, y, g);
    XorSwap(32, g, y);
    XorAssociates(32, x, g, Xor(32, y, g));
    XorAssociates(32, g, g, y);
    XorSwap(32, y, g);
    XorSelf(32, g);
    XorZero(32, y);
  }

  lemma {:induction false} DivideLinear(a: word, b: word, k: nat)
    ensures Divide(XorWord(a, b), k) == XorWord(Divide(a, k), Divide(b, k))
    decreases k
  {
    hide XorWord;
    if k > 0 {
      StepLinear(a, b);
      DivideLinear(Step(a), Step(b), k - 1);
      DivideMore(a, 1, k - 1);
      DivideMore(b, 1, k - 1);
      DivideMore(XorWord(a, b), 1, k - 1);
    }
  }

  /** The generator is odd, so no bit is lost. */
  lemma StepInjective(a: word, b: word)
    requires Step(a) == Step(b)
    ensures a == b
  {
    hide Divide;
    StepIs(a);
    StepIs(b);
    OddStep(a);
    OddStep(b);
    if a >= 0x8000_0000 && b >= 0x8000_0000 {
      var x, y, g: word := 2 * (a - 0x8000_0000), 2 * (b - 0x8000_0000), 0x04c1_1db7;
      hide Xor, Pow2;
      WordSize();
      XorSwap(32, x, g);
      XorSwap(32, y, g);
      XorCancels(32, g, x, y);
    }
  }

  lemma OddStep(r: word)
    ensures Step(r) % 2 == if r >= 0x8000_0000 then 1 else 0
  {
    hide Divide, Xor;
    StepIs(r);
    if r >= 0x8000_0000 {
      XorHalves(32, 2 * (r - 0x8000_0000), 0x04c1_1db7);
    }
  }

  lemma {:induction false} DivideInjective(a: word, b: word, k: nat)
    requires Divide(a, k) == Divide(b, k)
    ensures a == b
    decreases k
  {
    hide XorWord;
    if k > 0 {
      DivideMore(a, 1, k - 1);
      DivideMore(b, 1, k - 1);
      DivideInjective(Step(a), Step(b), k - 1);
      StepInjective(a, b);
    }
  }

  /** Bits that do not reach the top are only shifted. */
  lemma {:induction false} DivideShifts(r: word, k: nat)
    requires k <= 32 && r < Pow2(32 - k)
    ensures r * Pow2(k) < TOP && Divide(r, k) == r * Pow2(k)
    decreases k
  {
    if k == 0 {
      WordSize();
    } else {
      assert Pow2(k) == 2 * Pow2(k - 1) && Pow2(32 - (k - 1)) == 2 * Pow2(32 - k);
      hide XorWord, Pow2, Divide;
      WordSize();
      Pow2Monotone(32 - k, 31);
      StepIs(r);
      DivideShifts(2 * r, k - 1);
      DivideMore(r, 1, k - 1);
      Doubled(r, Pow2(k - 1), 0);
      MulAssociate(2, r, Pow2(k - 1));
    }
  }

  // ----- the table -----

  /** BZ_UPDATE_CRC divides eight bits of the checksum with the byte mixed in at the top. */
  lemma UpdateDivides(crc: word, ch: byte)
    ensures Update(crc, ch) == Divide(XorWord(crc, ch * 0x100_0000), 8)
  {
    hide Xor, Pow2, Divide;
    WordSize();
    var hi, lo := crc / 0x100_0000, crc % 0x100_0000;
    var x := Xor(8, hi, ch);
    XorSplit(32, 24, hi, lo, ch, 0);
    XorZero(24, lo);
    XorSplit(32, 24, x, 0, 0, lo);
    XorZero(8, x);
    DivideLinear(x * 0x100_0000, lo, 8);
    DivideShifts(lo, 8);
    DivUnique(crc * 256, TOP, hi, lo * 256);
    XorSwap(32, crc * 256 % TOP, TableEntry(x));
  }

  /** With its entries at the powers of two, linearity gives the whole table. */
  lemma TableLinear(i: byte, j: byte)
    ensures Xor(8, i, j) < 256 && TableEntry(Xor(8, i, j)) == XorWord(TableEntry(i), TableEntry(j))
  {
    hide Xor, Pow2, Divide;
    WordSize();
    XorSplit(32, 24, i, 0, j, 0);
    XorZero(24, 0);
    DivideLinear(i * 0x100_0000, j * 0x100_0000, 8);
  }

  lemma TablePowers()
    ensures TableEntry(0) == 0 && TableEntry(1) == 0x04c1_1db7 && TableEntry(2) == 0x0982_3b6e && TableEntry(4) == 0x1304_76dc
    ensures TableEntry(8) == 0x2608_edb8 && TableEntry(16) == 0x4c11_db70 && TableEntry(32) == 0x9823_b6e0
    ensures TableEntry(64) == 0x3486_7077 && TableEntry(128) == 0x690c_e0ee
  {
    hide Pow2, Divide, Xor, XorWord;
    WordSize();
    DivideShifts(0, 8);
    FirstEntry();
    StepIs(0x04c1_1db7);
    StepIs(0x0982_3b6e);
    StepIs(0x1304_76dc);
    StepIs(0x2608_edb8);
    StepIs(0x4c11_db70);
    StepIs(0x9823_b6e0);
    StepIs(0x3486_7077);
    MixedStep();
    NextEntry(1);
    NextEntry(2);
    NextEntry(4);
    NextEntry(8);
    NextEntry(16);
    NextEntry(32);
    NextEntry(64);
  }

  lemma FirstEntry()
    ensures TableEntry(1) == 0x04c1_1db7
  {
    hide Xor, Divide;
    WordSize();
    assert Pow2(25) == 0x200_0000 && Pow2(7) == 128;
    DivideShifts(0x100_0000, 7);
    DivideMore(0x100_0000, 7, 1);
    StepIs(0x8000_0000);
    XorZero(32, 0x04c1_1db7);
  }

  lemma NextEntry(i: byte)
    requires i < 128
    ensures TableEntry(2 * i) == Step(TableEntry(i))
  {
    hide Xor, Divide, XorWord;
    StepIs(i * 0x100_0000);
    DivideMore(i * 0x100_0000, 1, 8);
    DivideMore(i * 0x100_0000, 8, 1);
  }

  lemma MixedStep()
    ensures XorWord(0x3047_6dc0, 0x04c1_1db7) == 0x3486_7077
  {
    MixedBytes();
    hide Xor, Pow2;
    WordSize();
    XorSplit(16, 8, 0x30, 0x47, 0x04, 0xc1);
    XorSplit(24, 8, 0x3047, 0x6d, 0x04c1, 0x1d);
    XorSplit(32, 8, 0x30_476d, 0xc0, 0x04_c11d, 0xb7);
  }

  lemma MixedBytes()
    ensures Xor(8, 0x30, 0x04) == 0x34 && Xor(8, 0x47, 0xc1) == 0x86 && Xor(8, 0x6d, 0x1d) == 0x70 && Xor(8, 0xc0, 0xb7) == 0x77
  {
    assert Pow2(4) == 16;
    MixedDigits();
    hide Xor, Pow2;
    XorSplit(8, 4, 3, 0, 0, 4);
    XorSplit(8, 4, 4, 7, 0xc, 1);
    XorSplit(8, 4, 6, 0xd, 1, 0xd);
    XorSplit(8, 4, 0xc, 0, 0xb, 7);
  }

  lemma MixedDigits()
    ensures Xor(4, 3, 0) == 3 && Xor(4, 0, 4) == 4 && Xor(4, 4, 0xc) == 8 && Xor(4, 7, 1) == 6
    ensures Xor(4, 6, 1) == 7 && Xor(4, 0xd, 0xd) == 0 && Xor(4, 0xc, 0xb) == 7 && Xor(4, 0, 7) == 7
  {
    hide Xor;
    assert Pow2(4) == 16;
    XorZero(4, 3);
    XorZero(4, 4);
    XorZero(4, 7);
    XorSelf(4, 0xd);
    Digit(4, 0xc);
    Digit(7, 1);
    Digit(6, 1);
    Digit(0xc, 0xb);
  }

  lemma Digit(a: nat, b: nat)
    requires a < 16 && b < 16
    ensures Xor(4, a, b) == 8 * ((a / 8 + b / 8) % 2) + 4 * ((a / 4 + b / 4) % 2) + 2 * ((a / 2 + b / 2) % 2) + (a + b) % 2
  {
    XorHalves(4, a, b);
    XorHalves(3, a / 2, b / 2);
    XorHalves(2, a / 4, b / 4);
    XorHalves(1, a / 8, b / 8);
    assert Xor(0, a / 16, b / 16) == 0;
    hide Xor;
    assert a / 2 / 2 == a / 4 && a / 4 / 2 == a / 8 && b / 2 / 2 == b / 4 && b / 4 / 2 == b / 8;
  }

  // ----- detection -----

  function Value(s: seq<byte>): (v: nat)
    ensures v < Pow2(8 * |s|)
  {
    if s == [] then 0 else ValueNext(s); 256 * Value(s[..|s| - 1]) + s[|s| - 1]
  }

  /** Up to four bytes are one division of up to 32 bits. */
  lemma {:induction false} UpdateAllDivides(crc: word, s: seq<byte>)
    requires |s| <= 4
    ensures Value(s) * Pow2(32 - 8 * |s|) < TOP
    ensures UpdateAll(crc, s) == Divide(XorWord(crc, Value(s) * Pow2(32 - 8 * |s|)), 8 * |s|)
    decreases |s|
  {
    hide Xor, XorWord, Pow2, Divide, Update;
    WordSize();
    if s == [] {
      NothingMixed(crc);
    } else {
      var front, ch, k := s[..|s| - 1], s[|s| - 1], 8 * |s| - 8;
      var p := Pow2(32 - 8 * |s|);
      UpdateAllDivides(crc, front);
      ByteShifted(ch, k);
      PartsJoin(Value(front), ch, k);
      var v, c: word := Value(front) * Pow2(32 - k), ch * p;
      var y := XorWord(crc, v);
      UpdateDivides(Divide(y, k), ch);
      DivideLinear(y, c, k);
      DivideMore(XorWord(y, c), k, 8);
      assert Value(s) == 256 * Value(front) + ch;
      XorThree(crc, v, c);
    }
  }

  lemma XorThree(a: word, b: word, c: word)
    ensures XorWord(XorWord(a, b), c) == XorWord(a, XorWord(b, c))
  {
    hide Xor, Pow2;
    WordSize();
    XorAssociates(32, a, b, c);
  }

  lemma NothingMixed(crc: word)
    ensures XorWord(crc, 0) == crc && Divide(crc, 0) == crc
  {
    WordSize();
    XorZero(32, crc);
  }

  lemma ByteShifted(ch: byte, k: nat)
    requires k <= 24
    ensures ch * Pow2(24 - k) < TOP && Divide(ch * Pow2(24 - k), k) == ch * 0x100_0000
  {
    hide Pow2, Divide;
    WordSize();
    Pow2Split(32 - k, 8);
    Pow2Split(24, k);
    MulMonotone(ch + 1, 256, Pow2(24 - k));
    Pow2Monotone(32 - k, 32);
    DivideShifts(ch * Pow2(24 - k), k);
    MulAssociate(ch, Pow2(24 - k), Pow2(k));
  }

  /** The next byte goes into bits that are still empty. */
  lemma PartsJoin(v: nat, ch: byte, k: nat)
    requires k <= 24 && v < Pow2(k)
    ensures v * Pow2(32 - k) < TOP && ch * Pow2(24 - k) < TOP && (256 * v + ch) * Pow2(24 - k) < TOP
    ensures XorWord(v * Pow2(32 - k), ch * Pow2(24 - k)) == (256 * v + ch) * Pow2(24 - k)
  {
    hide Pow2, Xor;
    WordSize();
    var p, q := Pow2(24 - k), Pow2(32 - k);
    Pow2Split(32 - k, 8);
    Pow2Split(32, k);
    PartsFit(v, ch, Pow2(k), p, q);
    JoinedParts(v, ch * p, k);
  }

  lemma PartsFit(v: nat, ch: byte, m: nat, p: nat, q: nat)
    requires v < m && p > 0 && q == 256 * p && m * q == TOP
    ensures v * q < TOP && ch * p < q && ch * p < TOP && (256 * v + ch) * p == v * q + ch * p < TOP
  {
    Below(ch, 256, p);
    Below(v, m, q);
    SumTimes(v, ch, p);
  }

  lemma JoinedParts(v: nat, x: nat, k: nat)
    requires k <= 32 && v < Pow2(k) && x < Pow2(32 - k)
    ensures Xor(32, v * Pow2(32 - k), x) == v * Pow2(32 - k) + x
  {
    hide Pow2, Xor;
    XorSplit(32, 32 - k, v, 0, 0, x);
    XorZero(k, v);
    XorZero(32 - k, x);
  }

  lemma Below(x: nat, m: nat, p: nat)
    requires x < m && p > 0
    ensures x * p + p <= m * p
  {
    MulMonotone(x + 1, m, p);
    assert (x + 1) * p == x * p + p;
  }

  lemma SumTimes(v: nat, ch: nat, p: nat)
    ensures (256 * v + ch) * p == v * (256 * p) + ch * p
  {
    assert (256 * v + ch) * p == 256 * v * p + ch * p;
    assert 256 * v * p == v * (256 * p);
  }

  lemma {:induction false} ValueInjective(s: seq<byte>, t: seq<byte>)
    requires |s| == |t| && Value(s) == Value(t)
    ensures s == t
    decreases |s|
  {
    if s != [] {
      ValueInjective(s[..|s| - 1], t[..|t| - 1]);
      assert s == s[..|s| - 1] + [s[|s| - 1]] && t == t[..|t| - 1] + [t[|t| - 1]];
    }
  }

  /** Different checksums stay different whatever follows. */
  lemma {:induction false} UpdateAllInjective(c: word, d: word, s: seq<byte>)
    requires UpdateAll(c, s) == UpdateAll(d, s)
    ensures c == d
    decreases |s|
  {
    hide Update, Xor, Divide;
    if s != [] {
      var x, y := UpdateAll(c, s[..|s| - 1]), UpdateAll(d, s[..|s| - 1]);
      var ch: byte := s[|s| - 1];
      UpdateDivides(x, ch);
      UpdateDivides(y, ch);
      var top: word := ch * 0x100_0000;
      DivideInjective(XorWord(x, top), XorWord(y, top), 8);
      MixInjective(x, y, top);
      UpdateAllInjective(c, d, s[..|s| - 1]);
    }
  }

  lemma MixInjective(x: word, y: word, z: word)
    requires XorWord(x, z) == XorWord(y, z)
    ensures x == y
  {
    hide Xor, Pow2;
    WordSize();
    XorSwap(32, x, z);
    XorSwap(32, y, z);
    XorCancels(32, z, x, y);
  }

  /** Damage within four consecutive bytes changes the checksum of a block. */
  lemma DamageDetected(before: seq<byte>, s: seq<byte>, t: seq<byte>, after: seq<byte>)
    requires |s| == |t| <= 4 && s != t
    ensures OfBlock(before + s + after) != OfBlock(before + t + after)
  {
    hide UpdateAll, Xor, XorWord, Pow2, Divide, Value;
    var c := UpdateAll(INITIAL, before);
    UpdateAllAppend(INITIAL, before + s, after);
    UpdateAllAppend(INITIAL, before + t, after);
    UpdateAllAppend(INITIAL, before, s);
    UpdateAllAppend(INITIAL, before, t);
    if OfBlock(before + s + after) == OfBlock(before + t + after) {
      UpdateAllInjective(UpdateAll(c, s), UpdateAll(c, t), after);
      BurstInjective(c, s, t);
    }
  }

  lemma BurstInjective(c: word, s: seq<byte>, t: seq<byte>)
    requires |s| == |t| <= 4 && UpdateAll(c, s) == UpdateAll(c, t)
    ensures s == t
  {
    hide UpdateAll, Xor, XorWord, Pow2, Divide, Value;
    UpdateAllDivides(c, s);
    UpdateAllDivides(c, t);
    var p := Pow2(32 - 8 * |s|);
    var x, y: word := Value(s) * p, Value(t) * p;
    DivideInjective(XorWord(c, x), XorWord(c, y), 8 * |s|);
    XorSides(c, x);
    XorSides(c, y);
    MixInjective(x, y, c);
    SameFactor(Value(s), Value(t), p);
    ValueInjective(s, t);
  }

  lemma XorSides(a: word, b: word)
    ensures XorWord(a, b) == XorWord(b, a)
  {
    hide Xor;
    XorSwap(32, a, b);
  }

  lemma SameFactor(a: nat, b: nat, p: nat)
    requires a * p == b * p && p > 0
    ensures a == b
  {
  }

  lemma ValueNext(s: seq<byte>)
    requires s != []
    ensures Pow2(8 * |s|) == 256 * Pow2(8 * |s[..|s| - 1]|)
  {
    WordSize();
    Pow2Add(8, 8 * (|s| - 1));
  }
}
