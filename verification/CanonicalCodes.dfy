/** Canonical Huffman codes: code assignment, decode tables, and the proof that the table-driven
    decoder stops at exactly the right length on the right symbol. */
module CanonicalCodes {
  import opened Numbers
  import opened BitStrings
  import opened CountingSort

  /** The Kraft sum of the lengths below n, scaled by 2^d. */
  function Kraft(lens: seq<byte>, d: nat, n: nat): nat
    requires forall i :: 0 <= i < |lens| ==> lens[i] <= d
  {
    if lens == [] then 0
    else
      var last := lens[|lens| - 1];
      Kraft(lens[..|lens| - 1], d, n) + if last < n then Pow2(d - last) else 0
  }

  /** Lengths in 1..d that leave room for a prefix-free code. */
  ghost predicate ValidLengths(lens: seq<byte>, d: nat) {
    && |lens| > 0
    && (forall i :: 0 <= i < |lens| ==> 1 <= lens[i] <= d)
    && Kraft(lens, d, d + 1) <= Pow2(d)
  }

  /** The first code of length n. */
  function FirstCode(lens: seq<byte>, n: nat): nat {
    if n == 0 then 0 else 2 * (FirstCode(lens, n - 1) + if n <= 256 then Count(lens, (n - 1) as byte) else 0)
  }

  function Code(lens: seq<byte>, sym: nat): nat
    requires sym < |lens|
  {
    FirstCode(lens, lens[sym]) + Count(lens[..sym], lens[sym])
  }

  /** The bits sent for a symbol. */
  function CodeBits(lens: seq<byte>, sym: nat): Bits
    requires sym < |lens|
  {
    ToBits(lens[sym], Code(lens, sym))
  }

  function MinLength(lens: seq<byte>): (m: nat)
    ensures m <= 32
    ensures forall i :: 0 <= i < |lens| ==> m <= lens[i]
    ensures m == 32 || m in lens
  {
    if lens == [] then 32
    else Min(MinLength(lens[..|lens| - 1]), lens[|lens| - 1])
  }

  function MaxLength(lens: seq<byte>): (m: nat)
    ensures forall i :: 0 <= i < |lens| ==> lens[i] <= m
    ensures m == 0 || m in lens
  {
    if lens == [] then 0
    else Max(MaxLength(lens[..|lens| - 1]), lens[|lens| - 1])
  }

  /** The largest code of each length in use; 0 elsewhere. */
  function Limit(lens: seq<byte>, n: nat): int {
    if n < 256 && MinLength(lens) <= n <= MaxLength(lens) then FirstCode(lens, n) + Count(lens, n as byte) - 1 else 0
  }

  /** What to subtract from a code of length n to get its index into the symbols sorted by length. */
  function Base(lens: seq<byte>, n: nat): int {
    if MinLength(lens) < n <= MaxLength(lens) then FirstCode(lens, n) - CountLess(lens, n) else CountLess(lens, n)
  }

  lemma {:induction false} KraftStep(lens: seq<byte>, d: nat, n: byte)
    requires n <= d && forall i :: 0 <= i < |lens| ==> lens[i] <= d
    ensures Kraft(lens, d, n as nat + 1) == Kraft(lens, d, n) + Count(lens, n) * Pow2(d - n)
  {
    if lens != [] {
      var front := lens[..|lens| - 1];
      KraftStep(front, d, n);
      MulDistribute(Count(front, n), 1, Pow2(d - n));
      hide Pow2;
    }
  }

  lemma {:induction false} KraftZero(lens: seq<byte>, d: nat)
    requires forall i :: 0 <= i < |lens| ==> lens[i] <= d
    ensures Kraft(lens, d, 0) == 0
  {
    if lens != [] {
      KraftZero(lens[..|lens| - 1], d);
    }
  }

  lemma {:induction false} KraftMonotone(lens: seq<byte>, d: nat, m: nat, n: nat)
    requires m <= n && forall i :: 0 <= i < |lens| ==> lens[i] <= d
    ensures Kraft(lens, d, m) <= Kraft(lens, d, n)
  {
    if lens != [] {
      KraftMonotone(lens[..|lens| - 1], d, m, n);
    }
  }

  /** The first code of length n is the scaled Kraft sum of the shorter lengths. */
  lemma {:induction false} FirstCodeIsKraft(lens: seq<byte>, d: nat, n: nat)
    requires n <= d < 256 && forall i :: 0 <= i < |lens| ==> lens[i] <= d
    ensures FirstCode(lens, n) * Pow2(d - n) == Kraft(lens, d, n)
    decreases n
  {
    if n == 0 {
      KraftZero(lens, d);
    } else {
      FirstCodeIsKraft(lens, d, n - 1);
      KraftStep(lens, d, n - 1);
      var f, c, p := FirstCode(lens, n - 1), Count(lens, (n - 1) as byte), Pow2(d - n);
      calc {
        Kraft(lens, d, n);
        f * Pow2(d - (n - 1)) + c * Pow2(d - (n - 1));
        { MulDistribute(f, c, 2 * p); }
        (f + c) * (2 * p);
        { MulDouble(f + c, p); }
        (2 * (f + c)) * p;
        FirstCode(lens, n) * p;
      }
    }
  }

  lemma KraftUpTo(lens: seq<byte>, d: nat, n: byte, z: nat)
    requires ValidLengths(lens, d) && n <= d < 256 && z == FirstCode(lens, n) + Count(lens, n)
    ensures z * Pow2(d - n) <= Pow2(d)
  {
    FirstCodeIsKraft(lens, d, n);
    KraftStep(lens, d, n);
    KraftMonotone(lens, d, n as nat + 1, d + 1);
    MulDistribute(FirstCode(lens, n), Count(lens, n), Pow2(d - n));
  }

  lemma CancelPow2(z: nat, n: nat, d: nat)
    requires n <= d && z * Pow2(d - n) <= Pow2(d)
    ensures z <= Pow2(n)
  {
    var p := Pow2(d - n);
    Pow2Split(d, n);
    if z > Pow2(n) {
      MulMonotone(Pow2(n) + 1, z, p);
      MulDistribute(Pow2(n), 1, p);
    }
  }

  /** All codes of length n fit in n bits. */
  lemma CodesFit(lens: seq<byte>, d: nat, n: byte)
    requires ValidLengths(lens, d) && n <= d < 256
    ensures FirstCode(lens, n) + Count(lens, n) <= Pow2(n)
  {
    var z := FirstCode(lens, n) + Count(lens, n);
    KraftUpTo(lens, d, n, z);
    CancelPow2(z, n, d);
  }

  /** Cut back to n bits, any code of a longer length is above everything reserved for length n. */
  lemma {:induction false} LongerCodesAbove(lens: seq<byte>, n: byte, m: nat, v: nat)
    requires n < m < 256 && v >= FirstCode(lens, m)
    ensures ShiftRight(v, m - n) >= FirstCode(lens, n) + Count(lens, n)
    decreases m
  {
    if m == n + 1 {
      assert ShiftRight(v / 2, 0) == v / 2;
    } else {
      LongerCodesAbove(lens, n, m - 1, v / 2);
    }
  }

  /** The code fits its length, and lies in the range reserved for that length. */
  lemma CodeInRange(lens: seq<byte>, d: nat, sym: nat)
    requires ValidLengths(lens, d) && d < 256 && sym < |lens|
    ensures FirstCode(lens, lens[sym]) <= Code(lens, sym) < FirstCode(lens, lens[sym]) + Count(lens, lens[sym])
    ensures Code(lens, sym) < Pow2(lens[sym])
    ensures MinLength(lens) <= lens[sym] <= MaxLength(lens)
    ensures Code(lens, sym) <= Limit(lens, lens[sym])
  {
    var c, n := lens[sym], |lens|;
    assert Count(lens[..sym], c) < Count(lens, c) by {
      CountPrefix<byte>(lens, sym, n, c);
      assert lens[..n] == lens;
    }
    CodesFit(lens, d, c);
  }

  /** A proper prefix of a code exceeds the limit of its length: the decoder keeps reading. */
  lemma ShorterPrefixExceedsLimit(lens: seq<byte>, d: nat, sym: nat, n: nat)
    requires ValidLengths(lens, d) && d < 256 && sym < |lens|
    requires MinLength(lens) <= n < lens[sym]
    ensures Limit(lens, n) < ShiftRight(Code(lens, sym), lens[sym] - n) < Pow2(n)
  {
    hide FirstCode, Count, Kraft, Code, MinLength, MaxLength, Pow2, ShiftRight;
    CodeInRange(lens, d, sym);
    LongerCodesAbove(lens, n, lens[sym], Code(lens, sym));
    ShiftRightFits(Code(lens, sym), n, lens[sym] - n);
  }

  lemma {:induction false} NoneBelowMinimum(lens: seq<byte>, n: nat)
    requires n <= MinLength(lens)
    ensures CountLess(lens, n) == 0 && FirstCode(lens, n) == 0
  {
    NoneLess(lens, n);
    if n > 0 {
      NoneBelowMinimum(lens, n - 1);
      CountLessStep(lens, (n - 1) as byte);
    }
  }

  lemma {:induction false} NoneLess(lens: seq<byte>, n: nat)
    requires forall i :: 0 <= i < |lens| ==> n <= lens[i]
    ensures CountLess(lens, n) == 0
  {
    if lens != [] {
      NoneLess(lens[..|lens| - 1], n);
    }
  }

  /** Code minus base is the rank of the symbol among all symbols sorted by code length. */
  lemma BaseGivesRank(lens: seq<byte>, d: nat, sym: nat)
    requires ValidLengths(lens, d) && d < 256 && sym < |lens|
    ensures Code(lens, sym) - Base(lens, lens[sym]) == Rank(lens, sym)
    ensures 0 <= Code(lens, sym) - Base(lens, lens[sym]) < |lens|
    ensures Unrank(lens)[Code(lens, sym) - Base(lens, lens[sym])] == sym
  {
    CodeInRange(lens, d, sym);
    if lens[sym] == MinLength(lens) {
      NoneBelowMinimum(lens, lens[sym]);
    }
    UnrankInverse(lens);
    UnrankOfRank(lens, Unrank(lens), sym);
  }

  /** No code is a prefix of another symbol's code. */
  lemma PrefixFree(lens: seq<byte>, d: nat, x: nat, y: nat)
    requires ValidLengths(lens, d) && d < 256 && x < |lens| && y < |lens| && x != y
    ensures !(CodeBits(lens, x) <= CodeBits(lens, y))
  {
    var n, m := lens[x], lens[y];
    if n == m {
      SameLengthCodesDiffer(lens, d, x, y);
    } else if n < m {
      LongerCodeDiverges(lens, d, x, y);
    }
  }

  lemma SameLengthCodesDiffer(lens: seq<byte>, d: nat, x: nat, y: nat)
    requires ValidLengths(lens, d) && d < 256 && x < |lens| && y < |lens| && x != y && lens[x] == lens[y]
    ensures CodeBits(lens, x) != CodeBits(lens, y)
  {
    CodeInRange(lens, d, x);
    CodeInRange(lens, d, y);
    FromToBits(lens[x], Code(lens, x));
    FromToBits(lens[y], Code(lens, y));
    if x < y {
      CountPrefix<byte>(lens, x, y, lens[x]);
    } else {
      CountPrefix<byte>(lens, y, x, lens[x]);
    }
  }

  lemma LongerCodeDiverges(lens: seq<byte>, d: nat, x: nat, y: nat)
    requires ValidLengths(lens, d) && d < 256 && x < |lens| && y < |lens| && lens[x] < lens[y]
    ensures CodeBits(lens, y)[..lens[x]] != CodeBits(lens, x)
  {
    hide FirstCode, Count, Kraft, Code, MinLength, MaxLength, Pow2, ShiftRight, ToBits;
    var n, m := lens[x], lens[y];
    var top := ShiftRight(Code(lens, y), m - n);
    CodeInRange(lens, d, x);
    CodeInRange(lens, d, y);
    ShorterPrefixExceedsLimit(lens, d, y, n);
    ToBitsSplit(n, m - n, Code(lens, y));
    FromToBits(n, Code(lens, x));
    FromToBits(n, top);
    assert CodeBits(lens, y)[..n] == ToBits(n, top);
  }
}
