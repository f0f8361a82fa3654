/** BZ2_hbAssignCodes and BZ2_hbCreateDecodeTables: the loops that fill the code and decode tables. */
module HuffmanTables {
  import opened Limits
  import opened Numbers
  import opened CountingSort
  import opened CanonicalCodes

  lemma CountOne(lens: seq<byte>, i: nat, n: byte)
    requires i < |lens|
    ensures Count(lens[..i + 1], n) == Count(lens[..i], n) + if lens[i] == n then 1 else 0
  {
    assert lens[..i + 1][..i] == lens[..i];
  }

  /** Codes of one length, in symbol order. */
  method AssignLength(code: array<int>, lens: seq<byte>, n: byte, vec: nat) returns (next: nat)
    requires |lens| <= code.Length && vec == FirstCode(lens, n)
    requires forall i :: 0 <= i < |lens| && lens[i] < n ==> code[i] == Code(lens, i)
    modifies code
    ensures next == FirstCode(lens, n) + Count(lens, n)
    ensures forall i :: 0 <= i < |lens| && lens[i] <= n ==> code[i] == Code(lens, i)
    ensures code[|lens|..] == old(code[|lens|..])
  {
    next := vec;
    for i := 0 to |lens|
      invariant next == vec + Count(lens[..i], n)
      invariant forall k :: 0 <= k < |lens| && (lens[k] < n || (lens[k] == n && k < i)) ==> code[k] == Code(lens, k)
      invariant code[|lens|..] == old(code[|lens|..])
    {
      CountOne(lens, i, n);
      if lens[i] == n {
        code[i] := next;
        next := next + 1;
      }
    }
    assert lens[..|lens|] == lens;
  }

  /** BZ2_hbAssignCodes. */
  method AssignCodes(code: array<int>, lens: seq<byte>, minLen: nat, maxLen: nat)
    requires |lens| <= code.Length && minLen <= MinLength(lens) && maxLen == MaxLength(lens) <= LONGEST_CODE
    modifies code
    ensures forall i :: 0 <= i < |lens| ==> code[i] == Code(lens, i)
    ensures code[|lens|..] == old(code[|lens|..])
  {
    hide Code, Count, MinLength, MaxLength;
    var vec := 0;
    NoneBelowMinimum(lens, minLen);
    if |lens| > 0 {
      assert minLen <= lens[0] <= maxLen;
    }
    var n := minLen;
    while n <= maxLen
      invariant minLen <= n && (n <= maxLen + 1 || n == minLen)
      invariant n <= maxLen + 1 ==> vec == FirstCode(lens, n)
      invariant forall i :: 0 <= i < |lens| && lens[i] < n ==> code[i] == Code(lens, i)
      invariant code[|lens|..] == old(code[|lens|..])
    {
      vec := AssignLength(code, lens, n, vec);
      vec := 2 * vec;
      n := n + 1;
    }
  }

  // ----- decode tables -----

  /** Symbols of one length, in symbol order, behind those of the shorter lengths. */
  method SortLength(perm: array<int>, lens: seq<byte>, n: byte, pp: nat) returns (next: nat)
    requires |lens| <= perm.Length && pp == CountLess(lens, n)
    requires forall j :: 0 <= j < |lens| && lens[j] < n ==> Rank(lens, j) < |lens| && perm[Rank(lens, j)] == j
    modifies perm
    ensures next == CountLess(lens, n as nat + 1)
    ensures forall j :: 0 <= j < |lens| && lens[j] <= n ==> Rank(lens, j) < |lens| && perm[Rank(lens, j)] == j
  {
    hide CountLess;
    next := pp;
    for j := 0 to |lens|
      invariant next == pp + Count(lens[..j], n)
      invariant forall k :: 0 <= k < |lens| && (lens[k] < n || (lens[k] == n && k < j)) ==>
                  Rank(lens, k) < |lens| && perm[Rank(lens, k)] == k
    {
      CountOne(lens, j, n);
      if lens[j] == n {
        RankBucket(lens, j);
        assert next == Rank(lens, j);
        forall k | 0 <= k < |lens| && (lens[k] < n || (lens[k] == n && k < j)) ensures Rank(lens, k) < next {
          RankMonotone(lens, k, j);
        }
        perm[next] := j;
        next := next + 1;
      }
    }
    assert lens[..|lens|] == lens;
    CountLessStep(lens, n);
  }

  /** perm lists the symbols by code length. */
  method SortSymbols(perm: array<int>, lens: seq<byte>, minLen: nat, maxLen: nat)
    requires |lens| <= perm.Length && minLen == MinLength(lens) && maxLen == MaxLength(lens) <= LONGEST_CODE
    modifies perm
    ensures perm[..|lens|] == Unrank(lens)
  {
    hide CountLess, Rank;
    var pp := 0;
    NoneBelowMinimum(lens, minLen);
    for i := minLen to Max(minLen, maxLen + 1)
      invariant pp == CountLess(lens, i)
      invariant forall j :: 0 <= j < |lens| && lens[j] < i ==> Rank(lens, j) < |lens| && perm[Rank(lens, j)] == j
    {
      pp := SortLength(perm, lens, i, pp);
    }
    UnrankInverse(lens);
    forall r | 0 <= r < |lens| ensures perm[r] == Unrank(lens)[r] {
      assert Rank(lens, Unrank(lens)[r]) == r;
    }
  }

  /** base counts the symbols of shorter length. */
  method CountShorter(base: array<int>, lens: seq<byte>)
    requires base.Length >= MAX_CODE_LEN && forall i :: 0 <= i < |lens| ==> lens[i] <= LONGEST_CODE
    modifies base
    ensures forall n :: 0 <= n < MAX_CODE_LEN ==> base[n] == CountLess(lens, n)
  {
    for i := 0 to MAX_CODE_LEN
      invariant forall k :: 0 <= k < i ==> base[k] == 0
    {
      base[i] := 0;
    }
    for i := 0 to |lens|
      invariant forall k: byte :: 0 < k < MAX_CODE_LEN ==> base[k] == Count(lens[..i], (k - 1) as byte)
      invariant base[0] == 0
    {
      forall c: byte ensures Count(lens[..i + 1], c) == Count(lens[..i], c) + if lens[i] == c then 1 else 0 {
        CountOne(lens, i, c);
      }
      base[lens[i] + 1] := base[lens[i] + 1] + 1;
    }
    assert lens[..|lens|] == lens;
    CountLessAll(lens);
    for i := 1 to MAX_CODE_LEN
      invariant forall k :: 0 <= k < i ==> base[k] == CountLess(lens, k)
      invariant forall k: byte :: i <= k < MAX_CODE_LEN ==> base[k] == Count(lens, (k - 1) as byte)
    {
      CountLessStep(lens, (i - 1) as byte);
      base[i] := base[i] + base[i - 1];
    }
  }

  /** The largest code of each length. */
  method SetLimits(limit: array<int>, base: array<int>, lens: seq<byte>, minLen: nat, maxLen: nat)
    requires limit != base && limit.Length >= MAX_CODE_LEN && base.Length >= MAX_CODE_LEN
    requires minLen == MinLength(lens) && maxLen == MaxLength(lens) <= LONGEST_CODE
    requires forall n :: 0 <= n < MAX_CODE_LEN ==> base[n] == CountLess(lens, n)
    modifies limit
    ensures forall n :: 0 <= n < MAX_CODE_LEN ==> limit[n] == Limit(lens, n)
  {
    hide CountLess;
    for i := 0 to MAX_CODE_LEN
      invariant forall k :: 0 <= k < i ==> limit[k] == 0
    {
      limit[i] := 0;
    }
    var vec := 0;
    NoneBelowMinimum(lens, minLen);
    for i := minLen to Max(minLen, maxLen + 1)
      invariant vec == FirstCode(lens, i)
      invariant forall k :: 0 <= k < MAX_CODE_LEN ==> limit[k] == if minLen <= k < i then Limit(lens, k) else 0
    {
      CountLessStep(lens, i);
      vec := vec + (base[i + 1] - base[i]);
      limit[i] := vec - 1;
      vec := 2 * vec;
    }
  }

  /** From counts to what has to be subtracted from a code. */
  method SetBases(limit: array<int>, base: array<int>, lens: seq<byte>, minLen: nat, maxLen: nat)
    requires limit != base && limit.Length >= MAX_CODE_LEN && base.Length >= MAX_CODE_LEN
    requires minLen == MinLength(lens) && maxLen == MaxLength(lens) <= LONGEST_CODE
    requires forall n :: 0 <= n < MAX_CODE_LEN ==> base[n] == CountLess(lens, n) && limit[n] == Limit(lens, n)
    modifies base
    ensures forall n :: 0 <= n < MAX_CODE_LEN ==> base[n] == Base(lens, n)
  {
    hide CountLess;
    for i := minLen + 1 to Max(minLen + 1, maxLen + 1)
      invariant forall k :: 0 <= k < MAX_CODE_LEN ==> base[k] == if minLen < k < i then Base(lens, k) else CountLess(lens, k)
    {
      base[i] := 2 * (limit[i - 1] + 1) - base[i];
    }
  }

  /** BZ2_hbCreateDecodeTables: the tables are those the decoder is proved with. */
  method CreateDecodeTables(limit: array<int>, base: array<int>, perm: array<int>, lens: seq<byte>, minLen: nat, maxLen: nat)
    requires limit != base && limit != perm && base != perm
    requires limit.Length >= MAX_CODE_LEN && base.Length >= MAX_CODE_LEN && perm.Length >= |lens|
    requires minLen == MinLength(lens) && maxLen == MaxLength(lens) <= LONGEST_CODE
    modifies limit, base, perm
    ensures perm[..|lens|] == Unrank(lens)
    ensures forall n :: 0 <= n < MAX_CODE_LEN ==> limit[n] == Limit(lens, n) && base[n] == Base(lens, n)
  {
    SortSymbols(perm, lens, minLen, maxLen);
    CountShorter(base, lens);
    SetLimits(limit, base, lens, minLen, maxLen);
    SetBases(limit, base, lens, minLen, maxLen);
  }

  /** Shortest and longest length of a table. */
  method LengthRange(lens: seq<byte>) returns (minLen: nat, maxLen: nat)
    ensures minLen == MinLength(lens) && maxLen == MaxLength(lens)
  {
    minLen, maxLen := 32, 0;
    for i := 0 to |lens|
      invariant minLen == MinLength(lens[..i]) && maxLen == MaxLength(lens[..i])
    {
      assert lens[..i + 1][..i] == lens[..i];
      if lens[i] > maxLen {
        maxLen := lens[i];
      }
      if lens[i] < minLen {
        minLen := lens[i];
      }
    }
    assert lens[..|lens|] == lens;
  }
}
