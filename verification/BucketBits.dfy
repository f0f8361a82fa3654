/** bhtab: one bit per position in 32-bit words, and the searches that skip over whole words. A word is the
    sequence of its 32 bits, lowest first. */
module BucketBits {
  import opened Numbers

  type Word32 = w: seq<bool> | |w| == 32 witness seq(32, _ => false)

  function AllBits(b: bool): (w: Word32)
    ensures forall j :: 0 <= j < 32 ==> w[j] == b
  {
    seq(32, _ => b)
  }

  /** ISSET_BH. */
  function IsSet(bhtab: seq<Word32>, k: nat): bool
    requires k / 32 < |bhtab|
  {
    bhtab[k / 32][k % 32]
  }

  /** SET_BH and CLEAR_BH: no other bit changes. */
  method Put(bhtab: array<Word32>, zz: nat, b: bool)
    requires zz / 32 < bhtab.Length
    modifies bhtab
    ensures forall k: nat :: k / 32 < bhtab.Length ==> IsSet(bhtab[..], k) == if k == zz then b else old(IsSet(bhtab[..], k))
  {
    ghost var a := bhtab[..];
    bhtab[zz / 32] := bhtab[zz / 32][zz % 32 := b];
    forall k: nat | k / 32 < |a| ensures IsSet(bhtab[..], k) == if k == zz then b else IsSet(a, k) {
      if k / 32 == zz / 32 && k % 32 == zz % 32 {
        assert k == 32 * (k / 32) + k % 32;
      }
    }
  }

  /** All bits from lo up to hi have the value b. */
  ghost predicate Uniform(bhtab: seq<Word32>, lo: nat, hi: nat, b: bool) {
    forall k :: lo <= k < hi ==> k / 32 < |bhtab| && IsSet(bhtab, k) == b
  }

  lemma NoneYet(bhtab: seq<Word32>, k: nat, b: bool)
    ensures Uniform(bhtab, k, k, b)
  {
  }

  lemma OneMore(bhtab: seq<Word32>, lo: nat, k: nat, b: bool, stop: nat)
    requires Uniform(bhtab, lo, k, b) && lo <= k <= stop && stop / 32 < |bhtab| && IsSet(bhtab, k) == b && IsSet(bhtab, stop) != b
    ensures k < stop && Uniform(bhtab, lo, k + 1, b)
  {
  }

  lemma WholeWord(bhtab: seq<Word32>, lo: nat, k: nat, b: bool, stop: nat)
    requires k % 32 == 0 && k <= stop && stop / 32 < |bhtab| && Uniform(bhtab, lo, k, b) && lo <= k
    requires bhtab[k / 32] == AllBits(b) && IsSet(bhtab, stop) != b
    ensures k + 32 <= stop && Uniform(bhtab, lo, k + 32, b)
  {
    forall i | k <= i < k + 32 ensures i / 32 < |bhtab| && IsSet(bhtab, i) == b {
      DivUnique(i, 32, k / 32, i - k);
    }
  }

  /** The first bit from k on that is not b: bit by bit up to a word boundary, then word by word, then bit by bit.
      This finds what a plain bit-by-bit search would, as long as some bit at or before stop differs from b. */
  method FirstOther(bhtab: array<Word32>, from: nat, b: bool, ghost stop: nat) returns (k: nat)
    requires from <= stop && stop / 32 < bhtab.Length && IsSet(bhtab[..], stop) != b
    ensures from <= k <= stop && IsSet(bhtab[..], k) != b && Uniform(bhtab[..], from, k, b)
  {
    hide AllBits, Uniform;
    NoneYet(bhtab[..], from, b);
    ghost var a := bhtab[..];
    k := from;
    while bhtab[k / 32][k % 32] == b && k % 32 != 0
      invariant from <= k <= stop && Uniform(a, from, k, b)
      decreases stop - k
    {
      OneMore(a, from, k, b, stop);
      k := k + 1;
    }
    if bhtab[k / 32][k % 32] == b {
      while bhtab[k / 32] == AllBits(b)
        invariant from <= k <= stop && k % 32 == 0 && Uniform(a, from, k, b)
        decreases stop - k
      {
        WholeWord(a, from, k, b, stop);
        k := k + 32;
      }
      while bhtab[k / 32][k % 32] == b
        invariant from <= k <= stop && Uniform(a, from, k, b)
        decreases stop - k
      {
        OneMore(a, from, k, b, stop);
        k := k + 1;
      }
    }
  }
}
