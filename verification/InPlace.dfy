/** Rearranging a stretch of an array in place: swaps, and the hole that insertion loops move. */
module InPlace {

  function Swap(h: seq<int>, i: nat, j: nat): (r: seq<int>)
    requires i < |h| && j < |h|
    ensures |r| == |h|
  {
    h[i := h[j]][j := h[i]]
  }

  /** The entries from lo up to hi have been permuted, the others are as they were. */
  ghost predicate Rearranged(a: seq<int>, b: seq<int>, lo: nat, hi: nat) {
    && lo <= hi <= |a| == |b|
    && a[..lo] == b[..lo] && a[hi..] == b[hi..] && multiset(a[lo..hi]) == multiset(b[lo..hi])
  }

  lemma Unmoved(a: seq<int>, lo: nat, hi: nat)
    requires lo <= hi <= |a|
    ensures Rearranged(a, a, lo, hi)
  {
  }

  lemma SwapRearranges(a: seq<int>, h: seq<int>, i: nat, j: nat, lo: nat, hi: nat)
    requires Rearranged(a, h, lo, hi) && lo <= i < hi && lo <= j < hi
    ensures Rearranged(a, Swap(h, i, j), lo, hi)
  {
    assert Swap(h, i, j)[lo..hi] == Swap(h[lo..hi], i - lo, j - lo);
    assert Swap(h, i, j)[..lo] == h[..lo] && Swap(h, i, j)[hi..] == h[hi..];
  }

  lemma RearrangedTwice(a: seq<int>, b: seq<int>, c: seq<int>, lo: nat, hi: nat)
    requires Rearranged(a, b, lo, hi) && Rearranged(b, c, lo, hi)
    ensures Rearranged(a, c, lo, hi)
  {
  }

  /** A stretch within a longer one. */
  lemma RearrangedWider(a: seq<int>, b: seq<int>, lo: nat, hi: nat, lo': nat, hi': nat)
    requires Rearranged(a, b, lo, hi) && lo' <= lo && hi <= hi' <= |a|
    ensures Rearranged(a, b, lo', hi')
  {
    forall k | 0 <= k < lo ensures a[k] == b[k] {
      assert a[..lo][k] == b[..lo][k];
    }
    forall k | hi <= k < |a| ensures a[k] == b[k] {
      assert a[hi..][k - hi] == b[hi..][k - hi];
    }
    assert a[lo'..hi'] == a[lo'..lo] + a[lo..hi] + a[hi..hi'];
    assert b[lo'..hi'] == b[lo'..lo] + b[lo..hi] + b[hi..hi'];
    assert a[lo'..lo] == b[lo'..lo] && a[hi..hi'] == b[hi..hi'];
  }

  /** What stands in the stretch now stood in it before; what stands outside has not moved. */
  lemma RearrangedAt(a: seq<int>, b: seq<int>, lo: nat, hi: nat, k: nat) returns (j: nat)
    requires Rearranged(a, b, lo, hi) && k < |a|
    ensures j < |a| && b[k] == a[j] && (if lo <= k < hi then lo <= j < hi else j == k)
  {
    if lo <= k < hi {
      assert b[lo..hi][k - lo] in multiset(b[lo..hi]);
      assert b[k] in a[lo..hi];
      var i :| 0 <= i < hi - lo && a[lo..hi][i] == b[k];
      j := lo + i;
    } else {
      j := k;
      assert k < lo ==> a[..lo][k] == b[..lo][k];
      assert k >= hi ==> a[hi..][k - hi] == b[hi..][k - hi];
    }
  }

  /** The array with a hole at z, and the sequence it stands for: tmp fills the hole. */
  ghost predicate HoleAt(arr: seq<int>, full: seq<int>, z: nat, tmp: int) {
    z < |arr| && full == arr[z := tmp]
  }

  lemma HoleMoves(arr: seq<int>, full: seq<int>, z: nat, y: nat, tmp: int)
    requires HoleAt(arr, full, z, tmp) && y < |arr| && y != z
    ensures arr[y] == full[y] && full[z] == tmp
    ensures HoleAt(arr[z := arr[y]], Swap(full, z, y), y, tmp)
  {
  }
}
