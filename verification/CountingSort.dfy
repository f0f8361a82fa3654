/** Stable counting sort of a byte sequence: the rank of every position and its inverse.
    The decoder uses it twice: on the last column of a block and on the code lengths of a Huffman table. */
module CountingSort {
  import opened Numbers
  import opened Permutations

  /** How many bytes of col are below c: where the bucket of c starts in the sorted sequence. */
  function CountLess(col: seq<byte>, c: nat): (k: nat)
    ensures k <= |col|
  {
    if col == [] then 0
    else CountLess(col[..|col| - 1], c) + if col[|col| - 1] < c then 1 else 0
  }

  /** The position of col[i] after a stable sort of col. */
  function Rank(col: seq<byte>, i: nat): nat
    requires i < |col|
  {
    CountLess(col, col[i]) + Count(col[..i], col[i])
  }

  /** link is the inverse of Rank. */
  ghost predicate IsUnrank(col: seq<byte>, link: seq<int>) {
    && |link| == |col|
    && forall r :: 0 <= r < |col| ==> 0 <= link[r] < |col| && Rank(col, link[r]) == r
  }

  lemma {:induction false} CountLessStep(col: seq<byte>, c: byte)
    ensures CountLess(col, c as nat + 1) == CountLess(col, c) + Count(col, c)
  {
    if col != [] {
      CountLessStep(col[..|col| - 1], c);
    }
  }

  lemma {:induction false} CountLessMonotone(col: seq<byte>, c: nat, d: nat)
    requires c <= d
    ensures CountLess(col, c) <= CountLess(col, d)
  {
    if col != [] {
      CountLessMonotone(col[..|col| - 1], c, d);
    }
  }

  lemma {:induction false} CountLessAll(col: seq<byte>)
    ensures CountLess(col, 256) == |col| && CountLess(col, 0) == 0
  {
    if col != [] {
      CountLessAll(col[..|col| - 1]);
    }
  }

  lemma {:induction false} CountPrefix<T>(s: seq<T>, i: nat, j: nat, x: T)
    requires i <= j <= |s|
    ensures Count(s[..i], x) <= Count(s[..j], x)
    ensures i < j && s[i] == x ==> Count(s[..i], x) < Count(s[..j], x)
    decreases j
  {
    if i < j {
      assert s[..j][..j - 1] == s[..j - 1];
      CountPrefix(s, i, j - 1, x);
    }
  }

  /** The bucket of byte c is [CountLess(c), CountLess(c + 1)). */
  lemma RankBucket(col: seq<byte>, i: nat)
    requires i < |col|
    ensures CountLess(col, col[i]) <= Rank(col, i) < CountLess(col, col[i] as nat + 1) <= |col|
  {
    var c := col[i];
    var n := |col|;
    CountLessStep(col, c);
    assert Count(col[..i], c) < Count(col, c) by {
      CountPrefix<byte>(col, i, n, c);
      assert col[..n] == col;
    }
  }

  /** Ranks are monotone in (byte, position). */
  lemma RankMonotone(col: seq<byte>, i: nat, j: nat)
    requires i < |col| && j < |col|
    requires col[i] < col[j] || (col[i] == col[j] && i < j)
    ensures Rank(col, i) < Rank(col, j)
  {
    if col[i] < col[j] {
      RankBucket(col, i);
      RankBucket(col, j);
      CountLessMonotone(col, col[i] as nat + 1, col[j]);
    } else {
      CountPrefix<byte>(col, i, j, col[i]);
    }
  }

  /** The ranks form a permutation. */
  lemma RankPermutation(col: seq<byte>)
    ensures IsPermutation(seq(|col|, i requires 0 <= i < |col| => Rank(col, i)), |col|)
  {
    var t := seq(|col|, i requires 0 <= i < |col| => Rank(col, i));
    forall i | 0 <= i < |col| ensures 0 <= t[i] < |col| {
      RankBucket(col, i);
    }
    forall i, j | 0 <= i < j < |col| ensures t[i] != t[j] {
      if col[i] <= col[j] {
        RankMonotone(col, i, j);
      } else {
        RankMonotone(col, j, i);
      }
    }
  }

  /** The last i below k with rank r. */
  function Source(col: seq<byte>, r: nat, k: nat): (i: nat)
    requires k <= |col|
    ensures i < k || i == 0
    ensures (exists j :: 0 <= j < k && Rank(col, j) == r) ==> i < k && Rank(col, i) == r
  {
    if k == 0 then 0
    else if Rank(col, k - 1) == r then k - 1
    else Source(col, r, k - 1)
  }

  /** The inverse map, by search. */
  function Unrank(col: seq<byte>): (link: seq<int>)
    ensures |link| == |col|
  {
    seq(|col|, r requires 0 <= r < |col| => Source(col, r, |col|))
  }

  lemma UnrankInverse(col: seq<byte>)
    ensures IsUnrank(col, Unrank(col))
  {
    var n := |col|;
    var link := Unrank(col);
    var t := seq(n, i requires 0 <= i < n => Rank(col, i));
    RankPermutation(col);
    forall r | 0 <= r < n ensures 0 <= link[r] < n && Rank(col, link[r]) == r {
      PermutationHits(t, n, r);
      var i :| 0 <= i < n && t[i] == r;
      assert Rank(col, i) == r;
    }
  }

  lemma RankInjective(col: seq<byte>, i: nat, j: nat)
    requires i < |col| && j < |col| && Rank(col, i) == Rank(col, j)
    ensures i == j
  {
    if col[i] < col[j] || (col[i] == col[j] && i < j) {
      RankMonotone(col, i, j);
    } else if i != j {
      RankMonotone(col, j, i);
    }
  }

  /** The inverse map undoes Rank. */
  lemma UnrankOfRank(col: seq<byte>, link: seq<int>, i: nat)
    requires IsUnrank(col, link) && i < |col|
    ensures Rank(col, i) < |col| && link[Rank(col, i)] == i
  {
    RankBucket(col, i);
    RankInjective(col, i, link[Rank(col, i)]);
  }

  /** Sorted position r lies in the bucket of the byte it came from. */
  lemma UnrankBucket(col: seq<byte>, link: seq<int>, r: nat)
    requires IsUnrank(col, link) && r < |col|
    ensures CountLess(col, col[link[r]]) <= r < CountLess(col, col[link[r]] as nat + 1)
  {
    hide Rank, CountLess;
    RankBucket(col, link[r]);
  }
}
