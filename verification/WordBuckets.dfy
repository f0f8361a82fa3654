/** The small buckets of the main sort: rows grouped by their first two bytes. */
module WordBuckets {
  import opened Numbers
  import opened Permutations
  import opened Rotations

  /** How many of the words from i on are k. */
  function Hits(w: seq<nat>, i: nat, k: nat): (h: nat)
    requires i <= |w|
    decreases |w| - i
  {
    if i == |w| then 0 else Hits(w, i + 1, k) + if w[i] == k then 1 else 0
  }

  /** How many of the words from i on are below k. */
  function Under(w: seq<nat>, i: nat, k: nat): (h: nat)
    requires i <= |w|
    ensures h <= |w| - i
    decreases |w| - i
  {
    if i == |w| then 0 else Under(w, i + 1, k) + if w[i] < k then 1 else 0
  }

  lemma {:induction false} UnderStep(w: seq<nat>, i: nat, k: nat)
    requires i <= |w|
    ensures Under(w, i, k + 1) == Under(w, i, k) + Hits(w, i, k)
    decreases |w| - i
  {
    if i < |w| {
      UnderStep(w, i + 1, k);
    }
  }

  lemma {:induction false} UnderMonotone(w: seq<nat>, i: nat, k: nat, l: nat)
    requires i <= |w| && k <= l
    ensures Under(w, i, k) <= Under(w, i, l)
    decreases |w| - i
  {
    if i < |w| {
      UnderMonotone(w, i + 1, k, l);
    }
  }

  lemma {:induction false} UnderEnds(w: seq<nat>, i: nat, m: nat)
    requires i <= |w| && forall p :: 0 <= p < |w| ==> w[p] < m
    ensures Under(w, i, 0) == 0 && Under(w, i, m) == |w| - i && Hits(w, i, m) == 0
    decreases |w| - i
  {
    if i < |w| {
      UnderEnds(w, i + 1, m);
    }
  }

  lemma {:induction false} HitsShrink(w: seq<nat>, i: nat, j: nat, k: nat)
    requires i <= j <= |w|
    ensures Hits(w, j, k) <= Hits(w, i, k)
    decreases j - i
  {
    if i < j {
      HitsShrink(w, i + 1, j, k);
    }
  }

  /** The rows whose word is k. */
  ghost function RowsOf(w: seq<nat>, i: nat, k: nat): (s: set<int>)
    requires i <= |w|
  {
    set p | p in Range(|w|) && i <= p && w[p] == k
  }

  lemma {:induction false} RowsCounted(w: seq<nat>, i: nat, k: nat)
    requires i <= |w|
    ensures |RowsOf(w, i, k)| == Hits(w, i, k)
    decreases |w| - i
  {
    if i < |w| {
      RowsCounted(w, i + 1, k);
      if w[i] == k {
        assert RowsOf(w, i, k) == RowsOf(w, i + 1, k) + {i as int};
        assert i !in RowsOf(w, i + 1, k);
      } else {
        assert RowsOf(w, i, k) == RowsOf(w, i + 1, k);
      }
    } else {
      assert RowsOf(w, i, k) == {};
    }
  }

  /** Distinct rows with the word k. */
  ghost predicate RowsWith(w: seq<nat>, s: seq<int>, k: nat) {
    && Injective(s)
    && forall i :: 0 <= i < |s| ==> 0 <= s[i] < |w| && w[s[i]] == k
  }

  /** There are at most as many of them as the bucket has places; if there are as many, none is missing. */
  lemma RowsFit(w: seq<nat>, s: seq<int>, k: nat)
    requires RowsWith(w, s, k)
    ensures |s| <= Hits(w, 0, k)
    ensures |s| == Hits(w, 0, k) ==> forall r :: 0 <= r < |w| && w[r] == k ==> r in s
    ensures (forall r :: 0 <= r < |w| && w[r] == k ==> r in s) ==> |s| == Hits(w, 0, k)
  {
    hide Injective;
    RowsCounted(w, 0, k);
    InjectiveCardinality(s);
    forall x | x in Elements(s) ensures x in RowsOf(w, 0, k) {
      assert x in s;
    }
    SubsetCardinality(Elements(s), RowsOf(w, 0, k));
    if |s| == Hits(w, 0, k) {
      forall r | 0 <= r < |w| && w[r] == k ensures r in s {
        assert r in RowsOf(w, 0, k);
      }
    }
    if forall r :: 0 <= r < |w| && w[r] == k ==> r in s {
      assert RowsOf(w, 0, k) <= Elements(s);
      SubsetCardinality(RowsOf(w, 0, k), Elements(s));
    }
  }

  // ----- buckets of a block -----

  const WORDS: nat := 65536

  ghost function WordOf(b: seq<byte>, p: nat): (w: nat)
    requires b != []
    ensures w < WORDS
  {
    256 * At(b, p) + At(b, p + 1)
  }

  /** The first two bytes of every row. */
  ghost function Words(b: seq<byte>): (w: seq<nat>)
    requires b != []
    ensures |w| == |b| && forall p :: 0 <= p < |b| ==> w[p] == WordOf(b, p) < WORDS
  {
    seq<nat>(|b|, p requires 0 <= p < |b| => WordOf(b, p))
  }

  /** Where bucket k starts. */
  ghost function Start(b: seq<byte>, k: nat): (s: nat)
    requires b != []
    ensures s <= |b|
  {
    Under(Words(b), 0, k)
  }

  lemma StartNext(b: seq<byte>, k: nat)
    requires b != []
    ensures Start(b, k + 1) == Start(b, k) + Hits(Words(b), 0, k)
  {
    UnderStep(Words(b), 0, k);
  }

  lemma StartMonotone(b: seq<byte>, k: nat, l: nat)
    requires b != [] && k <= l
    ensures Start(b, k) <= Start(b, l)
  {
    UnderMonotone(Words(b), 0, k, l);
  }

  lemma StartEnds(b: seq<byte>)
    requires b != []
    ensures Start(b, 0) == 0 && Start(b, WORDS) == |b|
  {
    UnderEnds(Words(b), 0, WORDS);
  }

  /** What the places of bucket k hold. */
  ghost function BucketOf(f: seq<int>, b: seq<byte>, k: nat): (s: seq<int>)
    requires b != [] && |b| <= |f|
    ensures |s| == Hits(Words(b), 0, k)
  {
    StartNext(b, k);
    f[Start(b, k)..Start(b, k + 1)]
  }

  /** Bucket k holds exactly its rows, in some order. */
  ghost predicate BucketOk(f: seq<int>, b: seq<byte>, k: nat) {
    b != [] && |b| <= |f| && RowsWith(Words(b), BucketOf(f, b, k), k)
  }

  ghost predicate AllBuckets(f: seq<int>, b: seq<byte>) {
    b != [] && |b| <= |f| && forall k :: 0 <= k < WORDS ==> BucketOk(f, b, k)
  }

  lemma BucketAt(f: seq<int>, b: seq<byte>, k: nat, x: nat)
    requires BucketOk(f, b, k) && Start(b, k) <= x < Start(b, k + 1)
    ensures x < |f| && 0 <= f[x] < |b| && Words(b)[f[x]] == k
  {
    hide At;
    assert BucketOf(f, b, k)[x - Start(b, k)] == f[x];
  }

  /** Every row is in its bucket. */
  lemma RowFound(f: seq<int>, b: seq<byte>, k: nat, r: nat) returns (x: nat)
    requires BucketOk(f, b, k) && r < |b| && Words(b)[r] == k
    ensures Start(b, k) <= x < Start(b, k + 1) && x < |f| && f[x] == r
  {
    hide At, RowsWith, Start, Words;
    var s := BucketOf(f, b, k);
    RowsFit(Words(b), s, k);
    var i :| 0 <= i < |s| && s[i] == r;
    x := Start(b, k) + i;
  }

  /** The word whose bucket contains place x. */
  ghost function WordAt(b: seq<byte>, x: nat, k: nat): (r: nat)
    requires b != [] && x < Start(b, k)
    ensures r < k && Start(b, r) <= x < Start(b, r + 1)
    decreases k
  {
    StartEnds(b);
    if Start(b, k - 1) <= x then k - 1 else WordAt(b, x, k - 1)
  }

  /** Places of different buckets are in the order of their words. */
  lemma PlacesOrdered(b: seq<byte>, k: nat, l: nat, x: nat, y: nat)
    requires b != [] && Start(b, k) <= x < Start(b, k + 1) && Start(b, l) <= y < Start(b, l + 1)
    ensures k < l ==> x < y
    ensures x == y ==> k == l
  {
    hide Start;
    if k < l {
      StartMonotone(b, k + 1, l);
    } else if l < k {
      StartMonotone(b, l + 1, k);
    }
  }

  /** All buckets together hold every row once. */
  lemma BucketsPermutation(f: seq<int>, b: seq<byte>)
    requires AllBuckets(f, b)
    ensures IsPermutation(f[..|b|], |b|)
  {
    hide At, BucketOk, Start, Words;
    var n := |b|;
    StartEnds(b);
    forall x | 0 <= x < n ensures 0 <= f[x] < n {
      var k := WordAt(b, x, WORDS);
      BucketAt(f, b, k, x);
    }
    forall x, y | 0 <= x < y < n ensures f[x] != f[y] {
      var k, l := WordAt(b, x, WORDS), WordAt(b, y, WORDS);
      BucketAt(f, b, k, x);
      BucketAt(f, b, l, y);
      if k == l {
        BucketDistinct(f, b, k, x, y);
      }
    }
  }

  lemma BucketDistinct(f: seq<int>, b: seq<byte>, k: nat, x: nat, y: nat)
    requires BucketOk(f, b, k) && Start(b, k) <= x < y < Start(b, k + 1)
    ensures y < |f| && f[x] != f[y]
  {
    hide At, Words, Start;
    var s := BucketOf(f, b, k);
    assert s[x - Start(b, k)] == f[x] && s[y - Start(b, k)] == f[y];
  }
}
