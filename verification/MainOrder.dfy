/** The order of the main sort: ranks of rotations, the quadrant invariant and the comparison mainGtU. */
module MainOrder {
  import opened Limits
  import opened Numbers
  import opened Permutations
  import opened Rotations
  import opened FallbackOrder

  // ----- ranks -----

  /** The rows strictly before row p. */
  ghost function RowsBefore(b: seq<byte>, p: nat): (s: set<int>)
    requires b != []
    ensures s <= Range(|b|)
  {
    set q | q in Range(|b|) && LexLess(Window(b, q, |b|), Window(b, p, |b|))
  }

  /** Ranks: equal rotations have equal ranks, and ranks order rows like whole rotations. */
  ghost function RotRank(b: seq<byte>, p: nat): nat
    requires b != []
  {
    |RowsBefore(b, p)|
  }

  ghost function RotKeys(b: seq<byte>): (k: seq<nat>)
    requires b != []
    ensures |k| == |b|
  {
    seq(|b|, p requires 0 <= p < |b| => RotRank(b, p))
  }

  lemma RankOrders(b: seq<byte>, p: nat, q: nat)
    requires b != [] && p < |b| && q < |b|
    ensures RotKeys(b)[p] <= RotKeys(b)[q] <==> PrefixLeq(b, p, q, |b|)
  {
    hide LexLess, At;
    var n := |b|;
    LexTotal(Window(b, p, n), Window(b, q, n));
    if LexLess(Window(b, p, n), Window(b, q, n)) {
      RankLess(b, p, q);
    } else if LexLess(Window(b, q, n), Window(b, p, n)) {
      RankLess(b, q, p);
      LessNotGreater(Window(b, q, n), Window(b, p, n));
    } else {
      assert RowsBefore(b, p) == RowsBefore(b, q);
    }
  }

  lemma LessNotGreater(s: seq<byte>, t: seq<byte>)
    requires |s| == |t| && LexLess(s, t)
    ensures !LexLeq(t, s)
  {
    hide LexLess;
    LexIrreflexive(s);
    if LexLess(t, s) {
      LexLessTransitive(s, t, s);
    }
  }

  lemma RankLess(b: seq<byte>, p: nat, q: nat)
    requires b != [] && p < |b| && q < |b| && LexLess(Window(b, p, |b|), Window(b, q, |b|))
    ensures RotRank(b, p) < RotRank(b, q)
  {
    hide LexLess, At;
    var n := |b|;
    forall x | x in RowsBefore(b, p) ensures x in RowsBefore(b, q) {
      LexLessTransitive(Window(b, x, n), Window(b, p, n), Window(b, q, n));
    }
    LexIrreflexive(Window(b, p, n));
    assert p in RowsBefore(b, q) && p !in RowsBefore(b, p);
    SubsetCardinality(RowsBefore(b, p) + {p as int}, RowsBefore(b, q));
  }

  /** Rows that share d bytes, compared d places further on. */
  lemma SharedPrefix(b: seq<byte>, p: nat, q: nat, d: nat)
    requires b != [] && d <= |b| && Window(b, p, d) == Window(b, q, d) && PrefixLeq(b, p + d, q + d, |b|)
    ensures PrefixLeq(b, p, q, |b|)
  {
    hide LexLess, At;
    var n := |b|;
    LongerWindows(b, p, q, d, n - d);
    ShorterWindows(b, p + d, q + d, n - d, d);
  }

  // ----- block and quadrant with their overshoot -----

  /** The block followed by its first bytes again. */
  ghost predicate Overshot(block: seq<byte>, b: seq<byte>) {
    && |b| > N_OVERSHOOT && |block| >= |b| + N_OVERSHOOT
    && forall i :: 0 <= i < |b| + N_OVERSHOOT ==> block[i] == At(b, i)
  }

  /** Among positions with the same byte, a smaller quadrant means an earlier row, or an equal one. */
  ghost predicate QuadrantOk(b: seq<byte>, quadrant: seq<nat>) {
    && b != [] && |quadrant| >= |b| + N_OVERSHOOT
    && forall i, j :: 0 <= i < |b| + N_OVERSHOOT && 0 <= j < |b| + N_OVERSHOOT && At(b, i) == At(b, j) && quadrant[i] < quadrant[j] ==>
         PrefixLeq(b, i, j, |b|)
  }

  /** The first t bytes from i1 and from i2 agree. */
  ghost predicate Agree(b: seq<byte>, i1: nat, i2: nat, t: nat)
    requires b != []
  {
    Window(b, i1, t) == Window(b, i2, t)
  }

  lemma AgreeMore(b: seq<byte>, i1: nat, i2: nat, t: nat)
    requires b != [] && Agree(b, i1, i2, t) && At(b, i1 + t) == At(b, i2 + t)
    ensures Agree(b, i1, i2, t + 1)
  {
    hide At;
    WindowSplit(b, i1, t, 1);
    WindowSplit(b, i2, t, 1);
    assert Window(b, i1 + t, 1) == Window(b, i2 + t, 1);
  }

  lemma AgreeLess(b: seq<byte>, i1: nat, i2: nat, t: nat, u: nat)
    requires b != [] && Agree(b, i1, i2, t) && u <= t
    ensures Agree(b, i1, i2, u)
  {
    hide At;
    assert Window(b, i1, u) == Window(b, i1, t)[..u] && Window(b, i2, u) == Window(b, i2, t)[..u];
  }

  lemma AllAgree(b: seq<byte>, i1: nat, i2: nat, t: nat)
    requires b != [] && Agree(b, i1, i2, t) && t >= |b|
    ensures PrefixLeq(b, i1, i2, |b|) && PrefixLeq(b, i2, i1, |b|)
  {
    hide At, LexLess;
    AgreeLess(b, i1, i2, t, |b|);
  }

  /** A difference in the byte behind the common ones decides. */
  lemma ByteDecides(b: seq<byte>, i1: nat, i2: nat, t: nat)
    requires b != [] && Agree(b, i1, i2, t) && At(b, i1 + t) < At(b, i2 + t)
    ensures PrefixLeq(b, i1, i2, |b|)
  {
    hide At;
    var n := |b|;
    if t < n {
      var s, u := Window(b, i1 + t, n - t), Window(b, i2 + t, n - t);
      assert s[0] < u[0] && LexLess(s, u);
      LongerWindows(b, i1, i2, t, n - t);
    } else {
      AllAgree(b, i1, i2, t);
    }
  }

  lemma SameRow(b: seq<byte>, i: nat, j: nat, h: nat)
    requires b != [] && i % |b| == j % |b|
    ensures Window(b, i, h) == Window(b, j, h)
  {
    hide At;
    WindowWraps(b, i, h);
    WindowWraps(b, j, h);
  }

  /** So does a difference in the quadrants. */
  lemma QuadrantDecides(b: seq<byte>, i1: nat, i2: nat, t: nat, j1: nat, j2: nat)
    requires b != [] && Agree(b, i1, i2, t) && PrefixLeq(b, j1, j2, |b|)
    requires j1 % |b| == (i1 + t) % |b| && j2 % |b| == (i2 + t) % |b|
    ensures PrefixLeq(b, i1, i2, |b|)
  {
    hide At, LexLess;
    var n := |b|;
    if t < n {
      SameRow(b, j1, i1 + t, n);
      SameRow(b, j2, i2 + t, n);
      SharedPrefix(b, i1, i2, t);
    } else {
      AllAgree(b, i1, i2, t);
    }
  }

  /** What mainGtU may answer: with equal rows either answer is right. */
  ghost predicate Answer(gt: bool, b: seq<byte>, i1: nat, i2: nat)
    requires b != []
  {
    if gt then PrefixLeq(b, i2, i1, |b|) else PrefixLeq(b, i1, i2, |b|)
  }

  // ----- mainGtU -----

  /** One comparison of bytes, as it occurs twelve times in a row: done, or one more byte agrees. */
  lemma PlainStep(block: seq<byte>, b: seq<byte>, i1: nat, i2: nat, t: nat)
    requires Overshot(block, b) && Agree(b, i1, i2, t) && i1 + t < |b| + N_OVERSHOOT && i2 + t < |b| + N_OVERSHOOT
    ensures var c1, c2 := block[i1 + t], block[i2 + t];
      if c1 != c2 then Answer(c1 > c2, b, i1, i2) else Agree(b, i1, i2, t + 1)
  {
    hide At, LexLess, Agree, PrefixLeq;
    if block[i1 + t] < block[i2 + t] {
      ByteDecides(b, i1, i2, t);
    } else if block[i1 + t] > block[i2 + t] {
      AgreeSwap(b, i1, i2, t);
      ByteDecides(b, i2, i1, t);
    } else {
      AgreeMore(b, i1, i2, t);
    }
  }

  lemma AgreeSwap(b: seq<byte>, i1: nat, i2: nat, t: nat)
    requires b != [] && Agree(b, i1, i2, t)
    ensures Agree(b, i2, i1, t)
  {
  }

  /** One comparison of bytes and quadrants at positions that may have wrapped. */
  lemma MixedStep(block: seq<byte>, quadrant: seq<nat>, b: seq<byte>, i1: nat, i2: nat, t: nat, j1: nat, j2: nat)
    requires Overshot(block, b) && QuadrantOk(b, quadrant) && Agree(b, i1, i2, t)
    requires j1 < |b| + N_OVERSHOOT && j2 < |b| + N_OVERSHOOT && j1 % |b| == (i1 + t) % |b| && j2 % |b| == (i2 + t) % |b|
    ensures var c1, c2 := block[j1], block[j2]; var s1, s2 := quadrant[j1], quadrant[j2];
      if c1 != c2 then Answer(c1 > c2, b, i1, i2)
      else if s1 != s2 then Answer(s1 > s2, b, i1, i2)
      else Agree(b, i1, i2, t + 1)
  {
    hide LexLess, Agree, PrefixLeq;
    AgreeSwap(b, i1, i2, t);
    if block[j1] < block[j2] {
      ByteDecides(b, i1, i2, t);
    } else if block[j1] > block[j2] {
      ByteDecides(b, i2, i1, t);
    } else if quadrant[j1] < quadrant[j2] {
      QuadrantDecides(b, i1, i2, t, j1, j2);
    } else if quadrant[j1] > quadrant[j2] {
      QuadrantDecides(b, i2, i1, t, j2, j1);
    } else {
      AgreeMore(b, i1, i2, t);
    }
  }

  /** Byte and quadrant are the same at both positions. */
  ghost predicate Twins(block: seq<byte>, quadrant: seq<nat>, j1: nat, j2: nat) {
    && j1 < |block| && j2 < |block| && j1 < |quadrant| && j2 < |quadrant|
    && block[j1] == block[j2] && quadrant[j1] == quadrant[j2]
  }

  /** The next n positions from i1 and from i2 cannot be told apart. */
  ghost predicate Alike(block: seq<byte>, quadrant: seq<nat>, i1: nat, i2: nat, n: nat) {
    n == 0 || (Alike(block, quadrant, i1, i2, n - 1) && Twins(block, quadrant, i1 + n - 1, i2 + n - 1))
  }

  lemma AlikeNone(block: seq<byte>, quadrant: seq<nat>, i1: nat, i2: nat)
    ensures Alike(block, quadrant, i1, i2, 0)
  {
  }

  lemma AlikeMore(block: seq<byte>, quadrant: seq<nat>, i1: nat, i2: nat, n: nat)
    requires Alike(block, quadrant, i1, i2, n) && Twins(block, quadrant, i1 + n, i2 + n)
    ensures Alike(block, quadrant, i1, i2, n + 1)
  {
  }

  ghost predicate FirstTwelve(block: seq<byte>, i1: nat, i2: nat) {
    i1 + 12 <= |block| && i2 + 12 <= |block| && block[i1..i1 + 12] == block[i2..i2 + 12]
  }

  /** The first twelve bytes agree, and the next eight places are alike: no comparison but a long one gets further. */
  ghost predicate FirstTwenty(block: seq<byte>, quadrant: seq<nat>, i1: nat, i2: nat) {
    && FirstTwelve(block, i1, i2) && Alike(block, quadrant, i1 + 12, i2 + 12, 8)
  }

  /** Byte or quadrant tells the places y1 + e and y2 + e of the ring of n apart. */
  ghost predicate Differ(block: seq<byte>, quadrant: seq<nat>, n: nat, y1: nat, y2: nat, e: nat) {
    exists j1: nat, j2: nat :: SameSpot(j1, y1 + e, n) && SameSpot(j2, y2 + e, n) && j1 < n + N_OVERSHOOT && j2 < n + N_OVERSHOOT
      && !Twins(block, quadrant, j1, j2)
  }

  /** One of the next eight places does. */
  ghost predicate ToldApart(block: seq<byte>, quadrant: seq<nat>, n: nat, y1: nat, y2: nat) {
    exists e :: 0 <= e < 8 && Differ(block, quadrant, n, y1, y2, e)
  }

  /** After so many rounds of eight places the rows are told apart in the next one, or have been gone through. */
  ghost predicate Settled(block: seq<byte>, quadrant: seq<nat>, n: nat, i1: nat, i2: nat, rounds: nat) {
    8 * rounds > n + 8 || ToldApart(block, quadrant, n, i1 + (12 + 8 * rounds), i2 + (12 + 8 * rounds))
  }

  lemma {:induction false} Unlike(block: seq<byte>, quadrant: seq<nat>, i1: nat, i2: nat, n: nat, k: nat)
    requires k < n && !Twins(block, quadrant, i1 + k, i2 + k)
    ensures !Alike(block, quadrant, i1, i2, n)
    decreases n
  {
    if k < n - 1 {
      Unlike(block, quadrant, i1, i2, n - 1, k);
    }
  }

  /** The first twelve comparisons, of bytes alone. reach is the furthest position looked at. */
  method PlainTwelve(i1: nat, i2: nat, block: array<byte>, nblock: nat, ghost b: seq<byte>)
    returns (decided: bool, gt: bool, ghost reach: nat)
    requires |b| == nblock && Overshot(block[..], b) && i1 < nblock + 15 && i2 < nblock + 15
    ensures if decided then Answer(gt, b, i1, i2) else Agree(b, i1, i2, 12)
    ensures !decided <==> FirstTwelve(block[..], i1, i2)
    ensures reach <= Max(i1, i2) + 11
  {
    hide Answer, Agree, At, FirstTwelve;
    ghost var s: seq<byte> := block[..];
    NoneAgree(b, i1, i2);
    for step := 0 to 12
      invariant Agree(b, i1, i2, step) && forall k :: 0 <= k < step ==> s[i1..][k] == s[i2..][k]
    {
      var c1, c2 := block[i1 + step], block[i2 + step];
      assert s[i1..][step] == c1 && s[i2..][step] == c2;
      reach := Max(i1, i2) + step;
      PlainStep(s, b, i1, i2, step);
      if c1 != c2 {
        TwelveDiffer(s, i1, i2, step);
        return true, c1 > c2, reach;
      }
    }
    TwelveSame(s, i1, i2);
    decided, gt, reach := false, false, Max(i1, i2) + 11;
  }

  lemma TwelveSame(block: seq<byte>, i1: nat, i2: nat)
    requires i1 + 12 <= |block| && i2 + 12 <= |block| && forall k :: 0 <= k < 12 ==> block[i1..][k] == block[i2..][k]
    ensures FirstTwelve(block, i1, i2)
  {
    assert block[i1..i1 + 12] == block[i1..][..12] && block[i2..i2 + 12] == block[i2..][..12];
  }

  lemma TwelveDiffer(block: seq<byte>, i1: nat, i2: nat, k: nat)
    requires i1 + 12 <= |block| && i2 + 12 <= |block| && k < 12 && block[i1..][k] != block[i2..][k]
    ensures !FirstTwelve(block, i1, i2)
  {
    assert block[i1..i1 + 12][k] == block[i1..][k] && block[i2..i2 + 12][k] == block[i2..][k];
  }

  lemma NoneAgree(b: seq<byte>, i1: nat, i2: nat)
    requires b != []
    ensures Agree(b, i1, i2, 0)
  {
  }

  lemma QuadrantLength(b: seq<byte>, quadrant: seq<nat>)
    requires QuadrantOk(b, quadrant)
    ensures |quadrant| >= |b| + N_OVERSHOOT
  {
  }

  /** Eight comparisons of bytes and quadrants. The positions stay below nblock + 34. */
  method MixedEight(j1: nat, j2: nat, block: array<byte>, quadrant: array<ushort>, nblock: nat,
                    ghost b: seq<byte>, ghost i1: nat, ghost i2: nat, ghost t: nat)
    returns (decided: bool, gt: bool, ghost reach: nat)
    requires |b| == nblock && Overshot(block[..], b) && QuadrantOk(b, quadrant[..])
    requires j1 < nblock + 27 && j2 < nblock + 27 && Agree(b, i1, i2, t)
    requires SameSpot(j1, i1 + t, nblock) && SameSpot(j2, i2 + t, nblock)
    ensures if decided then Answer(gt, b, i1, i2) else Agree(b, i1, i2, t + 8)
    ensures decided <==> !Alike(block[..], quadrant[..], j1, j2, 8)
    ensures decided ==> ToldApart(block[..], quadrant[..], nblock, i1 + t, i2 + t)
    ensures reach <= Max(j1, j2) + 7 && (!decided ==> reach == Max(j1, j2) + 7)
  {
    hide Answer, Agree, At, PrefixLeq, Alike, QuadrantOk, SameSpot, ToldApart, Twins;
    QuadrantLength(b, quadrant[..]);
    AlikeNone(block[..], quadrant[..], j1, j2);
    for step := 0 to 8
      invariant Agree(b, i1, i2, t + step) && Alike(block[..], quadrant[..], j1, j2, step)
    {
      var c1, c2 := block[j1 + step], block[j2 + step];
      reach := Max(j1, j2) + step;
      SameResidue(j1, i1 + t, step, nblock);
      SameResidue(j2, i2 + t, step, nblock);
      MixedStep(block[..], quadrant[..], b, i1, i2, t + step, j1 + step, j2 + step);
      TwinsIs(block[..], quadrant[..], j1 + step, j2 + step);
      if c1 != c2 {
        Unlike(block[..], quadrant[..], j1, j2, 8, step);
        IsDifferent(block[..], quadrant[..], nblock, i1 + t, i2 + t, step, j1, j2);
        return true, c1 > c2, reach;
      }
      var s1, s2 := quadrant[j1 + step], quadrant[j2 + step];
      if s1 != s2 {
        Unlike(block[..], quadrant[..], j1, j2, 8, step);
        IsDifferent(block[..], quadrant[..], nblock, i1 + t, i2 + t, step, j1, j2);
        return true, s1 > s2, reach;
      }
      AlikeMore(block[..], quadrant[..], j1, j2, step);
    }
    decided, gt, reach := false, false, Max(j1, j2) + 7;
  }

  lemma IsDifferent(block: seq<byte>, quadrant: seq<nat>, n: nat, y1: nat, y2: nat, e: nat, j1: nat, j2: nat)
    requires n > 0 && e < 8 && (j1 + e) % n == (y1 + e) % n && (j2 + e) % n == (y2 + e) % n
    requires j1 + e < n + N_OVERSHOOT && j2 + e < n + N_OVERSHOOT && !Twins(block, quadrant, j1 + e, j2 + e)
    ensures ToldApart(block, quadrant, n, y1, y2)
  {
    assert SameSpot(j1 + e, y1 + e, n) && SameSpot(j2 + e, y2 + e, n);
    assert Differ(block, quadrant, n, y1, y2, e);
  }

  lemma TwinsIs(block: seq<byte>, quadrant: seq<nat>, j1: nat, j2: nat)
    requires j1 < |block| && j2 < |block| && j1 < |quadrant| && j2 < |quadrant|
    ensures Twins(block, quadrant, j1, j2) <==> block[j1] == block[j2] && quadrant[j1] == quadrant[j2]
  {
  }

  /** x and y are the same place of a ring of n. */
  ghost predicate SameSpot(x: nat, y: nat, n: nat) {
    n > 0 && x % n == y % n
  }

  /** Eight places on, and around the end of the block. */
  lemma EightOn(j: nat, y: nat, n: nat) returns (next: nat)
    requires SameSpot(j, y, n) && n > N_OVERSHOOT && j < n + 27
    ensures next == (if j + 8 >= n then j + 8 - n else j + 8) < n + 27 && SameSpot(next, y + 8, n)
  {
    SameResidue(j, y, 8, n);
    next := j + 8;
    if next >= n {
      Wrapped(next, n);
      next := next - n;
    }
  }

  lemma SameResidue(x: nat, y: nat, k: nat, n: nat)
    requires SameSpot(x, y, n)
    ensures (x + k) % n == (y + k) % n
  {
    ModAdd(k, x, n);
    ModAdd(k, y, n);
  }

  lemma HerePlace(x: nat, n: nat)
    requires n > 0
    ensures SameSpot(x, x, n)
  {
  }

  lemma Wrapped(x: nat, n: nat)
    requires n <= x < 2 * n
    ensures (x - n) % n == x % n
  {
    DivUnique(x, n, 1, x - n);
    DivUnique(x - n, n, 0, x - n);
  }

  /** mainGtU: compares the rows from i1 and i2 on. reach, the furthest position it looks at, stays within the
      overshoot, and goes 19 places beyond the starts when the rows begin alike. The budget is charged with one for every
      eight places in which the rows agree behind the first twelve, and with nothing when they differ within the first
      twenty. */
  method MainGtU(i1: nat, i2: nat, block: array<byte>, quadrant: array<ushort>, nblock: nat, budget: int, ghost b: seq<byte>)
    returns (gt: bool, left: int, ghost reach: nat, ghost rounds: nat)
    requires |b| == nblock && Overshot(block[..], b) && QuadrantOk(b, quadrant[..]) && i1 < nblock + 15 && i2 < nblock + 15
    ensures Answer(gt, b, i1, i2)
    ensures left == budget - rounds && (rounds > 0 <==> FirstTwenty(block[..], quadrant[..], i1, i2))
    ensures rounds > 0 ==> Agree(b, i1, i2, 12 + 8 * rounds) && Settled(block[..], quadrant[..], nblock, i1, i2, rounds)
    ensures 8 * rounds <= nblock + 16
    ensures reach < nblock + N_OVERSHOOT
    ensures FirstTwenty(block[..], quadrant[..], i1, i2) ==> reach >= Max(i1, i2) + 19
  {
    hide *;
    OvershotSizes(block[..], b);
    left, rounds := budget, 0;
    var decided;
    decided, gt, reach := PlainTwelve(i1, i2, block, nblock, b);
    TwentyMeans(block[..], quadrant[..], i1, i2);
    ReachStarts(reach, i1, i2, nblock);
    if decided {
      ReachMeans(reach, i1, i2, nblock, rounds);
      return;
    }
    var j1, j2 := i1 + 12, i2 + 12;
    HerePlace(j1, nblock);
    HerePlace(j2, nblock);
    var k: int := nblock + 8;
    ghost var t, y1, y2 := 12, i1 + 12, i2 + 12;
    while true
      invariant k >= 0 && 0 <= j1 < nblock + 27 && 0 <= j2 < nblock + 27 && 8 * rounds + k == nblock + 8 && left == budget - rounds
      invariant (rounds == 0 ==> j1 == i1 + 12 && j2 == i2 + 12) && Reached(reach, i1, i2, nblock, rounds)
      invariant rounds > 0 ==> FirstTwenty(block[..], quadrant[..], i1, i2)
      invariant t == 12 + 8 * rounds && y1 == i1 + t && y2 == i2 + t
      invariant Agree(b, i1, i2, t) && SameSpot(j1, y1, nblock) && SameSpot(j2, y2, nblock)
      decreases k
    {
      ghost var further;
      decided, gt, further := MixedEight(j1, j2, block, quadrant, nblock, b, i1, i2, t);
      ReachOn(reach, further, i1, i2, j1, j2, nblock, rounds);
      reach := Max(reach, further);
      if decided {
        ReachMeans(reach, i1, i2, nblock, rounds);
        SettledIs(block[..], quadrant[..], nblock, i1, i2, rounds);
        return;
      }
      ghost var n1 := EightOn(j1, y1, nblock);
      ghost var n2 := EightOn(j2, y2, nblock);
      j1, j2, rounds := j1 + 8, j2 + 8, rounds + 1;
      t, y1, y2 := t + 8, y1 + 8, y2 + 8;
      if j1 >= nblock {
        j1 := j1 - nblock;
      }
      if j2 >= nblock {
        j2 := j2 - nblock;
      }
      k := k - 8;
      left := left - 1;
      if k < 0 {
        break;
      }
    }
    ReachMeans(reach, i1, i2, nblock, rounds);
    SettledIs(block[..], quadrant[..], nblock, i1, i2, rounds);
    AgreeAnswer(b, i1, i2, t);
    gt := false;
  }

  lemma OvershotSizes(block: seq<byte>, b: seq<byte>)
    requires Overshot(block, b)
    ensures |b| > N_OVERSHOOT == 34 && |block| >= |b| + N_OVERSHOOT
  {
  }

  /** How far the positions looked at have come. */
  ghost predicate Reached(reach: nat, i1: nat, i2: nat, n: nat, rounds: nat) {
    reach < n + N_OVERSHOOT && (rounds > 0 ==> reach >= Max(i1, i2) + 19)
  }

  lemma ReachStarts(reach: nat, i1: nat, i2: nat, n: nat)
    requires i1 < n + 15 && i2 < n + 15 && reach <= Max(i1, i2) + 11
    ensures Reached(reach, i1, i2, n, 0)
  {
  }

  lemma ReachOn(reach: nat, further: nat, i1: nat, i2: nat, j1: nat, j2: nat, n: nat, rounds: nat)
    requires Reached(reach, i1, i2, n, rounds) && j1 < n + 27 && j2 < n + 27 && further <= Max(j1, j2) + 7
    requires rounds == 0 ==> j1 == i1 + 12 && j2 == i2 + 12
    ensures Max(reach, further) >= 0 && Reached(Max(reach, further), i1, i2, n, rounds)
    ensures further == Max(j1, j2) + 7 ==> Reached(Max(reach, further), i1, i2, n, rounds + 1)
  {
  }

  lemma ReachMeans(reach: nat, i1: nat, i2: nat, n: nat, rounds: nat)
    requires Reached(reach, i1, i2, n, rounds)
    ensures reach < n + N_OVERSHOOT && (rounds > 0 ==> reach >= Max(i1, i2) + 19)
  {
  }

  lemma TwentyMeans(block: seq<byte>, quadrant: seq<nat>, i1: nat, i2: nat)
    ensures FirstTwenty(block, quadrant, i1, i2) <==> FirstTwelve(block, i1, i2) && Alike(block, quadrant, i1 + 12, i2 + 12, 8)
  {
    hide Alike, FirstTwelve;
  }

  lemma SettledIs(block: seq<byte>, quadrant: seq<nat>, n: nat, i1: nat, i2: nat, rounds: nat)
    requires 8 * rounds > n + 8 || ToldApart(block, quadrant, n, i1 + (12 + 8 * rounds), i2 + (12 + 8 * rounds))
    ensures Settled(block, quadrant, n, i1, i2, rounds)
  {
    hide ToldApart;
  }

  lemma AgreeAnswer(b: seq<byte>, i1: nat, i2: nat, t: nat)
    requires b != [] && Agree(b, i1, i2, t) && t >= |b|
    ensures Answer(false, b, i1, i2)
  {
    hide At, LexLess, Agree;
    AllAgree(b, i1, i2, t);
  }

  /** The overshoot is not a byte too long: a comparison at depth 15 of the last row with the one before it looks at
      the last byte of it if the rows are alike. */
  method OvershootNeeded(nblock: nat) returns (ghost reach: nat)
    requires nblock > N_OVERSHOOT
    ensures reach == nblock + N_OVERSHOOT - 1
  {
    hide At;
    var block, quadrant := new byte[nblock + N_OVERSHOOT], new ushort[nblock + N_OVERSHOOT];
    for i := 0 to nblock + N_OVERSHOOT
      invariant forall k :: 0 <= k < i ==> block[k] == quadrant[k] == 0
    {
      block[i], quadrant[i] := 0, 0;
    }
    ghost var b := seq<byte>(nblock, i => 0);
    AllAlike(block[..], quadrant[..], nblock + 26, nblock + 25, 8);
    assert Overshot(block[..], b) && QuadrantOk(b, quadrant[..]) by {
      Constant(b);
    }
    var gt, left;
    ghost var rounds;
    gt, left, reach, rounds := MainGtU(nblock - 1 + 15, nblock - 2 + 15, block, quadrant, nblock, 0, b);
  }

  lemma {:induction false} AllAlike(block: seq<byte>, quadrant: seq<nat>, i1: nat, i2: nat, n: nat)
    requires i1 + n <= |block| && i2 + n <= |block| == |quadrant| && forall k :: 0 <= k < |block| ==> block[k] == quadrant[k] == 0
    ensures Alike(block, quadrant, i1, i2, n)
  {
    if n > 0 {
      AllAlike(block, quadrant, i1, i2, n - 1);
    }
  }

  lemma Constant(b: seq<byte>)
    requires b != [] && forall k :: 0 <= k < |b| ==> b[k] == 0
    ensures forall i: nat :: At(b, i) == 0
  {
  }
}
