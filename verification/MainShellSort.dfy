/** mainSimpleSort: Shell sort of a small bucket by whole rotations, which may give up when the budget is used up. */
module MainShellSort {
  import opened Limits
  import opened Numbers
  import opened Permutations
  import opened Rotations
  import opened InPlace
  import opened FallbackQuicksort
  import opened MainOrder
  import opened ComparisonLog

  /** Knuth's increments. */
  const INCS: seq<nat> := [1, 4, 13, 40, 121, 364, 1093, 3280, 9841, 29524, 88573, 265720, 797161, 2391484]

  /** The rows from lo up to hi are different ones and share their first d bytes. */
  ghost predicate Shared(b: seq<byte>, f: seq<int>, lo: int, hi: int, d: nat) {
    && b != [] && 0 <= lo <= hi <= |f| && Injective(f[lo..hi])
    && (forall i :: lo <= i < hi ==> 0 <= f[i] < |b|)
    && forall i, j :: lo <= i < hi && lo <= j < hi ==> Window(b, f[i], d) == Window(b, f[j], d)
  }

  lemma StillShared(b: seq<byte>, f: seq<int>, g: seq<int>, lo: nat, hi: nat, d: nat)
    requires Shared(b, f, lo, hi, d) && Rearranged(f, g, lo, hi)
    ensures Shared(b, g, lo, hi, d)
  {
    hide At, Injective;
    RearrangedInjective(f[lo..hi], g[lo..hi]);
    forall i | lo <= i < hi ensures 0 <= g[i] < |b| {
      var k := RearrangedAt(f, g, lo, hi, i);
    }
    forall i, j | lo <= i < hi && lo <= j < hi ensures Window(b, g[i], d) == Window(b, g[j], d) {
      var k := RearrangedAt(f, g, lo, hi, i);
      var l := RearrangedAt(f, g, lo, hi, j);
    }
  }

  /** An insertion in progress: v has been moved down from i to the hole at h in steps of gap. */
  ghost predicate Inserting(start: seq<int>, arr: seq<int>, full: seq<int>, keys: seq<int>, lo: nat, i: nat, h: nat, v: int, gap: nat) {
    && lo <= h <= i && HoleAt(arr, full, h, v) && Rearranged(start, full, lo, i + 1) && InRange(full, keys, lo, i + 1) && 0 <= v < |keys|
    && start[i] == v && (forall x :: 0 <= x < h ==> full[x] == start[x])
    && (gap == 1 && SortedBy(start, keys, lo, i) ==>
          && (forall x, y :: lo <= x < y <= i && x != h && y != h ==> keys[full[x]] <= keys[full[y]])
          && (forall x :: h < x <= i ==> keys[v] <= keys[full[x]]))
  }

  lemma InsertStarts(a: seq<int>, keys: seq<int>, lo: nat, i: nat, gap: nat)
    requires lo <= i < |a| && InRange(a, keys, lo, i + 1)
    ensures Inserting(a, a, a, keys, lo, i, i, a[i], gap)
  {
  }

  lemma InsertingMeans(start: seq<int>, arr: seq<int>, full: seq<int>, keys: seq<int>, lo: nat, i: nat, h: nat, v: int, gap: nat)
    requires Inserting(start, arr, full, keys, lo, i, h, v, gap)
    ensures lo <= h <= i < |arr| == |full| == |start| && 0 <= v < |keys| && full[h] == v == start[i]
    ensures forall x :: 0 <= x < h ==> arr[x] == start[x]
    ensures forall x :: lo <= x <= i && x != h ==> arr[x] == full[x] && 0 <= arr[x] < |keys|
  {
    hide Rearranged, SortedBy;
    RearrangedSizes(start, full, lo, i + 1);
    forall x | lo <= x <= i && x != h ensures arr[x] == full[x] && 0 <= arr[x] < |keys| {
      assert 0 <= full[x] < |keys|;
    }
  }

  lemma InsertStep(start: seq<int>, arr: seq<int>, full: seq<int>, keys: seq<int>, lo: nat, i: nat, h: nat, v: int, gap: nat)
    requires Inserting(start, arr, full, keys, lo, i, h, v, gap) && gap >= 1 && lo + gap <= h
    requires 0 <= v < |keys| && h < |arr| && 0 <= arr[h - gap] < |keys| && keys[v] <= keys[arr[h - gap]]
    ensures Inserting(start, arr[h := arr[h - gap]], Swap(full, h, h - gap), keys, lo, i, h - gap, v, gap)
  {
    hide Rearranged;
    InsertingMeans(start, arr, full, keys, lo, i, h, v, gap);
    HoleMoves(arr, full, h, h - gap, v);
    SwapRearranges(start, full, h, h - gap, lo, i + 1);
  }

  lemma InsertEnds(start: seq<int>, arr: seq<int>, full: seq<int>, keys: seq<int>, lo: nat, i: nat, h: nat, v: int, gap: nat)
    requires Inserting(start, arr, full, keys, lo, i, h, v, gap) && gap >= 1 && 0 <= v < |keys|
    requires lo + gap <= h < |arr| ==> 0 <= arr[h - gap] < |keys| && keys[arr[h - gap]] <= keys[v]
    ensures h < |arr| && Rearranged(start, arr[h := v], lo, i + 1) && InRange(arr[h := v], keys, lo, i + 1)
    ensures gap == 1 && SortedBy(start, keys, lo, i) ==> SortedBy(arr[h := v], keys, lo, i + 1)
  {
    hide Rearranged;
    if gap == 1 && SortedBy(start, keys, lo, i) {
      forall x, y | lo <= x < y <= i ensures keys[full[x]] <= keys[full[y]] {
        if y == h {
          assert x < h - 1 ==> keys[full[x]] <= keys[full[h - 1]];
          assert full[h - 1] == arr[h - 1];
        }
      }
    }
  }

  /** The arrays the comparison looks at. */
  ghost predicate Readable(block: seq<byte>, quadrant: seq<nat>, nblock: nat, b: seq<byte>) {
    |b| == nblock <= 900000 && Overshot(block, b) && QuadrantOk(b, quadrant)
  }

  lemma ReadableMeans(block: seq<byte>, quadrant: seq<nat>, nblock: nat, b: seq<byte>)
    requires Readable(block, quadrant, nblock, b)
    ensures N_OVERSHOOT < |b| == nblock <= 900000 && Overshot(block, b) && QuadrantOk(b, quadrant)
  {
  }

  /** The comparison of two rows that share d bytes, made d bytes further on, is a comparison of their ranks. */
  lemma AnswerRanks(gt: bool, b: seq<byte>, p: nat, q: nat, d: nat)
    requires b != [] && p < |b| && q < |b| && d <= |b| && Window(b, p, d) == Window(b, q, d) && Answer(gt, b, p + d, q + d)
    ensures if gt then RotKeys(b)[q] <= RotKeys(b)[p] else RotKeys(b)[p] <= RotKeys(b)[q]
  {
    hide LexLess, At, RotKeys;
    RankOrders(b, p, q);
    RankOrders(b, q, p);
    if gt {
      SharedPrefix(b, q, p, d);
    } else {
      SharedPrefix(b, p, q, d);
    }
  }

  /** The comparisons of one insertion: row v has been compared with different rows of the places from x on. */
  ghost predicate InsertionLog(log: seq<Comparison>, start: seq<int>, lo: nat, i: nat, x: int) {
    && lo <= i < |start| && AtMost(log, 1) && Among(log, start[lo..i + 1])
    && (forall k :: 0 <= k < |log| ==> log[k].q == start[i])
    && forall y :: lo <= y < x ==> y < |start| && Times(log, start[y], start[i]) == 0
  }

  lemma InsertionLogStarts(start: seq<int>, lo: nat, i: nat)
    requires lo <= i < |start|
    ensures InsertionLog([], start, lo, i, i)
  {
  }

  lemma InsertionLogMore(log: seq<Comparison>, start: seq<int>, lo: nat, i: nat, x: int, gap: nat, c: Comparison)
    requires InsertionLog(log, start, lo, i, x) && Injective(start[lo..i + 1]) && gap >= 1 && lo <= x - gap < x <= i
    requires c.p == start[x - gap] && c.q == start[i]
    ensures InsertionLog(log + [c], start, lo, i, x - gap)
  {
    hide Injective, Times;
    var s, y := start[lo..i + 1], x - gap;
    assert s[y - lo] == c.p && s[i - lo] == c.q;
    forall p, q ensures Times(log + [c], p, q) <= 1 {
      OneMore(log, c, p, q);
      if Between(c, p, q) {
        TimesSwap(log, p, q);
      }
    }
    forall z | lo <= z < y ensures Times(log + [c], start[z], start[i]) == 0 {
      OneMore(log, c, start[z], start[i]);
      InjectiveAt(s, z - lo, y - lo);
      InjectiveAt(s, z - lo, i - lo);
    }
  }

  lemma InjectiveAt(s: seq<int>, i: nat, j: nat)
    requires Injective(s) && i < j < |s|
    ensures s[i] != s[j]
  {
  }

  /** Insert the entry at i among those gap places apart below it. */
  method InsertDown(ptr: array<word>, block: array<byte>, quadrant: array<ushort>, nblock: nat, lo: nat, i: nat, gap: nat, d: nat, budget: int,
                    ghost b: seq<byte>)
    returns (left: int, ghost log: seq<Comparison>)
    requires Readable(block[..], quadrant[..], nblock, b) && d <= 15 && gap >= 1 && lo + gap <= i < ptr.Length
    requires Shared(b, ptr[..], lo, i + 1, d)
    modifies ptr
    ensures Rearranged(old(ptr[..]), ptr[..], lo, i + 1)
    ensures Charged(b, budget, left, log) && InsertionLog(log, old(ptr[..]), lo, i, lo)
    ensures gap == 1 && SortedBy(old(ptr[..]), RotKeys(b), lo, i) ==> SortedBy(ptr[..], RotKeys(b), lo, i + 1)
  {
    hide *;
    ReadableMeans(block[..], quadrant[..], nblock, b);
    ghost var start, full, keys := ptr[..], ptr[..], RotKeys(b);
    SharedRange(b, start, keys, lo, i + 1, d);
    InsertStarts(start, keys, lo, i, gap);
    var v: word := ptr[i];
    var j := i;
    left, log := budget, [];
    NothingCharged(b, budget);
    InsertionLogStarts(start, lo, i);
    SharedMeans(b, start, lo, i + 1, d);
    while true
      invariant lo + gap <= j <= i && Charged(b, budget, left, log) && InsertionLog(log, start, lo, i, j)
      invariant Inserting(start, ptr[..], full, keys, lo, i, j, v, gap)
      decreases j
    {
      ghost var arr := ptr[..];
      InsertingMeans(start, arr, full, keys, lo, i, j, v, gap);
      InsertShared(start, arr, full, b, lo, i, j, v, gap, d);
      var gt;
      ghost var reach, rounds;
      OvershootEnough();
      ghost var before := left;
      gt, left, reach, rounds := MainGtU(ptr[j - gap] + d, v + d, block, quadrant, nblock, left, b);
      PaidShared(b, arr[j - gap], v, d, rounds);
      ChargedOnce(b, budget, before, log, Comparison(arr[j - gap], v, rounds));
      InsertionLogMore(log, start, lo, i, j, gap, Comparison(arr[j - gap], v, rounds));
      log := log + [Comparison(arr[j - gap], v, rounds)];
      AnswerRanks(gt, b, arr[j - gap], v, d);
      if !gt {
        InsertionLogEnds(log, start, lo, i, j - gap);
        break;
      }
      InsertStep(start, arr, full, keys, lo, i, j, v, gap);
      full := Swap(full, j, j - gap);
      ptr[j] := ptr[j - gap];
      assert ptr[..] == arr[j := arr[j - gap]];
      j := j - gap;
      if j <= lo + gap - 1 {
        InsertionLogEnds(log, start, lo, i, j);
        break;
      }
    }
    ghost var arr := ptr[..];
    InsertEnds(start, arr, full, keys, lo, i, j, v, gap);
    ptr[j] := v;
    assert ptr[..] == arr[j := v];
  }

  lemma InsertionLogEnds(log: seq<Comparison>, start: seq<int>, lo: nat, i: nat, x: int)
    requires InsertionLog(log, start, lo, i, x) && lo <= x
    ensures InsertionLog(log, start, lo, i, lo)
  {
    hide Times, AtMost, Among;
  }

  lemma SharedMeans(b: seq<byte>, f: seq<int>, lo: int, hi: int, d: nat)
    requires Shared(b, f, lo, hi, d)
    ensures 0 <= lo <= hi <= |f| && Injective(f[lo..hi])
  {
    hide At, Injective;
  }

  lemma OvershootEnough()
    ensures N_OVERSHOOT == 34
  {
  }

  lemma SharedRange(b: seq<byte>, f: seq<int>, keys: seq<int>, lo: nat, hi: nat, d: nat)
    requires Shared(b, f, lo, hi, d) && |keys| == |b| && lo <= hi
    ensures InRange(f, keys, lo, hi)
  {
  }

  /** The row being inserted shares its first bytes with every other one. */
  lemma InsertShared(start: seq<int>, arr: seq<int>, full: seq<int>, b: seq<byte>, lo: nat, i: nat, h: nat, v: int, gap: nat, d: nat)
    requires b != [] && Inserting(start, arr, full, RotKeys(b), lo, i, h, v, gap) && Shared(b, start, lo, i + 1, d)
    ensures 0 <= v < |b|
    ensures forall x :: lo <= x <= i && x != h ==> x < |arr| && 0 <= arr[x] < |b| && arr[x] != v && Window(b, arr[x], d) == Window(b, v, d)
  {
    hide At, SortedBy, LexLess, Rearranged, RotKeys;
    InsertingMeans(start, arr, full, RotKeys(b), lo, i, h, v, gap);
    StillShared(b, start, full, lo, i + 1, d);
    forall x | lo <= x <= i && x != h ensures 0 <= arr[x] < |b| && arr[x] != v && Window(b, arr[x], d) == Window(b, v, d) {
      assert arr[x] == full[x] == full[lo..i + 1][x - lo] && v == full[h] == full[lo..i + 1][h - lo];
    }
  }

  /** The stretch has been permuted, so its rows still share their first bytes. */
  ghost predicate Permuted(start: seq<int>, f: seq<int>, b: seq<byte>, lo: nat, hi: nat, d: nat) {
    Rearranged(start, f, lo, hi) && Shared(b, f, lo, hi, d)
  }

  lemma PermutedMore(start: seq<int>, f: seq<int>, g: seq<int>, b: seq<byte>, lo: nat, hi: nat, d: nat, i: nat)
    requires Permuted(start, f, b, lo, hi, d) && lo <= i < hi && Rearranged(f, g, lo, i + 1)
    ensures Permuted(start, g, b, lo, hi, d)
  {
    hide Rearranged, Shared;
    RearrangedSizes(f, g, lo, i + 1);
    RearrangedSizes(start, f, lo, hi);
    RearrangedWider(f, g, lo, i + 1, lo, hi);
    RearrangedTwice(start, f, g, lo, hi);
    StillShared(b, f, g, lo, hi, d);
  }

  lemma PermutedMeans(start: seq<int>, f: seq<int>, b: seq<byte>, lo: nat, hi: nat, d: nat, i: nat)
    requires Permuted(start, f, b, lo, hi, d) && lo <= i < hi
    ensures hi <= |f| && b != [] && Shared(b, f, lo, i + 1, d)
    ensures SortedBy(f, RotKeys(b), lo, lo) && SortedBy(f, RotKeys(b), lo, lo + 1)
  {
    hide At, Rearranged, RotKeys, Injective;
    SliceInjective(f, lo, hi, lo, i + 1);
  }

  /** The comparisons of a pass that has come to place i: the rows so far have been compared with each other, no two of
      them twice. */
  ghost predicate PassLog(log: seq<Comparison>, f: seq<int>, lo: nat, i: nat, hi: nat) {
    && AtMost(log, 1) && lo <= Min(i, hi) <= |f| && Among(log, f[lo..Min(i, hi)])
  }

  lemma PassLogStarts(f: seq<int>, lo: nat, i: nat, hi: nat)
    requires lo <= i && lo <= hi <= |f|
    ensures PassLog([], f, lo, i, hi)
  {
  }

  lemma PassLogMore(log: seq<Comparison>, more: seq<Comparison>, f: seq<int>, g: seq<int>, b: seq<byte>, lo: nat, i: nat, hi: nat, d: nat)
    requires PassLog(log, f, lo, i, hi) && InsertionLog(more, f, lo, i, lo) && i < hi && Shared(b, f, lo, i + 1, d)
    requires Rearranged(f, g, lo, i + 1)
    ensures PassLog(log + more, g, lo, i + 1, hi)
  {
    hide Times, At, Injective;
    var s, v := f[lo..i], f[i];
    assert f[lo..i + 1] == s + [v];
    forall x | x in s ensures x != v {
      var k :| 0 <= k < |s| && s[k] == x;
      InjectiveAt(f[lo..i + 1], k, i - lo);
    }
    forall p, q ensures Times(log + more, p, q) <= 1 {
      TimesTwice(log, more, p, q);
      if p == v || q == v {
        NotAmong(log, s, p, q);
      } else if Times(more, p, q) > 0 {
        var k := Found(more, p, q);
      }
    }
    AmongMore(log, s, g[lo..i + 1]);
    AmongMore(more, f[lo..i + 1], g[lo..i + 1]);
  }

  lemma PassLogEnds(log: seq<Comparison>, f: seq<int>, lo: nat, i: nat, hi: nat)
    requires PassLog(log, f, lo, i, hi) && hi <= |f|
    ensures ComparedWithin(log, f, lo, hi, 1)
  {
    hide AtMost;
    assert multiset(f[lo..hi]) == multiset(f[lo..Min(i, hi)]) + multiset(f[Min(i, hi)..hi]) by {
      assert f[lo..hi] == f[lo..Min(i, hi)] + f[Min(i, hi)..hi];
    }
    AmongMore(log, f[lo..Min(i, hi)], f[lo..hi]);
  }

  /** The three copies of the insertion that follow each other, as far as there are entries. */
  method InsertThree(ptr: array<word>, block: array<byte>, quadrant: array<ushort>, nblock: nat, lo: nat, hi: nat, from: nat, h: nat, d: nat,
                     budget: int, ghost b: seq<byte>, ghost start: seq<int>, ghost first: int, ghost was: seq<Comparison>)
    returns (i: nat, left: int, ghost log: seq<Comparison>)
    requires Readable(block[..], quadrant[..], nblock, b) && d <= 15 && h >= 1 && lo + h <= from && lo < hi && b != []
    requires Permuted(start, ptr[..], b, lo, hi, d) && (h == 1 && from <= hi ==> SortedBy(ptr[..], RotKeys(b), lo, from))
    requires Charged(b, first, budget, was) && PassLog(was, ptr[..], lo, from, hi)
    modifies ptr
    ensures Permuted(start, ptr[..], b, lo, hi, d) && Charged(b, first, left, log) && PassLog(log, ptr[..], lo, i, hi)
    ensures from <= i && (i == from + 3 || i >= hi) && (from <= hi ==> i <= hi)
    ensures h == 1 && i <= hi ==> SortedBy(ptr[..], RotKeys(b), lo, i)
  {
    hide *;
    i, left, log := from, budget, was;
    for copy := 0 to 3
      invariant i == from + copy && Permuted(start, ptr[..], b, lo, hi, d)
      invariant Charged(b, first, left, log) && PassLog(log, ptr[..], lo, i, hi)
      invariant from <= hi ==> i <= hi
      invariant h == 1 && i <= hi ==> SortedBy(ptr[..], RotKeys(b), lo, i)
    {
      if i >= hi {
        return;
      }
      ghost var f := ptr[..];
      PermutedMeans(start, f, b, lo, hi, d, i);
      ghost var more, before := [], left;
      left, more := InsertDown(ptr, block, quadrant, nblock, lo, i, h, d, left, b);
      ChargedTwice(b, first, before, left, log, more);
      PassLogMore(log, more, f, ptr[..], b, lo, i, hi, d);
      log := log + more;
      PermutedMore(start, f, ptr[..], b, lo, hi, d, i);
      i := i + 1;
    }
  }

  /** Only rows of the stretch have been compared, and no two of them more than t times. */
  ghost predicate ComparedWithin(log: seq<Comparison>, f: seq<int>, lo: nat, hi: nat, t: nat) {
    AtMost(log, t) && lo <= hi <= |f| && Among(log, f[lo..hi])
  }

  /** One pass with one increment. The budget is looked at after every third insertion. */
  method ShellPass(ptr: array<word>, block: array<byte>, quadrant: array<ushort>, nblock: nat, lo: nat, hi: nat, h: nat, d: nat, budget: int,
                   ghost b: seq<byte>, ghost start: seq<int>)
    returns (left: int, abandoned: bool, ghost log: seq<Comparison>)
    requires Readable(block[..], quadrant[..], nblock, b) && d <= 15 && h >= 1 && lo + 1 < hi
    requires Permuted(start, ptr[..], b, lo, hi, d)
    modifies ptr
    ensures Permuted(start, ptr[..], b, lo, hi, d) && Charged(b, budget, left, log) && (abandoned ==> left < 0)
    ensures ComparedWithin(log, ptr[..], lo, hi, 1)
    ensures b != [] && (h == 1 && !abandoned ==> SortedBy(ptr[..], RotKeys(b), lo, hi))
  {
    hide *;
    left, abandoned, log := budget, false, [];
    NothingCharged(b, budget);
    var i := lo + h;
    PermutedMeans(start, ptr[..], b, lo, hi, d, lo);
    PassLogStarts(ptr[..], lo, i, hi);
    while i < hi
      invariant Charged(b, budget, left, log) && PassLog(log, ptr[..], lo, i, hi)
      invariant lo + h <= i && (h == 1 ==> i <= hi) && Permuted(start, ptr[..], b, lo, hi, d)
      invariant h == 1 ==> SortedBy(ptr[..], RotKeys(b), lo, i)
      decreases hi - i
    {
      var next;
      next, left, log := InsertThree(ptr, block, quadrant, nblock, lo, hi, i, h, d, left, b, start, budget, log);
      if next == i + 3 && left < 0 {
        PassLogEnds(log, ptr[..], lo, next, hi);
        return left, true, log;
      }
      i := next;
    }
    PassLogEnds(log, ptr[..], lo, i, hi);
  }

  /** mainSimpleSort: unless the budget runs out, the stretch is sorted by whole rotations. No two rows are compared
      more often than there are increments below the size of the stretch. */
  method MainSimpleSort(ptr: array<word>, block: array<byte>, quadrant: array<ushort>, nblock: nat, lo: nat, hi: int, d: nat, budget: int,
                        ghost b: seq<byte>)
    returns (left: int, ghost log: seq<Comparison>, ghost passes: nat)
    requires Readable(block[..], quadrant[..], nblock, b) && d <= 15 && lo <= hi + 1 <= ptr.Length && hi - lo < 900000
    requires b != [] && Shared(b, ptr[..], lo, hi + 1, d)
    modifies ptr
    ensures Rearranged(old(ptr[..]), ptr[..], lo, hi + 1) && Charged(b, budget, left, log)
    ensures left >= 0 ==> SortedBy(ptr[..], RotKeys(b), lo, hi + 1)
    ensures ComparedWithin(log, old(ptr[..]), lo, hi + 1, passes)
    ensures passes < 14 && INCS[passes] >= hi - lo + 1 && (passes > 0 ==> INCS[passes - 1] < hi - lo + 1)
  {
    hide Readable, Shared, Rearranged, RotKeys, Permuted, Charged, ComparedWithin, SortedBy;
    ghost var start := ptr[..];
    PermutedStart(start, b, lo, hi + 1, d);
    left, log, passes := budget, [], 0;
    NothingCharged(b, budget);
    NeverCompared(start, lo, hi + 1);
    var bigN := hi - lo + 1;
    if bigN < 2 {
      ShortStretch(start, b, lo, hi + 1, d);
      return;
    }
    var hp: int := 0;
    while INCS[hp] < bigN
      invariant 0 <= hp < 14 && (hp > 0 ==> INCS[hp - 1] < bigN)
      decreases 14 - hp
    {
      hp := hp + 1;
    }
    hp := hp - 1;
    passes := hp + 1;
    while hp >= 0
      invariant -1 <= hp < 14 && Permuted(start, ptr[..], b, lo, hi + 1, d) && Charged(b, budget, left, log)
      invariant -1 <= hp < passes && ComparedWithin(log, start, lo, hi + 1, passes - 1 - hp)
      invariant hp == -1 ==> SortedBy(ptr[..], RotKeys(b), lo, hi + 1)
    {
      var abandoned;
      ghost var more, before := [], left;
      left, abandoned, more := ShellPass(ptr, block, quadrant, nblock, lo, hi + 1, INCS[hp], d, left, b, start);
      ChargedTwice(b, budget, before, left, log, more);
      OneMorePass(log, more, start, ptr[..], b, lo, hi + 1, d, passes - 1 - hp);
      log := log + more;
      hp := hp - 1;
      if abandoned {
        break;
      }
    }
    ComparedOften(log, start, lo, hi + 1, passes - 1 - hp, passes);
    PermutedEnd(start, ptr[..], b, lo, hi + 1, d);
  }

  lemma NeverCompared(f: seq<int>, lo: nat, hi: nat)
    requires lo <= hi <= |f|
    ensures ComparedWithin([], f, lo, hi, 0)
  {
  }

  lemma ComparedOften(log: seq<Comparison>, f: seq<int>, lo: nat, hi: nat, t: nat, u: nat)
    requires ComparedWithin(log, f, lo, hi, t) && t <= u
    ensures ComparedWithin(log, f, lo, hi, u)
  {
    hide Times, Among;
  }

  lemma OneMorePass(log: seq<Comparison>, more: seq<Comparison>, start: seq<int>, f: seq<int>, b: seq<byte>, lo: nat, hi: nat, d: nat, t: nat)
    requires Permuted(start, f, b, lo, hi, d) && ComparedWithin(log, start, lo, hi, t) && ComparedWithin(more, f, lo, hi, 1)
    ensures ComparedWithin(log + more, start, lo, hi, t + 1)
  {
    hide Times, Shared;
    AmongMore(more, f[lo..hi], start[lo..hi]);
    forall p, q ensures Times(log + more, p, q) <= t + 1 {
      TimesTwice(log, more, p, q);
    }
  }

  lemma PermutedStart(f: seq<int>, b: seq<byte>, lo: nat, hi: nat, d: nat)
    requires Shared(b, f, lo, hi, d) && lo <= hi <= |f|
    ensures Permuted(f, f, b, lo, hi, d)
  {
  }

  lemma PermutedEnd(start: seq<int>, f: seq<int>, b: seq<byte>, lo: nat, hi: nat, d: nat)
    requires Permuted(start, f, b, lo, hi, d)
    ensures Rearranged(start, f, lo, hi) && Shared(b, f, lo, hi, d)
  {
  }

  lemma ShortStretch(f: seq<int>, b: seq<byte>, lo: nat, hi: nat, d: nat)
    requires Shared(b, f, lo, hi, d) && lo <= hi <= lo + 1 && hi <= |f|
    ensures b != [] && SortedBy(f, RotKeys(b), lo, hi) && Rearranged(f, f, lo, hi)
  {
    hide At;
  }
}
