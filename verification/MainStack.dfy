/** mainQSort3, the stack: stretches carry the number of bytes their rows share, and a partition leaves three. */
module MainStack {
  import opened Numbers
  import opened Permutations
  import opened Rotations
  import opened InPlace
  import opened SegmentStack
  import opened FallbackQuicksort
  import opened FallbackOrder
  import opened MainOrder
  import opened ComparisonLog
  import opened MainShellSort
  import opened MainQuicksort

  /** A stretch and its depth. */
  type Stretch = (int, int, nat)

  function Pair(x: Stretch): (int, int) {
    (x.0, x.1)
  }

  function Pairs(s: seq<Stretch>): (r: seq<(int, int)>)
    ensures |r| == |s| && forall k :: 0 <= k < |s| ==> r[k] == Pair(s[k])
  {
    seq(|s|, k requires 0 <= k < |s| => Pair(s[k]))
  }

  lemma PairsAppend(s: seq<Stretch>, t: seq<Stretch>)
    ensures Pairs(s + t) == Pairs(s) + Pairs(t)
  {
  }

  lemma PairsFront(s: seq<Stretch>)
    requires s != []
    ensures Pairs(s)[..|s| - 1] == Pairs(s[..|s| - 1])
  {
  }

  ghost predicate SharedAll(b: seq<byte>, f: seq<int>, s: seq<Stretch>) {
    forall k :: 0 <= k < |s| ==> s[k].2 <= 15 && Shared(b, f, s[k].0, s[k].1 + 1, s[k].2)
  }

  /** Between two steps. */
  ghost predicate MainSorting(start: seq<int>, f: seq<int>, b: seq<byte>, stack: seq<Stretch>, seg: seq<int>, lo: nat, hi: nat) {
    b != [] && Sorting(start, f, RotKeys(b), Pairs(stack), seg, lo, hi) && SharedAll(b, f, stack)
  }

  /** The parts of stretch s after it has been permuted: rows of different parts are in order. */
  ghost predicate NextOk(g: seq<int>, b: seq<byte>, s: (int, int), next: seq<Stretch>) {
    && b != [] && 0 <= s.0 <= s.1 + 1 <= |g|
    && SharedAll(b, g, next)
    && (forall k :: 0 <= k < |next| ==> s.0 <= next[k].0 <= next[k].1 + 1 <= s.1 + 1)
    && (forall j, k, i :: 0 <= j < |next| && 0 <= k < |next| && j != k ==> !(Contains(Pair(next[j]), i) && Contains(Pair(next[k]), i)))
    && forall i, j :: s.0 <= i < j <= s.1 && Separated(next, i, j) ==> KeyAt(g, RotKeys(b), i) <= KeyAt(g, RotKeys(b), j)
  }

  /** No part holds both entries. */
  ghost predicate Separated(next: seq<Stretch>, i: int, j: int) {
    forall k :: 0 <= k < |next| ==> !(Contains(Pair(next[k]), i) && Contains(Pair(next[k]), j))
  }

  lemma NextParts(g: seq<int>, b: seq<byte>, s: (int, int), next: seq<Stretch>)
    requires NextOk(g, b, s, next)
    ensures b != [] && PartsOrdered(g, RotKeys(b), s, Pairs(next)) && Parts(s, Pairs(next))
  {
    hide KeyAt, RotKeys, SharedAll, PartOf;
    var parts := Pairs(next);
    assert Apart(parts);
    forall i, j | s.0 <= i < j <= s.1 && (PartOf(parts, i) == -1 || PartOf(parts, i) != PartOf(parts, j))
      ensures KeyAt(g, RotKeys(b), i) <= KeyAt(g, RotKeys(b), j)
    {
      forall k | 0 <= k < |next| ensures !(Contains(Pair(next[k]), i) && Contains(Pair(next[k]), j)) {
        assert parts[k] == Pair(next[k]);
        PartUnique(parts, i, k);
        PartUnique(parts, j, k);
      }
      assert Separated(next, i, j);
    }
  }

  lemma PartUnique(parts: seq<(int, int)>, i: int, k: nat)
    requires Apart(parts) && k < |parts|
    ensures Contains(parts[k], i) ==> PartOf(parts, i) == k
  {
    hide Contains;
  }

  /** Stretches elsewhere on the stack are not touched. */
  lemma OthersShared(f: seq<int>, g: seq<int>, b: seq<byte>, stack: seq<Stretch>, seg: seq<int>, lo: nat, hi: nat)
    requires Labels(Pairs(stack), seg, lo, hi) && stack != [] && SharedAll(b, f, stack)
    requires var s := stack[|stack| - 1]; 0 <= s.0 <= s.1 + 1 && Rearranged(f, g, s.0, s.1 + 1)
    ensures SharedAll(b, g, stack[..|stack| - 1])
  {
    hide At, Rearranged, Injective;
    var s := stack[|stack| - 1];
    RearrangedSizes(f, g, s.0, s.1 + 1);
    TopLabel(Pairs(stack), seg, lo, hi);
    forall k | 0 <= k < |stack| - 1 ensures Shared(b, g, stack[k].0, stack[k].1 + 1, stack[k].2) {
      var t := stack[k];
      assert Pairs(stack)[k] == Pair(t);
      forall i | t.0 <= i <= t.1 ensures g[i] == f[i] {
        assert LabelAt(Pairs(stack), seg[i], i) && Contains(Pairs(stack)[k], i);
        var j := RearrangedAt(f, g, s.0, s.1 + 1, i);
      }
      assert g[t.0..t.1 + 1] == f[t.0..t.1 + 1];
    }
  }

  /** The top stretch has been permuted and split. */
  lemma MainStep(start: seq<int>, f: seq<int>, g: seq<int>, b: seq<byte>, stack: seq<Stretch>, seg: seq<int>, lo: nat, hi: nat, next: seq<Stretch>)
    requires MainSorting(start, f, b, stack, seg, lo, hi) && stack != []
    requires var s := stack[|stack| - 1]; 0 <= s.0 <= s.1 + 1 && Rearranged(f, g, s.0, s.1 + 1) && NextOk(g, b, Pair(s), next)
    ensures MainSorting(start, g, b, stack[..|stack| - 1] + next, Relabelled(seg, Pair(stack[|stack| - 1]), |stack| - 1, Pairs(next)), lo, hi)
  {
    hide Rearranged, RotKeys, Shared, Covered, Labels, InRange, PartsOrdered, Parts, NextOk, Relabelled;
    var s, rest := stack[|stack| - 1], stack[..|stack| - 1];
    NextParts(g, b, Pair(s), next);
    SortingStep(start, f, g, RotKeys(b), Pairs(stack), seg, lo, hi, Pairs(next));
    PairsFront(stack);
    PairsAppend(rest, next);
    OthersShared(f, g, b, stack, seg, lo, hi);
    NextShared(g, b, Pair(s), next);
  }

  lemma NextShared(g: seq<int>, b: seq<byte>, s: (int, int), next: seq<Stretch>)
    requires NextOk(g, b, s, next)
    ensures SharedAll(b, g, next)
  {
  }

  // ----- which rows have been compared -----

  /** None of these rows have been compared with each other. */
  ghost predicate Unseen(log: seq<Comparison>, rows: seq<int>) {
    forall p, q :: p in rows && q in rows ==> Times(log, p, q) == 0
  }

  ghost predicate UnseenAt(log: seq<Comparison>, f: seq<int>, s: Stretch) {
    0 <= s.0 <= s.1 + 1 <= |f| && Unseen(log, f[s.0..s.1 + 1])
  }

  /** No two rows have been compared more often than there are increments, those of a stretch still on the stack not
      at all. */
  ghost predicate StackLog(log: seq<Comparison>, start: seq<int>, f: seq<int>, stack: seq<Stretch>, lo: nat, hi: nat) {
    ComparedWithin(log, start, lo, hi, 14) && forall k :: 0 <= k < |stack| ==> UnseenAt(log, f, stack[k])
  }

  lemma StackLogStarts(f: seq<int>, lo: nat, hi: int, d: nat)
    requires lo <= hi + 1 <= |f|
    ensures StackLog([], f, f, [(lo as int, hi, d)], lo, hi + 1)
  {
  }

  lemma StackLogEnds(log: seq<Comparison>, start: seq<int>, f: seq<int>, stack: seq<Stretch>, lo: nat, hi: nat)
    requires StackLog(log, start, f, stack, lo, hi)
    ensures ComparedWithin(log, start, lo, hi, 14)
  {
  }

  lemma UnseenPart(log: seq<Comparison>, f: seq<int>, g: seq<int>, s: Stretch, t: Stretch)
    requires UnseenAt(log, f, s) && Rearranged(f, g, s.0, s.1 + 1) && s.0 <= t.0 <= t.1 + 1 <= s.1 + 1
    ensures UnseenAt(log, g, t)
  {
    hide Times;
    var rows, part := f[s.0..s.1 + 1], g[t.0..t.1 + 1];
    forall p | p in part ensures p in rows {
      var i :| 0 <= i < |part| && part[i] == p;
      var j := RearrangedAt(f, g, s.0, s.1 + 1, t.0 + i);
      assert rows[j - s.0] == p;
    }
  }

  ghost predicate NoneIn(rows: seq<int>, others: seq<int>) {
    forall p :: p in rows ==> p !in others
  }

  /** A stretch further down the stack stays as it is, and shares no row with the one on top. */
  lemma OtherRows(f: seq<int>, g: seq<int>, stack: seq<Stretch>, seg: seq<int>, lo: nat, hi: nat, k: nat)
    requires Labels(Pairs(stack), seg, lo, hi) && k < |stack| - 1 && hi <= |f| && Injective(f[lo..hi])
    requires var s := stack[|stack| - 1]; 0 <= s.0 <= s.1 + 1 && Rearranged(f, g, s.0, s.1 + 1)
    ensures var s, t := stack[|stack| - 1], stack[k];
      && 0 <= t.0 <= t.1 + 1 <= |f| == |g| && s.1 + 1 <= |f| && g[t.0..t.1 + 1] == f[t.0..t.1 + 1]
      && NoneIn(f[t.0..t.1 + 1], f[s.0..s.1 + 1])
  {
    hide Injective, Rearranged;
    var s, t := stack[|stack| - 1], stack[k];
    RearrangedSizes(f, g, s.0, s.1 + 1);
    assert Pairs(stack)[k] == Pair(t) && Pairs(stack)[|stack| - 1] == Pair(s);
    forall i | t.0 <= i <= t.1 ensures g[i] == f[i] && f[i] !in f[s.0..s.1 + 1] {
      assert LabelAt(Pairs(stack), seg[i], i) && Contains(Pairs(stack)[k], i);
      assert !Contains(Pairs(stack)[|stack| - 1], i);
      var j := RearrangedAt(f, g, s.0, s.1 + 1, i);
      DifferentRows(f, lo, hi, s, i);
    }
  }

  lemma DifferentRows(f: seq<int>, lo: nat, hi: nat, s: Stretch, i: int)
    requires lo <= i < hi <= |f| && Injective(f[lo..hi]) && lo <= s.0 <= s.1 + 1 <= hi && !Contains(Pair(s), i)
    ensures f[i] !in f[s.0..s.1 + 1]
  {
    hide Injective;
    if f[i] in f[s.0..s.1 + 1] {
      var j :| 0 <= j < s.1 + 1 - s.0 && f[s.0..s.1 + 1][j] == f[i];
      var x := s.0 + j;
      assert f[lo..hi][x - lo] == f[lo..hi][i - lo];
      if x < i {
        InjectiveAt(f[lo..hi], x - lo, i - lo);
      } else {
        InjectiveAt(f[lo..hi], i - lo, x - lo);
      }
    }
  }

  ghost predicate Inside(s: Stretch, next: seq<Stretch>) {
    forall k :: 0 <= k < |next| ==> s.0 <= next[k].0 <= next[k].1 + 1 <= s.1 + 1
  }

  lemma NextInside(g: seq<int>, b: seq<byte>, s: Stretch, next: seq<Stretch>)
    requires NextOk(g, b, Pair(s), next)
    ensures Inside(s, next)
  {
  }

  /** The stretch on top has been sorted, and its rows have been compared; or it has been split. */
  lemma StackLogStep(log: seq<Comparison>, more: seq<Comparison>, start: seq<int>, f: seq<int>, g: seq<int>, b: seq<byte>,
                     stack: seq<Stretch>, seg: seq<int>, lo: nat, hi: nat, next: seq<Stretch>)
    requires MainSorting(start, f, b, stack, seg, lo, hi) && stack != [] && lo <= hi <= |start| && Injective(start[lo..hi])
    requires StackLog(log, start, f, stack, lo, hi) && (next == [] || more == [])
    requires var s := stack[|stack| - 1];
      && 0 <= s.0 <= s.1 + 1 && Rearranged(f, g, s.0, s.1 + 1) && Inside(s, next)
      && ComparedWithin(more, f, s.0, s.1 + 1, 14)
    ensures StackLog(log + more, start, g, stack[..|stack| - 1] + next, lo, hi)
  {
    hide RotKeys, Covered, InRange, Injective, ComparedWithin, UnseenAt, SharedAll, KeyAt, LexLess;
    var s, rest := stack[|stack| - 1], stack[..|stack| - 1];
    RearrangedInjective(start[lo..hi], f[lo..hi]);
    assert Pairs(stack)[|stack| - 1] == Pair(s);
    TopCompared(log, more, start, f, s, lo, hi);
    forall k | 0 <= k < |rest + next| ensures UnseenAt(log + more, g, (rest + next)[k]) {
      if k < |rest| {
        OtherRows(f, g, stack, seg, lo, hi, k);
        UnseenStill(log, more, f, g, s, rest[k]);
      } else {
        assert log + more == log;
        UnseenPart(log, f, g, s, next[k - |rest|]);
      }
    }
  }

  lemma StackLogSettled(log: seq<Comparison>, more: seq<Comparison>, start: seq<int>, f: seq<int>, g: seq<int>, b: seq<byte>,
                        stack: seq<Stretch>, seg: seq<int>, lo: nat, hi: nat, passes: nat)
    requires MainSorting(start, f, b, stack, seg, lo, hi) && stack != [] && lo <= hi <= |start| && Injective(start[lo..hi])
    requires StackLog(log, start, f, stack, lo, hi)
    requires var s := stack[|stack| - 1];
      0 <= s.0 <= s.1 + 1 && Rearranged(f, g, s.0, s.1 + 1) && passes <= 14 && ComparedWithin(more, f, s.0, s.1 + 1, passes)
    ensures StackLog(log + more, start, g, stack[..|stack| - 1], lo, hi)
  {
    hide MainSorting, Injective, StackLog, ComparedWithin;
    var s, rest := stack[|stack| - 1], stack[..|stack| - 1];
    ComparedOften(more, f, s.0, s.1 + 1, passes, 14);
    StackLogStep(log, more, start, f, g, b, stack, seg, lo, hi, []);
    assert rest + [] == rest;
  }

  lemma StackLogSplit(log: seq<Comparison>, start: seq<int>, f: seq<int>, g: seq<int>, b: seq<byte>, stack: seq<Stretch>, seg: seq<int>,
                      lo: nat, hi: nat, next: seq<Stretch>)
    requires MainSorting(start, f, b, stack, seg, lo, hi) && stack != [] && lo <= hi <= |start| && Injective(start[lo..hi])
    requires StackLog(log, start, f, stack, lo, hi)
    requires var s := stack[|stack| - 1]; 0 <= s.0 <= s.1 + 1 && Rearranged(f, g, s.0, s.1 + 1) && NextOk(g, b, Pair(s), next)
    ensures StackLog(log, start, g, stack[..|stack| - 1] + next, lo, hi)
  {
    hide MainSorting, Injective, StackLog, NextOk, Inside;
    var s := stack[|stack| - 1];
    NextInside(g, b, s, next);
    assert ComparedWithin([], f, s.0, s.1 + 1, 14) by {
      hide *;
      RearrangedSizes(f, g, s.0, s.1 + 1);
      NeverCompared(f, s.0, s.1 + 1);
      ComparedOften([], f, s.0, s.1 + 1, 0, 14);
    }
    StackLogStep(log, [], start, f, g, b, stack, seg, lo, hi, next);
    assert log + [] == log;
  }

  lemma UnseenStill(log: seq<Comparison>, more: seq<Comparison>, f: seq<int>, g: seq<int>, s: Stretch, t: Stretch)
    requires UnseenAt(log, f, t) && 0 <= s.0 <= s.1 + 1 <= |f| && ComparedWithin(more, f, s.0, s.1 + 1, 14)
    requires |g| == |f| && g[t.0..t.1 + 1] == f[t.0..t.1 + 1] && NoneIn(f[t.0..t.1 + 1], f[s.0..s.1 + 1])
    ensures UnseenAt(log + more, g, t)
  {
    hide Times, AtMost, Among;
    forall p, q | p in g[t.0..t.1 + 1] && q in g[t.0..t.1 + 1] ensures Times(log + more, p, q) == 0 {
      TimesTwice(log, more, p, q);
      NotAmong(more, f[s.0..s.1 + 1], p, q);
    }
  }

  lemma TopCompared(log: seq<Comparison>, more: seq<Comparison>, start: seq<int>, f: seq<int>, s: Stretch, lo: nat, hi: nat)
    requires ComparedWithin(log, start, lo, hi, 14) && Rearranged(start, f, lo, hi) && lo <= s.0 <= s.1 + 1 <= hi
    requires UnseenAt(log, f, s) && ComparedWithin(more, f, s.0, s.1 + 1, 14)
    ensures ComparedWithin(log + more, start, lo, hi, 14)
  {
    hide Times, Among;
    assert f[lo..hi] == f[lo..s.0] + f[s.0..s.1 + 1] + f[s.1 + 1..hi];
    AmongMore(more, f[s.0..s.1 + 1], start[lo..hi]);
    AmongBoth(log, more, start[lo..hi]);
    forall p, q ensures Times(log + more, p, q) <= 14 {
      TimesTwice(log, more, p, q);
      if p !in f[s.0..s.1 + 1] || q !in f[s.0..s.1 + 1] {
        NotAmong(more, f[s.0..s.1 + 1], p, q);
      }
    }
  }

  // ----- the three parts -----

  lemma ThirdOf(g: seq<int>, keys: seq<int>, med: int, lo: nat, n: int, m: int, hi: int, i: int)
    requires Thirds(g, keys, med, lo, n, m, hi) && lo <= i <= hi
    ensures i < |g| && 0 <= g[i] < |keys|
    ensures if i <= n then keys[g[i]] < med else if i < m then keys[g[i]] == med else keys[g[i]] > med
  {
  }

  /** Rows of different thirds are in order, for the byte at depth d decides. */
  lemma ThirdsDecide(g: seq<int>, b: seq<byte>, d: nat, med: int, lo: nat, n: int, m: int, hi: int, i: int, j: int)
    requires b != [] && Thirds(g, ByteKeys(b, d), med, lo, n, m, hi) && Shared(b, g, lo, hi + 1, d)
    requires lo <= i < j <= hi && ((i <= n < j) || (i < m <= j))
    ensures KeyAt(g, RotKeys(b), i) <= KeyAt(g, RotKeys(b), j)
  {
    hide At, Thirds, RotKeys;
    ThirdOf(g, ByteKeys(b, d), med, lo, n, m, hi, i);
    ThirdOf(g, ByteKeys(b, d), med, lo, n, m, hi, j);
    ThirdsBounds(g, ByteKeys(b, d), med, lo, n, m, hi);
    ByteDecides(b, g[i], g[j], d);
    RankOrders(b, g[i], g[j]);
  }

  /** The middle third shares one byte more. */
  lemma MiddleShared(g: seq<int>, b: seq<byte>, d: nat, med: int, lo: nat, n: int, m: int, hi: int)
    requires b != [] && Thirds(g, ByteKeys(b, d), med, lo, n, m, hi) && Shared(b, g, lo, hi + 1, d) && hi < |g|
    requires lo - 1 <= n < m <= hi + 1
    ensures Shared(b, g, n + 1, m, d + 1)
  {
    hide At, Thirds, Injective;
    SliceInjective(g, lo, hi + 1, n + 1, m);
    forall i, j | n + 1 <= i < m && n + 1 <= j < m ensures Window(b, g[i], d + 1) == Window(b, g[j], d + 1) {
      ThirdOf(g, ByteKeys(b, d), med, lo, n, m, hi, i);
      ThirdOf(g, ByteKeys(b, d), med, lo, n, m, hi, j);
      assert Agree(b, g[i], g[j], d);
      AgreeMore(b, g[i], g[j], d);
    }
  }

  lemma PartShared(g: seq<int>, b: seq<byte>, d: nat, lo: nat, hi: int, lo': nat, hi': int)
    requires Shared(b, g, lo, hi, d) && lo <= lo' <= hi' <= hi
    ensures Shared(b, g, lo', hi', d)
  {
    hide At, Injective;
    SliceInjective(g, lo, hi, lo', hi');
  }

  lemma ThirdsNext(g: seq<int>, b: seq<byte>, d: nat, med: int, lo: nat, n: int, m: int, hi: int)
    requires b != [] && d <= 14 && Thirds(g, ByteKeys(b, d), med, lo, n, m, hi) && Shared(b, g, lo, hi + 1, d)
    requires lo <= hi < |g| && lo - 1 <= n && n + 1 < m && m <= hi + 1
    ensures NextOk(g, b, (lo as int, hi), [(lo as int, n, d), (m, hi, d), (n + 1, m - 1, d + 1)])
  {
    hide Thirds, Shared, KeyAt, RotKeys, ByteKeys, At;
    var next := [(lo as int, n, d), (m, hi, d), (n + 1, m - 1, d + 1)];
    MiddleShared(g, b, d, med, lo, n, m, hi);
    PartShared(g, b, d, lo, hi + 1, lo, n + 1);
    PartShared(g, b, d, lo, hi + 1, m, hi + 1);
    forall i, j | lo <= i < j <= hi && Separated(next, i, j) ensures KeyAt(g, RotKeys(b), i) <= KeyAt(g, RotKeys(b), j) {
      assert !(Contains(Pair(next[0]), i) && Contains(Pair(next[0]), j));
      assert !(Contains(Pair(next[1]), i) && Contains(Pair(next[1]), j));
      assert !(Contains(Pair(next[2]), i) && Contains(Pair(next[2]), j));
      ThirdsDecide(g, b, d, med, lo, n, m, hi, i, j);
    }
  }

  /** All rows have the same byte at depth d: the whole stretch goes back, one byte deeper. */
  lemma DeeperNext(g: seq<int>, b: seq<byte>, d: nat, med: int, lo: nat, hi: int)
    requires b != [] && d <= 14 && Thirds(g, ByteKeys(b, d), med, lo, lo - 1, hi + 1, hi) && Shared(b, g, lo, hi + 1, d)
    requires lo <= hi < |g|
    ensures NextOk(g, b, (lo as int, hi), [(lo as int, hi, d + 1)])
  {
    hide Thirds, Shared, KeyAt, RotKeys, ByteKeys, At;
    var next := [(lo as int, hi, d + 1)];
    MiddleShared(g, b, d, med, lo, lo - 1, hi + 1, hi);
    forall i, j | lo <= i < j <= hi ensures !Separated(next, i, j) {
      assert Contains(Pair(next[0]), i) && Contains(Pair(next[0]), j);
    }
  }

  lemma SortedNext(g: seq<int>, b: seq<byte>, s: (int, int))
    requires b != [] && 0 <= s.0 <= s.1 + 1 <= |g| && SortedBy(g, RotKeys(b), s.0, s.1 + 1)
    ensures NextOk(g, b, s, [])
  {
    hide RotKeys;
  }

  /** mnextswap: the order of the parts does not matter. */
  lemma NextSwapped(g: seq<int>, b: seq<byte>, s: (int, int), next: seq<Stretch>, j: nat)
    requires NextOk(g, b, s, next) && j + 1 < |next|
    ensures NextOk(g, b, s, next[j := next[j + 1]][j + 1 := next[j]])
  {
    hide KeyAt, RotKeys, Shared, Contains;
    var r := next[j := next[j + 1]][j + 1 := next[j]];
    forall k, l, i | 0 <= k < |r| && 0 <= l < |r| && k != l ensures !(Contains(Pair(r[k]), i) && Contains(Pair(r[l]), i)) {
      var k', l' := Swapped(k, j), Swapped(l, j);
      assert r[k] == next[k'] && r[l] == next[l'] && k' != l';
    }
    forall x, y | Separated(r, x, y) ensures Separated(next, x, y) {
      forall k | 0 <= k < |next| ensures !(Contains(Pair(next[k]), x) && Contains(Pair(next[k]), y)) {
        assert r[Swapped(k, j)] == next[k];
      }
    }
  }

  function Swapped(k: int, j: int): int {
    if k == j then j + 1 else if k == j + 1 then j else k
  }

  // ----- the stack stays small, and the loop ends -----

  ghost function Pow3(p: nat): (r: nat)
    ensures r >= 1
  {
    if p == 0 then 1 else 3 * Pow3(p - 1)
  }

  function Width(x: Stretch): int {
    x.1 - x.0 + 1
  }

  ghost predicate Below3(size: int, p: nat, n: nat) {
    size >= 0 && size * size * Pow3(p) <= n * n
  }

  /** Two places up the stack, a stretch is three times smaller. */
  ghost predicate Shrinking(stack: seq<Stretch>, n: nat) {
    n <= 900000 && |stack| <= 22 && forall p :: 0 <= p < |stack| ==> Below3(Width(stack[p]), p, n)
  }

  lemma SquareMonotone(x: nat, y: nat)
    requires x <= y
    ensures x * x <= y * y
  {
    MulMonotone(x, y, x);
    MulMonotone(x, y, y);
  }

  lemma TripleTimes(x: nat, y: nat)
    ensures x * (3 * y) == 3 * x * y
  {
  }

  lemma HalfBelow(s: nat, x: nat, p: nat, n: nat)
    requires Below3(s, p, n) && 2 * x <= s
    ensures Below3(x, p + 1, n)
  {
    hide Pow3;
    SquareMonotone(2 * x, s);
    assert (2 * x) * (2 * x) == 4 * (x * x);
    MulMonotone(3 * (x * x), s * s, Pow3(p));
    PowNext(p);
    TripleTimes(x * x, Pow3(p));
  }

  lemma PowNext(p: nat)
    ensures Pow3(p + 1) == 3 * Pow3(p)
  {
  }

  lemma ThirdBelow(s: nat, x: nat, p: nat, n: nat)
    requires Below3(s, p, n) && 3 * x <= s
    ensures Below3(x, p + 2, n)
  {
    hide Pow3;
    SquareMonotone(3 * x, s);
    assert (3 * x) * (3 * x) == 9 * (x * x);
    MulMonotone(9 * (x * x), s * s, Pow3(p));
    PowNext(p);
    PowNext(p + 1);
    TripleTimes(x * x, Pow3(p + 1));
    TripleTimes(3 * (x * x), Pow3(p));
    TripleTimes(x * x, Pow3(p));
  }

  lemma SameBelow(s: nat, x: nat, p: nat, n: nat)
    requires Below3(s, p, n) && x <= s
    ensures Below3(x, p, n)
  {
    hide Pow3;
    SquareMonotone(x, s);
    MulMonotone(x * x, s * s, Pow3(p));
  }

  lemma Pow3Monotone(p: nat, q: nat)
    requires p <= q
    ensures Pow3(p) <= Pow3(q)
  {
    if p < q {
      Pow3Monotone(p, q - 1);
    }
  }

  lemma Pow3Twenty()
    ensures Pow3(20) == 3486784401
  {
    assert Pow3(5) == 243;
    assert Pow3(10) == 59049;
    assert Pow3(15) == 14348907;
  }

  /** A stretch of more than twenty entries lies below the twentieth place. */
  lemma LowOnStack(s: nat, p: nat, n: nat)
    requires Below3(s, p, n) && s > 20 && n <= 900000
    ensures p < 20
  {
    hide Pow3;
    SquareMonotone(21, s);
    SquareMonotone(n, 900000);
    MulMonotone(441, s * s, Pow3(p));
    Pow3Twenty();
    if p >= 20 {
      Pow3Monotone(20, p);
    }
  }

  /** The parts are pushed largest first. */
  lemma ShrinkingSplit(stack: seq<Stretch>, n: nat, x: Stretch, y: Stretch, z: Stretch)
    requires Shrinking(stack, n) && stack != [] && Width(stack[|stack| - 1]) > 20
    requires Width(x) >= Width(y) >= Width(z) >= 0 && Width(x) + Width(y) + Width(z) == Width(stack[|stack| - 1])
    ensures Shrinking(stack[..|stack| - 1] + [x, y, z], n) && |stack| <= 20
  {
    hide Below3;
    var p := |stack| - 1;
    var s := Width(stack[p]);
    LowOnStack(s, p, n);
    SameBelow(s, Width(x), p, n);
    HalfBelow(s, Width(y), p, n);
    ThirdBelow(s, Width(z), p, n);
  }

  lemma ShrinkingPop(stack: seq<Stretch>, n: nat)
    requires Shrinking(stack, n) && stack != []
    ensures Shrinking(stack[..|stack| - 1], n)
    ensures var s := stack[|stack| - 1]; Shrinking(stack[..|stack| - 1] + [(s.0, s.1, s.2 + 1)], n)
  {
    hide Below3;
  }

  lemma ShrinkingStarts(lo: nat, hi: int, d: nat)
    requires lo <= hi + 1 && hi - lo < 900000
    ensures Shrinking([(lo as int, hi, d)], hi + 1 - lo)
  {
  }

  /** What is left to do for one stretch: it can still be split at the depths that remain. */
  function Effort(x: Stretch): int {
    3 * (Width(x) * (16 - x.2)) + 1
  }

  /** Goes down with every step. */
  function Toil(stack: seq<Stretch>): int {
    if stack == [] then 0 else Toil(stack[..|stack| - 1]) + Effort(stack[|stack| - 1])
  }

  lemma ToilPush(stack: seq<Stretch>, x: Stretch)
    ensures Toil(stack + [x]) == Toil(stack) + Effort(x)
  {
    assert (stack + [x])[..|stack|] == stack;
  }

  ghost predicate Proper(stack: seq<Stretch>) {
    forall k :: 0 <= k < |stack| ==> Width(stack[k]) >= 0 && stack[k].2 <= 15
  }

  lemma {:induction false} ToilPositive(stack: seq<Stretch>)
    requires Proper(stack)
    ensures Toil(stack) >= 0
  {
    if stack != [] {
      ToilPositive(stack[..|stack| - 1]);
      EffortPositive(stack[|stack| - 1]);
    }
  }

  lemma EffortPositive(x: Stretch)
    requires Width(x) >= 0 && x.2 <= 15
    ensures Effort(x) >= 1
  {
  }

  /** Popping, going deeper, or splitting with a middle that goes deeper: less is left to do. */
  lemma ToilLess(stack: seq<Stretch>, x: Stretch, y: Stretch, z: Stretch)
    requires Proper(stack) && stack != []
    ensures 0 <= Toil(stack[..|stack| - 1]) < Toil(stack)
    ensures Effort(x) + Effort(y) + Effort(z) < Effort(stack[|stack| - 1]) ==> Toil(stack[..|stack| - 1] + [x, y, z]) < Toil(stack)
    ensures Effort(x) < Effort(stack[|stack| - 1]) ==> Toil(stack[..|stack| - 1] + [x]) < Toil(stack)
  {
    hide Effort;
    var rest := stack[..|stack| - 1];
    ToilPositive(rest);
    EffortPositive(stack[|stack| - 1]);
    ToilPush(rest, x);
    ToilPush(rest + [x], y);
    ToilPush(rest + [x, y], z);
    assert rest + [x] + [y] == rest + [x, y] && rest + [x, y] + [z] == rest + [x, y, z];
  }

  lemma SplitEffort(lo: int, n: int, m: int, hi: int, d: nat)
    requires d <= 14 && lo <= n + 1 && n + 1 < m && m <= hi + 1
    ensures Effort((lo, n, d)) + Effort((m, hi, d)) + Effort((n + 1, m - 1, d + 1)) < Effort((lo, hi, d))
    ensures Effort((lo, hi, d + 1)) < Effort((lo, hi, d))
  {
    var a, c, e, k := n + 1 - lo, m - n - 1, hi + 1 - m, 16 - d;
    assert (a + c + e) * k == a * k + c * k + e * k;
    assert c * (k - 1) == c * k - c;
    assert (hi + 1 - lo) * (k - 1) == (hi + 1 - lo) * k - (hi + 1 - lo);
  }

  // ----- the quicksort -----

  /** The three arrays of the stack up to sp. */
  function StackOf3(stackLo: seq<int>, stackHi: seq<int>, stackD: seq<nat>, sp: nat): (s: seq<Stretch>)
    requires sp <= |stackLo| && sp <= |stackHi| && sp <= |stackD|
    ensures |s| == sp
  {
    seq(sp, p requires 0 <= p < sp => (stackLo[p], stackHi[p], stackD[p]))
  }

  lemma Stack3Top(stackLo: seq<int>, stackHi: seq<int>, stackD: seq<nat>, sp: nat)
    requires 0 < sp <= |stackLo| && sp <= |stackHi| && sp <= |stackD|
    ensures var stack := StackOf3(stackLo, stackHi, stackD, sp);
      && stack[sp - 1] == (stackLo[sp - 1], stackHi[sp - 1], stackD[sp - 1])
      && stack[..sp - 1] == StackOf3(stackLo, stackHi, stackD, sp - 1)
  {
  }

  /** mpush. */
  method Push3(stackLo: array<int>, stackHi: array<int>, stackD: array<nat>, sp: nat, x: Stretch)
    requires stackLo != stackHi && sp < stackLo.Length && sp < stackHi.Length && sp < stackD.Length
    requires (stackLo as object) != stackD && (stackHi as object) != stackD
    modifies stackLo, stackHi, stackD
    ensures StackOf3(stackLo[..], stackHi[..], stackD[..], sp + 1) == old(StackOf3(stackLo[..], stackHi[..], stackD[..], sp)) + [x]
  {
    stackLo[sp], stackHi[sp], stackD[sp] := x.0, x.1, x.2;
  }

  method PushParts(stackLo: array<int>, stackHi: array<int>, stackD: array<nat>, sp: nat, x: Stretch, y: Stretch, z: Stretch)
    requires stackLo != stackHi && sp + 2 < stackLo.Length && sp + 2 < stackHi.Length && sp + 2 < stackD.Length
    requires (stackLo as object) != stackD && (stackHi as object) != stackD
    modifies stackLo, stackHi, stackD
    ensures StackOf3(stackLo[..], stackHi[..], stackD[..], sp + 3) == old(StackOf3(stackLo[..], stackHi[..], stackD[..], sp)) + [x, y, z]
  {
    hide *;
    ghost var s := StackOf3(stackLo[..], stackHi[..], stackD[..], sp);
    Push3(stackLo, stackHi, stackD, sp, x);
    Push3(stackLo, stackHi, stackD, sp + 1, y);
    Push3(stackLo, stackHi, stackD, sp + 2, z);
    assert s + [x] + [y] + [z] == s + [x, y, z];
  }

  lemma MainTop(start: seq<int>, f: seq<int>, b: seq<byte>, stack: seq<Stretch>, seg: seq<int>, lo: nat, hi: nat)
    requires MainSorting(start, f, b, stack, seg, lo, hi) && stack != []
    ensures var s := stack[|stack| - 1];
      lo <= s.0 <= s.1 + 1 <= hi <= |f| && s.2 <= 15 && b != [] && Shared(b, f, s.0, s.1 + 1, s.2) && Proper(stack)
    ensures Rearranged(start, f, lo, hi)
  {
    hide Rearranged, Covered, InRange, RotKeys, Shared, Labels;
    SortingTop(start, f, RotKeys(b), Pairs(stack), seg, lo, hi);
    AllProper(f, b, stack, seg, lo, hi);
  }

  lemma AllProper(f: seq<int>, b: seq<byte>, stack: seq<Stretch>, seg: seq<int>, lo: nat, hi: nat)
    requires Labels(Pairs(stack), seg, lo, hi) && SharedAll(b, f, stack)
    ensures Proper(stack)
  {
    hide Shared, LabelAt;
    forall k | 0 <= k < |stack| ensures Width(stack[k]) >= 0 {
      assert Pairs(stack)[k] == Pair(stack[k]);
    }
  }

  lemma MainStarts(f: seq<int>, b: seq<byte>, lo: nat, hi: int, d: nat) returns (seg: seq<int>)
    requires b != [] && Shared(b, f, lo, hi + 1, d) && d <= 15 && lo <= hi && hi - lo < 900000
    ensures MainSorting(f, f, b, [(lo as int, hi, d)], seg, lo, hi + 1) && Shrinking([(lo as int, hi, d)], hi + 1 - lo)
  {
    hide Shared, RotKeys;
    SharedRange(b, f, RotKeys(b), lo, hi + 1, d);
    var start := [(lo as int, hi)];
    seg := SortingStarts(f, RotKeys(b), lo, hi + 1);
    assert Pairs([(lo as int, hi, d)]) == start;
    ShrinkingStarts(lo, hi, d);
  }

  lemma MainEnds(start: seq<int>, f: seq<int>, b: seq<byte>, seg: seq<int>, lo: nat, hi: nat)
    requires MainSorting(start, f, b, [], seg, lo, hi)
    ensures b != [] && Rearranged(start, f, lo, hi) && SortedBy(f, RotKeys(b), lo, hi)
  {
    hide Rearranged, RotKeys, Sorting;
    SortingEnds(start, f, RotKeys(b), seg, lo, hi);
  }

  /** A short stretch, or one whose rows share many bytes, is sorted on the spot. */
  method SettleMain(ptr: array<word>, block: array<byte>, quadrant: array<ushort>, nblock: nat, lo: int, hi: int, d: nat, budget: int,
                    ghost b: seq<byte>, ghost start: seq<int>, ghost stack: seq<Stretch>, ghost seg: seq<int>, ghost loSt: nat, ghost hiSt: nat,
                    ghost first: int, ghost was: seq<Comparison>)
    returns (left: int, ghost seg': seq<int>, ghost log: seq<Comparison>)
    requires Readable(block[..], quadrant[..], nblock, b) && MainSorting(start, ptr[..], b, stack, seg, loSt, hiSt) && hiSt - loSt <= 900000
    requires stack != [] && stack[|stack| - 1] == (lo, hi, d) && loSt <= hiSt <= |start| && Injective(start[loSt..hiSt])
    requires Charged(b, first, budget, was) && StackLog(was, start, ptr[..], stack, loSt, hiSt)
    modifies ptr
    ensures Charged(b, first, left, log) && Rearranged(start, ptr[..], loSt, hiSt)
    ensures left >= 0 ==> MainSorting(start, ptr[..], b, stack[..|stack| - 1], seg', loSt, hiSt)
    ensures StackLog(log, start, ptr[..], stack[..|stack| - 1], loSt, hiSt)
  {
    hide *;
    ghost var f := ptr[..];
    MainTop(start, f, b, stack, seg, loSt, hiSt);
    ghost var more, passes;
    left, more, passes := MainSimpleSort(ptr, block, quadrant, nblock, lo, hi, d, budget, b);
    ghost var g := ptr[..];
    log := was + more;
    ChargedTwice(b, first, budget, left, was, more);
    StackLogSettled(was, more, start, f, g, b, stack, seg, loSt, hiSt, passes);
    RearrangedWider(f, g, lo, hi + 1, loSt, hiSt);
    RearrangedTwice(start, f, g, loSt, hiSt);
    seg' := seg;
    if left >= 0 {
      RearrangedSizes(f, g, lo, hi + 1);
      SortedNext(g, b, (lo, hi));
      assert Pair((lo, hi, d)) == (lo, hi) by {
        PairIs(lo, hi, d);
      }
      MainStep(start, f, g, b, stack, seg, loSt, hiSt, []);
      assert stack[..|stack| - 1] + [] == stack[..|stack| - 1];
      seg' := Relabelled(seg, Pair(stack[|stack| - 1]), |stack| - 1, Pairs([]));
    }
  }

  lemma PairIs(lo: int, hi: int, d: nat)
    ensures Pair((lo, hi, d)) == (lo, hi)
  {
  }

  /** The parts that go back onto the stack: three, or all of the stretch one byte deeper. */
  ghost predicate SplitOk(g: seq<int>, b: seq<byte>, lo: int, n: int, m: int, hi: int, d: nat) {
    && b != [] && NextOk(g, b, (lo, hi), [(lo, n, d), (m, hi, d), (n + 1, m - 1, d + 1)])
    && (n < lo && m > hi ==> NextOk(g, b, (lo, hi), [(lo, hi, d + 1)]))
  }

  lemma SplitIs(g: seq<int>, b: seq<byte>, lo: int, n: int, m: int, hi: int, d: nat)
    requires b != [] && NextOk(g, b, (lo, hi), [(lo, n, d), (m, hi, d), (n + 1, m - 1, d + 1)])
    requires n < lo && m > hi ==> NextOk(g, b, (lo, hi), [(lo, hi, d + 1)])
    ensures SplitOk(g, b, lo, n, m, hi, d)
  {
    hide NextOk;
  }

  /** A long stretch is partitioned. */
  method SplitMain(ptr: array<word>, block: array<byte>, quadrant: array<ushort>, nblock: nat, lo: nat, hi: int, d: nat,
                   ghost b: seq<byte>, ghost start: seq<int>, ghost stack: seq<Stretch>, ghost seg: seq<int>, ghost loSt: nat, ghost hiSt: nat)
    returns (n: int, m: int)
    requires Readable(block[..], quadrant[..], nblock, b) && MainSorting(start, ptr[..], b, stack, seg, loSt, hiSt)
    requires stack != [] && stack[|stack| - 1] == (lo, hi, d) && lo <= hi && d <= 14
    modifies ptr
    ensures lo - 1 <= n && n + 1 < m && m <= hi + 1 && Rearranged(old(ptr[..]), ptr[..], lo, hi + 1)
    ensures SplitOk(ptr[..], b, lo, n, m, hi, d)
  {
    hide *;
    ghost var f := ptr[..];
    MainTop(start, f, b, stack, seg, loSt, hiSt);
    ReadableMeans(block[..], quadrant[..], nblock, b);
    SharedRows(b, f, lo, hi + 1, d);
    ghost var med;
    n, m, med := SplitByByte(ptr, block, nblock, d, lo, hi, quadrant[..], b);
    ghost var g := ptr[..];
    RearrangedSizes(f, g, lo, hi + 1);
    StillShared(b, f, g, lo, hi + 1, d);
    ThirdsBounds(g, ByteKeys(b, d), med, lo, n, m, hi);
    ThirdsNext(g, b, d, med, lo, n, m, hi);
    if n < lo && m > hi {
      DeeperNext(g, b, d, med, lo, hi);
    }
    SplitIs(g, b, lo, n, m, hi, d);
  }

  lemma ThirdsBounds(f: seq<int>, keys: seq<int>, med: int, lo: nat, n: int, m: int, hi: int)
    requires Thirds(f, keys, med, lo, n, m, hi)
    ensures lo - 1 <= n < m <= hi + 1
  {
  }

  lemma SharedRows(b: seq<byte>, f: seq<int>, lo: nat, hi: int, d: nat)
    requires Shared(b, f, lo, hi, d)
    ensures forall k :: lo <= k < hi ==> 0 <= f[k] < |b|
  {
    hide At;
  }

  /** The parts in the order in which they are pushed. */
  lemma OrderedNext(g: seq<int>, b: seq<byte>, s: (int, int), x: Stretch, y: Stretch, z: Stretch)
    requires NextOk(g, b, s, [x, y, z])
    ensures NextOk(g, b, s, [y, x, z]) && NextOk(g, b, s, [x, z, y])
  {
    hide NextOk;
    NextSwapped(g, b, s, [x, y, z], 0);
    NextSwapped(g, b, s, [x, y, z], 1);
    assert [x, y, z][0 := y][1 := x] == [y, x, z] && [x, y, z][1 := z][2 := y] == [x, z, y];
  }

  /** Sort three parts by size, largest first. */
  method LargestFirst(x: Stretch, y: Stretch, z: Stretch, ghost g: seq<int>, ghost b: seq<byte>, ghost s: (int, int))
    returns (x': Stretch, y': Stretch, z': Stretch)
    requires NextOk(g, b, s, [x, y, z])
    ensures NextOk(g, b, s, [x', y', z']) && Width(x') >= Width(y') >= Width(z')
    ensures Width(x') + Width(y') + Width(z') == Width(x) + Width(y) + Width(z)
    ensures Effort(x') + Effort(y') + Effort(z') == Effort(x) + Effort(y) + Effort(z)
    ensures Width(x) >= 0 && Width(y) >= 0 && Width(z) >= 0 ==> Width(z') >= 0
  {
    hide NextOk, Effort;
    x', y', z' := x, y, z;
    OrderedNext(g, b, s, x', y', z');
    if Width(x') < Width(y') {
      x', y' := y', x';
    }
    OrderedNext(g, b, s, x', y', z');
    if Width(y') < Width(z') {
      y', z' := z', y';
    }
    OrderedNext(g, b, s, x', y', z');
    if Width(x') < Width(y') {
      x', y' := y', x';
    }
  }

  /** mainQSort3: unless the budget runs out, the stretch is sorted by whole rotations; nothing else moves. For
      blocks of up to 900000 entries the stack never holds more than 22 of its 100 places. */
  method MainQSort3(ptr: array<word>, block: array<byte>, quadrant: array<ushort>, nblock: nat, loSt: nat, hiSt: nat, dSt: nat, budget: int,
                    ghost b: seq<byte>)
    returns (left: int, ghost log: seq<Comparison>)
    requires Readable(block[..], quadrant[..], nblock, b) && dSt <= 15 && loSt <= hiSt < ptr.Length && hiSt - loSt < 900000
    requires b != [] && Shared(b, ptr[..], loSt, hiSt + 1, dSt)
    modifies ptr
    ensures Charged(b, budget, left, log) && ComparedWithin(log, old(ptr[..]), loSt, hiSt + 1, 14)
    ensures Rearranged(old(ptr[..]), ptr[..], loSt, hiSt + 1)
    ensures left >= 0 ==> SortedBy(ptr[..], RotKeys(b), loSt, hiSt + 1)
  {
    hide Readable, Rearranged, SortedBy, Charged, StackLog, ComparedWithin, Injective, Inside, MainSorting, Shrinking, StackOf3, Toil, Effort, RotKeys, Shared, Relabelled, NextOk, Proper;
    ghost var start := ptr[..];
    var stackLo, stackHi, stackD := new int[MAIN_QSORT_STACK_SIZE], new int[MAIN_QSORT_STACK_SIZE], new nat[MAIN_QSORT_STACK_SIZE];
    var sp := 0;
    left, log := budget, [];
    NothingCharged(b, budget);
    StackLogStarts(start, loSt, hiSt, dSt);
    SharedMeans(b, start, loSt, hiSt + 1, dSt);
    Push3(stackLo, stackHi, stackD, sp, (loSt, hiSt, dSt));
    sp := sp + 1;
    ghost var n0 := hiSt + 1 - loSt;
    ghost var seg := MainStarts(start, b, loSt, hiSt, dSt);
    ghost var stack := [(loSt as int, hiSt as int, dSt)];
    while sp > 0
      invariant fresh(stackLo) && fresh(stackHi) && fresh(stackD) && stackLo != stackHi
      invariant (stackLo as object) != stackD && (stackHi as object) != stackD
      invariant stackLo.Length == stackHi.Length == stackD.Length == MAIN_QSORT_STACK_SIZE
      invariant sp == |stack| <= MAIN_QSORT_STACK_SIZE && stack == StackOf3(stackLo[..], stackHi[..], stackD[..], sp)
      invariant Charged(b, budget, left, log) && StackLog(log, start, ptr[..], stack, loSt, hiSt + 1)
      invariant MainSorting(start, ptr[..], b, stack, seg, loSt, hiSt + 1) && Shrinking(stack, n0)
      decreases Toil(stack)
    {
      FewEntries(stack, n0);
      assert sp < MAIN_QSORT_STACK_SIZE;
      Stack3Top(stackLo[..], stackHi[..], stackD[..], sp);
      sp := sp - 1;
      var lo, hi, d := stackLo[sp], stackHi[sp], stackD[sp];
      ghost var rest, f := stack[..sp], ptr[..];
      MainTop(start, f, b, stack, seg, loSt, hiSt + 1);
      ShrinkingPop(stack, n0);
      if hi - lo < MAIN_QSORT_SMALL_THRESH || d > MAIN_QSORT_DEPTH_THRESH {
        left, seg, log := SettleMain(ptr, block, quadrant, nblock, lo, hi, d, left, b, start, stack, seg, loSt, hiSt + 1, budget, log);
        StackLogEnds(log, start, ptr[..], rest, loSt, hiSt + 1);
        if left < 0 {
          return;
        }
        ToilLess(stack, (0, -1, 0), (0, -1, 0), (0, -1, 0));
        stack := rest;
        continue;
      }
      var n, m := SplitMain(ptr, block, quadrant, nblock, lo, hi, d, b, start, stack, seg, loSt, hiSt + 1);
      SplitEffort(lo, n, m, hi, d);
      PairIs(lo, hi, d);
      if n < lo && m > hi {
        var x := (lo, hi, d + 1);
        Push3(stackLo, stackHi, stackD, sp, x);
        StackLogSplit(log, start, f, ptr[..], b, stack, seg, loSt, hiSt + 1, [x]);
        MainStep(start, f, ptr[..], b, stack, seg, loSt, hiSt + 1, [x]);
        ToilLess(stack, x, x, x);
        seg, stack := Relabelled(seg, Pair(stack[|stack| - 1]), |stack| - 1, Pairs([x])), rest + [x];
        sp := sp + 1;
        continue;
      }
      var x, y, z := LargestFirst((lo, n, d), (m, hi, d), (n + 1, m - 1, d + 1), ptr[..], b, (lo, hi));
      ShrinkingSplit(stack, n0, x, y, z);
      StackLogSplit(log, start, f, ptr[..], b, stack, seg, loSt, hiSt + 1, [x, y, z]);
      MainStep(start, f, ptr[..], b, stack, seg, loSt, hiSt + 1, [x, y, z]);
      ToilLess(stack, x, y, z);
      PushParts(stackLo, stackHi, stackD, sp, x, y, z);
      seg, stack := Relabelled(seg, Pair(stack[|stack| - 1]), |stack| - 1, Pairs([x, y, z])), rest + [x, y, z];
      sp := sp + 3;
      FewEntries(stack, n0);
    }
    assert stack == [];
    StackLogEnds(log, start, ptr[..], stack, loSt, hiSt + 1);
    MainEnds(start, ptr[..], b, seg, loSt, hiSt + 1);
  }

  lemma FewEntries(stack: seq<Stretch>, n: nat)
    requires Shrinking(stack, n)
    ensures |stack| <= 22
  {
  }
}
