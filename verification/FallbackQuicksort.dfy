/** fallbackSimpleSort and fallbackQSort3: sorting a stretch of fmap by the class of each entry. */
module FallbackQuicksort {
  import opened Numbers
  import opened InPlace
  import opened SegmentStack

  /** The entries from lo up to hi name classes. */
  ghost predicate InRange(f: seq<int>, ec: seq<int>, lo: nat, hi: nat) {
    lo <= hi <= |f| && forall i :: lo <= i < hi ==> 0 <= f[i] < |ec|
  }

  ghost predicate SortedBy(f: seq<int>, ec: seq<int>, lo: nat, hi: nat) {
    InRange(f, ec, lo, hi) && forall i, j :: lo <= i < j < hi ==> ec[f[i]] <= ec[f[j]]
  }

  lemma StillInRange(f: seq<int>, g: seq<int>, ec: seq<int>, lo: nat, hi: nat)
    requires InRange(f, ec, lo, hi) && Rearranged(f, g, lo, hi)
    ensures InRange(g, ec, lo, hi)
  {
    forall i | lo <= i < hi ensures 0 <= g[i] < |ec| {
      var j := RearrangedAt(f, g, lo, hi, i);
    }
  }

  // ----- insertion -----

  /** An insertion in progress: tmp has been moved up from i to the hole at h in steps of gap. */
  ghost predicate Inserting(start: seq<int>, arr: seq<int>, full: seq<int>, ec: seq<int>, i: nat, hi: nat, h: nat, tmp: int, gap: nat) {
    && i <= h < hi && HoleAt(arr, full, h, tmp) && Rearranged(start, full, i, hi) && InRange(full, ec, i, hi) && 0 <= tmp < |ec|
    && (gap == 1 && SortedBy(start, ec, i + 1, hi) ==>
          && (forall x, y :: i <= x < y < hi && x != h && y != h ==> ec[full[x]] <= ec[full[y]])
          && (forall x :: i <= x < h ==> ec[full[x]] < ec[tmp]))
  }

  lemma InsertStarts(a: seq<int>, ec: seq<int>, i: nat, hi: nat, gap: nat)
    requires i < hi && InRange(a, ec, i, hi)
    ensures i < |a| && Inserting(a, a, a, ec, i, hi, i, a[i], gap) && 0 <= a[i] < |ec|
    ensures i + gap < hi ==> i + gap < |a| && 0 <= a[i + gap] < |ec|
  {
  }

  lemma InsertStep(start: seq<int>, arr: seq<int>, full: seq<int>, ec: seq<int>, i: nat, hi: nat, h: nat, tmp: int, gap: nat)
    requires Inserting(start, arr, full, ec, i, hi, h, tmp, gap) && gap >= 1 && h + gap < hi
    ensures h + gap < |arr| && 0 <= arr[h + gap] < |ec| && 0 <= tmp < |ec| && |full| == |arr|
    ensures ec[tmp] > ec[arr[h + gap]] ==> Inserting(start, arr[h := arr[h + gap]], Swap(full, h, h + gap), ec, i, hi, h + gap, tmp, gap)
  {
    hide Rearranged;
    assert full[h] == tmp && full[h + gap] == arr[h + gap];
    if ec[tmp] > ec[arr[h + gap]] {
      HoleMoves(arr, full, h, h + gap, tmp);
      SwapRearranges(start, full, h, h + gap, i, hi);
    }
  }

  lemma InsertEnds(start: seq<int>, arr: seq<int>, full: seq<int>, ec: seq<int>, i: nat, hi: nat, h: nat, tmp: int, gap: nat)
    requires Inserting(start, arr, full, ec, i, hi, h, tmp, gap) && gap >= 1 && 0 <= tmp < |ec|
    requires h + gap < hi ==> 0 <= arr[h + gap] < |ec| && ec[tmp] <= ec[arr[h + gap]]
    ensures h < |arr| && Rearranged(start, arr[h := tmp], i, hi) && InRange(arr[h := tmp], ec, i, hi)
    ensures gap == 1 && SortedBy(start, ec, i + 1, hi) ==> SortedBy(arr[h := tmp], ec, i, hi)
  {
    hide Rearranged;
    if gap == 1 && SortedBy(start, ec, i + 1, hi) {
      forall x, y | i <= x < y < hi ensures ec[full[x]] <= ec[full[y]] {
        if x == h {
          assert y > h + 1 ==> ec[full[h + 1]] <= ec[full[y]];
          assert full[h + 1] == arr[h + 1];
        }
      }
    }
  }

  /** The body of both insertion loops: move the entry at i up, in steps of gap, past everything smaller. */
  method Insert(fmap: array<word>, eclass: array<word>, i: nat, hi: nat, gap: nat)
    requires fmap != eclass && i < hi && gap >= 1 && InRange(fmap[..], eclass[..], i, hi)
    modifies fmap
    ensures Rearranged(old(fmap[..]), fmap[..], i, hi) && InRange(fmap[..], eclass[..], i, hi)
    ensures gap == 1 && SortedBy(old(fmap[..]), eclass[..], i + 1, hi) ==> SortedBy(fmap[..], eclass[..], i, hi)
  {
    hide *;
    ghost var start, full, ec := fmap[..], fmap[..], eclass[..];
    InsertStarts(start, ec, i, hi, gap);
    var tmp := fmap[i];
    var ec_tmp := eclass[tmp];
    var j := i + gap;
    while j < hi && ec_tmp > eclass[fmap[j]]
      invariant i + gap <= j && j - gap < hi
      invariant Inserting(start, fmap[..], full, ec, i, hi, j - gap, tmp, gap)
      invariant j < hi ==> j < fmap.Length && 0 <= fmap[j] < |ec|
      decreases hi - j
    {
      ghost var arr := fmap[..];
      InsertStep(start, arr, full, ec, i, hi, j - gap, tmp, gap);
      full := Swap(full, j - gap, j);
      fmap[j - gap] := fmap[j];
      assert fmap[..] == arr[j - gap := arr[j]];
      j := j + gap;
      if j < hi {
        InsertStep(start, fmap[..], full, ec, i, hi, j - gap, tmp, gap);
      }
    }
    ghost var arr := fmap[..];
    InsertEnds(start, arr, full, ec, i, hi, j - gap, tmp, gap);
    fmap[j - gap] := tmp;
    assert fmap[..] == arr[j - gap := tmp];
  }

  /** The stretch has been permuted. */
  ghost predicate Shuffled(start: seq<int>, f: seq<int>, ec: seq<int>, lo: nat, hi: nat) {
    Rearranged(start, f, lo, hi) && InRange(f, ec, lo, hi)
  }

  lemma InsertedWithin(start: seq<int>, before: seq<int>, after: seq<int>, ec: seq<int>, lo: nat, i: nat, hi: nat)
    requires Shuffled(start, before, ec, lo, hi) && lo <= i < hi && Rearranged(before, after, i, hi)
    ensures Shuffled(start, after, ec, lo, hi)
  {
    hide Rearranged;
    RearrangedSizes(before, after, i, hi);
    RearrangedWider(before, after, i, hi, lo, hi);
    RearrangedTwice(start, before, after, lo, hi);
    StillInRange(before, after, ec, lo, hi);
  }

  lemma RearrangedSizes(a: seq<int>, b: seq<int>, lo: nat, hi: nat)
    requires Rearranged(a, b, lo, hi)
    ensures lo <= hi <= |a| == |b|
  {
  }

  lemma ShuffledTail(start: seq<int>, f: seq<int>, ec: seq<int>, lo: nat, i: nat, hi: nat)
    requires Shuffled(start, f, ec, lo, hi) && lo <= i <= hi
    ensures InRange(f, ec, i, hi)
    ensures i + 1 >= hi ==> SortedBy(f, ec, i, hi)
  {
    hide Rearranged;
  }

  /** Insert every entry that has another one gap places above it, from the top down. */
  method InsertAll(fmap: array<word>, eclass: array<word>, lo: nat, hi: nat, gap: nat, ghost start: seq<int>)
    requires fmap != eclass && gap >= 1 && lo <= hi && Shuffled(start, fmap[..], eclass[..], lo, hi)
    modifies fmap
    ensures Shuffled(start, fmap[..], eclass[..], lo, hi)
    ensures gap == 1 ==> SortedBy(fmap[..], eclass[..], lo, hi)
  {
    hide *;
    var i: int := hi as int - 1 - gap;
    if lo < hi {
      ShuffledTail(start, fmap[..], eclass[..], lo, hi - 1, hi);
    } else {
      ShuffledTail(start, fmap[..], eclass[..], lo, hi, hi);
    }
    while i >= lo
      invariant i < hi && Shuffled(start, fmap[..], eclass[..], lo, hi)
      invariant gap == 1 ==> if lo < hi then lo - 1 <= i && SortedBy(fmap[..], eclass[..], i + 1, hi) else SortedBy(fmap[..], eclass[..], lo, hi)
      decreases i - lo
    {
      ghost var before := fmap[..];
      ShuffledTail(start, before, eclass[..], lo, i, hi);
      Insert(fmap, eclass, i, hi, gap);
      InsertedWithin(start, before, fmap[..], eclass[..], lo, i, hi);
      i := i - 1;
    }
  }

  /** fallbackSimpleSort: insertion in steps of four, then in steps of one. */
  method FallbackSimpleSort(fmap: array<word>, eclass: array<word>, lo: nat, hi: int)
    requires fmap != eclass && lo <= hi + 1 && InRange(fmap[..], eclass[..], lo, hi + 1)
    modifies fmap
    ensures Rearranged(old(fmap[..]), fmap[..], lo, hi + 1) && SortedBy(fmap[..], eclass[..], lo, hi + 1)
  {
    ghost var start := fmap[..];
    Unmoved(start, lo, hi + 1);
    if lo == hi {
      return;
    }
    if hi - lo > 3 {
      InsertAll(fmap, eclass, lo, hi + 1, 4, start);
    }
    InsertAll(fmap, eclass, lo, hi + 1, 1, start);
  }

  // ----- three-way partition -----

  /** From lo to hi: equal to med, below it, not yet looked at, above it, equal to it. */
  ghost predicate Parting(f: seq<int>, ec: seq<int>, med: int, lo: nat, ltLo: nat, unLo: nat, unHi: int, gtHi: int, hi: int) {
    && lo <= ltLo <= unLo <= unHi + 1 && unHi <= gtHi <= hi
    && InRange(f, ec, lo, hi + 1)
    && (forall i :: lo <= i < ltLo ==> ec[f[i]] == med)
    && (forall i :: ltLo <= i < unLo ==> ec[f[i]] < med)
    && (forall i :: unHi < i <= gtHi ==> ec[f[i]] > med)
    && (forall i :: gtHi < i <= hi ==> ec[f[i]] == med)
  }

  /** fswap. */
  method Exchange(fmap: array<word>, i: nat, j: nat)
    requires i < fmap.Length && j < fmap.Length
    modifies fmap
    ensures fmap[..] == Swap(old(fmap[..]), i, j)
  {
    ghost var a := fmap[..];
    fmap[i], fmap[j] := fmap[j], fmap[i];
    assert fmap[..] == Swap(a, i, j);
  }

  /** The first inner loop: up to something above med. */
  method ScanUp(fmap: array<word>, eclass: array<word>, med: int, lo: nat, ltLo: nat, unLo: nat, unHi: int, ghost gtHi: int, ghost hi: int,
                ghost start: seq<int>)
    returns (ltLo': nat, unLo': nat)
    requires fmap != eclass && Parting(fmap[..], eclass[..], med, lo, ltLo, unLo, unHi, gtHi, hi)
    requires Rearranged(start, fmap[..], lo, hi + 1)
    modifies fmap
    ensures Parting(fmap[..], eclass[..], med, lo, ltLo', unLo', unHi, gtHi, hi) && Rearranged(start, fmap[..], lo, hi + 1)
    ensures unLo' >= unLo && (unLo' <= unHi ==> eclass[fmap[unLo']] > med)
  {
    hide Rearranged, Swap;
    ltLo', unLo' := ltLo, unLo;
    while unLo' <= unHi
      invariant Parting(fmap[..], eclass[..], med, lo, ltLo', unLo', unHi, gtHi, hi) && Rearranged(start, fmap[..], lo, hi + 1)
      invariant unLo' >= unLo
      decreases unHi - unLo'
    {
      var n := eclass[fmap[unLo']] - med;
      if n == 0 {
        ghost var f := fmap[..];
        Exchange(fmap, unLo', ltLo');
        UpEqual(start, f, eclass[..], med, lo, ltLo', unLo', unHi, gtHi, hi);
        ltLo', unLo' := ltLo' + 1, unLo' + 1;
        continue;
      }
      if n > 0 {
        break;
      }
      unLo' := unLo' + 1;
    }
  }

  lemma UpEqual(start: seq<int>, f: seq<int>, ec: seq<int>, med: int, lo: nat, ltLo: nat, unLo: nat, unHi: int, gtHi: int, hi: int)
    requires Parting(f, ec, med, lo, ltLo, unLo, unHi, gtHi, hi) && Rearranged(start, f, lo, hi + 1)
    requires unLo <= unHi && ec[f[unLo]] == med
    ensures Parting(Swap(f, unLo, ltLo), ec, med, lo, ltLo + 1, unLo + 1, unHi, gtHi, hi)
    ensures Rearranged(start, Swap(f, unLo, ltLo), lo, hi + 1)
  {
    hide Rearranged;
    SwapRearranges(start, f, unLo, ltLo, lo, hi + 1);
  }

  /** The second inner loop: down to something below med. */
  method ScanDown(fmap: array<word>, eclass: array<word>, med: int, ghost lo: nat, ghost ltLo: nat, unLo: nat, unHi: int, gtHi: int, hi: int,
                  ghost start: seq<int>)
    returns (unHi': int, gtHi': int)
    requires fmap != eclass && Parting(fmap[..], eclass[..], med, lo, ltLo, unLo, unHi, gtHi, hi)
    requires Rearranged(start, fmap[..], lo, hi + 1) && (unLo <= unHi ==> eclass[fmap[unLo]] > med)
    modifies fmap
    ensures Parting(fmap[..], eclass[..], med, lo, ltLo, unLo, unHi', gtHi', hi) && Rearranged(start, fmap[..], lo, hi + 1)
    ensures unHi' <= unHi && (unLo <= unHi' ==> eclass[fmap[unLo]] > med && eclass[fmap[unHi']] < med)
  {
    hide Rearranged, Swap;
    unHi', gtHi' := unHi, gtHi;
    while unLo <= unHi'
      invariant Parting(fmap[..], eclass[..], med, lo, ltLo, unLo, unHi', gtHi', hi) && Rearranged(start, fmap[..], lo, hi + 1)
      invariant unHi' <= unHi && (unLo <= unHi' ==> eclass[fmap[unLo]] > med)
      decreases unHi' - unLo
    {
      var n := eclass[fmap[unHi']] - med;
      if n == 0 {
        ghost var f := fmap[..];
        Exchange(fmap, unHi', gtHi');
        DownEqual(start, f, eclass[..], med, lo, ltLo, unLo, unHi', gtHi', hi);
        gtHi', unHi' := gtHi' - 1, unHi' - 1;
        continue;
      }
      if n < 0 {
        break;
      }
      unHi' := unHi' - 1;
    }
  }

  lemma DownEqual(start: seq<int>, f: seq<int>, ec: seq<int>, med: int, lo: nat, ltLo: nat, unLo: nat, unHi: nat, gtHi: nat, hi: int)
    requires Parting(f, ec, med, lo, ltLo, unLo, unHi, gtHi, hi) && Rearranged(start, f, lo, hi + 1)
    requires unLo <= unHi && ec[f[unHi]] == med && ec[f[unLo]] > med
    ensures Parting(Swap(f, unHi, gtHi), ec, med, lo, ltLo, unLo, unHi - 1, gtHi - 1, hi)
    ensures Rearranged(start, Swap(f, unHi, gtHi), lo, hi + 1)
    ensures unLo <= unHi - 1 ==> Swap(f, unHi, gtHi)[unLo] == f[unLo]
  {
    hide Rearranged;
    SwapRearranges(start, f, unHi, gtHi, lo, hi + 1);
  }

  lemma Crossed(start: seq<int>, f: seq<int>, ec: seq<int>, med: int, lo: nat, ltLo: nat, unLo: nat, unHi: nat, gtHi: int, hi: int)
    requires Parting(f, ec, med, lo, ltLo, unLo, unHi, gtHi, hi) && Rearranged(start, f, lo, hi + 1)
    requires unLo <= unHi && ec[f[unLo]] > med && ec[f[unHi]] < med
    ensures Parting(Swap(f, unLo, unHi), ec, med, lo, ltLo, unLo + 1, unHi - 1, gtHi, hi)
    ensures Rearranged(start, Swap(f, unLo, unHi), lo, hi + 1)
  {
    hide Rearranged;
    SwapRearranges(start, f, unLo, unHi, lo, hi + 1);
  }

  /** The partition loop. */
  method Partition(fmap: array<word>, eclass: array<word>, med: int, lo: nat, hi: int) returns (ltLo: nat, unLo: nat, unHi: int, gtHi: int)
    requires fmap != eclass && lo <= hi && InRange(fmap[..], eclass[..], lo, hi + 1)
    modifies fmap
    ensures unHi == unLo - 1 && Parting(fmap[..], eclass[..], med, lo, ltLo, unLo, unHi, gtHi, hi)
    ensures Rearranged(old(fmap[..]), fmap[..], lo, hi + 1)
  {
    ghost var start := fmap[..];
    Unmoved(start, lo, hi + 1);
    hide Rearranged, Swap;
    ltLo, unLo, unHi, gtHi := lo, lo, hi, hi;
    while true
      invariant Parting(fmap[..], eclass[..], med, lo, ltLo, unLo, unHi, gtHi, hi) && Rearranged(start, fmap[..], lo, hi + 1)
      decreases unHi - unLo + 1
    {
      ltLo, unLo := ScanUp(fmap, eclass, med, lo, ltLo, unLo, unHi, gtHi, hi, start);
      unHi, gtHi := ScanDown(fmap, eclass, med, lo, ltLo, unLo, unHi, gtHi, hi, start);
      if unLo > unHi {
        break;
      }
      ghost var f := fmap[..];
      Exchange(fmap, unLo, unHi);
      Crossed(start, f, eclass[..], med, lo, ltLo, unLo, unHi, gtHi, hi);
      unLo, unHi := unLo + 1, unHi - 1;
    }
  }

  // ----- bringing the equal entries to the middle -----

  /** The entries at p1 and those at p2, n of them each, have changed places. */
  ghost predicate BlocksSwapped(a: seq<int>, b: seq<int>, p1: nat, p2: nat, n: nat) {
    && p1 + n <= p2 && p2 + n <= |a| == |b|
    && (forall k :: p1 <= k < p1 + n ==> b[k] == a[k - p1 + p2])
    && (forall k :: p2 <= k < p2 + n ==> b[k] == a[k - p2 + p1])
    && forall k :: 0 <= k < |a| && !(p1 <= k < p1 + n) && !(p2 <= k < p2 + n) ==> b[k] == a[k]
  }

  lemma BlocksNext(a: seq<int>, b: seq<int>, p1: nat, p2: nat, k: nat)
    requires BlocksSwapped(a, b, p1, p2, k) && p1 + k < p2 && p2 + k < |a|
    ensures BlocksSwapped(a, Swap(b, p1 + k, p2 + k), p1, p2, k + 1)
  {
  }

  lemma NoBlocks(a: seq<int>, p1: nat, p2: nat)
    requires p1 <= p2 <= |a|
    ensures BlocksSwapped(a, a, p1, p2, 0)
  {
  }

  /** fvswap. */
  method SwapBlocks(fmap: array<word>, p1: nat, p2: nat, n: nat, ghost lo: nat, ghost hi: nat)
    requires p1 + n <= p2 && p2 + n <= fmap.Length && lo <= p1 && p2 + n <= hi <= fmap.Length
    modifies fmap
    ensures BlocksSwapped(old(fmap[..]), fmap[..], p1, p2, n) && Rearranged(old(fmap[..]), fmap[..], lo, hi)
  {
    hide *;
    ghost var start := fmap[..];
    Unmoved(start, lo, hi);
    NoBlocks(start, p1, p2);
    hide *;
    var yyp1, yyp2, yyn := p1, p2, n;
    while yyn > 0
      invariant 0 <= yyn <= n && yyp1 == p1 + n - yyn && yyp2 == p2 + n - yyn
      invariant BlocksSwapped(start, fmap[..], p1, p2, n - yyn) && Rearranged(start, fmap[..], lo, hi)
    {
      SwapRearranges(start, fmap[..], yyp1, yyp2, lo, hi);
      BlocksNext(start, fmap[..], p1, p2, n - yyn);
      Exchange(fmap, yyp1, yyp2);
      yyp1, yyp2, yyn := yyp1 + 1, yyp2 + 1, yyn - 1;
    }
  }

  /** Below, equal, above: [lo..n], (n..m), [m..hi]. */
  ghost predicate Thirds(f: seq<int>, ec: seq<int>, med: int, lo: nat, n: int, m: int, hi: int) {
    && lo - 1 <= n < m <= hi + 1
    && InRange(f, ec, lo, hi + 1)
    && (forall i :: lo <= i <= n ==> ec[f[i]] < med)
    && (forall i :: n < i < m ==> ec[f[i]] == med)
    && (forall i :: m <= i <= hi ==> ec[f[i]] > med)
  }

  lemma BlocksToThirds(f: seq<int>, g: seq<int>, h: seq<int>, ec: seq<int>, med: int, lo: nat, ltLo: nat, unLo: nat, gtHi: int, hi: int)
    requires Parting(f, ec, med, lo, ltLo, unLo, unLo - 1, gtHi, hi)
    requires var n := Min(ltLo - lo, unLo - ltLo); BlocksSwapped(f, g, lo, unLo - n, n)
    requires var m := Min(hi - gtHi, gtHi - unLo + 1); BlocksSwapped(g, h, unLo, hi - m + 1, m)
    requires ltLo > lo || gtHi < hi
    ensures Thirds(h, ec, med, lo, lo + unLo - ltLo - 1, hi - (gtHi - unLo + 1) + 1, hi)
  {
    var n := Min(ltLo - lo, unLo - ltLo);
    var m := Min(hi - gtHi, gtHi - unLo + 1);
    forall i | lo <= i < unLo
      ensures h[i] == g[i] && 0 <= g[i] < |ec|
      ensures if i < lo + unLo - ltLo then ec[g[i]] < med else ec[g[i]] == med
    {
    }
    forall i | unLo <= i <= hi
      ensures 0 <= h[i] < |ec|
      ensures if i < unLo + (hi - gtHi) then ec[h[i]] == med else ec[h[i]] > med
    {
      assert g[i] == f[i];
    }
  }

  /** Bring the equal entries from both ends to the middle. */
  method JoinEquals(fmap: array<word>, ghost ec: seq<int>, ghost med: int, lo: nat, ltLo: nat, unLo: nat, gtHi: int, hi: int)
    requires Parting(fmap[..], ec, med, lo, ltLo, unLo, unLo - 1, gtHi, hi) && (ltLo > lo || gtHi < hi)
    requires lo <= ltLo <= unLo && unLo - 1 <= gtHi <= hi < fmap.Length
    modifies fmap
    ensures Thirds(fmap[..], ec, med, lo, lo + unLo - ltLo - 1, hi - (gtHi - unLo + 1) + 1, hi)
    ensures Rearranged(old(fmap[..]), fmap[..], lo, hi + 1)
  {
    hide Rearranged, BlocksSwapped, Parting, Thirds, InRange;
    ghost var f := fmap[..];
    var n := Min(ltLo - lo, unLo - ltLo);
    SwapBlocks(fmap, lo, unLo - n, n, lo, hi + 1);
    ghost var g := fmap[..];
    var m := Min(hi - gtHi, gtHi - unLo + 1);
    SwapBlocks(fmap, unLo, hi - m + 1, m, lo, hi + 1);
    RearrangedTwice(f, g, fmap[..], lo, hi + 1);
    BlocksToThirds(f, g, fmap[..], ec, med, lo, ltLo, unLo, gtHi, hi);
  }

  /** What partitioning a stretch achieves. */
  method SplitStretch(fmap: array<word>, eclass: array<word>, lo: nat, hi: int, med: int, ghost x0: nat) returns (n: int, m: int)
    requires fmap != eclass && lo <= x0 <= hi < fmap.Length && InRange(fmap[..], eclass[..], lo, hi + 1)
    requires 0 <= fmap[x0] < eclass.Length && eclass[fmap[x0]] == med
    modifies fmap
    ensures Thirds(fmap[..], eclass[..], med, lo, n, m, hi) && n + 1 < m
    ensures Rearranged(old(fmap[..]), fmap[..], lo, hi + 1)
  {
    hide *;
    ghost var start := fmap[..];
    var ltLo, unLo, unHi, gtHi := Partition(fmap, eclass, med, lo, hi);
    ghost var f := fmap[..];
    PartingMeans(start, f, eclass[..], med, lo, ltLo, unLo, gtHi, hi, x0);
    if gtHi < ltLo {
      return lo - 1, hi + 1;
    }
    JoinEquals(fmap, eclass[..], med, lo, ltLo, unLo, gtHi, hi);
    RearrangedTwice(start, f, fmap[..], lo, hi + 1);
    n := lo + unLo - ltLo - 1;
    m := hi - (gtHi - unHi) + 1;
  }

  /** The pivot value occurs, so not everything is below or above it; and if nothing is, all are equal. */
  lemma PartingMeans(start: seq<int>, f: seq<int>, ec: seq<int>, med: int, lo: nat, ltLo: nat, unLo: nat, gtHi: int, hi: int, x0: nat)
    requires Parting(f, ec, med, lo, ltLo, unLo, unLo - 1, gtHi, hi) && Rearranged(start, f, lo, hi + 1)
    requires lo <= x0 <= hi < |start| && 0 <= start[x0] < |ec| && ec[start[x0]] == med
    ensures lo <= ltLo <= unLo && unLo - 1 <= gtHi <= hi < |f|
    ensures ltLo > lo || gtHi < hi
    ensures gtHi < ltLo ==> Thirds(f, ec, med, lo, lo - 1, hi + 1, hi)
  {
    var x := RearrangedAt(f, start, lo, hi + 1, x0);
  }

  // ----- the quicksort -----

  const FALLBACK_QSORT_SMALL_THRESH := 10
  const FALLBACK_QSORT_STACK_SIZE := 100

  /** The two arrays of the stack up to sp. */
  function StackOf(stackLo: seq<int>, stackHi: seq<int>, sp: nat): (s: seq<(int, int)>)
    requires sp <= |stackLo| && sp <= |stackHi|
    ensures |s| == sp
  {
    seq(sp, p requires 0 <= p < sp => (stackLo[p], stackHi[p]))
  }

  /** Between two steps: everything is in order but for the entries of the stretches on the stack. */
  ghost predicate Sorting(start: seq<int>, f: seq<int>, ec: seq<int>, stack: seq<(int, int)>, seg: seq<int>, lo: nat, hi: nat) {
    && Rearranged(start, f, lo, hi) && InRange(f, ec, lo, hi)
    && Covered(f, ec, seg, lo, hi) && Labels(stack, seg, lo, hi)
  }

  lemma SortingStarts(f: seq<int>, ec: seq<int>, lo: nat, hi: nat) returns (seg: seq<int>)
    requires InRange(f, ec, lo, hi) && lo < hi && hi - lo <= 900000
    ensures Sorting(f, f, ec, [(lo, hi as int - 1)], seg, lo, hi) && Halving([(lo, hi as int - 1)], hi - lo)
  {
    seg := seq(|f|, _ => 0);
    Unmoved(f, lo, hi);
  }

  lemma SortingTop(start: seq<int>, f: seq<int>, ec: seq<int>, stack: seq<(int, int)>, seg: seq<int>, lo: nat, hi: nat)
    requires Sorting(start, f, ec, stack, seg, lo, hi) && stack != []
    ensures var s := stack[|stack| - 1];
      && lo <= s.0 <= s.1 + 1 <= hi <= |f| && InRange(f, ec, s.0, s.1 + 1)
    ensures var s := stack[|stack| - 1];
      forall k :: s.0 <= k <= s.1 ==> 0 <= f[k] < |ec|
  {
    hide Covered, Rearranged;
    TopLabel(stack, seg, lo, hi);
  }

  lemma SortedIsOrdered(f: seq<int>, ec: seq<int>, s: (int, int))
    requires 0 <= s.0 <= s.1 + 1 && SortedBy(f, ec, s.0, s.1 + 1)
    ensures PartsOrdered(f, ec, s, [])
  {
  }

  lemma ThirdsAreOrdered(f: seq<int>, ec: seq<int>, med: int, s: (int, int), n: int, m: int, parts: seq<(int, int)>)
    requires 0 <= s.0 <= s.1 && Thirds(f, ec, med, s.0, n, m, s.1)
    requires parts == [(s.0, n), (m, s.1)] || parts == [(m, s.1), (s.0, n)]
    ensures PartsOrdered(f, ec, s, parts) && Parts(s, parts)
  {
    forall i, j | s.0 <= i < j <= s.1 && (PartOf(parts, i) == -1 || PartOf(parts, i) != PartOf(parts, j))
      ensures KeyAt(f, ec, i) <= KeyAt(f, ec, j)
    {
      var a, b := PartOf(parts, i), PartOf(parts, j);
      assert !Contains(parts[0], i) || !Contains(parts[0], j);
      assert !Contains(parts[1], i) || !Contains(parts[1], j);
    }
  }

  /** The top stretch has been permuted and split into parts that are in order. */
  lemma SortingStep(start: seq<int>, f: seq<int>, g: seq<int>, ec: seq<int>, stack: seq<(int, int)>, seg: seq<int>, lo: nat, hi: nat,
                    parts: seq<(int, int)>)
    requires Sorting(start, f, ec, stack, seg, lo, hi) && stack != []
    requires var s := stack[|stack| - 1];
      && 0 <= s.0 <= s.1 + 1 && Rearranged(f, g, s.0, s.1 + 1) && PartsOrdered(g, ec, s, parts) && Parts(s, parts)
    ensures Sorting(start, g, ec, stack[..|stack| - 1] + parts, Relabelled(seg, stack[|stack| - 1], |stack| - 1, parts), lo, hi)
  {
    hide Rearranged, PartsOrdered, Parts, InRange, Labels, Covered, Relabelled;
    var s := stack[|stack| - 1];
    TopLabel(stack, seg, lo, hi);
    CoveredSizes(f, ec, seg, lo, hi);
    RearrangedWider(f, g, s.0, s.1 + 1, lo, hi);
    RearrangedTwice(start, f, g, lo, hi);
    StillInRange(f, g, ec, lo, hi);
    StillCovered(f, g, ec, seg, lo, hi, s.0, s.1 + 1, |stack| - 1);
    CoverRefined(g, ec, seg, lo, hi, s, |stack| - 1, |stack| - 1, parts);
    LabelsSplit(stack, seg, lo, hi, parts);
  }

  lemma CoveredSizes(f: seq<int>, keys: seq<int>, seg: seq<int>, lo: nat, hi: nat)
    requires Covered(f, keys, seg, lo, hi)
    ensures lo <= hi <= |f| == |seg|
  {
  }

  lemma SortingEnds(start: seq<int>, f: seq<int>, ec: seq<int>, seg: seq<int>, lo: nat, hi: nat)
    requires Sorting(start, f, ec, [], seg, lo, hi)
    ensures Rearranged(start, f, lo, hi) && SortedBy(f, ec, lo, hi)
  {
    hide Rearranged;
    CoveredSorted(f, ec, seg, lo, hi);
    forall i, j | lo <= i < j < hi ensures ec[f[i]] <= ec[f[j]] {
      assert KeyAt(f, ec, i) <= KeyAt(f, ec, j);
    }
  }

  /** The pivot: the class of the first, the middle or the last entry, chosen by a linear congruence. */
  method ChoosePivot(fmap: array<word>, eclass: array<word>, lo: nat, hi: nat, r: nat) returns (r': nat, med: int, ghost x0: nat)
    requires lo <= hi < fmap.Length && forall k :: lo <= k <= hi ==> 0 <= fmap[k] < eclass.Length
    ensures r' == (r * 7621 + 1) % 32768 && lo <= x0 <= hi && 0 <= fmap[x0] < eclass.Length && med == eclass[fmap[x0]]
  {
    r' := (r * 7621 + 1) % 32768;
    var r3 := r' % 3;
    if r3 == 0 {
      med, x0 := eclass[fmap[lo]], lo;
    } else if r3 == 1 {
      med, x0 := eclass[fmap[(lo + hi) / 2]], (lo + hi) / 2;
    } else {
      med, x0 := eclass[fmap[hi]], hi;
    }
  }

  /** A short stretch is sorted on the spot. */
  method SettleTop(fmap: array<word>, eclass: array<word>, lo: int, hi: int, ghost start: seq<int>, ghost stack: seq<(int, int)>,
                   ghost seg: seq<int>, ghost loSt: nat, ghost hiSt: nat)
    returns (ghost seg': seq<int>)
    requires fmap != eclass && Sorting(start, fmap[..], eclass[..], stack, seg, loSt, hiSt)
    requires stack != [] && stack[|stack| - 1] == (lo, hi)
    modifies fmap
    ensures Sorting(start, fmap[..], eclass[..], stack[..|stack| - 1], seg', loSt, hiSt)
  {
    hide *;
    ghost var f := fmap[..];
    SortingTop(start, f, eclass[..], stack, seg, loSt, hiSt);
    FallbackSimpleSort(fmap, eclass, lo, hi);
    SortedIsOrdered(fmap[..], eclass[..], (lo, hi));
    NoParts((lo, hi));
    SortingStep(start, f, fmap[..], eclass[..], stack, seg, loSt, hiSt, []);
    assert stack[..|stack| - 1] + [] == stack[..|stack| - 1];
    seg' := Relabelled(seg, stack[|stack| - 1], |stack| - 1, []);
  }

  lemma NoParts(s: (int, int))
    ensures Parts(s, [])
  {
  }

  /** A long stretch is partitioned: it is settled if all its classes are equal, else two parts of it are left. */
  method SplitTop(fmap: array<word>, eclass: array<word>, lo: int, hi: int, r: nat, ghost start: seq<int>, ghost stack: seq<(int, int)>,
                  ghost seg: seq<int>, ghost loSt: nat, ghost hiSt: nat)
    returns (r': nat, n: int, m: int, ghost seg1: seq<int>, ghost seg2: seq<int>)
    requires fmap != eclass && Sorting(start, fmap[..], eclass[..], stack, seg, loSt, hiSt)
    requires stack != [] && stack[|stack| - 1] == (lo, hi) && lo <= hi
    modifies fmap
    ensures lo - 1 <= n && n + 1 < m && m <= hi + 1
    ensures Sorting(start, fmap[..], eclass[..], stack[..|stack| - 1] + [(lo, n), (m, hi)], seg1, loSt, hiSt)
    ensures Sorting(start, fmap[..], eclass[..], stack[..|stack| - 1] + [(m, hi), (lo, n)], seg2, loSt, hiSt)
    ensures n < lo && m > hi ==> Sorting(start, fmap[..], eclass[..], stack[..|stack| - 1], Relabelled(seg, (lo, hi), |stack| - 1, []), loSt, hiSt)
  {
    hide *;
    ghost var f := fmap[..];
    SortingTop(start, f, eclass[..], stack, seg, loSt, hiSt);
    var med;
    ghost var x0;
    r', med, x0 := ChoosePivot(fmap, eclass, lo, hi, r);
    n, m := SplitStretch(fmap, eclass, lo, hi, med, x0);
    ghost var g := fmap[..];
    ThirdsMeans(g, eclass[..], med, lo, n, m, hi);
    ThirdsAreOrdered(g, eclass[..], med, (lo, hi), n, m, [(lo, n), (m, hi)]);
    ThirdsAreOrdered(g, eclass[..], med, (lo, hi), n, m, [(m, hi), (lo, n)]);
    SortingStep(start, f, g, eclass[..], stack, seg, loSt, hiSt, [(lo, n), (m, hi)]);
    SortingStep(start, f, g, eclass[..], stack, seg, loSt, hiSt, [(m, hi), (lo, n)]);
    seg1 := Relabelled(seg, (lo, hi), |stack| - 1, [(lo, n), (m, hi)]);
    seg2 := Relabelled(seg, (lo, hi), |stack| - 1, [(m, hi), (lo, n)]);
    if n < lo && m > hi {
      NoParts((lo, hi));
      SortingStep(start, f, g, eclass[..], stack, seg, loSt, hiSt, []);
      assert stack[..|stack| - 1] + [] == stack[..|stack| - 1];
    }
  }

  lemma ThirdsMeans(f: seq<int>, ec: seq<int>, med: int, lo: nat, n: int, m: int, hi: int)
    requires Thirds(f, ec, med, lo, n, m, hi)
    ensures lo - 1 <= n < m <= hi + 1
    ensures n < lo && m > hi ==> PartsOrdered(f, ec, (lo as int, hi), [])
  {
  }

  lemma StackTop(stackLo: seq<int>, stackHi: seq<int>, sp: nat)
    requires 0 < sp <= |stackLo| && sp <= |stackHi|
    ensures var stack := StackOf(stackLo, stackHi, sp);
      stack[sp - 1] == (stackLo[sp - 1], stackHi[sp - 1]) && stack[..sp - 1] == StackOf(stackLo, stackHi, sp - 1)
  {
  }

  /** fpush. */
  method Push(stackLo: array<int>, stackHi: array<int>, sp: nat, lo: int, hi: int)
    requires stackLo != stackHi && sp < stackLo.Length && sp < stackHi.Length
    modifies stackLo, stackHi
    ensures StackOf(stackLo[..], stackHi[..], sp + 1) == old(StackOf(stackLo[..], stackHi[..], sp)) + [(lo, hi)]
  {
    stackLo[sp], stackHi[sp] := lo, hi;
  }

  /** fallbackQSort3: sorts the stretch by class and nothing else; for blocks of up to 900000 entries the stack
      never holds more than 18 of its 100 places. */
  method FallbackQSort3(fmap: array<word>, eclass: array<word>, loSt: nat, hiSt: nat)
    requires fmap != eclass && loSt <= hiSt && hiSt - loSt < 900000 && InRange(fmap[..], eclass[..], loSt, hiSt + 1)
    modifies fmap
    ensures Rearranged(old(fmap[..]), fmap[..], loSt, hiSt + 1) && SortedBy(fmap[..], eclass[..], loSt, hiSt + 1)
  {
    hide Rearranged, InRange, SortedBy, Sorting, Halving, StackOf, Work, Labels, Relabelled;
    ghost var start := fmap[..];
    var stackLo, stackHi := new int[FALLBACK_QSORT_STACK_SIZE], new int[FALLBACK_QSORT_STACK_SIZE];
    var r, sp := 0, 0;
    Push(stackLo, stackHi, sp, loSt, hiSt);
    sp := sp + 1;
    ghost var n0 := hiSt + 1 - loSt;
    ghost var seg := SortingStarts(start, eclass[..], loSt, hiSt + 1);
    ghost var stack := [(loSt as int, hiSt as int)];
    while sp > 0
      invariant fresh(stackLo) && fresh(stackHi) && stackLo != stackHi
      invariant stackLo.Length == stackHi.Length == FALLBACK_QSORT_STACK_SIZE
      invariant sp == |stack| <= 18 && stack == StackOf(stackLo[..], stackHi[..], sp)
      invariant Sorting(start, fmap[..], eclass[..], stack, seg, loSt, hiSt + 1) && Halving(stack, n0)
      decreases Work(stack)
    {
      assert sp < FALLBACK_QSORT_STACK_SIZE;
      StackTop(stackLo[..], stackHi[..], sp);
      sp := sp - 1;
      var lo, hi := stackLo[sp], stackHi[sp];
      ghost var rest := stack[..sp];
      StepFacts(start, fmap[..], eclass[..], stack, seg, loSt, hiSt + 1, n0);
      if hi - lo < FALLBACK_QSORT_SMALL_THRESH {
        seg := SettleTop(fmap, eclass, lo, hi, start, stack, seg, loSt, hiSt + 1);
        stack := rest;
        continue;
      }
      var n, m;
      ghost var seg0, seg1, seg2 := seg, seg, seg;
      r, n, m, seg1, seg2 := SplitTop(fmap, eclass, lo, hi, r, start, stack, seg, loSt, hiSt + 1);
      if n < lo && m > hi {
        seg, stack := Relabelled(seg0, (lo, hi), sp, []), rest;
        continue;
      }
      SplitFacts(start, stack, seg, loSt, hiSt + 1, n0, lo, n, m, hi);
      if n - lo > hi - m {
        Push(stackLo, stackHi, sp, lo, n);
        Push(stackLo, stackHi, sp + 1, m, hi);
        seg, stack := seg1, rest + [(lo, n), (m, hi)];
      } else {
        Push(stackLo, stackHi, sp, m, hi);
        Push(stackLo, stackHi, sp + 1, lo, n);
        seg, stack := seg2, rest + [(m, hi), (lo, n)];
      }
      sp := sp + 2;
    }
    assert stack == [];
    SortingEnds(start, fmap[..], eclass[..], seg, loSt, hiSt + 1);
  }

  lemma StepFacts(start: seq<int>, f: seq<int>, ec: seq<int>, stack: seq<(int, int)>, seg: seq<int>, lo: nat, hi: nat, n0: nat)
    requires Sorting(start, f, ec, stack, seg, lo, hi) && stack != [] && Halving(stack, n0)
    ensures Labels(stack, seg, lo, hi)
    ensures Halving(stack[..|stack| - 1], n0)
    ensures 0 <= Work(stack[..|stack| - 1]) < Work(stack)
  {
    hide Rearranged, Covered, InRange;
    TopLabel(stack, seg, lo, hi);
    HalvingPop(stack, n0);
    WorkLess(stack, seg, lo, hi, (0, -2), (0, -2));
  }

  /** Two parts of a long stretch, the larger one first: the stack stays small and the work shrinks. */
  lemma SplitFacts(start: seq<int>, stack: seq<(int, int)>, seg: seq<int>, loSt: nat, hiSt: nat, n0: nat, lo: int, n: int, m: int, hi: int)
    requires Labels(stack, seg, loSt, hiSt) && stack != [] && stack[|stack| - 1] == (lo, hi) && Halving(stack, n0)
    requires lo - 1 <= n && n + 1 < m && m <= hi + 1 && hi - lo >= FALLBACK_QSORT_SMALL_THRESH
    ensures var rest := stack[..|stack| - 1];
      && Work(rest + [(lo, n), (m, hi)]) < Work(stack) && Work(rest + [(m, hi), (lo, n)]) < Work(stack)
      && (n - lo > hi - m ==> Halving(rest + [(lo, n), (m, hi)], n0))
      && (n - lo <= hi - m ==> Halving(rest + [(m, hi), (lo, n)], n0))
      && |rest| <= 16
  {
    hide Labels, Work;
    WorkLess(stack, seg, loSt, hiSt, (lo, n), (m, hi));
    WorkLess(stack, seg, loSt, hiSt, (m, hi), (lo, n));
    if n - lo > hi - m {
      HalvingSplit(stack, n0, (lo, n), (m, hi));
    } else {
      HalvingSplit(stack, n0, (m, hi), (lo, n));
    }
  }
}
