/** mainSort, the running order: big buckets from the least full to the fullest, by a Shell sort. */
module RunningOrder {
  import opened Numbers
  import opened Permutations
  import opened InPlace
  import opened FallbackQuicksort
  import Shell = MainShellSort
  import opened WordBuckets

  /** BIGFREQ of every byte. */
  function BigSizes(ftab: seq<int>): (k: seq<int>)
    requires |ftab| == WORDS + 1
    ensures |k| == 256 && forall c :: 0 <= c < 256 ==> k[c] == ftab[(c + 1) * 256] - ftab[c * 256]
  {
    seq(256, c requires 0 <= c < 256 => ftab[(c + 1) * 256] - ftab[c * 256])
  }

  /** One insertion: v moves down in steps of h past entries with larger buckets. */
  method InsertOrder(order: array<int>, ftab: array<int>, i: nat, h: nat)
    requires order != ftab && order.Length == 256 && ftab.Length == WORDS + 1 && 1 <= h <= i < 256
    requires InRange(order[..], BigSizes(ftab[..]), 0, 256)
    modifies order
    ensures Rearranged(old(order[..]), order[..], 0, i + 1) && InRange(order[..], BigSizes(ftab[..]), 0, 256)
    ensures h == 1 && SortedBy(old(order[..]), BigSizes(ftab[..]), 0, i) ==> SortedBy(order[..], BigSizes(ftab[..]), 0, i + 1)
  {
    hide Shell.Inserting, SortedBy, Rearranged, Swap, BigSizes;
    ghost var start, full, keys := order[..], order[..], BigSizes(ftab[..]);
    Shell.InsertStarts(start, keys, 0, i, h);
    var vv := order[i];
    var j := i;
    while true
      invariant h <= j <= i && Shell.Inserting(start, order[..], full, keys, 0, i, j, vv, h)
      invariant order.Length == 256 && BigSizes(ftab[..]) == keys
      decreases j
    {
      ghost var arr := order[..];
      Shell.InsertingMeans(start, arr, full, keys, 0, i, j, vv, h);
      assert arr[j - h] == order[j - h];
      BigSize(ftab[..], order[j - h]);
      BigSize(ftab[..], vv);
      if ftab[(order[j - h] + 1) * 256] - ftab[order[j - h] * 256] <= ftab[(vv + 1) * 256] - ftab[vv * 256] {
        break;
      }
      Shell.InsertStep(start, arr, full, keys, 0, i, j, vv, h);
      full := Swap(full, j, j - h);
      order[j] := order[j - h];
      assert order[..] == arr[j := arr[j - h]];
      j := j - h;
      if j <= h - 1 {
        break;
      }
    }
    ghost var arr := order[..];
    Shell.InsertEnds(start, arr, full, keys, 0, i, j, vv, h);
    order[j] := vv;
    assert order[..] == arr[j := vv];
    OthersInRange(start, order[..], keys, i);
  }

  lemma BigSize(ftab: seq<int>, c: int)
    requires |ftab| == WORDS + 1 && 0 <= c < 256
    ensures |BigSizes(ftab)| == 256 && BigSizes(ftab)[c] == ftab[(c + 1) * 256] - ftab[c * 256]
  {
  }

  lemma OthersInRange(f: seq<int>, g: seq<int>, keys: seq<int>, i: nat)
    requires Rearranged(f, g, 0, i + 1) && InRange(f, keys, 0, |f|)
    ensures InRange(g, keys, 0, |f|)
  {
    hide Rearranged;
    RearrangedSizes(f, g, 0, i + 1);
    forall k | 0 <= k < |g| ensures 0 <= g[k] < |keys| {
      var j := RearrangedAt(f, g, 0, i + 1, k);
    }
  }

  /** The order in which the big buckets are finished: every byte once, smaller buckets first. */
  method MakeRunningOrder(ftab: array<int>) returns (order: array<int>)
    requires ftab.Length == WORDS + 1
    ensures fresh(order) && order.Length == 256 && IsPermutation(order[..], 256)
    ensures SortedBy(order[..], BigSizes(ftab[..]), 0, 256)
  {
    hide Rearranged, SortedBy, BigSizes, IsPermutation, InRange;
    order := new int[256](k => k);
    ghost var start, keys := order[..], BigSizes(ftab[..]);
    OrderStarts(start, ftab[..]);
    var h := 1;
    h := 3 * h + 1;
    while h <= 256
      invariant h in [4, 13, 40, 121, 364]
      decreases 1000 - h
    {
      h := 3 * h + 1;
    }
    while true
      invariant h in [364, 121, 40, 13, 4] && order.Length == 256
      invariant Rearranged(start, order[..], 0, 256) && InRange(order[..], keys, 0, 256) && BigSizes(ftab[..]) == keys
      decreases h
    {
      h := h / 3;
      OneSorted(order[..], keys);
      for i := h to 256
        invariant order.Length == 256 && Rearranged(start, order[..], 0, 256) && InRange(order[..], keys, 0, 256) && BigSizes(ftab[..]) == keys
        invariant h == 1 ==> SortedBy(order[..], keys, 0, i)
      {
        ghost var f := order[..];
        InsertOrder(order, ftab, i, h);
        RearrangedWider(f, order[..], 0, i + 1, 0, 256);
        RearrangedTwice(start, f, order[..], 0, 256);
      }
      if h == 1 {
        break;
      }
    }
    OrderEnds(start, order[..]);
  }

  lemma OrderStarts(s: seq<int>, ftab: seq<int>)
    requires |ftab| == WORDS + 1 && |s| == 256 && forall k :: 0 <= k < 256 ==> s[k] == k
    ensures IsPermutation(s, 256) && Rearranged(s, s, 0, 256) && InRange(s, BigSizes(ftab), 0, 256)
  {
  }

  lemma OneSorted(f: seq<int>, keys: seq<int>)
    requires InRange(f, keys, 0, 256)
    ensures SortedBy(f, keys, 0, 1)
  {
  }

  lemma OrderEnds(s: seq<int>, f: seq<int>)
    requires IsPermutation(s, 256) && Rearranged(s, f, 0, 256)
    ensures IsPermutation(f, 256)
  {
    assert s[0..256] == s && f[0..256] == f;
    RearrangedPermutation(s, f, 256);
  }
}
