/** The first half of sendMTFValues: choosing up to six coding tables and a table for every group of 50 symbols.
    Every choice is a legal one, whatever the frequencies; and each group gets a table that is cheapest for it. */
module TableChoice {
  import opened Limits
  import opened Numbers
  import opened CanonicalCodes
  import opened HuffmanForest
  import opened HuffmanLengths
  import opened MtfGeneration
  import opened BlockFormat

  const LESSER_ICOST := 0
  const GREATER_ICOST := 15
  const N_ITERS := 4

  /** More symbols, more tables. */
  ghost predicate TableCount(n: nat, nMTF: nat) {
    && 2 <= n <= 6
    && (n > 2 <==> nMTF >= 200) && (n > 3 <==> nMTF >= 600) && (n > 4 <==> nMTF >= 1200) && (n > 5 <==> nMTF >= 2400)
  }

  function TablesFor(nMTF: nat): (n: nat)
    ensures TableCount(n, nMTF)
  {
    if nMTF < 200 then 2 else if nMTF < 600 then 3 else if nMTF < 1200 then 4 else if nMTF < 2400 then 5 else 6
  }

  /** n tables of alphaSize lengths, none above 17. */
  ghost predicate Tables(lens: seq<seq<byte>>, n: nat, alphaSize: nat) {
    && |lens| == n
    && forall t :: 0 <= t < n ==> |lens[t]| == alphaSize && forall v :: 0 <= v < alphaSize ==> lens[t][v] <= MAX_SENT_CODE
  }

  // ----- the initial partition -----

  /** The frequencies from gs on. */
  function FreqFrom(freq: seq<nat>, gs: nat): nat
    requires gs <= |freq|
    decreases |freq| - gs
  {
    if gs == |freq| then 0 else freq[gs] + FreqFrom(freq, gs + 1)
  }

  /** One table that is cheap for the symbols gs..ge only. */
  function RangeLengths(alphaSize: nat, gs: int, ge: int): (lens: seq<byte>)
    ensures |lens| == alphaSize && forall v :: 0 <= v < alphaSize ==> lens[v] == if gs <= v <= ge then 0 else 15
  {
    seq<byte>(alphaSize, v requires 0 <= v < alphaSize => if gs <= v <= ge then LESSER_ICOST else GREATER_ICOST)
  }

  /** The symbols of one part: from gs on until the part holds tFreq occurrences. */
  method TakePart(freq: seq<nat>, gs: nat, tFreq: nat) returns (ge: int, aFreq: nat)
    requires gs <= |freq|
    ensures gs - 1 <= ge < |freq| && aFreq + FreqFrom(freq, ge + 1) == FreqFrom(freq, gs)
    ensures aFreq >= tFreq || ge == |freq| - 1
    ensures ge >= gs ==> freq[ge] <= aFreq < tFreq + freq[ge]
  {
    ge, aFreq := gs - 1, 0;
    while aFreq < tFreq && ge < |freq| - 1
      invariant gs - 1 <= ge < |freq| && aFreq + FreqFrom(freq, ge + 1) == FreqFrom(freq, gs)
      invariant ge >= gs ==> freq[ge] <= aFreq < tFreq + freq[ge]
      decreases |freq| - ge
    {
      ge := ge + 1;
      aFreq := aFreq + freq[ge];
    }
  }

  /** The first k parts, in order, are the stretches between ends; each has a table of its own. */
  ghost predicate Partition(freq: seq<nat>, lens: seq<seq<byte>>, ends: seq<nat>, n: nat, k: nat) {
    && |lens| == n && k <= n && |ends| == k + 1 && ends[0] == 0 && ends[k] <= |freq|
    && (forall i :: 0 <= i < n ==> |lens[i]| == |freq|)
    && forall i :: 0 <= i < k ==> ends[i] <= ends[i + 1] && lens[n - 1 - i] == RangeLengths(|freq|, ends[i], ends[i + 1] as int - 1)
  }

  lemma NextPart(freq: seq<nat>, lens: seq<seq<byte>>, ends: seq<nat>, n: nat, k: nat, gs: nat)
    requires Partition(freq, lens, ends, n, k) && k < n && ends[k] <= gs <= |freq|
    ensures Partition(freq, lens[n - 1 - k := RangeLengths(|freq|, ends[k], gs as int - 1)], ends + [gs], n, k + 1)
  {
  }

  /** The shortest stretch from gs on with a fair share of what is left for nPart parts ends at full. */
  ghost predicate FairShare(freq: seq<nat>, gs: nat, full: nat, nPart: nat) {
    && gs <= full <= |freq| && nPart >= 1
    && var share, taken := FreqFrom(freq, gs) / nPart, FreqFrom(freq, gs) - FreqFrom(freq, full);
       (taken >= share || full == |freq|) && (full > gs ==> taken - freq[full - 1] < share)
  }

  /** Where the part ends: every other inner part gives its last symbol back, if it has more than one. */
  function PartEnd(gs: nat, full: nat, nGroups: nat, nPart: nat): int {
    if full > gs + 1 && nPart != nGroups && nPart != 1 && (nGroups - nPart) % 2 == 1 then full - 1 else full
  }

  /** All parts are fair. */
  ghost predicate Fair(freq: seq<nat>, ends: seq<nat>, fulls: seq<nat>, n: nat, k: nat) {
    && |fulls| == k <= n && |ends| == k + 1
    && forall i :: 0 <= i < k ==> FairShare(freq, ends[i], fulls[i], n - i) && ends[i + 1] == PartEnd(ends[i], fulls[i], n, n - i)
  }

  /** The next part: about a fair share of what is left; some inner parts give their last symbol back. */
  method ChoosePart(freq: seq<nat>, gs: nat, nGroups: nat, nPart: nat, remF: nat) returns (ge: int, aFreq: nat, ghost full: nat)
    requires gs <= |freq| && 1 <= nPart <= nGroups && remF == FreqFrom(freq, gs)
    ensures gs - 1 <= ge < |freq| && aFreq + FreqFrom(freq, ge + 1) == remF
    ensures nPart == 1 ==> FreqFrom(freq, ge + 1) == 0
    ensures FairShare(freq, gs, full, nPart) && ge + 1 == PartEnd(gs, full, nGroups, nPart)
  {
    hide FreqFrom;
    var tFreq := remF / nPart;
    ge, aFreq := TakePart(freq, gs, tFreq);
    full := ge + 1;
    NoneLeft(freq, ge + 1);
    if ge > gs && nPart != nGroups && nPart != 1 && (nGroups - nPart) % 2 == 1 {
      FreqSplit(freq, ge);
      aFreq := aFreq - freq[ge];
      ge := ge - 1;
    }
  }

  lemma PartitionNone(freq: seq<nat>, lens: seq<seq<byte>>, n: nat)
    requires |lens| == n && forall t :: 0 <= t < n ==> lens[t] == RangeLengths(|freq|, 0, -1)
    ensures Partition(freq, lens, [0], n, 0)
  {
  }

  lemma FairNone(freq: seq<nat>, n: nat)
    ensures Fair(freq, [0], [], n, 0)
  {
  }

  lemma FairNext(freq: seq<nat>, ends: seq<nat>, fulls: seq<nat>, n: nat, k: nat, full: nat)
    requires Fair(freq, ends, fulls, n, k) && k < n && |ends| == k + 1 && FairShare(freq, ends[k], full, n - k)
    ensures PartEnd(ends[k], full, n, n - k) >= 0
    ensures Fair(freq, ends + [PartEnd(ends[k], full, n, n - k) as nat], fulls + [full], n, k + 1)
  {
    hide FairShare, FreqFrom;
  }

  /** The initial tables: each is cheap for one stretch of the alphabet, and together the stretches hold every
      symbol that occurs. */
  method InitialTables(freq: seq<nat>, nMTF: nat, nGroups: nat) returns (lens: seq<seq<byte>>, ghost ends: seq<nat>, ghost fulls: seq<nat>)
    requires 2 <= nGroups <= 6 && nMTF == FreqFrom(freq, 0)
    ensures Partition(freq, lens, ends, nGroups, nGroups) && FreqFrom(freq, ends[nGroups]) == 0
    ensures Fair(freq, ends, fulls, nGroups, nGroups)
  {
    hide FreqFrom, Partition, FairShare, PartEnd, Fair;
    lens := seq(nGroups, t => RangeLengths(|freq|, 0, -1));
    ends, fulls := [0], [];
    PartitionNone(freq, lens, nGroups);
    FairNone(freq, nGroups);
    var nPart, remF, gs := nGroups, nMTF, 0;
    while nPart > 0
      invariant 0 <= nPart <= nGroups && Partition(freq, lens, ends, nGroups, nGroups - nPart)
      invariant |lens| == nGroups && |ends| == nGroups - nPart + 1 && ends[nGroups - nPart] == gs <= |freq|
      invariant remF == FreqFrom(freq, gs) && (nPart == 0 ==> remF == 0)
      invariant Fair(freq, ends, fulls, nGroups, nGroups - nPart)
    {
      var ge, aFreq;
      ghost var full;
      ge, aFreq, full := ChoosePart(freq, gs, nGroups, nPart, remF);
      NextPart(freq, lens, ends, nGroups, nGroups - nPart, ge + 1);
      FairNext(freq, ends, fulls, nGroups, nGroups - nPart, full);
      lens := lens[nPart - 1 := RangeLengths(|freq|, gs, ge)];
      ends, fulls := ends + [(ge + 1) as nat], fulls + [full];
      nPart := nPart - 1;
      gs := ge + 1;
      remF := remF - aFreq;
    }
  }

  lemma FreqSplit(freq: seq<nat>, k: nat)
    requires k < |freq|
    ensures FreqFrom(freq, k) == freq[k] + FreqFrom(freq, k + 1)
  {
  }

  lemma NoneLeft(freq: seq<nat>, k: nat)
    requires k <= |freq|
    ensures k == |freq| ==> FreqFrom(freq, k) == 0
  {
  }

  // ----- one pass over the groups -----

  ghost predicate InAlphabet(syms: seq<nat>, alphaSize: nat) {
    forall k :: 0 <= k < |syms| ==> syms[k] < alphaSize
  }

  /** Sum of the code lengths of syms[lo..hi]. */
  function Cost(lens: seq<byte>, syms: seq<nat>, lo: nat, hi: nat): nat
    requires lo <= hi <= |syms| && forall k :: 0 <= k < |syms| ==> syms[k] < |lens|
    decreases hi
  {
    if lo == hi then 0 else Cost(lens, syms, lo, hi - 1) + lens[syms[hi - 1]]
  }

  lemma {:induction false} CostBound(lens: seq<byte>, syms: seq<nat>, lo: nat, hi: nat)
    requires lo <= hi <= |syms| && forall k :: 0 <= k < |syms| ==> syms[k] < |lens|
    requires forall v :: 0 <= v < |lens| ==> lens[v] <= MAX_SENT_CODE
    ensures Cost(lens, syms, lo, hi) <= MAX_SENT_CODE * (hi - lo)
    decreases hi
  {
    if lo < hi {
      CostBound(lens, syms, lo, hi - 1);
    }
  }

  ghost predicate CostsAre(cost: seq<nat>, lens: seq<seq<byte>>, syms: seq<nat>, lo: nat, hi: nat) {
    && |cost| == |lens| && lo <= hi <= |syms|
    && forall t :: 0 <= t < |lens| ==> InAlphabet(syms, |lens[t]|) && cost[t] == Cost(lens[t], syms, lo, hi)
  }

  /** The general way: every table, symbol by symbol. */
  method SlowCosts(arr1: array<word>, lens: seq<seq<byte>>, gs: nat, hi: nat, ghost syms: seq<nat>, ghost alphaSize: nat)
    returns (cost: seq<nat>)
    requires gs <= hi <= |syms| <= 2 * arr1.Length && syms == Symbols(arr1[..], |syms|)
    requires Tables(lens, |lens|, alphaSize) && InAlphabet(syms, alphaSize)
    ensures CostsAre(cost, lens, syms, gs, hi)
  {
    hide Half;
    cost := seq(|lens|, _ => 0);
    for i := gs to hi
      invariant CostsAre(cost, lens, syms, gs, i)
    {
      var icv := Half(arr1[i / 2], i % 2 == 1);
      assert icv == syms[i];
      ghost var before := cost;
      for t := 0 to |lens|
        invariant |cost| == |lens|
        invariant forall u :: 0 <= u < |lens| ==> cost[u] == Cost(lens[u], syms, gs, if u < t then i + 1 else i)
      {
        cost := cost[t := cost[t] + lens[t][icv]];
      }
    }
  }

  // ----- two costs in one word -----

  function Pair(lower: nat, upper: nat): nat {
    lower + 0x1_0000 * upper
  }

  /** len_pack: the lengths of tables 0/1, 2/3 and 4/5 side by side in words. */
  ghost predicate Packed(pack: seq<(nat, nat, nat)>, lens: seq<seq<byte>>) {
    && |lens| == 6 && (forall t :: 0 <= t < 6 ==> |lens[t]| == |pack|)
    && forall v :: 0 <= v < |pack| ==>
         && pack[v].0 == Pair(lens[0][v], lens[1][v])
         && pack[v].1 == Pair(lens[2][v], lens[3][v])
         && pack[v].2 == Pair(lens[4][v], lens[5][v])
  }

  method PackLengths(lens: seq<seq<byte>>, alphaSize: nat) returns (pack: seq<(nat, nat, nat)>)
    requires Tables(lens, 6, alphaSize)
    ensures Packed(pack, lens)
  {
    pack := [];
    for v := 0 to alphaSize
      invariant |pack| == v
      invariant forall u :: 0 <= u < v ==>
                  && pack[u].0 == Pair(lens[0][u], lens[1][u])
                  && pack[u].1 == Pair(lens[2][u], lens[3][u])
                  && pack[u].2 == Pair(lens[4][u], lens[5][u])
    {
      pack := pack + [(Pair(lens[0][v], lens[1][v]), Pair(lens[2][v], lens[3][v]), Pair(lens[4][v], lens[5][v]))];
    }
  }

  lemma PairAdds(a: nat, b: nat, c: nat, d: nat)
    ensures Pair(a, b) + Pair(c, d) == Pair(a + c, b + d)
  {
  }

  /** The lanes do not run into each other. */
  lemma Unpair(a: nat, b: nat)
    requires a < 0x1_0000
    ensures Pair(a, b) % 0x1_0000 == a && Pair(a, b) / 0x1_0000 == b
  {
  }

  ghost predicate TwoTables(lens: seq<seq<byte>>, syms: seq<nat>, t: nat) {
    && t + 1 < |lens| && InAlphabet(syms, |lens[t]|) && InAlphabet(syms, |lens[t + 1]|)
    && forall v :: 0 <= v < |lens[t]| ==> lens[t][v] <= MAX_SENT_CODE
  }

  /** The costs of tables t and t + 1 side by side. */
  ghost function PairCost(lens: seq<seq<byte>>, syms: seq<nat>, t: nat, lo: nat, hi: nat): nat
    requires TwoTables(lens, syms, t) && lo <= hi <= |syms|
  {
    Pair(Cost(lens[t], syms, lo, hi), Cost(lens[t + 1], syms, lo, hi))
  }

  lemma PairCostStep(lens: seq<seq<byte>>, syms: seq<nat>, t: nat, lo: nat, hi: nat, packed: nat)
    requires TwoTables(lens, syms, t) && lo <= hi < |syms| && packed == Pair(lens[t][syms[hi]], lens[t + 1][syms[hi]])
    ensures PairCost(lens, syms, t, lo, hi + 1) == PairCost(lens, syms, t, lo, hi) + packed
  {
    PairAdds(Cost(lens[t], syms, lo, hi), Cost(lens[t + 1], syms, lo, hi), lens[t][syms[hi]], lens[t + 1][syms[hi]]);
  }

  /** The fast way for six tables and a full group: three sums of packed words. */
  method FastCosts(arr1: array<word>, lens: seq<seq<byte>>, pack: seq<(nat, nat, nat)>, gs: nat, ghost syms: seq<nat>, ghost alphaSize: nat)
    returns (cost: seq<nat>)
    requires gs + GROUP_SIZE <= |syms| <= 2 * arr1.Length && syms == Symbols(arr1[..], |syms|)
    requires Tables(lens, 6, alphaSize) && InAlphabet(syms, alphaSize) && Packed(pack, lens)
    ensures CostsAre(cost, lens, syms, gs, gs + GROUP_SIZE)
  {
    hide Pair, Half, PairCost, Cost;
    var cost01, cost23, cost45: nat := 0, 0, 0;
    assert TwoTables(lens, syms, 0) && TwoTables(lens, syms, 2) && TwoTables(lens, syms, 4);
    NothingPaired(lens, syms, 0, gs);
    NothingPaired(lens, syms, 2, gs);
    NothingPaired(lens, syms, 4, gs);
    for nn := 0 to GROUP_SIZE
      invariant cost01 == PairCost(lens, syms, 0, gs, gs + nn)
      invariant cost23 == PairCost(lens, syms, 2, gs, gs + nn)
      invariant cost45 == PairCost(lens, syms, 4, gs, gs + nn)
    {
      var icv := Half(arr1[(gs + nn) / 2], (gs + nn) % 2 == 1);
      assert icv == syms[gs + nn];
      PairCostStep(lens, syms, 0, gs, gs + nn, pack[icv].0);
      PairCostStep(lens, syms, 2, gs, gs + nn, pack[icv].1);
      PairCostStep(lens, syms, 4, gs, gs + nn, pack[icv].2);
      cost01, cost23, cost45 := cost01 + pack[icv].0, cost23 + pack[icv].1, cost45 + pack[icv].2;
    }
    SplitPair(lens, syms, gs, 0, cost01);
    SplitPair(lens, syms, gs, 2, cost23);
    SplitPair(lens, syms, gs, 4, cost45);
    cost := [cost01 % 0x1_0000, cost01 / 0x1_0000, cost23 % 0x1_0000, cost23 / 0x1_0000, cost45 % 0x1_0000, cost45 / 0x1_0000];
  }

  lemma NothingPaired(lens: seq<seq<byte>>, syms: seq<nat>, t: nat, lo: nat)
    requires TwoTables(lens, syms, t) && lo <= |syms|
    ensures PairCost(lens, syms, t, lo, lo) == 0
  {
  }

  lemma SplitPair(lens: seq<seq<byte>>, syms: seq<nat>, gs: nat, t: nat, sum: nat)
    requires gs + GROUP_SIZE <= |syms| && TwoTables(lens, syms, t) && sum == PairCost(lens, syms, t, gs, gs + GROUP_SIZE)
    ensures sum % 0x1_0000 == Cost(lens[t], syms, gs, gs + GROUP_SIZE) && sum / 0x1_0000 == Cost(lens[t + 1], syms, gs, gs + GROUP_SIZE)
  {
    CostBound(lens[t], syms, gs, gs + GROUP_SIZE);
    Unpair(Cost(lens[t], syms, gs, gs + GROUP_SIZE), Cost(lens[t + 1], syms, gs, gs + GROUP_SIZE));
  }

  /** The first of the cheapest tables. */
  method Cheapest(cost: seq<nat>) returns (bt: nat)
    requires |cost| > 0 && forall t :: 0 <= t < |cost| ==> cost[t] < 999999999
    ensures bt < |cost| && forall t :: 0 <= t < |cost| ==> cost[bt] <= cost[t]
    ensures forall t :: 0 <= t < bt ==> cost[bt] < cost[t]
  {
    var bc, best: int := 999999999, -1;
    for t := 0 to |cost|
      invariant -1 <= best < t && (t > 0 ==> best >= 0) && bc == if best < 0 then 999999999 else cost[best]
      invariant best >= 0 ==> (forall u :: 0 <= u < t ==> cost[best] <= cost[u]) && forall u :: 0 <= u < best ==> cost[best] < cost[u]
    {
      if cost[t] < bc {
        bc, best := cost[t], t;
      }
    }
    bt := best;
  }

  // ----- selectors and their symbol counts -----

  /** How many of the first n symbols are v in a group that uses table t. */
  function Usage(syms: seq<nat>, selectors: seq<byte>, t: nat, v: nat, n: nat): nat
    requires n <= |syms| && n <= GROUP_SIZE * |selectors|
  {
    if n == 0 then 0
    else Usage(syms, selectors, t, v, n - 1) + if syms[n - 1] == v && selectors[(n - 1) / GROUP_SIZE] == t then 1 else 0
  }

  ghost predicate UsagesAre(rfreq: seq<seq<nat>>, syms: seq<nat>, selectors: seq<byte>, alphaSize: nat, n: nat) {
    && n <= |syms| && n <= GROUP_SIZE * |selectors|
    && forall t :: 0 <= t < |rfreq| ==>
         && |rfreq[t]| == alphaSize && Sum(rfreq[t]) <= n
         && forall v :: 0 <= v < alphaSize ==> rfreq[t][v] == Usage(syms, selectors, t, v, n)
  }

  lemma {:induction false} SumUpdate(s: seq<nat>, v: nat)
    requires v < |s|
    ensures Sum(s[v := s[v] + 1]) == Sum(s) + 1
  {
    var k := |s| - 1;
    if v < k {
      SumUpdate(s[..k], v);
      assert s[v := s[v] + 1][..k] == s[..k][v := s[v] + 1];
    } else {
      assert s[v := s[v] + 1][..k] == s[..k];
    }
  }

  lemma UsageNext(rfreq: seq<seq<nat>>, syms: seq<nat>, selectors: seq<byte>, alphaSize: nat, n: nat)
    requires UsagesAre(rfreq, syms, selectors, alphaSize, n) && n < |syms| && n < GROUP_SIZE * |selectors|
    requires syms[n] < alphaSize && selectors[n / GROUP_SIZE] < |rfreq|
    ensures var bt := selectors[n / GROUP_SIZE];
      UsagesAre(rfreq[bt := rfreq[bt][syms[n] := rfreq[bt][syms[n]] + 1]], syms, selectors, alphaSize, n + 1)
  {
    var bt := selectors[n / GROUP_SIZE];
    SumUpdate(rfreq[bt], syms[n]);
  }

  lemma {:induction false} UsageExtends(syms: seq<nat>, selectors: seq<byte>, bt: byte, t: nat, v: nat, n: nat)
    requires n <= |syms| && n <= GROUP_SIZE * |selectors|
    ensures Usage(syms, selectors + [bt], t, v, n) == Usage(syms, selectors, t, v, n)
  {
    if n > 0 {
      UsageExtends(syms, selectors, bt, t, v, n - 1);
    }
  }

  lemma UsagesExtend(rfreq: seq<seq<nat>>, syms: seq<nat>, selectors: seq<byte>, alphaSize: nat, n: nat, bt: byte)
    requires UsagesAre(rfreq, syms, selectors, alphaSize, n)
    ensures UsagesAre(rfreq, syms, selectors + [bt], alphaSize, n)
  {
    forall t, v | 0 <= t < |rfreq| && 0 <= v < alphaSize
      ensures rfreq[t][v] == Usage(syms, selectors + [bt], t, v, n)
    {
      UsageExtends(syms, selectors, bt, t, v, n);
    }
  }

  /** Where group g ends. */
  function GroupEnd(g: nat, nMTF: nat): nat {
    Min(GROUP_SIZE * g + GROUP_SIZE, nMTF)
  }

  /** Table t is the first of those that code group g in the fewest bits. */
  ghost predicate BestFor(lens: seq<seq<byte>>, syms: seq<nat>, g: nat, t: nat) {
    && t < |lens| && GROUP_SIZE * g <= GroupEnd(g, |syms|)
    && (forall u :: 0 <= u < |lens| ==> InAlphabet(syms, |lens[u]|))
    && forall u :: 0 <= u < |lens| ==>
         var c, d := Cost(lens[t], syms, GROUP_SIZE * g, GroupEnd(g, |syms|)), Cost(lens[u], syms, GROUP_SIZE * g, GroupEnd(g, |syms|));
         c <= d && (u < t ==> c < d)
  }

  ghost predicate BestChoices(lens: seq<seq<byte>>, syms: seq<nat>, selectors: seq<byte>) {
    forall g :: 0 <= g < |selectors| ==> BestFor(lens, syms, g, selectors[g])
  }

  /** The costs of one group, by whichever way applies. */
  method GroupCosts(arr1: array<word>, lens: seq<seq<byte>>, pack: seq<(nat, nat, nat)>, gs: nat, hi: nat,
                    ghost syms: seq<nat>, ghost alphaSize: nat)
    returns (cost: seq<nat>)
    requires gs <= hi <= |syms| <= 2 * arr1.Length && syms == Symbols(arr1[..], |syms|)
    requires Tables(lens, |lens|, alphaSize) && InAlphabet(syms, alphaSize)
    requires |lens| == 6 ==> Packed(pack, lens)
    ensures CostsAre(cost, lens, syms, gs, hi)
  {
    hide *;
    if |lens| == 6 && hi - gs == GROUP_SIZE {
      cost := FastCosts(arr1, lens, pack, gs, syms, alphaSize);
    } else {
      cost := SlowCosts(arr1, lens, gs, hi, syms, alphaSize);
    }
  }

  lemma CostsSmall(cost: seq<nat>, lens: seq<seq<byte>>, syms: seq<nat>, gs: nat, hi: nat, alphaSize: nat)
    requires CostsAre(cost, lens, syms, gs, hi) && hi - gs <= GROUP_SIZE && Tables(lens, |lens|, alphaSize)
    ensures forall t :: 0 <= t < |cost| ==> cost[t] <= 850
  {
    forall t | 0 <= t < |cost| ensures cost[t] <= 850 {
      CostBound(lens[t], syms, gs, hi);
    }
  }

  /** Count the symbols of a group for its table. */
  method CountGroup(arr1: array<word>, rfreq: seq<seq<nat>>, gs: nat, hi: nat, bt: nat,
                    ghost syms: seq<nat>, ghost selectors: seq<byte>, ghost alphaSize: nat)
    returns (r: seq<seq<nat>>)
    requires gs <= hi <= |syms| <= 2 * arr1.Length && syms == Symbols(arr1[..], |syms|) && InAlphabet(syms, alphaSize)
    requires UsagesAre(rfreq, syms, selectors, alphaSize, gs) && hi <= GROUP_SIZE * |selectors| && bt < |rfreq|
    requires forall k :: gs <= k < hi ==> selectors[k / GROUP_SIZE] == bt
    ensures UsagesAre(r, syms, selectors, alphaSize, hi) && |r| == |rfreq|
  {
    hide Half, UsagesAre;
    r := rfreq;
    for i := gs to hi
      invariant UsagesAre(r, syms, selectors, alphaSize, i) && |r| == |rfreq|
    {
      var v := Half(arr1[i / 2], i % 2 == 1);
      assert v == syms[i] && selectors[i / GROUP_SIZE] == bt;
      UsagesShape(r, syms, selectors, alphaSize, i);
      UsageNext(r, syms, selectors, alphaSize, i);
      r := r[bt := r[bt][v := r[bt][v] + 1]];
    }
  }

  lemma UsagesShape(rfreq: seq<seq<nat>>, syms: seq<nat>, selectors: seq<byte>, alphaSize: nat, n: nat)
    requires UsagesAre(rfreq, syms, selectors, alphaSize, n)
    ensures forall t :: 0 <= t < |rfreq| ==> |rfreq[t]| == alphaSize && Sum(rfreq[t]) <= n
  {
  }

  lemma NoUsage(rfreq: seq<seq<nat>>, syms: seq<nat>, alphaSize: nat)
    requires forall t :: 0 <= t < |rfreq| ==> |rfreq[t]| == alphaSize && forall v :: 0 <= v < alphaSize ==> rfreq[t][v] == 0
    ensures UsagesAre(rfreq, syms, [], alphaSize, 0)
  {
    forall t | 0 <= t < |rfreq| ensures Sum(rfreq[t]) == 0 {
      SumOfZeros(rfreq[t]);
    }
  }

  lemma {:induction false} SumOfZeros(s: seq<nat>)
    requires forall v :: 0 <= v < |s| ==> s[v] == 0
    ensures Sum(s) == 0
  {
    if s != [] {
      SumOfZeros(s[..|s| - 1]);
    }
  }

  lemma BestGroup(cost: seq<nat>, lens: seq<seq<byte>>, syms: seq<nat>, g: nat, bt: nat)
    requires GROUP_SIZE * g <= GroupEnd(g, |syms|) && CostsAre(cost, lens, syms, GROUP_SIZE * g, GroupEnd(g, |syms|))
    requires bt < |cost| && forall t :: 0 <= t < |cost| ==> cost[bt] <= cost[t] && (t < bt ==> cost[bt] < cost[t])
    ensures BestFor(lens, syms, g, bt)
  {
  }

  /** One pass: a cheapest table for every group, and how often each table is used for each symbol. */
  method ChooseSelectors(arr1: array<word>, lens: seq<seq<byte>>, nMTF: nat, alphaSize: nat, ghost syms: seq<nat>)
    returns (selectors: seq<byte>, rfreq: seq<seq<nat>>)
    requires nMTF == |syms| <= 2 * arr1.Length && syms == Symbols(arr1[..], nMTF)
    requires 2 <= |lens| <= 6 && Tables(lens, |lens|, alphaSize) && InAlphabet(syms, alphaSize)
    ensures |selectors| == GroupCount(nMTF) && BestChoices(lens, syms, selectors)
    ensures forall g :: 0 <= g < |selectors| ==> selectors[g] < |lens|
    ensures |rfreq| == |lens| && UsagesAre(rfreq, syms, selectors, alphaSize, nMTF)
  {
    hide Half, UsagesAre, Symbols, Packed, CostsAre, BestFor, Tables, InAlphabet;
    rfreq := seq(|lens|, _ => seq<nat>(alphaSize, _ => 0));
    NoUsage(rfreq, syms, alphaSize);
    var pack: seq<(nat, nat, nat)> := [];
    if |lens| == 6 {
      pack := PackLengths(lens, alphaSize);
    }
    selectors := [];
    var gs := 0;
    while gs < nMTF
      invariant gs == Min(GROUP_SIZE * |selectors|, nMTF) && |selectors| <= GroupCount(nMTF)
      invariant |rfreq| == |lens| && UsagesAre(rfreq, syms, selectors, alphaSize, gs)
      invariant BestChoices(lens, syms, selectors) && forall g :: 0 <= g < |selectors| ==> selectors[g] < |lens|
      decreases nMTF - gs
    {
      var ge := gs + GROUP_SIZE - 1;
      if ge >= nMTF {
        ge := nMTF - 1;
      }
      var cost := GroupCosts(arr1, lens, pack, gs, ge + 1, syms, alphaSize);
      CostsSmall(cost, lens, syms, gs, ge + 1, alphaSize);
      CostsCount(cost, lens, syms, gs, ge + 1);
      var bt := Cheapest(cost);
      BestGroup(cost, lens, syms, |selectors|, bt);
      UsagesExtend(rfreq, syms, selectors, alphaSize, gs, bt);
      selectors := selectors + [bt as byte];
      rfreq := CountGroup(arr1, rfreq, gs, ge + 1, bt, syms, selectors, alphaSize);
      gs := ge + 1;
    }
  }

  lemma CostsCount(cost: seq<nat>, lens: seq<seq<byte>>, syms: seq<nat>, gs: nat, hi: nat)
    requires CostsAre(cost, lens, syms, gs, hi)
    ensures |cost| == |lens|
  {
  }

  // ----- refining the tables -----

  /** A complete prefix code: the Kraft sum is exactly 1. */
  ghost predicate Complete(lens: seq<byte>, alphaSize: nat) {
    && |lens| == alphaSize && (forall v :: 0 <= v < alphaSize ==> 1 <= lens[v] <= MAX_SENT_CODE)
    && Kraft(lens, MAX_SENT_CODE, MAX_SENT_CODE + 1) == Pow2(MAX_SENT_CODE)
  }

  ghost predicate AllComplete(lens: seq<seq<byte>>, alphaSize: nat) {
    forall t :: 0 <= t < |lens| ==> Complete(lens[t], alphaSize)
  }

  lemma {:induction false} LeafWeightSum(freq: seq<nat>)
    ensures Sum(LeafWeights(freq)) <= Sum(freq) + |freq|
  {
    if freq != [] {
      var k := |freq| - 1;
      LeafWeightSum(freq[..k]);
      assert LeafWeights(freq)[..k] == LeafWeights(freq[..k]);
    }
  }

  lemma EnoughCodes()
    ensures MAX_ALPHA_SIZE <= Pow2(MAX_SENT_CODE)
  {
    Pow2Values();
    Pow2Monotone(15, MAX_SENT_CODE);
  }

  /** Every table is made for the symbol counts of its groups. */
  ghost predicate AllMadeFor(rfreq: seq<seq<nat>>, lens: seq<seq<byte>>, rounds: seq<nat>) {
    && |lens| == |rfreq| == |rounds|
    && forall t :: 0 <= t < |lens| ==> MadeFor(rfreq[t], lens[t], MAX_SENT_CODE, rounds[t])
  }

  /** New code lengths for every table, from the symbol counts of its groups. */
  method MakeTables(rfreq: seq<seq<nat>>, alphaSize: nat) returns (lens: seq<seq<byte>>, ghost rounds: seq<nat>)
    requires 2 <= alphaSize <= MAX_ALPHA_SIZE
    requires forall t :: 0 <= t < |rfreq| ==> |rfreq[t]| == alphaSize && Sum(rfreq[t]) <= 900001
    ensures |lens| == |rfreq| && AllComplete(lens, alphaSize) && AllMadeFor(rfreq, lens, rounds)
  {
    hide Kraft, Sum, LeafWeights, Pow2, MadeFor;
    lens, rounds := [], [];
    var len := new byte[MAX_ALPHA_SIZE];
    for t := 0 to |rfreq|
      invariant |lens| == t && AllComplete(lens, alphaSize) && AllMadeFor(rfreq[..t], lens, rounds)
    {
      LeafWeightSum(rfreq[t]);
      EnoughCodes();
      ghost var scaled := MakeCodeLengths(len, rfreq[t], alphaSize, MAX_SENT_CODE);
      assert Complete(len[..alphaSize], alphaSize);
      lens, rounds := lens + [len[..alphaSize]], rounds + [scaled];
    }
    assert rfreq[..|rfreq|] == rfreq;
  }

  lemma {:induction false} CountedTotal(freq: seq<nat>, syms: seq<nat>)
    requires Counted(freq, syms) && InAlphabet(syms, |freq|)
    ensures FreqFrom(freq, 0) == |syms|
    decreases |syms|
  {
    if syms == [] {
      NoFreq(freq, 0);
    } else {
      var k := |syms| - 1;
      var v := syms[k];
      var less := freq[v := freq[v] - 1];
      CountedTotal(less, syms[..k]);
      FreqDrop(freq, v, 0);
    }
  }

  lemma {:induction false} NoFreq(freq: seq<nat>, gs: nat)
    requires gs <= |freq| && forall c :: 0 <= c < |freq| ==> freq[c] == 0
    ensures FreqFrom(freq, gs) == 0
    decreases |freq| - gs
  {
    if gs < |freq| {
      NoFreq(freq, gs + 1);
    }
  }

  lemma {:induction false} FreqDrop(freq: seq<nat>, v: nat, gs: nat)
    requires gs <= |freq| && v < |freq| && freq[v] > 0
    ensures FreqFrom(freq, gs) == FreqFrom(freq[v := freq[v] - 1], gs) + if gs <= v then 1 else 0
    decreases |freq| - gs
  {
    if gs < |freq| {
      FreqDrop(freq, v, gs + 1);
    }
  }

  lemma PartitionTables(freq: seq<nat>, lens: seq<seq<byte>>, ends: seq<nat>, n: nat)
    requires Partition(freq, lens, ends, n, n)
    ensures Tables(lens, n, |freq|)
  {
    forall t | 0 <= t < n ensures |lens[t]| == |freq| && forall v :: 0 <= v < |freq| ==> lens[t][v] <= MAX_SENT_CODE {
      var i := n - 1 - t;
      assert lens[n - 1 - i] == RangeLengths(|freq|, ends[i], ends[i + 1] as int - 1);
    }
  }

  lemma CompleteTables(lens: seq<seq<byte>>, alphaSize: nat)
    requires AllComplete(lens, alphaSize)
    ensures Tables(lens, |lens|, alphaSize)
    ensures alphaSize > 0 ==> forall t :: 0 <= t < |lens| ==> |lens[t]| == alphaSize && ValidLengths(lens[t], MAX_SENT_CODE)
  {
    hide Kraft;
  }

  /** The history of a choice: the counts of the symbols, the initial parts, the tables before and after every pass, and
      for every pass the selectors chosen, the symbol counts of the tables and how often they were scaled. */
  datatype Passes = Passes(freq: seq<nat>, ends: seq<nat>, fulls: seq<nat>, tables: seq<seq<seq<byte>>>, chosen: seq<seq<byte>>,
                           counts: seq<seq<seq<nat>>>, rounds: seq<seq<nat>>)

  /** One pass: every group takes the first of the tables that are cheapest for it, and every table becomes a cheapest
      code for the symbols of its groups. */
  ghost predicate PassOk(before: seq<seq<byte>>, selectors: seq<byte>, counts: seq<seq<nat>>, rounds: seq<nat>, after: seq<seq<byte>>,
                         syms: seq<nat>, alphaSize: nat) {
    && |before| == |counts| == |after| && |selectors| == GroupCount(|syms|) && BestChoices(before, syms, selectors)
    && UsagesAre(counts, syms, selectors, alphaSize, |syms|)
    && AllMadeFor(counts, after, rounds) && AllComplete(after, alphaSize)
  }

  ghost predicate History(h: Passes, syms: seq<nat>, alphaSize: nat, k: nat) {
    var n := TablesFor(|syms|);
    && |h.freq| == alphaSize && Counted(h.freq, syms)
    && |h.tables| == k + 1 && |h.chosen| == |h.counts| == |h.rounds| == k
    && Partition(h.freq, h.tables[0], h.ends, n, n) && Fair(h.freq, h.ends, h.fulls, n, n)
    && forall i :: 0 <= i < k ==> PassOk(h.tables[i], h.chosen[i], h.counts[i], h.rounds[i], h.tables[i + 1], syms, alphaSize)
  }

  /** The tables and selectors are those of the last of four passes that start from the initial partition. */
  ghost predicate Refined(lens: seq<seq<byte>>, selectors: seq<byte>, syms: seq<nat>, alphaSize: nat) {
    && TableCount(|lens|, |syms|)
    && exists h :: History(h, syms, alphaSize, 4) && lens == h.tables[4] && selectors == h.chosen[3]
  }

  lemma NoPass(freq: seq<nat>, syms: seq<nat>, lens: seq<seq<byte>>, ends: seq<nat>, fulls: seq<nat>)
    requires Counted(freq, syms) && Partition(freq, lens, ends, TablesFor(|syms|), TablesFor(|syms|))
    requires Fair(freq, ends, fulls, TablesFor(|syms|), TablesFor(|syms|))
    ensures History(Passes(freq, ends, fulls, [lens], [], [], []), syms, |freq|, 0)
  {
  }

  lemma OneMorePass(h: Passes, syms: seq<nat>, alphaSize: nat, k: nat, selectors: seq<byte>, counts: seq<seq<nat>>, rounds: seq<nat>, lens: seq<seq<byte>>)
    requires History(h, syms, alphaSize, k) && PassOk(h.tables[k], selectors, counts, rounds, lens, syms, alphaSize)
    ensures History(h.(tables := h.tables + [lens], chosen := h.chosen + [selectors], counts := h.counts + [counts], rounds := h.rounds + [rounds]),
                    syms, alphaSize, k + 1)
  {
    hide PassOk, Partition, Fair, Counted;
  }

  /** The choice of tables and selectors: complete codes of at most 17 bits, one selector per group, refined in four
      passes. */
  method ChooseTables(arr1: array<word>, nMTF: nat, mtfFreq: seq<nat>, ghost syms: seq<nat>)
    returns (lens: seq<seq<byte>>, selectors: seq<byte>)
    requires 1 <= nMTF == |syms| <= 2 * arr1.Length && nMTF <= 900001 && syms == Symbols(arr1[..], nMTF)
    requires 2 <= |mtfFreq| <= MAX_ALPHA_SIZE && InAlphabet(syms, |mtfFreq|) && Counted(mtfFreq, syms)
    ensures |lens| == TablesFor(nMTF) && AllComplete(lens, |mtfFreq|)
    ensures |selectors| == GroupCount(nMTF) && forall g :: 0 <= g < |selectors| ==> selectors[g] < |lens|
    ensures Refined(lens, selectors, syms, |mtfFreq|)
  {
    hide Symbols, InAlphabet, Counted, FreqFrom, Partition, Fair, Tables, AllComplete, BestChoices, UsagesAre, AllMadeFor, History;
    var alphaSize, nGroups := |mtfFreq|, TablesFor(nMTF);
    CountedTotal(mtfFreq, syms);
    ghost var ends, fulls;
    lens, ends, fulls := InitialTables(mtfFreq, nMTF, nGroups);
    NoPass(mtfFreq, syms, lens, ends, fulls);
    ghost var h := Passes(mtfFreq, ends, fulls, [lens], [], [], []);
    PartitionTables(mtfFreq, lens, ends, nGroups);
    PartitionCount(mtfFreq, lens, ends, nGroups);
    selectors := [];
    for iter := 0 to N_ITERS
      invariant |lens| == nGroups && Tables(lens, nGroups, alphaSize) && (iter > 0 ==> AllComplete(lens, alphaSize))
      invariant iter > 0 ==> |selectors| == GroupCount(nMTF) && forall g :: 0 <= g < |selectors| ==> selectors[g] < nGroups
      invariant History(h, syms, alphaSize, iter) && |h.tables| == iter + 1 && lens == h.tables[iter]
      invariant |h.chosen| == iter && (iter > 0 ==> selectors == h.chosen[iter - 1])
    {
      var rfreq;
      ghost var rounds;
      selectors, rfreq := ChooseSelectors(arr1, lens, nMTF, alphaSize, syms);
      UsagesShape(rfreq, syms, selectors, alphaSize, nMTF);
      lens, rounds := MakeTables(rfreq, alphaSize);
      CompleteTables(lens, alphaSize);
      OneMorePass(h, syms, alphaSize, iter, selectors, rfreq, rounds, lens);
      h := h.(tables := h.tables + [lens], chosen := h.chosen + [selectors], counts := h.counts + [rfreq], rounds := h.rounds + [rounds]);
    }
  }

  lemma PartitionCount(freq: seq<nat>, lens: seq<seq<byte>>, ends: seq<nat>, n: nat)
    requires Partition(freq, lens, ends, n, n)
    ensures |lens| == n
  {
  }
}
