/** The explicit stack of the two quicksorts: which stretches are still to be sorted, why everything else is in
    place, and why the stack stays small. */
module SegmentStack {
  import opened Numbers
  import opened InPlace

  /** key of every entry; smaller keys belong further left. */
  function KeyAt(f: seq<int>, keys: seq<int>, i: nat): int
    requires i < |f|
  {
    if 0 <= f[i] < |keys| then keys[f[i]] else 0
  }

  /** Entries with different labels are in order already. */
  ghost predicate Covered(f: seq<int>, keys: seq<int>, seg: seq<int>, lo: nat, hi: nat) {
    && lo <= hi <= |f| == |seg|
    && forall i, j :: lo <= i < j < hi && seg[i] != seg[j] ==> KeyAt(f, keys, i) <= KeyAt(f, keys, j)
  }

  predicate Contains(s: (int, int), i: int) {
    s.0 <= i <= s.1
  }

  /** No entry lies in two stretches. */
  ghost predicate Apart(parts: seq<(int, int)>) {
    forall j, k, i :: 0 <= j < k < |parts| ==> !(Contains(parts[j], i) && Contains(parts[k], i))
  }

  /** The stretch that holds entry i, or -1. */
  function PartOf(parts: seq<(int, int)>, i: int): (k: int)
    ensures -1 <= k < |parts|
    ensures k >= 0 ==> Contains(parts[k], i)
    ensures k == -1 ==> forall j :: 0 <= j < |parts| ==> !Contains(parts[j], i)
  {
    if parts == [] then -1
    else if Contains(parts[|parts| - 1], i) then |parts| - 1
    else PartOf(parts[..|parts| - 1], i)
  }

  /** Label x of entry i names the stretch of the stack that holds i; settled entries have labels of their own. */
  ghost predicate LabelAt(stack: seq<(int, int)>, x: int, i: int) {
    && (x == -1 - i || 0 <= x < |stack|)
    && forall p :: 0 <= p < |stack| ==> (x == p <==> Contains(stack[p], i))
  }

  ghost predicate Labels(stack: seq<(int, int)>, seg: seq<int>, lo: nat, hi: nat) {
    && lo <= hi <= |seg|
    && (forall p :: 0 <= p < |stack| ==> lo <= stack[p].0 <= stack[p].1 + 1 <= hi)
    && forall i :: lo <= i < hi ==> LabelAt(stack, seg[i], i)
  }

  function Size(s: (int, int)): int {
    s.1 - s.0 + 1
  }

  /** Stretches halve with every place on the stack. */
  ghost predicate Halving(stack: seq<(int, int)>, n: nat) {
    && n <= 900000 && |stack| <= 18
    && forall p :: 0 <= p < |stack| ==> Size(stack[p]) * Pow2(p) <= n
  }

  /** Goes down with every step. */
  function Work(stack: seq<(int, int)>): int {
    if stack == [] then 0 else Work(stack[..|stack| - 1]) + 2 * Size(stack[|stack| - 1]) + 1
  }

  lemma {:induction false} WorkPositive(stack: seq<(int, int)>)
    requires forall p :: 0 <= p < |stack| ==> Size(stack[p]) >= 0
    ensures Work(stack) >= 0
  {
    if stack != [] {
      WorkPositive(stack[..|stack| - 1]);
    }
  }

  lemma WorkPush(stack: seq<(int, int)>, a: (int, int))
    ensures Work(stack + [a]) == Work(stack) + 2 * Size(a) + 1
  {
    assert (stack + [a])[..|stack|] == stack;
  }

  /** The entries of stretch s get the labels of the parts that hold them, counted from base; the others of s
      are settled. */
  function Relabelled(seg: seq<int>, s: (int, int), base: nat, parts: seq<(int, int)>): (r: seq<int>)
    ensures |r| == |seg|
  {
    seq(|seg|, i requires 0 <= i < |seg| => NewLabel(seg[i], i, s, base, parts))
  }

  function NewLabel(x: int, i: int, s: (int, int), base: nat, parts: seq<(int, int)>): int {
    if !Contains(s, i) then x else if PartOf(parts, i) == -1 then -1 - i else base + PartOf(parts, i)
  }

  /** Permuting one stretch does not disturb the order between entries of different stretches. */
  lemma StillCovered(f: seq<int>, g: seq<int>, keys: seq<int>, seg: seq<int>, lo: nat, hi: nat, l: nat, h: nat, p: int)
    requires Covered(f, keys, seg, lo, hi) && Rearranged(f, g, l, h) && lo <= l <= h <= hi
    requires forall i :: lo <= i < hi ==> (seg[i] == p <==> l <= i < h)
    ensures Covered(g, keys, seg, lo, hi)
  {
    hide Rearranged, KeyAt;
    SameLength(f, g, l, h);
    forall i, j | lo <= i < j < hi && seg[i] != seg[j] ensures KeyAt(g, keys, i) <= KeyAt(g, keys, j) {
      var a := RearrangedAt(f, g, l, h, i);
      var b := RearrangedAt(f, g, l, h, j);
      SameKey(f, g, keys, a, i);
      SameKey(f, g, keys, b, j);
      assert seg[a] == seg[i] && seg[b] == seg[j];
    }
  }

  lemma SameLength(f: seq<int>, g: seq<int>, l: nat, h: nat)
    requires Rearranged(f, g, l, h)
    ensures |f| == |g|
  {
  }

  lemma SameKey(f: seq<int>, g: seq<int>, keys: seq<int>, a: nat, i: nat)
    requires a < |f| && i < |g| && g[i] == f[a]
    ensures KeyAt(g, keys, i) == KeyAt(f, keys, a)
  {
  }

  /** Within stretch s, entries that do not share a part are in order. */
  ghost predicate PartsOrdered(f: seq<int>, keys: seq<int>, s: (int, int), parts: seq<(int, int)>) {
    && 0 <= s.0 && s.1 < |f|
    && forall i, j :: s.0 <= i < j <= s.1 && (PartOf(parts, i) == -1 || PartOf(parts, i) != PartOf(parts, j)) ==>
         KeyAt(f, keys, i) <= KeyAt(f, keys, j)
  }

  /** Splitting a stretch into parts that are in order keeps the cover. */
  lemma CoverRefined(f: seq<int>, keys: seq<int>, seg: seq<int>, lo: nat, hi: nat, s: (int, int), p: int, base: nat, parts: seq<(int, int)>)
    requires Covered(f, keys, seg, lo, hi) && lo <= s.0 <= s.1 + 1 <= hi
    requires forall i :: lo <= i < hi ==> (seg[i] == p <==> Contains(s, i))
    requires PartsOrdered(f, keys, s, parts)
    ensures Covered(f, keys, Relabelled(seg, s, base, parts), lo, hi)
  {
    hide KeyAt, PartOf;
  }

  // ----- the stack -----

  ghost predicate Parts(s: (int, int), parts: seq<(int, int)>) {
    Apart(parts) && forall k :: 0 <= k < |parts| ==> s.0 <= parts[k].0 <= parts[k].1 + 1 <= s.1 + 1
  }

  lemma LabelSplit(stack: seq<(int, int)>, x: int, i: int, parts: seq<(int, int)>)
    requires i >= 0 && stack != [] && LabelAt(stack, x, i) && Parts(stack[|stack| - 1], parts)
    ensures LabelAt(stack[..|stack| - 1] + parts, NewLabel(x, i, stack[|stack| - 1], |stack| - 1, parts), i)
  {
    hide PartOf;
    var p := |stack| - 1;
    var y := NewLabel(x, i, stack[p], p, parts);
    var all := stack[..p] + parts;
    forall q | 0 <= q < |all| ensures y == q <==> Contains(all[q], i) {
      assert x == p <==> Contains(stack[p], i);
      if q < p {
        assert x == q <==> Contains(stack[q], i);
      } else {
        var k := q - p;
        assert all[q] == parts[k];
      }
    }
  }

  /** The top stretch is replaced by parts of itself. */
  lemma LabelsSplit(stack: seq<(int, int)>, seg: seq<int>, lo: nat, hi: nat, parts: seq<(int, int)>)
    requires Labels(stack, seg, lo, hi) && stack != [] && Parts(stack[|stack| - 1], parts)
    ensures Labels(stack[..|stack| - 1] + parts, Relabelled(seg, stack[|stack| - 1], |stack| - 1, parts), lo, hi)
  {
    hide PartOf, LabelAt, Apart;
    var s, p := stack[|stack| - 1], |stack| - 1;
    var r := Relabelled(seg, s, p, parts);
    forall i | lo <= i < hi ensures LabelAt(stack[..p] + parts, r[i], i) {
      LabelSplit(stack, seg[i], i, parts);
    }
  }

  lemma TopLabel(stack: seq<(int, int)>, seg: seq<int>, lo: nat, hi: nat)
    requires Labels(stack, seg, lo, hi) && stack != []
    ensures var s := stack[|stack| - 1]; lo <= s.0 <= s.1 + 1 <= hi <= |seg|
    ensures forall i :: lo <= i < hi ==> (seg[i] == |stack| - 1 <==> Contains(stack[|stack| - 1], i))
  {
    forall i | lo <= i < hi ensures seg[i] == |stack| - 1 <==> Contains(stack[|stack| - 1], i) {
      assert LabelAt(stack, seg[i], i);
    }
  }

  /** The larger part first: sizes still halve, and the part on top came from more than ten entries. */
  lemma HalvingSplit(stack: seq<(int, int)>, n: nat, large: (int, int), small: (int, int))
    requires Halving(stack, n) && stack != []
    requires Size(large) + Size(small) < Size(stack[|stack| - 1]) && 0 <= Size(small) <= Size(large)
    requires Size(stack[|stack| - 1]) > 10
    ensures Halving(stack[..|stack| - 1] + [large, small], n)
  {
    hide Pow2;
    var p := |stack| - 1;
    var s := Size(stack[p]);
    MulMonotone(Size(large), s, Pow2(p));
    MulMonotone(2 * Size(small), s, Pow2(p));
    NextPower(Size(small), p);
    MulMonotone(11, s, Pow2(p));
    PowerBound(p);
    if p > 16 {
      Pow2Monotone(17, p);
    }
  }

  lemma HalvingPop(stack: seq<(int, int)>, n: nat)
    requires Halving(stack, n) && stack != []
    ensures Halving(stack[..|stack| - 1], n)
  {
  }

  /** Taking the top stretch off leaves less work; so does replacing it by two parts that are smaller together. */
  lemma WorkLess(stack: seq<(int, int)>, seg: seq<int>, lo: nat, hi: nat, a: (int, int), b: (int, int))
    requires Labels(stack, seg, lo, hi) && stack != [] && Size(a) + Size(b) < Size(stack[|stack| - 1])
    ensures 0 <= Work(stack[..|stack| - 1]) < Work(stack)
    ensures Work(stack[..|stack| - 1] + [a, b]) < Work(stack)
  {
    var rest := stack[..|stack| - 1];
    WorkPositive(rest);
    WorkPush(rest, a);
    WorkPush(rest + [a], b);
    assert rest + [a] + [b] == rest + [a, b];
  }

  lemma NextPower(x: nat, p: nat)
    ensures x * Pow2(p + 1) == 2 * x * Pow2(p)
  {
    MulDouble(x, Pow2(p));
  }

  lemma PowerBound(p: nat)
    ensures Pow2(17) == 131072
  {
    Pow2Values();
    Pow2Add(16, 1);
    Pow2Add(8, 8);
  }

  lemma CoveredSorted(f: seq<int>, keys: seq<int>, seg: seq<int>, lo: nat, hi: nat)
    requires Covered(f, keys, seg, lo, hi) && Labels([], seg, lo, hi)
    ensures forall i, j :: lo <= i < j < hi ==> KeyAt(f, keys, i) <= KeyAt(f, keys, j)
  {
    forall i, j | lo <= i < j < hi ensures seg[i] != seg[j] {
      assert LabelAt([], seg[i], i) && LabelAt([], seg[j], j);
    }
  }
}
