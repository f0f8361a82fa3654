/** Huffman's theorem: no code is cheaper than the one that merging the two lightest trees again and again leads to. */
module HuffmanOptimal {
  import opened Numbers
  import opened CanonicalCodes

  /** A symbol with its weight and the length of its code word. */
  datatype Leaf = Leaf(weight: nat, len: nat)

  function Cost(s: seq<Leaf>): nat {
    if s == [] then 0 else Cost(s[..|s| - 1]) + s[|s| - 1].weight * s[|s| - 1].len
  }

  ghost predicate Within(s: seq<Leaf>, d: nat) {
    forall i :: 0 <= i < |s| ==> s[i].len <= d
  }

  /** The Kraft sum, scaled by 2^d. */
  function Space(s: seq<Leaf>, d: nat): nat
    requires Within(s, d)
  {
    if s == [] then 0 else Space(s[..|s| - 1], d) + Pow2(d - s[|s| - 1].len)
  }

  function Weights(s: seq<Leaf>): (m: multiset<nat>)
    ensures |m| == |s|
  {
    if s == [] then multiset{} else Weights(s[..|s| - 1]) + multiset{s[|s| - 1].weight}
  }

  function Lengths(s: seq<Leaf>): nat {
    if s == [] then 0 else Lengths(s[..|s| - 1]) + s[|s| - 1].len
  }

  // ----- merging weights -----

  lemma {:induction false} LeastExists(m: multiset<nat>) returns (a: nat)
    requires |m| > 0
    ensures a in m && forall b :: b in m ==> a <= b
    decreases |m|
  {
    var x :| x in m;
    var rest := m - multiset{x};
    assert m == rest + multiset{x};
    if |rest| == 0 {
      a := x;
    } else {
      var y := LeastExists(rest);
      a := Min(x, y);
    }
  }

  ghost function Least(m: multiset<nat>): (a: nat)
    requires |m| > 0
    ensures a in m && forall b :: b in m ==> a <= b
  {
    assert exists a: nat :: a in m && forall b :: b in m ==> a <= b by {
      var a := LeastExists(m);
    }
    var a: nat :| a in m && forall b :: b in m ==> a <= b;
    a
  }

  /** m after a and b have become one. */
  function Joint(m: multiset<nat>, a: nat, b: nat): (r: multiset<nat>)
  {
    m - multiset{a} - multiset{b} + multiset{a + b}
  }

  lemma JointSize(m: multiset<nat>, a: nat, b: nat)
    requires a in m && b in m - multiset{a}
    ensures |Joint(m, a, b)| == |m| - 1
  {
  }

  /** Merge the two lightest weights as long as there are two: the total of all merges is the cost of the tree. */
  ghost function MergeCost(m: multiset<nat>): nat
    decreases |m|
  {
    if |m| <= 1 then 0
    else
      var a := Least(m);
      var b := Least(m - multiset{a});
      JointSize(m, a, b);
      a + b + MergeCost(Joint(m, a, b))
  }

  // ----- sums with one leaf taken out or changed -----

  function Without(s: seq<Leaf>, k: nat): (r: seq<Leaf>)
    requires k < |s|
    ensures |r| == |s| - 1
  {
    s[..k] + s[k + 1..]
  }

  lemma AppendSums(v: seq<Leaf>, x: Leaf, d: nat)
    requires Within(v, d) && x.len <= d
    ensures Within(v + [x], d) && Cost(v + [x]) == Cost(v) + x.weight * x.len && Space(v + [x], d) == Space(v, d) + Pow2(d - x.len)
    ensures Weights(v + [x]) == Weights(v) + multiset{x.weight} && Lengths(v + [x]) == Lengths(v) + x.len
  {
    hide Pow2;
    assert (v + [x])[..|v|] == v;
  }

  lemma {:induction false} WithoutSums(s: seq<Leaf>, k: nat, d: nat)
    requires k < |s| && Within(s, d)
    ensures Within(Without(s, k), d)
    ensures Cost(s) == Cost(Without(s, k)) + s[k].weight * s[k].len
    ensures Space(s, d) == Space(Without(s, k), d) + Pow2(d - s[k].len)
    ensures Weights(s) == Weights(Without(s, k)) + multiset{s[k].weight}
    ensures Lengths(s) == Lengths(Without(s, k)) + s[k].len
    decreases |s|
  {
    hide Pow2, Cost, Space, Weights, Lengths;
    var n := |s| - 1;
    var front, last := s[..n], s[n];
    assert s == front + [last];
    AppendSums(front, last, d);
    if k == n {
      assert Without(s, k) == front;
    } else {
      WithoutSums(front, k, d);
      AppendSums(Without(front, k), last, d);
      assert Without(s, k) == Without(front, k) + [last];
      PlusSwap(Weights(Without(front, k)), multiset{front[k].weight}, multiset{last.weight});
    }
  }

  lemma PlusSwap(m: multiset<nat>, x: multiset<nat>, y: multiset<nat>)
    ensures m + x + y == m + y + x
  {
  }

  lemma ChangedSums(s: seq<Leaf>, k: nat, x: Leaf, d: nat)
    requires k < |s| && Within(s, d) && x.len <= d
    ensures Within(s[k := x], d)
    ensures Cost(s[k := x]) + s[k].weight * s[k].len == Cost(s) + x.weight * x.len
    ensures Space(s[k := x], d) + Pow2(d - s[k].len) == Space(s, d) + Pow2(d - x.len)
    ensures x.weight == s[k].weight ==> Weights(s[k := x]) == Weights(s)
    ensures Lengths(s[k := x]) + s[k].len == Lengths(s) + x.len
  {
    hide Pow2, Cost, Space, Weights, Lengths;
    var t := s[k := x];
    assert Within(t, d);
    WithoutSums(s, k, d);
    WithoutSums(t, k, d);
    assert Without(t, k) == Without(s, k);
  }

  // ----- making a code cheaper -----

  /** s with the lengths of i and x exchanged. */
  function Exchanged(s: seq<Leaf>, i: nat, x: nat): (r: seq<Leaf>)
    requires i < |s| && x < |s|
    ensures |r| == |s|
  {
    s[i := Leaf(s[i].weight, s[x].len)][x := Leaf(s[x].weight, s[i].len)]
  }

  lemma CrossTerms(a: nat, b: nat, k: nat, l: nat)
    requires a <= b && k <= l
    ensures a * l + b * k <= a * k + b * l
  {
    MulMonotone(a, b, l - k);
    assert a * l == a * k + a * (l - k) && b * l == b * k + b * (l - k);
  }

  /** The lighter symbol takes the longer code word. */
  lemma ExchangeCheaper(s: seq<Leaf>, i: nat, x: nat, d: nat)
    requires i < |s| && x < |s| && i != x && Within(s, d) && s[i].weight <= s[x].weight && s[i].len <= s[x].len
    ensures var t := Exchanged(s, i, x);
      Within(t, d) && Cost(t) <= Cost(s) && Space(t, d) == Space(s, d) && Weights(t) == Weights(s) && Lengths(t) == Lengths(s)
  {
    hide Pow2, Cost, Space, Weights, Lengths;
    var u := s[i := Leaf(s[i].weight, s[x].len)];
    ChangedSums(s, i, Leaf(s[i].weight, s[x].len), d);
    ChangedSums(u, x, Leaf(s[x].weight, s[i].len), d);
    CrossTerms(s[i].weight, s[x].weight, s[i].len, s[x].len);
  }

  lemma {:induction false} SpaceScaled(s: seq<Leaf>, d: nat, e: nat)
    requires e <= d && Within(s, e)
    ensures Within(s, d) && Space(s, d) == Space(s, e) * Pow2(d - e)
  {
    hide Pow2;
    if s != [] {
      var k := |s| - 1;
      SpaceScaled(s[..k], d, e);
      Pow2Add(e - s[k].len, d - e);
      MulDistribute(Space(s[..k], e), Pow2(e - s[k].len), Pow2(d - e));
    }
  }

  lemma RoomForOne(q: nat, m: nat, p: nat)
    requires q * (2 * m) + m <= p * (2 * m) && m >= 1
    ensures (q + 1) * (2 * m) <= p * (2 * m)
  {
    if p <= q {
      MulMonotone(p, q, 2 * m);
    }
    MulMonotone(q + 1, p, 2 * m);
  }

  /** A code word longer than all others can lose a bit. */
  lemma ShortenOnly(s: seq<Leaf>, x: nat, d: nat)
    requires x < |s| && Within(s, d) && Space(s, d) <= Pow2(d) && s[x].len >= 1
    requires forall k :: 0 <= k < |s| && k != x ==> s[k].len < s[x].len
    ensures var t := s[x := Leaf(s[x].weight, s[x].len - 1)];
      Within(t, d) && Cost(t) <= Cost(s) && Space(t, d) <= Pow2(d) && Weights(t) == Weights(s) && Lengths(t) < Lengths(s)
  {
    hide Cost, Space, Weights, Lengths;
    var e := s[x].len - 1;
    var rest := Without(s, x);
    WithoutSums(s, x, d);
    ChangedSums(s, x, Leaf(s[x].weight, e), d);
    assert Within(rest, e) by {
      forall k | 0 <= k < |rest| ensures rest[k].len <= e {
        assert rest[k] == if k < x then s[k] else s[k + 1];
      }
    }
    SpaceScaled(rest, d, e);
    Pow2Split(d, e);
    assert Pow2(d - e) == 2 * Pow2(d - e - 1);
    hide Pow2;
    RoomForOne(Space(rest, e), Pow2(d - e - 1), Pow2(e));
    MulDistribute(Space(rest, e), 1, Pow2(d - e));
    MulMonotone(e, e + 1, s[x].weight);
  }

  /** The two leaves i and j, of the same length, as one. */
  function Joined(s: seq<Leaf>, i: nat, j: nat): (r: seq<Leaf>)
    requires i < j < |s| && s[i].len >= 1
    ensures |r| == |s| - 1
  {
    Without(Without(s, j), i) + [Leaf(s[i].weight + s[j].weight, s[i].len - 1)]
  }

  lemma JoinedSums(s: seq<Leaf>, i: nat, j: nat, d: nat)
    requires i < j < |s| && Within(s, d) && s[i].len == s[j].len >= 1
    ensures var t := Joined(s, i, j); var a, b := s[i].weight, s[j].weight;
      && Within(t, d) && Cost(s) == Cost(t) + a + b && Space(t, d) == Space(s, d)
      && Weights(t) == Joint(Weights(s), a, b)
  {
    hide Cost, Space, Weights, Lengths, Pow2, Joint;
    var l, a, b := s[i].len, s[i].weight, s[j].weight;
    var v := TwoOut(s, i, j, d);
    AppendSums(v, Leaf(a + b, l - 1), d);
    JoinedArithmetic(a, b, l);
    HalfSpace(d, l);
    JointBack(Weights(v), a, b);
  }

  lemma TwoOut(s: seq<Leaf>, i: nat, j: nat, d: nat) returns (v: seq<Leaf>)
    requires i < j < |s| && Within(s, d)
    ensures v == Without(Without(s, j), i) && Within(v, d)
    ensures Cost(s) == Cost(v) + s[i].weight * s[i].len + s[j].weight * s[j].len
    ensures Space(s, d) == Space(v, d) + Pow2(d - s[i].len) + Pow2(d - s[j].len)
    ensures Weights(s) == Weights(v) + multiset{s[i].weight} + multiset{s[j].weight}
  {
    hide Cost, Space, Weights, Lengths, Pow2;
    var u := Without(s, j);
    WithoutSums(s, j, d);
    assert u[i] == s[i];
    WithoutSums(u, i, d);
    v := Without(u, i);
  }

  lemma JoinedArithmetic(a: nat, b: nat, l: nat)
    requires l >= 1
    ensures a * l + b * l == (a + b) * (l - 1) + a + b
  {
    MulDistribute(a, b, l - 1);
  }

  lemma HalfSpace(d: nat, l: nat)
    requires 1 <= l <= d
    ensures Pow2(d - (l - 1)) == Pow2(d - l) + Pow2(d - l)
  {
  }

  // ----- finding the leaves -----

  lemma {:induction false} LeafWith(s: seq<Leaf>, a: nat) returns (i: nat)
    requires a in Weights(s)
    ensures i < |s| && s[i].weight == a
  {
    if s[|s| - 1].weight == a {
      i := |s| - 1;
    } else {
      i := LeafWith(s[..|s| - 1], a);
    }
  }

  lemma WeightIn(s: seq<Leaf>, k: nat)
    requires k < |s|
    ensures s[k].weight in Weights(s)
  {
    WithoutSums(s, k, MaxLen(s));
  }

  ghost function MaxLen(s: seq<Leaf>): (d: nat)
    ensures Within(s, d)
    ensures s != [] ==> exists x :: 0 <= x < |s| && s[x].len == d
  {
    if s == [] then 0 else Max(MaxLen(s[..|s| - 1]), s[|s| - 1].len)
  }

  lemma TwoLeast(s: seq<Leaf>) returns (i: nat, j: nat)
    requires |s| >= 2
    ensures i < |s| && j < |s| && i != j
    ensures s[i].weight == Least(Weights(s)) && s[j].weight == Least(Weights(s) - multiset{s[i].weight})
    ensures forall k :: 0 <= k < |s| && k != i ==> s[i].weight <= s[j].weight <= s[k].weight
  {
    hide Weights;
    var m := Weights(s);
    i := LeafWith(s, Least(m));
    WithoutSums(s, i, MaxLen(s));
    var rest := Without(s, i);
    assert Weights(rest) == m - multiset{s[i].weight};
    var q := LeafWith(rest, Least(Weights(rest)));
    j := if q < i then q else q + 1;
    assert rest[q] == s[j];
    WeightIn(s, j);
    forall k | 0 <= k < |s| && k != i ensures s[j].weight <= s[k].weight {
      var k' := if k < i then k else k - 1;
      assert rest[k'] == s[k];
      WeightIn(rest, k');
    }
  }

  // ----- the theorem -----

  /** The two lightest symbols get two longest code words. */
  lemma PairUp(s: seq<Leaf>, d: nat, x: nat, y: nat, i: nat, j: nat) returns (t: seq<Leaf>)
    requires Within(s, d) && x < |s| && y < |s| && x != y && s[x].len == s[y].len && Within(s, s[x].len)
    requires i < |s| && j < |s| && i != j && forall k :: 0 <= k < |s| && k != i ==> s[i].weight <= s[j].weight <= s[k].weight
    ensures |t| == |s| && t[i].len == t[j].len == s[x].len && t[i].weight == s[i].weight && t[j].weight == s[j].weight
    ensures Within(t, d) && Cost(t) <= Cost(s) && Space(t, d) == Space(s, d) && Weights(t) == Weights(s)
  {
    hide Cost, Space, Weights, Lengths;
    t := s;
    var z := if x != i then x else y;
    if s[i].len != s[x].len {
      ExchangeCheaper(s, i, x, d);
      t := Exchanged(s, i, x);
      z := y;
    }
    if t[j].len != s[x].len {
      ExchangeCheaper(t, j, z, d);
      t := Exchanged(t, j, z);
    }
  }

  lemma {:induction false} Optimal(s: seq<Leaf>, d: nat)
    requires s != [] && Within(s, d) && Space(s, d) <= Pow2(d)
    ensures Cost(s) >= MergeCost(Weights(s))
    decreases |s|, Lengths(s)
  {
    hide Cost, Space, Weights, Lengths, Pow2, MergeCost, Joined, Joint, Least;
    if |s| >= 2 {
      var longest := MaxLen(s);
      var x: nat :| x < |s| && s[x].len == longest;
      if s[x].len == 0 {
        NoRoom(s, d);
      } else if y: nat :| y < |s| && y != x && s[y].len == s[x].len {
        var i, j := TwoLeast(s);
        var t := PairUp(s, d, x, y, i, j);
        var u := if i < j then Joined(t, i, j) else Joined(t, j, i);
        if i < j {
          JoinedSums(t, i, j, d);
        } else {
          JoinedSums(t, j, i, d);
        }
        Optimal(u, d);
        EitherOrder(Weights(s), s[i].weight, s[j].weight);
        MergeCostStep(Weights(s), s[i].weight, s[j].weight);
      } else {
        ShortenOnly(s, x, d);
        Optimal(s[x := Leaf(s[x].weight, s[x].len - 1)], d);
      }
    } else {
      SingleTree(Weights(s));
    }
  }

  lemma SingleTree(m: multiset<nat>)
    requires |m| <= 1
    ensures MergeCost(m) == 0
  {
  }

  /** The same, whichever of the two is taken out first. */
  lemma EitherOrder(m: multiset<nat>, a: nat, b: nat)
    ensures Joint(m, a, b) == Joint(m, b, a)
  {
    MinusBoth(m, multiset{a}, multiset{b});
    MinusBoth(m, multiset{b}, multiset{a});
    assert multiset{a} + multiset{b} == multiset{b} + multiset{a};
  }

  lemma MinusBoth(m: multiset<nat>, x: multiset<nat>, y: multiset<nat>)
    ensures m - x - y == m - (x + y)
  {
  }

  lemma PlusMinus(m: multiset<nat>, x: multiset<nat>)
    ensures m + x - x == m
  {
  }

  lemma JointBack(m: multiset<nat>, a: nat, b: nat)
    ensures Joint(m + multiset{a} + multiset{b}, a, b) == m + multiset{a + b}
  {
    var x, y := multiset{a}, multiset{b};
    MinusBoth(m + x + y, x, y);
    assert m + x + y == m + (x + y);
    PlusMinus(m, x + y);
  }

  lemma MergeCostStep(m: multiset<nat>, a: nat, b: nat)
    requires |m| >= 2 && a == Least(m) && b == Least(m - multiset{a})
    ensures MergeCost(m) == a + b + MergeCost(Joint(m, a, b))
  {
    hide Least, Joint;
  }

  lemma NoRoom(s: seq<Leaf>, d: nat)
    requires |s| >= 2 && Within(s, 0) && Within(s, d)
    ensures Space(s, d) > Pow2(d)
  {
    SpaceScaled(s, d, 0);
    var u := s[..|s| - 1];
    assert Space(s, 0) == Space(u, 0) + 1 && Space(u, 0) == Space(u[..|u| - 1], 0) + 1;
    MulMonotone(2, Space(s, 0), Pow2(d));
  }
}
