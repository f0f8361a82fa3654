/** The decoder's move-to-front list: 256 entries in sixteen slices of sixteen that drift down in a larger array.
    It behaves like the plain list. */
module LazyMtf {
  import opened Numbers
  import opened MoveToFront

  const MTFA_SIZE := 4096
  const MTFL_SIZE := 16

  /** The slices follow each other without overlap. */
  ghost predicate Slices(base: seq<int>) {
    && |base| == 16 && 0 <= base[0] && base[15] + 16 <= 4096
    && forall i, j :: 0 <= i < j < 16 ==> base[i] + 16 * (j - i) <= base[j]
  }

  /** Entry j of slice m. */
  ghost function Cell(a: seq<byte>, base: seq<int>, m: nat, j: nat): byte
    requires |a| == 4096 && Slices(base) && m < 16 && j < 16
  {
    SliceInside(base, m);
    a[base[m] + j]
  }

  lemma SliceInside(base: seq<int>, m: nat)
    requires Slices(base) && m < 16
    ensures |base| == 16 && 16 * m <= base[m] && base[m] <= 4096 - 16 * (16 - m)
  {
    if m > 0 {
      assert base[0] + 16 * (m - 0) <= base[m];
    }
    if m < 15 {
      assert base[m] + 16 * (15 - m) <= base[15];
    }
  }

  /** The list the slices stand for. */
  ghost function List(a: seq<byte>, base: seq<int>): (r: seq<byte>)
    requires |a| == 4096 && Slices(base)
    ensures |r| == 256
  {
    seq<byte>(256, k requires 0 <= k < 256 => Cell(a, base, k / 16, k % 16))
  }

  lemma ListAt(a: seq<byte>, base: seq<int>, m: nat, j: nat)
    requires |a| == 4096 && Slices(base) && m < 16 && j < 16
    ensures List(a, base)[16 * m + j] == Cell(a, base, m, j)
  {
    DivUnique(16 * m + j, 16, m, j);
  }

  /** Two lists are equal when they agree slice by slice. */
  lemma ListIs(a: seq<byte>, base: seq<int>, s: seq<byte>)
    requires |a| == 4096 && Slices(base) && |s| == 256
    requires forall m: nat, j: nat :: m < 16 && j < 16 ==> Cell(a, base, m, j) == Place(s, m, j)
    ensures List(a, base) == s
  {
    forall k | 0 <= k < 256 ensures List(a, base)[k] == s[k] {
      assert k == 16 * (k / 16) + k % 16;
      assert Cell(a, base, k / 16, k % 16) == Place(s, k / 16, k % 16);
    }
  }

  ghost function Place(s: seq<byte>, m: nat, j: nat): byte
    requires |s| == 256 && m < 16 && j < 16
  {
    s[16 * m + j]
  }

  // ----- the short way: within the first slice -----

  /** Cells from pp + nn on have been shifted up to pp + n0. */
  ghost predicate ShiftedUp(was: seq<byte>, now: seq<byte>, from: int, nn: int, n0: int) {
    && |was| == |now| && 0 <= from && 0 <= nn <= n0 && from + n0 < |was|
    && forall i :: 0 <= i < |was| ==> now[i] == Shifted(was, from + nn, from + n0, i)
  }

  /** Entry i after the entries from lo on have moved up by one, as far as hi. */
  function Shifted(was: seq<byte>, lo: int, hi: int, i: int): byte
    requires 0 <= lo && 0 <= i < |was|
  {
    if lo < i <= hi then was[i - 1] else was[i]
  }

  lemma FirstSliceDone(was: seq<byte>, now: seq<byte>, base: seq<int>, nn: nat)
    requires |was| == 4096 && Slices(base) && nn < 16 && ShiftedUp(was, now, base[0], 0, nn)
    ensures List(now[base[0] := was[base[0] + nn]], base) == ToFront(List(was, base), nn)
  {
    var a := now[base[0] := was[base[0] + nn]];
    var s := List(was, base);
    forall m: nat, j: nat | m < 16 && j < 16 ensures Cell(a, base, m, j) == Place(ToFront(s, nn), m, j) {
      SliceInside(base, m);
      ListAt(was, base, m, j);
      if m == 0 && 0 < j <= nn {
        ListAt(was, base, 0, j - 1);
      } else if m == 0 && j == 0 {
        ListAt(was, base, 0, nn);
      } else if m > 0 {
        assert base[0] + 16 * (m - 0) <= base[m];
      }
    }
    ListIs(a, base, ToFront(s, nn));
  }

  // ----- the long way: every slice below passes its last entry on -----

  /** Where slice m of the new list starts, once the slices above p have been given their first entry. */
  ghost function NewBase(base: seq<int>, top: int, p: int, m: int): int
    requires |base| == 16 && 0 <= m < 16
  {
    if m == p == top then base[m] + 1 else if p < m < top then base[m] - 1 else base[m]
  }

  /** In the middle: slices above p are done, slice p has lost its last entry (or, at the top, its entry at off). */
  ghost predicate Cascading(was: seq<byte>, base: seq<int>, now: seq<byte>, nb: seq<int>, top: nat, off: nat, p: nat) {
    && |was| == |now| == 4096 && Slices(base) && base[0] >= 1 && 1 <= top < 16 && off < 16 && p <= top && |nb| == 16
    && (forall m :: 0 <= m < 16 ==> nb[m] == NewBase(base, top, p, m))
    && (forall i :: base[top] < i < 4096 ==> now[i] == Shifted(was, base[top], base[top] + off, i))
    && (forall m, j :: 0 <= m < top && 0 <= j < 16 ==> now[Spot(base, m, j)] == was[Spot(base, m, j)])
    && (forall m :: p < m < top ==> now[Spot(base, m, 0) - 1] == was[Spot(base, m - 1, 15)])
    && (p < top ==> now[base[top]] == was[Spot(base, top - 1, 15)])
  }

  ghost function Spot(base: seq<int>, m: int, j: int): (i: int)
    requires Slices(base) && 0 <= m < 16 && 0 <= j < 16
    ensures 0 <= i < 4096 && (base[0] >= 1 ==> i >= 1)
  {
    SliceInside(base, m);
    base[m] + j
  }

  lemma SpotsApart(base: seq<int>, m: int, j: int, l: int, i: int)
    requires Slices(base) && 0 <= m < 16 && 0 <= l < 16 && 0 <= i < 16 && 0 <= j < 16 && m < l
    ensures Spot(base, m, j) < Spot(base, l, i) && (Spot(base, m, j) == Spot(base, l, 0) - 1 ==> l == m + 1 && j == 15)
  {
    assert base[m] + 16 * (l - m) <= base[l];
  }

  lemma CascadeStarts(was: seq<byte>, now: seq<byte>, base: seq<int>, nb: seq<int>, top: nat, off: nat)
    requires |was| == 4096 && Slices(base) && base[0] >= 1 && 1 <= top < 16 && off < 16 && ShiftedUp(was, now, base[top], 0, off)
    requires nb == base[top := base[top] + 1]
    ensures Cascading(was, base, now, nb, top, off, top)
  {
    forall m, j | 0 <= m < top && 0 <= j < 16 ensures now[Spot(base, m, j)] == was[Spot(base, m, j)] {
      SpotsApart(base, m, j, top, 0);
    }
  }

  lemma CascadeShape(was: seq<byte>, base: seq<int>, now: seq<byte>, nb: seq<int>, top: nat, off: nat, p: nat)
    requires Cascading(was, base, now, nb, top, off, p)
    ensures |was| == |now| == 4096 && Slices(base) && |base| == |nb| == 16 && base[0] >= 1 && 1 <= top < 16 && off < 16 && p <= top
    ensures forall m :: 0 <= m < 16 ==> nb[m] == NewBase(base, top, p, m)
    ensures forall m, j :: 0 <= m < top && 0 <= j < 16 ==> now[Spot(base, m, j)] == was[Spot(base, m, j)]
  {
  }

  /** The cell slice p grows into. */
  ghost function Target(base: seq<int>, top: nat, p: nat): (x: int)
    requires Slices(base) && base[0] >= 1 && 1 <= p <= top < 16
    ensures 0 <= x < 4096
  {
    if p == top then Spot(base, top, 0) else Spot(base, p, 0) - 1
  }

  /** Writing there the last entry of the slice below changes no entry of the slices below the top. */
  lemma TargetFree(base: seq<int>, top: nat, p: nat, m: nat, j: nat)
    requires Slices(base) && base[0] >= 1 && 1 <= p <= top < 16 && m < top && j < 16
    ensures Spot(base, m, j) == Target(base, top, p) ==> m == p - 1 && j == 15
    ensures m > p ==> Spot(base, m, 0) - 1 != Target(base, top, p)
    ensures Target(base, top, p) <= base[top] && (p < top ==> Target(base, top, p) < base[top])
  {
    hide Slices;
    SliceInside(base, top);
    if m < p {
      SpotsApart(base, m, j, p, 0);
    } else if m > p {
      SpotsApart(base, p, 0, m, j);
      SpotsApart(base, p, 0, m, 0);
    }
    if p < top {
      SpotsApart(base, p, 0, top, 0);
    }
    assert Spot(base, top, 0) == base[top];
    SpotsApart(base, m, j, top, 0);
  }

  /** Slice p takes over the last entry of the slice below it. The cell it goes to may be the one it comes from. */
  lemma CascadeStep(was: seq<byte>, base: seq<int>, now: seq<byte>, nb: seq<int>, top: nat, off: nat, p: nat)
    requires Cascading(was, base, now, nb, top, off, p) && p > 0
    ensures |nb| == 16 && |now| == 4096 && 0 <= nb[p] - 1 < 4096 && 0 <= nb[p - 1] + 15 < 4096
    ensures Cascading(was, base, now[nb[p] - 1 := now[nb[p - 1] + 15]], nb[p := nb[p] - 1], top, off, p - 1)
  {
    hide Slices, Shifted, Spot, Target;
    CascadeShape(was, base, now, nb, top, off, p);
    TargetIs(base, nb, top, p);
    var x, last := nb[p] - 1, nb[p - 1] + 15;
    assert now[last] == was[last];
    var g := now[x := now[last]];
    forall i | base[top] < i < 4096 ensures g[i] == Shifted(was, base[top], base[top] + off, i) {
      TargetFree(base, top, p, 0, 0);
    }
    forall m, j | 0 <= m < top && 0 <= j < 16 ensures g[Spot(base, m, j)] == was[Spot(base, m, j)] {
      TargetFree(base, top, p, m, j);
    }
    forall m | p - 1 < m < top ensures g[Spot(base, m, 0) - 1] == was[Spot(base, m - 1, 15)] {
      TargetFree(base, top, p, m, 0);
    }
    if p < top {
      TargetFree(base, top, p, 0, 0);
    }
  }

  lemma TargetIs(base: seq<int>, nb: seq<int>, top: nat, p: nat)
    requires Slices(base) && base[0] >= 1 && 1 <= p <= top < 16 && |nb| == 16
    requires forall m :: 0 <= m < 16 ==> nb[m] == NewBase(base, top, p, m)
    ensures nb[p] - 1 == Target(base, top, p) && nb[p - 1] + 15 == Spot(base, p - 1, 15)
    ensures p == top ==> nb[p] - 1 == base[top]
    ensures p < top ==> nb[p] - 1 == Spot(base, p, 0) - 1
  {
  }

  /** The entry taken out becomes the first one. */
  lemma CascadeEnds(was: seq<byte>, base: seq<int>, now: seq<byte>, nb: seq<int>, top: nat, off: nat, uc: byte)
    requires Cascading(was, base, now, nb, top, off, 0) && uc == was[Spot(base, top, off)]
    ensures |nb| == 16 && |now| == |was| == 4096 && Slices(base) && |base| == 16 && 0 <= nb[0] - 1 < 4096
    ensures var nb', a := nb[0 := nb[0] - 1], now[nb[0] - 1 := uc];
      Slices(nb') && nb'[0] == base[0] - 1 && List(a, nb') == ToFront(List(was, base), 16 * top + off)
  {
    hide Slices, Cascading, Spot, List, ToFront;
    CascadeShape(was, base, now, nb, top, off, 0);
    SliceInside(base, 0);
    var nb', a := nb[0 := nb[0] - 1], now[nb[0] - 1 := uc];
    NewSlices(base, nb', top);
    var s, nn := List(was, base), 16 * top + off;
    forall m: nat, j: nat | m < 16 && j < 16 ensures Cell(a, nb', m, j) == Place(ToFront(s, nn), m, j) {
      CascadeCell(was, base, now, nb, top, off, uc, m, j);
      FrontCell(was, base, top, off, m, j);
    }
    ListIs(a, nb', ToFront(s, nn));
  }

  /** The entries of the list with one of them brought to the front. */
  lemma FrontCell(was: seq<byte>, base: seq<int>, top: nat, off: nat, m: nat, j: nat)
    requires |was| == 4096 && Slices(base) && top < 16 && off < 16 && m < 16 && j < 16
    ensures Place(ToFront(List(was, base), 16 * top + off), m, j) ==
      if m == 0 && j == 0 then was[Spot(base, top, off)]
      else if m < top || (m == top && j <= off) then (if j > 0 then was[Spot(base, m, j - 1)] else was[Spot(base, m - 1, 15)])
      else was[Spot(base, m, j)]
  {
    hide Slices, List;
    ListAt(was, base, top, off);
    ListAt(was, base, m, j);
    if j > 0 {
      ListAt(was, base, m, j - 1);
    } else if m > 0 {
      ListAt(was, base, m - 1, 15);
    }
  }

  lemma NewSlices(base: seq<int>, nb: seq<int>, top: nat)
    requires Slices(base) && base[0] >= 1 && 1 <= top < 16 && |nb| == 16
    requires forall m :: 0 <= m < 16 ==> nb[m] == if m < top then base[m] - 1 else base[m]
    ensures Slices(nb)
  {
    forall i, j | 0 <= i < j < 16 ensures nb[i] + 16 * (j - i) <= nb[j] {
      assert base[i] + 16 * (j - i) <= base[j];
    }
  }

  lemma CascadeCell(was: seq<byte>, base: seq<int>, now: seq<byte>, nb: seq<int>, top: nat, off: nat, uc: byte, m: nat, j: nat)
    requires Cascading(was, base, now, nb, top, off, 0) && m < 16 && j < 16
    requires var nb' := nb[0 := nb[0] - 1]; Slices(nb')
    ensures var nb', a := nb[0 := nb[0] - 1], now[nb[0] - 1 := uc];
      Cell(a, nb', m, j) ==
        if m == 0 && j == 0 then uc
        else if m < top || (m == top && j <= off) then (if j > 0 then was[Spot(base, m, j - 1)] else was[Spot(base, m - 1, 15)])
        else was[Spot(base, m, j)]
  {
    var nb', a := nb[0 := nb[0] - 1], now[nb[0] - 1 := uc];
    SliceInside(base, m);
    SliceInside(nb', m);
    if m > 0 {
      SpotsApart(base, 0, 0, m, j);
    }
    if m > top {
      SpotsApart(base, top, 15, m, j);
    } else if m < top {
      if j > 0 {
        assert now[Spot(base, m, j - 1)] == was[Spot(base, m, j - 1)];
      }
    }
  }

  // ----- repacking -----

  /** The entries from (m, j) on have been copied to the end of the array; the cells still to be read are as they were. */
  ghost predicate Packing(was: seq<byte>, base: seq<int>, now: seq<byte>, nb: seq<int>, m: int, j: int) {
    && |was| == |now| == 4096 && Slices(base) && |nb| == 16 && 0 <= m <= 16 && 0 <= j <= 16
    && (forall l :: 0 <= l < m ==> nb[l] == base[l])
    && (forall l :: m < l < 16 ==> nb[l] == 3840 + 16 * l)
    && (m < 16 ==> nb[m] == base[m])
    && (forall i :: 0 <= i < (if m < 16 then base[m] + j else 4096) && i < 4096 ==> now[i] == was[i])
    && forall l: nat, i: nat :: l < 16 && i < 16 && (l > m || (l == m && i >= j)) ==> now[Packed(l, i)] == Cell(was, base, l, i)
  }

  function Packed(m: nat, j: nat): (k: nat)
    requires m < 16 && j < 16
    ensures k == 3840 + 16 * m + j < 4096
  {
    3840 + 16 * m + j
  }

  lemma PackingStarts(was: seq<byte>, base: seq<int>)
    requires |was| == 4096 && Slices(base)
    ensures Packing(was, base, was, base, 15, 16)
  {
  }

  lemma PackStep(was: seq<byte>, base: seq<int>, now: seq<byte>, nb: seq<int>, m: nat, j: nat)
    requires Packing(was, base, now, nb, m, j) && m < 16 && 0 < j
    ensures 0 <= nb[m] + (j - 1) < 4096
    ensures Packing(was, base, now[Packed(m, j - 1) := now[nb[m] + (j - 1)]], nb, m, j - 1)
  {
    SliceInside(base, m);
    var k := Packed(m, j - 1);
    var g := now[k := now[nb[m] + (j - 1)]];
    forall l: nat, i: nat | l < 16 && i < 16 && (l > m || (l == m && i >= j - 1)) ensures g[Packed(l, i)] == Cell(was, base, l, i) {
      if l > m || i >= j {
        assert now[Packed(l, i)] == Cell(was, base, l, i);
      }
    }
  }

  lemma PackSlice(was: seq<byte>, base: seq<int>, now: seq<byte>, nb: seq<int>, m: nat)
    requires Packing(was, base, now, nb, m, 0) && m < 16
    ensures m > 0 ==> Packing(was, base, now, nb[m := 3840 + 16 * m], m - 1, 16)
    ensures m == 0 ==> Slices(nb[m := 3840]) && List(now, nb[m := 3840]) == List(was, base)
  {
    if m > 0 {
      assert base[m - 1] + 16 * (m - (m - 1)) <= base[m];
    } else {
      var nb' := nb[m := 3840];
      forall l: nat, i: nat | l < 16 && i < 16 ensures Cell(now, nb', l, i) == Place(List(was, base), l, i) {
        ListAt(was, base, l, i);
        assert now[Packed(l, i)] == Cell(was, base, l, i);
      }
      ListIs(now, nb', List(was, base));
    }
  }

  class MtfList {
    const mtfa: array<byte>
    const mtfbase: array<int>

    ghost predicate Valid()
      reads mtfa, mtfbase
    {
      && mtfa.Length == MTFA_SIZE && mtfbase.Length == 256 / MTFL_SIZE
      && Slices(mtfbase[..]) && mtfbase[0] >= 1
    }

    /** The list in order. */
    ghost function Contents(): (s: seq<byte>)
      requires Valid()
      reads mtfa, mtfbase
      ensures |s| == 256
    {
      List(mtfa[..], mtfbase[..])
    }

    ghost predicate Sized() {
      mtfa.Length == MTFA_SIZE && mtfbase.Length == 256 / MTFL_SIZE
    }

    constructor ()
      ensures Sized() && fresh(mtfa) && fresh(mtfbase)
    {
      mtfa, mtfbase := new byte[MTFA_SIZE], new int[256 / MTFL_SIZE];
    }

    /** MTF init: the bytes in order, packed at the end of the array. */
    method Init()
      requires Sized()
      modifies mtfa, mtfbase
      ensures Valid() && Contents() == Identity(256)
    {
      var kk := MTFA_SIZE - 1;
      var ii := 256 / MTFL_SIZE - 1;
      while ii >= 0
        invariant -1 <= ii < 16 && kk == 3839 + 16 * (ii + 1)
        invariant forall m :: ii < m < 16 ==> mtfbase[m] == 3840 + 16 * m
        invariant forall k :: kk < k < 4096 ==> mtfa[k] == k - 3840
      {
        var jj := MTFL_SIZE - 1;
        while jj >= 0
          invariant -1 <= jj < 16 && kk == 3840 + 16 * ii + jj
          invariant forall m :: ii < m < 16 ==> mtfbase[m] == 3840 + 16 * m
          invariant forall k :: kk < k < 4096 ==> mtfa[k] == k - 3840
        {
          mtfa[kk] := ii * MTFL_SIZE + jj;
          kk := kk - 1;
          jj := jj - 1;
        }
        mtfbase[ii] := kk + 1;
        ii := ii - 1;
      }
      forall m: nat, j: nat | m < 16 && j < 16 ensures Cell(mtfa[..], mtfbase[..], m, j) == Place(Identity(256), m, j) {
      }
      ListIs(mtfa[..], mtfbase[..], Identity(256));
    }

    /** The front of the list, for a run of zeros. */
    method Front() returns (uc: byte)
      requires Valid()
      ensures uc == Contents()[0]
    {
      ListAt(mtfa[..], mtfbase[..], 0, 0);
      uc := mtfa[mtfbase[0]];
    }

    /** uc = MTF(nn): take out entry nn and put it first. */
    method Take(nn: nat) returns (uc: byte)
      requires Valid() && nn < 256
      modifies mtfa, mtfbase
      ensures Valid() && uc == old(Contents())[nn] && Contents() == ToFront(old(Contents()), nn)
      ensures multiset(Contents()) == old(multiset(Contents()))
    {
      hide List, ToFront, Slices;
      ToFrontKeepsEntries(Contents(), nn);
      if nn < MTFL_SIZE {
        uc := TakeNear(nn);
      } else {
        uc := TakeFar(nn);
        if mtfbase[0] == 0 {
          Repack();
        }
      }
    }

    /** An entry of the first slice: shift those before it, four at a time while there are more than three. */
    method TakeNear(nn0: nat) returns (uc: byte)
      requires Valid() && nn0 < MTFL_SIZE
      modifies mtfa
      ensures Valid() && uc == old(Contents())[nn0] && Contents() == ToFront(old(Contents()), nn0)
    {
      hide List, ToFront;
      ghost var a: seq<byte>, base := mtfa[..], mtfbase[..];
      ListAt(a, base, 0, nn0);
      SliceInside(base, 0);
      var nn := nn0;
      var pp := mtfbase[0];
      uc := mtfa[pp + nn];
      while nn > 3
        invariant 0 <= nn <= nn0 && ShiftedUp(a, mtfa[..], pp, nn, nn0)
      {
        var z := pp + nn;
        mtfa[z] := mtfa[z - 1];
        mtfa[z - 1] := mtfa[z - 2];
        mtfa[z - 2] := mtfa[z - 3];
        mtfa[z - 3] := mtfa[z - 4];
        nn := nn - 4;
      }
      while nn > 0
        invariant 0 <= nn <= nn0 && ShiftedUp(a, mtfa[..], pp, nn, nn0)
      {
        mtfa[pp + nn] := mtfa[pp + nn - 1];
        nn := nn - 1;
      }
      FirstSliceDone(a, mtfa[..], base, nn0);
      ghost var c: seq<byte> := mtfa[..];
      mtfa[pp] := uc;
      assert mtfa[..] == c[pp := uc];
    }

    /** The entries from low up to top move up by one. */
    method ShiftUp(low: nat, top: nat)
      requires mtfa.Length == MTFA_SIZE && low <= top < MTFA_SIZE
      modifies mtfa
      ensures ShiftedUp(old(mtfa[..]), mtfa[..], low, 0, top - low)
    {
      var pp := top;
      while pp > low
        invariant low <= pp <= top && ShiftedUp(old(mtfa[..]), mtfa[..], low, pp - low, top - low)
      {
        mtfa[pp] := mtfa[pp - 1];
        pp := pp - 1;
      }
    }

    /** An entry further back: its slice closes the gap, and every slice below passes its last entry up. */
    method TakeFar(nn: nat) returns (uc: byte)
      requires Valid() && MTFL_SIZE <= nn < 256
      modifies mtfa, mtfbase
      ensures mtfa.Length == MTFA_SIZE && mtfbase.Length == 16 && Slices(mtfbase[..]) && mtfbase[0] >= 0
      ensures uc == old(Contents())[nn] && List(mtfa[..], mtfbase[..]) == ToFront(old(Contents()), nn)
    {
      hide List, ToFront, Slices, Cascading, ShiftedUp, Shifted;
      ghost var a: seq<byte>, base := mtfa[..], mtfbase[..];
      var lno, off := nn / MTFL_SIZE, nn % MTFL_SIZE;
      ghost var top := lno;
      ListAt(a, base, lno, off);
      SliceInside(base, lno);
      var pp := mtfbase[lno] + off;
      uc := mtfa[pp];
      ShiftUp(mtfbase[lno], pp);
      mtfbase[lno] := mtfbase[lno] + 1;
      CascadeStarts(a, mtfa[..], base, mtfbase[..], top, off);
      while lno > 0
        invariant 0 <= lno <= top && Cascading(a, base, mtfa[..], mtfbase[..], top, off, lno)
      {
        ghost var c: seq<byte>, nb := mtfa[..], mtfbase[..];
        CascadeStep(a, base, c, nb, top, off, lno);
        mtfbase[lno] := mtfbase[lno] - 1;
        mtfa[mtfbase[lno]] := mtfa[mtfbase[lno - 1] + MTFL_SIZE - 1];
        assert mtfbase[..] == nb[lno := nb[lno] - 1];
        assert mtfa[..] == c[nb[lno] - 1 := c[nb[lno - 1] + 15]];
        lno := lno - 1;
      }
      ghost var c: seq<byte>, nb := mtfa[..], mtfbase[..];
      CascadeEnds(a, base, c, nb, top, off, uc);
      SliceInside(nb[0 := nb[0] - 1], 0);
      mtfbase[0] := mtfbase[0] - 1;
      mtfa[mtfbase[0]] := uc;
      assert mtfbase[..] == nb[0 := nb[0] - 1] && mtfa[..] == c[nb[0] - 1 := uc];
    }

    /** The slices have reached the bottom: copy them to the end of the array again, in place. */
    method Repack()
      requires mtfa.Length == MTFA_SIZE && mtfbase.Length == 16 && Slices(mtfbase[..])
      modifies mtfa, mtfbase
      ensures Valid() && Contents() == old(List(mtfa[..], mtfbase[..]))
    {
      hide List, Slices, Packing;
      ghost var a: seq<byte>, base := mtfa[..], mtfbase[..];
      PackingStarts(a, base);
      var kk := MTFA_SIZE - 1;
      var ii := 256 / MTFL_SIZE - 1;
      while ii >= 0
        invariant -1 <= ii < 16 && kk == 3839 + 16 * (ii + 1)
        invariant ii >= 0 ==> Packing(a, base, mtfa[..], mtfbase[..], ii, 16)
        invariant ii == -1 ==> Slices(mtfbase[..]) && mtfbase[0] == 3840 && List(mtfa[..], mtfbase[..]) == List(a, base)
      {
        var jj := MTFL_SIZE - 1;
        while jj >= 0
          invariant -1 <= jj < 16 && kk == 3840 + 16 * ii + jj && Packing(a, base, mtfa[..], mtfbase[..], ii, jj + 1)
        {
          ghost var c: seq<byte>, nb := mtfa[..], mtfbase[..];
          PackStep(a, base, c, nb, ii, jj + 1);
          mtfa[kk] := mtfa[mtfbase[ii] + jj];
          assert mtfa[..] == c[Packed(ii, jj) := c[nb[ii] + jj]];
          kk := kk - 1;
          jj := jj - 1;
        }
        ghost var nb := mtfbase[..];
        PackSlice(a, base, mtfa[..], nb, ii);
        mtfbase[ii] := kk + 1;
        assert mtfbase[..] == nb[ii := 3840 + 16 * ii];
        ii := ii - 1;
      }
    }
  }
}
