/** The two memory layouts of the inverse transform: the FAST table tt, and the SMALL 20-bit table kept in a
    16-bit array and a packed nibble array. */
module LinkTables {
  import opened Numbers
  import opened Permutations
  import opened CountingSort
  import opened InverseBwt

  /** cftab: where the bucket of each byte value starts, from the byte counts. */
  method BucketStarts(cftab: array<nat>, unzftab: array<nat>, ghost col: seq<byte>)
    requires cftab.Length == 257 && unzftab.Length == 256 && cftab != unzftab && forall c: byte :: unzftab[c] == Count(col, c)
    modifies cftab
    ensures forall c: nat :: c <= 256 ==> cftab[c] == CountLess(col, c) <= |col|
  {
    cftab[0] := 0;
    for i := 1 to 257
      invariant cftab[0] == 0
      invariant forall c :: 1 <= c < i ==> cftab[c] == unzftab[c - 1]
    {
      cftab[i] := unzftab[i - 1];
    }
    CountLessAll(col);
    for i := 1 to 257
      invariant forall c :: 0 <= c < i ==> cftab[c] == CountLess(col, c)
      invariant forall c :: i <= c < 257 ==> cftab[c] == unzftab[c - 1]
    {
      cftab[i] := cftab[i] + cftab[i - 1];
      CountLessStep(col, (i - 1) as byte);
    }
  }

  lemma CountNext(col: seq<byte>, i: nat)
    requires i < |col|
    ensures forall c: byte :: Count(col[..i + 1], c) == Count(col[..i], c) + if c == col[i] then 1 else 0
  {
    assert col[..i + 1][..i] == col[..i];
  }

  /** The bucket pointers while the first i bytes have been placed. */
  ghost predicate Placed(cftab: seq<nat>, col: seq<byte>, i: nat)
    requires i <= |col|
  {
    |cftab| == 257 && forall c: byte :: cftab[c] == CountLess(col, c) + Count(col[..i], c)
  }

  lemma PlaceNext(cftab: seq<nat>, col: seq<byte>, i: nat)
    requires i < |col| && Placed(cftab, col, i)
    ensures cftab[col[i]] == Rank(col, i) < |col|
    ensures Placed(cftab[col[i] := cftab[col[i]] + 1], col, i + 1)
  {
    RankBucket(col, i);
    CountNext(col, i);
  }

  // ----- FAST -----

  /** Every entry: the byte of its row in the last column, and above it the row that follows. */
  ghost predicate FastTable(tt: seq<word>, col: seq<byte>) {
    |tt| >= |col| && forall r :: 0 <= r < |col| ==> tt[r] == col[r] + 256 * Unrank(col)[r]
  }

  /** The table once the first i bytes of the column have been linked. The upper parts still to be filled
      are zero, so the or that fills them is a sum. */
  ghost predicate Linked(tt: seq<word>, col: seq<byte>, i: nat) {
    |tt| >= |col| && forall r :: 0 <= r < |col| ==> tt[r] == col[r] + 256 * if Unrank(col)[r] < i then Unrank(col)[r] else 0
  }

  lemma LinkNext(tt: seq<word>, col: seq<byte>, i: nat)
    requires i < |col| <= 900000 && Linked(tt, col, i)
    ensures tt[i] % 256 == col[i] && Rank(col, i) < |col| && tt[Rank(col, i)] + 256 * i < 0x1_0000_0000
    ensures Linked(tt[Rank(col, i) := tt[Rank(col, i)] + 256 * i], col, i + 1)
  {
    hide Rank, Unrank;
    UnrankInverse(col);
    UnrankOfRank(col, Unrank(col), i);
  }

  /** Thread entry i of the column into its bucket. */
  method LinkOne(tt: array<word>, cftab: array<nat>, ghost col: seq<byte>, i: nat)
    requires i < |col| <= tt.Length && |col| <= 900000 && cftab.Length == 257 && Placed(cftab[..], col, i) && Linked(tt[..], col, i)
    modifies tt, cftab
    ensures Placed(cftab[..], col, i + 1) && Linked(tt[..], col, i + 1)
  {
    hide Rank, Count, CountLess, Linked, Unrank, Placed;
    ghost var a, b: seq<word> := cftab[..], tt[..];
    PlaceNext(a, col, i);
    LinkNext(b, col, i);
    var uc := (tt[i] % 256) as byte;
    var r := cftab[uc];
    assert r == Rank(col, i);
    tt[r] := tt[r] + 256 * i;
    cftab[uc] := r + 1;
    assert tt[..] == b[r := b[r] + 256 * i];
    assert cftab[..] == a[uc := r + 1];
  }

  /** cftab is used up. */
  method BuildFast(tt: array<word>, cftab: array<nat>, nblock: nat, ghost col: seq<byte>)
    requires nblock == |col| <= tt.Length && |col| <= 900000 && forall r :: 0 <= r < |col| ==> tt[r] == col[r]
    requires cftab.Length == 257 && forall c: nat :: c <= 256 ==> cftab[c] == CountLess(col, c)
    modifies tt, cftab
    ensures FastTable(tt[..], col)
  {
    hide Rank, Unrank, Count, CountLess, Linked;
    StartLinks(tt[..], col);
    StartBuckets(cftab[..], col);
    for i := 0 to nblock
      invariant Placed(cftab[..], col, i) && Linked(tt[..], col, i)
    {
      LinkOne(tt, cftab, col, i);
    }
    EndLinks(tt[..], col);
  }

  lemma StartLinks(tt: seq<word>, col: seq<byte>)
    requires |tt| >= |col| && forall r :: 0 <= r < |col| ==> tt[r] == col[r]
    ensures Linked(tt, col, 0)
  {
  }

  lemma EndLinks(tt: seq<word>, col: seq<byte>)
    requires Linked(tt, col, |col|)
    ensures FastTable(tt, col)
  {
    hide Rank;
    UnrankInverse(col);
  }

  lemma StartBuckets(cftab: seq<nat>, col: seq<byte>)
    requires |cftab| == 257 && forall c: nat :: c <= 256 ==> cftab[c] == CountLess(col, c)
    ensures Placed(cftab, col, 0)
  {
  }

  // ----- SMALL -----

  /** The low nibble of a shared byte belongs to the even entry, the high nibble to the odd one. */
  function Nibble(b: byte, odd: bool): (n: nat)
    ensures n < 16
  {
    if odd then b / 16 else b % 16
  }

  /** SET_LL4: replace one nibble, keep the other. */
  function WithNibble(b: byte, odd: bool, n: nat): (r: byte)
    requires n < 16
    ensures Nibble(r, odd) == n && Nibble(r, !odd) == Nibble(b, !odd)
  {
    var x: nat := if odd then b % 16 + 16 * n else b / 16 * 16 + n;
    assert b / 16 < 16;
    x
  }

  /** GET_LL: 16 low bits from one array, 4 high bits from a nibble of the other. */
  function Joined(lo: ushort, b: byte, odd: bool): (n: nat)
    ensures n < 0x10_0000
  {
    lo + 0x1_0000 * Nibble(b, odd)
  }

  /** The 20-bit entries the two arrays stand for. */
  ghost function Entries(ll16: seq<ushort>, ll4: seq<byte>): (r: seq<nat>)
    requires |ll16| <= 2 * |ll4|
    ensures |r| == |ll16|
  {
    seq(|ll16|, i requires 0 <= i < |ll16| => Joined(ll16[i], ll4[i / 2], i % 2 == 1))
  }

  /** Entry i of the two arrays. */
  method GetLL(ll16: array<ushort>, ll4: array<byte>, i: nat, ghost n: nat) returns (x: nat)
    requires i < n <= ll16.Length <= 2 * ll4.Length
    ensures x == Entries(ll16[..n], ll4[..])[i]
  {
    hide Joined;
    x := Joined(ll16[i], ll4[i / 2], i % 2 == 1);
  }

  /** SET_LL: of the first n entries, this one and no other changes. */
  method SetLL(ll16: array<ushort>, ll4: array<byte>, i: nat, x: nat, ghost n: nat)
    requires i < n <= ll16.Length <= 2 * ll4.Length && x < 0x10_0000
    modifies ll16, ll4
    ensures Entries(ll16[..n], ll4[..]) == old(Entries(ll16[..n], ll4[..]))[i := x]
    ensures forall k :: 0 <= k < ll16.Length && k != i ==> ll16[k] == old(ll16[k])
  {
    hide Nibble, WithNibble;
    ghost var a: seq<ushort>, b: seq<byte> := ll16[..n], ll4[..];
    var lo: ushort, hi: byte := x % 0x1_0000, WithNibble(ll4[i / 2], i % 2 == 1, x / 0x1_0000);
    ll16[i] := lo;
    ll4[i / 2] := hi;
    assert ll16[..n] == a[i := lo] && ll4[..] == b[i / 2 := hi];
    forall k | 0 <= k < n
      ensures Joined(ll16[k], ll4[k / 2], k % 2 == 1) == if k == i then x else Joined(a[k], b[k / 2], k % 2 == 1)
    {
      if k != i && k / 2 == i / 2 {
        assert (k % 2 == 1) == !(i % 2 == 1);
      }
    }
  }

  /** The chain o, T(o), T(T(o)), ... walked so far, without repetition. */
  ghost predicate Chain(t: seq<nat>, vis: seq<nat>) {
    && vis != []
    && (forall m :: 0 <= m < |vis| ==> vis[m] < |t|)
    && (forall m, l :: 0 <= m < l < |vis| ==> vis[m] != vis[l])
    && forall m :: 0 < m < |vis| ==> t[vis[m - 1]] == vis[m]
  }

  /** ll is t with the links into vis[1..] turned round. */
  ghost predicate Reversed(ll: seq<nat>, t: seq<nat>, vis: seq<nat>)
    requires Chain(t, vis)
  {
    && |ll| == |t|
    && (forall m :: 0 < m < |vis| ==> ll[vis[m]] == vis[m - 1])
    && forall x :: 0 <= x < |t| && x !in vis[1..] ==> ll[x] == t[x]
  }

  ghost predicate OneToOne(t: seq<nat>) {
    (forall x :: 0 <= x < |t| ==> t[x] < |t|) && forall x, y :: 0 <= x < |t| && 0 <= y < |t| && t[x] == t[y] ==> x == y
  }

  /** Following the chain either closes it at its start or reaches a new entry. */
  lemma ChainGrows(t: seq<nat>, vis: seq<nat>, j: nat)
    requires OneToOne(t) && Chain(t, vis) && j == t[vis[|vis| - 1]]
    ensures j != vis[0] ==> Chain(t, vis + [j])
  {
    if j != vis[0] {
      forall m | 0 <= m < |vis|
        ensures vis[m] != j
      {
        if m > 0 {
          assert t[vis[m - 1]] == vis[m];
        }
      }
    }
  }

  /** All links of the closed chain are turned round. */
  ghost predicate Turned(ll: seq<nat>, t: seq<nat>, vis: seq<nat>) {
    Chain(t, vis) && |ll| == |t| && forall m :: 0 <= m < |vis| ==> ll[vis[m]] in vis && t[ll[vis[m]]] == vis[m]
  }

  /** T^(-1) by pointer reversal along the cycle through o, in place. */
  method ReverseCycle(ll16: array<ushort>, ll4: array<byte>, o: nat, ghost n: nat) returns (ghost vis: seq<nat>)
    requires o < n <= ll16.Length <= 2 * ll4.Length && n <= 0x10_0000
    requires OneToOne(Entries(ll16[..n], ll4[..]))
    modifies ll16, ll4
    ensures Turned(Entries(ll16[..n], ll4[..]), old(Entries(ll16[..n], ll4[..])), vis) && vis[0] == o
  {
    ghost var t := Entries(ll16[..n], ll4[..]);
    var i := o;
    var j := GetLL(ll16, ll4, i, n);
    var first := true;
    vis := [o];
    assert vis[1..] == [];
    while first || i != o
      invariant Chain(t, vis) && vis[0] == o && j < |t|
      invariant first ==> i == o
      invariant first || i != o ==> i == vis[|vis| - 1] && j == t[i] && Reversed(Entries(ll16[..n], ll4[..]), t, vis)
      invariant !first && i == o ==> Turned(Entries(ll16[..n], ll4[..]), t, vis)
      decreases |t| - |vis|, first || i != o
    {
      ghost var ll := Entries(ll16[..n], ll4[..]);
      hide OneToOne, Chain, Reversed, Turned, Entries;
      ReverseNext(ll, t, vis, j);
      ChainShort(t, vis);
      var tmp := GetLL(ll16, ll4, j, n);
      SetLL(ll16, ll4, j, i, n);
      if j != o {
        vis := vis + [j];
        ChainShort(t, vis);
      }
      i, j := j, tmp;
      first := false;
    }
  }

  lemma ChainShort(t: seq<nat>, vis: seq<nat>)
    requires Chain(t, vis)
    ensures |vis| <= |t|
  {
    InjectiveCardinality<nat>(vis);
    assert forall x :: x in Elements(vis) ==> x in Range(|t|);
    SubsetCardinality<int>(Elements(vis), Range(|t|));
  }

  lemma ReverseNext(ll: seq<nat>, t: seq<nat>, vis: seq<nat>, j: nat)
    requires OneToOne(t) && Chain(t, vis) && Reversed(ll, t, vis) && j == t[vis[|vis| - 1]]
    ensures j < |ll| && ll[j] == t[j] < |t|
    ensures j != vis[0] ==> Chain(t, vis + [j]) && Reversed(ll[j := vis[|vis| - 1]], t, vis + [j])
    ensures j == vis[0] ==> Turned(ll[j := vis[|vis| - 1]], t, vis)
  {
    hide Reversed, Turned;
    ChainGrows(t, vis, j);
    StillForward(ll, t, vis, j);
    hide OneToOne, Chain;
    if j != vis[0] {
      ReverseExtend(ll, t, vis, j);
    } else {
      ReverseClose(ll, t, vis);
    }
  }

  lemma StillForward(ll: seq<nat>, t: seq<nat>, vis: seq<nat>, j: nat)
    requires OneToOne(t) && Chain(t, vis) && Reversed(ll, t, vis) && j == t[vis[|vis| - 1]]
    ensures j < |ll| == |t| && ll[j] == t[j] < |t|
  {
    forall m | 0 < m < |vis| ensures vis[m] != j {
      assert t[vis[m - 1]] == vis[m];
    }
    assert j !in vis[1..];
  }

  lemma ReverseExtend(ll: seq<nat>, t: seq<nat>, vis: seq<nat>, j: nat)
    requires Chain(t, vis) && Reversed(ll, t, vis) && j < |t| && Chain(t, vis + [j])
    ensures Reversed(ll[j := vis[|vis| - 1]], t, vis + [j])
  {
    var n := |vis|;
    var ll', vis' := ll[j := vis[n - 1]], vis + [j];
    assert vis'[1..] == vis[1..] + [j];
    forall m | 0 < m < n + 1 ensures vis'[m] < |t| && ll'[vis'[m]] == vis'[m - 1] {
      assert m < n ==> vis'[m] == vis[m] && ll[vis[m]] == vis[m - 1] && vis'[m] != vis'[n];
    }
  }

  lemma ReverseClose(ll: seq<nat>, t: seq<nat>, vis: seq<nat>)
    requires Chain(t, vis) && Reversed(ll, t, vis) && t[vis[|vis| - 1]] == vis[0]
    ensures Turned(ll[vis[0] := vis[|vis| - 1]], t, vis)
  {
    var ll' := ll[vis[0] := vis[|vis| - 1]];
    forall m | 0 <= m < |vis| ensures ll'[vis[m]] in vis && t[ll'[vis[m]]] == vis[m] {
      assert m > 0 ==> ll[vis[m]] == vis[m - 1] && t[vis[m - 1]] == vis[m];
    }
  }

  /** The rows the walk from o visits have their link; the other entries may still point the other way. */
  ghost predicate SmallTable(ll: seq<nat>, col: seq<byte>, o: nat) {
    && |ll| >= |col| > o
    && IsUnrank(col, Unrank(col))
    && forall k: nat :: ll[Row(Unrank(col), o, k)] == Unrank(col)[Row(Unrank(col), o, k)]
  }

  ghost predicate RanksUpTo(ll: seq<nat>, col: seq<byte>, i: nat)
    requires i <= |col|
  {
    |ll| == |col| && forall k :: 0 <= k < i ==> ll[k] == Rank(col, k)
  }

  /** The T vector: every position's rank, computed bucket by bucket. */
  method ComputeT(nblock: nat, cftab: array<nat>, ll16: array<ushort>, ll4: array<byte>, ghost col: seq<byte>)
    requires nblock == |col| <= ll16.Length <= 2 * ll4.Length && |col| <= 0x10_0000
    requires cftab.Length == 257 && forall c: nat :: c <= 256 ==> cftab[c] == CountLess(col, c)
    requires forall r :: 0 <= r < |col| ==> ll16[r] == col[r]
    modifies ll16, ll4
    ensures RanksUpTo(Entries(ll16[..nblock], ll4[..]), col, nblock)
  {
    var cftabCopy := new nat[257];
    for i := 0 to 257
      invariant forall c :: 0 <= c < i ==> cftabCopy[c] == CountLess(col, c)
      invariant forall r :: 0 <= r < nblock ==> ll16[r] == col[r]
    {
      cftabCopy[i] := cftab[i];
    }
    StartBuckets(cftabCopy[..], col);
    hide Rank, Count, CountLess, Placed, Joined;
    for i := 0 to nblock
      invariant fresh(cftabCopy) && cftabCopy.Length == 257
      invariant Placed(cftabCopy[..], col, i)
      invariant RanksUpTo(Entries(ll16[..nblock], ll4[..]), col, i)
      invariant forall r :: i <= r < nblock ==> ll16[r] == col[r]
    {
      ghost var a := cftabCopy[..];
      PlaceNext(a, col, i);
      var uc := ll16[i] as byte;
      var r := cftabCopy[uc];
      SetLL(ll16, ll4, i, r, nblock);
      cftabCopy[uc] := r + 1;
      assert cftabCopy[..] == a[uc := r + 1];
    }
  }

  lemma RanksOneToOne(ll: seq<nat>, col: seq<byte>)
    requires RanksUpTo(ll, col, |col|)
    ensures OneToOne(ll)
  {
    forall x | 0 <= x < |ll| ensures ll[x] < |ll| {
      RankBucket(col, x);
    }
    forall x, y | 0 <= x < |ll| && 0 <= y < |ll| && ll[x] == ll[y] ensures x == y {
      RankInjective(col, x, y);
    }
  }

  /** Turning the cycle through o round gives the walk its links. */
  lemma TurnedIsSmallTable(ll: seq<nat>, t: seq<nat>, vis: seq<nat>, col: seq<byte>, o: nat)
    requires RanksUpTo(t, col, |col|) && Turned(ll, t, vis) && vis[0] == o
    ensures SmallTable(ll, col, o)
  {
    UnrankInverse(col);
    forall k: nat
      ensures ll[Row(Unrank(col), o, k)] == Unrank(col)[Row(Unrank(col), o, k)]
    {
      RowOnCycle(ll, t, vis, col, o, k);
    }
  }

  lemma {:induction false} RowOnCycle(ll: seq<nat>, t: seq<nat>, vis: seq<nat>, col: seq<byte>, o: nat, k: nat)
    requires RanksUpTo(t, col, |col|) && Turned(ll, t, vis) && o in vis && o < |col| && IsUnrank(col, Unrank(col))
    ensures Row(Unrank(col), o, k) in vis
    ensures ll[Row(Unrank(col), o, k)] == Unrank(col)[Row(Unrank(col), o, k)]
    decreases k
  {
    hide Rank, Unrank, Turned;
    if k > 0 {
      RowOnCycle(ll, t, vis, col, o, k - 1);
      OnCycle(ll, t, vis, col, Row(Unrank(col), o, k - 1));
    }
    OnCycle(ll, t, vis, col, Row(Unrank(col), o, k));
  }

  lemma OnCycle(ll: seq<nat>, t: seq<nat>, vis: seq<nat>, col: seq<byte>, x: nat)
    requires RanksUpTo(t, col, |col|) && Turned(ll, t, vis) && IsUnrank(col, Unrank(col)) && x in vis
    ensures x < |ll| == |col| && ll[x] == Unrank(col)[x] && ll[x] in vis
  {
    hide Rank, Unrank;
    var m :| 0 <= m < |vis| && vis[m] == x;
    assert ll[vis[m]] in vis && t[ll[vis[m]]] == vis[m];
    RankInjective(col, ll[x], Unrank(col)[x]);
  }

  /** cftab is left as it is: BZ2_indexIntoF needs it. */
  method BuildSmall(nblock: nat, cftab: array<nat>, o: nat, ll16: array<ushort>, ll4: array<byte>, ghost col: seq<byte>)
    requires o < nblock == |col| <= ll16.Length <= 2 * ll4.Length && |col| <= 0x10_0000
    requires cftab.Length == 257 && forall c: nat :: c <= 256 ==> cftab[c] == CountLess(col, c)
    requires forall r :: 0 <= r < |col| ==> ll16[r] == col[r]
    modifies ll16, ll4
    ensures SmallTable(Entries(ll16[..nblock], ll4[..]), col, o)
  {
    hide Rank, Unrank, Count, CountLess, Entries, RanksUpTo, SmallTable, OneToOne, Turned;
    ComputeT(nblock, cftab, ll16, ll4, col);
    ghost var t := Entries(ll16[..nblock], ll4[..]);
    RanksOneToOne(t, col);
    ghost var vis := ReverseCycle(ll16, ll4, o, nblock);
    TurnedIsSmallTable(Entries(ll16[..nblock], ll4[..]), t, vis, col, o);
  }

  /** BZ2_indexIntoF: binary search for the bucket that holds a sorted position. */
  method IndexIntoF(indx: nat, cftab: array<nat>, ghost col: seq<byte>) returns (nb: byte)
    requires cftab.Length == 257 && (forall c: nat :: c <= 256 ==> cftab[c] == CountLess(col, c)) && indx < |col|
    ensures CountLess(col, nb) <= indx < CountLess(col, nb as nat + 1)
  {
    hide CountLess;
    CountLessAll(col);
    var lo, na := 0, 256;
    var first := true;
    while first || na - lo != 1
      invariant 0 <= lo < na <= 256 && cftab[lo] <= indx < cftab[na]
      invariant first ==> na - lo > 1
      decreases na - lo, first
    {
      var mid := (lo + na) / 2;
      if indx >= cftab[mid] {
        lo := mid;
      } else {
        na := mid;
      }
      first := false;
    }
    nb := lo;
  }

  /** The storage of a block while it is read and while it is delivered, in the layout chosen at initialisation. */
  class BlockTables {
    const small: bool
    var tt: array<word>
    var ll16: array<ushort>
    var ll4: array<byte>
    const cftab: array<nat>

    ghost function Repr(): set<object>
      reads this
    {
      {this, tt, ll16, ll4, cftab}
    }

    /** Room for n bytes. */
    ghost predicate Room(n: nat)
      reads this
    {
      && cftab.Length == 257
      && if small then n <= ll16.Length <= 2 * ll4.Length else n <= tt.Length
    }

    /** The last column, as far as it has been read. */
    ghost predicate Holds(col: seq<byte>)
      reads this, tt, ll16
    {
      && Room(|col|)
      && forall r :: 0 <= r < |col| ==> (if small then ll16[r] else tt[r]) == col[r]
    }

    constructor (small: bool)
      ensures this.small == small && Room(0) && fresh(Repr())
    {
      this.small := small;
      tt, ll16, ll4, cftab := new word[0], new ushort[0], new byte[0], new nat[257];
    }

    /** Once the block size is known. */
    method Allocate(blockSize100k: nat)
      requires cftab.Length == 257
      modifies this
      ensures Room(100000 * blockSize100k) && Holds([]) && fresh(Repr() - old(Repr()))
    {
      if small {
        ll16, ll4 := new ushort[100000 * blockSize100k], new byte[(1 + 100000 * blockSize100k) / 2];
      } else {
        tt := new word[100000 * blockSize100k];
      }
    }

    /** Store the next byte of the column. */
    method Put(nblock: nat, uc: byte, ghost col: seq<byte>)
      requires Holds(col) && nblock == |col| && Room(nblock + 1)
      modifies tt, ll16
      ensures Holds(col + [uc])
    {
      if small {
        ll16[nblock] := uc;
      } else {
        tt[nblock] := uc;
      }
    }

    /** The tables belong to the column. */
    ghost predicate Linking(col: seq<byte>, o: nat)
      reads this, tt, ll16, ll4, cftab
    {
      && Room(|col|)
      && if small
         then SmallTable(Entries(ll16[..|col|], ll4[..]), col, o) && forall c: nat :: c <= 256 ==> cftab[c] == CountLess(col, c)
         else FastTable(tt[..], col)
    }

    /** Build them in place of the column. */
    method Build(nblock: nat, unzftab: array<nat>, o: nat, ghost col: seq<byte>)
      requires Holds(col) && o < nblock == |col| <= 900000
      requires unzftab.Length == 256 && cftab != unzftab && forall c: byte :: unzftab[c] == Count(col, c)
      modifies tt, ll16, ll4, cftab
      ensures Linking(col, o)
    {
      hide SmallTable, FastTable, Entries, Count, CountLess;
      BucketStarts(cftab, unzftab, col);
      if small {
        BuildSmall(nblock, cftab, o, ll16, ll4, col);
      } else {
        BuildFast(tt, cftab, nblock, col);
      }
    }
  }
}
