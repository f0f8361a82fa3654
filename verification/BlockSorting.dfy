/** BZ2_blockSort: a sorted order of the rotations, by whichever sort applies, and the place of the block itself. */
module BlockSorting {
  import opened Limits
  import opened Numbers
  import opened Permutations
  import opened Rotations
  import opened BucketBits
  import opened FallbackSorting
  import opened ComparisonLog
  import opened MainSorting

  /** Find the row that starts at position 0. */
  method FindOrigPtr(ptr: array<word>, nblock: nat) returns (origPtr: nat)
    requires 1 <= nblock <= ptr.Length && IsPermutation(ptr[..nblock], nblock)
    ensures origPtr < nblock && ptr[origPtr] == 0
  {
    ghost var p := ptr[..nblock];
    PermutationHits(p, nblock, 0);
    ghost var k :| 0 <= k < nblock && p[k] == 0;
    for i := 0 to nblock
      invariant i <= k
    {
      if ptr[i] == 0 {
        return i;
      }
      assert p[i] == ptr[i];
    }
    assert false;
  }

  /** The main sort has made more rounds than the work factor allows for a block of this size. */
  ghost predicate TooRepetitive(b: seq<byte>, workFactor: int, log: seq<Comparison>) {
    var budget := |b| * ((Min(Max(workFactor, 1), 100) - 1) / 3);
    Charged(b, budget, budget - Rounds(log), log) && AtMost(log, 14) && Rounds(log) > budget
  }

  lemma TooMany(b: seq<byte>, workFactor: int, log: seq<Comparison>, left: int)
    requires Charged(b, |b| * ((Min(Max(workFactor, 1), 100) - 1) / 3), left, log) && AtMost(log, 14) && left < 0
    ensures TooRepetitive(b, workFactor, log)
  {
    hide AtMost;
  }

  /** BZ2_blockSort. Blocks of 10000 bytes and more go to the main sort first; if that gives up, or the block is
      small, the fallback sort does the work, in arr2. The result is right whatever the work factor is. */
  method BlockSort(ptr: array<word>, arr2: array<word>, block: array<byte>, ftab: array<Word32>, nblock: nat, workFactor: int)
    returns (origPtr: nat, ghost log: seq<Comparison>)
    requires ptr != arr2 && 1 <= nblock <= 900000
    requires (ptr as object) != block
    requires nblock <= ptr.Length && nblock + N_OVERSHOOT <= arr2.Length && nblock + N_OVERSHOOT <= block.Length && ftab.Length >= nblock / 32 + 3
    modifies ptr, arr2, block, ftab
    ensures SortedRotations(old(block[..nblock]), ptr[..nblock]) && block[..nblock] == old(block[..nblock])
    ensures origPtr < nblock && ptr[origPtr] == 0
    ensures nblock >= 10000 ==> arr2[..] == old(arr2[..]) || TooRepetitive(old(block[..nblock]), workFactor, log)
    ensures nblock >= 10000 && DifferWithin(old(block[..nblock]), 20) ==> arr2[..] == old(arr2[..])
  {
    hide SortedRotations, Charged, Rounds, AtMost, DifferWithin;
    log := [];
    if nblock < 10000 {
      FallbackSort(ptr, arr2, block, ftab, nblock);
    } else {
      var i := nblock + N_OVERSHOOT;
      if i % 2 == 1 {
        i := i + 1;
      }
      // the quadrants lie behind the block and its overshoot, within the bytes of arr2
      assert i + 2 * (nblock + N_OVERSHOOT) <= 4 * arr2.Length;
      var quadrant := new ushort[nblock + N_OVERSHOOT];
      var wfact := if workFactor < 1 then 1 else workFactor;
      wfact := if wfact > 100 then 100 else wfact;
      var budgetInit := nblock * ((wfact - 1) / 3);
      var budget;
      budget, log := MainSort(ptr, block, quadrant, nblock, budgetInit);
      if budget < 0 {
        TooMany(block[..nblock], workFactor, log, budget);
        FallbackSort(ptr, arr2, block, ftab, nblock);
      }
    }
    SortedPermutation(block[..nblock], ptr[..nblock]);
    origPtr := FindOrigPtr(ptr, nblock);
  }

  lemma SortedPermutation(b: seq<byte>, f: seq<int>)
    requires SortedRotations(b, f)
    ensures IsPermutation(f, |b|)
  {
  }
}
