/**
 * Concrete runs of the allocator's operations, worked out on literal block
 * lists. They pin down behaviour that the general lemmas leave open: the
 * list order of the first-fit scan, and two ways in which `merge` leaves
 * blocks that an idealised buddy system would have coalesced differently.
 * Each run is taken one unfolding at a time, through the step lemmas below.
 */
module Scenarios {
  import opened Powers
  import opened Blocks
  import opened BuddySpec

  function Free(start: int, size: int): MemoryBlock
  {
    MemoryBlock(start, size, true, 0)
  }

  function Used(start: int, size: int, fragmentation: int): MemoryBlock
  {
    MemoryBlock(start, size, false, fragmentation)
  }

  // ------------------------------------------------------------ step lemmas

  /** One halving of the splitting loop. */
  lemma SplitDownStep(mem: seq<MemoryBlock>, i: nat, need: int, next: seq<MemoryBlock>)
    requires i < |mem| && need >= 1 && mem[i].size > need && Split(mem, i) == next
    ensures SplitDown(mem, i, need) == SplitDown(next, i, need)
  {
  }

  /** The splitting loop stops once the block is small enough. */
  lemma SplitDownDone(mem: seq<MemoryBlock>, i: nat, need: int)
    requires i < |mem| && need >= 1 && mem[i].size <= need
    ensures SplitDown(mem, i, need) == mem
  {
  }

  /** A successful `allocate`, given its scan result and its split-down list. */
  lemma AllocateAt(mem: seq<MemoryBlock>, size: int, need: int, i: nat, m: seq<MemoryBlock>, out: seq<MemoryBlock>)
    requires RoundUp(size) == need && FirstFit(mem, need) == Some(i)
    requires SplitDown(mem, i, need) == m
    requires i < |m| && out == m[i := m[i].(isFree := false, fragmentation := m[i].size - size)]
    ensures Allocate(mem, size) == Allocation(out, Some(m[i].start))
  {
  }

  /** The merge scan stops at the last pair. */
  lemma MergeFromDone(m: seq<MemoryBlock>, i: nat)
    requires i + 1 >= |m|
    ensures MergeFrom(m, i) == m
  {
  }

  /** The merge scan moves past a pair it cannot merge. */
  lemma MergeFromPass(m: seq<MemoryBlock>, i: nat)
    requires i + 1 < |m| && !Mergeable(m[i], m[i + 1])
    ensures MergeFrom(m, i) == MergeFrom(m, i + 1)
  {
  }

  /** The merge scan joins a mergeable pair and looks at the same position again. */
  lemma MergeFromJoin(m: seq<MemoryBlock>, i: nat, next: seq<MemoryBlock>)
    requires i + 1 < |m| && Mergeable(m[i], m[i + 1]) && MergePair(m, i) == next
    ensures MergeFrom(m, i) == MergeFrom(next, i)
  {
  }

  /** A successful `deallocate`, given the block found, the sorted list and the merge result. */
  lemma DeallocateAt(mem: seq<MemoryBlock>, address: int, i: nat, sorted: seq<MemoryBlock>, out: seq<MemoryBlock>)
    requires FindAllocated(mem, address) == Some(i)
    requires SortByStart(mem[i := mem[i].(isFree := true, fragmentation := 0)]) == sorted
    requires MergeFrom(sorted, 0) == out
    ensures Deallocate(mem, address) == Deallocation(out, true)
  {
  }

  // The rounded sizes of the requests below.

  lemma RoundUp64()
    ensures RoundUp(64) == 64
  {
    RoundUpExact(64, 64);
  }

  lemma RoundUp100()
    ensures RoundUp(100) == 128
  {
    RoundUpExact(100, 128);
  }

  lemma RoundUp128()
    ensures RoundUp(128) == 128
  {
    RoundUpExact(128, 128);
  }

  lemma RoundUp200()
    ensures RoundUp(200) == 256
  {
    RoundUpExact(200, 256);
  }

  lemma RoundUp256()
    ensures RoundUp(256) == 256
  {
    RoundUpExact(256, 256);
  }

  /** A block is aligned when its start address is a multiple of its size, as buddies are. */
  predicate Aligned(b: MemoryBlock)
    requires b.size > 0
  {
    b.start % b.size == 0
  }

  // ------------------------------------------------------------------- runs

  /** A region of 64 units: a request of 64 succeeds at address 0, a second one fails. */
  lemma Exhaustion()
    ensures Allocate([Free(0, 64)], 64) == Allocation([Used(0, 64, 0)], Some(0))
    ensures Allocate([Used(0, 64, 0)], 64) == Allocation([Used(0, 64, 0)], None)
  {
    assert [Used(0, 64, 0)] == [Free(0, 64)][0 := Free(0, 64).(isFree := false, fragmentation := 0)];
    assert FirstFit([Free(0, 64)], 64) == Some(0);
    assert FirstFit([Used(0, 64, 0)], 64) == None;
    RoundUp64();
    SplitDownDone([Free(0, 64)], 0, 64);
    AllocateAt([Free(0, 64)], 64, 64, 0, [Free(0, 64)], [Used(0, 64, 0)]);
  }

  /** A request of 13 units gets a block of 16 with internal fragmentation 3. */
  lemma FragmentationOfThirteen()
    ensures Allocate([Free(0, 16)], 13) == Allocation([Used(0, 16, 3)], Some(0))
  {
    assert [Used(0, 16, 3)] == [Free(0, 16)][0 := Free(0, 16).(isFree := false, fragmentation := 3)];
    assert FirstFit([Free(0, 16)], 16) == Some(0);
    RoundUpExact(13, 16);
    SplitDownDone([Free(0, 16)], 0, 16);
    AllocateAt([Free(0, 16)], 13, 16, 0, [Free(0, 16)], [Used(0, 16, 3)]);
  }

  // First run: a region of 1024, then allocate(200) and allocate(100).

  lemma SplitsFor200()
    ensures SplitDown([Free(0, 1024)], 0, 256) == [Free(0, 256), Free(512, 512), Free(256, 256)]
  {
    var m1 := [Free(0, 512), Free(512, 512)];
    var m2 := [Free(0, 256), Free(512, 512), Free(256, 256)];
    SplitDownStep([Free(0, 1024)], 0, 256, m1);
    SplitDownStep(m1, 0, 256, m2);
    SplitDownDone(m2, 0, 256);
  }

  lemma Allocate200Of1024()
    ensures Allocate([Free(0, 1024)], 200)
      == Allocation([Used(0, 256, 56), Free(512, 512), Free(256, 256)], Some(0))
  {
    var m2 := [Free(0, 256), Free(512, 512), Free(256, 256)];
    var out := [Used(0, 256, 56), Free(512, 512), Free(256, 256)];
    assert out == m2[0 := m2[0].(isFree := false, fragmentation := m2[0].size - 200)];
    assert FirstFit([Free(0, 1024)], 256) == Some(0);
    RoundUp200();
    SplitsFor200();
    AllocateAt([Free(0, 1024)], 200, 256, 0, m2, out);
  }

  lemma SplitsFor100()
    ensures SplitDown([Used(0, 256, 56), Free(512, 512), Free(256, 256)], 1, 128)
      == [Used(0, 256, 56), Free(512, 128), Free(256, 256), Free(768, 256), Free(640, 128)]
  {
    var n1 := [Used(0, 256, 56), Free(512, 256), Free(256, 256), Free(768, 256)];
    var n2 := [Used(0, 256, 56), Free(512, 128), Free(256, 256), Free(768, 256), Free(640, 128)];
    SplitDownStep([Used(0, 256, 56), Free(512, 512), Free(256, 256)], 1, 128, n1);
    SplitDownStep(n1, 1, 128, n2);
    SplitDownDone(n2, 1, 128);
  }

  lemma Allocate100After200()
    ensures Allocate([Used(0, 256, 56), Free(512, 512), Free(256, 256)], 100)
      == Allocation([Used(0, 256, 56), Used(512, 128, 28), Free(256, 256), Free(768, 256), Free(640, 128)], Some(512))
  {
    var n0 := [Used(0, 256, 56), Free(512, 512), Free(256, 256)];
    var n2 := [Used(0, 256, 56), Free(512, 128), Free(256, 256), Free(768, 256), Free(640, 128)];
    var out := [Used(0, 256, 56), Used(512, 128, 28), Free(256, 256), Free(768, 256), Free(640, 128)];
    assert out == n2[1 := n2[1].(isFree := false, fragmentation := n2[1].size - 100)];
    assert FirstFit(n0, 128) == Some(1);
    RoundUp100();
    SplitsFor100();
    AllocateAt(n0, 100, 128, 1, n2, out);
  }

  /**
   * First fit follows list order, not address order. On a region of 1024,
   * `allocate(200)` splits 1024 into 512 + 512 and then 256 + 256 and takes
   * the block at 0; the free 512 at address 512 now precedes the free 256
   * at address 256 in the list, so `allocate(100)` splits the 512 block
   * and returns address 512, although the free block at 256 was large
   * enough and lower in memory.
   */
  lemma FirstFitInListOrder()
    ensures Allocate([Free(0, 1024)], 200)
      == Allocation([Used(0, 256, 56), Free(512, 512), Free(256, 256)], Some(0))
    ensures Allocate([Used(0, 256, 56), Free(512, 512), Free(256, 256)], 100)
      == Allocation([Used(0, 256, 56), Used(512, 128, 28), Free(256, 256), Free(768, 256), Free(640, 128)], Some(512))
  {
    Allocate200Of1024();
    Allocate100After200();
  }

  // Second run: a region of 512; allocate 256 and 128, free 0, free 256.

  lemma AllocateHalfOf512()
    ensures Allocate([Free(0, 512)], 256) == Allocation([Used(0, 256, 0), Free(256, 256)], Some(0))
  {
    var m1 := [Free(0, 256), Free(256, 256)];
    var out := [Used(0, 256, 0), Free(256, 256)];
    assert out == m1[0 := m1[0].(isFree := false, fragmentation := m1[0].size - 256)];
    assert FirstFit([Free(0, 512)], 256) == Some(0);
    assert SplitDown([Free(0, 512)], 0, 256) == m1 by {
      SplitDownStep([Free(0, 512)], 0, 256, m1);
      SplitDownDone(m1, 0, 256);
    }
    RoundUp256();
    AllocateAt([Free(0, 512)], 256, 256, 0, m1, out);
  }

  lemma AllocateQuarterAfterHalf()
    ensures Allocate([Used(0, 256, 0), Free(256, 256)], 128)
      == Allocation([Used(0, 256, 0), Used(256, 128, 0), Free(384, 128)], Some(256))
  {
    var n0 := [Used(0, 256, 0), Free(256, 256)];
    var n1 := [Used(0, 256, 0), Free(256, 128), Free(384, 128)];
    var out := [Used(0, 256, 0), Used(256, 128, 0), Free(384, 128)];
    assert out == n1[1 := n1[1].(isFree := false, fragmentation := n1[1].size - 128)];
    assert FirstFit(n0, 128) == Some(1);
    assert SplitDown(n0, 1, 128) == n1 by {
      SplitDownStep(n0, 1, 128, n1);
      SplitDownDone(n1, 1, 128);
    }
    RoundUp128();
    AllocateAt(n0, 128, 128, 1, n1, out);
  }

  lemma MergeNothingAfterFreeingZero()
    ensures MergeFrom([Free(0, 256), Used(256, 128, 0), Free(384, 128)], 0)
      == [Free(0, 256), Used(256, 128, 0), Free(384, 128)]
  {
    var freed := [Free(0, 256), Used(256, 128, 0), Free(384, 128)];
    MergeFromPass(freed, 0);
    MergeFromPass(freed, 1);
    MergeFromDone(freed, 2);
  }

  lemma FreeFirstHalf()
    ensures Deallocate([Used(0, 256, 0), Used(256, 128, 0), Free(384, 128)], 0)
      == Deallocation([Free(0, 256), Used(256, 128, 0), Free(384, 128)], true)
  {
    var mem := [Used(0, 256, 0), Used(256, 128, 0), Free(384, 128)];
    var freed := [Free(0, 256), Used(256, 128, 0), Free(384, 128)];
    assert mem[0 := mem[0].(isFree := true, fragmentation := 0)] == freed;
    assert FindAllocated(mem, 0) == Some(0);
    assert Tiles(freed, 512);
    LayoutOf(freed, freed, 512);
    MergeNothingAfterFreeingZero();
    DeallocateAt(mem, 0, 0, freed, freed);
  }

  lemma JoinRightQuarters()
    ensures MergePair([Free(0, 256), Free(256, 128), Free(384, 128)], 1) == [Free(0, 256), Free(256, 256)]
  {
  }

  lemma MergeAfterFreeing256()
    ensures MergeFrom([Free(0, 256), Free(256, 128), Free(384, 128)], 0) == [Free(0, 256), Free(256, 256)]
  {
    var freed := [Free(0, 256), Free(256, 128), Free(384, 128)];
    var merged := [Free(0, 256), Free(256, 256)];
    JoinRightQuarters();
    MergeFromPass(freed, 0);
    MergeFromJoin(freed, 1, merged);
    MergeFromDone(merged, 1);
  }

  lemma FreeThirdQuarter()
    ensures Deallocate([Free(0, 256), Used(256, 128, 0), Free(384, 128)], 256)
      == Deallocation([Free(0, 256), Free(256, 256)], true)
  {
    var mem := [Free(0, 256), Used(256, 128, 0), Free(384, 128)];
    var freed := [Free(0, 256), Free(256, 128), Free(384, 128)];
    assert mem[1 := mem[1].(isFree := true, fragmentation := 0)] == freed;
    assert FindAllocated(mem, 256) == Some(1);
    assert Tiles(freed, 512);
    LayoutOf(freed, freed, 512);
    MergeAfterFreeing256();
    DeallocateAt(mem, 256, 1, freed, [Free(0, 256), Free(256, 256)]);
  }

  /**
   * After merging the pair at index `i` the scan never compares the merged
   * block with its left neighbour. On a region of 512: allocate 256 (at 0),
   * allocate 128 (at 256), free 0, free 256. The final merge joins the two
   * 128 blocks into a 256 block at 256 but leaves it beside the free 256
   * block at 0: two free, equally large, adjacent blocks remain.
   */
  lemma MergeDoesNotLookBack()
    ensures Allocate([Free(0, 512)], 256) == Allocation([Used(0, 256, 0), Free(256, 256)], Some(0))
    ensures Allocate([Used(0, 256, 0), Free(256, 256)], 128)
      == Allocation([Used(0, 256, 0), Used(256, 128, 0), Free(384, 128)], Some(256))
    ensures Deallocate([Used(0, 256, 0), Used(256, 128, 0), Free(384, 128)], 0)
      == Deallocation([Free(0, 256), Used(256, 128, 0), Free(384, 128)], true)
    ensures Deallocate([Free(0, 256), Used(256, 128, 0), Free(384, 128)], 256)
      == Deallocation([Free(0, 256), Free(256, 256)], true)
    ensures Mergeable(Free(0, 256), Free(256, 256))
  {
    AllocateHalfOf512();
    AllocateQuarterAfterHalf();
    FreeFirstHalf();
    FreeThirdQuarter();
  }

  // Third run: a region of 512; allocate 128 twice, free 256.

  lemma AllocateEighthOf512()
    ensures Allocate([Free(0, 512)], 128)
      == Allocation([Used(0, 128, 0), Free(256, 256), Free(128, 128)], Some(0))
  {
    var m1 := [Free(0, 256), Free(256, 256)];
    var m2 := [Free(0, 128), Free(256, 256), Free(128, 128)];
    var out := [Used(0, 128, 0), Free(256, 256), Free(128, 128)];
    assert out == m2[0 := m2[0].(isFree := false, fragmentation := m2[0].size - 128)];
    assert FirstFit([Free(0, 512)], 128) == Some(0);
    assert SplitDown([Free(0, 512)], 0, 128) == m2 by {
      SplitDownStep([Free(0, 512)], 0, 128, m1);
      SplitDownStep(m1, 0, 128, m2);
      SplitDownDone(m2, 0, 128);
    }
    RoundUp128();
    AllocateAt([Free(0, 512)], 128, 128, 0, m2, out);
  }

  lemma AllocateSecondEighth()
    ensures Allocate([Used(0, 128, 0), Free(256, 256), Free(128, 128)], 128)
      == Allocation([Used(0, 128, 0), Used(256, 128, 0), Free(128, 128), Free(384, 128)], Some(256))
  {
    var n0 := [Used(0, 128, 0), Free(256, 256), Free(128, 128)];
    var n1 := [Used(0, 128, 0), Free(256, 128), Free(128, 128), Free(384, 128)];
    var out := [Used(0, 128, 0), Used(256, 128, 0), Free(128, 128), Free(384, 128)];
    assert out == n1[1 := n1[1].(isFree := false, fragmentation := n1[1].size - 128)];
    assert FirstFit(n0, 128) == Some(1);
    assert SplitDown(n0, 1, 128) == n1 by {
      SplitDownStep(n0, 1, 128, n1);
      SplitDownDone(n1, 1, 128);
    }
    RoundUp128();
    AllocateAt(n0, 128, 128, 1, n1, out);
  }

  lemma UnalignedFreePermuted()
    ensures multiset([Used(0, 128, 0), Free(128, 128), Free(256, 128), Free(384, 128)])
      == multiset([Used(0, 128, 0), Free(256, 128), Free(128, 128), Free(384, 128)])
  {
  }

  lemma UnalignedFreeTiles()
    ensures Tiles([Used(0, 128, 0), Free(128, 128), Free(256, 128), Free(384, 128)], 512)
  {
  }

  lemma SortUnalignedFree()
    ensures SortByStart([Used(0, 128, 0), Free(256, 128), Free(128, 128), Free(384, 128)])
      == [Used(0, 128, 0), Free(128, 128), Free(256, 128), Free(384, 128)]
  {
    UnalignedFreePermuted();
    UnalignedFreeTiles();
    LayoutOf([Used(0, 128, 0), Free(256, 128), Free(128, 128), Free(384, 128)],
      [Used(0, 128, 0), Free(128, 128), Free(256, 128), Free(384, 128)], 512);
  }

  lemma JoinUnalignedPair()
    ensures MergePair([Used(0, 128, 0), Free(128, 128), Free(256, 128), Free(384, 128)], 1)
      == [Used(0, 128, 0), Free(128, 256), Free(384, 128)]
  {
  }

  lemma MergeUnalignedPair()
    ensures MergeFrom([Used(0, 128, 0), Free(128, 128), Free(256, 128), Free(384, 128)], 0)
      == [Used(0, 128, 0), Free(128, 256), Free(384, 128)]
  {
    var sorted := [Used(0, 128, 0), Free(128, 128), Free(256, 128), Free(384, 128)];
    var merged := [Used(0, 128, 0), Free(128, 256), Free(384, 128)];
    JoinUnalignedPair();
    MergeFromPass(sorted, 0);
    MergeFromJoin(sorted, 1, merged);
    MergeFromPass(merged, 1);
    MergeFromDone(merged, 2);
  }

  lemma FreeSecondEighth()
    ensures Deallocate([Used(0, 128, 0), Used(256, 128, 0), Free(128, 128), Free(384, 128)], 256)
      == Deallocation([Used(0, 128, 0), Free(128, 256), Free(384, 128)], true)
  {
    var mem := [Used(0, 128, 0), Used(256, 128, 0), Free(128, 128), Free(384, 128)];
    var freed := [Used(0, 128, 0), Free(256, 128), Free(128, 128), Free(384, 128)];
    var sorted := [Used(0, 128, 0), Free(128, 128), Free(256, 128), Free(384, 128)];
    assert mem[1 := mem[1].(isFree := true, fragmentation := 0)] == freed;
    assert FindAllocated(mem, 256) == Some(1);
    SortUnalignedFree();
    MergeUnalignedPair();
    DeallocateAt(mem, 256, 1, sorted, [Used(0, 128, 0), Free(128, 256), Free(384, 128)]);
  }

  /**
   * `merge` does not check that two neighbours are buddies (halves of one
   * aligned block). On a region of 512: allocate 128 twice (the second,
   * by list order, from the block at 256), then free 256. The blocks at
   * 128 and 256 are merged into a 256 block starting at 128, an address
   * that is not a multiple of its size.
   */
  lemma MergeIgnoresAlignment()
    ensures Allocate([Free(0, 512)], 128)
      == Allocation([Used(0, 128, 0), Free(256, 256), Free(128, 128)], Some(0))
    ensures Allocate([Used(0, 128, 0), Free(256, 256), Free(128, 128)], 128)
      == Allocation([Used(0, 128, 0), Used(256, 128, 0), Free(128, 128), Free(384, 128)], Some(256))
    ensures Deallocate([Used(0, 128, 0), Used(256, 128, 0), Free(128, 128), Free(384, 128)], 256)
      == Deallocation([Used(0, 128, 0), Free(128, 256), Free(384, 128)], true)
    ensures !Aligned(Free(128, 256))
  {
    assert !Aligned(Free(128, 256)) by {
      assert Free(128, 256).start == 128 && Free(128, 256).size == 256;
    }
    AllocateEighthOf512();
    AllocateSecondEighth();
    FreeSecondEighth();
  }

  // Fourth run: from the end state of the second, allocate 256 and free it again.

  lemma AllocateLowerHalf()
    ensures Allocate([Free(0, 256), Free(256, 256)], 256)
      == Allocation([Used(0, 256, 0), Free(256, 256)], Some(0))
  {
    var mem := [Free(0, 256), Free(256, 256)];
    var out := [Used(0, 256, 0), Free(256, 256)];
    assert out == mem[0 := mem[0].(isFree := false, fragmentation := mem[0].size - 256)];
    assert FirstFit(mem, 256) == Some(0);
    RoundUp256();
    SplitDownDone(mem, 0, 256);
    AllocateAt(mem, 256, 256, 0, mem, out);
  }

  lemma JoinHalves()
    ensures MergePair([Free(0, 256), Free(256, 256)], 0) == [Free(0, 512)]
  {
  }

  lemma FreeLowerHalf()
    ensures Deallocate([Used(0, 256, 0), Free(256, 256)], 0) == Deallocation([Free(0, 512)], true)
  {
    var mem := [Used(0, 256, 0), Free(256, 256)];
    var freed := [Free(0, 256), Free(256, 256)];
    assert mem[0 := mem[0].(isFree := true, fragmentation := 0)] == freed;
    assert FindAllocated(mem, 0) == Some(0);
    assert Tiles(freed, 512);
    LayoutOf(freed, freed, 512);
    JoinHalves();
    MergeFromJoin(freed, 0, [Free(0, 512)]);
    MergeFromDone([Free(0, 512)], 0);
    DeallocateAt(mem, 0, 0, freed, [Free(0, 512)]);
  }

  /**
   * Allocating and at once freeing the returned address need not restore
   * the block list. The list `[Free(0, 256), Free(256, 256)]`, reached by
   * `MergeDoesNotLookBack`, gives the 256 block at 0; freeing it merges
   * the two halves, which the earlier merge had left apart, into one block
   * of 512. `BuddySpec.AllocateThenDeallocate` states what is restored:
   * the allocated blocks.
   */
  lemma AllocateFreeDoesNotRestore()
    ensures Allocate([Free(0, 256), Free(256, 256)], 256)
      == Allocation([Used(0, 256, 0), Free(256, 256)], Some(0))
    ensures Deallocate([Used(0, 256, 0), Free(256, 256)], 0) == Deallocation([Free(0, 512)], true)
    ensures [Free(0, 512)] != [Free(0, 256), Free(256, 256)]
  {
    AllocateLowerHalf();
    FreeLowerHalf();
    assert [Free(0, 512)][0] != [Free(0, 256), Free(256, 256)][0];
  }

  /**
   * A request of 0 or less is not rejected: it rounds up to 1, so the
   * allocator hands out a block of 1 with fragmentation `1 - size`.
   */
  lemma NonPositiveRequest()
    ensures Allocate([Free(0, 2)], 0) == Allocation([Used(0, 1, 1), Free(1, 1)], Some(0))
    ensures Allocate([Free(0, 1)], -3) == Allocation([Used(0, 1, 4)], Some(0))
  {
    var m1 := [Free(0, 1), Free(1, 1)];
    var out := [Used(0, 1, 1), Free(1, 1)];
    assert out == m1[0 := m1[0].(isFree := false, fragmentation := m1[0].size - 0)];
    assert FirstFit([Free(0, 2)], 1) == Some(0);
    SplitDownStep([Free(0, 2)], 0, 1, m1);
    SplitDownDone(m1, 0, 1);
    AllocateAt([Free(0, 2)], 0, 1, 0, m1, out);
    assert [Used(0, 1, 4)] == [Free(0, 1)][0 := Free(0, 1).(isFree := false, fragmentation := 1 - (-3))];
    assert FirstFit([Free(0, 1)], 1) == Some(0);
    SplitDownDone([Free(0, 1)], 0, 1);
    AllocateAt([Free(0, 1)], -3, 1, 0, [Free(0, 1)], [Used(0, 1, 4)]);
  }
}
