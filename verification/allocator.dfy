/**
 * The Java class `BuddySystem`: an object holding the size of the managed
 * region and a mutable list of block records, whose methods scan, split,
 * sort and merge that list in place. Each list-changing method is proved to
 * leave the list that the matching function of `BuddySpec` describes; the
 * public operations `Allocate` and `Deallocate` also keep the invariant
 * `Valid()`.
 */
module Allocator {
  import opened Powers
  import opened Blocks
  import opened BuddySpec

  class BuddySystem {
    const totalMemory: int
    var memory: seq<MemoryBlock>

    /** The object invariant: the block list tiles `[0, totalMemory)` with power-of-two blocks. */
    ghost predicate Valid()
      reads this
    {
      IsPow2(totalMemory) && WellFormed(memory, totalMemory)
    }

    /**
     * One free block covering the whole region. Any size is accepted; the
     * invariant holds from the start when the size is a power of two.
     */
    constructor (totalMemory: int)
      ensures IsPow2(totalMemory) ==> Valid()
      ensures this.totalMemory == totalMemory
      ensures memory == [MemoryBlock(0, totalMemory, true, 0)]
    {
      this.totalMemory := totalMemory;
      memory := [MemoryBlock(0, totalMemory, true, 0)];
      new;
      if IsPow2(totalMemory) {
        assert IsLayout(memory, memory, totalMemory);
      }
    }

    /**
     * `roundUpToPowerOfTwo`: doubles from 1 until the request is reached,
     * giving the least power of two that is at least `size` (1 for any
     * request up to 1).
     */
    static method RoundUpToPowerOfTwo(size: int) returns (power: int)
      ensures power == RoundUp(size)
      ensures IsPow2(power) && size <= power
      ensures forall q :: IsPow2(q) && size <= q ==> power <= q
    {
      power := 1;
      while power < size
        invariant IsPow2(power) && power <= RoundUp(size)
        decreases size - power
      {
        Pow2Gap(power, RoundUp(size));
        power := power * 2;
      }
      RoundUpIsLeast(size, power);
      forall q | IsPow2(q) && size <= q ensures power <= q {
        RoundUpIsLeast(size, q);
      }
    }

    /** `split`: halves block `i` in place and appends its free right buddy. */
    method Split(i: nat)
      requires i < |memory|
      modifies this
      ensures memory == BuddySpec.Split(old(memory), i)
    {
      var block := memory[i];
      var newSize := block.size / 2;
      var buddy := MemoryBlock(block.start + newSize, newSize, true, 0);
      memory := memory[i := block.(size := newSize)];
      memory := memory + [buddy];
    }

    /** The splitting loop of `allocate`: halves block `i` until it is no larger than `need`. */
    method SplitDownTo(i: nat, need: int)
      requires i < |memory| && need >= 1
      modifies this
      ensures memory == SplitDown(old(memory), i, need)
    {
      while memory[i].size > need
        invariant i < |memory|
        invariant SplitDown(memory, i, need) == SplitDown(old(memory), i, need)
        decreases memory[i].size
      {
        Split(i);
      }
    }

    /**
     * `allocate`: first fit in list order, split down to the rounded size,
     * mark allocated with its internal fragmentation. Returns the address
     * of the block, or `None` ("not enough memory") leaving the list as it
     * was.
     */
    method Allocate(size: int) returns (address: Option<int>)
      modifies this
      ensures Allocation(memory, address) == BuddySpec.Allocate(old(memory), size)
      ensures address.None? ==> memory == old(memory)
      ensures old(Valid()) ==> Valid()
      ensures old(Valid()) ==> (address.None? <==> forall j :: 0 <= j < |old(memory)| ==> !Fits(old(memory)[j], RoundUp(size)))
      ensures old(Valid()) && address.Some? ==>
        var i := FirstFit(old(memory), RoundUp(size)).value;
        && address.value == old(memory)[i].start
        && |old(memory)| <= |memory|
        && memory[i] == MemoryBlock(old(memory)[i].start, RoundUp(size), false, RoundUp(size) - size)
        && (forall j :: 0 <= j < |old(memory)| && j != i ==> memory[j] == old(memory)[j])
        && (forall j :: |old(memory)| <= j < |memory| ==> memory[j].isFree)
    {
      var requestedSize := size;
      var need := RoundUpToPowerOfTwo(size);
      var i := 0;
      while i < |memory|
        invariant i <= |memory| && memory == old(memory)
        invariant forall j :: 0 <= j < i ==> !Fits(memory[j], need)
      {
        if memory[i].isFree && memory[i].size >= need {
          assert FirstFit(old(memory), need) == Some(i);
          SplitDownTo(i, need);
          memory := memory[i := memory[i].(isFree := false, fragmentation := memory[i].size - requestedSize)];
          address := Some(memory[i].start);
          if old(Valid()) {
            AllocateFirstFit(old(memory), totalMemory, size);
            AllocateKeepsWellFormed(old(memory), totalMemory, size);
          }
          return;
        }
        i := i + 1;
      }
      address := None;
      if old(Valid()) {
        AllocateFirstFit(old(memory), totalMemory, size);
      }
    }

    /**
     * `deallocate`: frees the first allocated block starting at `address`,
     * resets its fragmentation and merges. Returns false ("invalid
     * address"), leaving the list as it was, when there is no such block.
     */
    method Deallocate(address: int) returns (ok: bool)
      modifies this
      ensures Deallocation(memory, ok) == BuddySpec.Deallocate(old(memory), address)
      ensures ok <==> exists j :: 0 <= j < |old(memory)| && AllocatedAt(old(memory)[j], address)
      ensures !ok ==> memory == old(memory)
      ensures old(Valid()) ==> Valid()
      ensures old(Valid()) && ok ==> forall b: MemoryBlock :: !b.isFree ==>
                (b in memory <==> b in old(memory) && b.start != address)
    {
      var i := 0;
      while i < |memory|
        invariant i <= |memory| && memory == old(memory)
        invariant forall j :: 0 <= j < i ==> !AllocatedAt(memory[j], address)
      {
        if memory[i].start == address && !memory[i].isFree {
          assert FindAllocated(old(memory), address) == Some(i);
          memory := memory[i := memory[i].(isFree := true, fragmentation := 0)];
          Merge();
          ok := true;
          if old(Valid()) {
            DeallocateReleases(old(memory), totalMemory, address);
            DeallocateKeepsWellFormed(old(memory), totalMemory, address);
          }
          return;
        }
        i := i + 1;
      }
      ok := false;
    }

    /**
     * `merge`: sorts the list by start address, then scans adjacent pairs,
     * merging a free, equally large, contiguous pair into the left block and
     * stepping back so the enlarged block is compared with its new right
     * neighbour.
     */
    method Merge()
      modifies this
      ensures memory == BuddySpec.Merge(old(memory))
    {
      memory := SortByStart(memory);
      var i: int := 0;
      while i < |memory| - 1
        invariant 0 <= i
        invariant MergeFrom(memory, i) == BuddySpec.Merge(old(memory))
        decreases |memory|, |memory| - i
      {
        var current := memory[i];
        var next := memory[i + 1];
        if current.isFree && next.isFree && current.size == next.size && current.start + current.size == next.start {
          memory := memory[..i] + [current.(size := current.size * 2)] + memory[i + 2..];
          i := i - 1;
        }
        i := i + 1;
      }
    }
  }
}
