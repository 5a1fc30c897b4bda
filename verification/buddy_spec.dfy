/**
 * The buddy allocator's operations as functions on its block list: what
 * `split`, `allocate`, `merge` and `deallocate` leave behind, and the
 * properties proved about them. The class in module `Allocator` performs
 * the same operations in place and is proved to agree with these.
 */
module BuddySpec {
  import opened Powers
  import opened Blocks

  datatype Option<T> = None | Some(value: T)

  /** A free block at least `need` units long (the test in `allocate`'s scan). */
  predicate Fits(b: MemoryBlock, need: int)
  {
    b.isFree && b.size >= need
  }

  /** Index of the first block, in list order, that fits `need`. */
  function FirstFit(mem: seq<MemoryBlock>, need: int): (r: Option<nat>)
    ensures r.Some? ==> r.value < |mem| && Fits(mem[r.value], need)
    ensures r.Some? ==> forall j :: 0 <= j < r.value ==> !Fits(mem[j], need)
    ensures r.None? ==> forall j :: 0 <= j < |mem| ==> !Fits(mem[j], need)
  {
    if mem == [] then None
    else if Fits(mem[0], need) then Some(0)
    else match FirstFit(mem[1..], need)
      case None => None
      case Some(i) => Some(i + 1)
  }

  /** An allocated block starting at `address` (the test in `deallocate`'s scan). */
  predicate AllocatedAt(b: MemoryBlock, address: int)
  {
    b.start == address && !b.isFree
  }

  /** Index of the first block, in list order, allocated at `address`. */
  function FindAllocated(mem: seq<MemoryBlock>, address: int): (r: Option<nat>)
    ensures r.Some? ==> r.value < |mem| && AllocatedAt(mem[r.value], address)
    ensures r.Some? ==> forall j :: 0 <= j < r.value ==> !AllocatedAt(mem[j], address)
    ensures r.None? ==> forall j :: 0 <= j < |mem| ==> !AllocatedAt(mem[j], address)
  {
    if mem == [] then None
    else if AllocatedAt(mem[0], address) then Some(0)
    else match FindAllocated(mem[1..], address)
      case None => None
      case Some(i) => Some(i + 1)
  }

  // ---------------------------------------------------------------- split

  /**
   * `split`: block `i` keeps its start and is halved in place; a free
   * right buddy of the same halved size is appended to the list. For a
   * block of even size the two halves cover exactly the old block.
   */
  function Split(mem: seq<MemoryBlock>, i: nat): (r: seq<MemoryBlock>)
    requires i < |mem|
    ensures |r| == |mem| + 1
    ensures r[i] == mem[i].(size := mem[i].size / 2)
    ensures r[|mem|] == MemoryBlock(mem[i].start + mem[i].size / 2, mem[i].size / 2, true, 0)
    ensures forall j :: 0 <= j < |mem| && j != i ==> r[j] == mem[j]
    ensures mem[i].size % 2 == 0 ==>
              r[i].size + r[|mem|].size == mem[i].size &&
              End(r[i]) == r[|mem|].start && End(r[|mem|]) == End(mem[i])
  {
    var half := mem[i].size / 2;
    mem[i := mem[i].(size := half)] + [MemoryBlock(mem[i].start + half, half, true, 0)]
  }

  /** Helper: cutting block `k` of a tiling into two halves gives a tiling. */
  lemma TilesSplit(L: seq<MemoryBlock>, total: int, k: nat, left: MemoryBlock, right: MemoryBlock)
    requires Tiles(L, total) && k < |L|
    requires left.start == L[k].start && left.size > 0 && right.size > 0
    requires right.start == End(left) && End(right) == End(L[k])
    ensures Tiles(L[..k] + [left, right] + L[k + 1..], total)
  {
    var L' := L[..k] + [left, right] + L[k + 1..];
    assert forall q :: 0 <= q < k ==> L'[q] == L[q];
    assert L'[k] == left && L'[k + 1] == right;
    assert forall q :: k + 1 < q < |L'| ==> L'[q] == L[q - 1];
    forall q | 0 < q < |L'| ensures End(L'[q - 1]) == L'[q].start {
      if q < k {
        assert End(L[q - 1]) == L[q].start;
      } else if q == k {
        assert End(L[k - 1]) == L[k].start;
      } else if q == k + 2 {
        assert End(L[k]) == L[k + 1].start;
      } else if q > k + 2 {
        assert End(L[q - 2]) == L[q - 1].start;
      }
    }
  }

  /** Helper: replacing block `k` of a tiling by one of the same extent gives a tiling. */
  lemma TilesReplace(L: seq<MemoryBlock>, total: int, k: nat, nb: MemoryBlock)
    requires Tiles(L, total) && k < |L|
    requires nb.start == L[k].start && nb.size == L[k].size
    ensures Tiles(L[k := nb], total)
  {
    var L' := L[k := nb];
    forall q | 0 < q < |L'| ensures End(L'[q - 1]) == L'[q].start {
      assert End(L[q - 1]) == L[q].start;
    }
  }

  /** Helper: a list built from well-formed blocks of `mem` and of `extra` is well formed. */
  lemma AllOKFrom(r: seq<MemoryBlock>, mem: seq<MemoryBlock>, extra: seq<MemoryBlock>)
    requires AllOK(mem) && AllOK(extra)
    requires forall x | x in r :: x in mem || x in extra
    ensures AllOK(r)
  {
  }

  /** Helper: replacing element `k` by the blocks `news` trades one copy of it for them. */
  lemma SplicedMultiset(s: seq<MemoryBlock>, k: nat, news: seq<MemoryBlock>)
    requires k < |s|
    ensures multiset(s[..k] + news + s[k + 1..]) == multiset(s) - multiset{s[k]} + multiset(news)
  {
    assert s == s[..k] + [s[k]] + s[k + 1..];
  }

  /** Helper for `SplitKeepsWellFormed`: the layout part. */
  lemma SplitKeepsLayout(mem: seq<MemoryBlock>, L: seq<MemoryBlock>, total: int, i: nat)
    requires IsLayout(L, mem, total) && i < |mem|
    requires mem[i].size > 1 && mem[i].size % 2 == 0
    ensures exists L' :: IsLayout(L', Split(mem, i), total)
  {
    var b := mem[i];
    var h := b.size / 2;
    assert h + h == b.size;
    var k := IndexOf(L, b);
    var left := b.(size := h);
    var right := MemoryBlock(b.start + h, h, true, 0);
    TilesSplit(L, total, k, left, right);
    var L' := L[..k] + [left, right] + L[k + 1..];
    var m' := Split(mem, i);
    assert multiset(m') == multiset(L') by {
      SplicedMultiset(L, k, [left, right]);
      assert m' == mem[i := left] + [right];
    }
    assert IsLayout(L', m', total);
  }

  /** Helper for `SplitKeepsWellFormed`: the per-block part. */
  lemma SplitKeepsBlocksOK(mem: seq<MemoryBlock>, i: nat)
    requires AllOK(mem) && i < |mem| && mem[i].size > 1
    ensures AllOK(Split(mem, i))
  {
    var m' := Split(mem, i);
    var b := mem[i];
    assert BlockOK(b);
    assert BlockOK(m'[i]) && BlockOK(m'[|mem|]);
    forall x | x in m' ensures BlockOK(x) {
      var j :| 0 <= j < |m'| && m'[j] == x;
      if j < |mem| && j != i {
        assert x == mem[j];
      }
    }
  }

  /** Splitting a block of a well-formed list keeps the list well formed. */
  lemma SplitKeepsWellFormed(mem: seq<MemoryBlock>, total: int, i: nat)
    requires WellFormed(mem, total) && i < |mem| && mem[i].size > 1
    ensures WellFormed(Split(mem, i), total)
  {
    assert BlockOK(mem[i]);
    var L :| IsLayout(L, mem, total);
    SplitKeepsLayout(mem, L, total, i);
    SplitKeepsBlocksOK(mem, i);
  }

  /**
   * The inner loop of `allocate`: split block `i` while it is larger than
   * `need`.
   */
  function SplitDown(mem: seq<MemoryBlock>, i: nat, need: int): (r: seq<MemoryBlock>)
    requires i < |mem| && need >= 1
    ensures |mem| <= |r| && r[i].start == mem[i].start
    decreases mem[i].size
  {
    if mem[i].size > need then SplitDown(Split(mem, i), i, need) else mem
  }

  /**
   * With power-of-two sizes, splitting stops exactly at `need`; the other
   * blocks of the list are untouched and every appended block is free.
   */
  lemma {:induction false} SplitDownExact(mem: seq<MemoryBlock>, i: nat, need: int)
    requires i < |mem| && IsPow2(need) && IsPow2(mem[i].size) && need <= mem[i].size
    ensures var r := SplitDown(mem, i, need);
      && r[i] == mem[i].(size := need)
      && (forall j :: 0 <= j < |mem| && j != i ==> r[j] == mem[j])
      && (forall j :: |mem| <= j < |r| ==> r[j].isFree && r[j].fragmentation == 0)
    decreases mem[i].size
  {
    if mem[i].size > need {
      Pow2Gap(need, mem[i].size);
      var m := Split(mem, i);
      SplitDownExact(m, i, need);
    }
  }

  lemma {:induction false} SplitDownKeepsWellFormed(mem: seq<MemoryBlock>, total: int, i: nat, need: int)
    requires WellFormed(mem, total) && i < |mem| && need >= 1
    ensures WellFormed(SplitDown(mem, i, need), total)
    decreases mem[i].size
  {
    if mem[i].size > need {
      SplitKeepsWellFormed(mem, total, i);
      SplitDownKeepsWellFormed(Split(mem, i), total, i, need);
    }
  }

  /**
   * Replacing a block by one with the same extent that is itself well
   * formed (flipping it between free and allocated) keeps the list well
   * formed.
   */
  lemma ReplaceKeepsWellFormed(mem: seq<MemoryBlock>, total: int, i: nat, nb: MemoryBlock)
    requires WellFormed(mem, total) && i < |mem|
    requires nb.start == mem[i].start && nb.size == mem[i].size && BlockOK(nb)
    ensures WellFormed(mem[i := nb], total)
  {
    var L :| IsLayout(L, mem, total);
    var L' := ReplaceKeepsLayout(mem, L, total, i, nb);
    ReplaceKeepsBlocksOK(mem, i, nb);
  }

  /** Helper: replacing a block in `mem` and in its layout keeps a layout. */
  lemma ReplaceKeepsLayout(mem: seq<MemoryBlock>, L: seq<MemoryBlock>, total: int, i: nat, nb: MemoryBlock)
    returns (L': seq<MemoryBlock>)
    requires IsLayout(L, mem, total) && i < |mem|
    requires nb.start == mem[i].start && nb.size == mem[i].size
    ensures IsLayout(L', mem[i := nb], total)
  {
    var k := IndexOf(L, mem[i]);
    TilesReplace(L, total, k, nb);
    assert multiset(L[k := nb]) == multiset(L) - multiset{mem[i]} + multiset{nb};
    assert multiset(mem[i := nb]) == multiset(mem) - multiset{mem[i]} + multiset{nb};
    L' := L[k := nb];
  }

  /** Helper: a well-formed replacement keeps every block well formed. */
  lemma ReplaceKeepsBlocksOK(mem: seq<MemoryBlock>, i: nat, nb: MemoryBlock)
    requires AllOK(mem) && i < |mem| && BlockOK(nb)
    ensures AllOK(mem[i := nb])
  {
    var m' := mem[i := nb];
    forall x | x in m' ensures BlockOK(x) {
      var j := IndexOf(m', x);
      if j != i {
        assert mem[j] in mem;
      }
    }
  }

  // ------------------------------------------------------------- allocate

  /** Outcome of `allocate`: the new block list and the address handed out. */
  datatype Allocation = Allocation(memory: seq<MemoryBlock>, address: Option<int>)

  /**
   * `allocate(size)`: round the request up to a power of two, take the
   * first free block in list order that is large enough, split it down to
   * the rounded size, mark it allocated and record the unused remainder as
   * its internal fragmentation. Without such a block nothing changes.
   */
  function Allocate(mem: seq<MemoryBlock>, size: int): (r: Allocation)
    ensures r.address.Some? <==> FirstFit(mem, RoundUp(size)).Some?
    ensures r.address.None? ==> r.memory == mem
    ensures |mem| <= |r.memory|
    ensures r.address.Some? ==>
      var i := FirstFit(mem, RoundUp(size)).value;
      && r.address.value == mem[i].start
      && r.memory[i].start == mem[i].start
      && !r.memory[i].isFree
      && r.memory[i].fragmentation == r.memory[i].size - size
  {
    var need := RoundUp(size);
    match FirstFit(mem, need)
    case None => Allocation(mem, None)
    case Some(i) =>
      var m := SplitDown(mem, i, need);
      Allocation(m[i := m[i].(isFree := false, fragmentation := m[i].size - size)], Some(m[i].start))
  }

  /**
   * What `allocate` does to a well-formed list: it fails, changing
   * nothing, exactly when no free block is large enough; otherwise the
   * first fitting block becomes an allocated block of the rounded size at
   * the same address, with fragmentation `RoundUp(size) - size`, every
   * other block of the old list is unchanged and every block appended by
   * splitting is free.
   */
  lemma AllocateFirstFit(mem: seq<MemoryBlock>, total: int, size: int)
    requires WellFormed(mem, total)
    ensures var need, out := RoundUp(size), Allocate(mem, size);
      && (out.address.None? <==> forall j :: 0 <= j < |mem| ==> !Fits(mem[j], need))
      && (out.address.None? ==> out.memory == mem)
      && (out.address.Some? ==> FirstFit(mem, need).Some?)
    ensures var need, out := RoundUp(size), Allocate(mem, size);
      FirstFit(mem, need).Some? ==>
        var i := FirstFit(mem, need).value;
        && |mem| <= |out.memory|
        && out.address == Some(mem[i].start)
        && out.memory[i] == MemoryBlock(mem[i].start, need, false, need - size)
        && (forall j :: 0 <= j < |mem| && j != i ==> out.memory[j] == mem[j])
        && (forall j :: |mem| <= j < |out.memory| ==> out.memory[j].isFree)
  {
    var need := RoundUp(size);
    match FirstFit(mem, need)
    case None =>
    case Some(i) =>
      assert BlockOK(mem[i]);
      SplitDownExact(mem, i, need);
  }

  /** `allocate` keeps a well-formed list well formed, whether it succeeds or not. */
  lemma AllocateKeepsWellFormed(mem: seq<MemoryBlock>, total: int, size: int)
    requires WellFormed(mem, total)
    ensures WellFormed(Allocate(mem, size).memory, total)
  {
    var need := RoundUp(size);
    match FirstFit(mem, need)
    case None =>
    case Some(i) =>
      assert BlockOK(mem[i]);
      SplitDownExact(mem, i, need);
      SplitDownKeepsWellFormed(mem, total, i, need);
      var m := SplitDown(mem, i, need);
      ReplaceKeepsWellFormed(m, total, i, m[i].(isFree := false, fragmentation := m[i].size - size));
  }

  // ---------------------------------------------------------------- merge

  /** The test in `merge`: two free, equally large, address-adjacent blocks. */
  predicate Mergeable(current: MemoryBlock, next: MemoryBlock)
  {
    current.isFree && next.isFree && current.size == next.size && End(current) == next.start
  }

  /**
   * One merge step: block `i` doubles in place and block `i + 1` is
   * removed, so the list shrinks by one and the merged block covers exactly
   * the addresses of the two it replaces.
   */
  function MergePair(m: seq<MemoryBlock>, i: nat): (r: seq<MemoryBlock>)
    requires i + 1 < |m| && Mergeable(m[i], m[i + 1])
    ensures |r| == |m| - 1
    ensures r[i].start == m[i].start && r[i].isFree && r[i].size == 2 * m[i].size
    ensures forall a :: Covers(r[i], a) <==> Covers(m[i], a) || Covers(m[i + 1], a)
    ensures forall j :: 0 <= j < i ==> r[j] == m[j]
    ensures forall j :: i < j < |r| ==> r[j] == m[j + 1]
  {
    m[..i] + [m[i].(size := m[i].size * 2)] + m[i + 2..]
  }

  /**
   * The scan of `merge` from index `i` over a list sorted by start: merge
   * the pair at `i` and look at the same index again, or move on. Every
   * merge shortens the list, so the scan terminates.
   */
  function MergeFrom(m: seq<MemoryBlock>, i: nat): (r: seq<MemoryBlock>)
    ensures |r| <= |m|
    ensures r != m ==> |r| < |m|
    decreases |m|, |m| - i
  {
    if i + 1 >= |m| then m
    else if Mergeable(m[i], m[i + 1]) then MergeFrom(MergePair(m, i), i)
    else MergeFrom(m, i + 1)
  }

  /** `merge`: sort by start address, then scan from the first block. */
  function Merge(mem: seq<MemoryBlock>): (r: seq<MemoryBlock>)
    ensures |r| <= |mem|
    ensures r != SortByStart(mem) ==> |r| < |mem|
  {
    assert |SortByStart(mem)| == |multiset(SortByStart(mem))| == |mem|;
    MergeFrom(SortByStart(mem), 0)
  }

  /** A merge step keeps a tiling a tiling of well-formed blocks. */
  lemma MergePairKeepsTiles(m: seq<MemoryBlock>, total: int, i: nat)
    requires Tiles(m, total) && AllOK(m) && i + 1 < |m| && Mergeable(m[i], m[i + 1])
    ensures Tiles(MergePair(m, i), total) && AllOK(MergePair(m, i))
  {
    var r := MergePair(m, i);
    assert End(m[i]) == m[i + 1].start;
    forall q | 0 < q < |r| ensures End(r[q - 1]) == r[q].start {
      if q < i {
        assert End(m[q - 1]) == m[q].start;
      } else if q == i {
        assert End(m[i - 1]) == m[i].start;
      } else {
        assert End(m[q]) == m[q + 1].start;
      }
    }
    MergePairKeepsBlocksOK(m, i);
  }

  /** Helper: the merged block and the untouched ones are well formed. */
  lemma MergePairKeepsBlocksOK(m: seq<MemoryBlock>, i: nat)
    requires AllOK(m) && i + 1 < |m| && Mergeable(m[i], m[i + 1])
    ensures AllOK(MergePair(m, i))
  {
    var r := MergePair(m, i);
    assert BlockOK(m[i]);
    forall x | x in r ensures BlockOK(x) {
      var j := IndexOf(r, x);
      if j < i { assert m[j] in m; } else if j > i { assert m[j + 1] in m; }
    }
  }

  lemma {:induction false} MergeFromKeepsTiles(m: seq<MemoryBlock>, total: int, i: nat)
    requires Tiles(m, total) && AllOK(m)
    ensures Tiles(MergeFrom(m, i), total) && AllOK(MergeFrom(m, i))
    decreases |m|, |m| - i
  {
    if i + 1 < |m| {
      if Mergeable(m[i], m[i + 1]) {
        MergePairKeepsTiles(m, total, i);
        MergeFromKeepsTiles(MergePair(m, i), total, i);
      } else {
        MergeFromKeepsTiles(m, total, i + 1);
      }
    }
  }

  /**
   * `merge` keeps a well-formed list well formed, and leaves it sorted by
   * start address (its own sorted order is the one `SortByStart` gives).
   */
  lemma MergeKeepsWellFormed(mem: seq<MemoryBlock>, total: int)
    requires WellFormed(mem, total)
    ensures WellFormed(Merge(mem), total)
    ensures SortByStart(Merge(mem)) == Merge(mem) && StartsIncrease(Merge(mem))
  {
    var L := SortByStart(mem);
    WellFormedSorted(mem, total);
    assert AllOK(L) by {
      forall x | x in L ensures BlockOK(x) {
        assert x in multiset(mem);
      }
    }
    MergeFromKeepsTiles(L, total, 0);
    var r := Merge(mem);
    assert IsLayout(r, r, total);
    LayoutOf(r, r, total);
    TilesStartsIncrease(r, total);
  }

  /**
   * Merging only touches free blocks: the allocated blocks after a merge
   * scan are exactly the allocated blocks before it.
   */
  lemma {:induction false} MergeFromKeepsAllocated(m: seq<MemoryBlock>, i: nat, b: MemoryBlock)
    requires !b.isFree
    ensures b in MergeFrom(m, i) <==> b in m
    decreases |m|, |m| - i
  {
    if i + 1 < |m| {
      if Mergeable(m[i], m[i + 1]) {
        var r := MergePair(m, i);
        assert m == m[..i] + [m[i], m[i + 1]] + m[i + 2..];
        assert r == m[..i] + [r[i]] + m[i + 2..];
        MergeFromKeepsAllocated(r, i, b);
      } else {
        MergeFromKeepsAllocated(m, i + 1, b);
      }
    }
  }

  // ----------------------------------------------------------- deallocate

  /** Outcome of `deallocate`: the new block list and whether it succeeded. */
  datatype Deallocation = Deallocation(memory: seq<MemoryBlock>, ok: bool)

  /**
   * `deallocate(address)`: free the first allocated block starting at
   * `address`, reset its fragmentation and merge; without such a block
   * nothing changes.
   */
  function Deallocate(mem: seq<MemoryBlock>, address: int): (r: Deallocation)
    ensures r.ok <==> FindAllocated(mem, address).Some?
    ensures !r.ok ==> r.memory == mem
    ensures |r.memory| <= |mem|
  {
    match FindAllocated(mem, address)
    case None => Deallocation(mem, false)
    case Some(i) => Deallocation(Merge(mem[i := mem[i].(isFree := true, fragmentation := 0)]), true)
  }

  /** `deallocate` keeps a well-formed list well formed, whether it succeeds or not. */
  lemma DeallocateKeepsWellFormed(mem: seq<MemoryBlock>, total: int, address: int)
    requires WellFormed(mem, total)
    ensures WellFormed(Deallocate(mem, address).memory, total)
  {
    match FindAllocated(mem, address)
    case None =>
    case Some(i) =>
      var m := mem[i := mem[i].(isFree := true, fragmentation := 0)];
      assert BlockOK(mem[i]);
      ReplaceKeepsWellFormed(mem, total, i, m[i]);
      MergeKeepsWellFormed(m, total);
  }

  /**
   * What `deallocate` does to a well-formed list: it succeeds exactly when
   * some block at `address` is allocated; on failure nothing changes; on
   * success the allocated blocks afterwards are exactly the allocated
   * blocks before, minus the one at `address`.
   */
  lemma DeallocateReleases(mem: seq<MemoryBlock>, total: int, address: int)
    requires WellFormed(mem, total)
    ensures var out := Deallocate(mem, address);
      && (out.ok <==> exists j :: 0 <= j < |mem| && AllocatedAt(mem[j], address))
      && (!out.ok ==> out.memory == mem)
      && (out.ok ==> forall b: MemoryBlock :: !b.isFree ==>
            (b in out.memory <==> b in mem && b.start != address))
  {
    match FindAllocated(mem, address)
    case None =>
    case Some(i) =>
      var m := mem[i := mem[i].(isFree := true, fragmentation := 0)];
      forall b: MemoryBlock | !b.isFree
        ensures b in Deallocate(mem, address).memory <==> b in mem && b.start != address
      {
        MergeFromKeepsAllocated(SortByStart(m), 0, b);
        assert b in SortByStart(m) <==> b in multiset(m);
        if b in m {
          var j :| 0 <= j < |m| && m[j] == b;
          assert j != i && b == mem[j];
          WellFormedDisjoint(mem, total, i, j);
        }
        if b in mem && b.start != address {
          var j :| 0 <= j < |mem| && mem[j] == b;
          assert j != i;
          assert m[j] == b;
        }
      }
  }

  /** Deallocating the same address twice: the second call fails. */
  lemma DoubleDeallocateFails(mem: seq<MemoryBlock>, total: int, address: int)
    requires WellFormed(mem, total) && Deallocate(mem, address).ok
    ensures !Deallocate(Deallocate(mem, address).memory, address).ok
  {
    DeallocateReleases(mem, total, address);
    var m := Deallocate(mem, address).memory;
    DeallocateReleases(m, total, address) by {
      DeallocateKeepsWellFormed(mem, total, address);
    }
    forall j | 0 <= j < |m| ensures !AllocatedAt(m[j], address) {
      assert m[j] in m;
    }
  }

  /**
   * The round trip that does hold: after a successful `allocate`, freeing
   * the address it returned succeeds, and the allocated blocks afterwards
   * are exactly those before the allocation. The block list itself need
   * not come back (`Scenarios.AllocateFreeDoesNotRestore`).
   */
  lemma AllocateThenDeallocate(mem: seq<MemoryBlock>, total: int, size: int)
    requires WellFormed(mem, total) && Allocate(mem, size).address.Some?
    ensures var a := Allocate(mem, size);
      Deallocate(a.memory, a.address.value).ok
    ensures var a := Allocate(mem, size);
      forall b: MemoryBlock :: !b.isFree ==>
        (b in Deallocate(a.memory, a.address.value).memory <==> b in mem)
  {
    var a := Allocate(mem, size);
    var m, address := a.memory, a.address.value;
    AllocateFirstFit(mem, total, size);
    AllocateKeepsWellFormed(mem, total, size);
    DeallocateReleases(m, total, address);
    var i := FirstFit(mem, RoundUp(size)).value;
    assert AllocatedAt(m[i], address);
    forall b: MemoryBlock | !b.isFree
      ensures b in m && b.start != address <==> b in mem
    {
      if b in m && b.start != address {
        var j := IndexOf(m, b);
        assert j != i && j < |mem|;
        assert b == mem[j];
      }
      if b in mem {
        var j := IndexOf(mem, b);
        assert j != i && m[j] == b;
        WellFormedDisjoint(mem, total, i, j);
      }
    }
  }
}
