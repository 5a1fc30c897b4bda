/**
 * Block records of the buddy allocator and the layout invariant of its
 * block list: every block has a power-of-two size, and the blocks, once
 * sorted by start address, lie end to end over `[0, totalMemory)`.
 */
module Blocks {
  import opened Powers

  /** One entry of the allocator's list (the Java class `BuddySystem.MemoryBlock`). */
  datatype MemoryBlock = MemoryBlock(start: int, size: int, isFree: bool, fragmentation: int)

  /** First address after the block. */
  function End(b: MemoryBlock): int
  {
    b.start + b.size
  }

  predicate Covers(b: MemoryBlock, address: int)
  {
    b.start <= address < End(b)
  }

  predicate Disjoint(b: MemoryBlock, c: MemoryBlock)
  {
    End(b) <= c.start || End(c) <= b.start
  }

  /**
   * What each block satisfies on its own: a power-of-two size, a
   * fragmentation count that is never negative and is zero on a free block.
   */
  predicate BlockOK(b: MemoryBlock)
  {
    IsPow2(b.size) && 0 <= b.fragmentation && (b.isFree ==> b.fragmentation == 0)
  }

  predicate AllOK(s: seq<MemoryBlock>)
  {
    forall b | b in s :: BlockOK(b)
  }

  /** `L`, in this order, lays non-empty blocks end to end from 0 to `total`. */
  predicate Tiles(L: seq<MemoryBlock>, total: int)
  {
    && |L| > 0
    && L[0].start == 0
    && End(L[|L| - 1]) == total
    && (forall k :: 0 <= k < |L| ==> L[k].size > 0)
    && (forall k :: 0 < k < |L| ==> End(L[k - 1]) == L[k].start)
  }

  predicate SortedByStart(s: seq<MemoryBlock>)
  {
    forall j, k :: 0 <= j < k < |s| ==> s[j].start <= s[k].start
  }

  predicate StartsIncrease(s: seq<MemoryBlock>)
  {
    forall j, k :: 0 <= j < k < |s| ==> s[j].start < s[k].start
  }

  /** A block that starts no later than the head of a sorted list can be put in front of it. */
  lemma {:induction false} ConsSorted(h: MemoryBlock, t: seq<MemoryBlock>)
    requires SortedByStart(t)
    requires t != [] ==> h.start <= t[0].start
    ensures SortedByStart([h] + t)
  {
    forall j, k | 0 <= j < k < |[h] + t|
      ensures ([h] + t)[j].start <= ([h] + t)[k].start
    {
      if j > 0 {
        assert ([h] + t)[j] == t[j - 1];
      } else {
        assert h.start <= t[0].start <= t[k - 1].start;
      }
    }
  }

  /** Inserts `b` into a list sorted by start address. */
  function Insert(b: MemoryBlock, s: seq<MemoryBlock>): (r: seq<MemoryBlock>)
    requires SortedByStart(s)
    ensures multiset(r) == multiset(s) + multiset{b}
    ensures SortedByStart(r)
    ensures |r| == |s| + 1 && (r[0] == b || (s != [] && r[0] == s[0]))
  {
    if s == [] then [b]
    else if b.start <= s[0].start then
      ConsSorted(b, s);
      [b] + s
    else
      assert s == [s[0]] + s[1..];
      var rest := Insert(b, s[1..]);
      ConsSorted(s[0], rest);
      [s[0]] + rest
  }

  /**
   * The list sorted by start address (the sort that `merge` performs).
   * Which sorting algorithm is used does not matter: `SortedUnique` shows
   * that a list with distinct start addresses has one sorted permutation.
   */
  function SortByStart(s: seq<MemoryBlock>): (r: seq<MemoryBlock>)
    ensures multiset(r) == multiset(s)
    ensures SortedByStart(r)
  {
    if s == [] then []
    else
      assert s == [s[0]] + s[1..];
      Insert(s[0], SortByStart(s[1..]))
  }

  /** `L` is a rearrangement of the blocks of `mem` that tiles `[0, total)`. */
  ghost predicate IsLayout(L: seq<MemoryBlock>, mem: seq<MemoryBlock>, total: int)
  {
    Tiles(L, total) && multiset(L) == multiset(mem)
  }

  /**
   * The invariant of the allocator's block list for a region of `total`
   * units: each block is well formed, and the blocks can be laid end to end
   * over the region without gaps or overlaps (`WellFormedSorted`: sorted
   * by start address, they are).
   */
  ghost predicate WellFormed(mem: seq<MemoryBlock>, total: int)
  {
    AllOK(mem) && exists L :: IsLayout(L, mem, total)
  }

  /** In a tiling, every block ends at or before the start of any later one. */
  lemma {:induction false} TilesOrdered(L: seq<MemoryBlock>, total: int, j: int, k: int)
    requires Tiles(L, total) && 0 <= j < k < |L|
    ensures End(L[j]) <= L[k].start
    decreases k - j
  {
    if j + 1 < k {
      TilesOrdered(L, total, j, k - 1);
    }
  }

  lemma TilesStartsIncrease(L: seq<MemoryBlock>, total: int)
    requires Tiles(L, total)
    ensures StartsIncrease(L)
  {
    forall j, k | 0 <= j < k < |L| ensures L[j].start < L[k].start {
      TilesOrdered(L, total, j, k);
    }
  }

  /** A position at which a block of the list occurs. */
  lemma {:induction false} IndexOf(s: seq<MemoryBlock>, x: MemoryBlock) returns (k: nat)
    requires x in multiset(s)
    ensures k < |s| && s[k] == x
    decreases |s|
  {
    if s[0] == x {
      k := 0;
    } else {
      assert s == [s[0]] + s[1..];
      k := IndexOf(s[1..], x);
      k := k + 1;
    }
  }

  /** Removing the first element removes one copy of it from the multiset. */
  lemma MultisetTail(a: seq<MemoryBlock>)
    requires a != []
    ensures multiset(a[1..]) == multiset(a) - multiset{a[0]}
  {
    assert a == [a[0]] + a[1..];
  }

  /** Helper for `SortedUnique`: both lists start with the same block. */
  lemma SameHead(a: seq<MemoryBlock>, b: seq<MemoryBlock>)
    requires SortedByStart(a) && StartsIncrease(b) && multiset(a) == multiset(b)
    requires a != []
    ensures b != [] && a[0] == b[0]
  {
    assert a[0] in multiset(b);
    var j :| 0 <= j < |b| && b[j] == a[0];
    assert b[0] in multiset(a);
    var k :| 0 <= k < |a| && a[k] == b[0];
    assert a[0].start <= a[k].start;
    assert j == 0;
  }

  /**
   * A list sorted by start and a permutation of it whose starts strictly
   * increase are the same list.
   */
  lemma {:induction false} SortedUnique(a: seq<MemoryBlock>, b: seq<MemoryBlock>)
    requires SortedByStart(a) && StartsIncrease(b) && multiset(a) == multiset(b)
    ensures a == b
    decreases |a|
  {
    assert |a| == |multiset(a)| == |multiset(b)| == |b|;
    if a != [] {
      SameHead(a, b);
      MultisetTail(a);
      MultisetTail(b);
      SortedUnique(a[1..], b[1..]);
    }
  }

  /** Any permutation of a tiling sorts back to that tiling. */
  lemma LayoutOf(mem: seq<MemoryBlock>, L: seq<MemoryBlock>, total: int)
    requires Tiles(L, total) && multiset(L) == multiset(mem)
    ensures SortByStart(mem) == L
  {
    TilesStartsIncrease(L, total);
    SortedUnique(SortByStart(mem), L);
  }

  /** The blocks of a well-formed list, sorted by start address, tile the region. */
  lemma WellFormedSorted(mem: seq<MemoryBlock>, total: int)
    requires WellFormed(mem, total)
    ensures Tiles(SortByStart(mem), total) && StartsIncrease(SortByStart(mem))
  {
    var L :| IsLayout(L, mem, total);
    LayoutOf(mem, L, total);
    TilesStartsIncrease(L, total);
  }

  /** Helper for `TilesCover`: walks right from block `k`. */
  lemma {:induction false} CoverFrom(L: seq<MemoryBlock>, total: int, address: int, k: nat)
    requires Tiles(L, total) && k < |L| && L[k].start <= address < total
    ensures exists q :: k <= q < |L| && Covers(L[q], address)
    decreases |L| - k
  {
    if End(L[k]) <= address {
      assert k + 1 < |L|;
      CoverFrom(L, total, address, k + 1);
    } else {
      assert Covers(L[k], address);
    }
  }

  /** A tiling leaves no gap: every address of the region lies in a block. */
  lemma TilesCover(L: seq<MemoryBlock>, total: int, address: int)
    requires Tiles(L, total) && 0 <= address < total
    ensures exists k :: 0 <= k < |L| && Covers(L[k], address)
  {
    CoverFrom(L, total, address, 0);
  }

  /** Sum of the block sizes. */
  function SumSizes(s: seq<MemoryBlock>): int
  {
    if s == [] then 0 else s[0].size + SumSizes(s[1..])
  }

  lemma {:induction false} SumConcat(x: seq<MemoryBlock>, y: seq<MemoryBlock>)
    ensures SumSizes(x + y) == SumSizes(x) + SumSizes(y)
    decreases |x|
  {
    if x == [] {
      assert x + y == y;
    } else {
      assert (x + y)[0] == x[0] && (x + y)[1..] == x[1..] + y;
      SumConcat(x[1..], y);
    }
  }

  /** Removing the element at `k` removes one copy of it from the multiset. */
  lemma MultisetRemove(b: seq<MemoryBlock>, k: int)
    requires 0 <= k < |b|
    ensures multiset(b[..k] + b[k + 1..]) == multiset(b) - multiset{b[k]}
  {
    assert b == b[..k] + [b[k]] + b[k + 1..];
  }

  /** Reordering the blocks does not change the total size. */
  lemma {:induction false} SumPermutation(a: seq<MemoryBlock>, b: seq<MemoryBlock>)
    requires multiset(a) == multiset(b)
    ensures SumSizes(a) == SumSizes(b)
    decreases |a|
  {
    assert |a| == |multiset(a)| == |multiset(b)| == |b|;
    if a != [] {
      assert a[0] in multiset(b);
      var k :| 0 <= k < |b| && b[k] == a[0];
      var rest := b[..k] + b[k + 1..];
      assert b == b[..k] + ([b[k]] + b[k + 1..]);
      SumConcat(b[..k], [b[k]] + b[k + 1..]);
      SumConcat(b[..k], b[k + 1..]);
      MultisetRemove(b, k);
      MultisetTail(a);
      SumPermutation(a[1..], rest);
    }
  }

  /** Helper for `TilesSum`: the blocks from `k` on add up to the rest of the region. */
  lemma {:induction false} TilesSumFrom(L: seq<MemoryBlock>, total: int, k: nat)
    requires Tiles(L, total) && k < |L|
    ensures SumSizes(L[k..]) == total - L[k].start
    decreases |L| - k
  {
    assert L[k..][1..] == L[k + 1..];
    if k + 1 < |L| {
      TilesSumFrom(L, total, k + 1);
    }
  }

  lemma TilesSum(L: seq<MemoryBlock>, total: int)
    requires Tiles(L, total)
    ensures SumSizes(L) == total
  {
    TilesSumFrom(L, total, 0);
    assert L[0..] == L;
  }

  /** The block sizes of a well-formed list add up to the region size. */
  lemma WellFormedSizesSum(mem: seq<MemoryBlock>, total: int)
    requires WellFormed(mem, total)
    ensures SumSizes(mem) == total
  {
    var L :| IsLayout(L, mem, total);
    TilesSum(L, total);
    SumPermutation(mem, L);
  }

  /** A list whose starts strictly increase holds each block at most once. */
  lemma {:induction false} AtMostOnce(L: seq<MemoryBlock>, x: MemoryBlock)
    requires StartsIncrease(L)
    ensures multiset(L)[x] <= 1
    decreases |L|
  {
    if L != [] {
      assert L == [L[0]] + L[1..];
      if x == L[0] {
        assert x !in L[1..];
      } else {
        AtMostOnce(L[1..], x);
      }
    }
  }

  /** A block found at two positions of a list occurs twice in its multiset. */
  lemma TwiceCounted(s: seq<MemoryBlock>, j: int, k: int)
    requires 0 <= j < k < |s| && s[j] == s[k]
    ensures multiset(s)[s[j]] >= 2
  {
    assert s == s[..k] + s[k..];
    assert s[j] in s[..k];
    assert s[k] in s[k..];
  }

  /** Some block of `mem` holds `address`. */
  ghost predicate Covered(mem: seq<MemoryBlock>, address: int)
  {
    exists j :: 0 <= j < |mem| && Covers(mem[j], address)
  }

  /**
   * The layout invariant, read on the list as stored (in any order): two
   * different entries are disjoint blocks with different start addresses.
   */
  lemma WellFormedDisjoint(mem: seq<MemoryBlock>, total: int, j: int, k: int)
    requires WellFormed(mem, total)
    requires 0 <= j < |mem| && 0 <= k < |mem| && j != k
    ensures Disjoint(mem[j], mem[k]) && mem[j].start != mem[k].start
  {
    var L :| IsLayout(L, mem, total);
    TilesStartsIncrease(L, total);
    if mem[j] == mem[k] {
      if j < k { TwiceCounted(mem, j, k); } else { TwiceCounted(mem, k, j); }
      AtMostOnce(L, mem[j]);
      assert false;
    }
    assert mem[j] in multiset(L) && mem[k] in multiset(L);
    var p :| 0 <= p < |L| && L[p] == mem[j];
    var q :| 0 <= q < |L| && L[q] == mem[k];
    if p < q { TilesOrdered(L, total, p, q); } else { TilesOrdered(L, total, q, p); }
  }

  /** ... and every address of `[0, total)` lies in one of the stored blocks. */
  lemma WellFormedCovers(mem: seq<MemoryBlock>, total: int, address: int)
    requires WellFormed(mem, total) && 0 <= address < total
    ensures Covered(mem, address)
  {
    var L :| IsLayout(L, mem, total);
    TilesCover(L, total, address);
    var k :| 0 <= k < |L| && Covers(L[k], address);
    assert L[k] in multiset(mem);
    var j :| 0 <= j < |mem| && mem[j] == L[k];
    assert Covers(mem[j], address);
  }
}
