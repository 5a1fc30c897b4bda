# Buddy allocator — a verified model

This project models the bookkeeping core of the `BuddySystem` memory
allocator (`buddysystem/BuddySystem.java`). The allocator manages the address
range `[0, totalMemory)` as a list of block records. Each record has a start
address, a size, a free flag and an internal-fragmentation count. It offers:

- `allocate(size)`: round the request up to a power of two, take the first
  free block in list order that is large enough, halve it until it has the
  rounded size (each halving appends the free right half to the list), and
  mark it allocated.
- `deallocate(address)`: free the first allocated block that starts at
  `address`, then `merge`.
- `merge`: sort the list by start address, then scan adjacent pairs. It
  joins two free, equally large, contiguous blocks into the left one and
  looks again at the same position.

The project has five modules:

- `Powers` (`powers.dfy`): powers of two, and `RoundUp`, a reference
  definition of the smallest power of two at least `n`.
- `Blocks` (`blocks.dfy`): the block record and sorting by start address.
  It also defines the layout invariant `WellFormed`, with its consequences:
  - every block has a power-of-two size and a fragmentation count that is
    never negative (zero on a free block);
  - the sizes add up to the region size;
  - the blocks, sorted by start, lie end to end over the region with no gap
    and no overlap.
- `BuddySpec` (`buddy_spec.dfy`): the allocator's operations as pure
  functions on the block list, and the lemmas about them.
- `Allocator` (`allocator.dfy`): the class `BuddySystem`. It holds the block
  list as a mutable field, and its methods keep the Java loops.
  - `Split`, `SplitDownTo` and `Merge` are proved to leave exactly the list
    that `BuddySpec.Split`, `BuddySpec.SplitDown` and `BuddySpec.Merge`
    describe. They promise nothing about `Valid()` themselves. Splitting a
    block of size 1 would break the invariant, so their well-formedness
    comes from `BuddySpec.SplitKeepsWellFormed` (for blocks larger than 1)
    and `BuddySpec.MergeKeepsWellFormed` (for a list that was well formed
    before).
  - `RoundUpToPowerOfTwo` is proved equal to `Powers.RoundUp`.
  - Only the public operations `Allocate` and `Deallocate` keep the
    invariant `Valid()`. They also match their `BuddySpec` functions.
- `Scenarios` (`scenarios.dfy`): concrete runs, worked out step by step.
  They pin down behaviour that the general lemmas leave open.

The model follows the code, including four places where it differs from an
idealised buddy allocator:

- **First fit follows list order, not address order.** On a region of 1024,
  `allocate(200)` followed by `allocate(100)` returns address 512, not 256.
  The free 512 block appended by the first split comes before the free 256
  block in the list (`Scenarios.FirstFitInListOrder`).
- **`merge` is not a complete buddy merge.**
  - After joining the pair at position `i`, it never compares the new block
    with its left neighbour, so two free, equally large, adjacent blocks can
    remain (`Scenarios.MergeDoesNotLookBack`).
  - It does not check that two neighbours are buddies, so it can build a
    block whose start is not a multiple of its size
    (`Scenarios.MergeIgnoresAlignment`).

- **Allocating and then freeing the same address need not restore the
  block list.** From `[Free(0,256), Free(256,256)]`, the end state of
  `Scenarios.MergeDoesNotLookBack`, `allocate(256)` returns address 0.
  Freeing it merges the two halves into a single 512 block
  (`Scenarios.AllocateFreeDoesNotRestore`). The re-sort in `merge` can
  also change the list order, and list order decides the next first fit.
  What does come back is the set of allocated blocks
  (`BuddySpec.AllocateThenDeallocate`).

- **A request of 0 or less is not rejected.** `roundUpToPowerOfTwo`
  returns 1 for it, so `allocate` hands out a block of 1 with
  fragmentation `1 - size` (`Scenarios.NonPositiveRequest`). The model
  keeps this behaviour deliberately, rather than introducing an
  invalid-request result the Java code does not have.

  Accordingly, the model claims neither "no two mergeable neighbours
  remain" nor alignment. It claims only the layout invariant above.

Splitting uses integer division. The layout invariant therefore needs the
region size to be a power of two: the constructor accepts any size, but
promises `Valid()` only for a power of two. `Allocate` and `Deallocate`
equal their `BuddySpec` functions on every list, and keep `Valid()` when
it held before.

## Model

| member | source | states |
|---|---|---|
| Powers.RoundUp | buddysystem/BuddySystem.java:104-110 | the result is a power of two at least `n`; it is 1 for `n <= 1` and below `2n` for `n >= 1` |
| Powers.RoundUpIsLeast | buddysystem/BuddySystem.java:104-110 | no power of two at least `n` is smaller than `RoundUp(n)` |
| Powers.RoundUpExact | buddysystem/BuddySystem.java:104-110 | `RoundUp(n)` is the unique power of two `p` with `p/2 < n <= p` |
| Powers.Pow2Gap | buddysystem/BuddySystem.java:49-51 | two distinct powers of two are at least a factor two apart, so halving a larger one never skips the rounded size |
| Allocator.BuddySystem.constructor | buddysystem/BuddySystem.java:19-24 | the list is exactly one free block `[0, totalMemory)` with fragmentation 0; for a power-of-two size the invariant holds |
| Allocator.BuddySystem.RoundUpToPowerOfTwo | buddysystem/BuddySystem.java:104-110 | the doubling loop returns `RoundUp(size)`: a power of two at least `size`, and no larger than any other such power |
| Allocator.BuddySystem.Split | buddysystem/BuddySystem.java:78-84 | the new list is `BuddySpec.Split` of the old one |
| Allocator.BuddySystem.SplitDownTo | buddysystem/BuddySystem.java:49-51 | the splitting loop leaves `BuddySpec.SplitDown` of the old list |
| Allocator.BuddySystem.Allocate | buddysystem/BuddySystem.java:42-60 | the new list and the address equal `BuddySpec.Allocate`; on failure nothing changes; with the invariant, it fails exactly when no free block is large enough; on success the first fitting block becomes allocated with the rounded size and fragmentation `RoundUp(size) - size`, other old blocks are unchanged, appended blocks are free, and the invariant is kept |
| Allocator.BuddySystem.Deallocate | buddysystem/BuddySystem.java:63-75 | the new list and the flag equal `BuddySpec.Deallocate`; it succeeds exactly when some block at `address` is allocated; on failure nothing changes; with the invariant, the allocated blocks afterwards are those before minus the one at `address`, and the invariant is kept |
| Allocator.BuddySystem.Merge | buddysystem/BuddySystem.java:87-101 | the sort and the backtracking scan leave `BuddySpec.Merge` of the old list |
| BuddySpec.Fits | buddysystem/BuddySystem.java:47 | the scan test of `allocate`: free and at least the rounded size (a predicate with no contract of its own) |
| BuddySpec.FirstFit | buddysystem/BuddySystem.java:46-47 | returns the index of a fitting free block with no fitting block before it, or `None` exactly when no block fits |
| BuddySpec.AllocatedAt | buddysystem/BuddySystem.java:65 | the scan test of `deallocate`: starts at `address` and is allocated (a predicate with no contract of its own) |
| BuddySpec.FindAllocated | buddysystem/BuddySystem.java:64-65 | returns the index of the first allocated block at `address`, or `None` exactly when there is none |
| BuddySpec.Split | buddysystem/BuddySystem.java:78-84 | block `i` keeps its start and is halved; one free buddy of the halved size, starting where the half ends, is appended at the end of the list; nothing else changes; for an even size the two halves cover exactly the old block |
| BuddySpec.SplitKeepsWellFormed | buddysystem/BuddySystem.java:78-84 | splitting a block larger than 1 keeps the list well formed |
| BuddySpec.SplitDown | buddysystem/BuddySystem.java:49-51 | the splitting loop keeps the block's start and only lengthens the list |
| BuddySpec.SplitDownExact | buddysystem/BuddySystem.java:49-51 | with power-of-two sizes, splitting stops exactly at the rounded size; other blocks are untouched and every appended block is free |
| BuddySpec.SplitDownKeepsWellFormed | buddysystem/BuddySystem.java:49-51 | the whole splitting loop keeps the list well formed |
| BuddySpec.Allocate | buddysystem/BuddySystem.java:42-60 | `allocate` on the list: it succeeds exactly when `FirstFit` finds a block for the rounded size, and then returns that block's address, marks it allocated at the same start, with fragmentation equal to the block's size minus the request; on failure the list is unchanged; the list never shrinks; its full meaning on well-formed lists is `AllocateFirstFit` and `AllocateKeepsWellFormed` |
| BuddySpec.AllocateFirstFit | buddysystem/BuddySystem.java:42-60 | on a well-formed list, allocation fails, changing nothing, exactly when no free block fits; otherwise the first fitting block, at the returned address, becomes allocated with the rounded size and its fragmentation; other old blocks are unchanged and appended ones are free |
| BuddySpec.AllocateKeepsWellFormed | buddysystem/BuddySystem.java:42-60 | `allocate` keeps the list well formed, whether it succeeds or not |
| BuddySpec.MergePair | buddysystem/BuddySystem.java:93-96 | a merge step shortens the list by one; the left block doubles, stays free and covers exactly the addresses of the two blocks it replaces; the other blocks keep their order |
| BuddySpec.MergePairKeepsTiles | buddysystem/BuddySystem.java:93-96 | a merge step keeps the list a tiling of well-formed blocks |
| BuddySpec.MergeFromKeepsTiles | buddysystem/BuddySystem.java:89-100 | the whole merge scan keeps the list a tiling of well-formed blocks |
| BuddySpec.Mergeable | buddysystem/BuddySystem.java:93-94 | the merge test: both blocks free, equally large, and the first ends where the second starts (a predicate with no contract of its own) |
| BuddySpec.MergeFrom | buddysystem/BuddySystem.java:89-100 | the backtracking scan (merge the pair at `i` and look at `i` again, or move on) never lengthens the list, and shortens it whenever it changes anything; its other meaning is `MergeFromKeepsTiles` and `MergeFromKeepsAllocated` |
| BuddySpec.Merge | buddysystem/BuddySystem.java:87-101 | sort by start, then scan from 0: the result is the sorted list when nothing merges, and shorter otherwise; its meaning on well-formed lists is `MergeKeepsWellFormed` and `MergeFromKeepsAllocated` |
| BuddySpec.MergeKeepsWellFormed | buddysystem/BuddySystem.java:87-101 | `merge` keeps the list well formed and leaves it sorted by start with strictly increasing starts |
| BuddySpec.MergeFromKeepsAllocated | buddysystem/BuddySystem.java:87-101 | merging leaves the set of allocated blocks unchanged |
| BuddySpec.Deallocate | buddysystem/BuddySystem.java:63-75 | `deallocate` on the list: it succeeds exactly when `FindAllocated` finds an allocated block at `address`; on failure the list is unchanged; the list never grows; its full meaning on well-formed lists is `DeallocateReleases`, `DeallocateKeepsWellFormed`, `DoubleDeallocateFails` and `AllocateThenDeallocate` |
| BuddySpec.DeallocateKeepsWellFormed | buddysystem/BuddySystem.java:63-75 | `deallocate` keeps the list well formed, whether it succeeds or not |
| BuddySpec.DeallocateReleases | buddysystem/BuddySystem.java:63-75 | on a well-formed list, deallocation succeeds exactly when a block at `address` is allocated; on failure nothing changes; on success the allocated blocks are the old ones minus the one at `address` |
| BuddySpec.DoubleDeallocateFails | buddysystem/BuddySystem.java:63-75 | deallocating the same address twice: the second call fails |
| BuddySpec.AllocateThenDeallocate | buddysystem/BuddySystem.java:42-75 | on a well-formed list, after a successful `allocate`, freeing the returned address succeeds, and the allocated blocks afterwards are exactly those before the allocation |
| Blocks.Insert | buddysystem/BuddySystem.java:88 | inserting into a list sorted by start gives a sorted list with the same blocks plus the new one |
| Blocks.SortByStart | buddysystem/BuddySystem.java:88 | the result is a permutation of the list, sorted by start address |
| Blocks.SortedUnique | buddysystem/BuddySystem.java:88 | a sorted permutation of a list with strictly increasing starts is that list, so the sort algorithm does not matter |
| Blocks.LayoutOf | buddysystem/BuddySystem.java:88 | any permutation of a tiling sorts back to that tiling |
| Blocks.WellFormedSorted | buddysystem/BuddySystem.java:23 | the blocks of a well-formed list, sorted by start, tile the region with strictly increasing starts |
| Blocks.WellFormedSizesSum | buddysystem/BuddySystem.java:23 | the block sizes of a well-formed list add up to the region size |
| Blocks.WellFormedDisjoint | buddysystem/BuddySystem.java:78-84 | two entries of a well-formed list are disjoint and have different starts |
| Blocks.WellFormedCovers | buddysystem/BuddySystem.java:78-84 | every address of the region lies in some block of a well-formed list |
| Scenarios.Exhaustion | buddysystem/BuddySystem.java:42-60 | on a region of 64, a request of 64 succeeds at 0 and a second one fails, leaving the list unchanged |
| Scenarios.FragmentationOfThirteen | buddysystem/BuddySystem.java:52-53 | a request of 13 gets a block of 16 with fragmentation 3 |
| Scenarios.FirstFitInListOrder | buddysystem/BuddySystem.java:46-51 | on 1024, `allocate(200)` then `allocate(100)` return 0 and then 512, with the exact block lists |
| Scenarios.MergeDoesNotLookBack | buddysystem/BuddySystem.java:89-100 | a run of four operations ends with two free, adjacent 256 blocks that `merge` left unjoined |
| Scenarios.AllocateFreeDoesNotRestore | buddysystem/BuddySystem.java:42-101 | from `[Free(0,256), Free(256,256)]`, `allocate(256)` gives address 0, and freeing it leaves `[Free(0,512)]`, not the original list |
| Scenarios.NonPositiveRequest | buddysystem/BuddySystem.java:42-53 | requests of 0 and -3 are served with a block of 1, with fragmentation 1 and 4 |
| Scenarios.MergeIgnoresAlignment | buddysystem/BuddySystem.java:93-96 | a run of three operations merges the blocks at 128 and 256 into an unaligned 256 block at 128 |

## Left out

- `main` and its console menu (buddysystem/BuddySystem.java:126-161): input and output only.
- Every `System.out.println`, and `displayMemoryState` (buddysystem/BuddySystem.java:113-124), which only prints the list. The methods return the address or a success flag instead of printing a message.
- Java's 32-bit `int` is modelled as an unbounded integer. Overflow is therefore not modelled: for a request above 2^30, `roundUpToPowerOfTwo`'s doubling overflows and the Java loop never ends, while the model returns the true power of two.
- Allocator.BuddySystem.constructor: for a region size that is not a power of two, the model says only what the first list is. It does not describe how the list then degrades, because the layout invariant does not hold there.
- Allocator.BuddySystem.Allocate: the fragmentation, exact-size and invariant guarantees are stated only when the invariant held before the call. Without it, only the equality with `BuddySpec.Allocate` is promised.
- Allocator.BuddySystem.Deallocate: preserving the invariant and the allocated-block set is stated only when the invariant held before the call.
- Block records are updated in place in the Java code. In the model they are values in a sequence, because no reference to a record escapes the list; aliasing of records is therefore not modelled.
- The list's iterator, and `remove(next)`, which removes by identity: the model removes position `i + 1`, which is where `next` is, since every record object occurs in the list only once.
- The sorting algorithm of `ArrayList.sort`: the model sorts by insertion. `Blocks.SortedUnique` shows that any sort by start gives the same list when starts are distinct.
- Java's division truncates toward zero and Dafny's is Euclidean. The two agree on the non-negative sizes halved in `split`, so nothing is modelled for negative sizes.
