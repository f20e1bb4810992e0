# MemorySpace: a verified model of a first-fit memory manager

`MemorySpace.java` manages an abstract address space of `maxSize` words with
two lists of blocks, each block a base address and a length:

- the constructor puts the whole space, `[0, maxSize)`, in one free block;
- `malloc(length)` scans the free list in its current order. It takes the
  first block that is at least `length` long. It appends a block with that
  base and `length` to the allocated list and returns the base. An exact fit
  leaves the free list. A longer block is shortened from the front and keeps
  its position. When nothing fits it returns -1 and changes nothing. It never
  defragments.
- `free(address)` moves the first allocated block whose base is `address` to
  the end of the free list, unchanged. An unknown address is ignored.
- `defrag()` bubble-sorts the free list by base, then walks it with an index.
  It folds each block that starts exactly where the current one ends into the
  current one. The allocated list is untouched.

The Dafny model is functional. A `Space` holds the two lists as sequences of
`Block(base, length)`, and each operation returns the next `Space`.

| file | module | contents |
|---|---|---|
| blocks.dfy | `Blocks` | `Block`, total length, how many blocks hold a word, ordering predicates |
| sorting.dfy | `Sorting` | reference sort `SortByBase`, and the exchange sort of `defrag` as a method |
| coalesce.dfy | `Coalesce` | reference merge `Coalesce`, and the merge loop of `defrag` as a method |
| memory_space.dfy | `MemorySpace` | `New`, `Malloc`, `Free`, `Defrag`, conservation and idempotence |
| invariant.dfy | `Invariant` | the invariant of every space reached from a fresh space of positive size by requests whose mallocs ask for at least one word, kept by free, defrag and positive-length malloc |
| scenarios.dfy | `Scenarios` | worked examples and the malloc–free–defrag round trip |

The invariant `Invariant.Valid(m, maxSize)` says four things. Every word in
`[0, maxSize)` lies in exactly one block, free or allocated. No other word
lies in any block. Every block is non-empty. The lengths add up to
`maxSize`. From it follow three facts: blocks never overlap, no two free and
no two allocated blocks share a base, and `malloc` returns -1 only when
nothing fits.

Three behaviours of the code are easy to expect otherwise. `malloc` never
calls `defrag`, so a request can fail while enough free words lie in adjacent
pieces (MemorySpace.java:116-119, `Scenarios.MallocDoesNotDefrag`). `free`
appends the block to the end of the free list without sorting or merging, and
an address that no allocated block starts at is silently ignored
(MemorySpace.java:99-114). `defrag` merges only blocks that meet exactly:
0/10, 10/5, 20/3 becomes 0/15, 20/3 (MemorySpace.java:141-151,
`Scenarios.DefragExample`).

## Model

| member | source | states |
|---|---|---|
| MemorySpace.New | MemorySpace.java:20-28 | a fresh space has nothing allocated and a single free block, based at 0, of length maxSize, so every word of [0, maxSize) is held by exactly one free block |
| Invariant.NewValid | MemorySpace.java:20-28 | a fresh space of positive size satisfies the space invariant |
| MemorySpace.FirstFitFrom | MemorySpace.java:61-88 | the scan returns the first position whose block is at least the request long (all earlier ones are shorter), or reports that no block is long enough |
| MemorySpace.Malloc | MemorySpace.java:60-89 | at the first-fit position: returns that block's base; appends (base, length) to the allocated list; removes an exact fit; replaces a longer block in place by (base + length, L - length). With no fit: returns -1, both lists unchanged |
| MemorySpace.MallocConserves | MemorySpace.java:69-80 | free plus allocated length is the same before and after malloc, for any request, on success and failure |
| Invariant.MallocValid | MemorySpace.java:60-89 | malloc with a positive request keeps every word in exactly one block and all blocks non-empty |
| Invariant.NegativeRequestBreaks | MemorySpace.java:67-80 | malloc does not reject a negative request: in a valid 10-word space, a request for -2 carves the empty block 5/-2 and moves the free block 5/5 back to 3/7, so word 3 lies in two blocks and the space is no longer valid |
| Invariant.ZeroRequestBreaks | MemorySpace.java:67-70 | malloc does not reject a request for no words: on a fresh 10-word space malloc(0) returns 0 and appends the empty block 0/0, so the space reached by that one request is not valid |
| Invariant.ZeroThenFreeDuplicates | MemorySpace.java:60-114 | malloc(0) then free(0) on a fresh 10-word space leaves the free list 0/10, 0/0, whose bases are not distinct |
| Invariant.MallocNoSpaceExactly | MemorySpace.java:82-88 | in a valid space malloc returns -1 if and only if no free block is long enough |
| MemorySpace.FindBaseFrom | MemorySpace.java:100-105 | the scan returns the first allocated position with the given base, or reports there is none |
| MemorySpace.Free | MemorySpace.java:99-114 | the first allocated block with the address leaves the allocated list (others keep their order) and is appended unchanged to the end of the free list; an unknown address changes nothing |
| MemorySpace.FreeConserves | MemorySpace.java:105-110 | free plus allocated length is the same before and after free |
| Invariant.FreeValid | MemorySpace.java:99-114 | free keeps the space invariant, for any address |
| Invariant.FreeTwice | MemorySpace.java:99-114 | in a valid space, freeing an address a second time changes nothing |
| Sorting.SortByBase | MemorySpace.java:124-139 | the reference sort returns the same blocks (as a multiset) in ascending base order |
| Sorting.SortSorted | MemorySpace.java:124-139 | a list already in base order is returned unchanged |
| Sorting.BubblePass | MemorySpace.java:125-138 | one inner pass permutes the blocks, keeps the sorted suffix, and leaves the largest base of the prefix at its end |
| Sorting.BubbleSort | MemorySpace.java:124-139 | the exchange sort returns a permutation in ascending base order, and leaves an ordered list unchanged |
| Sorting.SortedUnique | MemorySpace.java:124-139 | with distinct bases there is only one ordered arrangement, so the exchange sort and the reference sort agree |
| Coalesce.MergeFrom | MemorySpace.java:142-151 | merging from a current block keeps its base first, leaves no block ending where the next begins, and keeps base order |
| Coalesce.Coalesce | MemorySpace.java:142-151 | the merged list has no adjacent neighbours, is sorted when its input is, is no longer than its input, and is empty only for empty input |
| Coalesce.MergeAdjacent | MemorySpace.java:142-151 | the index loop that merges the neighbour and retries the same position computes exactly `Coalesce` |
| Coalesce.CoalesceTotal | MemorySpace.java:146-148 | merging keeps the total free length |
| Coalesce.CoalesceCount | MemorySpace.java:146-148 | merging non-negative blocks keeps, for every word, how many free blocks hold it |
| Coalesce.CoalesceNoAdjacent | MemorySpace.java:142-151 | a list with no adjacent neighbours is left unchanged |
| MemorySpace.DefragFree | MemorySpace.java:121-152 | the defragmented free list is sorted by base, has no two exactly adjacent neighbours, keeps the total length and is no longer |
| MemorySpace.Defrag | MemorySpace.java:121-152 | defrag leaves the allocated list untouched; the free list ends sorted with no adjacent neighbours and the same total length |
| MemorySpace.DefragLists | MemorySpace.java:121-152 | the exchange sort followed by the merge loop gives a sorted list without adjacent neighbours and the same total; with distinct bases it equals `DefragFree` |
| MemorySpace.DefragIdempotent | MemorySpace.java:121-152 | defrag twice equals defrag once |
| MemorySpace.DefragCount | MemorySpace.java:121-152 | for a free list with no negative length, every word is held by as many free blocks after defrag as before |
| MemorySpace.DefragPositive | MemorySpace.java:121-152 | defrag keeps every free block non-empty |
| Invariant.DefragValid | MemorySpace.java:121-152 | defrag keeps the space invariant |
| Invariant.DefragValidSpace | MemorySpace.java:121-152 | in a valid space, the defrag of the code (exchange sort then merge loop) equals `Defrag` and keeps the invariant |
| Invariant.NoOverlap | MemorySpace.java:8-12 | in a valid space no two blocks of the two lists share a word |
| Invariant.BasesInRange | MemorySpace.java:8-12 | in a valid space every block starts inside [0, maxSize) |
| Invariant.ValidDistinct | MemorySpace.java:8-12 | in a valid space no two free blocks and no two allocated blocks share a base |
| Invariant.RunConserves | MemorySpace.java:60-152 | any sequence of malloc, free and defrag requests keeps the total length of both lists |
| Invariant.RunValid | MemorySpace.java:60-152 | any sequence of requests whose mallocs ask for at least one word keeps the space invariant |
| Invariant.Reachable | MemorySpace.java:20-152 | every space reached from a fresh space of positive size by requests whose mallocs ask for at least one word is valid, so its lengths add up to maxSize |
| Scenarios.SplitExample | MemorySpace.java:45-49 | free 250/20 asked for 17 gives allocated 250/17, free 267/3, address 250 |
| Scenarios.FirstFitExample | MemorySpace.java:34-36 | with free 0/5 then 10/20, a request for 5 takes 0/5 although 10/20 is larger |
| Scenarios.ExactFitExample | MemorySpace.java:53-54 | an exact fit empties the free list of that block |
| Scenarios.SkipShortExample | MemorySpace.java:64-85 | a block that is too short is skipped and the next one is split |
| Scenarios.FreeAppendsExample | MemorySpace.java:91-94 | a freed block goes to the end of the free list, unsorted and unmerged |
| Scenarios.DefragExample | MemorySpace.java:141-151 | free 0/10, 10/5, 20/3 defragments to 0/15, 20/3: only exactly adjacent blocks merge |
| Scenarios.NegativeMergeLoses | MemorySpace.java:146-148 | merging folds a negative length in like any other: 0/5 followed by 5/-2 defragments to 0/3, so word 3, free before, is held by no free block after |
| Scenarios.MallocDoesNotDefrag | MemorySpace.java:116-119 | malloc fails on two adjacent pieces listed out of order, and the same request succeeds after defrag |
| Scenarios.MallocFreeDefragRestores | MemorySpace.java:20-152 | malloc of any positive length on a fresh space, then free of the returned address, then defrag, gives the fresh space back |

## Left out

- `LinkedList`, `ListIterator` and `MemoryBlock` are not part of this model. Their lists are sequences, and node removal is removal at a position. Removal by object identity and removal by equal value pick the same position here: an earlier equal block would have matched the scan first.
- In-place mutation and object identity: the Java operations mutate shared `MemoryBlock` objects, while the model returns new values. No block object is ever in both lists, so nothing observable is lost.
- Java's 32-bit `int`: `baseAddress + length` and `length += next.length` may overflow in the code. The model uses unbounded integers.
- `toString` and any printing of the lists, and any test harness or `main`.
- The unused `index` counter of `malloc`.
- No check of `length`: like the code, `MemorySpace.Malloc` accepts any request.
- Invariant.MallocValid: requires a positive request. A zero request appends an empty allocated block. A request of -n appends the block (b, -n), which holds no word and is not positive, and moves the found free block back to base b - n with length L + n; that block then covers [b - n, b), words that already belong to another block or lie below 0 (`Invariant.NegativeRequestBreaks`). `Invariant.RunValid` and `Invariant.Reachable` carry the same condition on every malloc request.
- Invariant.Reachable: covers only request sequences whose mallocs ask for at least one word. A single `malloc(0)` on a fresh space already leaves a space that is not valid (`Invariant.ZeroRequestBreaks`), and `malloc(-n)` one whose blocks overlap (`Invariant.NegativeRequestBreaks`).
- MemorySpace.DefragCount: requires a free list with no negative length. The code can build a free list with a negative length (`malloc(-n)` then `free` of the returned address), and on it merging loses words: 0/5 followed by 5/-2 merges into 0/3, so word 3 is no longer free (`Scenarios.NegativeMergeLoses`).
- MemorySpace.DefragLists: it is shown equal to `DefragFree` only when the free bases are distinct. Every valid space has distinct bases (`Invariant.ValidDistinct`), but a space reached with a zero-length malloc need not: `malloc(0)` then `free(0)` on a fresh space leaves free blocks 0/10 and 0/0 (`Invariant.ZeroThenFreeDuplicates`). Whether the two sorts also agree on duplicate bases is not proved.
- Coalesce.MergeAdjacent: the Java `for` loop decrements `i` after a merge and the loop header increments it again. The model's `while` loop simply keeps `i` unchanged.
