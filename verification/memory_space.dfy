/**
 * The managed memory space of MemorySpace.java: a list of free blocks and a
 * list of allocated blocks over an abstract address space, with first-fit
 * `Malloc`, `Free` that returns a block to the end of the free list, and
 * `Defrag` that sorts the free list by base and merges adjacent blocks.
 * The Java operations mutate the two lists in place; here each operation
 * takes a `Space` and returns the next one.
 */
module MemorySpace {
  import opened Blocks
  import Sorting
  import Coalesce

  datatype Option<T> = None | Some(value: T)

  /** The two block lists of a memory space. */
  datatype Space = Space(freeList: seq<Block>, allocatedList: seq<Block>)

  /** What `Malloc` leaves behind: the next space and the address it returns. */
  datatype Allocation = Allocation(space: Space, address: int)

  /** The address `Malloc` returns when no free block is long enough. */
  const NoSpace: int := -1

  /** The space of a fresh MemorySpace(maxSize): all words free, in one block. */
  function New(maxSize: int): (m: Space)
    ensures m.allocatedList == []
    ensures |m.freeList| == 1 && m.freeList[0].base == 0
    ensures Total(m.freeList) == maxSize
    ensures forall a :: Count(m.freeList, a) == (if 0 <= a < maxSize then 1 else 0)
  {
    Space([Block(0, maxSize)], [])
  }

  /** Position i holds the first block of `free` that is at least `length` long. */
  predicate IsFirstFit(free: seq<Block>, length: int, i: int)
  {
    && 0 <= i < |free|
    && free[i].length >= length
    && forall k | 0 <= k < i :: free[k].length < length
  }

  /** No block of `free` is at least `length` long. */
  predicate NoFit(free: seq<Block>, length: int)
  {
    forall k | 0 <= k < |free| :: free[k].length < length
  }

  /**
   * The scan of malloc's loop, from position `index` on, knowing that the
   * blocks before it were all too short.
   */
  function FirstFitFrom(free: seq<Block>, length: int, index: nat): (r: Option<nat>)
    requires index <= |free|
    requires forall k | 0 <= k < index :: free[k].length < length
    ensures r.Some? ==> IsFirstFit(free, length, r.value)
    ensures r.None? ==> NoFit(free, length)
    decreases |free| - index
  {
    if index == |free| then None
    else if free[index].length >= length then Some(index)
    else FirstFitFrom(free, length, index + 1)
  }

  /** The position malloc settles on, if any. */
  function FirstFit(free: seq<Block>, length: int): (r: Option<nat>)
    ensures r.Some? ==> IsFirstFit(free, length, r.value)
    ensures r.None? ==> NoFit(free, length)
  {
    FirstFitFrom(free, length, 0)
  }

  /**
   * malloc(length): carve `length` words off the front of the first free block
   * that is long enough, append the carved block to the allocated list and
   * return its base. A block of exactly the requested length leaves the free
   * list; a longer one stays at its position, shortened from the front. When no
   * block is long enough nothing changes and the result is NoSpace.
   */
  function Malloc(m: Space, length: int): (r: Allocation)
    ensures NoFit(m.freeList, length) ==> r == Allocation(m, NoSpace)
    ensures forall i | IsFirstFit(m.freeList, length, i) ::
      && r.address == m.freeList[i].base
      && r.space.allocatedList == m.allocatedList + [Block(m.freeList[i].base, length)]
      && (m.freeList[i].length == length ==> r.space.freeList == Without(m.freeList, i))
      && (m.freeList[i].length > length ==>
            r.space.freeList == m.freeList[i := Block(m.freeList[i].base + length, m.freeList[i].length - length)])
  {
    match FirstFit(m.freeList, length)
    case None => Allocation(m, NoSpace)
    case Some(i) =>
      var found := m.freeList[i];
      var grown := m.allocatedList + [Block(found.base, length)];
      if found.length == length then
        Allocation(Space(Without(m.freeList, i), grown), found.base)
      else
        var rest := Block(found.base + length, found.length - length);
        Allocation(Space(m.freeList[i := rest], grown), found.base)
  }

  /** Position i holds the first block of `blocks` whose base is `address`. */
  predicate IsFirstWithBase(blocks: seq<Block>, address: int, i: int)
  {
    && 0 <= i < |blocks|
    && blocks[i].base == address
    && forall k | 0 <= k < i :: blocks[k].base != address
  }

  /** No block of `blocks` has base `address`. */
  predicate NoBase(blocks: seq<Block>, address: int)
  {
    forall k | 0 <= k < |blocks| :: blocks[k].base != address
  }

  /** The scan of free's loop, from position `index` on. */
  function FindBaseFrom(blocks: seq<Block>, address: int, index: nat): (r: Option<nat>)
    requires index <= |blocks|
    requires forall k | 0 <= k < index :: blocks[k].base != address
    ensures r.Some? ==> IsFirstWithBase(blocks, address, r.value)
    ensures r.None? ==> NoBase(blocks, address)
    decreases |blocks| - index
  {
    if index == |blocks| then None
    else if blocks[index].base == address then Some(index)
    else FindBaseFrom(blocks, address, index + 1)
  }

  /** The position free settles on, if any. */
  function FindBase(blocks: seq<Block>, address: int): (r: Option<nat>)
    ensures r.Some? ==> IsFirstWithBase(blocks, address, r.value)
    ensures r.None? ==> NoBase(blocks, address)
  {
    FindBaseFrom(blocks, address, 0)
  }

  /**
   * free(address): move the first allocated block whose base is `address` to
   * the end of the free list, unchanged. An address no allocated block starts
   * at is ignored.
   */
  function Free(m: Space, address: int): (r: Space)
    ensures NoBase(m.allocatedList, address) ==> r == m
    ensures forall i | IsFirstWithBase(m.allocatedList, address, i) ::
      && r.allocatedList == Without(m.allocatedList, i)
      && r.freeList == m.freeList + [m.allocatedList[i]]
  {
    match FindBase(m.allocatedList, address)
    case None => m
    case Some(i) => Space(m.freeList + [m.allocatedList[i]], Without(m.allocatedList, i))
  }

  /** The free list after defragmentation: sorted by base, then adjacent blocks merged. */
  function DefragFree(free: seq<Block>): (r: seq<Block>)
    ensures SortedByBase(r) && NoAdjacent(r)
    ensures Total(r) == Total(free)
    ensures |r| <= |free|
  {
    var sorted := Sorting.SortByBase(free);
    Sorting.TotalPermutation(sorted, free);
    Coalesce.CoalesceTotal(sorted);
    Coalesce.Coalesce(sorted)
  }

  /** defrag(): reorganises the free list only; the allocated list is untouched. */
  function Defrag(m: Space): (r: Space)
    ensures r.allocatedList == m.allocatedList
    ensures SortedByBase(r.freeList) && NoAdjacent(r.freeList)
    ensures Total(r.freeList) == Total(m.freeList)
  {
    Space(DefragFree(m.freeList), m.allocatedList)
  }

  /**
   * defrag() as MemorySpace.java performs it: the exchange sort, then the
   * merge loop. When the free bases are distinct, as they are in every space
   * reached from `New` by requests whose mallocs ask for at least one word,
   * this is exactly `DefragFree`.
   */
  method DefragLists(free: seq<Block>) returns (r: seq<Block>)
    ensures SortedByBase(r) && NoAdjacent(r)
    ensures Total(r) == Total(free)
    ensures DistinctBases(free) ==> r == DefragFree(free)
  {
    var sorted := Sorting.BubbleSort(free);
    r := Coalesce.MergeAdjacent(sorted);
    Sorting.TotalPermutation(sorted, free);
    Coalesce.CoalesceTotal(sorted);
    if DistinctBases(free) {
      Sorting.SortDistinct(free);
      Sorting.SortedUnique(Sorting.SortByBase(free), sorted);
    }
  }

  /** The total length held in both lists. */
  function Held(m: Space): int
  {
    Total(m.freeList) + Total(m.allocatedList)
  }

  /** malloc keeps the total length of both lists, whatever the request. */
  lemma MallocConserves(m: Space, length: int)
    ensures Held(Malloc(m, length).space) == Held(m)
  {
    match FirstFit(m.freeList, length)
    case None =>
    case Some(i) =>
      TotalAround(m.freeList, i);
      TotalAppend(m.allocatedList, [Block(m.freeList[i].base, length)]);
      var r := Malloc(m, length).space;
      if m.freeList[i].length == length {
        TotalAppend(m.freeList[..i], m.freeList[i + 1..]);
      } else {
        TotalAround(r.freeList, i);
        assert r.freeList[..i] == m.freeList[..i] && r.freeList[i + 1..] == m.freeList[i + 1..];
      }
  }

  /** free moves a block between the lists and so keeps the total. */
  lemma FreeConserves(m: Space, address: int)
    ensures Held(Free(m, address)) == Held(m)
  {
    match FindBase(m.allocatedList, address)
    case None =>
    case Some(i) =>
      TotalAround(m.allocatedList, i);
      TotalAppend(m.allocatedList[..i], m.allocatedList[i + 1..]);
      TotalAppend(m.freeList, [m.allocatedList[i]]);
  }

  /** A defragmented free list is left as it is by a second defrag. */
  lemma DefragFreeIdempotent(free: seq<Block>)
    ensures DefragFree(DefragFree(free)) == DefragFree(free)
  {
    var once := DefragFree(free);
    Sorting.SortSorted(once);
    Coalesce.CoalesceNoAdjacent(once);
  }

  /** defrag twice is defrag once. */
  lemma DefragIdempotent(m: Space)
    ensures Defrag(Defrag(m)) == Defrag(m)
  {
    DefragFreeIdempotent(m.freeList);
  }

  /**
   * defrag keeps every word that was free, free, and makes no other word
   * free: each word is held by as many free blocks before as after.
   */
  lemma DefragCount(free: seq<Block>, a: int)
    requires NonNegative(free)
    ensures Count(DefragFree(free), a) == Count(free, a)
  {
    var sorted := Sorting.SortByBase(free);
    Sorting.CountPermutation(sorted, free, a);
    Sorting.PositivePermutation(free, sorted);
    Coalesce.CoalesceCount(sorted, a);
  }

  /** defrag keeps every free block non-empty. */
  lemma DefragPositive(free: seq<Block>)
    requires Positive(free)
    ensures Positive(DefragFree(free))
  {
    var sorted := Sorting.SortByBase(free);
    Sorting.PositivePermutation(free, sorted);
    Coalesce.CoalescePositive(sorted);
  }
}
