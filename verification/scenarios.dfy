/**
 * Concrete behaviours of the memory space, including the worked example of
 * MemorySpace.malloc's documentation, and the allocate-free-defrag round trip.
 */
module Scenarios {
  import opened Blocks
  import opened MemorySpace

  /** A free block 250/20 asked for 17 words: allocated 250/17, free 267/3. */
  lemma SplitExample()
    ensures Malloc(Space([Block(250, 20)], []), 17)
         == Allocation(Space([Block(267, 3)], [Block(250, 17)]), 250)
  {
    assert IsFirstFit([Block(250, 20)], 17, 0);
  }

  /** First fit, not best fit: the first long-enough block is chosen although a later one is larger. */
  lemma FirstFitExample()
    ensures Malloc(Space([Block(0, 5), Block(10, 20)], []), 5)
         == Allocation(Space([Block(10, 20)], [Block(0, 5)]), 0)
  {
    var free := [Block(0, 5), Block(10, 20)];
    assert IsFirstFit(free, 5, 0);
    assert free[1..] == [Block(10, 20)];
  }

  /** An exact fit leaves the free list. */
  lemma ExactFitExample()
    ensures Malloc(Space([Block(0, 5)], []), 5) == Allocation(Space([], [Block(0, 5)]), 0)
  {
    assert IsFirstFit([Block(0, 5)], 5, 0);
  }

  /** The scan skips a block that is too short and uses the next one. */
  lemma SkipShortExample()
    ensures Malloc(Space([Block(0, 3), Block(10, 20)], []), 5)
         == Allocation(Space([Block(0, 3), Block(15, 15)], [Block(10, 5)]), 10)
  {
    var free := [Block(0, 3), Block(10, 20)];
    assert IsFirstFit(free, 5, 1);
    assert free[1 := Block(15, 15)] == [Block(0, 3), Block(15, 15)];
  }

  /** free puts the block at the end of the free list, out of address order and unmerged. */
  lemma FreeAppendsExample()
    ensures Free(Space([Block(10, 90)], [Block(0, 10)]), 0) == Space([Block(10, 90), Block(0, 10)], [])
  {
    assert IsFirstWithBase([Block(0, 10)], 0, 0);
  }

  /** Sorting two blocks listed in descending order swaps them. */
  lemma SortTwo(x: Block, y: Block)
    requires y.base < x.base
    ensures Sorting.SortByBase([x, y]) == [y, x]
  {
    assert [x, y][1..] == [y];
    assert Sorting.SortByBase([y]) == [y];
  }

  /** Coalescing two exactly adjacent blocks gives one block. */
  lemma CoalesceTwo(x: Block, y: Block)
    requires x.End() == y.base
    ensures Coalesce.Coalesce([x, y]) == [Block(x.base, x.length + y.length)]
  {
    assert [x, y][1..] == [y];
    assert Coalesce.MergeFrom(x, [y]) == Coalesce.MergeFrom(Coalesce.Absorb(x, y), []);
  }

  /** defrag merges only exactly adjacent blocks: 0+10 meets 10, but 10+5 stops short of 20. */
  lemma DefragExample()
    ensures Defrag(Space([Block(0, 10), Block(10, 5), Block(20, 3)], []))
         == Space([Block(0, 15), Block(20, 3)], [])
  {
    var sorted := [Block(0, 10), Block(10, 5), Block(20, 3)];
    Sorting.SortSorted(sorted);
    CoalesceThree(Block(0, 10), Block(10, 5), Block(20, 3));
  }

  /** Three sorted blocks of which only the first two meet: those two merge and the third stays. */
  lemma CoalesceThree(x: Block, y: Block, z: Block)
    requires x.End() == y.base && x.End() + y.length != z.base
    ensures Coalesce.Coalesce([x, y, z]) == [Block(x.base, x.length + y.length), z]
  {
    assert [x, y, z][1..] == [y, z];
    assert Coalesce.MergeFrom(x, [y, z]) == Coalesce.MergeFrom(Coalesce.Absorb(x, y), [z]);
    assert [z][1..] == [];
  }

  /** Why `DefragCount` asks for non-negative lengths: 0/5 absorbs 5/-2 and shrinks to 0/3. */
  lemma NegativeMergeLoses()
    ensures DefragFree([Block(0, 5), Block(5, -2)]) == [Block(0, 3)]
    ensures Count([Block(0, 5), Block(5, -2)], 3) == 1
    ensures Count(DefragFree([Block(0, 5), Block(5, -2)]), 3) == 0
  {
    var free := [Block(0, 5), Block(5, -2)];
    Sorting.SortSorted(free);
    CoalesceTwo(Block(0, 5), Block(5, -2));
    assert free[1..] == [Block(5, -2)];
  }

  /**
   * malloc never defragments: with the words 0..9 free in two adjacent pieces
   * listed out of order, a request for 10 fails, although it succeeds after a
   * defrag.
   */
  lemma MallocDoesNotDefrag()
    ensures Malloc(Space([Block(5, 5), Block(0, 5)], []), 10).address == NoSpace
    ensures Malloc(Defrag(Space([Block(5, 5), Block(0, 5)], [])), 10).address == 0
  {
    assert NoFit([Block(5, 5), Block(0, 5)], 10);
    RestoreSplit(10, 5);
    assert IsFirstFit([Block(0, 10)], 10, 0);
  }

  /**
   * Allocating any positive number of words from a fresh space, freeing the
   * returned address and defragmenting gives back the fresh space, whether
   * the request was split off, fitted exactly, or refused.
   */
  lemma MallocFreeDefragRestores(maxSize: int, length: int)
    requires length > 0
    ensures var a := Malloc(New(maxSize), length);
            Defrag(Free(a.space, a.address)) == New(maxSize)
  {
    var a := Malloc(New(maxSize), length);
    if maxSize < length {
      MallocFreshRefused(maxSize, length);
      assert Free(New(maxSize), NoSpace) == New(maxSize);
      DefragSingle(New(maxSize));
    } else if maxSize == length {
      MallocFreshExact(maxSize);
      FreeOnly(Block(0, maxSize));
      DefragSingle(New(maxSize));
    } else {
      MallocFreshSplit(maxSize, length);
      FreeOnlyAfter(Block(length, maxSize - length), Block(0, length));
      RestoreSplit(maxSize, length);
    }
  }

  /** A request longer than a fresh space is refused. */
  lemma MallocFreshRefused(maxSize: int, length: int)
    requires maxSize < length
    ensures Malloc(New(maxSize), length) == Allocation(New(maxSize), NoSpace)
  {
    assert NoFit(New(maxSize).freeList, length);
  }

  /** A request for the whole of a fresh space takes its only block. */
  lemma MallocFreshExact(maxSize: int)
    ensures Malloc(New(maxSize), maxSize) == Allocation(Space([], [Block(0, maxSize)]), 0)
  {
    assert IsFirstFit(New(maxSize).freeList, maxSize, 0);
  }

  /** A shorter request splits the only block of a fresh space. */
  lemma MallocFreshSplit(maxSize: int, length: int)
    requires length < maxSize
    ensures Malloc(New(maxSize), length)
         == Allocation(Space([Block(length, maxSize - length)], [Block(0, length)]), 0)
  {
    assert IsFirstFit(New(maxSize).freeList, length, 0);
  }

  /** Freeing the only allocated block of a space with an empty free list. */
  lemma FreeOnly(b: Block)
    ensures Free(Space([], [b]), b.base) == Space([b], [])
  {
    assert IsFirstWithBase([b], b.base, 0);
  }

  /** Freeing the only allocated block puts it after the only free block. */
  lemma FreeOnlyAfter(f: Block, b: Block)
    ensures Free(Space([f], [b]), b.base) == Space([f, b], [])
  {
    assert IsFirstWithBase([b], b.base, 0);
  }

  /** A space with one free block and nothing allocated is left alone by defrag. */
  lemma DefragSingle(m: Space)
    requires |m.freeList| == 1 && m.allocatedList == []
    ensures Defrag(m) == m
  {
    Sorting.SortSorted(m.freeList);
    Coalesce.CoalesceNoAdjacent(m.freeList);
  }

  /** The split case of `MallocFreeDefragRestores`: the two halves meet again. */
  lemma RestoreSplit(maxSize: int, length: int)
    requires 0 < length < maxSize
    ensures Defrag(Space([Block(length, maxSize - length), Block(0, length)], [])) == New(maxSize)
  {
    SortTwo(Block(length, maxSize - length), Block(0, length));
    CoalesceTwo(Block(0, length), Block(length, maxSize - length));
  }
}
