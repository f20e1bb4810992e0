/**
 * What every memory space reached from `New(maxSize)`, maxSize > 0, by
 * requests whose mallocs ask for at least one word satisfies: every word
 * 0 <= a < maxSize lies in exactly one block, free or allocated, no other word
 * lies in any block, no block is empty, and the lengths add up to maxSize.
 * `Malloc` (with a positive request), `Free` and `Defrag` each keep it, and
 * from it follow the facts callers of MemorySpace rely on: blocks never
 * overlap, bases are distinct, and -1 is returned only when nothing fits.
 */
module Invariant {
  import opened Blocks
  import opened MemorySpace

  /** Every word in [0, maxSize) lies in exactly one block of `s`, and no other word in any. */
  ghost predicate Partition(s: seq<Block>, maxSize: int)
  {
    forall a :: Count(s, a) == (if 0 <= a < maxSize then 1 else 0)
  }

  /** Both lists together. */
  function All(m: Space): seq<Block>
  {
    m.freeList + m.allocatedList
  }

  /** The invariant of a memory space of size maxSize. */
  ghost predicate Valid(m: Space, maxSize: int)
  {
    && Positive(m.freeList)
    && Positive(m.allocatedList)
    && Held(m) == maxSize
    && Partition(All(m), maxSize)
  }

  /** A fresh memory space of positive size is valid. */
  lemma NewValid(maxSize: int)
    requires maxSize > 0
    ensures Valid(New(maxSize), maxSize)
  {
  }

  /** A block taken out of `s` at i and added elsewhere is counted just as often. */
  lemma CountWithout(s: seq<Block>, i: int, a: int)
    requires 0 <= i < |s|
    ensures Count(s, a) == Count(Without(s, i), a) + Hit(s[i], a)
  {
    CountAround(s, i, a);
    CountAppend(s[..i], s[i + 1..], a);
  }

  /** Carving n words off the front of a block splits the words it holds. */
  lemma HitSplit(b: Block, n: int, a: int)
    requires 0 <= n <= b.length
    ensures Hit(b, a) == Hit(Block(b.base, n), a) + Hit(Block(b.base + n, b.length - n), a)
  {
  }

  /** Moving the free block at i to the end of the allocated list keeps every word's count. */
  lemma MoveCount(free: seq<Block>, used: seq<Block>, i: int, a: int)
    requires 0 <= i < |free|
    ensures Count(Without(free, i) + (used + [free[i]]), a) == Count(free + used, a)
  {
    CountAppend(free, used, a);
    CountAppend(Without(free, i), used + [free[i]], a);
    CountAppend(used, [free[i]], a);
    CountWithout(free, i, a);
  }

  /** Carving `length` words off the front of the free block at i keeps every word's count. */
  lemma CarveCount(free: seq<Block>, used: seq<Block>, i: int, length: int, a: int)
    requires 0 <= i < |free| && 0 <= length <= free[i].length
    ensures var b := free[i];
            Count(free[i := Block(b.base + length, b.length - length)] + (used + [Block(b.base, length)]), a)
            == Count(free + used, a)
  {
    var b := free[i];
    var free' := free[i := Block(b.base + length, b.length - length)];
    CountAppend(free, used, a);
    CountAppend(free', used + [Block(b.base, length)], a);
    CountAppend(used, [Block(b.base, length)], a);
    CountWithout(free, i, a);
    CountWithout(free', i, a);
    assert Without(free', i) == Without(free, i);
    HitSplit(b, length, a);
  }

  /** The exact-fit case of malloc: moving the free block at i to the end of the allocated list. */
  lemma MoveValid(m: Space, maxSize: int, i: int)
    requires Valid(m, maxSize) && 0 <= i < |m.freeList|
    ensures Valid(Space(Without(m.freeList, i), m.allocatedList + [m.freeList[i]]), maxSize)
  {
    var r := Space(Without(m.freeList, i), m.allocatedList + [m.freeList[i]]);
    TotalAround(m.freeList, i);
    TotalAppend(m.freeList[..i], m.freeList[i + 1..]);
    TotalAppend(m.allocatedList, [m.freeList[i]]);
    forall a
      ensures Count(All(r), a) == Count(All(m), a)
    {
      MoveCount(m.freeList, m.allocatedList, i, a);
    }
  }

  /** The split case of malloc: carving `length` words off the front of the free block at i. */
  lemma CarveValid(m: Space, maxSize: int, i: int, length: int)
    requires Valid(m, maxSize) && 0 <= i < |m.freeList|
    requires 0 < length < m.freeList[i].length
    ensures var b := m.freeList[i];
            Valid(Space(m.freeList[i := Block(b.base + length, b.length - length)],
                        m.allocatedList + [Block(b.base, length)]), maxSize)
  {
    var b := m.freeList[i];
    var free' := m.freeList[i := Block(b.base + length, b.length - length)];
    var r := Space(free', m.allocatedList + [Block(b.base, length)]);
    TotalAround(m.freeList, i);
    TotalAround(free', i);
    assert free'[..i] == m.freeList[..i] && free'[i + 1..] == m.freeList[i + 1..];
    TotalAppend(m.allocatedList, [Block(b.base, length)]);
    forall a
      ensures Count(All(r), a) == Count(All(m), a)
    {
      CarveCount(m.freeList, m.allocatedList, i, length, a);
    }
  }

  /** malloc with a positive request keeps a space valid. */
  lemma MallocValid(m: Space, maxSize: int, length: int)
    requires Valid(m, maxSize) && length > 0
    ensures Valid(Malloc(m, length).space, maxSize)
  {
    match FirstFit(m.freeList, length)
    case None =>
    case Some(i) =>
      if m.freeList[i].length == length {
        MoveValid(m, maxSize, i);
      } else {
        CarveValid(m, maxSize, i, length);
      }
  }

  /** Ten words in two free blocks listed out of order, nothing allocated: a valid space. */
  lemma TwoHalvesValid()
    ensures Valid(Space([Block(5, 5), Block(0, 5)], []), 10)
  {
    var m := Space([Block(5, 5), Block(0, 5)], []);
    assert All(m) == m.freeList;
    assert m.freeList[1..] == [Block(0, 5)];
    forall a
      ensures Count(All(m), a) == (if 0 <= a < 10 then 1 else 0)
    {
      assert [Block(0, 5)][1..] == [];
      assert Count([Block(0, 5)], a) == Hit(Block(0, 5), a);
      assert Count(m.freeList, a) == Hit(Block(5, 5), a) + Count([Block(0, 5)], a);
    }
  }

  /**
   * Why `MallocValid` needs a positive request: in a valid space of 10 words,
   * a request for -2 words carves the empty block 5/-2 and moves the free block
   * 5/5 back to 3/7, over the words 3 and 4 that 0/5 already holds.
   */
  lemma NegativeRequestBreaks()
    ensures Valid(Space([Block(5, 5), Block(0, 5)], []), 10)
    ensures Malloc(Space([Block(5, 5), Block(0, 5)], []), -2)
         == Allocation(Space([Block(3, 7), Block(0, 5)], [Block(5, -2)]), 5)
    ensures Count(All(Space([Block(3, 7), Block(0, 5)], [Block(5, -2)])), 3) == 2
    ensures !Valid(Space([Block(3, 7), Block(0, 5)], [Block(5, -2)]), 10)
  {
    TwoHalvesValid();
    assert IsFirstFit([Block(5, 5), Block(0, 5)], -2, 0);
    var r := Space([Block(3, 7), Block(0, 5)], [Block(5, -2)]);
    assert All(r)[1..] == [Block(0, 5), Block(5, -2)];
    assert All(r)[1..][1..] == [Block(5, -2)];
  }

  /** A request for no words on a fresh space appends the empty block 0/0: the space is no longer valid. */
  lemma ZeroRequestBreaks()
    ensures Malloc(New(10), 0) == Allocation(Space([Block(0, 10)], [Block(0, 0)]), 0)
    ensures !Valid(Malloc(New(10), 0).space, 10)
    ensures !Valid(Run(New(10), [MallocRequest(0)]), 10)
  {
    assert IsFirstFit([Block(0, 10)], 0, 0);
    assert [MallocRequest(0)][1..] == [];
  }

  /** malloc(0) then free(0) on a fresh space leaves two free blocks with the same base. */
  lemma ZeroThenFreeDuplicates()
    ensures Run(New(10), [MallocRequest(0), FreeRequest(0)]).freeList == [Block(0, 10), Block(0, 0)]
    ensures !DistinctBases(Run(New(10), [MallocRequest(0), FreeRequest(0)]).freeList)
  {
    var requests := [MallocRequest(0), FreeRequest(0)];
    ZeroRequestBreaks();
    var m := Space([Block(0, 10)], [Block(0, 0)]);
    assert IsFirstWithBase(m.allocatedList, 0, 0);
    assert requests[1..] == [FreeRequest(0)] && requests[1..][1..] == [];
    assert Run(New(10), requests) == Run(m, [FreeRequest(0)]);
    var f := Run(New(10), requests).freeList;
    assert f[0].base == f[1].base;
  }

  /** free keeps a space valid, whether or not the address is allocated. */
  lemma FreeValid(m: Space, maxSize: int, address: int)
    requires Valid(m, maxSize)
    ensures Valid(Free(m, address), maxSize)
  {
    FreeConserves(m, address);
    var r := Free(m, address);
    match FindBase(m.allocatedList, address)
    case None =>
    case Some(i) =>
      var block := m.allocatedList[i];
      forall a
        ensures Count(All(r), a) == Count(All(m), a)
      {
        CountAppend(m.freeList, m.allocatedList, a);
        CountAppend(r.freeList, r.allocatedList, a);
        CountAppend(m.freeList, [block], a);
        CountWithout(m.allocatedList, i, a);
      }
  }

  /** defrag keeps a space valid. */
  lemma DefragValid(m: Space, maxSize: int)
    requires Valid(m, maxSize)
    ensures Valid(Defrag(m), maxSize)
  {
    var r := Defrag(m);
    DefragPositive(m.freeList);
    forall a
      ensures Count(All(r), a) == Count(All(m), a)
    {
      CountAppend(m.freeList, m.allocatedList, a);
      CountAppend(r.freeList, r.allocatedList, a);
      DefragCount(m.freeList, a);
    }
  }

  /** In a valid space, no two blocks share a word, free or allocated. */
  lemma NoOverlap(m: Space, maxSize: int, i: int, j: int)
    requires Valid(m, maxSize)
    requires 0 <= i < j < |All(m)|
    ensures All(m)[i].End() <= All(m)[j].base || All(m)[j].End() <= All(m)[i].base
  {
    var s := All(m);
    if s[i].End() > s[j].base && s[j].End() > s[i].base {
      var a := if s[i].base <= s[j].base then s[j].base else s[i].base;
      assert s[i].length > 0 && s[j].length > 0 by {
        if i < |m.freeList| {
          assert s[i] == m.freeList[i];
        } else {
          assert s[i] == m.allocatedList[i - |m.freeList|];
        }
        if j < |m.freeList| {
          assert s[j] == m.freeList[j];
        } else {
          assert s[j] == m.allocatedList[j - |m.freeList|];
        }
      }
      CountAtLeastTwo(s, i, j, a);
      assert false;
    }
  }

  /** In a valid space, every block starts inside [0, maxSize). */
  lemma BasesInRange(m: Space, maxSize: int, i: int)
    requires Valid(m, maxSize)
    requires 0 <= i < |All(m)|
    ensures 0 <= All(m)[i].base < maxSize
  {
    var s := All(m);
    if i < |m.freeList| {
      assert s[i] == m.freeList[i];
    } else {
      assert s[i] == m.allocatedList[i - |m.freeList|];
    }
    CountAtLeastOne(s, i, s[i].base);
  }

  /** In a valid space, no two free blocks and no two allocated blocks share a base. */
  lemma ValidDistinct(m: Space, maxSize: int)
    requires Valid(m, maxSize)
    ensures DistinctBases(m.freeList) && DistinctBases(m.allocatedList)
  {
    var s := All(m);
    var f := |m.freeList|;
    forall i, j | 0 <= i < j < f
      ensures m.freeList[i].base != m.freeList[j].base
    {
      NoOverlap(m, maxSize, i, j);
      assert s[i] == m.freeList[i] && s[j] == m.freeList[j];
    }
    forall i, j | 0 <= i < j < |m.allocatedList|
      ensures m.allocatedList[i].base != m.allocatedList[j].base
    {
      NoOverlap(m, maxSize, f + i, f + j);
      assert s[f + i] == m.allocatedList[i] && s[f + j] == m.allocatedList[j];
    }
  }

  /**
   * In a valid space malloc's -1 is unambiguous: it is returned exactly when
   * no free block is long enough, since every real base is at least 0.
   */
  lemma MallocNoSpaceExactly(m: Space, maxSize: int, length: int)
    requires Valid(m, maxSize)
    ensures Malloc(m, length).address == NoSpace <==> NoFit(m.freeList, length)
  {
    match FirstFit(m.freeList, length)
    case None =>
    case Some(i) =>
      BasesInRange(m, maxSize, i);
      assert All(m)[i] == m.freeList[i];
  }

  /** In a valid space, freeing the same address twice is the same as freeing it once. */
  lemma FreeTwice(m: Space, maxSize: int, address: int)
    requires Valid(m, maxSize)
    ensures Free(Free(m, address), address) == Free(m, address)
  {
    match FindBase(m.allocatedList, address)
    case None =>
    case Some(i) =>
      ValidDistinct(m, maxSize);
      var rest := Without(m.allocatedList, i);
      forall k | 0 <= k < |rest|
        ensures rest[k].base != address
      {
        if k < i {
          assert rest[k] == m.allocatedList[k];
        } else {
          assert rest[k] == m.allocatedList[k + 1];
        }
      }
  }

  /**
   * In a valid space, the defrag of MemorySpace.java (exchange sort, then the
   * merge loop) computes exactly `Defrag`.
   */
  method DefragValidSpace(m: Space, ghost maxSize: int) returns (r: Space)
    requires Valid(m, maxSize)
    ensures r == Defrag(m)
    ensures Valid(r, maxSize)
  {
    ValidDistinct(m, maxSize);
    var free := DefragLists(m.freeList);
    r := Space(free, m.allocatedList);
    DefragValid(m, maxSize);
  }

  /** The requests a program makes of a MemorySpace. */
  datatype Request = MallocRequest(length: int) | FreeRequest(address: int) | DefragRequest

  /** The space after `m` serves `requests` in order; malloc's address is dropped. */
  function Run(m: Space, requests: seq<Request>): Space
    decreases |requests|
  {
    if requests == [] then m
    else
      var next := match requests[0]
        case MallocRequest(length) => Malloc(m, length).space
        case FreeRequest(address) => Free(m, address)
        case DefragRequest => Defrag(m);
      Run(next, requests[1..])
  }

  /** Any sequence of requests, however ill-formed, keeps the total length of both lists. */
  lemma {:induction false} RunConserves(m: Space, requests: seq<Request>)
    ensures Held(Run(m, requests)) == Held(m)
    decreases |requests|
  {
    if requests != [] {
      match requests[0]
      case MallocRequest(length) =>
        MallocConserves(m, length);
        RunConserves(Malloc(m, length).space, requests[1..]);
      case FreeRequest(address) =>
        FreeConserves(m, address);
        RunConserves(Free(m, address), requests[1..]);
      case DefragRequest =>
        RunConserves(Defrag(m), requests[1..]);
    }
  }

  /** Every malloc request in `requests` asks for at least one word. */
  predicate PositiveRequests(requests: seq<Request>)
  {
    forall k | 0 <= k < |requests| :: requests[k].MallocRequest? ==> requests[k].length > 0
  }

  /** Any sequence of requests whose mallocs ask for at least one word keeps a space valid. */
  lemma {:induction false} RunValid(m: Space, maxSize: int, requests: seq<Request>)
    requires Valid(m, maxSize)
    requires PositiveRequests(requests)
    ensures Valid(Run(m, requests), maxSize)
    decreases |requests|
  {
    if requests != [] {
      assert PositiveRequests(requests[1..]) by {
        forall k | 0 <= k < |requests[1..]|
          ensures requests[1..][k] == requests[k + 1]
        {
        }
      }
      match requests[0]
      case MallocRequest(length) =>
        MallocValid(m, maxSize, length);
        RunValid(Malloc(m, length).space, maxSize, requests[1..]);
      case FreeRequest(address) =>
        FreeValid(m, maxSize, address);
        RunValid(Free(m, address), maxSize, requests[1..]);
      case DefragRequest =>
        DefragValid(m, maxSize);
        RunValid(Defrag(m), maxSize, requests[1..]);
    }
  }

  /**
   * Every space reached from a fresh space of positive size by requests whose
   * mallocs ask for at least one word is valid. The condition is needed:
   * see `ZeroRequestBreaks`.
   */
  lemma Reachable(maxSize: int, requests: seq<Request>)
    requires maxSize > 0
    requires PositiveRequests(requests)
    ensures Valid(Run(New(maxSize), requests), maxSize)
  {
    NewValid(maxSize);
    RunValid(New(maxSize), maxSize, requests);
  }
}
