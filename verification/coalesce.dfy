/**
 * The second phase of defragmentation: walking the sorted free list left to
 * right and folding every block that starts exactly where the current one
 * ends into it. `Coalesce` is the reference definition; `MergeAdjacent` is the
 * index loop of MemorySpace.defrag, which removes the absorbed block and looks
 * at the same position again.
 */
module Coalesce {
  import opened Blocks

  /** `cur` grown by `next`, which starts where `cur` ends. */
  function Absorb(cur: Block, next: Block): Block
  {
    Block(cur.base, cur.length + next.length)
  }

  /**
   * The merged list that starts with the current block `cur` followed by the
   * blocks of `rest` not yet looked at.
   */
  function MergeFrom(cur: Block, rest: seq<Block>): (r: seq<Block>)
    ensures r != [] && r[0].base == cur.base
    ensures NoAdjacent(r)
    ensures SortedFrom(cur, rest) ==> SortedByBase(r)
    decreases |rest|
  {
    if rest == [] then [cur]
    else if cur.End() == rest[0].base then
      MergeFrom(Absorb(cur, rest[0]), rest[1..])
    else
      var r' := MergeFrom(rest[0], rest[1..]);
      assert SortedFrom(cur, rest) ==> forall i | 0 <= i < |r'| :: cur.base <= r'[i].base by {
        if SortedFrom(cur, rest) {
          assert SortedFrom(rest[0], rest[1..]);
        }
      }
      [cur] + r'
  }

  /** `cur` followed by `rest` is in ascending base order. */
  predicate SortedFrom(cur: Block, rest: seq<Block>)
  {
    && SortedByBase(rest)
    && forall i | 0 <= i < |rest| :: cur.base <= rest[i].base
  }

  /** The free list with every run of exactly adjacent blocks merged into one. */
  function Coalesce(s: seq<Block>): (r: seq<Block>)
    ensures NoAdjacent(r)
    ensures SortedByBase(s) ==> SortedByBase(r)
    ensures |r| <= |s|
    ensures r == [] <==> s == []
  {
    if s == [] then []
    else
      assert SortedByBase(s) ==> SortedFrom(s[0], s[1..]);
      MergeLength(s[0], s[1..]);
      MergeFrom(s[0], s[1..])
  }

  /** Merging never lengthens the list. */
  lemma {:induction false} MergeLength(cur: Block, rest: seq<Block>)
    ensures |MergeFrom(cur, rest)| <= 1 + |rest|
    decreases |rest|
  {
    if rest != [] {
      if cur.End() == rest[0].base {
        MergeLength(Absorb(cur, rest[0]), rest[1..]);
      } else {
        MergeLength(rest[0], rest[1..]);
      }
    }
  }

  /** Merging keeps the total length of the blocks. */
  lemma {:induction false} MergeTotal(cur: Block, rest: seq<Block>)
    ensures Total(MergeFrom(cur, rest)) == cur.length + Total(rest)
    decreases |rest|
  {
    if rest != [] {
      if cur.End() == rest[0].base {
        MergeTotal(Absorb(cur, rest[0]), rest[1..]);
      } else {
        MergeTotal(rest[0], rest[1..]);
      }
    }
  }

  /**
   * Merging keeps the set of words covered, counted with multiplicity, as long
   * as no length is negative (a negative block covers no words, but absorbing
   * one would shrink its neighbour).
   */
  lemma {:induction false} MergeCount(cur: Block, rest: seq<Block>, a: int)
    requires cur.length >= 0 && NonNegative(rest)
    ensures Count(MergeFrom(cur, rest), a) == Hit(cur, a) + Count(rest, a)
    decreases |rest|
  {
    if rest != [] {
      if cur.End() == rest[0].base {
        MergeCount(Absorb(cur, rest[0]), rest[1..], a);
        assert Hit(Absorb(cur, rest[0]), a) == Hit(cur, a) + Hit(rest[0], a);
      } else {
        MergeCount(rest[0], rest[1..], a);
      }
    }
  }

  /** Merging blocks of positive length gives blocks of positive length. */
  lemma {:induction false} MergePositive(cur: Block, rest: seq<Block>)
    requires cur.length > 0 && Positive(rest)
    ensures Positive(MergeFrom(cur, rest))
    decreases |rest|
  {
    if rest != [] {
      if cur.End() == rest[0].base {
        MergePositive(Absorb(cur, rest[0]), rest[1..]);
      } else {
        MergePositive(rest[0], rest[1..]);
      }
    }
  }

  /** A list with no adjacent neighbours is left as it is. */
  lemma {:induction false} MergeNoAdjacent(cur: Block, rest: seq<Block>)
    requires NoAdjacent(rest) && (rest != [] ==> cur.End() != rest[0].base)
    ensures MergeFrom(cur, rest) == [cur] + rest
    decreases |rest|
  {
    if rest != [] {
      assert [rest[0]] + rest[1..] == rest;
      MergeNoAdjacent(rest[0], rest[1..]);
    }
  }

  /** Coalescing keeps the total length of the free list. */
  lemma CoalesceTotal(s: seq<Block>)
    ensures Total(Coalesce(s)) == Total(s)
  {
    if s != [] {
      MergeTotal(s[0], s[1..]);
    }
  }

  /** Coalescing keeps, for every word, how many free blocks hold it. */
  lemma CoalesceCount(s: seq<Block>, a: int)
    requires NonNegative(s)
    ensures Count(Coalesce(s), a) == Count(s, a)
  {
    if s != [] {
      MergeCount(s[0], s[1..], a);
    }
  }

  /** Coalescing blocks of positive length gives blocks of positive length. */
  lemma CoalescePositive(s: seq<Block>)
    requires Positive(s)
    ensures Positive(Coalesce(s))
  {
    if s != [] {
      MergePositive(s[0], s[1..]);
    }
  }

  /** Coalescing a list with no adjacent neighbours changes nothing. */
  lemma CoalesceNoAdjacent(s: seq<Block>)
    requires NoAdjacent(s)
    ensures Coalesce(s) == s
  {
    if s != [] {
      assert s == [s[0]] + s[1..];
      assert s[1..] != [] ==> s[0].End() != s[1..][0].base;
      MergeNoAdjacent(s[0], s[1..]);
    }
  }

  /**
   * The list the merge loop will end with, seen from its state: blocks before
   * position i are final, t[i] is being grown, and the rest is still to come.
   */
  function Pending(t: seq<Block>, i: int): seq<Block>
    requires 0 <= i < |t|
  {
    t[..i] + MergeFrom(t[i], t[i + 1..])
  }

  /** Folding the neighbour into position i does not change where the loop ends up. */
  lemma PendingAbsorb(t: seq<Block>, i: int)
    requires 0 <= i < |t| - 1 && t[i].End() == t[i + 1].base
    ensures Pending(t[..i] + [Absorb(t[i], t[i + 1])] + t[i + 2..], i) == Pending(t, i)
  {
  }

  /** Moving past a block whose neighbour is not adjacent does not change where the loop ends up. */
  lemma PendingSkip(t: seq<Block>, i: int)
    requires 0 <= i < |t| - 1 && t[i].End() != t[i + 1].base
    ensures Pending(t, i + 1) == Pending(t, i)
  {
  }

  /**
   * The merge loop of MemorySpace.defrag. Position i holds the block being
   * grown; a neighbour that starts where it ends is folded into it and
   * removed, and only otherwise does i move on.
   */
  method MergeAdjacent(s: seq<Block>) returns (t: seq<Block>)
    ensures t == Coalesce(s)
  {
    t := s;
    if t == [] {
      return;
    }
    var i := 0;
    while i < |t| - 1
      invariant 0 <= i < |t|
      invariant Pending(t, i) == Coalesce(s)
      decreases |t| - i
    {
      if t[i].End() == t[i + 1].base {
        PendingAbsorb(t, i);
        t := t[..i] + [Absorb(t[i], t[i + 1])] + t[i + 2..];
      } else {
        PendingSkip(t, i);
        i := i + 1;
      }
    }
    assert t == t[..i] + [t[i]];
  }
}
