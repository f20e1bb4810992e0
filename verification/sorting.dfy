/**
 * The first phase of defragmentation: ordering the free list by base address.
 * `SortByBase` is the reference definition (an insertion sort);
 * `BubbleSort` is the exchange sort of MemorySpace.defrag, which swaps two
 * neighbours only when the left base is strictly greater. Both keep blocks
 * with equal bases in their input order, but no contract here states that:
 * the two are shown to agree only when bases are distinct (`SortedUnique`).
 */
module Sorting {
  import opened Blocks

  /** Places `x` in front of the first block of sorted `s` whose base is at least x's. */
  function Insert(x: Block, s: seq<Block>): (r: seq<Block>)
    requires SortedByBase(s)
    ensures SortedByBase(r)
    ensures multiset(r) == multiset{x} + multiset(s)
    ensures |r| == |s| + 1
    ensures r[0] == x || (s != [] && r[0] == s[0])
  {
    if s == [] || x.base <= s[0].base then [x] + s
    else
      assert s == [s[0]] + s[1..];
      [s[0]] + Insert(x, s[1..])
  }

  /** The free list in ascending base order (an insertion sort; its stability is not stated). */
  function SortByBase(s: seq<Block>): (r: seq<Block>)
    ensures SortedByBase(r)
    ensures multiset(r) == multiset(s)
    ensures |r| == |s|
  {
    if s == [] then []
    else
      assert s == [s[0]] + s[1..];
      Insert(s[0], SortByBase(s[1..]))
  }

  /** Removing the block at `k` removes one occurrence of it from the multiset. */
  lemma RemoveAt(t: seq<Block>, k: int)
    requires 0 <= k < |t|
    ensures multiset(Without(t, k)) == multiset(t) - multiset{t[k]}
  {
    assert t == t[..k] + [t[k]] + t[k + 1..];
  }

  /** A list that is already in order is left exactly as it is. */
  lemma {:induction false} SortSorted(s: seq<Block>)
    requires SortedByBase(s)
    ensures SortByBase(s) == s
  {
    if s != [] {
      SortSorted(s[1..]);
      assert s == [s[0]] + s[1..];
    }
  }

  /** Reordering a list does not change its total length. */
  lemma {:induction false} TotalPermutation(s: seq<Block>, t: seq<Block>)
    requires multiset(s) == multiset(t)
    ensures Total(s) == Total(t)
    decreases |s|
  {
    if s != [] {
      assert s[0] in multiset(t);
      var k :| 0 <= k < |t| && t[k] == s[0];
      var t' := Without(t, k);
      RemoveAt(t, k);
      assert s == [s[0]] + s[1..];
      TotalPermutation(s[1..], t');
      TotalAround(t, k);
      TotalAppend(t[..k], t[k + 1..]);
    }
  }

  /** Reordering a list does not change how many of its blocks hold a word. */
  lemma {:induction false} CountPermutation(s: seq<Block>, t: seq<Block>, a: int)
    requires multiset(s) == multiset(t)
    ensures Count(s, a) == Count(t, a)
    decreases |s|
  {
    if s != [] {
      assert s[0] in multiset(t);
      var k :| 0 <= k < |t| && t[k] == s[0];
      var t' := Without(t, k);
      RemoveAt(t, k);
      assert s == [s[0]] + s[1..];
      CountPermutation(s[1..], t', a);
      CountAround(t, k, a);
      CountAppend(t[..k], t[k + 1..], a);
    }
  }

  /** Reordering a list keeps every block it had, so a property of all of them survives. */
  lemma PositivePermutation(s: seq<Block>, t: seq<Block>)
    requires multiset(s) == multiset(t)
    ensures Positive(s) ==> Positive(t)
    ensures NonNegative(s) ==> NonNegative(t)
  {
    forall j | 0 <= j < |t|
      ensures exists i :: 0 <= i < |s| && s[i] == t[j]
    {
      assert t[j] in multiset(s);
    }
  }

  /** Two ordered arrangements of the same blocks, one of them with distinct bases, start alike. */
  lemma SortedHeads(s: seq<Block>, t: seq<Block>)
    requires multiset(s) == multiset(t) && s != []
    requires SortedByBase(s) && DistinctBases(s)
    requires SortedByBase(t)
    ensures t != [] && s[0] == t[0]
  {
    assert s[0] in multiset(t);
    assert t != [];
    assert t[0] in multiset(s);
    var p :| 0 <= p < |s| && s[p] == t[0];
    var q :| 0 <= q < |t| && t[q] == s[0];
    assert s[0].base <= t[0].base <= s[0].base;
  }

  /** Two arrangements of the same blocks that start alike continue with the same blocks. */
  lemma SameTails(s: seq<Block>, t: seq<Block>)
    requires multiset(s) == multiset(t) && s != [] && t != [] && s[0] == t[0]
    ensures multiset(s[1..]) == multiset(t[1..])
  {
    assert s == [s[0]] + s[1..] && t == [t[0]] + t[1..];
    assert multiset(s[1..]) == multiset(s) - multiset{s[0]};
    assert multiset(t[1..]) == multiset(t) - multiset{t[0]};
  }

  /**
   * A list in strictly ascending base order is the only ordered arrangement of
   * its blocks, so every sorting algorithm produces it.
   */
  lemma {:induction false} SortedUnique(s: seq<Block>, t: seq<Block>)
    requires multiset(s) == multiset(t)
    requires SortedByBase(s) && DistinctBases(s)
    requires SortedByBase(t)
    ensures s == t
    decreases |s|
  {
    if s == [] {
      assert |t| == |multiset(t)| == 0;
    } else {
      SortedHeads(s, t);
      SameTails(s, t);
      SortedUnique(s[1..], t[1..]);
    }
  }

  /** Inserting a block into a list avoids every base that the block and the list avoid. */
  lemma InsertAvoids(x: Block, s: seq<Block>, b: int)
    requires SortedByBase(s)
    requires x.base != b && forall i | 0 <= i < |s| :: s[i].base != b
    ensures forall j | 0 <= j < |Insert(x, s)| :: Insert(x, s)[j].base != b
  {
  }

  /** Inserting a block whose base is new into a list with distinct bases keeps them distinct. */
  lemma {:induction false} InsertDistinct(x: Block, s: seq<Block>)
    requires SortedByBase(s) && DistinctBases(s)
    requires forall i | 0 <= i < |s| :: s[i].base != x.base
    ensures DistinctBases(Insert(x, s))
  {
    if s != [] && x.base > s[0].base {
      InsertDistinct(x, s[1..]);
      InsertAvoids(x, s[1..], s[0].base);
      assert Insert(x, s) == [s[0]] + Insert(x, s[1..]);
    }
  }

  /** The result of `SortByBase` has distinct bases when its input does. */
  lemma {:induction false} SortDistinct(s: seq<Block>)
    requires DistinctBases(s)
    ensures DistinctBases(SortByBase(s))
  {
    if s != [] {
      SortDistinct(s[1..]);
      var r := SortByBase(s[1..]);
      forall j | 0 <= j < |r|
        ensures r[j].base != s[0].base
      {
        assert r[j] in multiset(s[1..]);
      }
      InsertDistinct(s[0], r);
    }
  }

  /**
   * The blocks from position m on are in their final places: they are in order,
   * and none of them has a smaller base than a block before position m.
   */
  predicate Placed(t: seq<Block>, m: int)
    requires 0 <= m <= |t|
  {
    && (forall k, l | m <= k < l < |t| :: t[k].base <= t[l].base)
    && (forall k, l | 0 <= k < m <= l < |t| :: t[k].base <= t[l].base)
  }

  /** `u` with the neighbours at j and j + 1 exchanged. */
  function Swap(u: seq<Block>, j: int): (v: seq<Block>)
    requires 0 <= j < |u| - 1
    ensures |v| == |u| && multiset(v) == multiset(u)
    ensures v[j] == u[j + 1] && v[j + 1] == u[j]
    ensures forall k | 0 <= k < |u| && k != j && k != j + 1 :: v[k] == u[k]
  {
    u[j := u[j + 1]][j + 1 := u[j]]
  }

  /** A swap inside the unsorted prefix leaves the placed suffix placed. */
  lemma SwapPlaced(u: seq<Block>, m: int, j: int)
    requires 0 <= j < m - 1 && m <= |u|
    requires Placed(u, m)
    ensures Placed(Swap(u, j), m)
  {
  }

  /** What holds after the pass has looked at u[..j + 1]. */
  predicate PassInvariant(t: seq<Block>, u: seq<Block>, m: int, j: int)
    requires 1 <= m <= |t|
  {
    && 0 <= j <= m - 1
    && |u| == |t| && multiset(u) == multiset(t)
    && Placed(u, m)
    && (SortedByBase(t) ==> u == t)
    // u[j] carries the largest base seen so far in this pass.
    && (forall k | 0 <= k <= j :: u[k].base <= u[j].base)
  }

  /** One compare-and-swap step keeps the pass invariant. */
  lemma PassStep(t: seq<Block>, u: seq<Block>, m: int, j: int)
    requires 1 <= m <= |t|
    requires PassInvariant(t, u, m, j) && j < m - 1
    ensures u[j].base > u[j + 1].base ==> PassInvariant(t, Swap(u, j), m, j + 1)
    ensures u[j].base <= u[j + 1].base ==> PassInvariant(t, u, m, j + 1)
  {
  }

  /**
   * One pass of the inner loop of MemorySpace.defrag over t[..m]: neighbours
   * out of order are swapped, which carries the largest base to position m - 1.
   */
  method BubblePass(t: seq<Block>, m: int) returns (u: seq<Block>)
    requires 1 <= m <= |t|
    requires Placed(t, m)
    ensures |u| == |t| && multiset(u) == multiset(t)
    ensures Placed(u, m - 1)
    ensures SortedByBase(t) ==> u == t
  {
    u := t;
    var j := 0;
    while j < m - 1
      invariant PassInvariant(t, u, m, j)
    {
      PassStep(t, u, m, j);
      if u[j].base > u[j + 1].base {
        u := Swap(u, j);
      }
      j := j + 1;
    }
  }

  /**
   * The exchange sort of MemorySpace.defrag: pass i bubbles the largest base
   * of the unsorted prefix t[..n - i] to its end.
   */
  method BubbleSort(s: seq<Block>) returns (t: seq<Block>)
    ensures SortedByBase(t)
    ensures multiset(t) == multiset(s)
    ensures SortedByBase(s) ==> t == s
  {
    t := s;
    var n := |t|;
    var i := 0;
    while i < n - 1
      invariant |t| == n
      invariant 0 <= i <= n
      invariant multiset(t) == multiset(s)
      invariant SortedByBase(s) ==> t == s
      invariant Placed(t, n - i)
    {
      t := BubblePass(t, n - i);
      i := i + 1;
    }
    assert n == 0 || n - i <= 1;
  }
}
