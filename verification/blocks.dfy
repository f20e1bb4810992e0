/**
 * Blocks of the simulated address space, and the quantities the memory
 * manager keeps track of over lists of them: the total length of a list and
 * how many of its blocks hold a given word.
 */
module Blocks {

  /** A contiguous run of words [base, base + length): a MemoryBlock. */
  datatype Block = Block(base: int, length: int) {

    /** One past the last word of the block. */
    function End(): int {
      base + length
    }

    /** True if word `a` lies inside the block. */
    predicate Holds(a: int) {
      base <= a < End()
    }
  }

  /** The sum of the lengths of the blocks of `s`. */
  function Total(s: seq<Block>): int
  {
    if s == [] then 0 else s[0].length + Total(s[1..])
  }

  /** 1 if block `b` holds word `a`, 0 otherwise. */
  function Hit(b: Block, a: int): nat
  {
    if b.Holds(a) then 1 else 0
  }

  /** How many blocks of `s` hold word `a`. */
  function Count(s: seq<Block>, a: int): nat
  {
    if s == [] then 0 else Hit(s[0], a) + Count(s[1..], a)
  }

  /** Every block of `s` covers at least one word. */
  predicate Positive(s: seq<Block>)
  {
    forall i | 0 <= i < |s| :: s[i].length > 0
  }

  /** No block of `s` has a negative length. */
  predicate NonNegative(s: seq<Block>)
  {
    forall i | 0 <= i < |s| :: s[i].length >= 0
  }

  /** The bases of `s` never decrease from left to right. */
  predicate SortedByBase(s: seq<Block>)
  {
    forall i, j | 0 <= i < j < |s| :: s[i].base <= s[j].base
  }

  /** No block of `s` ends exactly where the next one begins. */
  predicate NoAdjacent(s: seq<Block>)
  {
    forall i | 0 <= i < |s| - 1 :: s[i].End() != s[i + 1].base
  }

  /** No two blocks of `s` share a base address. */
  predicate DistinctBases(s: seq<Block>)
  {
    forall i, j | 0 <= i < j < |s| :: s[i].base != s[j].base
  }

  /** `s` without its block at position i; the others keep their order. */
  function Without(s: seq<Block>, i: int): seq<Block>
    requires 0 <= i < |s|
  {
    s[..i] + s[i + 1..]
  }

  /** The lengths of a concatenation add up. */
  lemma {:induction false} TotalAppend(s: seq<Block>, t: seq<Block>)
    ensures Total(s + t) == Total(s) + Total(t)
  {
    if s == [] {
      assert s + t == t;
    } else {
      assert (s + t)[1..] == s[1..] + t;
      TotalAppend(s[1..], t);
    }
  }

  /** The holders of a word in a concatenation add up. */
  lemma {:induction false} CountAppend(s: seq<Block>, t: seq<Block>, a: int)
    ensures Count(s + t, a) == Count(s, a) + Count(t, a)
  {
    if s == [] {
      assert s + t == t;
    } else {
      assert (s + t)[1..] == s[1..] + t;
      CountAppend(s[1..], t, a);
    }
  }

  /** Splitting `s` around position `i`: the totals of the three parts add up. */
  lemma TotalAround(s: seq<Block>, i: int)
    requires 0 <= i < |s|
    ensures Total(s) == Total(s[..i]) + s[i].length + Total(s[i + 1..])
  {
    assert s == s[..i] + ([s[i]] + s[i + 1..]);
    TotalAppend(s[..i], [s[i]] + s[i + 1..]);
    assert ([s[i]] + s[i + 1..])[1..] == s[i + 1..];
  }

  /** Splitting `s` around position `i`: the holders of word `a` in the three parts add up. */
  lemma CountAround(s: seq<Block>, i: int, a: int)
    requires 0 <= i < |s|
    ensures Count(s, a) == Count(s[..i], a) + Hit(s[i], a) + Count(s[i + 1..], a)
  {
    assert s == s[..i] + ([s[i]] + s[i + 1..]);
    CountAppend(s[..i], [s[i]] + s[i + 1..], a);
    assert ([s[i]] + s[i + 1..])[1..] == s[i + 1..];
  }

  /** A block of `s` that holds `a` is counted. */
  lemma {:induction false} CountAtLeastOne(s: seq<Block>, i: int, a: int)
    requires 0 <= i < |s| && s[i].Holds(a)
    ensures Count(s, a) >= 1
  {
    CountAround(s, i, a);
  }

  /** Two different blocks of `s` that both hold `a` are both counted. */
  lemma {:induction false} CountAtLeastTwo(s: seq<Block>, i: int, j: int, a: int)
    requires 0 <= i < j < |s| && s[i].Holds(a) && s[j].Holds(a)
    ensures Count(s, a) >= 2
  {
    CountAround(s, i, a);
    CountAtLeastOne(s[i + 1..], j - i - 1, a);
  }

  /** A word no block of `s` holds is counted zero times. */
  lemma {:induction false} CountNone(s: seq<Block>, a: int)
    requires forall i | 0 <= i < |s| :: !s[i].Holds(a)
    ensures Count(s, a) == 0
  {
    if s != [] {
      assert !s[0].Holds(a);
      CountNone(s[1..], a);
    }
  }
}
