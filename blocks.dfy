/** Memory blocks, and the bookkeeping over sequences of them that the
    list engine and the allocator are proved against. */
module Blocks {

  /** A contiguous address range [start, end] (end inclusive) owned by
      process `pid`; pid 0 marks a free block. */
  datatype Block = Block(pid: int, start: int, end: int)

  /** The number of addresses in the block, `end - start + 1`. */
  function Size(b: Block): int
  {
    b.end - b.start + 1
  }

  predicate WellFormed(b: Block)
  {
    b.start <= b.end
  }

  predicate AllWellFormed(s: seq<Block>)
  {
    forall b :: b in s ==> WellFormed(b)
  }

  /** Address `a` lies inside block `b`. */
  predicate Holds(b: Block, a: int)
  {
    b.start <= a <= b.end
  }

  /** How many blocks of `s` hold address `a`. */
  function Count(s: seq<Block>, a: int): nat
  {
    if s == [] then 0 else (if Holds(s[0], a) then 1 else 0) + Count(s[1..], a)
  }

  /** The sum of the sizes of the blocks of `s`. */
  function Total(s: seq<Block>): int
  {
    if s == [] then 0 else Size(s[0]) + Total(s[1..])
  }

  /** `s` with `b` spliced in so that it ends up at position `k`. */
  function InsertAt(s: seq<Block>, k: nat, b: Block): (r: seq<Block>)
    requires k <= |s|
    ensures |r| == |s| + 1
  {
    s[..k] + [b] + s[k..]
  }

  /** `s` with its element at position `k` unlinked. */
  function RemoveAt(s: seq<Block>, k: nat): (r: seq<Block>)
    requires k < |s|
    ensures |r| == |s| - 1
  {
    s[..k] + s[k + 1..]
  }

  /** The inserted block sits at `k`, the blocks before it keep their
      positions, the blocks after it move up by one, and nothing else is added. */
  lemma InsertAtElements(s: seq<Block>, k: nat, b: Block)
    requires k <= |s|
    ensures var r := InsertAt(s, k, b);
      && (forall i :: 0 <= i < |r| ==> r[i] == if i < k then s[i] else if i == k then b else s[i - 1])
      && multiset(r) == multiset(s) + multiset{b}
  {
    assert s == s[..k] + s[k..];
  }

  /** The blocks before `k` keep their positions, the blocks after it move
      down by one, and only `s[k]` is taken away. */
  lemma RemoveAtElements(s: seq<Block>, k: nat)
    requires k < |s|
    ensures var r := RemoveAt(s, k);
      && (forall i :: 0 <= i < |r| ==> r[i] == if i < k then s[i] else s[i + 1])
      && multiset(r) + multiset{s[k]} == multiset(s)
  {
    assert s == s[..k] + [s[k]] + s[k + 1..];
  }

  /** Unlinking an element and splicing it back in at the same place restores the list. */
  lemma RemoveInsertRoundTrip(s: seq<Block>, k: nat)
    requires k < |s|
    ensures InsertAt(RemoveAt(s, k), k, s[k]) == s
  {
    var r := RemoveAt(s, k);
    assert r[..k] == s[..k] && r[k..] == s[k + 1..];
    assert s == s[..k] + [s[k]] + s[k + 1..];
  }

  /** Splicing an element in and unlinking it again restores the list. */
  lemma InsertRemoveRoundTrip(s: seq<Block>, k: nat, b: Block)
    requires k <= |s|
    ensures |InsertAt(s, k, b)| == |s| + 1
    ensures RemoveAt(InsertAt(s, k, b), k) == s
  {
    var r := InsertAt(s, k, b);
    assert r[..k] == s[..k] && r[k + 1..] == s[k..];
    assert s == s[..k] + s[k..];
  }

  lemma {:induction false} CountAppend(s: seq<Block>, t: seq<Block>, a: int)
    ensures Count(s + t, a) == Count(s, a) + Count(t, a)
  {
    if s == [] {
      assert s + t == t;
    } else {
      assert (s + t)[1..] == s[1..] + t;
      CountAppend(s[1..], t, a);
    }
  }

  lemma {:induction false} TotalAppend(s: seq<Block>, t: seq<Block>)
    ensures Total(s + t) == Total(s) + Total(t)
  {
    if s == [] {
      assert s + t == t;
    } else {
      assert (s + t)[1..] == s[1..] + t;
      TotalAppend(s[1..], t);
    }
  }

  /** Inserting a block adds exactly its own coverage to every address. */
  lemma CountInsertAt(s: seq<Block>, k: nat, b: Block, a: int)
    requires k <= |s|
    ensures Count(InsertAt(s, k, b), a) == Count(s, a) + (if Holds(b, a) then 1 else 0)
  {
    assert s == s[..k] + s[k..];
    assert InsertAt(s, k, b) == s[..k] + ([b] + s[k..]);
    CountAppend(s[..k], s[k..], a);
    CountAppend(s[..k], [b] + s[k..], a);
    assert ([b] + s[k..])[1..] == s[k..];
  }

  /** Removing a block takes away exactly its own coverage from every address. */
  lemma CountRemoveAt(s: seq<Block>, k: nat, a: int)
    requires k < |s|
    ensures Count(RemoveAt(s, k), a) + (if Holds(s[k], a) then 1 else 0) == Count(s, a)
  {
    RemoveInsertRoundTrip(s, k);
    CountInsertAt(RemoveAt(s, k), k, s[k], a);
  }

  lemma TotalInsertAt(s: seq<Block>, k: nat, b: Block)
    requires k <= |s|
    ensures Total(InsertAt(s, k, b)) == Total(s) + Size(b)
  {
    var front, back := s[..k], s[k..];
    assert s == front + back;
    TotalAppend(front, back);
    TotalAppend(front + [b], back);
    TotalAppend(front, [b]);
    assert [b][1..] == [];
  }

  lemma TotalRemoveAt(s: seq<Block>, k: nat)
    requires k < |s|
    ensures Total(RemoveAt(s, k)) + Size(s[k]) == Total(s)
  {
    RemoveInsertRoundTrip(s, k);
    TotalInsertAt(RemoveAt(s, k), k, s[k]);
  }

  /** A block of `s` that holds `a` is counted. */
  lemma {:induction false} CountPositive(s: seq<Block>, i: nat, a: int)
    requires i < |s| && Holds(s[i], a)
    ensures Count(s, a) >= 1
  {
    if i > 0 {
      CountPositive(s[1..], i - 1, a);
    }
  }

  /** Two different blocks of `s` that hold `a` are both counted. */
  lemma {:induction false} CountTwo(s: seq<Block>, i: nat, j: nat, a: int)
    requires i < j < |s| && Holds(s[i], a) && Holds(s[j], a)
    ensures Count(s, a) >= 2
  {
    if i == 0 {
      CountPositive(s[1..], j - 1, a);
    } else {
      CountTwo(s[1..], i - 1, j - 1, a);
    }
  }
}
