/** The singly-linked block list: insertion disciplines, removals,
    linear searches and the single-pass merge of adjacent blocks.
    A list is the sequence of blocks from head to tail. */
module BlockLists {
  import opened Blocks

  /** A block, or the NULL the list operations return when there is none. */
  datatype Option<T> = None | Some(value: T)

  // ---------------------------------------------------------------------
  // Orders a list may be kept in

  predicate StartsAscending(s: seq<Block>)
  {
    forall i, j :: 0 <= i < j < |s| ==> s[i].start < s[j].start
  }

  predicate StartsNonDecreasing(s: seq<Block>)
  {
    forall i, j :: 0 <= i < j < |s| ==> s[i].start <= s[j].start
  }

  predicate DistinctStarts(s: seq<Block>)
  {
    forall i, j :: 0 <= i < j < |s| ==> s[i].start != s[j].start
  }

  predicate SizesAscending(s: seq<Block>)
  {
    forall i, j :: 0 <= i < j < |s| ==> Size(s[i]) <= Size(s[j])
  }

  predicate SizesDescending(s: seq<Block>)
  {
    forall i, j :: 0 <= i < j < |s| ==> Size(s[i]) >= Size(s[j])
  }

  /** No block ends right before its successor starts. */
  predicate NoAdjacent(s: seq<Block>)
  {
    forall i :: 0 < i < |s| ==> s[i - 1].end + 1 != s[i].start
  }

  // ---------------------------------------------------------------------
  // Linear searches

  /** A request of `n` addresses fits in block `b`. */
  predicate CompareSize(n: int, b: Block)
  {
    n <= Size(b)
  }

  /** The least position holding a block owned by `pid`, or |s| if none does. */
  function FirstWithPid(s: seq<Block>, pid: int): (k: nat)
    ensures k <= |s|
    ensures forall j :: 0 <= j < k ==> s[j].pid != pid
    ensures k < |s| ==> s[k].pid == pid
  {
    if s == [] then 0
    else if s[0].pid == pid then 0
    else 1 + FirstWithPid(s[1..], pid)
  }

  /** The least position holding a block of at least `n` addresses, or |s|. */
  function FirstAtLeast(s: seq<Block>, n: int): (k: nat)
    ensures k <= |s|
    ensures forall j :: 0 <= j < k ==> Size(s[j]) < n
    ensures k < |s| ==> n <= Size(s[k])
  {
    if s == [] then 0
    else if n <= Size(s[0]) then 0
    else 1 + FirstAtLeast(s[1..], n)
  }

  /** The least position holding a block of at most `n` addresses, or |s|. */
  function FirstAtMost(s: seq<Block>, n: int): (k: nat)
    ensures k <= |s|
    ensures forall j :: 0 <= j < k ==> Size(s[j]) > n
    ensures k < |s| ==> Size(s[k]) <= n
  {
    if s == [] then 0
    else if Size(s[0]) <= n then 0
    else 1 + FirstAtMost(s[1..], n)
  }

  /** The least position holding a block that starts at or after `x`, or |s|. */
  function FirstStartNotBelow(s: seq<Block>, x: int): (k: nat)
    ensures k <= |s|
    ensures forall j :: 0 <= j < k ==> s[j].start < x
    ensures k < |s| ==> x <= s[k].start
  {
    if s == [] then 0
    else if x <= s[0].start then 0
    else 1 + FirstStartNotBelow(s[1..], x)
  }

  /** The index result of the pid search: the least position owned by `pid`, or -1. */
  function IndexOfByPid(s: seq<Block>, pid: int): (r: int)
    ensures -1 <= r < |s|
    ensures r == -1 <==> forall j :: 0 <= j < |s| ==> s[j].pid != pid
    ensures r >= 0 ==> s[r].pid == pid && forall j :: 0 <= j < r ==> s[j].pid != pid
  {
    var k := FirstWithPid(s, pid);
    if k < |s| then k else -1
  }

  /** The index result of the size search: the least position that fits `n`, or -1. */
  function IndexOfBySize(s: seq<Block>, n: int): (r: int)
    ensures -1 <= r < |s|
    ensures r == -1 <==> forall j :: 0 <= j < |s| ==> !CompareSize(n, s[j])
    ensures r >= 0 ==> CompareSize(n, s[r]) && forall j :: 0 <= j < r ==> !CompareSize(n, s[j])
  {
    var k := FirstAtLeast(s, n);
    if k < |s| then k else -1
  }

  // ---------------------------------------------------------------------
  // Insertion disciplines, as functions of the old list

  /** Where the address-ordered insert links `b`: in front of the head when the
      list is empty or `b` starts strictly below the head, otherwise after the
      head and after every following block that starts strictly below `b`. */
  function AddressPosition(s: seq<Block>, b: Block): (k: nat)
    ensures k <= |s|
    ensures k == 0 <==> s == [] || b.start < s[0].start
    ensures forall j :: 1 <= j < k ==> s[j].start < b.start
    ensures 0 < k < |s| ==> b.start <= s[k].start
  {
    if s == [] || b.start < s[0].start then 0
    else 1 + FirstStartNotBelow(s[1..], b.start)
  }

  function InsertedByAddress(s: seq<Block>, b: Block): seq<Block>
  {
    InsertAt(s, AddressPosition(s, b), b)
  }

  function InsertedBySizeAscending(s: seq<Block>, b: Block): seq<Block>
  {
    InsertAt(s, FirstAtLeast(s, Size(b)), b)
  }

  function InsertedBySizeDescending(s: seq<Block>, b: Block): seq<Block>
  {
    InsertAt(s, FirstAtMost(s, Size(b)), b)
  }

  // ---------------------------------------------------------------------
  // The merge of adjacent blocks, as a function of the old list

  /** The scan with `prev` as the current predecessor and `rest` still to visit:
      an adjacent successor is absorbed into `prev`, any other one becomes the
      new predecessor. */
  function Merged(prev: Block, rest: seq<Block>): (r: seq<Block>)
    ensures 1 <= |r| <= |rest| + 1
    ensures r[0].start == prev.start && r[0].pid == prev.pid
    decreases |rest|
  {
    if rest == [] then [prev]
    else if prev.end + 1 == rest[0].start then Merged(prev.(end := rest[0].end), rest[1..])
    else [prev] + Merged(rest[0], rest[1..])
  }

  function Coalesced(s: seq<Block>): seq<Block>
  {
    if s == [] then [] else Merged(s[0], s[1..])
  }

  // ---------------------------------------------------------------------
  // Properties of the insertion disciplines

  /** The address-ordered insert links `b` in exactly once and keeps the
      others in their old order. */
  lemma InsertedByAddressPlacement(s: seq<Block>, b: Block)
    ensures var r, k := InsertedByAddress(s, b), AddressPosition(s, b);
      k <= |s| && r[k] == b && RemoveAt(r, k) == s && multiset(r) == multiset(s) + multiset{b}
  {
    InsertRemoveRoundTrip(s, AddressPosition(s, b), b);
  }

  /** On a tie with the head's start the new block is not made head. */
  lemma InsertedByAddressTie(s: seq<Block>, b: Block)
    requires s != [] && b.start == s[0].start
    ensures AddressPosition(s, b) >= 1
    ensures InsertedByAddress(s, b)[0] == s[0]
  {
  }

  /** A strictly address-ascending list stays so when the new start is fresh. */
  lemma InsertedByAddressAscending(s: seq<Block>, b: Block)
    requires StartsAscending(s)
    requires forall x :: x in s ==> x.start != b.start
    ensures StartsAscending(InsertedByAddress(s, b))
  {
    var k := AddressPosition(s, b);
    var r := InsertedByAddress(s, b);
    forall i | 0 <= i < k ensures s[i].start < b.start {
      if i == 0 {
        assert s[0] in s;
      }
    }
    forall i | k <= i < |s| ensures b.start < s[i].start {
      assert s[i] in s;
      if k == 0 {
        assert b.start < s[0].start;
      } else {
        assert b.start <= s[k].start;
        assert s[k] in s;
      }
    }
    forall i, j | 0 <= i < j < |r| ensures r[i].start < r[j].start {
      if j < k {
      } else if j == k {
      } else if i < k {
        assert s[i].start < b.start < s[j - 1].start;
      } else if i == k {
      } else {
      }
    }
  }

  /** A non-decreasing address order is always kept, ties included. */
  lemma InsertedByAddressNonDecreasing(s: seq<Block>, b: Block)
    requires StartsNonDecreasing(s)
    ensures StartsNonDecreasing(InsertedByAddress(s, b))
  {
    var k := AddressPosition(s, b);
    var r := InsertedByAddress(s, b);
    forall i | 0 <= i < k ensures s[i].start <= b.start {
    }
    forall i | k <= i < |s| ensures b.start <= s[i].start {
    }
    forall i, j | 0 <= i < j < |r| ensures r[i].start <= r[j].start {
      if j < k {
      } else if j == k {
      } else if i < k {
        assert s[i].start <= b.start <= s[j - 1].start;
      } else if i == k {
      } else {
      }
    }
  }

  /** The size-ascending insert links `b` immediately before the first block at
      least as large, or at the end when there is none. */
  lemma InsertedBySizeAscendingPlacement(s: seq<Block>, b: Block)
    ensures var r, k := InsertedBySizeAscending(s, b), FirstAtLeast(s, Size(b));
      k <= |s| && r[k] == b && RemoveAt(r, k) == s
      && (forall j :: 0 <= j < k ==> Size(r[j]) < Size(b))
      && (k < |s| ==> Size(b) <= Size(r[k + 1]))
  {
    var k := FirstAtLeast(s, Size(b));
    var r := InsertAt(s, k, b);
    InsertRemoveRoundTrip(s, k, b);
    forall j | 0 <= j < k ensures Size(r[j]) < Size(b) {
      assert r[j] == s[j];
    }
    if k < |s| {
      assert r[k + 1] == s[k];
    }
  }

  /** A list non-decreasing by size stays non-decreasing. */
  lemma InsertedBySizeAscendingSorted(s: seq<Block>, b: Block)
    requires SizesAscending(s)
    ensures SizesAscending(InsertedBySizeAscending(s, b))
  {
    var k := FirstAtLeast(s, Size(b));
    var r := InsertedBySizeAscending(s, b);
    forall i | k <= i < |s| ensures Size(b) <= Size(s[i]) {
    }
    forall i, j | 0 <= i < j < |r| ensures Size(r[i]) <= Size(r[j]) {
      if j < k {
      } else if j == k {
      } else if i < k {
        assert Size(s[i]) < Size(b) <= Size(s[j - 1]);
      } else if i == k {
      } else {
      }
    }
  }

  /** The size-descending insert links `b` immediately before the first block at
      most as large, or at the end when there is none. */
  lemma InsertedBySizeDescendingPlacement(s: seq<Block>, b: Block)
    ensures var r, k := InsertedBySizeDescending(s, b), FirstAtMost(s, Size(b));
      k <= |s| && r[k] == b && RemoveAt(r, k) == s
      && (forall j :: 0 <= j < k ==> Size(r[j]) > Size(b))
      && (k < |s| ==> Size(b) >= Size(r[k + 1]))
  {
    var k := FirstAtMost(s, Size(b));
    var r := InsertAt(s, k, b);
    InsertRemoveRoundTrip(s, k, b);
    forall j | 0 <= j < k ensures Size(r[j]) > Size(b) {
      assert r[j] == s[j];
    }
    if k < |s| {
      assert r[k + 1] == s[k];
    }
  }

  /** A list non-increasing by size stays non-increasing. */
  lemma InsertedBySizeDescendingSorted(s: seq<Block>, b: Block)
    requires SizesDescending(s)
    ensures SizesDescending(InsertedBySizeDescending(s, b))
  {
    var k := FirstAtMost(s, Size(b));
    var r := InsertedBySizeDescending(s, b);
    forall i | k <= i < |s| ensures Size(b) >= Size(s[i]) {
    }
    forall i, j | 0 <= i < j < |r| ensures Size(r[i]) >= Size(r[j]) {
      if j < k {
      } else if j == k {
      } else if i < k {
        assert Size(s[i]) > Size(b) >= Size(s[j - 1]);
      } else if i == k {
      } else {
      }
    }
  }

  /** Unlinking one block keeps every order the list was in. */
  lemma RemoveAtKeepsOrder(s: seq<Block>, k: nat)
    requires k < |s|
    ensures StartsAscending(s) ==> StartsAscending(RemoveAt(s, k))
    ensures SizesAscending(s) ==> SizesAscending(RemoveAt(s, k))
    ensures SizesDescending(s) ==> SizesDescending(RemoveAt(s, k))
  {
    var r := RemoveAt(s, k);
    forall i, j | 0 <= i < j < |r|
      ensures exists i', j' :: 0 <= i' < j' < |s| && r[i] == s[i'] && r[j] == s[j']
    {
      var i', j' := if i < k then i else i + 1, if j < k then j else j + 1;
      assert r[i] == s[i'] && r[j] == s[j'];
    }
  }

  // ---------------------------------------------------------------------
  // Properties of the merge

  /** No block of the merged list ends right before its successor starts. */
  lemma {:induction false} MergedNoAdjacent(prev: Block, rest: seq<Block>)
    ensures NoAdjacent(Merged(prev, rest))
    decreases |rest|
  {
    if rest == [] {
    } else if prev.end + 1 == rest[0].start {
      MergedNoAdjacent(prev.(end := rest[0].end), rest[1..]);
    } else {
      var tail := Merged(rest[0], rest[1..]);
      MergedNoAdjacent(rest[0], rest[1..]);
      var r := [prev] + tail;
      forall i | 0 < i < |r| ensures r[i - 1].end + 1 != r[i].start {
        if i > 1 {
          assert r[i - 1] == tail[i - 2] && r[i] == tail[i - 1];
        }
      }
    }
  }

  /** A list with nothing adjacent is its own merge. */
  lemma {:induction false} MergedIdentity(prev: Block, rest: seq<Block>)
    requires NoAdjacent([prev] + rest)
    ensures Merged(prev, rest) == [prev] + rest
    decreases |rest|
  {
    if rest != [] {
      assert ([prev] + rest)[0] == prev && ([prev] + rest)[1] == rest[0];
      assert prev.end + 1 != rest[0].start;
      var t := [rest[0]] + rest[1..];
      assert t == rest;
      forall i | 0 < i < |t| ensures t[i - 1].end + 1 != t[i].start {
        assert t[i - 1] == ([prev] + rest)[i] && t[i] == ([prev] + rest)[i + 1];
      }
      MergedIdentity(rest[0], rest[1..]);
    }
  }

  /** Merging keeps the coverage of every address, so the set of covered
      addresses is unchanged and no address is covered twice more than before. */
  lemma {:induction false} MergedCount(prev: Block, rest: seq<Block>, a: int)
    requires WellFormed(prev) && AllWellFormed(rest)
    ensures Count(Merged(prev, rest), a) == (if Holds(prev, a) then 1 else 0) + Count(rest, a)
    decreases |rest|
  {
    if rest == [] {
    } else {
      assert rest[0] in rest;
      assert AllWellFormed(rest[1..]) by {
        forall x | x in rest[1..] ensures WellFormed(x) {
          assert x in rest;
        }
      }
      if prev.end + 1 == rest[0].start {
        MergedCount(prev.(end := rest[0].end), rest[1..], a);
      } else {
        MergedCount(rest[0], rest[1..], a);
        CountAppend([prev], Merged(rest[0], rest[1..]), a);
      }
    }
  }

  /** Merging keeps the sum of the block sizes. */
  lemma {:induction false} MergedTotal(prev: Block, rest: seq<Block>)
    ensures Total(Merged(prev, rest)) == Size(prev) + Total(rest)
    decreases |rest|
  {
    if rest == [] {
    } else if prev.end + 1 == rest[0].start {
      MergedTotal(prev.(end := rest[0].end), rest[1..]);
    } else {
      MergedTotal(rest[0], rest[1..]);
      TotalAppend([prev], Merged(rest[0], rest[1..]));
    }
  }

  /** Every merged block is well formed and, when all inputs are free, free. */
  lemma {:induction false} MergedBlocks(prev: Block, rest: seq<Block>)
    requires WellFormed(prev) && AllWellFormed(rest)
    ensures AllWellFormed(Merged(prev, rest))
    ensures prev.pid == 0 && (forall x :: x in rest ==> x.pid == 0) ==>
      forall x :: x in Merged(prev, rest) ==> x.pid == 0
    decreases |rest|
  {
    if rest != [] {
      assert rest[0] in rest;
      assert forall x :: x in rest[1..] ==> x in rest;
      if prev.end + 1 == rest[0].start {
        MergedBlocks(prev.(end := rest[0].end), rest[1..]);
      } else {
        MergedBlocks(rest[0], rest[1..]);
      }
    }
  }

  /** A strictly address-ascending list stays strictly ascending when merged. */
  lemma {:induction false} MergedAscending(prev: Block, rest: seq<Block>)
    requires StartsAscending([prev] + rest)
    ensures StartsAscending(Merged(prev, rest))
    decreases |rest|
  {
    var s := [prev] + rest;
    if rest != [] {
      assert s[1] == rest[0];
      assert StartsAscending(rest[1..]) by {
        forall i, j | 0 <= i < j < |rest[1..]| ensures rest[1..][i].start < rest[1..][j].start {
          assert rest[1..][i] == s[i + 2] && rest[1..][j] == s[j + 2];
        }
      }
      if prev.end + 1 == rest[0].start {
        var t := [prev.(end := rest[0].end)] + rest[1..];
        assert StartsAscending(t) by {
          forall i, j | 0 <= i < j < |t| ensures t[i].start < t[j].start {
            if i == 0 {
              assert t[0].start == s[0].start && t[j] == s[j + 1];
            } else {
              assert t[i] == s[i + 1] && t[j] == s[j + 1];
            }
          }
        }
        MergedAscending(prev.(end := rest[0].end), rest[1..]);
      } else {
        assert StartsAscending([rest[0]] + rest[1..]) by {
          assert [rest[0]] + rest[1..] == rest;
          forall i, j | 0 <= i < j < |rest| ensures rest[i].start < rest[j].start {
            assert rest[i] == s[i + 1] && rest[j] == s[j + 1];
          }
        }
        MergedAscending(rest[0], rest[1..]);
        var tail := Merged(rest[0], rest[1..]);
        assert prev.start < tail[0].start by {
          assert s[0] == prev && s[0].start < s[1].start;
        }
        AscendingCons(prev, tail);
      }
    }
  }

  /** A non-decreasing address order survives the merge, ties included. */
  lemma {:induction false} MergedNonDecreasing(prev: Block, rest: seq<Block>)
    requires StartsNonDecreasing([prev] + rest)
    ensures StartsNonDecreasing(Merged(prev, rest))
    decreases |rest|
  {
    var s := [prev] + rest;
    if rest != [] {
      assert s[1] == rest[0];
      if prev.end + 1 == rest[0].start {
        var t := [prev.(end := rest[0].end)] + rest[1..];
        assert StartsNonDecreasing(t) by {
          forall i, j | 0 <= i < j < |t| ensures t[i].start <= t[j].start {
            if i == 0 {
              assert t[0].start == s[0].start && t[j] == s[j + 1];
            } else {
              assert t[i] == s[i + 1] && t[j] == s[j + 1];
            }
          }
        }
        MergedNonDecreasing(prev.(end := rest[0].end), rest[1..]);
      } else {
        assert StartsNonDecreasing([rest[0]] + rest[1..]) by {
          assert [rest[0]] + rest[1..] == rest;
          forall i, j | 0 <= i < j < |rest| ensures rest[i].start <= rest[j].start {
            assert rest[i] == s[i + 1] && rest[j] == s[j + 1];
          }
        }
        MergedNonDecreasing(rest[0], rest[1..]);
        var tail := Merged(rest[0], rest[1..]);
        assert prev.start <= tail[0].start by {
          assert s[0] == prev && s[0].start <= s[1].start;
        }
        NonDecreasingCons(prev, tail);
      }
    }
  }

  /** A block placed in front of a non-decreasing list that starts no lower. */
  lemma NonDecreasingCons(b: Block, tail: seq<Block>)
    requires StartsNonDecreasing(tail)
    requires tail != [] ==> b.start <= tail[0].start
    ensures StartsNonDecreasing([b] + tail)
  {
    var r := [b] + tail;
    forall i, j | 0 <= i < j < |r| ensures r[i].start <= r[j].start {
      if i == 0 {
        assert r[0] == b && r[j] == tail[j - 1];
        if j > 1 {
          assert tail[0].start <= tail[j - 1].start;
        }
      } else {
        assert r[i] == tail[i - 1] && r[j] == tail[j - 1];
      }
    }
  }

  /** A block placed in front of a strictly ascending list that starts after it. */
  lemma AscendingCons(b: Block, tail: seq<Block>)
    requires StartsAscending(tail)
    requires tail != [] ==> b.start < tail[0].start
    ensures StartsAscending([b] + tail)
  {
    var r := [b] + tail;
    forall i, j | 0 <= i < j < |r| ensures r[i].start < r[j].start {
      if i == 0 {
        assert r[0] == b && r[j] == tail[j - 1];
        if j > 1 {
          assert tail[0].start < tail[j - 1].start;
        }
      } else {
        assert r[i] == tail[i - 1] && r[j] == tail[j - 1];
      }
    }
  }

  /** The merge never lengthens the list and keeps the first start. */
  lemma CoalescedShape(s: seq<Block>)
    ensures |Coalesced(s)| <= |s|
    ensures s != [] ==> Coalesced(s) != [] && Coalesced(s)[0].start == s[0].start
    ensures NoAdjacent(Coalesced(s))
  {
    if s != [] {
      MergedNoAdjacent(s[0], s[1..]);
    }
  }

  /** Merging is the identity on a list with no adjacent pair; in particular
      merging twice is merging once. */
  lemma CoalescedIdentity(s: seq<Block>)
    requires NoAdjacent(s)
    ensures Coalesced(s) == s
  {
    if s != [] {
      assert [s[0]] + s[1..] == s;
      MergedIdentity(s[0], s[1..]);
    }
  }

  lemma CoalescedIdempotent(s: seq<Block>)
    ensures Coalesced(Coalesced(s)) == Coalesced(s)
  {
    CoalescedShape(s);
    CoalescedIdentity(Coalesced(s));
  }

  /** For well-formed blocks the merge preserves how many blocks hold each
      address, keeps the blocks well formed, and keeps a free list free. */
  lemma CoalescedCoverage(s: seq<Block>)
    requires AllWellFormed(s)
    ensures forall a :: Count(Coalesced(s), a) == Count(s, a)
    ensures AllWellFormed(Coalesced(s))
    ensures (forall x :: x in s ==> x.pid == 0) ==> forall x :: x in Coalesced(s) ==> x.pid == 0
  {
    if s != [] {
      assert s[0] in s;
      assert forall x :: x in s[1..] ==> x in s;
      forall a ensures Count(Coalesced(s), a) == Count(s, a) {
        MergedCount(s[0], s[1..], a);
      }
      MergedBlocks(s[0], s[1..]);
    }
  }

  lemma CoalescedTotal(s: seq<Block>)
    ensures Total(Coalesced(s)) == Total(s)
  {
    if s != [] {
      MergedTotal(s[0], s[1..]);
    }
  }

  lemma CoalescedNonDecreasing(s: seq<Block>)
    requires StartsNonDecreasing(s)
    ensures StartsNonDecreasing(Coalesced(s))
  {
    if s != [] {
      assert [s[0]] + s[1..] == s;
      MergedNonDecreasing(s[0], s[1..]);
    }
  }

  lemma CoalescedAscending(s: seq<Block>)
    requires StartsAscending(s)
    ensures StartsAscending(Coalesced(s))
  {
    if s != [] {
      assert [s[0]] + s[1..] == s;
      MergedAscending(s[0], s[1..]);
    }
  }

  // ---------------------------------------------------------------------
  // The list object

  /** One step of the in-place merge over an adjacent pair: the predecessor
      at `prev` absorbs its successor, and what is left to merge is unchanged. */
  lemma MergeStepAdjacent(s: seq<Block>, prev: nat)
    requires prev + 1 < |s| && s[prev].end + 1 == s[prev + 1].start
    ensures var t := s[..prev] + [s[prev].(end := s[prev + 1].end)] + s[prev + 2..];
      && |t| == |s| - 1 && prev < |t|
      && t[..prev] + Merged(t[prev], t[prev + 1..]) == s[..prev] + Merged(s[prev], s[prev + 1..])
  {
    var t := s[..prev] + [s[prev].(end := s[prev + 1].end)] + s[prev + 2..];
    assert t[..prev] == s[..prev] && t[prev] == s[prev].(end := s[prev + 1].end) && t[prev + 1..] == s[prev + 2..];
    assert s[prev + 1..][1..] == s[prev + 2..];
  }

  /** One step of the in-place merge over a pair that is not adjacent: the
      successor becomes the predecessor. */
  lemma MergeStepApart(s: seq<Block>, prev: nat)
    requires prev + 1 < |s| && s[prev].end + 1 != s[prev + 1].start
    ensures s[..prev + 1] + Merged(s[prev + 1], s[prev + 2..]) == s[..prev] + Merged(s[prev], s[prev + 1..])
  {
    assert s[prev + 1..][1..] == s[prev + 2..];
    assert s[..prev + 1] == s[..prev] + [s[prev]];
  }

  /** Before the first step the whole list is still to be merged. */
  lemma MergeStart(s: seq<Block>)
    requires s != []
    ensures s[..0] + Merged(s[0], s[1..]) == Coalesced(s)
  {
  }

  /** With no successor left, the merge state is the list itself. */
  lemma MergeDone(s: seq<Block>, prev: nat)
    requires prev + 1 == |s|
    ensures s[..prev] + Merged(s[prev], s[prev + 1..]) == s
  {
    assert s[prev + 1..] == [];
    assert s == s[..prev] + [s[prev]];
  }

  class BlockList {
    /** The blocks from head to tail. */
    var blocks: seq<Block>

    constructor ()
      ensures blocks == []
    {
      blocks := [];
    }

    method Length() returns (count: int)
      ensures count == |blocks|
    {
      count := 0;
      var c := 0;
      while c < |blocks|
        invariant 0 <= c <= |blocks| && count == c
      {
        count := count + 1;
        c := c + 1;
      }
    }

    method AddToBack(blk: Block)
      modifies this
      ensures blocks == old(blocks) + [blk]
    {
      if blocks == [] {
        blocks := [blk];
        return;
      }
      // The walk only finds the tail, at position |blocks| - 1.
      var c := 0;
      while c + 1 < |blocks|
        invariant 0 <= c < |blocks|
      {
        c := c + 1;
      }
      blocks := blocks[..c + 1] + [blk];
    }

    method AddToFront(blk: Block)
      modifies this
      ensures blocks == [blk] + old(blocks)
    {
      blocks := [blk] + blocks;
    }

    method AddAscendingByAddress(blk: Block)
      modifies this
      ensures blocks == InsertedByAddress(old(blocks), blk)
    {
      if blocks == [] || blk.start < blocks[0].start {
        blocks := [blk] + blocks;
        return;
      }
      var c := 0;
      while c + 1 < |blocks| && blocks[c + 1].start < blk.start
        invariant 0 <= c < |blocks|
        invariant c + 1 == AddressPosition(blocks, blk) || forall j :: 1 <= j <= c ==> blocks[j].start < blk.start
        invariant c + 1 <= AddressPosition(blocks, blk)
      {
        c := c + 1;
      }
      blocks := blocks[..c + 1] + [blk] + blocks[c + 1..];
    }

    method AddAscendingByBlockSize(blk: Block)
      modifies this
      ensures blocks == InsertedBySizeAscending(old(blocks), blk)
    {
      var newSize := Size(blk);
      if blocks == [] {
        blocks := [blk];
        return;
      }
      var headSize := Size(blocks[0]);
      if newSize <= headSize {
        blocks := [blk] + blocks;
        return;
      }
      var c := 0;
      while c + 1 < |blocks|
        invariant 0 <= c < |blocks|
        invariant c + 1 <= FirstAtLeast(blocks, newSize)
      {
        var nextSize := Size(blocks[c + 1]);
        if newSize <= nextSize {
          break;
        }
        c := c + 1;
      }
      blocks := blocks[..c + 1] + [blk] + blocks[c + 1..];
    }

    method AddDescendingByBlockSize(blk: Block)
      modifies this
      ensures blocks == InsertedBySizeDescending(old(blocks), blk)
    {
      var newSize := Size(blk);
      if blocks == [] {
        blocks := [blk];
        return;
      }
      var headSize := Size(blocks[0]);
      if newSize >= headSize {
        blocks := [blk] + blocks;
        return;
      }
      var c := 0;
      while c + 1 < |blocks|
        invariant 0 <= c < |blocks|
        invariant c + 1 <= FirstAtMost(blocks, newSize)
      {
        var nextSize := Size(blocks[c + 1]);
        if newSize >= nextSize {
          break;
        }
        c := c + 1;
      }
      blocks := blocks[..c + 1] + [blk] + blocks[c + 1..];
    }

    method IsInByPid(pid: int) returns (found: bool)
      ensures found <==> exists j :: 0 <= j < |blocks| && blocks[j].pid == pid
      ensures found <==> IndexOfByPid(blocks, pid) != -1
    {
      var c := 0;
      while c < |blocks|
        invariant 0 <= c <= |blocks|
        invariant forall j :: 0 <= j < c ==> blocks[j].pid != pid
      {
        if blocks[c].pid == pid {
          return true;
        }
        c := c + 1;
      }
      return false;
    }

    /** The merge of address-adjacent neighbours, done in place: `prev` is the
        position of the current predecessor, its successor is `prev + 1`. */
    method CoalesceNodes()
      modifies this
      ensures blocks == Coalesced(old(blocks))
    {
      if blocks == [] {
        return;
      }
      MergeStart(blocks);
      var prev := 0;
      while prev + 1 < |blocks|
        invariant 0 <= prev < |blocks|
        invariant blocks[..prev] + Merged(blocks[prev], blocks[prev + 1..]) == Coalesced(old(blocks))
        decreases |blocks| - prev
      {
        if blocks[prev].end + 1 == blocks[prev + 1].start {
          MergeStepAdjacent(blocks, prev);
          blocks := blocks[..prev] + [blocks[prev].(end := blocks[prev + 1].end)] + blocks[prev + 2..];
        } else {
          MergeStepApart(blocks, prev);
          prev := prev + 1;
        }
      }
      MergeDone(blocks, prev);
    }

    method RemoveFromBack() returns (r: Option<Block>)
      modifies this
      ensures old(blocks) == [] ==> r == None && blocks == []
      ensures old(blocks) != [] ==> r == Some(old(blocks)[|old(blocks)| - 1]) && blocks == old(blocks)[..|old(blocks)| - 1]
    {
      if blocks == [] {
        return None;
      }
      if |blocks| == 1 {
        r := Some(blocks[0]);
        blocks := [];
        return;
      }
      // The walk only finds the node before the tail, at position |blocks| - 2.
      var c := 0;
      while c + 2 < |blocks|
        invariant 0 <= c <= |blocks| - 2
      {
        c := c + 1;
      }
      r := Some(blocks[c + 1]);
      blocks := blocks[..c + 1];
    }

    method GetFromFront() returns (r: Option<Block>)
      ensures blocks == [] ==> r == None
      ensures blocks != [] ==> r == Some(blocks[0])
    {
      r := if blocks != [] then Some(blocks[0]) else None;
    }

    method RemoveFromFront() returns (r: Option<Block>)
      modifies this
      ensures old(blocks) == [] ==> r == None && blocks == []
      ensures old(blocks) != [] ==> r == Some(old(blocks)[0]) && blocks == old(blocks)[1..]
    {
      if blocks == [] {
        return None;
      }
      r := Some(blocks[0]);
      blocks := blocks[1..];
    }

    method RemoveAtIndex(index: int) returns (r: Option<Block>)
      modifies this
      ensures 0 <= index < |old(blocks)| ==> r == Some(old(blocks)[index]) && blocks == RemoveAt(old(blocks), index)
      ensures !(0 <= index < |old(blocks)|) ==> r == None && blocks == old(blocks)
    {
      if index == 0 {
        r := RemoveFromFront();
        return;
      }
      var i := 0;
      while i < |blocks|
        invariant 0 <= i <= |blocks|
        invariant index < 0 || i <= index
        invariant blocks == old(blocks)
      {
        if i == index {
          r := Some(blocks[i]);
          blocks := blocks[..i] + blocks[i + 1..];
          return;
        }
        i := i + 1;
      }
      r := None;
    }

    method GetIndexOfByPid(pid: int) returns (i: int)
      ensures i == IndexOfByPid(blocks, pid)
    {
      i := 0;
      while i < |blocks|
        invariant 0 <= i <= |blocks|
        invariant forall j :: 0 <= j < i ==> blocks[j].pid != pid
      {
        if blocks[i].pid == pid {
          return i;
        }
        i := i + 1;
      }
      return -1;
    }

    method IsInBySize(size: int) returns (found: bool)
      ensures found <==> exists j :: 0 <= j < |blocks| && CompareSize(size, blocks[j])
      ensures found <==> IndexOfBySize(blocks, size) != -1
    {
      var c := 0;
      while c < |blocks|
        invariant 0 <= c <= |blocks|
        invariant forall j :: 0 <= j < c ==> !CompareSize(size, blocks[j])
      {
        if CompareSize(size, blocks[c]) {
          return true;
        }
        c := c + 1;
      }
      return false;
    }

    method GetIndexOfBySize(size: int) returns (i: int)
      ensures i == IndexOfBySize(blocks, size)
    {
      i := 0;
      while i < |blocks|
        invariant 0 <= i <= |blocks|
        invariant forall j :: 0 <= j < i ==> !CompareSize(size, blocks[j])
      {
        if CompareSize(size, blocks[i]) {
          return i;
        }
        i := i + 1;
      }
      return -1;
    }
  }
}
