/** The allocator: allocate, deallocate and coalesce over a free list and an
    allocated list, under a placement policy. */
module Mmu {
  import opened Blocks
  import opened BlockLists

  /** The two lists the allocator drives. */
  datatype Memory = Memory(free: seq<Block>, alloc: seq<Block>)

  /** The policy dispatch for a block entering the free list: policy 1 (first
      fit) appends, policy 2 (best fit) inserts by ascending size, any other
      value (worst fit) inserts by descending size. */
  function InsertByPolicy(s: seq<Block>, b: Block, policy: int): seq<Block>
  {
    if policy == 1 then s + [b]
    else if policy == 2 then InsertedBySizeAscending(s, b)
    else InsertedBySizeDescending(s, b)
  }

  /** The prefix of `blk` that a request of `blocksize` addresses by `pid` claims. */
  function Claim(blk: Block, pid: int, blocksize: int): Block
  {
    Block(pid, blk.start, blk.start + blocksize - 1)
  }

  /** The free list `rest` after the claim on `blk`: when the claimed prefix
      ends before `blk` does, the fragment behind it is inserted by policy. */
  function AddFragment(rest: seq<Block>, blk: Block, blocksize: int, policy: int): seq<Block>
  {
    if blk.start + blocksize - 1 < blk.end then InsertByPolicy(rest, Block(0, blk.start + blocksize, blk.end), policy)
    else rest
  }

  /** Claim a prefix of the first free block that fits `blocksize`; the claimed
      part joins the allocated list in address order and a leftover fragment
      goes back to the free list by policy. Nothing changes when no block fits. */
  function Allocate(m: Memory, pid: int, blocksize: int, policy: int): Memory
  {
    var k := IndexOfBySize(m.free, blocksize);
    if k == -1 then m
    else
      Memory(AddFragment(RemoveAt(m.free, k), m.free[k], blocksize, policy),
             InsertedByAddress(m.alloc, Claim(m.free[k], pid, blocksize)))
  }

  /** Return the first block owned by `pid` to the free list, by policy, with
      owner 0. Nothing changes when `pid` owns no block. */
  function Deallocate(m: Memory, pid: int, policy: int): Memory
  {
    var k := IndexOfByPid(m.alloc, pid);
    if k == -1 then m
    else Memory(InsertByPolicy(m.free, m.alloc[k].(pid := 0), policy), RemoveAt(m.alloc, k))
  }

  /** Move the blocks of `s`, front first, into `acc` by address-ordered insert. */
  function DrainInto(acc: seq<Block>, s: seq<Block>): seq<Block>
    decreases |s|
  {
    if s == [] then acc else DrainInto(InsertedByAddress(acc, s[0]), s[1..])
  }

  function SortedByAddress(s: seq<Block>): seq<Block>
  {
    DrainInto([], s)
  }

  /** The free list rebuilt in address order, then merged. */
  function Coalesce(s: seq<Block>): seq<Block>
  {
    Coalesced(SortedByAddress(s))
  }

  /** The free list at start-up: one free block over the whole partition. */
  function InitialMemory(partitionSize: int): Memory
  {
    Memory([Block(0, 0, partitionSize - 1)], [])
  }

  /** The events of a run, already decoded. */
  datatype Event = Alloc(pid: int, size: int) | Dealloc(pid: int) | Compact

  /** The marker in the first column of an input row that asks for a coalesce. */
  const CompactMarker := -99999

  /** One input row `(id, size)`: a positive id allocates `size` addresses
      for it, the marker coalesces, and any other id deallocates the process
      named by its absolute value. */
  function DecodeRow(id: int, size: int): (e: Event)
    ensures e.Alloc? <==> id > 0
    ensures e.Compact? <==> id == CompactMarker
    ensures e.Alloc? ==> e.pid == id && e.size == size
    ensures e.Dealloc? ==> e.pid >= 0 && (e.pid == id || e.pid == -id)
  {
    if id > 0 then Alloc(id, size)
    else if id != CompactMarker then Dealloc(if id < 0 then -id else id)
    else Compact
  }

  /** The input rows, decoded one by one; rows whose allocations ask for a
      positive size decode to valid events only. */
  function Decoded(rows: seq<(int, int)>): (events: seq<Event>)
    ensures (forall i :: 0 <= i < |rows| && rows[i].0 > 0 ==> rows[i].1 > 0) ==>
      forall e :: e in events ==> ValidEvent(e)
  {
    seq(|rows|, i requires 0 <= i < |rows| => DecodeRow(rows[i].0, rows[i].1))
  }

  predicate ValidEvent(e: Event)
  {
    e.Alloc? ==> e.pid > 0 && e.size > 0
  }

  function Step(m: Memory, e: Event, policy: int): Memory
  {
    match e
    case Alloc(pid, size) => Allocate(m, pid, size, policy)
    case Dealloc(pid) => Deallocate(m, pid, policy)
    case Compact => Memory(Coalesce(m.free), m.alloc)
  }

  /** The state after the events, applied in order. */
  function Run(m: Memory, events: seq<Event>, policy: int): Memory
    decreases |events|
  {
    if events == [] then m
    else Step(Run(m, events[..|events| - 1], policy), events[|events| - 1], policy)
  }

  /** A run over one more event is one more step. */
  lemma RunAppend(m: Memory, events: seq<Event>, e: Event, policy: int)
    ensures Run(m, events + [e], policy) == Step(Run(m, events, policy), e, policy)
  {
    assert (events + [e])[..|events|] == events;
  }

  /** The memory invariant: every address of [0, partitionSize) is held by
      exactly one block of the two lists and no other address is held; all
      blocks are well formed; free blocks have owner 0 and allocated blocks a
      positive owner; the allocated list is strictly ascending by address. */
  ghost predicate Partitioned(m: Memory, partitionSize: int)
  {
    && AllWellFormed(m.free)
    && AllWellFormed(m.alloc)
    && (forall b :: b in m.free ==> b.pid == 0)
    && (forall b :: b in m.alloc ==> b.pid > 0)
    && StartsAscending(m.alloc)
    && forall a :: Count(m.free, a) + Count(m.alloc, a) == if 0 <= a < partitionSize then 1 else 0
  }

  /** No two blocks of `s` share an address. */
  predicate NoOverlap(s: seq<Block>)
  {
    forall i, j :: 0 <= i < j < |s| ==> s[i].end < s[j].start || s[j].end < s[i].start
  }

  // ---------------------------------------------------------------------
  // The policy dispatch

  /** Where the policy dispatch links a block entering the free list. */
  function PolicyPosition(s: seq<Block>, b: Block, policy: int): (k: nat)
    ensures k <= |s|
  {
    if policy == 1 then |s| else if policy == 2 then FirstAtLeast(s, Size(b)) else FirstAtMost(s, Size(b))
  }

  /** Every policy splices the block in at one position. */
  lemma InsertByPolicyAt(s: seq<Block>, b: Block, policy: int)
    ensures InsertByPolicy(s, b, policy) == InsertAt(s, PolicyPosition(s, b, policy), b)
  {
    if policy == 1 {
      assert s[..|s|] == s && s[|s|..] == [];
    }
  }

  /** The dispatch adds exactly the new block and loses none. */
  lemma InsertByPolicyElements(s: seq<Block>, b: Block, policy: int)
    ensures |InsertByPolicy(s, b, policy)| == |s| + 1
    ensures multiset(InsertByPolicy(s, b, policy)) == multiset(s) + multiset{b}
  {
    InsertByPolicyAt(s, b, policy);
    InsertAtElements(s, PolicyPosition(s, b, policy), b);
  }

  lemma InsertByPolicyCount(s: seq<Block>, b: Block, policy: int, a: int)
    ensures Count(InsertByPolicy(s, b, policy), a) == Count(s, a) + (if Holds(b, a) then 1 else 0)
  {
    InsertByPolicyAt(s, b, policy);
    CountInsertAt(s, PolicyPosition(s, b, policy), b, a);
  }

  lemma InsertByPolicyTotal(s: seq<Block>, b: Block, policy: int)
    ensures Total(InsertByPolicy(s, b, policy)) == Total(s) + Size(b)
  {
    InsertByPolicyAt(s, b, policy);
    TotalInsertAt(s, PolicyPosition(s, b, policy), b);
  }

  /** Under best fit (2) and worst fit (any policy other than 1 and 2) the
      free list keeps its size order. */
  lemma InsertByPolicyKeepsOrder(s: seq<Block>, b: Block, policy: int)
    ensures policy == 2 && SizesAscending(s) ==> SizesAscending(InsertByPolicy(s, b, policy))
    ensures policy != 1 && policy != 2 && SizesDescending(s) ==> SizesDescending(InsertByPolicy(s, b, policy))
  {
    if policy == 2 && SizesAscending(s) {
      assert InsertByPolicy(s, b, policy) == InsertedBySizeAscending(s, b);
      InsertedBySizeAscendingSorted(s, b);
    } else if policy != 1 && policy != 2 && SizesDescending(s) {
      assert InsertByPolicy(s, b, policy) == InsertedBySizeDescending(s, b);
      InsertedBySizeDescendingSorted(s, b);
    }
  }

  // ---------------------------------------------------------------------
  // Allocation

  /** With no free block large enough, allocation changes nothing. */
  lemma AllocateFails(m: Memory, pid: int, blocksize: int, policy: int)
    requires forall j :: 0 <= j < |m.free| ==> Size(m.free[j]) < blocksize
    ensures Allocate(m, pid, blocksize, policy) == m
  {
  }

  /** The free block split off behind a claim of `blocksize` from `blk`, if any. */
  function FragmentBag(blk: Block, blocksize: int): multiset<Block>
  {
    if Size(blk) > blocksize then multiset{Block(0, blk.start + blocksize, blk.end)} else multiset{}
  }

  /** The fragment split off behind a claim: it is added to the free list
      exactly when the block was larger than the request, and the claim and
      the fragment together are as large as the block. */
  lemma AddFragmentContents(rest: seq<Block>, blk: Block, pid: int, blocksize: int, policy: int)
    requires blocksize <= Size(blk)
    ensures Size(Claim(blk, pid, blocksize)) == blocksize
    ensures |AddFragment(rest, blk, blocksize, policy)| == |rest| + (if Size(blk) > blocksize then 1 else 0)
    ensures multiset(AddFragment(rest, blk, blocksize, policy)) == multiset(rest) + FragmentBag(blk, blocksize)
    ensures Total(AddFragment(rest, blk, blocksize, policy)) + Size(Claim(blk, pid, blocksize)) == Total(rest) + Size(blk)
  {
    var r := AddFragment(rest, blk, blocksize, policy);
    var frag := Block(0, blk.start + blocksize, blk.end);
    if Size(blk) > blocksize {
      assert r == InsertByPolicy(rest, frag, policy);
      assert FragmentBag(blk, blocksize) == multiset{frag};
      assert |r| == |rest| + 1 && multiset(r) == multiset(rest) + multiset{frag} by {
        InsertByPolicyElements(rest, frag, policy);
      }
      assert Total(r) == Total(rest) + Size(frag) by {
        InsertByPolicyTotal(rest, frag, policy);
      }
    } else {
      assert r == rest;
      assert FragmentBag(blk, blocksize) == multiset{};
    }
  }

  /** For a positive request every address of the block is held by exactly
      one of the claim and the fragment. */
  lemma AddFragmentCount(rest: seq<Block>, blk: Block, pid: int, blocksize: int, policy: int, a: int)
    requires 0 < blocksize <= Size(blk)
    ensures Count(AddFragment(rest, blk, blocksize, policy), a) + (if Holds(Claim(blk, pid, blocksize), a) then 1 else 0)
      == Count(rest, a) + (if Holds(blk, a) then 1 else 0)
  {
    var frag := Block(0, blk.start + blocksize, blk.end);
    if Size(blk) > blocksize {
      assert AddFragment(rest, blk, blocksize, policy) == InsertByPolicy(rest, frag, policy);
      InsertByPolicyCount(rest, frag, policy, a);
    }
  }

  /** A successful allocation claims the first free block that fits: the
      allocated list gains exactly `{pid, start, start + blocksize - 1}`,
      placed in address order. */
  lemma AllocateClaims(m: Memory, pid: int, blocksize: int, policy: int)
    requires exists j :: 0 <= j < |m.free| && blocksize <= Size(m.free[j])
    ensures var k := IndexOfBySize(m.free, blocksize);
      && 0 <= k < |m.free| && blocksize <= Size(m.free[k])
      && (forall j :: 0 <= j < k ==> Size(m.free[j]) < blocksize)
      && var claimed := Claim(m.free[k], pid, blocksize);
      && claimed.pid == pid && claimed.start == m.free[k].start && Size(claimed) == blocksize
      && var r := Allocate(m, pid, blocksize, policy).alloc;
      && r == InsertedByAddress(m.alloc, claimed)
      && |r| == |m.alloc| + 1
      && multiset(r) == multiset(m.alloc) + multiset{claimed}
  {
    var k := IndexOfBySize(m.free, blocksize);
    var claimed := Claim(m.free[k], pid, blocksize);
    assert Allocate(m, pid, blocksize, policy).alloc == InsertedByAddress(m.alloc, claimed);
    InsertedByAddressPlacement(m.alloc, claimed);
  }

  /** A successful allocation takes the claimed block off the free list and
      puts back the fragment `{0, start + blocksize, end}` only when the block
      was larger than the request. */
  lemma AllocateSplitsBlock(m: Memory, pid: int, blocksize: int, policy: int)
    requires exists j :: 0 <= j < |m.free| && blocksize <= Size(m.free[j])
    ensures 0 <= IndexOfBySize(m.free, blocksize) < |m.free|
    ensures |Allocate(m, pid, blocksize, policy).free| == |m.free|
      - (if Size(m.free[IndexOfBySize(m.free, blocksize)]) == blocksize then 1 else 0)
    ensures multiset(Allocate(m, pid, blocksize, policy).free) + multiset{m.free[IndexOfBySize(m.free, blocksize)]}
      == multiset(m.free) + FragmentBag(m.free[IndexOfBySize(m.free, blocksize)], blocksize)
  {
    var k := IndexOfBySize(m.free, blocksize);
    var blk := m.free[k];
    var rest := RemoveAt(m.free, k);
    var r := AddFragment(rest, blk, blocksize, policy);
    assert Allocate(m, pid, blocksize, policy).free == r;
    RemoveAtElements(m.free, k);
    AddFragmentContents(rest, blk, pid, blocksize, policy);
    var frag := FragmentBag(blk, blocksize);
    assert multiset(r) == multiset(rest) + frag;
    assert multiset(rest) + multiset{blk} == multiset(m.free);
    assert multiset(r) + multiset{blk} == multiset(rest) + multiset{blk} + frag;
  }

  lemma AllocateConservesTotal(m: Memory, pid: int, blocksize: int, policy: int)
    ensures var r := Allocate(m, pid, blocksize, policy);
      Total(r.free) + Total(r.alloc) == Total(m.free) + Total(m.alloc)
  {
    var k := IndexOfBySize(m.free, blocksize);
    if k != -1 {
      var blk := m.free[k];
      var claimed := Claim(blk, pid, blocksize);
      TotalRemoveAt(m.free, k);
      TotalInsertAt(m.alloc, AddressPosition(m.alloc, claimed), claimed);
      AddFragmentContents(RemoveAt(m.free, k), blk, pid, blocksize, policy);
    }
  }

  // ---------------------------------------------------------------------
  // Deallocation

  /** Deallocating a pid that owns no block changes nothing. */
  lemma DeallocateFails(m: Memory, pid: int, policy: int)
    requires forall j :: 0 <= j < |m.alloc| ==> m.alloc[j].pid != pid
    ensures Deallocate(m, pid, policy) == m
  {
  }

  /** Deallocation unlinks the first block owned by `pid` and inserts the same
      range, with owner 0, into the free list by policy. */
  lemma DeallocateReleases(m: Memory, pid: int, policy: int)
    requires exists j :: 0 <= j < |m.alloc| && m.alloc[j].pid == pid
    ensures var k := IndexOfByPid(m.alloc, pid);
      var r := Deallocate(m, pid, policy);
      0 <= k < |m.alloc| && m.alloc[k].pid == pid
      && (forall j :: 0 <= j < k ==> m.alloc[j].pid != pid)
      && r.alloc == RemoveAt(m.alloc, k)
      && |r.alloc| == |m.alloc| - 1 && |r.free| == |m.free| + 1
      && var freed := Block(0, m.alloc[k].start, m.alloc[k].end);
      && r.free == InsertByPolicy(m.free, freed, policy)
      && multiset(r.free) == multiset(m.free) + multiset{freed}
  {
    var k := IndexOfByPid(m.alloc, pid);
    InsertByPolicyElements(m.free, m.alloc[k].(pid := 0), policy);
  }

  lemma DeallocateConservesTotal(m: Memory, pid: int, policy: int)
    ensures var r := Deallocate(m, pid, policy);
      Total(r.free) + Total(r.alloc) == Total(m.free) + Total(m.alloc)
  {
    var k := IndexOfByPid(m.alloc, pid);
    if k != -1 {
      TotalRemoveAt(m.alloc, k);
      InsertByPolicyTotal(m.free, m.alloc[k].(pid := 0), policy);
    }
  }

  // ---------------------------------------------------------------------
  // Policies: which block a request claims

  /** On a list built by size-ascending inserts the first fit is a best fit. */
  lemma BestFitClaimsSmallest(free: seq<Block>, blocksize: int)
    requires SizesAscending(free)
    requires IndexOfBySize(free, blocksize) != -1
    ensures var k := IndexOfBySize(free, blocksize);
      forall j :: 0 <= j < |free| && blocksize <= Size(free[j]) ==> Size(free[k]) <= Size(free[j])
  {
  }

  /** On a list built by size-descending inserts the first fit is the largest block. */
  lemma WorstFitClaimsLargest(free: seq<Block>, blocksize: int)
    requires SizesDescending(free)
    requires IndexOfBySize(free, blocksize) != -1
    ensures IndexOfBySize(free, blocksize) == 0
    ensures forall j :: 0 <= j < |free| ==> Size(free[j]) <= Size(free[0])
  {
    var k := IndexOfBySize(free, blocksize);
    assert Size(free[0]) >= Size(free[k]);
  }

  lemma AddFragmentKeepsAscending(rest: seq<Block>, blk: Block, blocksize: int)
    requires SizesAscending(rest)
    ensures SizesAscending(AddFragment(rest, blk, blocksize, 2))
  {
    var frag := Block(0, blk.start + blocksize, blk.end);
    if blk.start + blocksize - 1 < blk.end {
      assert AddFragment(rest, blk, blocksize, 2) == InsertedBySizeAscending(rest, frag);
      InsertedBySizeAscendingSorted(rest, frag);
    }
  }

  lemma AddFragmentKeepsDescending(rest: seq<Block>, blk: Block, blocksize: int, policy: int)
    requires policy != 1 && policy != 2
    requires SizesDescending(rest)
    ensures SizesDescending(AddFragment(rest, blk, blocksize, policy))
  {
    var frag := Block(0, blk.start + blocksize, blk.end);
    if blk.start + blocksize - 1 < blk.end {
      assert AddFragment(rest, blk, blocksize, policy) == InsertedBySizeDescending(rest, frag);
      InsertedBySizeDescendingSorted(rest, frag);
    }
  }

  /** Allocation keeps the size order of a best-fit or worst-fit free list. */
  lemma AllocateKeepsFreeOrder(m: Memory, pid: int, blocksize: int, policy: int)
    ensures policy == 2 && SizesAscending(m.free) ==> SizesAscending(Allocate(m, pid, blocksize, policy).free)
    ensures policy != 1 && policy != 2 && SizesDescending(m.free) ==> SizesDescending(Allocate(m, pid, blocksize, policy).free)
  {
    var k := IndexOfBySize(m.free, blocksize);
    if k != -1 {
      var blk := m.free[k];
      var rest := RemoveAt(m.free, k);
      assert Allocate(m, pid, blocksize, policy).free == AddFragment(rest, blk, blocksize, policy);
      if policy == 2 && SizesAscending(m.free) {
        assert SizesAscending(AddFragment(rest, blk, blocksize, policy)) by {
          RemoveAtKeepsOrder(m.free, k);
          AddFragmentKeepsAscending(rest, blk, blocksize);
        }
      } else if policy != 1 && policy != 2 && SizesDescending(m.free) {
        assert SizesDescending(AddFragment(rest, blk, blocksize, policy)) by {
          RemoveAtKeepsOrder(m.free, k);
          AddFragmentKeepsDescending(rest, blk, blocksize, policy);
        }
      }
    }
  }

  /** Deallocation keeps the size order of a best-fit or worst-fit free list. */
  lemma DeallocateKeepsFreeOrder(m: Memory, pid: int, policy: int)
    ensures policy == 2 && SizesAscending(m.free) ==> SizesAscending(Deallocate(m, pid, policy).free)
    ensures policy != 1 && policy != 2 && SizesDescending(m.free) ==> SizesDescending(Deallocate(m, pid, policy).free)
  {
    var k := IndexOfByPid(m.alloc, pid);
    if k != -1 {
      InsertByPolicyKeepsOrder(m.free, m.alloc[k].(pid := 0), policy);
    }
  }

  // ---------------------------------------------------------------------
  // Coalescing

  /** Draining moves blocks without adding, losing or changing any. */
  lemma {:induction false} DrainIntoMultiset(acc: seq<Block>, s: seq<Block>)
    ensures multiset(DrainInto(acc, s)) == multiset(acc) + multiset(s)
    decreases |s|
  {
    if s != [] {
      var b := s[0];
      var acc' := InsertedByAddress(acc, b);
      assert multiset(acc') == multiset(acc) + multiset{b} by {
        InsertAtElements(acc, AddressPosition(acc, b), b);
      }
      DrainIntoMultiset(acc', s[1..]);
      assert multiset(s) == multiset{b} + multiset(s[1..]) by {
        assert s == [b] + s[1..];
      }
    }
  }

  lemma {:induction false} DrainIntoCount(acc: seq<Block>, s: seq<Block>, a: int)
    ensures Count(DrainInto(acc, s), a) == Count(acc, a) + Count(s, a)
    decreases |s|
  {
    if s != [] {
      var b := s[0];
      var acc' := InsertedByAddress(acc, b);
      CountInsertAt(acc, AddressPosition(acc, b), b, a);
      DrainIntoCount(acc', s[1..], a);
    }
  }

  lemma {:induction false} DrainIntoTotal(acc: seq<Block>, s: seq<Block>)
    ensures Total(DrainInto(acc, s)) == Total(acc) + Total(s)
    decreases |s|
  {
    if s != [] {
      var b := s[0];
      var acc' := InsertedByAddress(acc, b);
      TotalInsertAt(acc, AddressPosition(acc, b), b);
      DrainIntoTotal(acc', s[1..]);
    }
  }

  /** Draining blocks with pairwise distinct starts yields a strictly
      address-ascending list. */
  lemma {:induction false} DrainIntoAscending(acc: seq<Block>, s: seq<Block>)
    requires StartsAscending(acc)
    requires DistinctStarts(s)
    requires forall x, y :: x in acc && y in s ==> x.start != y.start
    ensures StartsAscending(DrainInto(acc, s))
    decreases |s|
  {
    if s != [] {
      var b, rest := s[0], s[1..];
      var acc' := InsertedByAddress(acc, b);
      assert StartsAscending(acc') by {
        assert b in s;
        InsertedByAddressAscending(acc, b);
      }
      assert DistinctStarts(rest) by {
        forall i, j | 0 <= i < j < |rest| ensures rest[i].start != rest[j].start {
          assert rest[i] == s[i + 1] && rest[j] == s[j + 1];
        }
      }
      assert forall x, y :: x in acc' && y in rest ==> x.start != y.start by {
        InsertedByAddressPlacement(acc, b);
        forall x, y | x in acc' && y in rest ensures x.start != y.start {
          var j :| 0 <= j < |rest| && rest[j] == y;
          assert y == s[j + 1];
          assert x in multiset(acc');
          if x == b {
            assert s[0].start != s[j + 1].start;
          } else {
            assert x in multiset(acc);
            assert x in acc && y in s;
          }
        }
      }
      DrainIntoAscending(acc', rest);
    }
  }

  /** Draining into a non-decreasing list keeps it non-decreasing, whatever the starts. */
  lemma {:induction false} DrainIntoNonDecreasing(acc: seq<Block>, s: seq<Block>)
    requires StartsNonDecreasing(acc)
    ensures StartsNonDecreasing(DrainInto(acc, s))
    decreases |s|
  {
    if s != [] {
      InsertedByAddressNonDecreasing(acc, s[0]);
      DrainIntoNonDecreasing(InsertedByAddress(acc, s[0]), s[1..]);
    }
  }

  /** Draining a list whose order is already strictly ascending leaves the order alone. */
  lemma {:induction false} DrainIntoInOrder(acc: seq<Block>, s: seq<Block>)
    requires StartsAscending(acc + s)
    ensures DrainInto(acc, s) == acc + s
    decreases |s|
  {
    if s != [] {
      var b := s[0];
      var k := AddressPosition(acc, b);
      assert (acc + s)[|acc|] == b;
      forall i | 0 <= i < |acc| ensures acc[i].start < b.start {
        assert (acc + s)[i] == acc[i];
      }
      assert k == |acc|;
      assert InsertAt(acc, k, b) == acc + [b] by {
        assert acc[..|acc|] == acc && acc[|acc|..] == [];
      }
      assert (acc + [b]) + s[1..] == acc + s;
      DrainIntoInOrder(acc + [b], s[1..]);
    }
  }

  /** Coalescing keeps the blocks' total size, never lengthens the list, leaves
      no two neighbours adjacent, and for well-formed blocks keeps how many
      blocks hold each address. */
  lemma CoalesceContents(s: seq<Block>)
    ensures Total(Coalesce(s)) == Total(s)
    ensures |Coalesce(s)| <= |s|
    ensures NoAdjacent(Coalesce(s))
    ensures AllWellFormed(s) ==>
      AllWellFormed(Coalesce(s)) && forall a :: Count(Coalesce(s), a) == Count(s, a)
    ensures AllWellFormed(s) && (forall x :: x in s ==> x.pid == 0) ==>
      forall x :: x in Coalesce(s) ==> x.pid == 0
  {
    var t := SortedByAddress(s);
    DrainIntoMultiset([], s);
    DrainIntoTotal([], s);
    assert |t| == |s| by {
      assert |multiset(t)| == |multiset(s)|;
    }
    CoalescedTotal(t);
    CoalescedShape(t);
    if AllWellFormed(s) {
      forall x | x in t ensures x in s {
        assert x in multiset(t);
      }
      forall a ensures Count(t, a) == Count(s, a) {
        DrainIntoCount([], s, a);
      }
      CoalescedCoverage(t);
    }
  }

  /** Whatever the free list, the coalesced list is non-decreasing by address. */
  lemma CoalesceNonDecreasing(s: seq<Block>)
    ensures StartsNonDecreasing(Coalesce(s))
  {
    DrainIntoNonDecreasing([], s);
    CoalescedNonDecreasing(SortedByAddress(s));
  }

  /** When the free blocks have distinct starts, the coalesced list is
      strictly ascending by address and coalescing again changes nothing. */
  lemma CoalesceIdempotent(s: seq<Block>)
    requires DistinctStarts(s)
    ensures StartsAscending(Coalesce(s))
    ensures Coalesce(Coalesce(s)) == Coalesce(s)
  {
    DrainIntoAscending([], s);
    var t := SortedByAddress(s);
    CoalescedAscending(t);
    var c := Coalesce(s);
    assert [] + c == c;
    DrainIntoInOrder([], c);
    CoalescedShape(t);
    CoalescedIdentity(c);
  }

  // ---------------------------------------------------------------------
  // The memory invariant

  lemma InitialPartitioned(partitionSize: int)
    requires partitionSize > 0
    ensures Partitioned(InitialMemory(partitionSize), partitionSize)
    ensures Total(InitialMemory(partitionSize).free) + Total(InitialMemory(partitionSize).alloc) == partitionSize
  {
  }

  /** The invariant rules out overlapping blocks within either list, and so
      repeated starts in the free list. */
  lemma PartitionedNoOverlap(m: Memory, partitionSize: int)
    requires Partitioned(m, partitionSize)
    ensures NoOverlap(m.free) && NoOverlap(m.alloc)
    ensures DistinctStarts(m.free)
  {
    forall i, j | 0 <= i < j < |m.free| ensures m.free[i].end < m.free[j].start || m.free[j].end < m.free[i].start {
      ListNoOverlap(m.free, m.alloc, partitionSize, i, j);
    }
    forall i, j | 0 <= i < j < |m.alloc| ensures m.alloc[i].end < m.alloc[j].start || m.alloc[j].end < m.alloc[i].start {
      ListNoOverlap(m.alloc, m.free, partitionSize, i, j);
    }
    forall i, j | 0 <= i < j < |m.free| ensures m.free[i].start != m.free[j].start {
      assert m.free[i] in m.free && m.free[j] in m.free;
    }
  }

  lemma ListNoOverlap(s: seq<Block>, other: seq<Block>, partitionSize: int, i: nat, j: nat)
    requires AllWellFormed(s)
    requires forall a :: Count(s, a) + Count(other, a) == if 0 <= a < partitionSize then 1 else 0
    requires i < j < |s|
    ensures s[i].end < s[j].start || s[j].end < s[i].start
  {
    if !(s[i].end < s[j].start || s[j].end < s[i].start) {
      assert s[i] in s && s[j] in s;
      var a := if s[i].start < s[j].start then s[j].start else s[i].start;
      CountTwo(s, i, j, a);
    }
  }

  /** A block claimed at a start no allocated block shares keeps the
      allocated list well formed, owned and strictly ascending. */
  lemma ClaimKeepsAllocShape(alloc: seq<Block>, claimed: Block)
    requires AllWellFormed(alloc) && (forall x :: x in alloc ==> x.pid > 0) && StartsAscending(alloc)
    requires WellFormed(claimed) && claimed.pid > 0
    requires forall x :: x in alloc ==> x.start != claimed.start
    ensures var r := InsertedByAddress(alloc, claimed);
      AllWellFormed(r) && (forall x :: x in r ==> x.pid > 0) && StartsAscending(r)
  {
    var r := InsertedByAddress(alloc, claimed);
    InsertedByAddressAscending(alloc, claimed);
    InsertedByAddressPlacement(alloc, claimed);
    forall x | x in r ensures x == claimed || x in alloc {
      assert x in multiset(r);
    }
  }

  /** What is left of the free list after a claim of a positive size stays
      well formed and free. */
  lemma ClaimKeepsFreeShape(free: seq<Block>, k: nat, blocksize: int, policy: int)
    requires k < |free| && 0 < blocksize <= Size(free[k])
    requires AllWellFormed(free) && (forall x :: x in free ==> x.pid == 0)
    ensures var r := AddFragment(RemoveAt(free, k), free[k], blocksize, policy);
      AllWellFormed(r) && (forall x :: x in r ==> x.pid == 0)
  {
    var blk := free[k];
    var rest := RemoveAt(free, k);
    var r := AddFragment(rest, blk, blocksize, policy);
    RemoveAtElements(free, k);
    AddFragmentContents(rest, blk, 0, blocksize, policy);
    forall x | x in r ensures x in free || x == Block(0, blk.start + blocksize, blk.end) {
      assert x in multiset(r);
      if x in multiset(rest) {
        assert x in multiset(free);
      }
    }
  }

  /** Under the invariant, the start of a free block is the start of no
      allocated block. */
  lemma FreeStartUnallocated(m: Memory, partitionSize: int, k: nat)
    requires Partitioned(m, partitionSize)
    requires k < |m.free|
    ensures forall x :: x in m.alloc ==> x.start != m.free[k].start
  {
    var blk := m.free[k];
    assert blk in m.free;
    CountPositive(m.free, k, blk.start);
    forall x | x in m.alloc ensures x.start != blk.start {
      var i :| 0 <= i < |m.alloc| && m.alloc[i] == x;
      assert x in m.alloc;
      if x.start == blk.start {
        CountPositive(m.alloc, i, blk.start);
      }
    }
  }

  /** A claim moves each address of the block from the free list to the
      allocated list or leaves it in the fragment, so coverage is unchanged. */
  lemma ClaimKeepsCoverage(free: seq<Block>, alloc: seq<Block>, k: nat, pid: int, blocksize: int, policy: int, a: int)
    requires k < |free| && 0 < blocksize <= Size(free[k])
    ensures Count(AddFragment(RemoveAt(free, k), free[k], blocksize, policy), a)
          + Count(InsertedByAddress(alloc, Claim(free[k], pid, blocksize)), a)
         == Count(free, a) + Count(alloc, a)
  {
    var claimed := Claim(free[k], pid, blocksize);
    CountRemoveAt(free, k, a);
    CountInsertAt(alloc, AddressPosition(alloc, claimed), claimed, a);
    AddFragmentCount(RemoveAt(free, k), free[k], pid, blocksize, policy, a);
  }

  lemma AllocatePreservesPartition(m: Memory, partitionSize: int, pid: int, blocksize: int, policy: int)
    requires Partitioned(m, partitionSize)
    requires pid > 0 && blocksize > 0
    ensures Partitioned(Allocate(m, pid, blocksize, policy), partitionSize)
  {
    var k := IndexOfBySize(m.free, blocksize);
    if k != -1 {
      var blk := m.free[k];
      assert blk in m.free;
      var claimed := Claim(blk, pid, blocksize);
      var free := AddFragment(RemoveAt(m.free, k), blk, blocksize, policy);
      var alloc := InsertedByAddress(m.alloc, claimed);
      assert Allocate(m, pid, blocksize, policy) == Memory(free, alloc);
      FreeStartUnallocated(m, partitionSize, k);
      ClaimKeepsAllocShape(m.alloc, claimed);
      ClaimKeepsFreeShape(m.free, k, blocksize, policy);
      forall a ensures Count(free, a) + Count(alloc, a) == if 0 <= a < partitionSize then 1 else 0 {
        ClaimKeepsCoverage(m.free, m.alloc, k, pid, blocksize, policy, a);
      }
    }
  }

  /** A released block, with owner 0, keeps the free list well formed and free. */
  lemma ReleaseKeepsFreeShape(free: seq<Block>, blk: Block, policy: int)
    requires AllWellFormed(free) && (forall x :: x in free ==> x.pid == 0)
    requires WellFormed(blk)
    ensures var r := InsertByPolicy(free, blk.(pid := 0), policy);
      AllWellFormed(r) && forall x :: x in r ==> x.pid == 0
  {
    var freed := blk.(pid := 0);
    var r := InsertByPolicy(free, freed, policy);
    InsertByPolicyElements(free, freed, policy);
    forall x | x in r ensures x == freed || x in free {
      assert x in multiset(r);
    }
  }

  /** Unlinking a block keeps the allocated list well formed, owned and ascending. */
  lemma ReleaseKeepsAllocShape(alloc: seq<Block>, k: nat)
    requires k < |alloc|
    requires AllWellFormed(alloc) && (forall x :: x in alloc ==> x.pid > 0) && StartsAscending(alloc)
    ensures var r := RemoveAt(alloc, k);
      AllWellFormed(r) && (forall x :: x in r ==> x.pid > 0) && StartsAscending(r)
  {
    var r := RemoveAt(alloc, k);
    RemoveAtKeepsOrder(alloc, k);
    RemoveAtElements(alloc, k);
    forall x | x in r ensures x in alloc {
      assert x in multiset(r);
    }
  }

  /** Releasing a block moves its addresses from the allocated list to the free list. */
  lemma ReleaseKeepsCoverage(free: seq<Block>, alloc: seq<Block>, k: nat, policy: int, a: int)
    requires k < |alloc|
    ensures Count(InsertByPolicy(free, alloc[k].(pid := 0), policy), a) + Count(RemoveAt(alloc, k), a)
         == Count(free, a) + Count(alloc, a)
  {
    InsertByPolicyCount(free, alloc[k].(pid := 0), policy, a);
    CountRemoveAt(alloc, k, a);
  }

  lemma DeallocatePreservesPartition(m: Memory, partitionSize: int, pid: int, policy: int)
    requires Partitioned(m, partitionSize)
    ensures Partitioned(Deallocate(m, pid, policy), partitionSize)
  {
    var k := IndexOfByPid(m.alloc, pid);
    if k != -1 {
      var free, alloc := InsertByPolicy(m.free, m.alloc[k].(pid := 0), policy), RemoveAt(m.alloc, k);
      assert Deallocate(m, pid, policy) == Memory(free, alloc);
      assert m.alloc[k] in m.alloc;
      ReleaseKeepsFreeShape(m.free, m.alloc[k], policy);
      ReleaseKeepsAllocShape(m.alloc, k);
      forall a ensures Count(free, a) + Count(alloc, a) == if 0 <= a < partitionSize then 1 else 0 {
        ReleaseKeepsCoverage(m.free, m.alloc, k, policy, a);
      }
    }
  }

  lemma CoalescePreservesPartition(m: Memory, partitionSize: int)
    requires Partitioned(m, partitionSize)
    ensures Partitioned(Memory(Coalesce(m.free), m.alloc), partitionSize)
  {
    CoalesceContents(m.free);
  }

  /** From any state that satisfies the invariant, every run of valid events
      keeps it. */
  lemma {:induction false} RunPreservesPartition(m: Memory, partitionSize: int, events: seq<Event>, policy: int)
    requires Partitioned(m, partitionSize)
    requires forall e :: e in events ==> ValidEvent(e)
    ensures Partitioned(Run(m, events, policy), partitionSize)
    decreases |events|
  {
    if events != [] {
      var prefix := events[..|events| - 1];
      assert forall e :: e in prefix ==> e in events;
      RunPreservesPartition(m, partitionSize, prefix, policy);
      var before := Run(m, prefix, policy);
      var e := events[|events| - 1];
      assert e in events;
      match e
      case Alloc(pid, size) => AllocatePreservesPartition(before, partitionSize, pid, size, policy);
      case Dealloc(pid) => DeallocatePreservesPartition(before, partitionSize, pid, policy);
      case Compact => CoalescePreservesPartition(before, partitionSize);
    }
  }

  /** Every run keeps the total size of the blocks over both lists. */
  lemma {:induction false} RunConservesTotal(m: Memory, events: seq<Event>, policy: int)
    ensures var r := Run(m, events, policy);
      Total(r.free) + Total(r.alloc) == Total(m.free) + Total(m.alloc)
    decreases |events|
  {
    if events != [] {
      var prefix := events[..|events| - 1];
      RunConservesTotal(m, prefix, policy);
      var before := Run(m, prefix, policy);
      match events[|events| - 1]
      case Alloc(pid, size) => AllocateConservesTotal(before, pid, size, policy);
      case Dealloc(pid) => DeallocateConservesTotal(before, pid, policy);
      case Compact => CoalesceContents(before.free);
    }
  }

  /** From the seeded partition, whatever the input rows (as long as every
      allocation row asks for a positive size), the two lists always cover
      the partition exactly once, so their sizes add up to the partition size,
      and coalescing the free list is idempotent. */
  lemma SimulationInvariant(partitionSize: int, rows: seq<(int, int)>, policy: int)
    requires partitionSize > 0
    requires forall i :: 0 <= i < |rows| && rows[i].0 > 0 ==> rows[i].1 > 0
    ensures var r := Run(InitialMemory(partitionSize), Decoded(rows), policy);
      Partitioned(r, partitionSize) && NoOverlap(r.free) && NoOverlap(r.alloc)
      && Total(r.free) + Total(r.alloc) == partitionSize
      && Coalesce(Coalesce(r.free)) == Coalesce(r.free)
  {
    var events := Decoded(rows);
    InitialPartitioned(partitionSize);
    RunPreservesPartition(InitialMemory(partitionSize), partitionSize, events, policy);
    RunConservesTotal(InitialMemory(partitionSize), events, policy);
    var r := Run(InitialMemory(partitionSize), events, policy);
    PartitionedNoOverlap(r, partitionSize);
    CoalesceIdempotent(r.free);
  }

  // ---------------------------------------------------------------------
  // The allocator over the list objects

  method AllocateMemory(freelist: BlockList, alloclist: BlockList, pid: int, blocksize: int, policy: int)
    returns (ok: bool)
    requires freelist != alloclist
    modifies freelist, alloclist
    ensures ok <==> exists j :: 0 <= j < |old(freelist.blocks)| && blocksize <= Size(old(freelist.blocks)[j])
    ensures Memory(freelist.blocks, alloclist.blocks)
         == Allocate(Memory(old(freelist.blocks), old(alloclist.blocks)), pid, blocksize, policy)
  {
    ok := freelist.IsInBySize(blocksize);
    if !ok {
      return;
    }
    var idx := freelist.GetIndexOfBySize(blocksize);
    var removed := freelist.RemoveAtIndex(idx);
    var blk := removed.value;
    var originalEnd := blk.end;
    blk := blk.(pid := pid, end := blk.start + blocksize - 1);
    alloclist.AddAscendingByAddress(blk);
    if blk.end < originalEnd {
      var frag := Block(0, blk.end + 1, originalEnd);
      if policy == 1 {
        freelist.AddToBack(frag);
      } else if policy == 2 {
        freelist.AddAscendingByBlockSize(frag);
      } else {
        freelist.AddDescendingByBlockSize(frag);
      }
    }
  }

  method DeallocateMemory(alloclist: BlockList, freelist: BlockList, pid: int, policy: int)
    returns (ok: bool)
    requires freelist != alloclist
    modifies freelist, alloclist
    ensures ok <==> exists j :: 0 <= j < |old(alloclist.blocks)| && old(alloclist.blocks)[j].pid == pid
    ensures Memory(freelist.blocks, alloclist.blocks)
         == Deallocate(Memory(old(freelist.blocks), old(alloclist.blocks)), pid, policy)
  {
    ok := alloclist.IsInByPid(pid);
    if !ok {
      return;
    }
    var idx := alloclist.GetIndexOfByPid(pid);
    var removed := alloclist.RemoveAtIndex(idx);
    var blk := removed.value.(pid := 0);
    if policy == 1 {
      freelist.AddToBack(blk);
    } else if policy == 2 {
      freelist.AddAscendingByBlockSize(blk);
    } else {
      freelist.AddDescendingByBlockSize(blk);
    }
  }

  /** Drain `list` front first into a fresh list by address, then merge it. */
  method CoalesceMemory(list: BlockList) returns (temp: BlockList)
    modifies list
    ensures fresh(temp)
    ensures list.blocks == []
    ensures temp.blocks == Coalesce(old(list.blocks))
  {
    temp := new BlockList();
    var blk := list.RemoveFromFront();
    while blk.Some?
      invariant fresh(temp)
      invariant blk.None? ==> list.blocks == []
      invariant DrainInto(temp.blocks, (if blk.Some? then [blk.value] else []) + list.blocks)
             == SortedByAddress(old(list.blocks))
      decreases |list.blocks| + (if blk.Some? then 1 else 0)
    {
      assert ([blk.value] + list.blocks)[1..] == list.blocks;
      temp.AddAscendingByAddress(blk.value);
      ghost var pending := list.blocks;
      blk := list.RemoveFromFront();
      assert blk.Some? ==> [blk.value] + list.blocks == pending;
    }
    assert [] + list.blocks == [];
    temp.CoalesceNodes();
  }

  /** The free list seeded with one block `[0, partitionSize - 1]`. */
  method InitialFreeList(partitionSize: int) returns (freelist: BlockList)
    ensures fresh(freelist)
    ensures freelist.blocks == InitialMemory(partitionSize).free
  {
    freelist := new BlockList();
    var partition := Block(0, 0, partitionSize - 1);
    freelist.AddToFront(partition);
  }

  /** The driver loop over the input rows, with the free list replaced by the
      coalesced list on each coalesce row. */
  method Simulate(partitionSize: int, rows: seq<(int, int)>, policy: int)
    returns (freelist: BlockList, alloclist: BlockList)
    ensures fresh(freelist) && fresh(alloclist) && freelist != alloclist
    ensures Memory(freelist.blocks, alloclist.blocks) == Run(InitialMemory(partitionSize), Decoded(rows), policy)
  {
    var events := Decoded(rows);
    alloclist := new BlockList();
    freelist := InitialFreeList(partitionSize);
    var i := 0;
    while i < |events|
      invariant 0 <= i <= |events|
      invariant fresh(freelist) && fresh(alloclist) && freelist != alloclist
      invariant Memory(freelist.blocks, alloclist.blocks) == Run(InitialMemory(partitionSize), events[..i], policy)
    {
      assert events[..i + 1][..i] == events[..i];
      match events[i] {
        case Alloc(pid, size) =>
          var _ := AllocateMemory(freelist, alloclist, pid, size, policy);
        case Dealloc(pid) =>
          var _ := DeallocateMemory(alloclist, freelist, pid, policy);
        case Compact =>
          freelist := CoalesceMemory(freelist);
      }
      i := i + 1;
    }
    assert events[..|events|] == events;
  }
}
