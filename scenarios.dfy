/** Concrete runs of the allocator: the three fit policies on one set of
    blocks, an end-to-end run over input rows, and a merge of adjacent
    free blocks. */
module Scenarios {
  import opened Blocks
  import opened BlockLists
  import opened Mmu

  /** Best fit inserts free blocks of sizes 10, 30 and 20 in ascending
      size order: 10, 20, 30. */
  lemma BestFitBuilt()
    ensures InsertByPolicy([], Block(0, 0, 9), 2) == [Block(0, 0, 9)]
    ensures InsertByPolicy([Block(0, 0, 9)], Block(0, 10, 39), 2) == [Block(0, 0, 9), Block(0, 10, 39)]
    ensures InsertByPolicy([Block(0, 0, 9), Block(0, 10, 39)], Block(0, 40, 59), 2)
         == [Block(0, 0, 9), Block(0, 40, 59), Block(0, 10, 39)]
  {
    assert InsertByPolicy([Block(0, 0, 9)], Block(0, 10, 39), 2) == [Block(0, 0, 9), Block(0, 10, 39)] by {
      assert FirstAtLeast([Block(0, 0, 9)], 30) == 1;
    }
    assert InsertByPolicy([Block(0, 0, 9), Block(0, 10, 39)], Block(0, 40, 59), 2)
        == [Block(0, 0, 9), Block(0, 40, 59), Block(0, 10, 39)] by {
      BestFitThirdInsert();
    }
  }

  lemma BestFitThirdInsert()
    ensures InsertByPolicy([Block(0, 0, 9), Block(0, 10, 39)], Block(0, 40, 59), 2)
         == [Block(0, 0, 9), Block(0, 40, 59), Block(0, 10, 39)]
  {
    var s, b := [Block(0, 0, 9), Block(0, 10, 39)], Block(0, 40, 59);
    assert FirstAtLeast(s, 20) == 1;
    assert s[..1] == [Block(0, 0, 9)] && s[1..] == [Block(0, 10, 39)];
  }

  /** On that list a request of 15 claims the block of size 20, and the 5
      addresses left over go to the front. */
  lemma BestFitScenario()
    ensures Allocate(Memory([Block(0, 0, 9), Block(0, 40, 59), Block(0, 10, 39)], []), 7, 15, 2)
         == Memory([Block(0, 55, 59), Block(0, 0, 9), Block(0, 10, 39)], [Block(7, 40, 54)])
  {
    BestFitSteps();
    BestFitFragment();
  }

  lemma BestFitSteps()
    ensures IndexOfBySize([Block(0, 0, 9), Block(0, 40, 59), Block(0, 10, 39)], 15) == 1
    ensures RemoveAt([Block(0, 0, 9), Block(0, 40, 59), Block(0, 10, 39)], 1) == [Block(0, 0, 9), Block(0, 10, 39)]
    ensures InsertedByAddress([], Block(7, 40, 54)) == [Block(7, 40, 54)]
  {
    assert FirstAtLeast([Block(0, 0, 9), Block(0, 40, 59), Block(0, 10, 39)], 15) == 1;
  }

  lemma BestFitFragment()
    ensures AddFragment([Block(0, 0, 9), Block(0, 10, 39)], Block(0, 40, 59), 15, 2)
         == [Block(0, 55, 59), Block(0, 0, 9), Block(0, 10, 39)]
  {
    assert FirstAtLeast([Block(0, 0, 9), Block(0, 10, 39)], 5) == 0;
  }

  /** Worst fit inserts the same blocks in descending size order: 30, 20, 10. */
  lemma WorstFitBuilt()
    ensures InsertByPolicy([], Block(0, 0, 9), 3) == [Block(0, 0, 9)]
    ensures InsertByPolicy([Block(0, 0, 9)], Block(0, 10, 39), 3) == [Block(0, 10, 39), Block(0, 0, 9)]
    ensures InsertByPolicy([Block(0, 10, 39), Block(0, 0, 9)], Block(0, 40, 59), 3)
         == [Block(0, 10, 39), Block(0, 40, 59), Block(0, 0, 9)]
  {
    assert InsertByPolicy([Block(0, 0, 9)], Block(0, 10, 39), 3) == [Block(0, 10, 39), Block(0, 0, 9)] by {
      assert FirstAtMost([Block(0, 0, 9)], 30) == 0;
    }
    assert InsertByPolicy([Block(0, 10, 39), Block(0, 0, 9)], Block(0, 40, 59), 3)
        == [Block(0, 10, 39), Block(0, 40, 59), Block(0, 0, 9)] by {
      WorstFitThirdInsert();
    }
  }

  lemma WorstFitThirdInsert()
    ensures InsertByPolicy([Block(0, 10, 39), Block(0, 0, 9)], Block(0, 40, 59), 3)
         == [Block(0, 10, 39), Block(0, 40, 59), Block(0, 0, 9)]
  {
    var s := [Block(0, 10, 39), Block(0, 0, 9)];
    assert FirstAtMost(s, 20) == 1;
    assert s[..1] == [Block(0, 10, 39)] && s[1..] == [Block(0, 0, 9)];
  }

  /** On that list a request of 5 claims the block of size 30, and its 25
      leftover addresses go to the front. */
  lemma WorstFitScenario()
    ensures Allocate(Memory([Block(0, 10, 39), Block(0, 40, 59), Block(0, 0, 9)], []), 7, 5, 3)
         == Memory([Block(0, 15, 39), Block(0, 40, 59), Block(0, 0, 9)], [Block(7, 10, 14)])
  {
    WorstFitSteps();
    WorstFitFragment();
  }

  lemma WorstFitSteps()
    ensures IndexOfBySize([Block(0, 10, 39), Block(0, 40, 59), Block(0, 0, 9)], 5) == 0
    ensures RemoveAt([Block(0, 10, 39), Block(0, 40, 59), Block(0, 0, 9)], 0) == [Block(0, 40, 59), Block(0, 0, 9)]
    ensures InsertedByAddress([], Block(7, 10, 14)) == [Block(7, 10, 14)]
  {
    assert FirstAtLeast([Block(0, 10, 39), Block(0, 40, 59), Block(0, 0, 9)], 5) == 0;
  }

  lemma WorstFitFragment()
    ensures AddFragment([Block(0, 40, 59), Block(0, 0, 9)], Block(0, 10, 39), 5, 3)
         == [Block(0, 15, 39), Block(0, 40, 59), Block(0, 0, 9)]
  {
    assert FirstAtMost([Block(0, 40, 59), Block(0, 0, 9)], 25) == 0;
  }

  /** First fit appends, so the list keeps arrival order: 10, 30, 20. */
  lemma FirstFitBuilt()
    ensures InsertByPolicy(InsertByPolicy(InsertByPolicy([], Block(0, 0, 9), 1), Block(0, 10, 39), 1), Block(0, 40, 59), 1)
         == [Block(0, 0, 9), Block(0, 10, 39), Block(0, 40, 59)]
  {
  }

  /** On that list a request of 15 claims the block of size 30 (the first
      one large enough), not the smallest that fits. */
  lemma FirstFitScenario()
    ensures Allocate(Memory([Block(0, 0, 9), Block(0, 10, 39), Block(0, 40, 59)], []), 7, 15, 1)
         == Memory([Block(0, 0, 9), Block(0, 40, 59), Block(0, 25, 39)], [Block(7, 10, 24)])
  {
    var free := [Block(0, 0, 9), Block(0, 10, 39), Block(0, 40, 59)];
    assert IndexOfBySize(free, 15) == 1 by {
      assert FirstAtLeast(free, 15) == 1;
    }
    assert RemoveAt(free, 1) == [Block(0, 0, 9), Block(0, 40, 59)];
    assert InsertedByAddress([], Block(7, 10, 24)) == [Block(7, 10, 24)];
  }

  /** With no block large enough, or no block owned by the process, the
      state is left as it was. */
  lemma FailureScenario()
    ensures Allocate(Memory([Block(0, 0, 9)], []), 1, 30, 1) == Memory([Block(0, 0, 9)], [])
    ensures Deallocate(Memory([Block(0, 40, 59)], [Block(2, 0, 39)]), 1, 1) == Memory([Block(0, 40, 59)], [Block(2, 0, 39)])
  {
    assert IndexOfBySize([Block(0, 0, 9)], 30) == -1;
    assert IndexOfByPid([Block(2, 0, 39)], 1) == -1;
  }

  /** Partition 100, first fit: pid 1 takes [0, 39] and leaves [40, 99] free. */
  lemma EndToEndFirstClaim()
    ensures Allocate(InitialMemory(100), 1, 40, 1) == Memory([Block(0, 40, 99)], [Block(1, 0, 39)])
  {
    assert IndexOfBySize([Block(0, 0, 99)], 40) == 0;
  }

  /** pid 2 then takes the remaining 60 addresses exactly: no fragment is left. */
  lemma EndToEndExactClaim()
    ensures Allocate(Memory([Block(0, 40, 99)], [Block(1, 0, 39)]), 2, 60, 1)
         == Memory([], [Block(1, 0, 39), Block(2, 40, 99)])
  {
    assert IndexOfBySize([Block(0, 40, 99)], 60) == 0;
    assert Size(Block(0, 40, 99)) == 60;
    assert AddressPosition([Block(1, 0, 39)], Block(2, 40, 99)) == 1;
  }

  /** pid 1 frees its block, which returns to the free list with owner 0. */
  lemma EndToEndRelease()
    ensures Deallocate(Memory([], [Block(1, 0, 39), Block(2, 40, 99)]), 1, 1)
         == Memory([Block(0, 0, 39)], [Block(2, 40, 99)])
  {
    assert IndexOfByPid([Block(1, 0, 39), Block(2, 40, 99)], 1) == 0;
  }

  /** A coalesce of a single free block leaves it as it is. */
  lemma EndToEndCompact()
    ensures Coalesce([Block(0, 0, 39)]) == [Block(0, 0, 39)]
  {
    assert DrainInto([], [Block(0, 0, 39)]) == [Block(0, 0, 39)];
  }

  /** The four input rows of the run decode to allocate, allocate,
      deallocate and coalesce. */
  lemma EndToEndRows()
    ensures Decoded([(1, 40), (2, 60), (-1, 0), (CompactMarker, 0)])
         == [Alloc(1, 40), Alloc(2, 60), Dealloc(1), Compact]
  {
  }

  /** The run ends with pid 2 on [40, 99] and [0, 39] free. */
  lemma EndToEndScenario(events: seq<Event>)
    requires events == [Alloc(1, 40), Alloc(2, 60), Dealloc(1), Compact]
    ensures Run(InitialMemory(100), events, 1) == Memory([Block(0, 0, 39)], [Block(2, 40, 99)])
  {
    var m0 := InitialMemory(100);
    var m1 := Memory([Block(0, 40, 99)], [Block(1, 0, 39)]);
    var m2 := Memory([], [Block(1, 0, 39), Block(2, 40, 99)]);
    var m3 := Memory([Block(0, 0, 39)], [Block(2, 40, 99)]);
    var e0, e1, e2, e3 := events[..0], events[..1], events[..2], events[..3];
    assert e1 == e0 + [Alloc(1, 40)] && e2 == e1 + [Alloc(2, 60)] && e3 == e2 + [Dealloc(1)];
    assert events == e3 + [Compact];
    assert Run(m0, e1, 1) == m1 by {
      RunAppend(m0, e0, Alloc(1, 40), 1);
      EndToEndFirstClaim();
    }
    assert Run(m0, e2, 1) == m2 by {
      RunAppend(m0, e1, Alloc(2, 60), 1);
      EndToEndExactClaim();
    }
    assert Run(m0, e3, 1) == m3 by {
      RunAppend(m0, e2, Dealloc(1), 1);
      EndToEndRelease();
    }
    RunAppend(m0, e3, Compact, 1);
    EndToEndCompact();
  }

  /** Two adjacent free blocks given out of address order merge into one. */
  lemma MergeScenario()
    ensures Coalesce([Block(0, 40, 59), Block(0, 0, 39)]) == [Block(0, 0, 59)]
  {
    assert InsertedByAddress([], Block(0, 40, 59)) == [Block(0, 40, 59)];
    assert InsertedByAddress([Block(0, 40, 59)], Block(0, 0, 39)) == [Block(0, 0, 39), Block(0, 40, 59)];
    assert SortedByAddress([Block(0, 40, 59), Block(0, 0, 39)]) == [Block(0, 0, 39), Block(0, 40, 59)];
    assert Merged(Block(0, 0, 59), []) == [Block(0, 0, 59)];
  }
}
