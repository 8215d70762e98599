# Block lists of a variable-partition memory simulator

This project models the block-list engine of a memory simulator and proves
properties of it. The simulator carves a fixed address range
`[0, PARTITION_SIZE - 1]` into contiguous blocks. A block is
`{pid, start, end}`, with `end` inclusive and size `end - start + 1`. Owner 0
marks a free block.

The simulator keeps two singly linked lists:
- the free list;
- the allocated list.

A placement policy decides where free blocks go:
- policy 1 (FIFO / first fit) appends them;
- policy 2 (best fit) inserts them by ascending size;
- any other policy (worst fit) inserts them by descending size.

The allocated list is always kept in address order.

Three operations run on the lists:
- Allocation claims a prefix of the first free block that is large enough. A leftover fragment goes back to the free list by policy.
- Deallocation returns a process's block to the free list by policy.
- Compaction drains the free list into a fresh address-ordered list and merges address-adjacent neighbours in one pass.

The project has four modules.

- `Blocks` (`blocks.dfy`): the block value, together with the bookkeeping that specifications are stated in:
  - `Size`;
  - `Count(s, a)`, the number of blocks of `s` that hold address `a`;
  - `Total`, the sum of the sizes;
  - `InsertAt` and `RemoveAt`, splicing a block in or out at a position.
- `BlockLists` (`list.dfy`): the list engine of `MMU/list.c`.
  - Each insertion discipline, search and merge has a specification function over the sequence of blocks from head to tail (`InsertedByAddress`, `IndexOfBySize`, `Coalesced`, …).
  - The class `BlockList` holds that sequence in its field `blocks`. It has one method per C function other than `compareSize`, which is the predicate `CompareSize`. Each method whose C function walks the list does so with a `while` loop, the way the C code follows its `next` links. Each method is proved to return, and to leave behind, what these functions give for the old list.
- `Mmu` (`mmu.dfy`): the allocator of `MMU/mmu.c`, over a pair of lists `Memory(free, alloc)`.
  - `Allocate`, `Deallocate` and `Coalesce` specify the three operations. The methods `AllocateMemory`, `DeallocateMemory` and `CoalesceMemory` perform them on two `BlockList` objects through the list methods.
  - `Simulate` is the driver loop over the input rows. `DecodeRow` turns a row into an allocate, deallocate or coalesce event, and `Run` folds the events.
  - The invariant `Partitioned` says that every address of the partition is held by exactly one block of the two lists. It is proved to hold from the seeded free list through any run whose allocation rows ask for a positive size.
- `Scenarios` (`scenarios.dfy`): concrete runs.
  - the three policies on one set of free blocks;
  - failure cases;
  - an end-to-end run from input rows;
  - a merge of two adjacent blocks given out of address order.

The address-ordered insert follows the code. When the new block starts at the same address as the head, the test at `MMU/list.c:88` is a strict `<`. So the new block is not made the head: it is linked in after the head. The model and `BlockLists.InsertedByAddressTie` follow the code.

## Model

| member | source | states |
|---|---|---|
| Blocks.InsertAtElements | MMU/list.c:98-99 | Splicing a block in at position k puts it at k. Blocks before k keep their place and later blocks move up by one. The multiset gains exactly that block. |
| Blocks.RemoveAtElements | MMU/list.c:244-250 | Unlinking position k keeps the blocks before k. Later blocks move down by one. The multiset loses exactly the unlinked block. |
| Blocks.RemoveInsertRoundTrip | MMU/list.c:236-256 | Unlinking position k and splicing that block back at k restores the list. |
| Blocks.InsertRemoveRoundTrip | MMU/list.c:94-99 | Splicing a block in at k and unlinking position k restores the list. |
| Blocks.CountAppend | MMU/mmu.c:42-111 | The coverage of an address by a concatenation is the sum of the coverages of the two parts. The partition invariant over the free and allocated lists rests on this. |
| Blocks.TotalAppend | MMU/mmu.c:42-111 | The total size of a concatenation is the sum of the two totals. The allocator's size conservation rests on this. |
| Blocks.CountInsertAt | MMU/list.c:94-99 | Inserting a block adds exactly its own coverage to each address. |
| Blocks.CountRemoveAt | MMU/list.c:244-250 | Unlinking a block takes away exactly its own coverage from each address. |
| Blocks.TotalInsertAt | MMU/list.c:94-99 | Inserting a block adds exactly its size to the total. |
| Blocks.TotalRemoveAt | MMU/list.c:244-250 | Unlinking a block takes exactly its size off the total. |
| Blocks.CountPositive | MMU/mmu.c:42-111 | An address held by some block of a list is counted at least once. The no-overlap consequences of the partition invariant rest on this. |
| Blocks.CountTwo | MMU/mmu.c:42-111 | An address held by two different blocks of a list is counted at least twice. So under the partition invariant no two blocks overlap. |
| BlockLists.FirstWithPid | MMU/list.c:262-272 | Gives the least position owned by pid: every block before it has another owner. If none is owned, gives the length. |
| BlockLists.FirstAtLeast | MMU/list.c:120-125 | Gives the least position whose size is at least n: every block before it is smaller. If there is none, gives the length. |
| BlockLists.FirstAtMost | MMU/list.c:149-154 | Gives the least position whose size is at most n: every block before it is larger. If there is none, gives the length. |
| BlockLists.FirstStartNotBelow | MMU/list.c:94-96 | Gives the least position whose start is not below x: every block before it starts below x. |
| BlockLists.IndexOfByPid | MMU/list.c:262-272 | Gives -1 exactly when no block has owner pid. Otherwise gives the least index whose owner is pid. |
| BlockLists.IndexOfBySize | MMU/list.c:287-297 | Gives -1 exactly when no block fits n (compareSize). Otherwise gives the least index that fits. |
| BlockLists.CompareSize | MMU/list.c:274-276 | A request of n addresses fits a block exactly when n is at most the block's size `end - start + 1`. |
| BlockLists.AddressPosition | MMU/list.c:85-100 | The insert position is 0 exactly when the list is empty or the new start is strictly below the head's start. Otherwise it comes after the head and after every following block that starts strictly below the new block. |
| BlockLists.InsertedByAddress | MMU/list.c:85-100 | The address-ordered insert: the old list with the block spliced in at `AddressPosition`. |
| BlockLists.InsertedBySizeAscending | MMU/list.c:103-129 | The size-ascending insert: the old list with the block spliced in before the first block at least as large, or at the end. |
| BlockLists.InsertedBySizeDescending | MMU/list.c:132-158 | The size-descending insert: the old list with the block spliced in before the first block at most as large, or at the end. |
| BlockLists.InsertedByAddressPlacement | MMU/list.c:85-100 | The address insert puts the block at its position once. Unlinking it gives back the old list, so the others keep their order. The multiset gains exactly the block. |
| BlockLists.InsertedByAddressTie | MMU/list.c:88 | When the new start equals the head's start, the head stays the head and the new block goes after it. |
| BlockLists.InsertedByAddressAscending | MMU/list.c:85-100 | A strictly address-ascending list stays strictly ascending when the new start is distinct from every existing start. |
| BlockLists.InsertedByAddressNonDecreasing | MMU/list.c:85-100 | A non-decreasing address order is kept for any new block. |
| BlockLists.InsertedBySizeAscendingPlacement | MMU/list.c:103-129 | The block lands just before the first block at least as large, or at the end. Every block before it is strictly smaller. Unlinking it gives back the old list. |
| BlockLists.InsertedBySizeAscendingSorted | MMU/list.c:103-129 | A list that is non-decreasing by size stays non-decreasing. |
| BlockLists.InsertedBySizeDescendingPlacement | MMU/list.c:132-158 | The block lands just before the first block at most as large, or at the end. Every block before it is strictly larger. Unlinking it gives back the old list. |
| BlockLists.InsertedBySizeDescendingSorted | MMU/list.c:132-158 | A list that is non-increasing by size stays non-increasing. |
| BlockLists.RemoveAtKeepsOrder | MMU/list.c:236-256 | Unlinking any block keeps an ascending-address, ascending-size or descending-size order. |
| BlockLists.Merged | MMU/list.c:171-193 | The merge from a predecessor yields a non-empty list no longer than its input. The result starts with the predecessor's start and owner. |
| BlockLists.MergedNoAdjacent | MMU/list.c:177-192 | After the merge no block ends right before its successor starts. |
| BlockLists.MergedIdentity | MMU/list.c:177-192 | A list with no adjacent pair is its own merge. |
| BlockLists.MergedCount | MMU/list.c:179-186 | For well-formed blocks the merge keeps each address's coverage. |
| BlockLists.MergedTotal | MMU/list.c:179-186 | The merge keeps the sum of block sizes. |
| BlockLists.MergedBlocks | MMU/list.c:179-186 | Merged blocks are well formed. If every input block is free, every merged block is free. |
| BlockLists.MergedAscending | MMU/list.c:177-192 | A strictly address-ascending list stays strictly ascending when merged. |
| BlockLists.MergedNonDecreasing | MMU/list.c:177-192 | A non-decreasing address order survives the merge, ties included. |
| BlockLists.NonDecreasingCons | MMU/list.c:189-190 | Putting a block in front of a non-decreasing list that starts no lower gives a non-decreasing list. |
| BlockLists.Coalesced | MMU/list.c:171-193 | The single-pass merge of a whole list: empty for an empty list, otherwise the merge with the head as the first predecessor. |
| BlockLists.CoalescedShape | MMU/list.c:171-193 | The merge never lengthens the list, keeps the first start and leaves no consecutive pair adjacent. |
| BlockLists.CoalescedIdentity | MMU/list.c:171-193 | Merging a list with no adjacent pair changes nothing. |
| BlockLists.CoalescedIdempotent | MMU/list.c:171-193 | Merging twice is the same as merging once. |
| BlockLists.CoalescedCoverage | MMU/list.c:171-193 | For well-formed blocks the merge keeps each address's coverage, so the covered addresses are unchanged. It keeps the blocks well formed and keeps a free list free. |
| BlockLists.CoalescedTotal | MMU/list.c:171-193 | The merge keeps the total size. |
| BlockLists.CoalescedAscending | MMU/list.c:171-193 | The merge keeps strict address order. |
| BlockLists.CoalescedNonDecreasing | MMU/list.c:171-193 | The merge keeps a non-decreasing address order. |
| BlockLists.AscendingCons | MMU/list.c:189-190 | Putting a block in front of a strictly ascending list that starts above it gives a strictly ascending list. |
| BlockLists.MergeStepAdjacent | MMU/list.c:179-186 | Absorbing an adjacent successor shortens the list by one. It leaves the merge still to be done unchanged. |
| BlockLists.MergeStepApart | MMU/list.c:188-191 | Advancing past a non-adjacent successor leaves the merge still to be done unchanged. |
| BlockLists.MergeStart | MMU/list.c:172-175 | Before the first step the whole list is still to be merged. |
| BlockLists.MergeDone | MMU/list.c:177 | With no successor left the merge state is the list itself. |
| BlockLists.BlockList.constructor | MMU/list.c:10-14 | A new list is empty. |
| BlockLists.BlockList.Length | MMU/list.c:55-60 | Counting the nodes returns the number of blocks. |
| BlockLists.BlockList.AddToBack | MMU/list.c:63-75 | The list becomes the old list followed by the block. |
| BlockLists.BlockList.AddToFront | MMU/list.c:78-82 | The list becomes the block followed by the old list. |
| BlockLists.BlockList.AddAscendingByAddress | MMU/list.c:85-100 | The list becomes the address insert of the block into the old list, as specified by AddressPosition. |
| BlockLists.BlockList.AddAscendingByBlockSize | MMU/list.c:103-129 | The list becomes the size-ascending insert of the block into the old list. |
| BlockLists.BlockList.AddDescendingByBlockSize | MMU/list.c:132-158 | The list becomes the size-descending insert of the block into the old list. |
| BlockLists.BlockList.IsInByPid | MMU/list.c:161-168 | True exactly when some block has owner pid, that is, exactly when the pid index is not -1. |
| BlockLists.BlockList.CoalesceNodes | MMU/list.c:171-193 | The in-place merge leaves exactly the merge of the old list. |
| BlockLists.BlockList.RemoveFromBack | MMU/list.c:196-217 | On an empty list returns nothing and changes nothing. Otherwise returns the last block and drops it. |
| BlockLists.BlockList.GetFromFront | MMU/list.c:220-222 | Returns the head block, or nothing for an empty list. |
| BlockLists.BlockList.RemoveFromFront | MMU/list.c:224-233 | On an empty list returns nothing and changes nothing. Otherwise returns the head and drops it. |
| BlockLists.BlockList.RemoveAtIndex | MMU/list.c:236-256 | For an index in range, returns the block there and leaves the old list without it. For any other index, including any index into an empty list, returns nothing and changes nothing. |
| BlockLists.BlockList.GetIndexOfByPid | MMU/list.c:262-272 | Returns the least index owned by pid, or -1. |
| BlockLists.BlockList.IsInBySize | MMU/list.c:278-285 | True exactly when some block fits the size, that is, exactly when the size index is not -1. |
| BlockLists.BlockList.GetIndexOfBySize | MMU/list.c:287-297 | Returns the least index whose block fits the size, or -1. |
| Mmu.DecodeRow | MMU/mmu.c:160-176 | A row allocates exactly when its id is positive, with that id and size. It coalesces exactly when the id is the marker -99999. Any other id deallocates the process named by its absolute value. |
| Mmu.Decoded | MMU/mmu.c:157-182 | When every allocating row (positive id) asks for a positive size, every decoded event is valid: each allocation has a positive pid and a positive size. |
| Mmu.Step | MMU/mmu.c:160-176 | One event: an allocation calls Allocate, a deallocation calls Deallocate, and a coalesce replaces the free list by its Coalesce. |
| Mmu.Run | MMU/mmu.c:157-182 | The state after the events, applied in order from the first. |
| Mmu.InitialMemory | MMU/mmu.c:150-155 | The seeded state: one free block `[0, PARTITION_SIZE - 1]` and an empty allocated list. |
| Mmu.RunAppend | MMU/mmu.c:157-182 | Running one more row is one more step after the earlier rows. |
| Mmu.PolicyPosition | MMU/mmu.c:69-74 | The policy dispatch links the block at a position within the list. |
| Mmu.InsertByPolicy | MMU/mmu.c:69-74 | The policy dispatch: policy 1 appends, policy 2 inserts by ascending size, any other policy inserts by descending size. |
| Mmu.Claim | MMU/mmu.c:56-57 | The claimed block: owner pid, the free block's start, and end `start + blocksize - 1`. |
| Mmu.AddFragment | MMU/mmu.c:62-75 | The free list after a claim: when the claim ends before the block does, the fragment `{0, start + blocksize, end}` is inserted by policy. Otherwise the list is left as it is. |
| Mmu.Allocate | MMU/mmu.c:42-76 | With no fitting free block, the state is unchanged. Otherwise the first fitting block is unlinked, its claim is inserted in the allocated list by address, and the fragment goes to the free list. |
| Mmu.Deallocate | MMU/mmu.c:81-99 | With no block owned by pid, the state is unchanged. Otherwise the first owned block is unlinked and its range, with owner 0, is inserted in the free list by policy. |
| Mmu.InsertByPolicyAt | MMU/mmu.c:69-74 | Each policy (back, size-ascending, size-descending) splices the block in at one position. |
| Mmu.InsertByPolicyElements | MMU/mmu.c:69-74 | The dispatch adds exactly the block: the length grows by one and the multiset by that block. |
| Mmu.InsertByPolicyCount | MMU/mmu.c:93-98 | The dispatch adds exactly the block's coverage to each address. |
| Mmu.InsertByPolicyTotal | MMU/mmu.c:93-98 | The dispatch adds exactly the block's size to the total. |
| Mmu.InsertByPolicyKeepsOrder | MMU/mmu.c:69-74 | Best fit (2) keeps a size-ascending free list sorted. Worst fit (every policy other than 1 and 2) keeps a size-descending one sorted. |
| Mmu.AllocateFails | MMU/mmu.c:44-48 | If no free block fits the request, both lists are unchanged. |
| Mmu.AddFragmentContents | MMU/mmu.c:54-75 | The claim has exactly the requested size. A fragment is added only when the block was strictly larger than the request. Claim plus fragment are as large as the block. |
| Mmu.AddFragmentCount | MMU/mmu.c:54-75 | For a positive request, each address of the block is held by exactly one of the claim and the fragment. |
| Mmu.AllocateClaims | MMU/mmu.c:50-60 | On success the first fitting free block is taken. The allocated list gains exactly `{pid, start, start + blocksize - 1}`, inserted in address order. |
| Mmu.AllocateSplitsBlock | MMU/mmu.c:50-75 | On success the free list loses the claimed block and gains the fragment `{0, start + blocksize, end}` only if something is left over. So its length changes by 0 or -1. |
| Mmu.AllocateConservesTotal | MMU/mmu.c:42-76 | Allocation keeps the total block size over both lists. |
| Mmu.DeallocateFails | MMU/mmu.c:83-86 | If no allocated block has owner pid, both lists are unchanged. |
| Mmu.DeallocateReleases | MMU/mmu.c:88-98 | Otherwise the first block owned by pid is unlinked from the allocated list. The same range with owner 0 joins the free list by policy. |
| Mmu.DeallocateConservesTotal | MMU/mmu.c:81-99 | Deallocation keeps the total block size over both lists. |
| Mmu.BestFitClaimsSmallest | MMU/mmu.c:50-52 | On a size-ascending free list the first fit is a smallest fitting block. |
| Mmu.WorstFitClaimsLargest | MMU/mmu.c:50-52 | On a size-descending free list the first fit, if any, is the head, which is a largest block. |
| Mmu.AddFragmentKeepsAscending | MMU/mmu.c:62-75 | Under best fit, adding the fragment keeps the free list size-ascending. |
| Mmu.AddFragmentKeepsDescending | MMU/mmu.c:62-75 | Under worst fit (any policy other than 1 and 2), adding the fragment keeps the free list size-descending. |
| Mmu.AllocateKeepsFreeOrder | MMU/mmu.c:42-76 | Allocation keeps the size order of a best-fit free list (policy 2) or a worst-fit one (any policy other than 1 and 2). |
| Mmu.DeallocateKeepsFreeOrder | MMU/mmu.c:81-99 | Deallocation keeps the size order of a best-fit free list (policy 2) or a worst-fit one (any policy other than 1 and 2). |
| Mmu.DrainIntoMultiset | MMU/mmu.c:106-107 | Draining moves the blocks without adding, losing or changing any. |
| Mmu.DrainIntoCount | MMU/mmu.c:106-107 | Draining keeps the coverage of each address. |
| Mmu.DrainIntoTotal | MMU/mmu.c:106-107 | Draining keeps the total size. |
| Mmu.DrainIntoAscending | MMU/mmu.c:106-107 | Draining blocks with distinct starts gives a strictly address-ascending list. |
| Mmu.DrainIntoInOrder | MMU/mmu.c:106-107 | Draining a list that is already strictly ascending leaves its order as it was. |
| Mmu.DrainIntoNonDecreasing | MMU/mmu.c:106-107 | Draining into a non-decreasing list keeps it non-decreasing, whatever the starts. |
| Mmu.DrainInto | MMU/mmu.c:106-107 | The drain loop: the blocks, head first, each inserted by address into the accumulated list. |
| Mmu.Coalesce | MMU/mmu.c:102-111 | The free list drained by address into an empty list, then merged. |
| Mmu.CoalesceContents | MMU/mmu.c:102-111 | Coalescing keeps the total size, never lengthens the list and leaves no neighbours adjacent. For well-formed blocks it keeps the coverage of every address and keeps the free blocks free. |
| Mmu.CoalesceNonDecreasing | MMU/mmu.c:102-111 | Whatever the free list, the coalesced list is non-decreasing by address. |
| Mmu.CoalesceIdempotent | MMU/mmu.c:102-111 | With distinct starts the result is strictly address-ascending, and coalescing again changes nothing. |
| Mmu.InitialPartitioned | MMU/mmu.c:150-155 | The seeded free list `[0, PARTITION_SIZE - 1]` satisfies the partition invariant, and the total size equals the partition size. |
| Mmu.PartitionedNoOverlap | MMU/mmu.c:42-111 | Under the invariant no two blocks of either list overlap, and free blocks have distinct starts. |
| Mmu.ListNoOverlap | MMU/mmu.c:42-111 | Two blocks of a list whose coverage is at most one per address do not overlap. |
| Mmu.ClaimKeepsAllocShape | MMU/mmu.c:56-60 | A claimed block at a start no allocated block shares keeps the allocated list well formed, owned and strictly ascending. |
| Mmu.ClaimKeepsFreeShape | MMU/mmu.c:62-75 | After a claim of a positive size, what is left of the free list stays well formed and free. |
| Mmu.FreeStartUnallocated | MMU/mmu.c:52-60 | Under the invariant, no allocated block starts where a free block starts. |
| Mmu.ClaimKeepsCoverage | MMU/mmu.c:50-75 | A claim moves each address of the block to the allocated list or keeps it in the fragment. |
| Mmu.AllocatePreservesPartition | MMU/mmu.c:42-76 | Allocation for a positive pid and a positive size preserves the partition invariant. |
| Mmu.ReleaseKeepsFreeShape | MMU/mmu.c:91-98 | A released block with owner 0 keeps the free list well formed and free. |
| Mmu.ReleaseKeepsAllocShape | MMU/mmu.c:88-89 | Unlinking a block keeps the allocated list well formed, owned and ascending. |
| Mmu.ReleaseKeepsCoverage | MMU/mmu.c:88-98 | Releasing a block moves each of its addresses from the allocated list to the free list. |
| Mmu.DeallocatePreservesPartition | MMU/mmu.c:81-99 | Deallocation preserves the partition invariant. |
| Mmu.CoalescePreservesPartition | MMU/mmu.c:102-111 | Coalescing the free list preserves the partition invariant. |
| Mmu.RunPreservesPartition | MMU/mmu.c:157-182 | Every sequence of valid events keeps the partition invariant. |
| Mmu.RunConservesTotal | MMU/mmu.c:157-182 | Every sequence of events keeps the total block size over both lists. |
| Mmu.SimulationInvariant | MMU/mmu.c:150-182 | From the seed, after any rows (each positive-id row with a positive size), every address of the partition is held exactly once. No two blocks of a list overlap, the total equals the partition size, and coalescing the free list is idempotent. |
| Mmu.AllocateMemory | MMU/mmu.c:42-76 | Reports success exactly when some free block fits. Leaves the two lists as specified by Allocate: unchanged on failure. |
| Mmu.DeallocateMemory | MMU/mmu.c:81-99 | Reports success exactly when some allocated block has owner pid. Leaves the two lists as specified by Deallocate: unchanged on failure. |
| Mmu.CoalesceMemory | MMU/mmu.c:102-111 | Empties its input and returns a fresh list holding the coalesced free list. |
| Mmu.InitialFreeList | MMU/mmu.c:150-155 | The free list starts as the one block `[0, PARTITION_SIZE - 1]` with owner 0. |
| Mmu.Simulate | MMU/mmu.c:137-182 | The driver loop leaves the two lists as the run of the decoded rows from the seed specifies. The free list is replaced by the coalesced one on each marker row. |
| Scenarios.BestFitBuilt | MMU/list.c:103-129 | Best fit orders free blocks of sizes 10, 30 and 20 as 10, 20, 30. |
| Scenarios.BestFitThirdInsert | MMU/list.c:103-129 | The size-20 block goes between the size-10 and size-30 blocks. |
| Scenarios.BestFitSteps | MMU/mmu.c:50-60 | A request of 15 finds index 1 (size 20). It unlinks that block and places the claim in the empty allocated list. |
| Scenarios.BestFitFragment | MMU/mmu.c:62-75 | The 5-address leftover goes to the front of the best-fit list. |
| Scenarios.BestFitScenario | MMU/mmu.c:42-76 | A best-fit request of 15 claims the size-20 block. |
| Scenarios.WorstFitBuilt | MMU/list.c:132-158 | Worst fit orders the same blocks as 30, 20, 10. |
| Scenarios.WorstFitThirdInsert | MMU/list.c:132-158 | The size-20 block goes between the size-30 and size-10 blocks. |
| Scenarios.WorstFitSteps | MMU/mmu.c:50-60 | A request of 5 finds index 0 (size 30). It unlinks that block and places the claim. |
| Scenarios.WorstFitFragment | MMU/mmu.c:62-75 | The 25-address leftover goes to the front of the worst-fit list. |
| Scenarios.WorstFitScenario | MMU/mmu.c:42-76 | A worst-fit request of 5 claims the size-30 block. |
| Scenarios.FirstFitBuilt | MMU/list.c:63-75 | First fit keeps arrival order. |
| Scenarios.FirstFitScenario | MMU/mmu.c:42-76 | A first-fit request of 15 claims the first sufficient block (size 30), not the smallest, and appends the fragment at the back. |
| Scenarios.FailureScenario | MMU/mmu.c:44-48 | An unsatisfiable allocation changes nothing. So does a deallocation of an absent pid (lines 83-86). |
| Scenarios.EndToEndFirstClaim | MMU/mmu.c:42-76 | From the seed of 100, pid 1 takes `[0, 39]` and `[40, 99]` stays free. |
| Scenarios.EndToEndExactClaim | MMU/mmu.c:62-63 | An exact fit leaves no fragment. |
| Scenarios.EndToEndRelease | MMU/mmu.c:81-99 | The freed block returns with owner 0. |
| Scenarios.EndToEndCompact | MMU/mmu.c:102-111 | Coalescing one block leaves it as it is. |
| Scenarios.EndToEndRows | MMU/mmu.c:160-176 | Rows `(1,40) (2,60) (-1,0) (-99999,0)` decode to allocate, allocate, deallocate pid 1, coalesce. |
| Scenarios.EndToEndScenario | MMU/mmu.c:157-182 | The run of those events ends with pid 2 on `[40, 99]` and `[0, 39]` free. |
| Scenarios.MergeScenario | MMU/mmu.c:102-111 | Free blocks `[40, 59]` and `[0, 39]` given out of order are sorted and merged into `[0, 59]`. |

## Left out

- Reading the input file (`get_input`, `parse_file`) and upper-casing the policy flag (`TOUPPER`) are I/O and argument handling. The partition size, the rows and the policy number are parameters of `Simulate`. `parse_file` is not part of this model.
- The usage message and `exit` on a bad policy flag are not modelled. A policy is any integer, and every value other than 1 and 2 takes the worst-fit branch, as the dispatch in `allocate_memory` and `deallocate_memory` does.
- Printing is not modelled: `print_list`, `list_print`, and the banner lines of the driver loop. The two error messages become the `ok` result of `AllocateMemory` and `DeallocateMemory`.
- `list_alloc`, `node_alloc`, `node_free`, `list_free` and the `malloc`/`free` calls are manual memory management. Blocks are values, and each list is a sequence held in one object's field. The old free list that the driver leaks on each coalesce is not modelled.
- Node aliasing is not modelled. In the source, the removed block record is mutated in place (its `pid` and `end`) and relinked. Here the claimed block is a new value equal to the mutated record.
- `comparePid` is an unused one-line helper and is not modelled.
- C `int` overflow is not modelled. Sizes and addresses are unbounded integers. This matters only for ranges beyond `int`.
- The 200-row bound of the input array is not modelled: `Simulate` takes rows of any length.
- `abs(INT_MIN)` is undefined behaviour in C and is not modelled: `DecodeRow` negates any negative id.
- Mmu.AllocatePreservesPartition: needs a positive pid and a positive size. The source enforces neither. A zero-size request would insert an empty-range block into the allocated list.
- Mmu.RunPreservesPartition: needs every allocate event to have a positive pid and size. Mmu.SimulationInvariant needs the same of the allocating rows, as these are the valid inputs of the simulator.
- Mmu.CoalesceIdempotent: is stated for free lists with pairwise distinct starts. Under the partition invariant this always holds (`Mmu.PartitionedNoOverlap`). On lists with duplicate starts, the address insert's tie order can differ between the two passes.
- BlockLists.InsertedByAddressAscending: requires the new start to be distinct from every existing start. Ties are placed after the head (see above), and strict order cannot then hold.
