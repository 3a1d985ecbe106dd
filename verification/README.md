# A verified model of OmniXEP's core algorithms

OmniXEP is a Bitcoin-style full node with Peercoin-style proof of stake. This project models the parts of it
whose correctness is hard to see from one function at a time, and proves what they promise:

- **Block assembly** (`Mempool`, `BlockAssembler`, `BlockAssemblerCases`): the miner's greedy choice of ancestor
  packages with its side table of corrected totals. Every run yields a body without duplicates, ancestors first,
  within the weight and sigops limits. Each candidate tried ranks before all that are left. After a run to the end,
  a transaction left out does not fit or may not be mined, provided that no ancestor of it has a virtual size above a
  quarter of its weight; a pool shows that the condition is needed.
- **Coins caches** (`Coins`): a stack of write-back caches over a database answers every lookup as one plain map of
  unspent outputs would, through all combinations of DIRTY and FRESH flags.
- **Address manager** (`AddrManState`, `AddrManTried`, `AddrMan`, `AddrManCheck`, `AddrManDisk`, `AddrManLoad`): five
  cross-linked indexes stay consistent through every sequence of operations, the self-check accepts exactly what it
  tests, saving and loading loses nothing, and loading any file gives consistent tables exactly under a condition on
  the file.
- **Parallel script checks** (`CheckQueue`): a step system of a master and workers under every interleaving. Each
  Wait answers for exactly the checks added to it, nothing deadlocks, and Wait returns.
- **Merkle trees** (`Merkle`, `PartialMerkleTree`): the in-place root with its mutation flag, and filtered blocks:
  a round trip for honest senders and authenticity against any sender.
- **Signature cache** (`CuckooCache`): no stored element becomes unfindable, and the epochs bound what is live.
- **Big integers and targets** (`Limbs`, `ArithUint256`, `CompactTarget`): 32-bit limb arithmetic refines integers
  modulo 2^BITS; the compact codec and the block proof are exact.
- **Block index** (`Chain`): skip pointers refine the walk along parents, for ancestors, forks, locators and tips, in
  a number of steps quadratic in the number of digits of the height.
- **Stake modifier** (`StakeModifier`): the modifier is a function of the chain, whatever the shuffle does.
- **Codecs** (`Bech32`, `Bech32Distance`, `Base58`): round trips both ways; the Bech32 checksum is a BCH code that
  detects any three wrong symbols within 1023.
- **Filters and relay** (`RollingBloom`, `GolombFilter`, `CompactBlocks`).

`SetSums`, `Arithmetic` and `Bits` hold shared facts about finite sets, integers and packed flags.

## How the model relates to the code

Classes and loops of the source are classes and methods here, proved against specification functions; pure code is
functions. Collections are Dafny values: a table slot that holds -1 in the source is a slot not in a map, and the
order in which a C++ set or map is walked is left open, so results hold for every order. Hash functions, random
numbers, clocks and verdicts of other components are parameters. Integers are unbounded unless a width matters, and
then the width is written out.

Where the code differs from its comments or from what one would expect, the model follows the code:

- `src/cuckoocache.h`: the comment before the displacement loop says that a new element first displaces the entry
  at its first location; the code starts at the second.
- `src/cuckoocache.h`: a table that was never written reports the default element as contained (`FreshContains`).
- `src/miner.cpp` and `src/miner.h`: creating a modified entry deducts the modified fee of an included ancestor,
  updating one deducts the plain fee. `FeesExact` and `FeesExactInAnyOrder` state exactly when the package fee is
  right all the same, and `WrongPackageFee` shows a pool where it is not.
- `src/miner.cpp`: a transaction that failed and then loses another ancestor to the block re-enters the side table
  with only the later ancestors deducted, so it can be turned down although it fits (`TurnedDownThoughItFits`). That
  takes an ancestor whose virtual size is above a quarter of its weight, through sigops or rounding
  (`RuledOutWithoutSlack`).
- `src/addrman.h`: loading does not notice an address that is listed twice (`RepeatedUntriedBreaks`).
- `src/blockfilter.cpp`: the sums of the differences of a filter from outside can wrap around 2^64, and the walk can
  then pass a query that is one of them (`WrappedSumMissed`). That takes 2^(64 - P) bits (`ShortFilterExact`): 17 bytes
  do for P = 63, but 2^45 bits are needed for the P = 19 of the program (`BasicFilterExact`).
- `src/base58.cpp`: the maximum length is tested only where a byte is counted, so an empty result passes any maximum.
- `src/addrman.cpp`: the self-check looks up addresses with `operator[]`, so an unknown address reads as id 0
  (`EntryZeroUnfiled`).
- `src/merkleblock.cpp`: `ExtractMatches` clears the list of matched ids but appends to the list of indexes.
- `src/chain.cpp`: `LastCommonAncestor` expects a common ancestor; without one both sides run out together and the
  result is null.

## Model

| member | source | states |
|---|---|---|
| Mempool.CalculateMemPoolAncestors | src/txmempool.cpp:155-215 | without limits, the walk terminates and returns exactly the transitive in-pool ancestors of an entry |
| Mempool.CalculateDescendants | src/txmempool.cpp:452-473 | the walk terminates and returns exactly the transitive descendants of an entry, itself included |
| Mempool.WeightWithinSize | src/txmempool.cpp:55-58 | an entry's weight is at most four times its virtual size, so size limits bound weight |
| Mempool.AncestorPackageSmaller | src/txmempool.cpp:155-215 | an ancestor's package lies within its descendant's ancestors and has strictly fewer entries |
| Mempool.ValidPoolIsGraded | src/txmempool.cpp:673-690 | in a consistent pool ancestry is a strict order, counts grow along it, and the cached size, sigops and modified fee of every package are the sums over the package |
| BlockAssembler.RanksBeforeTransitive | src/txmempool.h:359-397 | the mining score order (cross-multiplied fee rates, hash on ties) is transitive |
| BlockAssembler.RanksBeforeTotal | src/txmempool.h:359-397 | of two different transactions exactly one ranks before the other |
| BlockAssembler.BestModified | src/miner.cpp:352 | picks an entry of the modified table that no other one ranks before |
| BlockAssembler.BeforeAll | src/miner.cpp:352-373 | if the best modified entry does not rank before the next pool entry, that pool entry ranks before every modified entry |
| BlockAssembler.DeductionsCover | src/miner.cpp:256-281 | deducting only included ancestors leaves at least the size and sigops a package would still add, deducting all of them exactly that |
| BlockAssembler.FeesExact | src/miner.cpp:269-276 | creating a modified entry deducts the modified fee, updating one the plain fee, so the package fee is right exactly when the fee deltas of all included ancestors but the first deducted one cancel |
| BlockAssembler.FeesExactInAnyOrder | src/miner.cpp:269-276 | the package fee is right in whatever order the included ancestors were deducted exactly when there is one of them or none is prioritised |
| BlockAssembler.UnprioritisedFeesExact | src/miner.cpp:269-276 | without prioritised ancestors in the block the package fee is always that of the transactions still to be added |
| BlockAssembler.DeductFromDescendants | src/miner.cpp:264-278 | each descendant's size, sigops and fee lose exactly the added transaction's, with the entry created on first use; other entries stay |
| BlockAssembler.UpdatePackagesForAdded | src/miner.cpp:256-281 | every descendant outside the block gets an entry with exactly its newly included ancestors taken out |
| BlockAssembler.SortForBlock | src/miner.cpp:298-307 | sorting by ancestor count returns the package's own entries, each after all of its ancestors in the package |
| BlockAssembler.SortedPackageIsTopological | src/miner.h:88-98 | ascending ancestor counts order every package topologically |
| BlockAssembler.RuledOutExactly | src/miner.cpp:399-420 | a transaction that stays out does not fit with what is really left of its package, or may not be mined, if it did not fail before or its included ancestors have no slack, that is, no virtual size above a quarter of the weight |
| BlockAssembler.RuledOutWithoutSlack | src/miner.cpp:392-420 | the same for every transaction, failed or not, under a condition on the pool alone: no ancestor of it has slack |
| BlockAssembler.NoRoomExactly | src/miner.cpp:214-222 | over all blocks with the same transactions, no room with the slack counted means no room without it exactly when the included ancestors have none, or sigops alone rule it out |
| BlockAssembler.NoRoomGrows | src/miner.cpp:256-281 | adding any package leaves no room, with the slack counted, for a transaction that had none |
| BlockAssembler.BlockAssembler.constructor | src/miner.cpp:47-54 | for a consistent pool in score order, a fresh assembler has an empty valid body with the coinbase reserve and the clamped weight limit |
| BlockAssembler.BlockAssembler.AncestorsPrecede | src/miner.cpp:431-439 | in every valid body all pool ancestors of a transaction stand before it |
| BlockAssembler.BlockAssembler.PackageFits | src/miner.cpp:214-222 | a package that passes the test on its recorded totals keeps the real weight and sigops below the limits |
| BlockAssembler.BlockAssembler.AddToBlock | src/miner.cpp:239-254 | appends one transaction and keeps weight, sigops, fees and transaction count equal to the sums over the body |
| BlockAssembler.BlockAssembler.AddPackage | src/miner.cpp:431-439 | appends a whole package ancestors first, adds exactly its weight and sigops, and takes its members out of the modified table |
| BlockAssembler.BlockAssembler.ChooseCandidate | src/miner.cpp:348-385 | takes a candidate that ranks before all pool entries to come and all modified entries, with totals that are exact unless it failed before, and never too small |
| BlockAssembler.BlockAssembler.TryPackage | src/miner.cpp:392-444 | the package is added exactly when its recorded totals fit and all of it may be mined; otherwise nothing changes and there is no room for the transaction |
| BlockAssembler.BlockAssembler.TurnDownOrStop | src/miner.cpp:399-420 | a turned down candidate leaves the index or the modified table for the failed set, and the search is given up exactly after too many failures in a row near a full block |
| BlockAssembler.BlockAssembler.AddOrTurnDown | src/miner.cpp:392-444 | the candidate gets in exactly when its recorded totals fit and it may be mined; the block grows or the candidates get fewer, none is forgotten, and giving up means a nearly full block |
| BlockAssembler.BlockAssembler.SkipMapTxEntry | src/miner.cpp:292-296 | stops only at an entry in none of block, modified table and failed set, and forgets no candidate |
| BlockAssembler.BlockAssembler.BestLeft | src/miner.cpp:348-397 | every transaction outside the block other than the candidate is ruled out or ranks after it |
| BlockAssembler.BlockAssembler.EvaluateNext | src/miner.cpp:348-444 | each round makes progress; it stops only near a full block or when the best candidate left pays less than the least fee rate |
| BlockAssembler.BlockAssembler.AddPackageTxs | src/miner.cpp:319-446 | over the whole run: no duplicates, ancestors first, exact counters below the limits; unless selection stopped near a full block or because the best candidate left pays too little, there is no room, with the slack of its included ancestors counted, for any transaction left out, and none at all for one that did not fail before or has no ancestor with slack |
| BlockAssemblerCases.CaseValid | src/txmempool.cpp:673-690 | the pool of three transactions used below is consistent and in score order |
| BlockAssemblerCases.ChildIsTurnedDown | src/miner.cpp:348-411 | in that pool the child of both others is tried second, pays enough and does not fit, and its second parent is taken after it |
| BlockAssemblerCases.TurnedDownThoughItFits | src/miner.cpp:256-281 | the child re-enters the modified table with only the second parent deducted, so it pays enough and is turned down again although what is left of its package fits; the second parent has slack |
| BlockAssemblerCases.WrongPackageFee | src/miner.cpp:269-276 | with both prioritised parents deducted in that order the recorded package fee is wrong by the second one's fee delta |
| Coins.CoinsViewDB.BatchWrite | src/txdb.cpp:91-140 | the database view after a batch is the old one overlaid with the dirty entries |
| Coins.CoinsViewCache.OnCache | src/coins.cpp:33 | a new cache is empty and valid on top of a valid one |
| Coins.CoinsViewCache.FetchCoin | src/coins.cpp:42-57 | fetching changes nothing in the view and keeps flags and memory counter right |
| Coins.CoinsViewCache.GetCoin | src/coins.cpp:59-66 | returns the view's coin when unspent |
| Coins.CoinsViewCache.AddCoin | src/coins.cpp:68-87 | the view gains the coin, the entry has exactly the right flags, and the cache is valid again exactly when the caller's promise about overwriting was kept; the throwing path included |
| Coins.CoinsViewCache.SpendCoin | src/coins.cpp:100-114 | hands out the visible coin and removes it from the view; a fresh entry is erased, another stays as a spent one to write |
| Coins.CoinsViewCache.Uncache | src/coins.cpp:212-219 | erases exactly an unmodified entry and never changes the view |
| Coins.CoinsViewCache.WriteEntry | src/coins.cpp:148-199 | throws exactly for a fresh child over an unspent entry; a child entry that fits gives this layer the child's coin in all combinations of flags |
| Coins.CoinsViewCache.BatchWrite | src/coins.cpp:147-203 | merging a child's entries makes this view the child's view, and the misapplied-flag error is never raised |
| Coins.CoinsViewCache.Flush | src/coins.cpp:205-210 | flushing leaves both views equal to the child's old view and empties the child |
| Coins.UsageAfterUpdate | src/coins.cpp:70-86 | the cached memory counter stays the sum of the entries' dynamic memory |
| Coins.Run | src/coins.cpp:42-219 | over every run of operations on a stack of caches, lookups answer as one plain map of unspent outputs would |
| AddrManState.CreateKeeps | src/addrman.cpp:87-97 | a created entry is indexed consistently, in limbo until it is referenced |
| AddrManState.SwapKeeps | src/addrman.cpp:99-117 | swapping two places of the random order keeps every index |
| AddrManState.DeleteKeeps | src/addrman.cpp:119-131 | deleting an unreferenced entry keeps every index |
| AddrManState.ClearNewKeeps | src/addrman.cpp:133-146 | clearing a new slot drops one reference, and the entry with its last one |
| AddrManState.UnreferenceKeeps | src/addrman.cpp:138-145 | erasing a new slot lowers exactly the count of the entry in it |
| AddrManState.ReferenceKeeps | src/addrman.cpp:325-329 | filling a free new slot raises exactly the count of its entry |
| AddrManTried.StripKeeps | src/addrman.cpp:151-158 | taking an entry out of all its new slots leaves every other slot and count alone |
| AddrManTried.EvictKeeps | src/addrman.cpp:173-176 | an evicted tried entry leaves its slot consistently |
| AddrManTried.DisplaceKeeps | src/addrman.cpp:167-188 | the evicted entry returns to its new slot with one reference |
| AddrManTried.MakeTriedKeeps | src/addrman.cpp:148-194 | moving an entry to the tried table keeps all invariants in both branches |
| AddrMan.GoodKeeps | src/addrman.cpp:196-260 | marking an address good keeps consistency, whether it is moved or queued as a collision |
| AddrMan.GoodWithoutTestIsTried | src/addrman.cpp:196-260 | without the test for collisions a known address ends in the tried table |
| AddrMan.AddKeeps | src/addrman.cpp:262-333 | adding an address keeps consistency on every path |
| AddrMan.AddrMan.StripReferences | src/addrman.cpp:151-158 | the loop over all buckets finds every slot of an entry, so its count ends at zero and no other slot changes |
| AddrMan.AddrMan.Good | src/addrman.cpp:196-260 | the method computes the specified state, and consistency and the filled tried slots are kept |
| AddrMan.AddrMan.Add | src/addrman.cpp:262-333 | the method computes the specified state and reports exactly the addresses that were unknown and routable |
| AddrMan.AddrMan.Attempt | src/addrman.cpp:335-355 | exactly the last-try time, and the counted failure if due, of the attempted service change |
| AddrMan.AddrMan.GetAddr | src/addrman.cpp:482-501 | reports good entries, each once, within the limit, and misses none below the limit; the tables are at most reordered |
| AddrMan.AddrMan.ResolveOne | src/addrman.cpp:549-590 | a pending collision is dropped, kept or replaces the occupant exactly by the age of the last success, last try and test window |
| AddrMan.AddrMan.ResolveCollisions | src/addrman.cpp:541-598 | the pending ids are settled one after another, each against the tables the earlier ones left, and consistency is kept |
| AddrMan.AddrMan.SelectTriedCollision | src/addrman.cpp:600-625 | returns the real tried entry in the slot of some pending collision, or erases one that is gone |
| AddrManCheck.CheckEntries | src/addrman.cpp:413-437 | passes exactly when every entry's counts, times, place and address are right, and collects the tried ids and reference counts |
| AddrManCheck.CheckTriedTable | src/addrman.cpp:444-456 | taking off each slot's entry leaves no error and no entry exactly when the tried table holds every tried entry in its own slot and nothing else |
| AddrManCheck.CheckNewTable | src/addrman.cpp:458-469 | counting down leaves no error and no entry exactly when slots suit their entries and counts are the numbers of slots |
| AddrManCheck.Check | src/addrman.cpp:405-479 | the self-check returns 0 exactly on tables that pass all of its tests with a key set |
| AddrManCheck.CheckedAndUnchecked | src/addrman.cpp:405-479 | full consistency is what the self-check tests plus ids below the counter and an address index with nothing missing or stale |
| AddrManCheck.EntryZeroUnfiled | src/addrman.cpp:429-430 | a missing address reads as id 0, so the self-check cannot see entry 0 missing from the index, in any consistent manager |
| AddrManCheck.Run | src/addrman.cpp:87-625 | over every sequence of operations with positive times the self-check returns 0, filled tried slots stay filled and ids keep their addresses |
| AddrManDisk.Serialize | src/addrman.h:323-376 | the two asserted counts never fail, and the file lists each untried and tried entry once and the entries of every bucket in order |
| AddrManDisk.WriteRow | src/addrman.h:356-369 | a bucket's row is the indexes of the entries in its filled slots |
| AddrManDisk.LoadNews | src/addrman.h:408-415 | the untried entries get their indexes as ids |
| AddrManDisk.LoadTrieds | src/addrman.h:418-436 | each tried record takes its slot if that is free and is counted as lost otherwise |
| AddrManDisk.TriedsLoadedOk | src/addrman.h:418-436 | the first tried record for each slot has it, and the tables stay consistent with all untried entries waiting |
| AddrManDisk.ReadBuckets | src/addrman.h:439-451 | remembers the last bucket that lists an entry, bucket 0 for one that is not listed |
| AddrManDisk.PlaceNews | src/addrman.h:462-482 | each waiting entry takes the remembered slot if the buckets may be reused, else the slot of its source if that is free |
| AddrManLoad.Prune | src/addrman.h:484-494 | deletes exactly the entries in no bucket, keeps everything else and all slots, and drops their addresses from the index |
| AddrManLoad.Unserialize | src/addrman.h:379-500 | for every file: fails exactly for oversized counts; otherwise rebuilds the tables from the records kept, and they are consistent exactly when no loaded record shares the address of a kept one and the kept records have sensible times |
| AddrManLoad.ConsistentExactly | src/addrman.h:379-500 | the condition for consistent tables, stated on the file and the slot layout alone |
| AddrManLoad.LoadableIsConsistent | src/addrman.h:379-500 | a file without repeated addresses and with sensible times meets it |
| AddrManLoad.RepeatedUntriedBreaks | src/addrman.h:408-415 | the tables loaded from a file with one untried record twice are inconsistent: an entry is kept that the address index does not know |
| AddrManLoad.RepeatedTriedIsHarmless | src/addrman.h:418-436 | a tried record that is listed twice still gives consistent tables |
| AddrManDisk.LostToCollision | src/addrman.h:462-494 | under any asmap an untried entry is lost only where another holds the slot of its source |
| AddrManDisk.WrittenLoadable | src/addrman.h:323-376 | a file written for a consistent manager lists no address twice |
| AddrManDisk.HomeWasHeld | src/addrman.h:439-469 | the bucket remembered for an untried entry names one of the slots it had |
| AddrManDisk.CountsFit | src/addrman.h:399-405 | what fits the tables passes the limits on load |
| AddrManDisk.RoundTrip | src/addrman.h:323-500 | under the same key and asmap no address is lost: same records, same tried slots, each untried entry in exactly one of its former slots with count 1, same totals, consistent |
| AddrManLoad.SaveAndLoad | src/addrman.h:323-500 | saving any consistent manager and loading it again succeeds and keeps all of that |
| CheckQueue.TakeKeeps | src/checkqueue.h:88-115 | taking a batch under the lock keeps all counters equal to the checks they stand for |
| CheckQueue.CleanUpKeeps | src/checkqueue.h:76-86 | committing results keeps the counters exact and wakes the master only at zero |
| CheckQueue.AddKeeps | src/checkqueue.h:145-157 | adding checks keeps the counters exact |
| CheckQueue.StepKeeps | src/checkqueue.h:68-157 | every step of every thread keeps the invariant |
| CheckQueue.ScheduleKeeps | src/checkqueue.h:68-157 | every schedule of worker and master steps keeps the invariant |
| CheckQueue.EveryWaitIsExact | src/checkqueue.h:76-120 | every reported result is the conjunction of exactly the checks added since the previous report, and nTodo is what is queued or in flight |
| CheckQueue.EveryCheckOnce | src/checkqueue.h:88-157 | the checks submitted are always exactly those reported, finished, in flight or queued, with multiplicity |
| CheckQueue.NoDeadlock | src/checkqueue.h:88-120 | while the master is in Wait some thread can step, and while it sleeps a worker that holds checks can |
| CheckQueue.InternalStepsRunOut | src/checkqueue.h:68-120 | each internal step lowers the measure of remaining work |
| CheckQueue.WaitReturns | src/checkqueue.h:68-142 | internal schedules are bounded, and one that can go no further has the master outside Wait |
| Merkle.ComputeMerkleRoot | src/consensus/merkle.cpp:45-62 | the in-place, level by level computation returns the root of the tree and flags exactly the lists with equal siblings on some level |
| Merkle.RootDeterminesLeaves | src/consensus/merkle.cpp:30-41 | two unflagged transaction lists with the same root are equal, for a collision-free pair hash whose results are not transaction ids |
| Merkle.DistinctUnmutated | src/consensus/merkle.cpp:45-62 | a list of distinct ids is never flagged |
| Merkle.RepeatedTail | src/consensus/merkle.cpp:13-28 | repeating the last of an odd number of ids keeps the root and is flagged |
| PartialMerkleTree.CalcTreeWidth | src/merkleblock.h:65-68 | the shift formula is the number of nodes of a level |
| PartialMerkleTree.TopIsRoot | src/merkleblock.cpp:39-57 | the recursive hash of the top node is the block's Merkle root |
| PartialMerkleTree.UnmutatedExactly | src/merkleblock.cpp:101-107 | the mutation flag of the root is clear exactly when no two siblings have equal hashes |
| PartialMerkleTree.BuildSizes | src/merkleblock.cpp:59-75 | an encoded node has at most one hash per leaf below it and at least one bit per hash |
| PartialMerkleTree.ExtractInvertsBuild | src/merkleblock.cpp:77-113 | extraction of an encoded node yields its hash and exactly its matches and consumes exactly its bits and hashes |
| PartialMerkleTree.RoundTrip | src/merkleblock.cpp:115-162 | building and extracting returns the Merkle root and exactly the matched transactions with their indices in order, for every unflagged block, padded to bytes or not |
| PartialMerkleTree.Authentic | src/merkleblock.cpp:131-162 | whatever a peer sends, a tree that extracts to the root of a block of that many transactions reports only transactions of that block, at their indices |
| PartialMerkleTree.WireRoundTrip | src/merkleblock.h:87-105 | the round trip also holds through packing the flag bits into bytes |
| PartialMerkleTree.Pack | src/merkleblock.h:99-104 | each bit lands in its place, lowest first, and the rest of the bytes is zero |
| PartialMerkleTree.Unpack | src/merkleblock.h:92-98 | each bit is read from its place |
| PartialMerkleTree.PartialMerkleTree.constructor | src/merkleblock.cpp:115-127 | the traversal leaves exactly the specified bits and hashes |
| PartialMerkleTree.PartialMerkleTree.TraverseAndBuild | src/merkleblock.cpp:59-75 | appends exactly the encoding of a node |
| PartialMerkleTree.PartialMerkleTree.TraverseAndExtract | src/merkleblock.cpp:77-113 | moves both cursors, sets the error flag and appends matches as specified, on all inputs |
| PartialMerkleTree.PartialMerkleTree.ExtractMatches | src/merkleblock.cpp:131-162 | computes the specified outcome, including the cleared id list and the appended index list |
| Bits.SetBitAt | src/cuckoocache.h:90-93 | sets one packed flag and no other |
| Bits.ClearBitAt | src/cuckoocache.h:101-104 | clears one packed flag and no other |
| CuckooCache.WriteKeeps | src/cuckoocache.h:408-441 | writing an absent element to one of its locations keeps every element findable and stored once |
| CuckooCache.FoundKeeps | src/cuckoocache.h:400-405 | keeping the first location that holds an element keeps it stored once, also for the default element |
| CuckooCache.CarryOn | src/cuckoocache.h:430-438 | a displacement swaps elements with their epochs, and only the one in hand is out of the table |
| CuckooCache.Cache.constructor | src/cuckoocache.h:339-352 | setup leaves a valid empty cache with the default element in every slot |
| CuckooCache.Cache.EpochCheck | src/cuckoocache.h:288-320 | ages the epochs exactly when the counter has run out and the current one is full, and leaves room for one insertion within the bound |
| CuckooCache.Cache.NextLocation | src/cuckoocache.h:430 | the next location after the last one swapped; the second one at the start |
| CuckooCache.Cache.Insert | src/cuckoocache.h:392-441 | stored and live elements gain the new one and lose at most one; no live one while a location is free |
| CuckooCache.Cache.Contains | src/cuckoocache.h:469-482 | finds exactly stored elements, keeps them findable, and erasing takes just that one from the live ones |
| CuckooCache.FreshContains | src/cuckoocache.h:339-482 | a table that was never written reports the default element, and nothing else, as contained |
| CuckooCache.ValidBounds | src/cuckoocache.h:288-320 | at most twice epoch_size + max(1, epoch_size/16) entries are live |
| CuckooCache.Run | src/cuckoocache.h:339-482 | over every run the cache stays valid and a lookup only succeeds for elements inserted before |
| ArithUint256.BaseUint.Add | src/arith_uint256.h:161-171 | the sum modulo 2^BITS, also when both operands are the same object |
| ArithUint256.BaseUint.Complement | src/arith_uint256.h:95-101 | 2^BITS - 1 minus the number |
| ArithUint256.BaseUint.Increment | src/arith_uint256.h:199-206 | the successor modulo 2^BITS |
| ArithUint256.BaseUint.Negate | src/arith_uint256.h:103-110 | the two's complement |
| ArithUint256.BaseUint.Subtract | src/arith_uint256.h:173-177 | the difference modulo 2^BITS |
| ArithUint256.BaseUint.GetLow64 | src/arith_uint256.h:271-275 | the number modulo 2^64 |
| ArithUint256.BaseUint.ShiftLeft | src/arith_uint256.cpp:21-35 | multiplication by a power of two modulo 2^BITS |
| ArithUint256.BaseUint.ShiftRight | src/arith_uint256.cpp:38-52 | floor division by a power of two |
| ArithUint256.BaseUint.MultiplySmall | src/arith_uint256.cpp:55-64 | the product with a limb modulo 2^BITS |
| ArithUint256.BaseUint.Multiply | src/arith_uint256.cpp:67-80 | the product modulo 2^BITS |
| ArithUint256.BaseUint.Divide | src/arith_uint256.cpp:83-106 | the floor quotient; a zero divisor fails and leaves zero |
| ArithUint256.BaseUint.CompareTo | src/arith_uint256.cpp:109-118 | the sign of the difference |
| ArithUint256.BaseUint.EqualTo | src/arith_uint256.cpp:121-132 | equality with a 64-bit number |
| ArithUint256.BaseUint.BitLength | src/arith_uint256.cpp:171-183 | the position of the highest bit plus one, or zero |
| CompactTarget.SetCompactBase256 | src/arith_uint256.cpp:215-233 | the decoded number modulo 2^256, the sign, and overflow exactly when it does not fit |
| CompactTarget.OverflowExact | src/arith_uint256.cpp:228-231 | the three size tests say exactly whether mantissa * 256^(size - 3) needs more bytes |
| CompactTarget.GetCompactBase256 | src/arith_uint256.cpp:235-256 | computes the truncated encoding |
| CompactTarget.GetCompactRounded | src/arith_uint256.cpp:258-287 | computes the rounded encoding |
| CompactTarget.TruncatedFaithful | src/arith_uint256.cpp:235-256 | the truncated encoding decodes to at most the number and less than one unit below it |
| CompactTarget.RoundedFaithful | src/arith_uint256.cpp:258-287 | the rounded encoding decodes to within one unit of the number, double rounding and saturation included |
| CompactTarget.EncodersFit | src/arith_uint256.cpp:235-287 | neither encoding overflows |
| CompactTarget.EncodingStable | src/arith_uint256.cpp:215-287 | given the number and the sign a compact value decodes to, either encoder returns it exactly when it is normal or zero |
| CompactTarget.TargetBelowMax | src/chain.cpp:122-135 | a decoded target that fits is never 2^256 - 1, so adding one does not wrap |
| CompactTarget.GetBlockProof | src/chain.cpp:122-135 | the block proof is floor(2^256 / (target + 1)), and zero for negative, overflowing or zero targets |
| Chain.InvertsLowestOne | src/chain.cpp:71 | clears the lowest set bit |
| Chain.GetSkipHeight | src/chain.cpp:74-82 | is below the height |
| Chain.GetAncestor | src/chain.cpp:84-109 | the search along skip pointers equals the walk along pprev for every height, in at most n*n + 2n steps for a height of n binary digits |
| Chain.StepLowers | src/chain.cpp:92-107 | each step of the search, along either pointer, lowers twice the number of ones plus the square of the number of digits still to agree |
| Chain.NewEntry | src/validation.cpp:3610-3616 | a linked-in block has the skip pointer, height and greatest time that its ancestors determine |
| Chain.BlockManager.AddToBlockIndex | src/validation.cpp:3592-3616 | a known hash returns its entry and changes nothing; a new one is linked in under its parent if that is known, and the index stays closed under parents |
| Chain.AncestorsIndexed | src/validation.cpp:3592-3616 | the index holds every ancestor of an entry |
| Chain.CChain.SetTip | src/chain.cpp:11-21 | from any consistent chain, despite the early stop, exactly the new tip's path |
| Chain.CChain.Contains | src/chain.h:516-518 | membership is being the tip or its ancestor |
| Chain.CChain.FindFork | src/chain.cpp:51-60 | the deepest ancestor of a block that is in the chain |
| Chain.CChain.GetLocator | src/chain.cpp:23-49 | hashes of the block's ancestors at heights going down by one ten times and then by doubled steps to zero |
| Chain.LocatorIsShort | src/chain.cpp:23-49 | a locator has logarithmic length |
| Chain.FindEarliestAtLeast | src/chain.cpp:62-68 | the lowest block of the chain with both bounds met, or none if none has them |
| Chain.LastCommonAncestor | src/chain.cpp:156-171 | the deepest common ancestor, or null when there is none |
| StakeModifier.SectionsGrow | src/kernel.cpp:51-55 | the selection sections grow from a third of the modifier interval to all of it |
| StakeModifier.WordsLess | src/kernel.cpp:198-208 | comparing hash words from the top is comparing the numbers |
| StakeModifier.OrderUnique | src/kernel.cpp:194-210 | there is only one sorted order of a collection of candidates |
| StakeModifier.Shuffle | src/kernel.cpp:189-192 | a permutation |
| StakeModifier.SelectBlockFromCandidates | src/kernel.cpp:69-115 | over known candidates in order: succeeds exactly when one is left, with the least selection hash among those in time, else the earliest left |
| StakeModifier.ChoiceUnique | src/kernel.cpp:69-115 | the choice of a round is unique |
| StakeModifier.SelectRounds | src/kernel.cpp:212-229 | every round succeeds with a candidate not selected before |
| StakeModifier.SelectionUnique | src/kernel.cpp:188-229 | the rounds choose the same candidates whatever the shuffle did |
| StakeModifier.BitOf | src/kernel.cpp:224 | bit r of the modifier is the entropy bit of round r's block |
| StakeModifier.GetLastStakeModifier | src/kernel.cpp:37-48 | the nearest ancestor that generated a modifier, if any |
| StakeModifier.ComputeNextStakeModifier | src/kernel.cpp:129-259 | which modifier is kept or generated on each path, and from which blocks |
| StakeModifier.ModifierUnique | src/kernel.cpp:129-259 | two computations with different random numbers agree on success, modifier and whether it is new |
| RollingBloom.Wipe | src/bloom.cpp:253-262 | clears exactly the positions stamped with the generation |
| RollingBloom.StampAt | src/bloom.cpp:271-273 | stamps exactly one position |
| RollingBloom.WipeKeeps | src/bloom.cpp:248-262 | starting a generation removes just the stamps of the third last one |
| RollingBloom.RollingBloomFilter.Insert | src/bloom.cpp:246-275 | keeps the meaning of all stamps and adds the key to the history |
| RollingBloom.RollingBloomFilter.Contains | src/bloom.cpp:283-295 | true exactly when all positions are stamped, and always for recent keys |
| RollingBloom.RollingBloomFilter.Reset | src/bloom.cpp:303-309 | an empty filter |
| RollingBloom.Run | src/bloom.cpp:206-295 | for every history of insertions, a filter for nElements finds each of the last nElements keys |
| Bech32.StepLinear | src/bech32.cpp:60-87 | one checksum step is linear over exclusive or |
| Bech32.StepKeepsNonzero | src/bech32.cpp:60-87 | one checksum step loses nothing but zero |
| Bech32.PolyMod | src/bech32.cpp:33-90 | computes the register after all symbols |
| Bech32.BurstDetected | src/bech32.cpp:33-90 | any change within six consecutive symbols changes the checksum, at any length |
| Bech32.ChecksumVerifies | src/bech32.cpp:114-135 | every created checksum verifies |
| Bech32.ChecksumUnique | src/bech32.cpp:114-135 | no other checksum does |
| Bech32.CorruptionDetected | src/bech32.cpp:114-121 | a string that verified no longer does after any change within six consecutive symbols |
| Bech32Distance.OrderIsFull | src/bech32.cpp:33-45 | no power below 1023 of the chosen element of the field of 1024 elements fixes anything but zero |
| Bech32Distance.Roots | src/bech32.cpp:40-42 | the generator vanishes at three successive powers of that element |
| Bech32Distance.RunValue | src/bech32.cpp:55-87 | at these powers the register has the value of the polynomial of all symbols so far: it is its remainder by the generator |
| Bech32Distance.ThreeErrorsDetected | src/bech32.cpp:43-44 | up to three wrong symbols anywhere within 1023 change the checksum, at any length |
| Bech32Distance.ThreeErrorsRejected | src/bech32.cpp:43-121 | data that verified no longer does after up to three changes anywhere within 1023 symbols |
| Bech32.Encode | src/bech32.cpp:143-156 | the specified string |
| Bech32.Decode | src/bech32.cpp:159-190 | the specified result, for every string |
| Bech32.RoundTrip | src/bech32.cpp:143-190 | decoding an encoded string returns its parts exactly when the prefix is acceptable and the length at most 90, and fails otherwise |
| Bech32.DecodeIsCanonical | src/bech32.cpp:159-190 | a string that decodes is, in lower case, the encoding of the result |
| Base58.MultiplyAdd | src/base58.cpp:58-64 | multiplies the number in the buffer and adds a digit; nothing is carried out and no leading zero appears |
| Base58.EncodeRoom | src/base58.cpp:97 | the buffer of 138/100 digits per byte suffices for every length |
| Base58.DecodeRoom | src/base58.cpp:52 | the buffer of 733/1000 bytes per digit suffices for every length |
| Base58.EncodeBase58 | src/base58.cpp:87-125 | computes the specified text |
| Base58.DecodeBase58 | src/base58.cpp:38-85 | computes the specified result for every string and every maximum length, with spaces, leading ones and all failures |
| Base58.RoundTrip | src/base58.cpp:38-125 | decoding inverts encoding for every byte string, exactly when it is empty or the maximum length allows the result |
| Base58.DecodeIsCanonical | src/base58.cpp:38-125 | a string that decodes is the encoding of the result, but for spaces before and after it |
| GolombFilter.MapIntoRange | src/blockfilter.cpp:62-86 | the sum of 32-bit partial products is floor(x * n / 2^64) without overflow |
| GolombFilter.GolombRiceEncode | src/blockfilter.cpp:27-41 | appends the code of a number |
| GolombFilter.DecodeInvertsEncode | src/blockfilter.cpp:44-54 | decoding a code anywhere in a stream returns the number and the position after it |
| GolombFilter.GolombRiceDecode | src/blockfilter.cpp:44-54 | computes the specified reading, or reports the end of the stream |
| GolombFilter.BuildHashedSet | src/blockfilter.cpp:96-105 | the range hashes of the elements in ascending order |
| GolombFilter.BuildFilter | src/blockfilter.cpp:134-162 | the stream holds the codes of the differences and less than a byte of padding |
| GolombFilter.LoadFilter | src/blockfilter.cpp:111-132 | accepts exactly streams of n codes with less than a byte left over |
| GolombFilter.BuiltFilterLoads | src/blockfilter.cpp:111-162 | a built filter loads |
| GolombFilter.MatchInternal | src/blockfilter.cpp:164-194 | on every filter that loads: true exactly when one of the running 64-bit sums of the decoded differences is a query and no sum before it is larger |
| GolombFilter.HitExactly | src/blockfilter.cpp:164-194 | while the differences add up to less than 2^64, a match is a query that is one of the sums |
| GolombFilter.ShortFilterExact | src/blockfilter.cpp:111-194 | so it is on every filter that loads and has fewer than 2^(64 - P) bits |
| GolombFilter.BasicFilterExact | src/blockfilter.h:85 | for the P = 19 that the program uses: fewer than 2^45 bits |
| GolombFilter.ExactMatching | src/blockfilter.cpp:164-194 | matching is exact for all queries exactly when every sum equals one at or before it that no earlier sum exceeds |
| GolombFilter.FilterOfHolds | src/blockfilter.cpp:111-132 | every list of 64-bit differences is that of some filter that loads |
| GolombFilter.WrappedSumMissed | src/blockfilter.cpp:164-194 | for every P some filter loads and misses a query that is one of its sums; with P = 63 it has 17 bytes |
| GolombFilter.SumsOfFilter | src/blockfilter.cpp:134-194 | the sums of a built filter are the hashes it was built from |
| GolombFilter.MatchAny | src/blockfilter.cpp:202-206 | true exactly when some query shares its range hash with an element; elements always match |
| CompactBlocks.PlacePrefilled | src/blockencodings.cpp:61-80 | accepts exactly well placed prefilled transactions and puts each at its index |
| CompactBlocks.MapShortIds | src/blockencodings.cpp:88-107 | each short id gets the next free slot with all indexing in range; fails exactly for a crowded bucket |
| CompactBlocks.SlotsPartition | src/blockencodings.cpp:88-92 | prefilled and short-id slots partition the block |
| CompactBlocks.NoCollision | src/blockencodings.cpp:108-111 | the size of the map tells exactly whether two short ids are equal |
| CompactBlocks.Scan | src/blockencodings.cpp:113-166 | a slot is filled only by a match, and is filled when all matches are one transaction; both loops stop early only when all slots are filled |
| CompactBlocks.PartiallyDownloadedBlock.InitData | src/blockencodings.cpp:49-170 | exactly which messages are invalid, that others fail only for equal ids or a crowded bucket, and what an accepted one leaves in every slot |
| CompactBlocks.PartiallyDownloadedBlock.FillBlock | src/blockencodings.cpp:178-201 | completes the block with the missing transactions in order; any other number of them is invalid |
| CompactBlocks.Announce | src/blockencodings.cpp:19-29 | the first transaction in full and the short ids of the others |
| CompactBlocks.AnnouncementDescribes | src/blockencodings.cpp:19-29 | the sender's message describes the block in the slots the receiver finds |
| CompactBlocks.Reconstruction | src/blockencodings.cpp:49-201 | without a known transaction that collides with the block's own, filling in what is missing rebuilds the block |

## Left out

- BlockAssembler.RanksBeforeTransitive: fee rates are compared exactly by cross multiplication; the rounding of the two `double` products in the source is not modelled.
- Wrap-around of 64-bit package totals in the miner, the count of updated descendants, the coinbase and coinstake transactions and the final validity check of a template.
- Mempool.CalculateMemPoolAncestors: the limits on ancestors and descendants and the search from the inputs of a transaction outside the pool are not modelled, because the miner calls it without limits for an entry of the pool.
- Mempool admission, removal and the maintenance of the cached totals: a pool that passes its own consistency check is the starting point.
- The best-block hash carried by coins caches, the database's batching by size and crash recovery, and the cursor over coins.
- AddrMan.AddrMan.Add: the stochastic insertion test is the parameter `lucky`, and time is one value per call.
- AddrMan.AddrMan.FindNewBucket: only that a bucket is found is stated, because the code uses the bucket for nothing else.
- Address selection for outgoing connections, `Connected_`, `SetServices_` and reading an asmap file: they change no table.
- AddrManLoad.Unserialize: negative record counts, which the code accepts, are not modelled, because a count is the length of a list of records; nor are the byte format of records, the key and end of file; which of two equal addresses the index names is left open.
- AddrManCheck.Check: which error number is returned depends on the order in which slots are visited; only zero or not is stated.
- Memory order and atomicity of the cuckoo cache's flags, its sizing in bytes and the logarithm behind its depth limit, which is a parameter.
- The bound of 2N-1 flag bits that a comment gives for partial Merkle trees, and 32-bit overflow of `pos << height` for trees beyond the accepted block size.
- Decrement, bitwise and, or, exclusive or, hexadecimal and floating-point conversion of 256-bit integers.
- `GetBlockProofEquivalentTime` and the rest of validation: connecting blocks, reorganisation, difficulty retargeting.
- Chain.GetAncestor: the bound proved for heights below 2^18 is 360 steps; the 110 steps that a comment reports from simulations are not.
- Chain.BlockManager.AddToBlockIndex: a block that names its own hash as its parent is excluded, and chain work, validity, proof-of-stake counts, the best header and the dirty set are not modelled.
- Stake kernel hashing, time weight and the later modifier versions: they hash a fixed tuple and compare once.
- The hash functions, the number of hash functions and size that the bloom filter derives from logarithms, its false positive rate, and the plain `CBloomFilter`.
- Packing of Golomb codes into bytes and the length prefix of a filter, and the false positive rate of filters.
- CompactBlocks.PartiallyDownloadedBlock.InitData: the test for a crowded bucket of the hash map is a parameter, the statistic of transactions from the extra pool is not kept, and the extra list has no entries without a transaction, which `src/net_processing.cpp:843-844` creates when it resizes the list.
- Bech32Distance.ThreeErrorsDetected: three errors within 1023 symbols are proved to be detected; the further guarantee of four errors within 89 is not, because it rests on a search over error patterns.
- Base58Check, key and address formats, scripts, wallet, networking, RPC, logging and cryptographic primitives.
