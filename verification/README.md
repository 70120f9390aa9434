# A verified model of the BitcoinZero node's core

BitcoinZero is a full node for a Bitcoin-derived chain with Lelantus and Spark private spends.  This
project models the parts of the node whose correctness is hard to see from the code, in the form the
code has (classes whose methods update fields, loops over arrays, pure functions), and proves for all
inputs, all runs and all interleavings what those parts are for:

- **Coins, CheckQueue.**  A stack of coin caches with DIRTY and FRESH flags shows exactly what plain
  maps of unspent coins would show, over every run, and the "FRESH flag misapplied" error cannot
  happen.  The parallel check queue is a state machine of its critical sections: in every interleaving
  `Wait` answers whether every check passed, and no wake-up is lost.
- **AddrTables, AddrEffects, AddrManager, AddrStore, AddrFile, AddrLoad.**  Every address manager reached
  from construction satisfies every condition its own consistency check tests and trips none of its
  asserts; what every operation stores, moves and loses is said exactly; the check itself is exact; saving and loading loses nothing and gives the same tables under other ids,
  and files of other versions and table sizes load into consistent managers too.
- **Merkle.**  Whatever a peer supplies, it is accepted if and only if it encodes a tree without equal
  siblings, and matches extracted with the right root are genuine; building, packing, unpacking and extracting is the identity on the matches; of the
  documented bounds those on the hashes always hold, and those on the flag bits and on the encoded size
  under exact conditions.
- **Mempool, Miner.**  Block templates contain each transaction once and after its parents, nothing that
  depends on a private spend, only spends within the limits, and pass the checks made of blocks.  The
  blacklist is exactly what its rules name, and nothing else is left out but for fees, sizes, finality or
  limits.
- **Surge, LelantusSpec, LelantusRun, LelantusState, LelantusUndo.**  The surge flag means that no
  assignment of distinct coins to spends exists; after any run the coins, tags, serials, counts and groups
  are those that the blocks determine; a state rebuilt from the block index equals the connected one, and a
  disconnected block is undone, under exact conditions.
- **Limbs, Shifts, CompactForm, Arith, Base58.**  Limb arithmetic is integer arithmetic modulo the width,
  the compact form of targets keeps what it promises, block proof is the exact quotient, and Base58
  conversions are inverse to each other with buffers that always suffice.
- **Chain, CuckooCache, RollingBloom, DbOverlay, CompactBlocks.**  Skip-pointer ancestry, the active
  chain's in-place update, locators that lead at most twice as far back as a fork, the signature cache's
  displacement and ageing, the rolling filter, which remembers the last generations and nothing else, the
  overlay transaction's merged iteration, and compact-block reconstruction, which finds exactly what is
  known.
- **Basics** holds facts about sets and numbers that several components use.

In each component a value-level specification (functions and datatypes) is proved to have the
properties, and the imperative code is proved to do what the specification says.  Hash functions are
arbitrary functions, assumed collision-free only where a statement says so.  Clocks, random numbers and
orders of iteration are parameters or arbitrary choices, so the statements hold for all of them.
`dafny verify dfyconfig.toml` checks the whole project.

Where the code does not do what its documentation or an obvious reading promises, the model follows the
code and the exact condition is proved:

- The comment on the partial Merkle tree's format guarantees an encoded size of 10 + ceil(32.25 N) bytes
  and at most 2N-1 flag bits (src/merkleblock.h:31-47); `Merkle.SizeBound` and `Merkle.BitBound` say
  exactly when, and `Merkle.SizeBoundFails` and `Merkle.BitBoundFails` give blocks where they fail.
- Connecting a block counts its spends before its mints, rebuilding after them, and an oversized first
  block leaves an empty group (src/lelantus.cpp:868-894, 1203-1230): `LelantusSpec.RebuildIff` gives the
  exact condition.  The check of join-splits refuses spends from groups that do not exist before the
  block (src/lelantus.cpp:456-459), so that for accepted chains only the first block matters:
  `LelantusSpec.AcceptedRebuilds`.
- Disconnecting recognises the block that started a group by a test that can miss it
  (src/lelantus.cpp:1311): `LelantusUndo.RunUndone` and `LelantusUndo.UndoFails`.
- Multiplying a number by itself in place gives 0 (src/arith_uint256.cpp:67-81): `Arith.BaseUint.Multiply`.
- The comment on the cuckoo cache says the first displaced element is that of the first location
  (src/cuckoocache.h:395-396); the code takes the second: `CuckooCache.NextLoc`.  It also says that the
  element just put in is not moved (src/cuckoocache.h:401); that holds unless two neighbouring hashes
  coincide: `CuckooCache.NextDiffers` and `CuckooCache.NextRepeats`.
- Short-id positions are 16-bit numbers (src/blockencodings.cpp:82-87): positions are right exactly up to
  65536 transactions (`CompactBlocks.PositionsExact`, `CompactBlocks.RelayFails`), and taking a message
  apart ends exactly with fewer than 65536 prefilled transactions or without short ids
  (`CompactBlocks.PartiallyDownloadedBlock.InitData`, `CompactBlocks.ScanNeverEnds`).
- Request offsets are 16-bit numbers too (src/blockencodings.h:55-61): `CompactBlocks.ReadIncreasing` and
  `CompactBlocks.ReadWraps`.
- AddToBlock has already raised its counters when it turns a spend down for the block's limits
  (src/miner.cpp:409-434), so that it may keep out a later one that would fit:
  `Miner.TurnedDownCounts` and `Miner.KeepsOutLater`.
- AddCoin has already lowered the memory count when it throws (src/coins.cpp:70-76):
  `Coins.CoinsViewCache.AddCoin`.

## Model

| member | source | states |
|---|---|---|
| Coins.FetchCorrect | src/coins.cpp:38-53 | Fetching an outpoint through any view of a stack of caches changes no coin that any view of the stack shows, keeps the DIRTY/FRESH discipline, and leaves an entry in the view's own map exactly when GetCoin answers there |
| Coins.UncacheCorrect | src/coins.cpp:204-211 | Uncaching at any view of the stack changes what no view shows; the entry goes exactly if it has neither flag, and every other entry stays |
| Coins.AddedAndSpent | src/coins.cpp:64-108 | A coin that was not known and is added and then spent leaves no entry: the FRESH flag is what lets it go |
| Coins.FlushedAndSpent | src/coins.cpp:141-195 | A fresh coin flushed into a cache that did not know it stays fresh there, so that spending it there, or flushing a spend of it, leaves no entry; flushed already spent it makes none |
| Coins.AddCorrect | src/coins.cpp:64-83 | When the caller keeps its promise (no unspent coin is visible unless an overwrite is announced), AddCoin does not throw, the top view shows the new coin at that outpoint (unless its script is unspendable) and every other view and outpoint is as before |
| Coins.SpendCorrect | src/coins.cpp:95-108 | After SpendCoin the top view shows nothing at the outpoint, whether the entry was FRESH and erased or kept as a cleared DIRTY entry; every other view and outpoint is as before |
| Coins.NeverMisapplied | src/coins.cpp:166-172 | In every consistent stack no entry of a child can meet the "FRESH flag misapplied" error of its parent's BatchWrite |
| Coins.AlwaysApplicable | src/coins.cpp:141-195 | Consequently every flush of a consistent stack can be carried out, into a cache or into the database |
| Coins.FlushCorrect | src/coins.cpp:197-202 | Flushing view n makes view n-1 show exactly the coins view n showed and leaves the coins of every other view, n included, unchanged; its own cache is empty then; the discipline survives |
| Coins.FlushedToDisk | src/txdb.cpp:83-106 | After the lowest cache is flushed the database holds exactly the unspent coins that cache showed |
| Coins.StepShows | src/coins.cpp:38-211 | One operation of any kind (fetch, add, spend, uncache, flush at any height, push a cache, drop a cache) takes caches that show given plain maps of unspent coins to caches that show the maps after the same plain operation |
| Coins.RunShows | src/coins.cpp:38-211 | Over every legal run of such operations the layered caches with their DIRTY and FRESH flags are indistinguishable from one plain map of unspent coins per view |
| Coins.InitialShows | src/coins.cpp:32-32 | A database with no cache on it shows its own coins, so every run has a start |
| Coins.UsageSplit | src/coins.cpp:34-36 | The memory total of a cache can be split at any entry |
| Coins.UsagePut | src/coins.cpp:160-178 | Replacing an entry changes the memory total by exactly the new coin's usage minus the old one's |
| Coins.CoinsViewDB.BatchWrite | src/txdb.cpp:83-106 | Whatever the order of the entries, the database ends as the old one with every DIRTY entry of the child applied: an unspent coin written, a spent one erased |
| Coins.CoinsViewCache.FetchCoin | src/coins.cpp:38-53 | Fills this cache and the ones below as the stack specification says; the entry is there exactly when the view has an answer, and holds that answer; the memory counts stay exact |
| Coins.CoinsViewCache.BaseGetCoin | src/coins.cpp:38-44 | The question handed to the base view is answered by that view and leaves this cache alone |
| Coins.CoinsViewCache.Emplace | src/coins.cpp:45-52 | A fetched coin enters unflagged, or FRESH when the parent only knew it as spent, and is counted |
| Coins.CoinsViewCache.GetCoin | src/coins.cpp:55-62 | Returns the coin (spent or not) that the view shows |
| Coins.CoinsViewCache.HaveCoin | src/coins.cpp:121-124 | True exactly when the view shows an unspent coin |
| Coins.CoinsViewCache.AddCoin | src/coins.cpp:64-83 | Throws exactly when the cache itself holds an unspent coin there and no overwrite was announced; otherwise the entry is the one of the specification and the memory count is exact. A throw leaves the coins alone but has already taken the surviving coin off the memory count |
| Coins.CoinsViewCache.SpendCoin | src/coins.cpp:95-108 | Hands out the coin the view showed and leaves the stack as fetch followed by spend |
| Coins.CoinsViewCache.EraseSpent | src/coins.cpp:98-107 | A FRESH entry is dropped and any other is cleared and made DIRTY; the memory count stays exact |
| Coins.CoinsViewCache.BatchWrite | src/coins.cpp:141-195 | In whatever order the child's entries come, the error is thrown if and only if some FRESH entry of the child meets an unspent coin of the parent; otherwise the parent ends as the order-free merge; the memory count is exact in both cases |
| Coins.CoinsViewCache.MergeOne | src/coins.cpp:143-190 | One dirty child entry: thrown exactly in the misapplied case, otherwise merged, and no other outpoint is touched |
| Coins.CoinsViewCache.Flush | src/coins.cpp:197-202 | On a consistent stack a flush never throws and leaves the heap's caches and database as FlushCorrect describes |
| Coins.CoinsViewCache.BaseBatchWrite | src/coins.cpp:197-199 | The entries go to the database or to the cache below, without an error |
| Coins.CoinsViewCache.Uncache | src/coins.cpp:204-211 | Only an entry with no flag is dropped; the memory count stays exact |
| CheckQueue.BatchSize | src/checkqueue.h:105-110 | A batch holds at least one check and never more than the queue does |
| CheckQueue.BatchShare | src/checkqueue.h:105-110 | A batch is the largest that is within the batch size and within an even share of the queue among all threads in the loop, the idle ones counted twice, and one; or it is a single check |
| CheckQueue.InitInv | src/checkqueue.h:134-134 | A new queue with no thread in its loop satisfies the invariant |
| CheckQueue.EnterInv | src/checkqueue.h:136-146 | A thread entering the loop keeps the invariant |
| CheckQueue.ExecuteInv | src/checkqueue.h:121-125 | Running (or skipping) one check of a batch keeps the invariant: no check is lost or run twice, and the running flag stays true only while nothing failed or was skipped |
| CheckQueue.AddInv | src/checkqueue.h:148-161 | Adding a batch keeps the invariant, with one worker notified for one check and all of them for more |
| CheckQueue.AddAwake | src/checkqueue.h:157-160 | After an Add no queue with work in it finds every thread of the pool asleep without a notification |
| CheckQueue.LockInv | src/checkqueue.h:77-120 | One whole critical section, from handing in the last batch to sleeping, leaving or taking the next one, keeps the invariant; if it makes Wait return, the answer is true exactly when every check added was run and passed |
| CheckQueue.TakenUnrun | src/checkqueue.h:111-119 | A batch is taken off the end of the queue, and nothing else is; it starts with the shared flag, so that after a failure was handed in none of it is run |
| CheckQueue.SkipsTheRest | src/checkqueue.h:121-125 | A thread runs the checks of its batch in order until one fails and skips the others |
| CheckQueue.PollLeaves | src/checkqueue.h:91-100 | When a thread may leave, the queue is drained, nobody holds a check, and the flag is the verdict on everything added |
| CheckQueue.Verdict | src/checkqueue.h:80-85 | With every added check accounted for as passed, failed or skipped, all passed if and only if none failed and none was skipped |
| CheckQueue.StepInv | src/checkqueue.h:69-161 | Every step of every thread keeps the invariant |
| CheckQueue.RunInv | src/checkqueue.h:69-161 | The invariant holds at every moment of every interleaving of the master and any number of workers, spurious wake-ups included |
| CheckQueue.TodoIsExact | src/checkqueue.h:45-60 | In every reachable state nTodo is exactly what is queued plus what is in threads' batches, nIdle the number of threads asleep and nTotal the number of threads in the loop |
| CheckQueue.WaitIsExact | src/checkqueue.h:142-146 | Whatever the interleaving, Wait returns true if and only if every check added since the last Wait was executed and passed |
| CheckQueue.NoLostWakeup | src/checkqueue.h:83-103 | A master asleep without a pending notification always has some worker still holding work, and a non-empty queue never finds the pool asleep with nobody active or notified |
| Merkle.WidthIff | src/merkleblock.h:65-68 | The shifted formula for the number of nodes at a height counts exactly the nodes whose first leaf exists |
| Merkle.Children | src/merkleblock.cpp:78-84 | The leaves below an inner node are those of its left child followed by those of its right child; when the width test says there is no right child, the left one has them all |
| Merkle.RootCovers | src/merkleblock.cpp:151-154 | The height loop stops at a height whose one node covers every transaction |
| Merkle.ExtractSound | src/merkleblock.cpp:108-144 | If what extraction computes for a node is the node's true hash, then every pair it reports below that node is a transaction id at its true position, whatever bits and hashes were supplied |
| Merkle.Soundness | src/merkleblock.cpp:162-193 | For a collision-free pair hash: if ExtractMatches succeeds on arbitrary bits and hashes and returns the Merkle root of a list of as many transactions, every reported pair is the true id at that index |
| Merkle.ExtractInOrder | src/merkleblock.cpp:123-126 | Reported indices are inside the node's range and strictly increasing, for arbitrary bits and hashes |
| Merkle.MarkedExact | src/merkleblock.cpp:123-126 | The list extraction is compared with holds exactly the marked transactions with their positions |
| Merkle.NodesDiffer | src/merkleblock.cpp:133-137 | Two nodes at one height over distinct ids never have the same hash |
| Merkle.NoTwins | src/merkleblock.cpp:133-137 | Hence the check for identical branches never rejects a tree built from distinct ids |
| Merkle.ExtractBuilt | src/merkleblock.cpp:90-144 | Wherever a built subtree's bits and hashes lie in the stored sequences, extraction from there consumes exactly them and gives the subtree's true hash and its marked transactions |
| Merkle.PartSize | src/merkleblock.h:31-48 | A built subtree stores between one hash and one per leaf, and its number of flag bits is exactly twice the hashes minus one plus the number of single-child nodes descended through |
| Merkle.PartHashes | src/merkleblock.h:36-40 | A built subtree stores at most one hash plus one per level for each match below it |
| Merkle.HashBounds | src/merkleblock.h:36-40 | The two documented bounds on the number of stored hashes hold for every block and every selection |
| Merkle.LastChild | src/merkleblock.h:67-70 | Each level has half as many nodes as the one below, rounded up, so that only the last node of a level can have a single child |
| Merkle.LoneIs | src/merkleblock.cpp:90-112 | The single-child nodes the builder descends through below a node lie on the path of last nodes, and are counted by the widths and the marks alone |
| Merkle.LoneAtRoot | src/merkleblock.cpp:90-112 | For a whole block they are at most one for each level |
| Merkle.BitBound | src/merkleblock.h:42-48 | The number of flag bits is exactly 2N-1 plus the number of levels whose last node has a single child and a marked leaf; the documented bound of 2N-1 holds if and only if there is no such level |
| Merkle.BitBoundFails | src/merkleblock.h:42-48 | The documented bound fails: marking the last of three transactions stores two hashes and four bits |
| Merkle.SizeBound | src/merkleblock.h:31-34 | The documented guarantee on the encoded size holds if and only if prefix lengths and flag bytes fit into 6 + ceil(N/4), which depends on the number of hashes and of single-child levels |
| Merkle.FitsWithoutLone | src/merkleblock.h:31-34 | Without single-child levels the guarantee holds if and only if there are at most 65535 hashes |
| Merkle.SizeBoundSmall | src/merkleblock.h:31-34 | With at most 252 hashes the guarantee always holds, for every block that can be stored |
| Merkle.SizeBoundFails | src/merkleblock.h:31-34 | The guarantee fails: a block of 1012 transactions, all matched, takes 32648 bytes, one more than promised |
| Merkle.Pack | src/merkleblock.h:99-103 | Writing packs the flag bits eight to a byte, least significant first, with zero padding |
| Merkle.Unpack | src/merkleblock.h:92-98 | Reading gives back every bit of every byte in that order |
| Merkle.RoundTrip | src/merkleblock.cpp:146-193 | Building over distinct ids, storing, reading back and extracting gives the true Merkle root and exactly the marked transactions with their indices, in order |
| Merkle.PartialMerkleTree.constructor | src/merkleblock.cpp:146-158 | Building from ids and a mask leaves the bits and hashes of the whole tree |
| Merkle.PartialMerkleTree.Read | src/merkleblock.h:87-98 | Reading restores the count, the hashes and every bit of the bytes |
| Merkle.PartialMerkleTree.CalcHeight | src/merkleblock.cpp:151-154 | The loop finds the first height with at most one node |
| Merkle.PartialMerkleTree.CalcHash | src/merkleblock.cpp:73-88 | Computes the node's hash, the left hash standing in for a missing right one |
| Merkle.PartialMerkleTree.ParentOfMatch | src/merkleblock.cpp:91-94 | The scan over the shifted range answers whether some leaf of the node is marked |
| Merkle.PartialMerkleTree.TraverseAndBuild | src/merkleblock.cpp:90-106 | Appends exactly the subtree's bits and hashes to those stored before |
| Merkle.PartialMerkleTree.TraverseAndExtract | src/merkleblock.cpp:108-144 | Returns the node's hash, the advanced counters and the matches of the specification; the failure flag is raised exactly where the specification fails and never lowered |
| Merkle.PartialMerkleTree.ExtractMatches | src/merkleblock.cpp:162-193 | Gives the root and the matches of the specification; the root is not null if and only if the tree was not bad before and the bits and hashes are those of a tree of the right shape and size, with nothing left over, no two equal siblings and a root that is not null |
| Merkle.ExtractTree | src/merkleblock.cpp:108-144 | Where the flags and hashes of any tree of a node's shape are stored, extraction uses exactly them, finds exactly its flagged leaves and its hash, and fails exactly for equal siblings |
| Merkle.TreeOf | src/merkleblock.cpp:108-144 | Whatever the bits and hashes, what is extracted without failure is such a tree |
| Merkle.Answered | src/merkleblock.cpp:162-193 | Every tree within the limits, without equal siblings, is answered with its root and its flagged leaves in order, whoever encoded it |
| Merkle.AcceptedIff | src/merkleblock.cpp:162-193 | There is an answer if and only if the bits and hashes are such a tree: nothing else is accepted and nothing of the kind is rejected |
| Merkle.Relay | src/merkleblock.cpp:146-193 | One node building and storing, another reading and extracting: the second has the true root and exactly the marked transactions |
| AddrTables.SwapKeeps | src/addrman.cpp:93-111 | Exchanging two places of the random order keeps every index consistent and changes no entry beyond its recorded place |
| AddrTables.CreateKeeps | src/addrman.cpp:81-91 | A new entry gets an unused id and is found through every index; it is the one entry that may lack a slot until it is placed |
| AddrTables.EnterKeeps | src/addrman.cpp:81-91 | An entry with an address of its own is found through every index and has an unused id; until it gets a slot it is the only thing wrong |
| AddrTables.DeleteKeeps | src/addrman.cpp:113-125 | Deleting an unreferenced untried entry meets the routine's asserts, removes it from every index, and keeps every other entry's place in the random order exact |
| AddrTables.UnrefKeeps | src/addrman.cpp:127-136 | Emptying a new slot lowers its holder's reference count to the number of slots it still has |
| AddrTables.ClearKeeps | src/addrman.cpp:127-140 | Clearing a new slot keeps every condition, deleting the holder exactly when this was its last slot, and touches no other entry |
| AddrTables.PutNewKeeps | src/addrman.cpp:302-305 | Giving an entry a free slot at the place its hash names keeps every condition, its reference count included |
| AddrTables.UnlinkStep | src/addrman.cpp:144-151 | One more bucket of the removal loop: the entry can only be at the one place its hash names there |
| AddrTables.UnlinkAll | src/addrman.cpp:144-151 | The loop over all buckets takes exactly the entry's references |
| AddrTables.UnlinkKeeps | src/addrman.cpp:144-154 | After the loop no new slot refers to the entry and its count is zero, so the assert after the loop holds |
| AddrTables.EvictKeeps | src/addrman.cpp:163-170 | The holder of an occupied tried slot is a tried entry without references; taking it out leaves it the one entry without a slot |
| AddrTables.PromoteKeeps | src/addrman.cpp:183-187 | Putting an unreferenced entry in its free tried slot leaves every condition intact, with one entry less that lacks a slot |
| AddrTables.DemoteKeeps | src/addrman.cpp:160-182 | Moving a tried entry back to its new slot, clearing whatever was there, keeps every condition and the asserts on the way hold |
| AddrTables.DemoteEffect | src/addrman.cpp:160-182 | The evicted entry keeps its identity and gets exactly one new slot; only the previous holder of that slot may be lost; every other entry is unchanged |
| AddrTables.MadeRoomSteps | src/addrman.cpp:142-183 | What MakeTried has reached after its first loop is the specification's intermediate state, with the tried slot's holder, if any, evictable |
| AddrTables.MakeTriedKeeps | src/addrman.cpp:142-188 | MakeTried keeps the whole invariant |
| AddrTables.MakeTriedEffect | src/addrman.cpp:142-188 | Afterwards the entry is tried, in its slot and in no new bucket; the entry displaced there is back in one new slot; no other tried entry moves; at most one entry of the whole manager is lost |
| AddrTables.GoodSteps | src/addrman.cpp:208-239 | Good_ on a known service is the time update followed, for an untried entry, by MakeTried; some new bucket always holds such an entry |
| AddrTables.GoodKeeps | src/addrman.cpp:190-240 | Good_ keeps the whole invariant |
| AddrTables.GoodTries | src/addrman.cpp:219-239 | Good_ on a known service always leaves it in its tried slot: the "no bucket is found" exit is never taken |
| AddrTables.PlaceKeeps | src/addrman.cpp:291-311 | The end of Add_ keeps the invariant, whether the entry is inserted, was there already, or is deleted for want of a slot |
| AddrTables.EnrollKeeps | src/addrman.cpp:285-288 | A freshly created entry satisfies everything but having a slot |
| AddrTables.RefreshKeeps | src/addrman.cpp:257-264 | Updating the time and services of a known entry keeps the invariant |
| AddrTables.AddKeeps | src/addrman.cpp:242-313 | Add_ keeps the whole invariant for every address, source, penalty, clock and random number |
| AddrTables.AddEffect | src/addrman.cpp:242-313 | Add_ returns true exactly for a routable address whose IP was unknown, never touches the tried table, adds at most that entry and loses at most one other; what exactly it stores is in AddrEffects |
| AddrEffects.PlaceExact | src/addrman.cpp:291-311 | For every entry not in tried: in the slot that its source gives it already, nothing changes; if the slot is free, held by a terrible entry, or held by one with other slots while this one has none, it gets the slot, and the holder loses it and, with its last one, its entry; otherwise an entry without slots is deleted and any other stays as it was |
| AddrEffects.AddUnknown | src/addrman.cpp:242-313 | An unknown routable address is stored, with its penalised time and found under its IP, exactly when the slot that its source gives it is open; its holder loses the slot, and its entry only with its last one; otherwise everything but the id counter is as before |
| AddrEffects.AddKnown | src/addrman.cpp:252-311 | A known address updates its entry and gains a slot exactly when the news is later than the entry, the entry is not in tried, has fewer than eight slots and passes the random test, and the slot is not its own already and is open; nothing else changes |
| AddrEffects.AddUnroutable | src/addrman.cpp:244-245 | An address that is not routable changes nothing |
| AddrEffects.RefreshExact | src/addrman.cpp:257-264 | Hearing of a known entry adds its services, and moves its time, only forward, exactly when the news is more than an hour or a day beyond it after the penalty |
| AddrEffects.AttemptExact | src/addrman.cpp:315-335 | An attempt on a known service sets the time of the last try and counts as a failure exactly if asked for and none was counted since the last success; an unknown one changes nothing |
| AddrEffects.ConnectedExact | src/addrman.cpp:483-501 | A connection sets the time of exactly that entry, and only if it is more than twenty minutes behind |
| AddrEffects.SetServicesExact | src/addrman.cpp:503-519 | Replaces the services of exactly that entry |
| AddrEffects.GoodExact | src/addrman.cpp:190-240 | A success is noted in the entry and for all; an entry in tried stays there, and any other leaves all its new slots for its tried slot |
| AddrEffects.MoveExact | src/addrman.cpp:142-188 | The move to tried: the entry is in its tried slot and in no new one; the entry that held the slot, if any, is back in new with one slot, and of the others only the holder of that slot loses something |
| AddrEffects.DemoteExact | src/addrman.cpp:160-182 | An entry evicted from tried goes to its slot in new and has exactly that one; who held it loses it |
| AddrTables.AttemptKeeps | src/addrman.cpp:315-335 | Attempt_ keeps the invariant |
| AddrTables.ConnectedKeeps | src/addrman.cpp:483-501 | Connected_ keeps the invariant |
| AddrTables.SetServicesKeeps | src/addrman.cpp:503-519 | SetServices_ keeps the invariant |
| AddrTables.GatherStep | src/addrman.cpp:472-480 | One turn of the partial shuffle: both places are valid, everything but the order is unchanged, and the chosen entry is counted if it is not terrible |
| AddrTables.GatherCorrect | src/addrman.cpp:462-481 | From any turn on, GetAddr_ only reorders, and returns the good entries among a prefix of the final order, at most the limit, and fewer only after looking at every entry |
| AddrTables.GatherAll | src/addrman.cpp:462-481 | The whole of GetAddr_ returns no entry twice and stops early only at its limit |
| AddrTables.StepKeeps | src/addrman.cpp:190-335 | Every operation (Add_, Good_, Attempt_, Connected_, SetServices_, GetAddr_) keeps the invariant |
| AddrTables.EmptyConsistent | src/addrman.h:459-479 | A cleared manager satisfies the invariant |
| AddrTables.RunConsistent | src/addrman.cpp:190-519 | The invariant holds in every state of every run from construction, for every hash function and every random choice |
| AddrTables.RandomCounts | src/addrman.cpp:390-391 | The random order is as long as the two counters say, which is the first condition Check_ tests |
| AddrTables.ConsistentPasses | src/addrman.cpp:385-459 | The invariant implies every one of the conditions Check_ tests, so Check_ finds no fault in any reachable state |
| AddrManager.BucketReached | src/addrman.cpp:220-223 | The wrapped scan from a random bucket reaches every bucket |
| AddrManager.SetSlot | src/addrman.cpp:303-305 | Writing one slot of a bucket array changes that slot of the table it stands for and no other |
| AddrManager.AddrMan.constructor | src/addrman.h:459-479 | A new manager is empty, consistent and owns fresh bucket arrays |
| AddrManager.AddrMan.SwapRandom | src/addrman.cpp:93-111 | The in-place exchange does what the table specification says, for equal positions too |
| AddrManager.AddrMan.Delete | src/addrman.cpp:113-125 | Swap to the back, pop, and erase from both maps: the specified deletion |
| AddrManager.AddrMan.ClearNew | src/addrman.cpp:127-140 | Empties a slot of the bucket array and deletes its holder exactly when the last reference went |
| AddrManager.AddrMan.RemoveFromNew | src/addrman.cpp:144-151 | The loop over the bucket array removes the entry from every bucket and lowers its count by as many |
| AddrManager.AddrMan.MakeTried | src/addrman.cpp:142-188 | The in-place move on the two bucket arrays is the specified move; every assert of the routine holds |
| AddrManager.AddrMan.EvictToNew | src/addrman.cpp:160-182 | The in-place eviction is the specified one; its asserts hold |
| AddrManager.AddrMan.FindNewBucket | src/addrman.cpp:219-229 | The scan from a random bucket fails if and only if no bucket holds the entry |
| AddrManager.AddrMan.Good | src/addrman.cpp:190-240 | The method ends in the specified tables, consistent again |
| AddrManager.AddrMan.PutInNew | src/addrman.cpp:302-305 | The insertion branch frees the slot and gives it to the entry |
| AddrManager.AddrMan.PlaceInNew | src/addrman.cpp:291-311 | The end of Add_ leaves the tables of the specification, whose every branch PlaceExact describes |
| AddrManager.AddrMan.Create | src/addrman.cpp:81-91 | Enters the address in both maps and at the end of the random order under the next id |
| AddrManager.AddrMan.Add | src/addrman.cpp:242-313 | The method returns and leaves what the specification says, consistent again |
| AddrManager.AddrMan.UpdateEntry | src/addrman.cpp:257-264 | A known entry's time moves only past the update interval and never below zero; its services only grow |
| AddrManager.AddrMan.IsNothingNew | src/addrman.cpp:266-283 | True exactly for one of the four reasons to stop, the stochastic test with its doubling loop included; a tried entry always stops |
| AddrManager.AddrMan.EnrollNew | src/addrman.cpp:285-288 | A new entry is created with its penalised time and counted |
| AddrManager.AddrMan.Attempt | src/addrman.cpp:315-335 | Leaves the specified tables, consistent again |
| AddrManager.AddrMan.Connected | src/addrman.cpp:483-501 | Leaves the specified tables, consistent again |
| AddrManager.AddrMan.SetServices | src/addrman.cpp:503-519 | Leaves the specified tables, consistent again |
| AddrManager.AddrMan.GetAddr | src/addrman.cpp:462-481 | Returns the good entries of a prefix of the order it leaves, at most 23% of all and at most 2500, fewer only when it looked at every entry; nothing but the order changes |
| AddrManager.AddrMan.Check | src/addrman.cpp:385-459 | Returns 0 if and only if the tables satisfy every condition and the key is set, for arbitrary tables; on consistent tables it changes nothing, although its lookups may store entries in mapAddr |
| AddrManager.AddrMan.CheckEntries | src/addrman.cpp:393-417 | The loop over the entries fails if and only if some entry fails, and otherwise hands on exactly the tried ids and the reference counts |
| AddrManager.AddrMan.CheckTried | src/addrman.cpp:424-436 | Ticking ids off while scanning the tried slots, with the emptiness test at the end, fails if and only if the tried table is not exact |
| AddrManager.AddrMan.CheckNew | src/addrman.cpp:438-454 | Counting references down while scanning the new slots fails if and only if some slot is misplaced or some reference count is wrong |
| AddrManager.TriedStep | src/addrman.cpp:426-434 | An occupied tried slot is either ticked off or proves the table wrong |
| AddrManager.TriedEnd | src/addrman.cpp:451-452 | At the end of the scan the tried table is exact if and only if every id was ticked off |
| AddrManager.NewStep | src/addrman.cpp:440-447 | An occupied new slot either counts its holder's references down or proves the table wrong |
| AddrManager.NewEnd | src/addrman.cpp:453-454 | At the end of the scan the reference counts are exact if and only if every count reached zero |
| AddrStore.AscendingExact | src/addrman.h:319-336 | Walking the entry map in key order visits every entry once |
| AddrStore.StoredInOrder | src/addrman.h:317-336 | The two passes of Serialize store every entry exactly once, new ones first, and as many of each as the counters say, so its asserts hold |
| AddrStore.NumberIs | src/addrman.h:318-327 | The number Serialize gives an untried entry is its place in the stored list, although tried entries are numbered on the way too |
| AddrStore.NewLoaded | src/addrman.h:382-400 | Reading the new entries restores each at its number, in every index |
| AddrStore.TriedLoaded | src/addrman.h:402-421 | Reading the tried entries finds every recomputed tried slot free, so none is lost |
| AddrStore.NewsStep | src/addrman.h:427-438 | Every stored position finds its slot free and its entry below the reference limit |
| AddrStore.BucketLoaded | src/addrman.h:424-439 | Reading one bucket restores exactly the positions of that bucket |
| AddrStore.BucketsLoaded | src/addrman.h:424-439 | Reading all buckets restores exactly the positions of the new table |
| AddrStore.AllPlaced | src/addrman.h:441-451 | Afterwards every entry is as it was saved, every new slot is taken as before, and nothing is left to prune |
| AddrStore.IsRenumbered | src/addrman.h:354-457 | The loaded tables are the saved ones under a renumbering of the entries |
| AddrStore.RenumberedConsistent | src/addrman.h:456-456 | Renumbered tables satisfy the whole invariant, so the check that ends loading passes |
| AddrStore.WithinLimits | src/addrman.h:374-380 | In every consistent manager both counters are within the limits that loading enforces |
| AddrStore.RoundTrip | src/addrman.h:303-457 | Loading what a consistent manager saved succeeds, loses no entry, and gives back the same tables up to the entries' ids and order, consistent again, although tried slots, indexes and positions within buckets are never stored |
| AddrFile.WriteNew | src/addrman.h:317-327 | Walking the map in key order writes the referenced entries in that order and numbers every entry as the specification does; the assert on nNew holds |
| AddrFile.WriteTried | src/addrman.h:328-336 | The second walk writes the tried entries in order; the assert on nTried holds |
| AddrFile.WriteBucket | src/addrman.h:337-350 | Writes the numbers of a bucket's occupants in slot order, as many as were counted first |
| AddrFile.Serialize | src/addrman.h:303-351 | The loops over a consistent manager's own maps and arrays produce exactly the specified file contents |
| AddrFile.BucketsLoading | src/addrman.h:424-439 | Whatever was stored, while loading every number below nNew is an entry, ids stay below nIdCount and the random order is exact |
| AddrFile.ReadNew | src/addrman.h:382-400 | The loop over the new entries fills the maps and the order as specified and, for another version or bucket count, gives each entry the slot of its source if that is free |
| AddrFile.PlaceAtHome | src/addrman.h:389-398 | An entry takes the slot that its source gives it exactly when that is free |
| AddrFile.ReadTried | src/addrman.h:402-421 | The loop over the tried entries fills every slot that is free, loses the others and corrects nTried |
| AddrFile.ReadOneTried | src/addrman.h:405-419 | An entry is lost exactly when its recomputed slot is taken |
| AddrFile.ReadBuckets | src/addrman.h:423-439 | The loop over the buckets places references as specified, and none for another version or bucket count |
| AddrFile.ReadIndex | src/addrman.h:428-437 | One number is used exactly when it names a new entry whose slot in that bucket is free and which has fewer than eight references |
| AddrFile.PruneUnplaced | src/addrman.h:441-451 | Deleting while walking the map removes exactly the entries without a slot; the asserts of Delete hold whatever was stored |
| AddrFile.Unserialize | src/addrman.h:353-457 | Into a new manager, for every version and number of buckets: fails exactly on another key size and on counts no table can have, otherwise leaves the specified tables, which are consistent if no address is stored twice |
| AddrFile.Reload | src/addrman.h:303-457 | A consistent manager saved and loaded into a new one: the new one holds the same tables up to renumbering and is consistent |
| AddrLoad.NewHalfway | src/addrman.h:382-400 | Loading the new entries of any sound file: only entries without a slot are wrong; where stored slots cannot be used, the slot of every entry's source is in use |
| AddrLoad.TriedsHalfway | src/addrman.h:402-421 | The same through the tried entries, each of whose slots is then in use |
| AddrLoad.BucketsHalfway | src/addrman.h:423-439 | The same through arbitrary lists of slots |
| AddrLoad.PruneKeeps | src/addrman.h:441-451 | Pruning deletes exactly the listed entries and keeps every condition |
| AddrLoad.LoadConsistent | src/addrman.h:354-457 | Whatever version, bucket count and bucket lists a file has, if no address is stored twice the loaded manager is consistent, holds only entries of the file, uses every tried entry's slot and, where stored slots cannot be used, the slot of every new entry's source |
| AddrLoad.SavedSound | src/addrman.h:303-351 | What a consistent manager stores has no address twice and sensible times |
| AddrLoad.ForeignLoads | src/addrman.h:296-298 | What any consistent manager saved loads into a consistent manager under another version, other bucket lists and another hashing into buckets, as the format promises |
| Mempool.AncestorBelow | src/txmempool.cpp:169-231 | The dependency relation of a pool is acyclic |
| Mempool.AncestorTransitive | src/txmempool.cpp:169-231 | Depending on something that depends on a transaction is depending on it |
| Mempool.CalculateDescendants | src/txmempool.cpp:831-852 | Called with a set closed under children, the search returns exactly that set, the entry and everything that depends on it, although it never walks into what the set already holds |
| Mempool.CalculateAncestors | src/txmempool.cpp:169-231 | The search over parents, without limits, returns exactly the transactions the entry depends on |
| Mempool.CountGrows | src/miner.h:94-101 | A transaction's ancestor count is larger than that of everything it depends on, so the sort key orders packages validly |
| Mempool.Sort | src/miner.cpp:504-513 | Lists the members of a set, each once, in the order of a key |
| Mempool.SizeWithout | src/txmempool.h:116-117 | Taking one transaction out of a set lowers its total size by exactly that transaction's |
| Miner.CheckLelantusBlock | src/lelantus.cpp:250-285 | Accepts exactly the blocks within the four limits on join-splits, two per transaction and two per block |
| Miner.CheckSparkBlock | src/spark/state.cpp:466-487 | Accepts exactly the blocks within the two limits on Spark spends |
| Miner.ParentsFirstAppend | src/miner.cpp:436-446 | Appending a transaction whose pool parents are in the block keeps the block ordered and free of repetitions |
| Miner.SpareOne | src/miner.cpp:741-747 | Blacklisting everything that depends on a transaction but not the transaction itself leaves the blacklist closed under dependents |
| Miner.BlacklistDependents | src/miner.cpp:734-780 | In whatever order the pool is walked, after the first loop a transaction is blacklisted if and only if it depends on a private spend, on a registration whose collateral is spent or on one whose collateral is taken, or is one whose collateral is taken; the blacklist is closed under dependents |
| Miner.BlacklistFor | src/miner.cpp:741-772 | For one transaction exactly what it keeps out joins the blacklist: what depends on it if it is a private spend or a registration whose collateral is taken or spent, and itself only if its collateral is taken |
| Miner.OneMoreOut | src/miner.cpp:741-772 | One turn of the loop lists exactly what that transaction keeps out |
| Miner.BlacklistForbidden | src/miner.cpp:793-800 | In whatever order the pool is walked, exactly what the sporks forbid and what depends on it joins the blacklist |
| Miner.BlacklistTxsExceedingLimit | src/miner.cpp:817-847 | Of the spends of a kind in ascending order of amount the longest prefix within the limit is kept, and exactly the others and what depends on them join the blacklist |
| Miner.KeptPrefix | src/miner.cpp:834-841 | Going through sorted spends, the longest prefix within the limit is kept |
| Miner.BlacklistRest | src/miner.cpp:843-845 | Exactly the transactions after the prefix and what depends on them join the blacklist |
| Miner.LoweredSize | src/miner.cpp:467-482 | Taking an added transaction's size off its descendants' entries keeps each entry equal to the size of the package still missing |
| Miner.ModifiedSound | src/miner.cpp:585-592 | The package size the selection loop uses, from the pool or from the modified set, is never less than the true size of what would be added |
| Miner.UpdateDescendants | src/miner.cpp:465-482 | Lowers exactly the entries of the added transaction's dependents that are neither added nor blacklisted, and counts them |
| Miner.UpdatePackagesForAdded | src/miner.cpp:460-485 | After a package went in, every entry of the modified set again agrees with what is in the block |
| Miner.AddedWithinLimits | src/miner.cpp:407-434 | Every transaction AddToBlock takes leaves the block within the limits it checks; the counters may only overestimate, since a rejected spend can stay counted |
| Miner.AddedAssembled | src/miner.cpp:407-446 | Taking a transaction keeps the whole block invariant, and only private spends are ever turned down |
| Miner.PackageOrdered | src/miner.cpp:504-513 | In a package sorted by ancestor counts every transaction comes after its parents that are not in the block yet; nothing in it is blacklisted, and only its last may be a private spend |
| Miner.Included | src/miner.cpp:642-651 | What a package leaves behind is what the update of the modified set needs, even when its private spend was turned down |
| Miner.BlockAssembler.constructor | src/miner.cpp:142-200 | The template starts with the coinbase and the commitments and nothing else |
| Miner.BlockAssembler.AddToBlock | src/miner.cpp:407-458 | Appends the transaction or, for a private spend over a limit, leaves the block alone but possibly the counters raised; the block invariant holds either way |
| Miner.BlockAssembler.CountSpends | src/miner.cpp:409-434 | The running totals and the verdict are the specification's, including totals raised by rejected spends |
| Miner.BlockAssembler.IsStillDependent | src/miner.cpp:275-284 | True exactly when some parent is not in the block |
| Miner.BlockAssembler.OnlyUnconfirmed | src/miner.cpp:286-297 | Keeps exactly the entries that are not in the block |
| Miner.BlockAssembler.TestForBlock | src/miner.cpp:374-404 | True if and only if the transaction fits and AddToBlock would take it, and a join-split has no more inputs than one transaction may have |
| Miner.BlockAssembler.AddPriorityTxs | src/miner.cpp:655-729 | Whatever the priorities, the loop never meets a transaction already in the block, only appends pool transactions, and keeps the block invariant; if everything fits, every transaction that is not blacklisted is in the block afterwards or over a limit on private spends |
| Miner.BlockAssembler.TryPopped | src/miner.cpp:697-727 | A transaction taken off the queue waits exactly if a parent is missing, joins the block if it passes, and otherwise is gone; none is lost |
| Miner.NoneWaits | src/miner.cpp:708-726 | When the queue has run empty nothing waits any more: the missing parent would be a private spend, and its dependents are blacklisted |
| Miner.StaysDown | src/miner.cpp:409-434 | Counters only grow, so a spend that was turned down would be turned down again, and only private spends are |
| Miner.TakenIff | src/miner.cpp:409-434 | A transaction is taken if and only if its spends are within the limits on one transaction and, with what is counted, within the limits on a block |
| Miner.TurnedDownCounts | src/miner.cpp:409-434 | A spend of one kind that is turned down leaves the counters as they were if and only if it is over the limit on one transaction |
| Miner.KeepsOutLater | src/miner.cpp:409-434 | Otherwise it stays counted and can keep out a later spend that would fit |
| Miner.RoomForIt | src/miner.cpp:409-434 | If all private spends of the pool together are within every limit, none of them is ever turned down |
| Miner.BlockAssembler.StartQueue | src/miner.cpp:676-689 | The queue holds exactly the transactions that are not blacklisted, once each |
| Miner.BlockAssembler.RequeueChildren | src/miner.cpp:715-725 | The waiting children, and no other, return to the queue, and no transaction is lost or queued twice |
| Miner.BlockAssembler.IncludePackage | src/miner.cpp:638-651 | All ancestors of the package join the block in a valid order, the entry too unless AddToBlock turns it down, and would again; the modified set is exact again and loses nothing but the package |
| Miner.BlockAssembler.AddPackageTxs | src/miner.cpp:525-653 | Whatever the fee rates and sizes, the loop ends, never considers a transaction already in the block, only appends, and keeps the block invariant; unless fees, sizes or finality stand in the way, every transaction of the order that is not blacklisted is in the block afterwards or over a limit on private spends |
| Miner.BlockAssembler.TryPackage | src/miner.cpp:600-651 | A package that fits and is final is put into the block; any other goes from the modified set and counts as failed if it came from there; what was settled before stays settled |
| Miner.BlockAssembler.FindPackage | src/miner.cpp:618-624 | The package is the entry with every ancestor that is not in the block |
| Miner.BlockAssembler.StartModified | src/miner.cpp:533-535 | The first update makes the modified set exact for what the priority pass put in |
| Miner.BlockSum | src/miner.cpp:436-446 | Since no transaction is in the block twice, the block's total of a kind of spends is the sum over the set of its spends |
| Miner.FillBlackListForBlockTemplate | src/miner.cpp:731-815 | The blacklist is, exactly: what a private spend or a registration keeps out, what is forbidden or depends on that, and then, for each limited kind, the largest spends, each of them too much for what is left |
| Miner.LimitSpends | src/miner.cpp:802-814 | For one kind of spends: only such spends join the blacklist, none of them smaller than one that stays; what stays is within the limit, and would not be with any one of them |
| Miner.RestOnly | src/miner.cpp:843-845 | Since what depends on a spend is listed already, exactly the spends after the prefix join the blacklist |
| Miner.BlackMeans | src/miner.cpp:731-815 | Everything a rule names is blacklisted, and what no rule names is blacklisted only if it is a spend of a limited kind; both limits hold |
| Miner.WithinSporkBlock | src/miner.cpp:802-814 | A block without blacklisted transactions is within the spork's limit |
| Miner.CreateNewBlock | src/miner.cpp:192-200 | Whatever fees, priorities, sizes and clocks decide, the template has every pool transaction at most once and after its parents, nothing blacklisted, where the blacklist is exactly what the rules name, totals within both sporks' limits, passes the Spark check, is within the block limits on join-splits, and passes the whole Lelantus check for every pool whose join-splits have no more inputs than pool acceptance allows; if fees, sizes and finality do not stand in the way, it has every other transaction that is not a private spend and, with room for all of those, every private spend |
| Surge.CheckSurgeCondition | src/lelantus.cpp:1123-1160 | The loop, with its wrapping 64-bit subtraction, computes the specified scan of the groups in ascending order |
| Surge.ScanExact | src/lelantus.cpp:1123-1160 | On consecutive groups with tails no larger than the group before, the scan stops exactly at the first group whose spends exceed its own coins and what is left of the shared tail |
| Surge.LeftBounds | src/lelantus.cpp:1138-1152 | While no group overspends, what is left over is at most the shared tail |
| Surge.GreedyAssigns | src/lelantus.cpp:1123-1160 | If no group overspends, giving each group the left-over tail first is an assignment of distinct admissible coins to all spends |
| Surge.UsedSize | src/lelantus.cpp:1123-1160 | An assignment gives a group's spends as many coins as there are spends |
| Surge.SpareBound | src/lelantus.cpp:1123-1160 | However an assignment is made, the part of the shared tail it leaves is never more than what the scan computes |
| Surge.AssignedEnough | src/lelantus.cpp:1123-1160 | Hence if any assignment exists, no group overspends |
| Surge.SurgeExact | src/lelantus.cpp:1123-1160 | The surge flag is raised if and only if the spends cannot all be given distinct coins, each from its group's own mints or the tail shared with the group before |
| LelantusSpec.AddMintsEffect | src/lelantus.cpp:1049-1054 | Adding a block's mints touches coins, tags and the group's mint count only, which grows by the number of mints |
| LelantusSpec.GroupMirror | src/lelantus.cpp:1201-1230 | Reading a block's group from the index does to the groups, the shared tails and the latest id what choosing the group did when the block was connected |
| LelantusSpec.MintsMirror | src/lelantus.cpp:1248-1274 | The same for the group together with its mints |
| LelantusSpec.StepMirror | src/lelantus.cpp:837-935 | One block connected and the same block read from the index keep the two states in step, except that rebuilding counts spends after the mints |
| LelantusSpec.SpendsCounted | src/lelantus.cpp:1071-1077 | Adding a block's spends raises each known group's spend count by the spends from it and ignores unknown groups |
| LelantusSpec.RunMirrors | src/lelantus.cpp:1013-1023 | For every chain: a rebuild from the index gives the same coins, tags, mint counts, shared tails and latest id as connecting did, the same groups up to an empty first one, and counts exactly the late spends more |
| LelantusSpec.EmptyGroupIff | src/lelantus.cpp:1203-1230 | Connecting leaves an empty first group exactly when the first block with mints has more than fit into a group |
| LelantusSpec.RebuildIff | src/lelantus.cpp:1013-1023 | A rebuild gives the very state that connecting built if and only if the first block with mints fits into a group and no block spends from a group that it creates itself |
| LelantusSpec.KnownNotLate | src/lelantus.cpp:456-459 | If every spend names a group that exists before its block, as the check of join-splits demands, no spend is late |
| LelantusSpec.AcceptedRebuilds | src/lelantus.cpp:1013-1023 | For every chain whose spends name existing groups and whose first block with mints fits, the rebuilt state is the connected one, the surge flag included |
| LelantusSpec.LateSpendIgnored | src/lelantus.cpp:868-894 | Without the check of a block's spends the two ways would differ: on a block that spends from the group it creates connecting ignores the spend, rebuilding counts it |
| LelantusSpec.RunTails | src/lelantus.cpp:1681-1703 | In every state reached by connecting, mint counts are those of the index and no shared tail is larger than the group it is taken from |
| LelantusRun.RunCoins | src/lelantus.cpp:1049-1054 | After any run a coin is known if and only if some block minted it, with the height and the group of the first such block |
| LelantusRun.RunTags | src/lelantus.cpp:1049-1054 | A tag leads to the coin that was minted with it first, and only minted tags lead anywhere |
| LelantusRun.RunMints | src/lelantus.cpp:1049-1054 | The groups that count coins are exactly those that some block put coins into |
| LelantusRun.RunUsed | src/lelantus.cpp:1071-1077 | A serial is used if and only if some block spent it from a group that an earlier block had begun, with the group of the last such spend |
| LelantusRun.RunSpends | src/lelantus.cpp:1071-1077 | A group's spend count is the number of spends from it in blocks after its first one |
| LelantusRun.CountsTail | src/lelantus.cpp:1681-1703 | The coins counted back are those of the fewest last blocks of the group that have the required number, or all of them, and the block found is the first of these |
| LelantusRun.RunDescribed | src/lelantus.cpp:1177-1242 | After any run every group's entry is what the index says: its coins plus the shared ones, its last block, and as first block its own first or, after the first group, that of the tail which the group before had at that time |
| LelantusRun.RunOrdered | src/lelantus.cpp:1201-1232 | After any run every block's mints are in one group: the one before them if they fit, shared coins included, and otherwise the next one |
| LelantusSpec.RunRegular | src/lelantus.cpp:1177-1242 | In every such state the groups with coins are consecutive, as the surge theorem needs |
| LelantusSpec.RunSurge | src/lelantus.cpp:1123-1160 | After any chain of connected blocks the surge flag is raised if and only if no assignment of distinct admissible coins to the spends exists |
| LelantusSpec.SpendOne | src/lelantus.cpp:1071-1077 | A block's spends may be added one at a time in any order |
| LelantusUndo.RunTracked | src/lelantus.cpp:1201-1242 | After any chain the latest group's last block is the last block with mints, its first block is not after it, and tags and tails belong to known coins and groups |
| LelantusUndo.LookBack | src/lelantus.cpp:1299-1312 | Looking back from a new block, the search finds nothing of the previous group if the block joined the latest group, and the coins of that group's last block if it started the next one; the search for the last block finds the recorded one |
| LelantusUndo.JoinUndone | src/lelantus.cpp:1314-1329 | A block whose mints joined a group: rolling back restores the groups, or removes the first group with its first block, and no assert fails |
| LelantusUndo.StartUndone | src/lelantus.cpp:1299-1329 | A block that started a group: rolling back restores the groups if the edge test recognises it, and otherwise an assert fails |
| LelantusUndo.CoinsUndone | src/lelantus.cpp:1056-1069 | Removing the block's mints restores coins, tags and mint counts |
| LelantusUndo.SpendsUndone | src/lelantus.cpp:1079-1086 | Removing the block's serials, in any order, restores the used serials and the spend counts, ignored spends included |
| LelantusUndo.StepUndone | src/lelantus.cpp:1281-1350 | Disconnecting a block just connected gives back the state before it up to zero counters exactly when the block's group can be undone; otherwise an assert fails |
| LelantusUndo.RunUndone | src/lelantus.cpp:1281-1350 | The same after every chain, the condition being the edge test's own guard: the block started no group, or the coins it shares without those of the previous group's last block are fewer than startGroupSize |
| LelantusUndo.UndoFails | src/lelantus.cpp:1311-1328 | The condition can fail at the node's own limits of 65000 and 16000 coins: after 8124 blocks of eight coins and one of a single coin, a block of eight more starts the second group and cannot be disconnected |
| LelantusUndo.RunOneTag | src/lelantus.cpp:1056-1063 | In a chain of new coins no coin ever has two tags, so which tag RemoveMint finds first does not matter |
| LelantusState.CoinState.constructor | src/lelantus.cpp:1166-1175 | A new state is empty and its flag is right |
| LelantusState.CoinState.AddMint | src/lelantus.cpp:1049-1054 | Does the specified update and recomputes the flag |
| LelantusState.CoinState.AddSpend | src/lelantus.cpp:1071-1077 | Counts a spend of a group with mints and ignores any other; the flag stays right |
| LelantusState.CoinState.AddExtendedMints | src/lelantus.cpp:1088-1091 | Records the shared tail and recomputes the flag |
| LelantusState.CoinState.AddAllMints | src/lelantus.cpp:1232-1241 | The loop adds all mints as specified |
| LelantusState.CoinState.AddAllSpends | src/lelantus.cpp:868-871 | In whatever order the serials come, the state ends as the order-free specification says |
| LelantusState.CoinState.CountLastNCoins | src/lelantus.cpp:1681-1703 | The loop over earlier blocks gives the specified count and first block |
| LelantusState.CoinState.JoinGroup | src/lelantus.cpp:1205-1219 | Joining a group meets the source's asserts and does the specified update |
| LelantusState.CoinState.StartGroup | src/lelantus.cpp:1220-1230 | A new group shares the specified tail of the group before |
| LelantusState.CoinState.ChooseGroup | src/lelantus.cpp:1201-1230 | In every reachable state the choice is the specified one and no assert fails |
| LelantusState.CoinState.AddMintsToStateAndBlockIndex | src/lelantus.cpp:1177-1242 | State and index entry are the specified ones |
| LelantusState.CoinState.ConnectBlock | src/lelantus.cpp:837-935 | Connecting a block is the specified step, spends first |
| LelantusState.CoinState.AddBlockGroup | src/lelantus.cpp:1249-1273 | Reading one group of an index entry is the specified step |
| LelantusState.CoinState.AddBlock | src/lelantus.cpp:1248-1279 | Reading an index entry is the specified step over its groups in ascending order |
| LelantusState.CoinState.Build | src/lelantus.cpp:1013-1023 | The loop over the chain gives the specified rebuilt state |
| LelantusState.CoinState.RemoveMint | src/lelantus.cpp:1056-1069 | Removes the coin, its tag and its count; the flag stays right |
| LelantusState.CoinState.RemoveSpend | src/lelantus.cpp:1079-1086 | Removes the serial and its count; the flag stays right |
| LelantusState.CoinState.RemoveExtendedMints | src/lelantus.cpp:1093-1096 | Forgets the shared tail; the flag stays right |
| LelantusState.CoinState.FindPrevMints | src/lelantus.cpp:1301-1309 | The backward search gives the count the edge test uses |
| LelantusState.CoinState.FindLast | src/lelantus.cpp:1325-1328 | The backward search gives the group's previous last block, or fails where the source asserts |
| LelantusState.CoinState.RemoveBlockGroup | src/lelantus.cpp:1283-1330 | Fails exactly where an assert of the source does, and otherwise does the specified roll back of one group |
| LelantusState.CoinState.RemoveBlockMints | src/lelantus.cpp:1332-1344 | Fails exactly when a coin is missing or of another group, and otherwise removes the mints |
| LelantusState.CoinState.RemoveBlockSpends | src/lelantus.cpp:1346-1349 | Removes every serial of the block, in some order |
| LelantusState.CoinState.RemoveBlock | src/lelantus.cpp:1281-1350 | The three loops together do the specified disconnection, and fail exactly when it does |
| LelantusState.ConnectAll | src/lelantus.cpp:837-935 | Connecting a chain block by block gives the specified state and index |
| LelantusState.ConnectAndRebuild | src/lelantus.cpp:1013-1023 | A connected state and a second one rebuilt from the index it filled: equal if and only if the first block with mints fits and there is no late spend, and therefore for every chain whose spends name existing groups; the flag means what SurgeExact says |
| LelantusState.ConnectAndRemove | src/lelantus.cpp:1281-1350 | A block connected and disconnected after any chain of new coins: succeeds if and only if its group can be undone, and then leaves the state as before up to zero counters with the right flag |
| Limbs.ValSplit | src/arith_uint256.h:24-33 | A number's value is that of its low limbs plus that of its high limbs, scaled |
| Shifts.OrDisjoint | src/arith_uint256.cpp:30-33 | Or-ing numbers without a common bit adds them |
| Shifts.LeftValue | src/arith_uint256.cpp:21-36 | Limbs assembled from shifted neighbours are the product with a power of two modulo the width, for every shift, even past the width |
| Shifts.RightValue | src/arith_uint256.cpp:38-53 | Limbs assembled from shifted neighbours are exactly the quotient by a power of two |
| Shifts.HighestDecides | src/arith_uint256.cpp:109-119 | The highest limb that differs decides the comparison of the values |
| Shifts.BitsOfLimb | src/arith_uint256.cpp:172-185 | The highest limb's highest bit gives the bit length of the value |
| Shifts.SetBitValue | src/arith_uint256.cpp:100-100 | Or-ing in a bit of a number that has no bit there or below adds that power of two |
| Arith.BaseUint.Zero | src/arith_uint256.h:33-37 | A new number of any width of at least two limbs is 0 |
| Arith.BaseUint.Copy | src/arith_uint256.h:39-43 | A copy has the same limbs in storage of its own |
| Arith.BaseUint.Add | src/arith_uint256.h:136-146 | The sum modulo the width, also when a number is added to itself |
| Arith.BaseUint.Complement | src/arith_uint256.h:70-76 | The largest number minus the value |
| Arith.BaseUint.Increment | src/arith_uint256.h:174-181 | One more modulo the width, although the loop stops at the first limb without carry |
| Arith.BaseUint.Negate | src/arith_uint256.h:78-85 | The additive inverse modulo the width |
| Arith.BaseUint.Subtract | src/arith_uint256.h:148-152 | The difference modulo the width, also of a number from itself |
| Arith.BaseUint.MultiplySmall | src/arith_uint256.cpp:55-65 | The product with a 32-bit number modulo the width; no 64-bit intermediate overflows |
| Arith.BaseUint.AddRow | src/arith_uint256.cpp:73-78 | One row of the long multiplication adds the multiple of b as far as it fits, and its carry is exactly what does not |
| Arith.BaseUint.Multiply | src/arith_uint256.cpp:67-81 | The product modulo the width of two different objects; a number multiplied by itself in place becomes 0, since it is cleared before the operand is read |
| Arith.BaseUint.Clear | src/arith_uint256.cpp:25-26 | All limbs are 0 |
| Arith.BaseUint.ShiftLeft | src/arith_uint256.cpp:21-36 | The product with a power of two modulo the width |
| Arith.BaseUint.ShiftRight | src/arith_uint256.cpp:38-53 | The quotient by a power of two, rounded down |
| Arith.BaseUint.CompareTo | src/arith_uint256.cpp:109-119 | The sign of the comparison of the values |
| Arith.BaseUint.Bits | src/arith_uint256.cpp:172-185 | The bit length of the value |
| Arith.BaseUint.SetBit | src/arith_uint256.cpp:100-100 | Adds a power of two whose bit and those below are clear |
| Arith.DivideStep | src/arith_uint256.cpp:97-104 | One turn of shift-and-subtract keeps dividend = quotient times divisor plus rest, with the rest below the divisor shifted to the current place |
| Arith.BaseUint.Divide | src/arith_uint256.cpp:83-107 | The quotient rounded down; division by zero fails and leaves 0, as the exception does |
| Arith.BaseUint.DivideBit | src/arith_uint256.cpp:98-103 | One turn of the loop on the limbs: the quotient's bit, the rest and the divisor shifted back |
| Arith.BaseUint.Assign | src/arith_uint256.h:89-96 | Takes the value of a 64-bit number |
| CompactForm.TargetFits | src/arith_uint256.cpp:238-241 | The three comparisons behind the overflow flag hold exactly for the targets that need more than 256 bits |
| Arith.BaseUint.SetCompact | src/arith_uint256.cpp:225-243 | The number is the encoded target modulo 2^256; the overflow flag is raised exactly when the target does not fit, the negative flag exactly for a nonzero mantissa with the sign bit |
| Arith.BaseUint.GetLow64 | src/arith_uint256.h:249-253 | The value modulo 2^64 |
| Arith.BaseUint.TopBytes | src/arith_uint256.cpp:247-254 | The three highest of a number's bytes, shifted into place |
| Arith.BaseUint.GetCompact | src/arith_uint256.cpp:245-266 | Writes the smallest number of bytes that leaves room for a sign, the three highest of them, and the sign for a nonzero mantissa; its asserts hold |
| CompactForm.CompactSteps | src/arith_uint256.cpp:247-260 | The byte count from the bit length, raised by one exactly when the mantissa's highest bit is taken, is the smallest that leaves room for a sign |
| CompactForm.CompactValue | src/arith_uint256.cpp:223-266 | Reading a written form gives the number without its bytes below the three highest, exactly the number if those are zero, and never loses more than its 2^15-th part |
| CompactForm.CompactRoundTrip | src/arith_uint256.cpp:223-266 | Reading a nonnegative form and writing it again gives it back if and only if it is canonical: no byte more than needed and none dropped |
| Arith.ProofNumbers | src/chain.cpp:128-132 | ((2^256 - 1 - t) / (t + 1)) + 1 is 2^256 / (t + 1) for every target and does not wrap |
| Arith.ProofOf | src/chain.cpp:128-132 | The quotient on limbs, from the complement of the target and the target plus one, without forming 2^256 |
| Arith.GetBlockProof | src/chain.cpp:120-133 | Computed on limbs alone: 2^256 / (target + 1) rounded down for every accepted target and 0 for every other encoding |
| Base58.DigitsValue | src/base58.cpp:84-98 | The digits of a number in a base have that value and do not start with a zero |
| Base58.ValueDigits | src/base58.cpp:99-102 | A number has only one list of digits that does not start with a zero |
| Base58.EncodeFits | src/base58.cpp:81-83 | For every length n, n bytes fit into n*138/100+1 base-58 digits |
| Base58.DecodeFits | src/base58.cpp:34-36 | For every length n, n base-58 digits fit into n*733/1000+1 bytes |
| Base58.MultiplyAdd | src/base58.cpp:43-52 | The inner loop multiplies the buffer's number and adds a digit, stops early only when nothing is left to do, and its assert on the carry holds whenever the result fits |
| Base58.ToBase58 | src/base58.cpp:84-98 | The loop over the bytes leaves their number in base 58, the assert holding in every turn |
| Base58.ToBase256 | src/base58.cpp:37-54 | The loop over the characters up to the next space leaves their number in base 256, or finds a character outside the alphabet; the assert holds in every turn |
| Base58.SkipZeros | src/base58.cpp:99-102 | Finds the first digit that is not zero |
| Base58.SkipSpace | src/base58.cpp:24-26 | Skips exactly the spaces at the start |
| Base58.SkipOnes | src/base58.cpp:27-33 | Counts exactly the ones at the start |
| Base58.EncodeBase58 | src/base58.cpp:72-110 | Returns a one for each leading zero byte and then the base-58 digits of the rest's number |
| Base58.DecodeBase58 | src/base58.cpp:22-70 | Accepts exactly one word of alphabet characters between optional spaces, up to the terminating null, and returns a zero byte for each leading one and then the base-256 digits of the rest's number |
| Base58.DecodeEncode | src/base58.cpp:22-110 | Decoding inverts encoding on every byte string |
| Base58.EncodeDecode | src/base58.cpp:22-110 | Encoding inverts decoding on every accepted string without spaces |
| Base58.DecodedIff | src/base58.cpp:22-70 | A text decodes to a byte string if and only if it is, up to the terminating null, the encoding of that byte string with any spaces before and after it |
| Base58.EncodeBase58Check | src/base58.cpp:122-129 | Encodes the bytes followed by their check sum |
| Base58.DecodeBase58Check | src/base58.cpp:131-146 | For any check sum of four bytes: gives a byte string if and only if the text is, with any spaces around it, the encoding of that byte string followed by its check sum |
| Base58.CheckRoundTrip | src/base58.cpp:122-146 | What is encoded with its check sum is decoded again |
| Chain.InvertedOne | src/chain.cpp:69-70 | Clearing the lowest one bit subtracts exactly the power of two that divides the number no further |
| Chain.GetSkipHeight | src/chain.cpp:72-81 | The skip height is below the height and, above the first two, of the same parity |
| Chain.SkipHeightIs | src/chain.cpp:72-81 | An even height loses its lowest one bit, an odd one the two lowest above bit 0 |
| Chain.BlockIndex.Genesis | src/chain.h:296-299 | A block without predecessor is well linked |
| Chain.BlockIndex.Extend | src/chain.cpp:114-118 | A block whose skip pointer is built from its predecessor is well linked: the pointer is the ancestor at the skip height |
| Chain.BlockIndex.GetAncestor | src/chain.cpp:83-107 | Following skip pointers where they do not go too far returns exactly the block that walking back one by one reaches, and null exactly for heights that do not exist; the assert on the predecessor holds |
| Chain.BlockIndex.Reaches | src/chain.cpp:83-107 | There is exactly one ancestor at every height up to a block's own |
| Chain.BlockIndex.Onward | src/chain.cpp:83-107 | Going to an ancestor and on from there is going directly |
| Chain.BlockChain.constructor | src/chain.h:520-524 | A new chain is empty |
| Chain.BlockChain.SetTip | src/chain.cpp:11-21 | From any valid chain, every slot ends up holding the new tip's ancestor at its height, although writing stops at the first slot that is right already |
| Chain.BlockChain.FindFork | src/chain.cpp:51-60 | Returns an ancestor (or the block itself) that is in the chain, and no higher ancestor is; null exactly when none is |
| Chain.Rejoined | src/chain.cpp:17-20 | Once an old slot holds an ancestor of the new tip, all slots below it do |
| Chain.BlockChain.GetLocator | src/chain.cpp:23-49 | Of a block on or off the chain, or of the tip: the hashes of its ancestors at the distances 1 to 11 and then 9 plus the powers of two, down to the genesis block; empty exactly without any block |
| Chain.LocatorEnds | src/chain.cpp:23-49 | A locator starts with its block and ends with the genesis block |
| Chain.LocatorFalls | src/chain.cpp:23-49 | Its heights fall strictly, and it has fewer than 12 entries more than the height has bits |
| Chain.BlockChain.FindForkInGlobalIndex | src/validation.cpp:249-265 | Returns the first answer that a known hash of the locator gives, or the genesis block |
| Chain.LocatedNearFork | src/validation.cpp:249-265 | For two chains that share their blocks up to a fork, the answer to one's locator is a block on the other chain and lies less than twice as far back from the locator's start as the fork, if not above it |
| Chain.AnswerExact | src/validation.cpp:252-262 | A hash of a locator is answered with a block if and only if that is on the chain and is the named block, or is the tip and an ancestor of the named block |
| Chain.LocatedFirst | src/validation.cpp:249-265 | The search ends at the first hash with an answer, and with the genesis block if none has one |
| CuckooCache.NextLoc | src/cuckoocache.h:392-406 | The location to displace is the second of the element's eight at first, where the comment in the source says the first, and then the one after the first occurrence of the last |
| CuckooCache.NextDiffers | src/cuckoocache.h:397-401 | The element just put in is the one displaced next if and only if its location occurs in the carried element's list and again right after its first occurrence |
| CuckooCache.NextRepeats | src/cuckoocache.h:397-401 | Two equal neighbouring hashes displace the element just put in, against the comment in the source |
| CuckooCache.PutKeeps | src/cuckoocache.h:374-411 | Putting an element in one of its places keeps it and every other kept element, but one whose place it took |
| CuckooCache.UnusedPut | src/cuckoocache.h:270-275 | Changing one slot changes the count of recent kept elements by that slot alone |
| CuckooCache.Cache.Setup | src/cuckoocache.h:315-329 | A new cache keeps nothing and its counter is in step with its epoch |
| CuckooCache.Cache.EpochCheck | src/cuckoocache.h:264-296 | When the counter has run out and the recent kept elements fill an epoch, exactly the older ones become discardable and the recent ones older; otherwise no flag changes; the counter is then what is left of the epoch, but at least a sixteenth and one |
| CuckooCache.Cache.KeepIfThere | src/cuckoocache.h:374-381 | An element that is there already is kept and counts as recent, and nothing is lost |
| CuckooCache.Cache.PutIfFree | src/cuckoocache.h:383-391 | The first discardable place of the eight is taken exactly when there is one, and nothing kept is lost |
| CuckooCache.Cache.Swap | src/cuckoocache.h:403-411 | The element in the chosen place is carried on with its epoch, and no other is lost |
| CuckooCache.Cache.Place | src/cuckoocache.h:371-416 | Whatever the hashes and however long the chain of displacements, of the kept elements and the new one all are kept afterwards but at most one, and none is lost when the element was there or one of its slots was discardable; each displaced element goes to its next place exactly if none of its places is discardable, and one is lost only after as many displacements as are allowed; recent kept elements grow by at most one |
| CuckooCache.ChainGrows | src/cuckoocache.h:392-411 | One more displacement: the carried element has no discardable place, takes its next one, and what was there is carried on |
| CuckooCache.Cache.Insert | src/cuckoocache.h:368-416 | After an insert every element that was not discardable after the epoch check, and the new one, is found, except at most one; the cheap counter never lets the recent kept elements outgrow an epoch by more than a sixteenth or one |
| CuckooCache.Cache.Contains | src/cuckoocache.h:443-453 | Found exactly when one of the eight locations holds the element; erasing makes the first such slot discardable, changes nothing else and takes no element away from any later question |
| RollingBloom.WipedCell | src/bloom.cpp:362-370 | The masked words clear exactly the cells that hold the generation number, all sixty-four at once |
| RollingBloom.SetCell | src/bloom.cpp:376-380 | Setting one two-bit cell leaves every other cell alone |
| RollingBloom.NextGeneration | src/bloom.cpp:356-361 | The number given to the next generation is that of the one before the last three |
| RollingBloom.WipeRemembers | src/bloom.cpp:364-370 | Wiping for a new generation forgets none of the two generations before it |
| RollingBloom.SetRemembers | src/bloom.cpp:374-381 | Overwriting a cell with the current generation forgets no key |
| RollingBloom.Remembered | src/bloom.cpp:374-381 | A key whose cells were all just written is remembered with the others |
| RollingBloom.WipeForgets | src/bloom.cpp:362-370 | Wiping for a new generation forgets the oldest one: every cell still set has the number of a generation among the last two and belongs to a key of it |
| RollingBloom.SetForgets | src/bloom.cpp:374-381 | Setting a cell leaves every other set cell the cell of a recent key |
| RollingBloom.InsertForgets | src/bloom.cpp:374-381 | When all its cells are written the new key accounts for them |
| RollingBloom.Filter.constructor | src/bloom.cpp:322-347 | A new filter remembers nothing, has between 1 and 50 hash functions and words for at least as many cells as asked for |
| RollingBloom.Filter.Reset | src/bloom.cpp:410-418 | Clears every cell, forgets everything and hashes with the new tweak from then on |
| RollingBloom.Filter.Wipe | src/bloom.cpp:362-370 | The loop clears exactly the cells that hold the generation number |
| RollingBloom.Filter.NextGenerationStarts | src/bloom.cpp:356-371 | A full generation is closed and the oldest one's cells are cleared: the recent history stays remembered, and every cell still set is one of a key of the last two generations |
| RollingBloom.Filter.Insert | src/bloom.cpp:354-382 | The key joins the history, everything recent stays remembered, and no cell is set but those of keys of the last three generations |
| RollingBloom.Filter.Contains | src/bloom.cpp:390-402 | True if and only if each of the key's cells is a cell of some key of the last three generations; so for each of the last nElements keys inserted since the last reset and every key of the last three generations |
| RollingBloom.Filter.SetIsRecent | src/bloom.cpp:390-402 | The cells that are set are exactly those of the keys of the last three generations |
| RollingBloom.Filter.RecentEnough | src/bloom.cpp:328-330 | The last nElements keys always belong to the last three generations |
| DbOverlay.LessTotal | src/dbwrapper.h:562-571 | The order of keys, byte-wise with a prefix first, is total |
| DbOverlay.LessTransitive | src/dbwrapper.h:562-571 | The order of keys is transitive |
| DbOverlay.ViewWrite | src/dbwrapper.h:615-629 | Recording a write shows the new value at that key and changes nothing else that is shown |
| DbOverlay.ViewErase | src/dbwrapper.h:676-686 | Recording an erasure takes exactly that key out of what is shown |
| DbOverlay.WritesPut | src/dbwrapper.h:615-629 | Replacing a recorded write changes the memory total by the new entry minus the old one |
| DbOverlay.DeletesPut | src/dbwrapper.h:676-686 | Recording a deletion adds the key's size to the memory total |
| DbOverlay.Transaction.constructor | src/dbwrapper.h:608-608 | A new transaction shows its parent |
| DbOverlay.Transaction.Write | src/dbwrapper.h:615-629 | The written value is shown; writes and deletes stay disjoint and the memory count stays exact |
| DbOverlay.Transaction.Read | src/dbwrapper.h:636-653 | Returns what the transaction shows at a key |
| DbOverlay.Transaction.Exists | src/dbwrapper.h:660-670 | True exactly for the keys that are shown |
| DbOverlay.Transaction.Erase | src/dbwrapper.h:677-686 | The key is no longer shown; writes and deletes stay disjoint and the memory count stays exact |
| DbOverlay.Transaction.Clear | src/dbwrapper.h:688-692 | Forgets everything recorded, with the memory count at zero |
| DbOverlay.Transaction.Commit | src/dbwrapper.h:694-702 | In whatever order entries are applied, the parent then holds exactly what the transaction showed, and the transaction shows the same |
| DbOverlay.LowerBound | src/dbwrapper.h:440-444 | The first position whose key is not below the one asked for |
| DbOverlay.TransactionIterator.constructor | src/dbwrapper.h:420-427 | An iterator over an unmodified transaction |
| DbOverlay.TransactionIterator.SkipDeletedAndOverwritten | src/dbwrapper.h:528-536 | Moves past exactly the parent's entries that are deleted or overwritten |
| DbOverlay.TransactionIterator.DecideCur | src/dbwrapper.h:538-550 | The smaller of the two keys becomes current |
| DbOverlay.TransactionIterator.SeekToFirst | src/dbwrapper.h:428-433 | Everything the transaction shows is ahead |
| DbOverlay.TransactionIterator.Seek | src/dbwrapper.h:440-445 | Exactly the shown keys from the given one on are ahead |
| DbOverlay.TransactionIterator.LeastAhead | src/dbwrapper.h:538-550 | The current key is the least of those ahead |
| DbOverlay.TransactionIterator.Next | src/dbwrapper.h:451-465 | Leaves exactly the current key behind |
| DbOverlay.ReadAll | src/dbwrapper.h:403-551 | Iterating yields every entry the parent would hold after a commit, exactly once, in strictly increasing key order, with its value |
| CompactBlocks.FromDeltas | src/blockencodings.h:55-61 | What is read has as many indexes as there were differences, all of 16 bits |
| CompactBlocks.ReadIndexes | src/blockencodings.h:42-61 | The loops, growing the list by at most 1000 at a time, read the specified indexes or fail on one that does not fit |
| CompactBlocks.IndexRoundTrip | src/blockencodings.h:37-68 | Every increasing list of 16-bit indexes is read back as it was written |
| CompactBlocks.ReadIncreasing | src/blockencodings.h:55-61 | What is read is strictly increasing if and only if the differences before the last lead to an index below 65535, after which the offset wraps to 0; it is then what the differences lead to |
| CompactBlocks.ReadWraps | src/blockencodings.h:55-61 | The differences 65535 and 0 are read as 65535 and 0 |
| CompactBlocks.FreeSlotsExact | src/blockencodings.cpp:84-87 | The positions the scan hands out are exactly the free ones, in increasing order |
| CompactBlocks.PrefilledIncrease | src/blockencodings.cpp:60-75 | Prefilled positions strictly increase |
| CompactBlocks.SlotsPartition | src/blockencodings.cpp:58-87 | In every block that is not rejected the free positions are exactly those that are not prefilled, in increasing order and as many as there are short ids |
| CompactBlocks.PositionsExact | src/blockencodings.cpp:82-87 | The 16-bit positions kept with the short ids are the true ones if and only if the block has at most 65536 transactions or no short ids |
| CompactBlocks.MappedCount | src/blockencodings.cpp:101-104 | The map has as many ids as the list if and only if no two collide, and then leads from each id to its 16-bit position |
| CompactBlocks.AllFull | src/blockencodings.cpp:60-86 | An accepted message with 65536 prefilled transactions has exactly that many, and they fill every slot the first scan looks at |
| CompactBlocks.ScanNeverEnds | src/blockencodings.cpp:82-86 | Such a message with one short id is accepted, and its 16-bit scan goes round without finding a free slot |
| CompactBlocks.PartiallyDownloadedBlock.constructor | src/blockencodings.h:194-202 | Starts without a header and without slots |
| CompactBlocks.PartiallyDownloadedBlock.PlacePrefilled | src/blockencodings.cpp:60-76 | Accepts exactly the prefilled lists whose transactions are not null and whose positions leave a short id for every gap, and puts each transaction in its slot |
| CompactBlocks.PartiallyDownloadedBlock.NextFree | src/blockencodings.cpp:85-86 | For every message that is not rejected the scan for a free slot ends, with one inside the block, if and only if there are fewer than 65536 prefilled transactions |
| CompactBlocks.PartiallyDownloadedBlock.MapShortIds | src/blockencodings.cpp:82-100 | For every message that is not rejected: all scans end if and only if there are fewer than 65536 prefilled transactions or no short ids; it succeeds exactly if no bucket gets too crowded, and each short id is then mapped to the 16-bit position of its free slot, in order |
| CompactBlocks.PartiallyDownloadedBlock.SearchTxs | src/blockencodings.cpp:106-165 | The loop over the memory pool or the extra transactions fills, empties and counts slots as specified: it goes on from what was seen to these transactions, up to the first with which every mapped position has one, and each slot then holds what all transactions met for it agree on |
| CompactBlocks.SearchHeld | src/blockencodings.cpp:106-165 | However many transactions share an id, every slot is afterwards as it was placed, or empty, or holds a known transaction with an id that was mapped to it |
| CompactBlocks.VerdictMore | src/blockencodings.cpp:106-165 | One more transaction for a position: the first is taken, a second of the memory pool empties it, and an extra one empties it unless it is the same transaction |
| CompactBlocks.SearchExact | src/blockencodings.cpp:106-165 | However many transactions share an id: each slot holds what all transactions met for it agree on, the count is the number of slots found, and the search stops exactly at the first transaction with which every mapped position is found |
| CompactBlocks.AllSearched | src/blockencodings.cpp:106-165 | So for the two searches together |
| CompactBlocks.KnownFound | src/blockencodings.cpp:106-165 | A known transaction that alone leads to a position is found there, however early the search stops |
| CompactBlocks.AllKnownHeld | src/blockencodings.cpp:82-165 | In every accepted message of at most 65536 transactions a known transaction that alone has a slot's id is in that slot |
| CompactBlocks.ExactFound | src/blockencodings.cpp:82-165 | With at most 65536 transactions, or no short ids, that id is the slot's own |
| CompactBlocks.PartiallyDownloadedBlock.InitData | src/blockencodings.cpp:50-170 | For every message: it returns if and only if the message is unacceptable or its scans end, is Invalid exactly for unacceptable messages and succeeds exactly if no bucket gets too crowded and ids do not collide; prefilled transactions are then in their slots, every other slot holds what the known transactions with an id mapped to it agree on, and up to 65536 transactions the only known transaction with a slot's own id is in it |
| CompactBlocks.PartiallyDownloadedBlock.FillBlock | src/blockencodings.cpp:178-199 | Invalid for a wrong number of transactions; otherwise the empty slots are filled with them in order, the others are kept, and the object can not be used again |
| CompactBlocks.EncodedSlots | src/blockencodings.cpp:20-30 | A block sent by the constructor has its coinbase in slot 0 and short ids for all other slots in order |
| CompactBlocks.Reconstructed | src/blockencodings.cpp:178-192 | If no known transaction shares a short id with a different one of the block, filling in the requested transactions gives back the block |
| CompactBlocks.Relay | src/blockencodings.cpp:20-199 | The whole exchange ends with a block of the original length exactly if no bucket gets too crowded and no short ids collide, and otherwise with the finding that it must be asked for in full; for at most 65536 transactions the block is exactly the original |
| CompactBlocks.RelayFails | src/blockencodings.cpp:82-165 | With more transactions it is not: a receiver that knows transaction 65536 of any such block puts it in slot 0 |

## Left out

- CompactBlocks.PartiallyDownloadedBlock.InitData: a run that does not end is reported by a result of its own, since every modelled method ends.
- CompactBlocks.PartiallyDownloadedBlock.MapShortIds: whether a bucket of the hash map gets too crowded at an id is an arbitrary function of the id's number.
- CompactBlocks.Relay: for blocks the message format can carry, whose transactions share no short id with a different known one; the counters extra_count and prefilled_count are left out.
- AddrManager.AddrMan.Good: for times after the epoch, as any clock of the program gives; with time 0 a tried entry would look never tried to the consistency check.
- AddrManager.AddrMan.Attempt: for times not before the epoch.
- AddrFile.Unserialize: the byte stream itself and the key are not modelled; loading is into a new manager, because clearing one leaves its entry maps filled.
- AddrLoad.LoadConsistent: the condition is sufficient, not exact, because a file with an address twice may still load into a consistent manager, when the second of two tried entries finds its slot taken.
- Merkle.PartialMerkleTree.constructor: for at least one transaction, as the code reads the first id in any case; the matched ids and their indexes are returned as one list of pairs, of which the code clears only the ids.
- Merkle.Soundness: for a list of as many transactions as the peer claims; a wrong count is not excluded by the root alone.
- LelantusUndo.RunUndone: for blocks whose coins, tags and serials are new, as block validation guarantees; counters that drop to zero stay in the maps.
- LelantusState.CoinState.RemoveMint: for states in which no coin has two tags, which LelantusUndo.RunOneTag proves of every chain of new coins.
- RollingBloom.Filter.constructor: the two numbers that the code computes from the false-positive rate in floating point are parameters.
- Chain.BlockChain.GetLocator: the step is an unbounded integer; a C int would overflow after the last step for heights above 2^30.
- CuckooCache.Cache.Setup: for any positive size and depth instead of powers of two from a floating-point logarithm; flags are booleans instead of bits in atomic bytes, and concurrent use is not modelled.
- Coins: best block hashes, database write failures, HaveInputs and GetValueIn; coins are added and spent through the topmost cache, as the node does.
- CheckQueue: that a Wait is eventually answered (liveness), and CCheckQueueControl.
- AddrManager: choosing an address to connect to (Select_), whose end is only probable and which uses floating point.
- Miner: what fees, priorities, byte and signature-operation counts decide is arbitrary functions of the step, so nothing is said about the size of a template or its fees.
- Miner.CreateNewBlock: that a private spend is in the template is stated for pools with room for all private spends, because a rejected spend stays counted and may keep out a later one; which spends then get in depends on the order.
- LelantusState: proofs, anonymity-set hashes, mobile data, the mempool's serials, and clearing the state, which leaves the shared tails.
- Arith: hexadecimal text, bitwise operators and conversion to floating point.
- Base58: addresses and keys; the hash of the check sum is any function to four bytes; buffer sizes are unbounded integers instead of C ints.
- Chain: the search by time, and how many steps an ancestor takes.
- DbOverlay: the commit target is the parent; typed values and stream conversions are left out.
- Bitwise operations on 64-bit words of the rolling filter are on sequences of 64 booleans, and coin scripts carry their memory usage as a number.
- Start-up, RPC, network, wallet, masternodes, sporks' own rules, script and proof verification: input and output or cryptography around the modelled core.
