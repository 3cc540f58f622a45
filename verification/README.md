# Verified models of a Bitcoin-derived node's core structures

This project models the data structures and codecs at the centre of the node and
proves what they are for: what every operation of a structure keeps, over every
sequence of operations; that a fast or layered form has the same meaning as a plain
one; and that encoders and decoders are inverse.

Objects that the node updates in place are classes here, with the same fields,
arrays and loops, and each of their methods is proved against a function of the
old state. What the node relies on is then proved about those functions.

| files | subject |
|---|---|
| `AddrBook`, `AddrMan` | the peer address manager: five cross-linked indexes, reference counts, buckets |
| `CoinLayers`, `CoinsCache` | the layered cache of unspent outputs |
| `CoinsDb`, `CoinsReplay` | its database, with batches cut short and recovery by rolling blocks forward |
| `CheckQueue` | the parallel script-check queue, as a state machine over its mutex-held regions |
| `CuckooModel`, `CuckooCache` | the cuckoo signature cache: displacement, lazy erasure, epochs |
| `RollingBloom` | the rolling Bloom filter on packed two-bit cells |
| `KeyOrder`, `DbTransaction`, `DbIterator` | stackable database transactions and their merging iterator |
| `Limbs`, `Arith256`, `Compact` | 256-bit limb arithmetic, compact targets, block proof |
| `SkipHeights`, `Chain` | skip-list ancestry and its cost, the active chain, locators |
| `Radix`, `Base58` | base58 text with its digit buffers |
| `Bech32`, `Field1024`, `Bech32Errors` | Bech32 text (BIP 173), its checksum and the errors that detects |
| `BitStream`, `Serialize`, `Gcs` | bit streams, counts, Golomb-coded set filters (BIP 158) |
| `CompactBlocks` | compact block reconstruction (BIP 152) |
| `Nonlinear`, `Options` | arithmetic facts and an option type shared by the rest |

Hashes, random draws, clock readings, memory-pool contents and the block check are
parameters. Integers are unbounded except where a width matters: limbs, 64-bit
values in filters and streams, packed cells, 30-bit checksums and 16-bit indexes.
`char` stands for a byte in text.

## Where the code differs from what is said about it

- Cuckoo cache: on the first displacement the code evicts the element at the second
  location, not the first as its comment says, because the search for "no previous
  location" ends one past the last (`src/cuckoocache.h:414-437`, `FirstDisplaced`).
- Cuckoo cache: the number of flag bytes is rounded up in 32 bits, which wraps for the
  seven largest sizes and leaves no flags at all, although up to 2^32 - 2 elements are
  promised (`src/cuckoocache.h:59-66`, `BitPackedFlags`, `NoRoomExample`).
- Coins: `AddCoin` keeps a layer sound exactly when an overwrite is allowed or no coin
  is visible; `AddIff` states this and `AddMisused` shows what follows otherwise. Of the
  documented entry states, the one for a spent, unmodified, fresh entry never occurs,
  because a parent never yields a spent coin.
- Address manager: the branch of `ResolveCollisions_` for "not a collision anymore" and
  the bail-out of `Good_` for an entry in no bucket are unreachable, and `Add_` answers
  true for a new address even when it is dropped at once for lack of a slot;
  `AddFirstKept` states exactly when, `AddDroppedExample` shows it.
- Rolling Bloom filter: the filter remembers the last two full generations and the
  current one, which is more than the documented minimum.
- Golomb-coded sets: a filter over more than 0x02000000 elements is built but cannot be
  read, because reading the count has a limit that writing it does not. So a match is
  answered exactly when the set is within that limit (`MatchInternal`,
  `BuildThenMatch`, and `LimitExample` for a count just above it). A filter read from
  bytes whose codes sum to 2^64 or more has values out of order, and a match can miss
  one (`SortedIff`, `MeetsExactIff`, `WrappedExample`).
- Division: a zero divisor is reported after the dividend has been set to zero
  (`src/arith_uint256.cpp:83-93`).
- `FindEarliestAtLeast` compares the largest time so far, not the block's own time, as
  its description suggests (`src/chain.cpp:62-68`); `OwnTimeIff` states exactly when the
  two agree and `OwnTimeFails` shows a chain where they do not.
- `FillBlock` given too few transactions leaves the object started, with the entries it
  has passed moved out (`src/blockencodings.cpp:190-198`).

## Model

| member | source | states |
|---|---|---|
| AddrBook.UnrefKeeps | src/addrman.cpp:148-161 | Giving up one "new" slot keeps every index consistent and forgets only an id that held no other slot. |
| AddrBook.PlaceKeeps | src/addrman.cpp:332-350 | Placing an id in its hashed "new" slot, or dropping it for lack of one, keeps the whole invariant. |
| AddrBook.PromoteKeeps | src/addrman.cpp:163-209 | Moving an id to "tried", with eviction of the incumbent back to "new", keeps the whole invariant and the recorded collisions. |
| AddrBook.PromoteMoves | src/addrman.cpp:163-209 | A promotion changes one "tried" slot, leaves the evicted id exactly one "new" slot, and forgets an address only when it takes that slot from an id that had no other. |
| AddrBook.GoodKeeps | src/addrman.cpp:211-279 | A successful connection keeps the invariant; without testing before eviction it records no collision. |
| AddrBook.AddKeeps | src/addrman.cpp:281-352 | Adding an address, new or known, routable or not, keeps the invariant, ids only grow and "tried" slots stay occupied. |
| AddrBook.AddFirstKept | src/addrman.cpp:281-352 | For a routable address not yet known the answer is true, and the address is kept if and only if its slot is free, or held by a terrible entry, or by one that has another slot; otherwise only the id counter changes. |
| AddrBook.AddDroppedExample | src/addrman.cpp:281-352 | Starting empty, a second address for an occupied slot is answered true and forgotten at once. |
| AddrBook.TouchKeeps | src/addrman.cpp:354-374 | Changing only the statistics of an entry keeps the invariant. |
| AddrBook.ResolveOneKeeps | src/addrman.cpp:577-634 | Deciding one recorded collision keeps the invariant. |
| AddrBook.ResolveAllKeeps | src/addrman.cpp:577-634 | Deciding all of them, in increasing order of id, keeps the invariant. |
| AddrBook.StepKeeps | src/addrman.cpp:211-661 | Every public operation keeps the invariant and the history properties. |
| AddrBook.RunKeeps | src/addrman.cpp:211-661 | So does every sequence of operations. |
| AddrBook.ReachableInv | src/addrman.cpp:424-498 | After every sequence of operations from an empty manager: 1 to 8 "new" slots for each untried id and none for a tried id, every id in exactly one table and in the slots its hash gives, one id per normalised address, at most 10 collisions. |
| AddrBook.ReachableEvolves | src/addrman.cpp:163-279 | Between any two points of a run, ids are never reused and a "tried" slot once occupied is never empty again. |
| AddrBook.CollisionHasIncumbent | src/addrman.cpp:577-661 | For every recorded collision still known, the contested "tried" slot is occupied by a known id, after any sequence of operations. |
| AddrMan.SizesAgree | src/addrman.cpp:424-498 | The random order, the two counters and the table of ids agree in size. |
| AddrMan.StochasticTest | src/addrman.cpp:318-324 | The doubling loop accepts a draw exactly when it is divisible by two to the number of references. |
| AddrMan.AddrMan.constructor | src/addrman.h:561-583 | An empty manager satisfies the invariant. |
| AddrMan.AddrMan.Find | src/addrman.cpp:74-90 | Lookup through the address index agrees with searching all entries by normalised address. |
| AddrMan.AddrMan.Create | src/addrman.cpp:92-107 | A new id is filed in all indexes. |
| AddrMan.AddrMan.SwapRandom | src/addrman.cpp:109-127 | Two places of the random order are exchanged and their back references follow. |
| AddrMan.AddrMan.Delete | src/addrman.cpp:129-146 | An unreferenced id leaves every index. |
| AddrMan.AddrMan.ClearNew | src/addrman.cpp:148-161 | A "new" slot is given up, with the id deleted when it was its last. |
| AddrMan.AddrMan.MakeTried | src/addrman.cpp:163-209 | The bucket scan, eviction and counter updates amount to one promotion. |
| AddrMan.AddrMan.FindBucket | src/addrman.cpp:240-250 | The circular search from a random start finds a bucket that holds the id exactly when there is one. |
| AddrMan.AddrMan.Good_ | src/addrman.cpp:211-279 | All indexes, counts and statistics change as the reference operation says. |
| AddrMan.AddrMan.PlaceInNew | src/addrman.cpp:332-350 | Slot takeover, reference counts and deletion amount to one placement. |
| AddrMan.AddrMan.Add_ | src/addrman.cpp:281-352 | State and answer are those of the reference operation, for every address, source, penalty and draw. |
| AddrMan.AddrMan.Attempt_ | src/addrman.cpp:354-374 | Only the attempt statistics of exactly this service change. |
| AddrMan.AddrMan.Connected_ | src/addrman.cpp:522-540 | Only the time of exactly this service changes, and only when older than the interval. |
| AddrMan.AddrMan.SetServices_ | src/addrman.cpp:542-558 | Only the services of exactly this service change. |
| AddrMan.AddrMan.ResolveOneCollision | src/addrman.cpp:581-632 | The nested decision for one collision is the reference decision. |
| AddrMan.AddrMan.ResolveCollisions_ | src/addrman.cpp:577-634 | The loop over a shrinking set decides each collision once. |
| AddrMan.AddrMan.SelectTriedCollision_ | src/addrman.cpp:636-661 | A random recorded collision yields the incumbent of its slot, never a lookup of id -1, or is dropped when it is unknown. |
| AddrMan.AddrMan.GetAddr_ | src/addrman.cpp:501-520 | The answer is within the size limits, has no repeats and no entry terrible at the time it was looked at, and omits only such entries of those it looked at; the book is unchanged though the random order is shuffled. |
| AddrMan.AddrMan.Execute | src/addrman.cpp:211-661 | Any sequence of operations on the five indexes equals the sequence on the reference book. |
| CoinLayers.FetchKeeps | src/coins.cpp:42-57 | Caching a lookup keeps the layer sound and changes no visible coin. |
| CoinLayers.AddIff | src/coins.cpp:68-100 | Adding a coin keeps the layer sound if and only if an overwrite is allowed or no coin is visible there. |
| CoinLayers.AddView | src/coins.cpp:68-100 | Adding makes exactly that coin visible. |
| CoinLayers.AddMisused | src/coins.cpp:68-100 | Adding over a visible coin without leave and spending it brings the old coin back. |
| CoinLayers.SpendKeeps | src/coins.cpp:114-128 | Spending hides exactly that coin and keeps the layer sound, whether the entry is erased or marked. |
| CoinLayers.UncacheKeeps | src/coins.cpp:224-231 | Dropping an unmodified entry changes no visible coin. |
| CoinLayers.MergeKeeps | src/coins.cpp:161-215 | Merging a sound child layer never meets a misapplied flag, keeps the parent sound and makes it show what the child showed. |
| CoinLayers.WriteKeeps | src/txdb.cpp:77-136 | Writing a sound layer to the database makes the database equal to what the layer showed. |
| CoinLayers.TotalUpdate | src/coins.cpp:68-128 | How the summed memory use of cached coins changes with one entry. |
| CoinsCache.AddedOutputsIff | src/coins.cpp:102-112 | Outputs added without looking them up keep the layer sound if and only if they may overwrite or none of them was visible; the view has them in any case. |
| CoinsCache.CoinsView.FetchCoin | src/coins.cpp:42-57 | A lookup through any number of layers caches what it finds and changes no view. |
| CoinsCache.CoinsView.GetCoin | src/coins.cpp:59-66 | The coin found is the one visible through the whole stack. |
| CoinsCache.CoinsView.AddCoin | src/coins.cpp:68-100 | Exactly when it throws, with the memory counter as that leaves it; otherwise the new entry, its flags and the view; and a sound layer stays sound exactly when overwriting is allowed or nothing was visible. |
| CoinsCache.CoinsView.AddCoins | src/coins.cpp:102-112 | With the overwrite check every output is added. Without it, it throws exactly when an output that may not be overwritten is cached, having added those before the first such; otherwise the view is the flat map with the outputs, and the cache is sound exactly when they may overwrite or none was visible. |
| CoinsCache.CoinsView.SpendCoin | src/coins.cpp:114-128 | The view loses exactly that coin, and the answer says whether it was visible or already cached. |
| CoinsCache.CoinsView.AccessCoin | src/coins.cpp:132-139 | The visible coin or the empty one. |
| CoinsCache.CoinsView.HaveCoin | src/coins.cpp:141-144 | Whether a coin is visible. |
| CoinsCache.CoinsView.Uncache | src/coins.cpp:224-231 | No view changes. |
| CoinsCache.CoinsView.BatchWrite | src/coins.cpp:161-215 | The loop over the child's entries merges all of them, or throws exactly when a flag is misapplied, leaving some of the entries merged, none of those misapplied, and an exact memory counter. |
| CoinsCache.CoinsView.MergeOne | src/coins.cpp:163-211 | The case analysis for one child entry. |
| CoinsCache.CoinsView.WriteDatabase | src/txdb.cpp:102-126 | The loop over the entries writes coins and erases spent ones. |
| CoinsCache.CoinsView.Flush | src/coins.cpp:217-222 | Afterwards the layer below shows what this one showed, and this one is empty with zero usage. |
| CoinsCache.CoinsView.FlushAll | src/coins.cpp:217-222 | Flushing a stack of any depth leaves the database equal to what the top showed. |
| CoinsCache.CoinsView.Execute | src/coins.cpp:42-231 | Any sequence of adds, spends, lookups, uncaching and flushes between any layers leaves the top view equal to the flat map with the same adds and spends; every layer stays sound and its usage counter exact. |
| CoinsDb.WrittenTwice | src/txdb.cpp:102-126 | Writing one part of a layer and then another part, overlapping or not, writes both. |
| CoinsDb.MidwayMarked | src/txdb.cpp:77-136 | Wherever a write stops, the disk is untouched or names the block the write goes to and the one it comes from. |
| CoinsDb.MidwayEnds | src/txdb.cpp:77-136 | Writing a layer over any state in which its write stopped gives what writing it over the first state gives. |
| CoinsDb.Database.BatchWrite | src/txdb.cpp:77-136 | In batches of any size: finished, the coins, the best block and no marker; stopped before any write, nothing or a marked part of the entries. |
| CoinsDb.Database.WriteUntilDone | src/txdb.cpp:77-136 | However often a write is cut short and taken up again, finishing it leaves what an undisturbed write would. |
| CoinsReplay.RollsToEnd | src/validation.cpp:4783-4884 | Rolling blocks forward over a database that has any part of their changes gives what rolling them forward over the first state gives. |
| CoinsReplay.PartBetween | src/txdb.cpp:102-126 | A layer that would finish a transition leaves, written in part, every outpoint as it was or as it shall be. |
| CoinsReplay.RollforwardBlock | src/validation.cpp:4783-4809 | Spending and adding through a cache, where either may have been done before, shows the plain coin set after the block. |
| CoinsReplay.ReplayBlocks | src/validation.cpp:4868-4880 | The cache that is flushed brings the coins on disk to the state after all the blocks. |
| CoinsReplay.Restart | src/validation.cpp:4811-4884 | One restart finishes the transition, or is cut short in a state from which the next can. |
| CoinsReplay.FlushAndRecover | src/validation.cpp:4811-4884 | With a crash during a flush and any number of crashes during recovery, the database ends as it was or exactly after the blocks, and no marker is left. |
| CheckQueue.TakeBatch | src/checkqueue.h:112-119 | The swap loop takes the last checks of the queue, in reverse, and leaves the rest. |
| CheckQueue.BatchSize | src/checkqueue.h:107-112 | A batch has at least one check and never more than are queued. |
| CheckQueue.AddKeeps | src/checkqueue.h:166-179 | Adding checks keeps the invariant. |
| CheckQueue.NotifyKeeps | src/checkqueue.h:181-185 | Waking one or all workers keeps the invariant. |
| CheckQueue.EnterKeeps | src/checkqueue.h:85-121 | Entering the loop keeps the invariant, for master and worker. |
| CheckQueue.WakeKeeps | src/checkqueue.h:90-121 | Waking up, wanted or spurious, keeps the invariant. |
| CheckQueue.WorkKeeps | src/checkqueue.h:123-127 | Evaluating one check outside the mutex keeps the invariant. |
| CheckQueue.FinishKeeps | src/checkqueue.h:76-121 | Reporting a batch, and waking the master after the last, keeps the invariant. |
| CheckQueue.NextKeeps | src/checkqueue.h:68-186 | Every atomic step of every thread keeps the invariant: the count of work left equals queued plus in-flight checks, idle and total counts are right, no failure is lost, and the master never sleeps un-notified with nothing left. |
| CheckQueue.RunInv | src/checkqueue.h:68-186 | The invariant holds at every point of every interleaving. |
| CheckQueue.StepConserves | src/checkqueue.h:68-186 | Every atomic step moves checks between queue, threads and the finished, and neither loses nor repeats one. |
| CheckQueue.Conserved | src/checkqueue.h:68-186 | At every point of every interleaving a check has been added as often as it is queued, held by a thread and finished, so each is taken exactly once. |
| CheckQueue.WaitTriedAll | src/checkqueue.h:90-163 | When Wait answers, every check has been gone through exactly as often as it was added, evaluated or skipped after a failure. |
| CheckQueue.WaitAnswersRight | src/checkqueue.h:90-163 | Each Wait answers true exactly when every check added since the Wait before is true. |
| CheckQueue.WaitAdvances | src/checkqueue.h:68-130 | While the master waits, every step changes nothing or lessens the work left. |
| CheckQueue.WaitEnabled | src/checkqueue.h:68-130 | While the master waits, some thread can always take a step that brings the end nearer. |
| CheckQueue.WaitBounded | src/checkqueue.h:68-130 | The number of steps that change anything during a Wait is bounded by the work at its start. |
| CuckooModel.InsertExchanges | src/cuckoocache.h:391-439 | An insert leaves the contents alone when the element is there, and otherwise adds it and drops exactly one element, a discardable one or the last displaced. |
| CuckooModel.ChainExchanges | src/cuckoocache.h:405-438 | A displacement chain of any depth exchanges exactly one element. |
| CuckooModel.FirstDisplaced | src/cuckoocache.h:414-437 | The first displacement goes to the second location, which is the first, as the comment says, exactly when the two coincide. |
| CuckooModel.InsertHomed | src/cuckoocache.h:391-439 | Every stored element stays at one of its own eight locations. |
| CuckooModel.StoredIsFound | src/cuckoocache.h:468-478 | So every stored element is found. |
| CuckooModel.InsertLoad | src/cuckoocache.h:391-439 | An insert adds at most one live element of the current epoch and none of the older. |
| CuckooModel.AgedLive | src/cuckoocache.h:303-310 | Ageing empties the current epoch into the older and discards the older. |
| CuckooModel.LoadInsert | src/cuckoocache.h:287-319 | With the epoch check first, the current epoch stays within its size and the slack of the countdown, although the table is scanned only when the countdown ends. |
| CuckooModel.StepShape | src/cuckoocache.h:287-478 | Every operation leaves the tables with one entry per slot. |
| CuckooModel.StepOk | src/cuckoocache.h:287-478 | Every operation keeps elements at home and both load bounds. |
| CuckooModel.RunOk | src/cuckoocache.h:287-478 | After every sequence of operations live elements of the current epoch number at most the epoch size plus max(1, 1/16 of it), and all live elements at most twice that. |
| CuckooCache.ChangeOneBit | src/cuckoocache.h:89-113 | Setting or clearing a packed flag changes that flag only. |
| CuckooCache.BitsSet | src/cuckoocache.h:89-113 | The same for the whole packed array. |
| CuckooCache.BitPackedFlags.constructor | src/cuckoocache.h:59-66 | All flags start as discardable, and there is room for the size if and only if rounding it up does not pass 32 bits. |
| CuckooCache.NoRoomExample | src/cuckoocache.h:59-66 | For 2^32 - 2 entries there is no flag at all. |
| CuckooCache.BitPackedFlags.BitSet | src/cuckoocache.h:89-92 | One flag is set. |
| CuckooCache.BitPackedFlags.BitUnset | src/cuckoocache.h:100-103 | One flag is cleared. |
| CuckooCache.BitPackedFlags.BitIsSet | src/cuckoocache.h:110-113 | The flag as last set. |
| CuckooCache.Cache.Setup | src/cuckoocache.h:338-351 | The sizes and the empty, all-discardable table, usable if and only if the flags have room for the size. |
| CuckooCache.Cache.CountUnused | src/cuckoocache.h:295-298 | The scan counts the live elements of the current epoch. |
| CuckooCache.Cache.EpochCheck | src/cuckoocache.h:287-319 | Countdown, scan and ageing are the reference epoch check. |
| CuckooCache.Cache.Contains | src/cuckoocache.h:468-478 | The answer, and the flag change when erasing. |
| CuckooCache.Cache.Insert | src/cuckoocache.h:391-439 | The in-place insert is the reference insert after the epoch check. |
| CuckooCache.Cache.Displace | src/cuckoocache.h:405-438 | The loop that swaps elements along is the reference chain. |
| RollingBloom.PutCellGet | src/bloom.cpp:349-356 | Writing a two-bit cell changes that cell only. |
| RollingBloom.WipePairGet | src/bloom.cpp:338-345 | The mask arithmetic on a word pair clears exactly the cells with the given label. |
| RollingBloom.AdvanceKeeps | src/bloom.cpp:331-347 | Starting a generation keeps the two before it and wipes the one before those. |
| RollingBloom.FileKeeps | src/bloom.cpp:348-357 | Filing a key keeps the cells of all remembered keys at labels that still count. |
| RollingBloom.RollingBloomFilter.Reset | src/bloom.cpp:386-392 | The filter is empty again. |
| RollingBloom.RollingBloomFilter.Wipe | src/bloom.cpp:338-346 | The loop over word pairs wipes one label everywhere. |
| RollingBloom.RollingBloomFilter.FileKey | src/bloom.cpp:348-357 | Every cell of the key gets the current label and no other cell changes. |
| RollingBloom.RollingBloomFilter.Insert | src/bloom.cpp:329-358 | The history grows by the key and the remembered part is right again, across generation changes. |
| RollingBloom.RollingBloomFilter.Contains | src/bloom.cpp:366-378 | The answer is whether all cells of the key are set, and it is true for each of the last two generations' worth of keys plus those of the current one. |
| KeyOrder.FindLeast | src/dbwrapper.h:434-458 | The least key of a set that passes a bound. |
| KeyOrder.LeastUnique | src/dbwrapper.h:532-544 | There is only one such key, so a position is determined. |
| KeyOrder.LeastNext | src/dbwrapper.h:445-458 | Moving the bound past the least key passes over that key only. |
| DbTransaction.OverlayWrite | src/dbwrapper.h:610-623 | A recorded write changes the overlaid map at its key only. |
| DbTransaction.OverlayErase | src/dbwrapper.h:671-680 | A recorded erase removes its key only. |
| DbTransaction.Transaction.Begin | src/dbwrapper.h:598-602 | A new transaction on a parent, with any commit target, shows its parent. |
| DbTransaction.Transaction.Write | src/dbwrapper.h:610-623 | The view has the value; writes and deletes stay disjoint and the memory count exact. |
| DbTransaction.Transaction.Read | src/dbwrapper.h:631-647 | The value in the overlaid view, through any depth. |
| DbTransaction.Transaction.Exists | src/dbwrapper.h:654-664 | Whether the overlaid view has the key. |
| DbTransaction.Transaction.Erase | src/dbwrapper.h:671-680 | The view loses the key; writes and deletes stay disjoint and the memory count exact. |
| DbTransaction.Transaction.Clear | src/dbwrapper.h:682-686 | The view is the parent's again. |
| DbTransaction.Transaction.Commit | src/dbwrapper.h:688-696 | The commit target has the recorded writes and deletes over what it showed, and this transaction is empty; if the target is the parent, no view of this transaction changes. |
| DbIterator.MergeLeast | src/dbwrapper.h:532-544 | The lesser of the two cursors is the least key of the union. |
| DbIterator.TxIterator.StandsOnLeast | src/dbwrapper.h:396-545 | The iterator stands on the least key of the overlaid view within its bound, for transactions stacked to any depth. |
| DbIterator.TxIterator.SamePosition | src/dbwrapper.h:396-545 | Iterators over the same keys with the same bound stand at the same key, however the keys are split into transactions. |
| DbIterator.TxIterator.ValidIsCurrent | src/dbwrapper.h:441-443 | It is valid exactly when there is such a key. |
| DbIterator.TxIterator.SkipDeletedAndOverwritten | src/dbwrapper.h:522-530 | The parent is moved past exactly the keys that are deleted or overwritten here. |
| DbIterator.TxIterator.DecideCur | src/dbwrapper.h:532-544 | The side with the lesser key is chosen. |
| DbIterator.TxIterator.Seek | src/dbwrapper.h:434-439 | Seeking stands on the least visible key not below the one given. |
| DbIterator.TxIterator.SeekToFirst | src/dbwrapper.h:422-427 | Or on the least of all. |
| DbIterator.TxIterator.Next | src/dbwrapper.h:445-458 | Next moves to the least visible key after the current one. |
| DbIterator.TxIterator.Collect | src/dbwrapper.h:396-545 | Seek and repeated Next visit exactly the visible keys from the start on, once each, in strictly increasing order, with the values that Read gives. |
| Limbs.OrIsPlus | src/arith_uint256.cpp:20-52 | Or-ing numbers without a bit in common adds them. |
| Limbs.ShiftParts | src/arith_uint256.cpp:20-35 | The two parts of a shifted limb make up the shifted value. |
| Arith256.BaseUint.Assign | src/arith_uint256.h:85-92 | The value is the 64-bit number given. |
| Arith256.BaseUint.GetLow64 | src/arith_uint256.h:242-246 | The value modulo 2^64. |
| Arith256.BaseUint.AddAssign | src/arith_uint256.h:132-142 | The sum modulo 2^256, also when the operands are one object. |
| Arith256.BaseUint.SubAssign | src/arith_uint256.h:144-148 | The difference modulo 2^256. |
| Arith256.BaseUint.Negate | src/arith_uint256.h:74-81 | The two's complement. |
| Arith256.BaseUint.Complement | src/arith_uint256.h:66-72 | 2^256 - 1 minus the value. |
| Arith256.BaseUint.Increment | src/arith_uint256.h:170-177 | Plus one modulo 2^256. |
| Arith256.BaseUint.Decrement | src/arith_uint256.h:187-194 | Minus one modulo 2^256. |
| Arith256.BaseUint.CompareTo | src/arith_uint256.cpp:109-118 | The order of the values. |
| Arith256.BaseUint.Bits | src/arith_uint256.cpp:171-183 | The position of the highest set bit plus one. |
| Arith256.BaseUint.ShiftLeftAssign | src/arith_uint256.cpp:20-35 | The value times 2^shift modulo 2^256, for every shift. |
| Arith256.BaseUint.ShiftRightAssign | src/arith_uint256.cpp:37-52 | The value divided by 2^shift, for every shift. |
| Arith256.BaseUint.MultiplyAssign | src/arith_uint256.cpp:66-80 | The product modulo 2^256, with no 64-bit step overflowing. |
| Arith256.BaseUint.AddRow | src/arith_uint256.cpp:70-77 | One row of the product, with what falls off the top accounted for. |
| Arith256.BaseUint.DivideAssign | src/arith_uint256.cpp:82-106 | The quotient rounded down for every nonzero divisor, and an error with a zero result otherwise. |
| Arith256.BaseUint.DivideStep | src/arith_uint256.cpp:96-103 | One quotient bit keeps quotient times divisor plus remainder equal to the dividend. |
| Compact.SetCompact | src/arith_uint256.cpp:203-221 | The value and both flags, for every 32-bit word. |
| Compact.GetCompact | src/arith_uint256.cpp:223-244 | The compact word, with both assertions of the source met. |
| Compact.PartsUnique | src/arith_uint256.cpp:223-244 | Mantissa and exponent are the only ones that represent the number. |
| Compact.RoundTrip | src/arith_uint256.cpp:203-244 | Writing and reading raises no wrong flag, never exceeds the number, is off by less than one unit of the last digit and less than one part in 2^15, and is a fixed point. |
| Compact.Monotone | src/arith_uint256.cpp:223-244 | Larger numbers have larger compact words. |
| Compact.RewriteIff | src/arith_uint256.cpp:203-244 | Reading and writing restores a word if and only if it is canonical. |
| Compact.EncodeCanonical | src/arith_uint256.cpp:223-244 | Every word written is canonical. |
| Compact.TargetIncrements | src/chain.cpp:122-135 | A target without the overflow flag can be incremented without wrapping. |
| Compact.GetBlockProof | src/chain.cpp:122-135 | For a proof-of-stake block with a valid target the result is 2^256 / (target + 1) rounded down; 1 for other valid blocks, 0 otherwise. |
| Compact.WorkOrder | src/chain.cpp:122-135 | A smaller target is at least as much work. |
| Compact.WorkPositive | src/chain.cpp:122-135 | Work is zero exactly for a flagged or zero target. |
| SkipHeights.ClearsLowestOne | src/chain.cpp:71-71 | The lowest set bit is cleared and nothing else. |
| SkipHeights.GetSkipHeight | src/chain.cpp:74-82 | The height skipped to is always lower. |
| SkipHeights.ClearLow | src/chain.cpp:71-82 | Clearing the lowest bit below the highest one in which height and goal differ stays above the goal and clears that bit only; with none there it goes to the goal or below. |
| SkipHeights.PrevBetter | src/chain.cpp:93-99 | The parent's skip is preferred only next to a bit of value 2 or 4, so a walk gains at most one bit by it. |
| SkipHeights.StepsBounded | src/chain.cpp:84-109 | The walk from any height to any lower one takes at most the cost of the bits to clear and of the levels below. |
| SkipHeights.StepsLogarithmic | src/chain.cpp:77-80 | Below height 2^n a walk takes at most n*n/4 + 2n + 1 steps, which is 118 for the 2^18 blocks of the comment. |
| Chain.BlockIndex.GetAncestor | src/chain.cpp:84-109 | The walk over skip pointers reaches the block that following parents reaches, or null outside the range, in as many steps as the walk over heights when every skip pointer is built. |
| Chain.BlockIndex.BuildSkip | src/chain.cpp:116-120 | The new skip pointer makes the block's whole branch walkable, and keeps every skip pointer of it built. |
| Chain.LastCommonAncestor | src/chain.cpp:156-171 | The highest block on both branches, or null if there is none; the final assertion holds. |
| Chain.ActiveChain.ContainsIff | src/chain.h:451-453 | Looking only at a block's own height decides whether it is an ancestor of the tip. |
| Chain.ActiveChain.SetTip | src/chain.cpp:11-21 | Despite the early exit, every entry is the tip's ancestor at its height. |
| Chain.ActiveChain.FindFork | src/chain.cpp:51-60 | The highest block of the chain that is an ancestor of the one given, or null. |
| Chain.ActiveChain.FindEarliestAtLeast | src/chain.cpp:62-68 | The lowest block at or above a height by which the time was reached, or null if there is none. |
| Chain.OwnTimeIff | src/chain.cpp:62-68 | The answer is the earliest block whose own time is not before the one asked for if and only if the height is at or below 0, or above the chain, or the time is not reached below it, or the block at that height has it itself. |
| Chain.OwnTimeFails | src/chain.cpp:62-68 | With times 100 and 50, the block with time 50 is the answer for time 100 at height 1. |
| Chain.OwnTimeExample | src/chain.cpp:62-68 | Such a chain can be built, and the search on it gives that block. |
| Chain.ActiveChain.GetLocator | src/chain.cpp:23-49 | Entry i is the ancestor i lower up to the tenth and then at doubling distances, down to the genesis block. |
| Chain.LocatorDescends | src/chain.cpp:23-49 | Heights fall strictly, from the start to 0. |
| Chain.LocatorLength | src/chain.cpp:23-49 | A locator has height + 1 entries up to height 10 and 11 + ceil(log2(height - 9)) above, so at most 11 + k whenever height + 1 <= 2^k. |
| Radix.ConvertBack | src/base58.cpp:36-123 | Changing base and back, leading zeros included, restores the digits. |
| Radix.ValueDigits | src/base58.cpp:75-82 | Digits without a leading zero are the shortest digits of their value. |
| Base58.EncodeFits | src/base58.cpp:94-96 | The encoder's buffer size suffices for every length. |
| Base58.DecodeFits | src/base58.cpp:48-50 | The decoder's buffer size suffices for every length. |
| Base58.Absorb | src/base58.cpp:56-64 | The carry loop multiplies and adds in place and ends without carry. |
| Base58.EncodeBase58 | src/base58.cpp:85-123 | The text for every byte string. |
| Base58.DecodeBase58 | src/base58.cpp:36-83 | The bytes, or failure, for every text: leading ones, spaces around it, characters outside the alphabet, embedded zero bytes. |
| Base58.DecodeEncode | src/base58.cpp:36-123 | Decoding undoes encoding for every byte string. |
| Base58.EncodeDecode | src/base58.cpp:36-123 | Encoding undoes decoding for every text in the alphabet. |
| Base58.DecodeIff | src/base58.cpp:36-136 | A text decodes to a byte string if and only if, without the spaces around it, it is its encoding. |
| Base58.EncodeBase58Check | src/base58.cpp:138-145 | The encoding of payload and checksum. |
| Base58.DecodeBase58Check | src/base58.cpp:147-170 | The payload, if long enough and its checksum is right. |
| Base58.CheckIff | src/base58.cpp:138-170 | A payload is accepted if and only if the text is its checked encoding. |
| Bech32.StepLinear | src/bech32.cpp:74-88 | One step of the remainder is linear over exclusive or. |
| Bech32.StepInjective | src/bech32.cpp:74-88 | Multiplying by x loses nothing. |
| Bech32.PolyMod | src/bech32.cpp:33-90 | The loop computes the remainder of the whole list. |
| Bech32.ChecksumVerifies | src/bech32.cpp:114-135 | The checksum completes any list to remainder 1. |
| Bech32.ChecksumUnique | src/bech32.cpp:114-135 | And it is the only six values that do. |
| Bech32.BurstDetected | src/bech32.cpp:33-90 | Lists that differ only within six consecutive values never have the same remainder. |
| Bech32.BurstRejected | src/bech32.cpp:114-121 | So a valid list with any such change, in particular one changed value, is not valid. |
| Field1024.ShiftIsProduct | src/bech32.cpp:40-45 | Shifting a register n times is multiplying by the n-th power of the generator z of GF(1024). |
| Field1024.NoShortPeriod | src/bech32.cpp:40-45 | No power of z below the 1023rd leaves anything but zero in its place. |
| Bech32Errors.StepValue | src/bech32.cpp:60-88 | At z^24, z^25 and z^26 one checksum step takes the remainder's value through the field's own multiply and add, so these are roots of the generator. |
| Bech32Errors.RunValue | src/bech32.cpp:33-90 | A remainder has the value of the whole list at every root. |
| Bech32Errors.ThreeTerms | src/bech32.cpp:40-45 | Three terms less than 1023 apart that vanish together with their first two moments are all zero. |
| Bech32Errors.ErrorsDetected | src/bech32.cpp:40-45 | Two lists that differ in up to three places within a window of 1023 never have the same remainder. |
| Bech32Errors.ErrorsRejected | src/bech32.cpp:114-121 | A valid list with up to three values changed within such a window is no longer valid. |
| Bech32.ExpandHRP | src/bech32.cpp:99-111 | The expanded prefix. |
| Bech32.VerifyChecksum | src/bech32.cpp:114-121 | Whether the remainder is 1. |
| Bech32.CreateChecksum | src/bech32.cpp:124-135 | The checksum values. |
| Bech32.Encode | src/bech32.cpp:143-156 | The text for a prefix without upper-case letters and 5-bit values. |
| Bech32.Decode | src/bech32.cpp:159-190 | The prefix and values, or failure, for every text. |
| Bech32.DecodeIff | src/bech32.cpp:143-190 | A text decodes to a prefix and values if and only if it is their encoding, in one case, at most 90 characters long, with a printable lower-case prefix. |
| Bech32.RoundTripIff | src/bech32.cpp:143-190 | Decoding undoes encoding exactly when the prefix is not empty and printable and the text is short enough, also when the prefix contains '1'. |
| BitStream.BitStreamWriter.Write | src/streams.h:567-581 | The low bits of a value are appended, across byte boundaries; a number of bits outside 0 to 64 is an error and appends nothing. |
| BitStream.BitStreamWriter.Flush | src/streams.h:587-595 | Fewer than eight zero bits are added to make whole bytes. |
| BitStream.BitStreamReader.Read | src/streams.h:519-538 | The next bits as a number, or an error exactly when too few are left or their number is outside 0 to 64. |
| BitStream.Chunk | src/streams.h:572-575 | Shifting to the top and down again leaves the top bits in place. |
| Serialize.CountReadsBack | src/serialize.h:287-349 | A 64-bit count reads back, whatever follows, if and only if it is within the limit. |
| Serialize.LimitExample | src/serialize.h:319-349 | The count 0x02000001 is written but cannot be read. |
| Gcs.ReadsBack | src/blockfilter.cpp:26-55 | A Golomb-Rice code decodes to the number encoded, whatever follows. |
| Gcs.GolombRiceEncode | src/blockfilter.cpp:26-41 | The code of the number is appended, with a unary part of any length. |
| Gcs.GolombRiceDecode | src/blockfilter.cpp:43-55 | The number, in 64 bits, of the code in front, or an error exactly when there is none. |
| Gcs.HighHalf | src/blockfilter.cpp:62-86 | The product of 32-bit halves gives the upper 64 bits of the whole product. |
| Gcs.HalvesFit | src/blockfilter.cpp:62-86 | No step of it needs more than 64 bits, and the result is in range. |
| Gcs.BuildHashedSet | src/blockfilter.cpp:96-105 | The hashes sorted, none added or lost. |
| Gcs.Build | src/blockfilter.cpp:134-162 | The encoding holds exactly the sorted hashes; 2^32 elements or more are refused. |
| Gcs.OrderedIff | src/blockfilter.cpp:174-178 | The running sums of codes, in 64 bits, are in order if and only if the codes sum to less than 2^64. |
| Gcs.SortedIff | src/blockfilter.cpp:111-132 | The same for every filter, whatever bytes it was read from. |
| Gcs.SortedMeets | src/blockfilter.cpp:174-191 | On values in order one pass over both lists finds exactly whether they have a value in common. |
| Gcs.MeetsExactIff | src/blockfilter.cpp:174-191 | It does so for every list of query hashes, which are below f, if and only if each value below f occurs with no greater one before it. |
| Gcs.WrappedMisses | src/blockfilter.cpp:174-191 | The codes of 5 and 2^64 - 2, whatever follows, give the values 5 and 3, and the pass misses the 3. |
| Gcs.MatchInternal | src/blockfilter.cpp:164-194 | For every filter, built or read: an error exactly when the count cannot be read; otherwise true exactly when a hash equals a value with no greater one before it, which for values in order is whether they have one in common. |
| Gcs.Match | src/blockfilter.cpp:196-200 | Whether the element's hash is among the values in that sense, and among the values at all when they are in order. |
| Gcs.MatchAny | src/blockfilter.cpp:202-206 | The same for some hash of a set of queries. |
| Gcs.BuildThenMatch | src/blockfilter.cpp:134-206 | From elements to bits and back, a match is answered exactly when two hashes coincide, so no common element is missed. |
| Gcs.FromEncoded | src/blockfilter.cpp:111-132 | An encoding is accepted exactly when its count is readable, that many codes follow and no whole byte is left; the filter can then be matched. |
| Gcs.EncodingReads | src/blockfilter.cpp:111-162 | Every filter's own encoding is accepted, exactly up to the limit on the count, and its values are the sorted hashes. |
| Gcs.WrappedExample | src/blockfilter.cpp:111-200 | Those codes as bytes are accepted as a filter, and matching an element that hashes to 3 answers false. |
| CompactBlocks.PartiallyDownloadedBlock.Prefill | src/blockencodings.cpp:62-80 | Prefilled transactions are accepted exactly when none is null or out of range, and then sit at their decoded positions and nowhere else. |
| CompactBlocks.MapSlots | src/blockencodings.cpp:86-108 | The i-th short id gets the i-th position left over, with no access out of range; repeated ids or an overfull bucket fail. |
| CompactBlocks.PartiallyDownloadedBlock.Consider | src/blockencodings.cpp:113-163 | What one transaction on hand does to the slots and the count. |
| CompactBlocks.PartiallyDownloadedBlock.Scan | src/blockencodings.cpp:110-168 | A pass over a list, with its early exit, keeps every slot right. |
| CompactBlocks.PartiallyDownloadedBlock.InitData | src/blockencodings.cpp:52-173 | Exactly which messages are invalid or failed; on success prefilled transactions are in place, slots hold offers with their short id and are empty only when none or several have it, and the count is that of filled slots. |
| CompactBlocks.PartiallyDownloadedBlock.FillBlock | src/blockencodings.cpp:181-225 | The block completed in order, or invalid for any other number of transactions, with what is left of the object in each case. |
| CompactBlocks.Rebuilds | src/blockencodings.cpp:181-225 | The missing transactions in order give the original block if and only if everything on hand is the block's own at that position. |
| CompactBlocks.InitialisedRebuilds | src/blockencodings.cpp:52-225 | After a successful start this holds whenever no transaction on hand shares a short id with another of the block. |
| CompactBlocks.HonestRebuild | src/blockencodings.cpp:21-225 | A message made from a block rebuilds that block under the same condition. |
| CompactBlocks.MakeMessage | src/blockencodings.cpp:21-32 | The coinbase whole and the short ids of the rest in order. |
| CompactBlocks.PartiallyDownloadedBlock.RequestMissing | src/net_processing.cpp:3489-3493 | The positions still empty, in order. |
| CompactBlocks.SendBlockTransactions | src/net_processing.cpp:1847-1860 | The transactions at the positions asked for, or none exactly when one is beyond the block. |
| CompactBlocks.SendIndexes | src/blockencodings.h:39-49 | Positions written as differences read back as they were. |
| CompactBlocks.Relay | src/blockencodings.cpp:21-225 | A whole exchange, from a block to its message, the request, the answer and the completed block: which messages are refused, and that the result is the block if and only if everything found on hand was genuine, as it is without short id collisions. |
| CompactBlocks.DifferenceFormatter.Ser | src/blockencodings.h:22-28 | The gap written, or an error exactly for a value out of order or at the limit. |
| CompactBlocks.DifferenceFormatter.Unser | src/blockencodings.h:29-36 | The value read, or an error exactly when it does not fit, 64-bit wrap-around included. |
| CompactBlocks.SerAll | src/blockencodings.h:17-49 | A list is written exactly when it is strictly increasing and below the largest 64-bit number. |
| CompactBlocks.UnserAll | src/blockencodings.h:17-49 | What is read has those gaps, and when reading fails no increasing list within range has them, for every unsigned type up to 64 bits. |

## Left out

- Select_ and GetChance of the address manager: they depend on floating-point chance and do not change state.
- Serialising and loading the address manager: the stream format is not modelled, and loading files addresses by their raw port.
- Clear of the address manager after use: it does not reset the recorded collisions, so runs start from the constructor.
- The rule of Check_ that a tried entry has a nonzero last success: it depends on the times callers pass.
- Best-block tracking of the coins cache: it is copied along; the database's record of it is in `CoinsDb`.
- CoinsCache.CoinsView.WriteDatabase: the coins only, because batches and the markers between them are stated by CoinsDb.Database.BatchWrite.
- CoinsReplay.ReplayBlocks: special transactions and the second database they go to, because only coins are modelled.
- CoinsDb.Database.WriteUntilDone: each attempt has the same changes to write; that recovery finds them again by replaying blocks is stated by CoinsReplay.FlushAndRecover.
- Memory use of real containers: a coin's use is a function of the coin.
- StopWorkerThreads of the check queue: no stop request is made during the modelled interleavings.
- CheckQueue.WaitBounded: it bounds steps that change something; that the scheduler lets an enabled thread go is assumed by no lemma.
- Memory ordering of the cuckoo cache's atomic flags: operations are taken one at a time.
- CuckooCache.Cache.Setup: the depth limit is a parameter, because the source takes it from a floating-point logarithm of the size; every result holds for any limit.
- Sizing of the Bloom filter from a false-positive rate: the number of hash functions and words are parameters.
- DbTransaction.Transaction.Read: the exception for a type other than the one written, and decoding errors, because keys and values are byte strings here.
- Multiplying by a 32-bit number, bitwise and, or, exclusive or, hexadecimal and floating-point conversion of 256-bit numbers: easier than what is modelled.
- GetBlockProofEquivalentTime and the summing of chain work: they follow from the arithmetic modelled.
- Bech32Errors.ErrorsDetected: detection of a fourth error within 89 characters is not proved, because it rests on a search over error patterns and not on the roots.
- Golomb-Rice parameters of 64 or more: the stream classes refuse more than 64 bits and a shift by 64 is undefined in the source.
- Gcs.BuildHashedSet: the library sort is modelled by insertion.
- The count of extra transactions in compact blocks: it is only logged.
- The bucket check on the short-id table: which tables are too uneven depends on the library and is a parameter.
- CompactBlocks.PartiallyDownloadedBlock.InitData: messages have at most 65535 transactions, as deserialisation ensures.
- Hash functions, key handling, scripts, networking, storage engines, logging and configuration.
