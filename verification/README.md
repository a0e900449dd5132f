# Verification of the node's data-structure and arithmetic kernel

A Dafny model of the parts of the node that are self-contained, stateful or tight on bounds, with proofs that
they do what they are for. `dafny verify dfyconfig.toml` checks everything.

| files | what they model |
|---|---|
| Coins, CoinsView, CoinsViewCache | the layered cache of unspent outputs with its DIRTY and FRESH flags |
| AddrManState, AddrManOps, AddrManHandout, AddrManTimes, AddrManQuality, AddrManReports, CAddrMan | the address manager: tables, indexes, counts, what it hands out, the history and quality of entries |
| AddrManDisk, AddrManSerializer, AddrManRecovery | writing the address manager to disk and reading it back, and reading files no writer left so |
| CheckQueue | the script-check queue as atomic steps of one master and any number of workers |
| Denominations, CoinSelection, ChangeSelection | coin selection over denominations that each divide the next |
| CuckooCache, CuckooPaths | the cuckoo cache with its garbage flags and epochs, and the path of an insertion |
| Base58 | radix conversion in place, checksums, versioned data |
| Limbs, ArithUint256, CompactTarget | 256-bit arithmetic on 32-bit limbs, and the compact target format |
| Compressor, CoinsSerializer, WireFormats | variable-length integers, compressed amounts and scripts, the coins record, and what the bytes mean |
| Chain | the active chain over the block tree, locators, median time past |
| MasternodePayments | the payment votes and their tally |
| Budget, BudgetRules, CBudgetManager | votes, proposals, the greedy budget, finalized budgets, permanent vetoes |
| Prelude, Arith, Powers | shared types and facts about numbers |

Where the code changes state, there are two layers: functions on values say what a step does to the whole state,
and a class with the code's own fields has methods that are proved to take exactly these steps. The theorems are
about the values: what each step keeps, what a whole run guarantees, what a step undoes.

Hashes, random numbers, signatures, the clock, the network's parameters and the state of other components are
arbitrary functions or inputs. A sort from the standard library is a function or an input that meets the sort's
contract, and a std::map is walked in ascending order of its keys or, where the order does not matter, in any.

Some results differ from what the code or its comments suggest:

- Add_ reports an address as added even when it drops it again (`AddrManOps.NewEntryStays`, `AddrManOps.AddedButDropped`).
- An element just inserted into the cuckoo cache can be the one that is pushed out (`CuckooState.InsertedIsLost`; exactly when:
  `CuckooState.InsertedIsFound`).
- The cuckoo cache's epoch size is computed in 32 bits and wraps for very large tables (`CuckooState.EpochSizeIsShare`).
- Multiplying a 256-bit number by itself in place gives 0 (`ArithUint256.BaseUint.MulAssign`).
- Division by zero clears the dividend before it is reported (`ArithUint256.BaseUint.DivAssign`).
- A coins record with a negative version or height, or an amount whose code wraps, does not come back
  (`CoinsSerializer.RoundTripsExactly`, `Compressor.SurvivesIffFits`).
- Not every address file that is read to its end loads a manager that passes the consistency check: two records for one
  address can leave an entry that is no longer found by its address (`AddrManRecovery.SharedAddressIsLost`), and a
  negative count stays in its counter (`AddrManRecovery.NegativeCountFails`); exactly when: `AddrManRecovery.FilesLoadExactly`.
- A budget submitted just before the veto fork height can contain a payment that is vetoed at its own block, and is
  then invalid (`Budget.SubmittedButInvalid`; exactly when: `Budget.SubmittedBudgetIsValid`).

## Model

| member | source | states |
|---|---|---|
| Coins.Cleanup | src/coins.h:120-126 | pops null outputs off the end and nothing else |
| Coins.Spend | src/coins.cpp:36-52 | succeeds exactly on an available output; afterwards that one alone is unavailable, the rest is unchanged, and the undo record carries the metadata exactly when the coins are now pruned |
| CoinsView.HaveCoinsMeansShown | src/coins.cpp:143-151 | looking only at whether `vout` is empty answers whether anything is unspent, since every cached entry is clean |
| CoinsView.FetchChangesNothing | src/coins.cpp:86-102 | a read through a stack of any depth keeps the invariant and changes what no layer shows, although it fills caches on the way |
| CoinsView.ModifyEditsOneTxid | src/coins.cpp:114-131 | an edit through a modifier changes what the top layer shows for its own txid, to the cleaned-up coins written, and nothing else in any layer |
| CoinsView.EndModifyShows | src/coins.cpp:269-277 | dropping a fresh pruned entry and keeping any other one show the same: the written coins, absent if pruned |
| CoinsView.FlushAssertHolds | src/coins.cpp:165-200 | the assertion inside BatchWrite holds for every dirty entry of every reachable child |
| CoinsView.MergeShows | src/coins.cpp:165-200 | entry by entry, merging a child cache into its parent leaves the parent showing what the child showed, with flags that are right for the layer below |
| CoinsView.WriteBackShows | src/txdb.cpp:56-75 | writing dirty entries to the database and erasing pruned ones leaves it showing what the cache showed |
| CoinsView.FlushHandsDown | src/coins.cpp:202-207 | after a flush the layer below shows what the top layer showed, the top still shows it, and no other layer moves |
| CoinsView.StepRefinesPlainStep | src/coins.cpp:86-207 | every step of a stack is the corresponding step on one plain map per layer |
| CoinsView.RunsRefinePlainMaps | src/coins.cpp:86-207 | over any run of reads, edits, flushes, pushed and dropped layers the stack behaves as one plain map per layer, keeps the flag invariant, and never trips the assertion |
| CoinsViewCache.CCoinsViewDB.BatchWrite | src/txdb.cpp:56-75 | the database applies dirty entries and erases those that are pruned |
| CoinsViewCache.CCoinsViewCache.FetchCoins | src/coins.cpp:86-102 | the object and the layers below it make the transition that the model prescribes, and the answer is what was looked up |
| CoinsViewCache.CCoinsViewCache.GetCoins | src/coins.cpp:104-112 | returns what the stack holds for the txid |
| CoinsViewCache.CCoinsViewCache.HaveCoins | src/coins.cpp:143-151 | returns whether anything unspent is shown |
| CoinsViewCache.CCoinsViewCache.ModifyCoins | src/coins.cpp:114-131 | hands out a dirty entry, fresh exactly when nothing below shows anything |
| CoinsViewCache.CCoinsViewCache.ReleaseModifier | src/coins.cpp:269-277 | cleans up the entry, and erases it if it is fresh and pruned |
| CoinsViewCache.CCoinsViewCache.BatchWrite | src/coins.cpp:165-200 | merges the whole child map, entry by entry in any order |
| CoinsViewCache.CCoinsViewCache.Flush | src/coins.cpp:202-207 | pushes the layer down and empties it |
| AddrManState.CreatedKeeps | src/addrman.cpp:89-99 | a new entry keeps the three indexes mutually inverse; it is the only one that may be without references |
| AddrManState.SwappedKeeps | src/addrman.cpp:101-119 | swapping two places of vRandom keeps every index |
| AddrManState.DeletedKeeps | src/addrman.cpp:121-133 | deleting an unreferenced new entry keeps every index and the counters |
| AddrManState.DeletedSpares | src/addrman.cpp:121-133 | deleting one entry leaves each other one as it was, up to its place in vRandom |
| AddrManState.RefKeeps | src/addrman.cpp:291-306 | a reference more, in a free slot at the hash position, keeps counts equal to occurrences and at most eight |
| AddrManState.UnrefKeeps | src/addrman.cpp:135-148 | a reference less keeps counts equal to occurrences; the count was positive |
| AddrManState.ToTriedKeeps | src/addrman.cpp:191-196 | an entry without references can move to its free tried slot |
| AddrManState.FromTriedKeeps | src/addrman.cpp:168-190 | an evicted entry goes back to being new; it had no references |
| AddrManOps.ClearNewKeeps | src/addrman.cpp:135-148 | clearing a slot keeps the invariant and spares every other entry |
| AddrManOps.ClearNewLoses | src/addrman.cpp:135-148 | clearing a slot forgets its occupant exactly if that was its last reference |
| AddrManOps.EvictedKeeps | src/addrman.cpp:168-191 | eviction keeps the invariant, frees the tried slot and spares the entry being promoted |
| AddrManOps.MadeTriedKeeps | src/addrman.cpp:150-196 | MakeTried keeps the invariant, and the entry ends up tried |
| AddrManOps.MadeTriedLosesAtMostOne | src/addrman.cpp:150-196 | MakeTried loses no entry unless one held its last reference in the evicted entry's home slot; the evicted entry stays |
| AddrManOps.GoodKeeps | src/addrman.cpp:198-245 | Good_ keeps the invariant, and a known service is tried afterwards |
| AddrManOps.SomeBucketFound | src/addrman.cpp:224-239 | some bucket holds a new entry, so the exit for "no bucket found" is never taken |
| AddrManOps.FiledKeeps | src/addrman.cpp:291-312 | the last part of Add_ keeps the invariant on each of its branches, including the one that drops the new entry |
| AddrManOps.NewEntryStays | src/addrman.cpp:247-312 | Add_ returns true for an unknown routable address; the entry stays exactly if its slot is free or the occupant is terrible or has another reference |
| AddrManOps.AddedButDropped | src/addrman.cpp:291-312 | a concrete case from an empty manager in which Add_ returns true and the entry is gone |
| AddrManOps.RefreshedGrows | src/addrman.cpp:256-264 | a repeated announcement adds services, never makes an entry look older, and touches no index |
| AddrManOps.AddKeeps | src/addrman.cpp:247-313 | Add_ keeps the invariant for every address, source, penalty, clock and random draw |
| AddrManOps.ShuffledKeeps | src/addrman.cpp:451-470 | GetAddr_ keeps the invariant and hands out distinct known entries, no more than the limit |
| AddrManOps.StepKeepsInv | src/addrman.cpp:198-490 | each public operation keeps the invariant |
| AddrManOps.ReachableStatesSatisfyInv | src/addrman.cpp:374-448 | every state reached from an empty manager satisfies the invariant, whatever the hashes and random numbers |
| AddrManOps.InvPassesCheck | src/addrman.cpp:374-448 | the invariant implies every structural test of Check_, return code by return code |
| AddrManHandout.HandsOutTheGood | src/addrman.cpp:451-470 | for any draws GetAddr_ hands out distinct entries that are not terrible, up to the limit, changes nothing but places in vRandom, and below the limit has handed out every entry that is not terrible |
| AddrManTimes.StepTimes | src/addrman.cpp:198-332 | a step keeps the recorded times in order exactly if the reading it records is positive, or for an attempt not negative |
| AddrManTimes.TimelyRunsPassCheck | src/addrman.cpp:374-448 | over any run of timely steps every test of Check_ but the one on the key passes, those on recorded times included |
| AddrManTimes.StepHistory | src/addrman.cpp:198-490 | what each public operation does to the recorded attempts and times of every entry: an attempt adds one, a success starts anew, all else leaves them, also where entries move between the tables |
| AddrManTimes.AttemptsAreCounted | src/addrman.cpp:315-332 | in every state reached the attempts recorded for an entry are those reported since it came or last succeeded |
| AddrManQuality.WorthKeeping | src/addrman.cpp:34-52 | which entries are kept: just tried, or seen within thirty days, not from the future, and not given up after three attempts without success or ten with the last success a week ago |
| AddrManQuality.TerribleStays | src/addrman.cpp:34-52 | without a new report a terrible entry stays terrible as time passes |
| AddrManQuality.GoodWhileSeen | src/addrman.cpp:198-245 | after a reported success an entry is good for as long as it has been seen lately, even if it moved to the tried table |
| AddrManQuality.GivenUpAfterThree | src/addrman.cpp:315-332 | in every state reached, an entry that never succeeded is given up with the third reported attempt and not before |
| AddrManReports.ConnectedIsSeen | src/addrman.cpp:472-490 | the time of a connected entry moves only forward, to the report, and stays at most twenty minutes behind it |
| AddrManReports.RefreshedWhenBehind | src/addrman.cpp:256-261 | the time of an announced entry moves only to that of the announcement less the penalty, if it is behind by more than an hour, or a day for an address not seen within a day; and it is never left further behind |
| AddrManReports.OneDrawInTwoToTheN | src/addrman.cpp:266-283 | with n references, of 2^n equally likely draws exactly one lets a known entry try another bucket |
| AddrManReports.KnownGains | src/addrman.cpp:247-312 | a known entry gains a reference exactly if its draw succeeds and its slot for that source is free or held by a terrible other entry |
| AddrManReports.AddAnswers | src/addrman.cpp:247-313 | Add_ answers whether an address is routable and was not known; one that is not routable changes nothing |
| AddrManReports.LimitIsShare | src/addrman.cpp:453-455 | GetAddr_'s limit is the most that is within 23 percent of the entries and 2500 |
| CAddrMan.CAddrMan.Find | src/addrman.cpp:76-87 | finds the id of a known address |
| CAddrMan.CAddrMan.Create | src/addrman.cpp:89-99 | carries out the creation of an entry |
| CAddrMan.CAddrMan.SwapRandom | src/addrman.cpp:101-119 | carries out the swap; its assertions hold |
| CAddrMan.CAddrMan.Delete | src/addrman.cpp:121-133 | carries out the deletion; its assertions hold |
| CAddrMan.CAddrMan.ClearNew | src/addrman.cpp:135-148 | carries out the clearing; its assertion that the count is positive follows from the invariant |
| CAddrMan.CAddrMan.RemoveFromNew | src/addrman.cpp:152-162 | empties all slots that hold the entry; its count comes to 0 |
| CAddrMan.CAddrMan.EvictTried | src/addrman.cpp:168-190 | sends the occupant of the tried slot back to its home slot |
| CAddrMan.CAddrMan.MakeTried | src/addrman.cpp:150-196 | carries out the promotion on the arrays and keeps the invariant |
| CAddrMan.CAddrMan.Good_ | src/addrman.cpp:198-245 | carries out Good_, never taking the bail-out |
| CAddrMan.CAddrMan.FindBucket | src/addrman.cpp:224-239 | the circular search finds a bucket that holds the entry |
| CAddrMan.CAddrMan.Add_ | src/addrman.cpp:247-313 | carries out Add_ on every branch |
| CAddrMan.CAddrMan.File | src/addrman.cpp:291-312 | carries out the filing into a bucket |
| CAddrMan.CAddrMan.Attempt_ | src/addrman.cpp:315-332 | records an attempt for a known service only |
| CAddrMan.CAddrMan.Connected_ | src/addrman.cpp:472-490 | refreshes the time of a known service if it is older than twenty minutes |
| CAddrMan.CAddrMan.GetAddr_ | src/addrman.cpp:451-470 | returns recorded entries, distinct and not terrible, up to the limit; below it all that are not terrible; only places in vRandom change |
| AddrManDisk.NoMoreThanAnnounced | src/addrman.h:289-308 | the writer's two assertions: it never meets more entries than its counters announced |
| AddrManDisk.UnkIdIsIndex | src/addrman.h:289-299 | the number that the writer notes for an id is the place of its record on disk |
| AddrManDisk.OnDiskIsListing | src/addrman.h:289-308 | new entries and then tried ones are written, each once, as many as the counters say |
| AddrManDisk.NewEntryCopied | src/addrman.h:346-364 | reading a new record restores it under the next id |
| AddrManDisk.TriedEntryCopied | src/addrman.h:366-385 | reading a tried record restores it and never finds its slot taken, so none is lost |
| AddrManDisk.SlotFilled | src/addrman.h:387-403 | reading an index restores its slot: the slot is free and the count still below eight |
| AddrManDisk.NothingPruned | src/addrman.h:405-415 | under the invariant the last loop deletes nothing |
| AddrManDisk.LoadOfSave | src/addrman.h:275-421 | reading what was written gives the same manager up to the renaming of ids: same records, addresses, tables, counts and counters, nothing lost or pruned, invariant re-established |
| AddrManSerializer.Serialize | src/addrman.h:275-323 | the loops write exactly the stream of the model |
| AddrManSerializer.Unserialize | src/addrman.h:325-421 | into a newly constructed manager the loops read exactly what the model says, also for files of another version or bucket count and for negative counts; it fails exactly on a wrong key size and on a stream that ends too early |
| AddrManSerializer.Prune | src/addrman.h:405-415 | whatever the disk said, Delete's own assertions hold at each call |
| AddrManRecovery.FilesLoadExactly | src/addrman.h:325-421 | every file read to its end, of any version, bucket count, counts, records and indices, loads a manager that satisfies the invariant exactly if neither count is negative and no entry that stays shares its address with another entry, both read off the file |
| AddrManRecovery.DistinctFilesLoad | src/addrman.h:325-421 | in particular, if no two records share an address, that is so exactly if neither count is negative |
| AddrManRecovery.SharedAddressIsLost | src/addrman.h:325-421 | an old file with two records for one address leaves an entry that its address no longer finds |
| AddrManRecovery.NegativeCountFails | src/addrman.h:325-421 | a file without any record and with a count of -1 leaves a manager that fails the invariant, whatever the hashes |
| AddrManRecovery.SharedAddressMayLoad | src/addrman.h:325-421 | a shared address is harmless where one record is lost: the same tried record twice |
| CheckQueue.BatchFits | src/checkqueue.h:105-117 | a batch never exceeds the queue, so popping it is safe; beyond one check it is as large as the limit and a fair share of the queue allow |
| CheckQueue.StepKeepsInv | src/checkqueue.h:69-168 | every step of any thread keeps the invariant, and a returning Wait reports whether all checks pass |
| CheckQueue.WaitIsExact | src/checkqueue.h:69-158 | in every interleaving Wait returns true exactly when every check added since the last Wait is true, although checks are skipped after a failure |
| CheckQueue.TodoCountsOutstandingChecks | src/checkqueue.h:69-158 | nTodo is always the number of queued checks plus those taken and not merged |
| CheckQueue.MasterIsNeverStranded | src/checkqueue.h:69-158 | a master that waits un-notified waits for a batch that some worker still holds |
| CheckQueue.WorkersAreNeverStranded | src/checkqueue.h:141-158 | in no interleaving do all workers in the loop sleep un-notified while there is work |
| CheckQueue.IdleUntilNextAdd | src/checkqueue.h:164-199 | IsIdle, which the control's constructor asserts, holds from a returning Wait to the next Add |
| Denominations.ZerocoinDenomListIsChain | src/libzerocoin/Denominations.h:32 | each denomination of the list divides the next |
| Denominations.PayExactly | src/denomination_functions.cpp:99-123 | over a divisibility chain, counts worth at least a multiple of the next denomination contain counts worth exactly that multiple |
| Denominations.Exchange | src/denomination_functions.cpp:46-68 | any counts worth an amount can be traded for ones that use as many of the largest denomination as the greedy rule takes, with no more coins |
| Denominations.GreedyIffPayable | src/denomination_functions.cpp:99-123 | the greedy loop reaches the target exactly when some choice of held coins does |
| Denominations.GreedyIsFewest | src/denomination_functions.cpp:46-93 | no counts of the same amount have fewer coins than the greedy ones: among those held, or without a limit |
| Denominations.UnlimitedRest | src/denomination_functions.cpp:73-93 | without a limit, what remains is the amount modulo the smallest denomination |
| CoinSelection.GetIdealSpends | src/denomination_functions.cpp:99-123 | returns true exactly when some sub-multiset of the unused mints sums to the target; the counts are then exact and within the unused mints |
| CoinSelection.GetSpends | src/denomination_functions.cpp:128-148 | terminates, picks distinct unused mints, as many of each denomination as asked, and reports their value |
| CoinSelection.SpendCoin | src/denomination_functions.cpp:134-146 | the do-while for one denomination ends after one pass with that many distinct mints |
| CoinSelection.FewestMints | src/denomination_functions.cpp:99-148 | no distinct unused mints that sum to the target are fewer than those of getIdealSpends |
| MintSelection.SelectMintsFromList | src/denomination_functions.cpp:411-443 | if some exact spend is within the maximum, one of the fewest mints is returned, without change; else, for a positive target, nothing exactly if the change comes to no coin, and otherwise mints worth the value reported, which cover the target whenever the holdings do; nNeededSpends is positive exactly if the maximum alone is in the way of an exact spend, and is then the least number of mints of one |
| ChangeSelection.GetNumberOfCoinsUsed | src/denomination_functions.cpp:18-26 | adds up the counts |
| ChangeSelection.GetMaxDenomHeld | src/denomination_functions.cpp:31-42 | the highest denomination held |
| ChangeSelection.GetNextLowerDenomHeld | src/denomination_functions.cpp:206-217 | the highest denomination held below a given one |
| ChangeSelection.GetSpendCoins | src/denomination_functions.cpp:46-68 | uses no more than is held, never exceeds the target, is exact whenever some choice is, and takes the fewest coins for what it comes to |
| ChangeSelection.GetChange | src/denomination_functions.cpp:73-93 | comes to the amount rounded down to the smallest denomination, with the fewest coins of any counts that do |
| ChangeSelection.StuckMeansExact | src/denomination_functions.cpp:227-266 | if the pass that stops short of the target cannot be completed, then the plain pass was exact |
| ChangeSelection.Overshoot | src/denomination_functions.cpp:227-266 | the first stages of minimizeChange: as much as stays short of the target and one more of the smallest coin above what is missing; that covers the target unless the holdings do not or the fallback is exact |
| ChangeSelection.RemoveOverlap | src/denomination_functions.cpp:274-292 | cancels on both sides the coins that would come back as change; the target stays covered |
| ChangeSelection.MinimizeChange | src/denomination_functions.cpp:219-308 | settles on the alternative exactly if it has fewer coins of change and not too many spends, and otherwise on the fallback; returns the coins in its change, within what is held, the target covered if the holdings and the fallback cover it |
| ChangeSelection.ChangeFromOneCoin | src/denomination_functions.cpp:336-360 | with a coin above the target: that coin, or what minimizeChange settles on with lower ones; it covers the target and returns the change of what is used |
| ChangeSelection.ChangeFromManyCoins | src/denomination_functions.cpp:362-404 | without one: the highest coins that cover the target, or what minimizeChange settles on instead; it covers the target whenever the holdings do |
| ChangeSelection.CalculateChange | src/denomination_functions.cpp:316-405 | starts from the smallest held coin above the target if there is one; on every branch no more of a denomination than held, the target covered whenever the holdings cover it, and exactly the number of coins in the change returned |
| BitFlags.SetAndUnset | src/cuckoocache.h:51-64 | setting or clearing one bit of a byte changes no other |
| BitFlags.BitPackedAtomicFlags.constructor | src/cuckoocache.h:37-43 | all flags are set at first |
| BitFlags.BitPackedAtomicFlags.BitSet | src/cuckoocache.h:51-54 | sets one flag of the packed bytes and leaves the others |
| BitFlags.BitPackedAtomicFlags.BitUnset | src/cuckoocache.h:56-59 | clears one flag and leaves the others |
| BitFlags.BitPackedAtomicFlags.BitIsSet | src/cuckoocache.h:61-64 | reads one flag |
| CuckooState.ContainsIsMembership | src/cuckoocache.h:179-189 | for every element but the default one, looking at the eight places answers membership of the whole table |
| CuckooState.ChaseTrades | src/cuckoocache.h:161-176 | an insertion trades: the multiset of slot contents, epoch flags included, gains the new one and loses exactly one |
| CuckooState.ChaseKeepsInv | src/cuckoocache.h:161-176 | a displacement chain keeps every element at one of its places, and once |
| CuckooState.InsertedMembership | src/cuckoocache.h:149-177 | afterwards exactly the old elements and the new one are found, except for the lost one |
| CuckooState.KeptSlotsSurvive | src/cuckoocache.h:161-176 | if the chain ends at an overwritable place, everything marked to be kept is still there with its epoch flag, and so is the new element |
| CuckooState.RoomAtHome | src/cuckoocache.h:161-169 | with an overwritable place among its eight an element goes in and is found |
| CuckooState.ChaseUnused | src/cuckoocache.h:161-176 | a chain adds at most one element to the epoch |
| CuckooState.EpochSizeIsShare | src/cuckoocache.h:139 | the epoch size is 45 percent of the table exactly below 95443718 places, where the 32-bit product wraps |
| CuckooState.TurnKeepsUsed | src/cuckoocache.h:117-123 | a new epoch keeps exactly what the last one used and was to be kept |
| CuckooState.EpochCheckedKeeps | src/cuckoocache.h:108-127 | the epoch check forgets no element and restores the bound on the epoch |
| CuckooState.CheckIsDue | src/cuckoocache.h:108-127 | when the epoch check counts, when it begins a new epoch, and that it otherwise puts itself off by the least number of insertions after which the epoch may be full |
| CuckooState.InsertKeeps | src/cuckoocache.h:149-177 | an insertion keeps places, uniqueness and the bound on the epoch |
| CuckooState.ContainsKeeps | src/cuckoocache.h:179-189 | a query, erasing or not, keeps the invariant and answers membership |
| CuckooState.ContainsMarks | src/cuckoocache.h:179-189 | a query marks the place of the element to be overwritten if asked to erase, and changes nothing else |
| CuckooState.InsertMembership | src/cuckoocache.h:149-177 | one insertion by what `contains` answers: everything as before plus the new element, minus at most one; that one lay at a place that may be overwritten or the chain reached its limit, and it is the new one exactly if the insertion pushes it out |
| CuckooState.InsertedIsFound | src/cuckoocache.h:149-177 | for every depth limit, the exact condition under which a just inserted element is found, in terms of the places the chain visits |
| CuckooPaths.InsertFollowsPath | src/cuckoocache.h:149-177 | the places an insertion visits are the one path on which each element without an overwritable place goes to the place after its last one in the ring of its eight |
| CuckooPaths.StartsAtSecond | src/cuckoocache.h:149-170 | the first place visited is the second of the new element's eight |
| CuckooPaths.ChaseFollowsPath | src/cuckoocache.h:161-176 | the table then is what swapping along the path leaves, with the element in hand at its first overwritable place; or that element is lost |
| CuckooPaths.NeverStraightBack | src/cuckoocache.h:170 | an element with eight distinct places never goes straight back to where it was lifted from |
| CuckooPaths.FoundWithinTwo | src/cuckoocache.h:149-177 | with one or two swaps allowed a new element is found if the occupant it may displace has distinct places |
| CuckooState.InsertedIsKept | src/cuckoocache.h:149-177 | an element found after it went in is marked to be kept and counts for the epoch, also if it was there before |
| CuckooState.PushedOutByReturn | src/cuckoocache.h:149-177 | an insertion loses its own element only if it uses up all swaps and comes back to the place where it began |
| CuckooState.FoundAtOnce | src/cuckoocache.h:149-177 | an element that is there already, or has an overwritable place before the call, or may only swap once, or would first displace an occupant that has one, is found afterwards |
| CuckooState.NothingGoesIn | src/cuckoocache.h:149-177 | without a swap allowed an element is found afterwards exactly if it was there |
| CuckooState.LostWithinTwo | src/cuckoocache.h:149-177 | with two swaps a new element is lost exactly if neither it nor the occupant it displaces has an overwritable place, and that occupant goes back to where it was |
| CuckooState.InsertedIsLost | src/cuckoocache.h:149-177 | a concrete run: in a table of four places, the second of two insertions is not found right after it went in |
| CuckooState.RunsKeepInv | src/cuckoocache.h:101-189 | after any run of insertions and queries: elements at their places, once, and no more unused ones in an epoch than its size and a sixteenth |
| CuckooCache.Cache.constructor | src/cuckoocache.h:132-142 | an empty table, all of it overwritable |
| CuckooCache.Cache.AllowErase | src/cuckoocache.h:105 | marks one slot as garbage |
| CuckooCache.Cache.EpochCheck | src/cuckoocache.h:108-127 | carries out the epoch check |
| CuckooCache.Cache.Turn | src/cuckoocache.h:118-122 | carries out the change of epoch on the flag arrays |
| CuckooCache.Cache.FindLoc | src/cuckoocache.h:155-160 | the first of the places that holds the element |
| CuckooCache.Cache.GarbageLoc | src/cuckoocache.h:162-164 | the first of the places that may be overwritten |
| CuckooCache.Cache.Swap | src/cuckoocache.h:170-174 | element and epoch flag change places with those of a slot |
| CuckooCache.Cache.Insert | src/cuckoocache.h:149-177 | carries out an insertion |
| CuckooCache.Cache.Displace | src/cuckoocache.h:152-177 | carries out the displacement chain up to the depth limit |
| CuckooCache.Cache.Contains | src/cuckoocache.h:179-189 | answers, and marks as garbage if asked |
| Radix.ConvertBack | src/base58.cpp:22-116 | changing the base, with leading zeros kept, is undone by changing back, for all bases |
| Radix.MultiplyAdd | src/base58.cpp:42-47 | the inner loop: the digits and what is left over come to the old number times the factor plus the addend |
| Radix.Significant | src/base58.cpp:56-59 | skipping leading zeros leaves the digits the number is written with |
| Powers.RoundedLogarithm | src/base58.cpp:34 | if a^q <= b^p then m digits to base a fit into m*p/q + 1 digits to base b, for every m |
| Base58.Pow58Fits | src/base58.cpp:34 | 58^1000 <= 256^733 |
| Base58.Pow256Fits | src/base58.cpp:92 | 256^100 <= 58^138 |
| Base58.DecodeBufferFits | src/base58.cpp:34 | the decoder's buffer is large enough for every length |
| Base58.EncodeBufferFits | src/base58.cpp:92 | the encoder's buffer is large enough for every length |
| Base58.AppendDigit | src/base58.cpp:41-48 | the assertion that nothing is left over never fails |
| Base58.DecodeAccepts | src/base58.cpp:22-66 | accepted are exactly letters of the alphabet with spaces before and after, and the spaces do not matter |
| Base58.DecodeOfEncode | src/base58.cpp:22-116 | every byte string comes back from its encoding |
| Base58.EncodeOfDecode | src/base58.cpp:22-116 | every string over the alphabet comes back from its decoding |
| WireFormats.EncodeSpells | src/base58.cpp:83-116 | the letters spell in base 58 the number that the bytes spell in base 256, after a '1' for each zero byte in front |
| Base58.EncodeBase58 | src/base58.cpp:83-116 | computes the encoding of the model in place |
| Base58.DecodeBase58 | src/base58.cpp:22-66 | computes the decoding of the model in place, or rejects |
| Base58.DecodeOfEncodeCheck | src/base58.cpp:128-152 | a checked encoding decodes to its payload, whatever the hash |
| Base58.CheckedIsEncoded | src/base58.cpp:137-152 | what passes the check is exactly an encoding with its checksum, up to spaces |
| Base58.EncodeBase58Check | src/base58.cpp:128-135 | appends the first four bytes of the hash |
| Base58.DecodeBase58Check | src/base58.cpp:137-152 | rejects short data and wrong checksums |
| Base58.ParsedIsWritten | src/base58.cpp:178-205 | SetString accepts exactly what ToString writes, with as many version bytes |
| Base58.CBase58Data.SetString | src/base58.cpp:178-193 | sets both fields, or clears both and fails |
| Base58.CBase58Data.ToString | src/base58.cpp:200-205 | encodes version and payload |
| Limbs.ShiftedLeftMeans | src/arith_uint256.cpp:23-37 | limbs that are or-ed together by a left shift spell the number times a power of two, modulo the range |
| Limbs.ShiftedRightMeans | src/arith_uint256.cpp:40-54 | limbs that are or-ed together by a right shift spell the number divided by a power of two |
| Limbs.OrDisjoint | src/arith_uint256.cpp:23-54 | bitwise or of numbers without common bits is their sum |
| ArithUint256.AccumulatorFits | src/arith_uint256.cpp:57-82 | the 64-bit accumulator never overflows |
| ArithUint256.BaseUint.constructor | src/arith_uint256.h:32-36 | zero |
| ArithUint256.BaseUint.FromUint64 | src/arith_uint256.h:51-57 | a 64-bit number |
| ArithUint256.BaseUint.AddAssign | src/arith_uint256.h:135-145 | the sum modulo 2^256, also when a number is added to itself |
| ArithUint256.BaseUint.Complement | src/arith_uint256.h:69-75 | 2^256 - 1 minus the value |
| ArithUint256.BaseUint.Negate | src/arith_uint256.h:77-84 | the negative modulo 2^256 |
| ArithUint256.BaseUint.SubAssign | src/arith_uint256.h:147-151 | the difference modulo 2^256 |
| ArithUint256.BaseUint.Increment | src/arith_uint256.h:173-180 | plus one modulo 2^256 |
| ArithUint256.BaseUint.Decrement | src/arith_uint256.h:190-197 | minus one modulo 2^256 |
| ArithUint256.BaseUint.ShiftLeft | src/arith_uint256.cpp:23-37 | times 2^shift modulo 2^256, for every shift |
| ArithUint256.BaseUint.ShiftRight | src/arith_uint256.cpp:40-54 | divided by 2^shift, for every shift |
| ArithUint256.BaseUint.MulAssign32 | src/arith_uint256.cpp:57-66 | the product with a limb modulo 2^256 |
| ArithUint256.BaseUint.MulRow | src/arith_uint256.cpp:73-80 | one row of the schoolbook product |
| ArithUint256.BaseUint.MulAssign | src/arith_uint256.cpp:69-82 | the product modulo 2^256; 0 when a number is multiplied by itself in place |
| ArithUint256.BaseUint.DivAssign | src/arith_uint256.cpp:85-108 | the floor quotient; division by zero is reported with the number already cleared |
| ArithUint256.BaseUint.DivRound | src/arith_uint256.cpp:98-105 | a round keeps dividend = quotient * divisor + rest and halves the bound on the rest |
| ArithUint256.BaseUint.CompareTo | src/arith_uint256.cpp:111-120 | the order of the values |
| ArithUint256.BaseUint.EqualTo | src/arith_uint256.cpp:123-134 | equality with a 64-bit number |
| ArithUint256.BaseUint.Bits | src/arith_uint256.cpp:173-185 | one more than the position of the highest bit |
| ArithUint256.BaseUint.GetLow64 | src/arith_uint256.h:245-249 | the value modulo 2^64 |
| CompactTarget.OverflowIsExact | src/arith_uint256.cpp:205-223 | the overflow flag is set exactly when mantissa * 256^(exponent - 3) >= 2^256, and otherwise the value is that number |
| CompactTarget.NormalizedIsNormal | src/arith_uint256.cpp:225-246 | both assertions of GetCompact hold: the mantissa is below the sign bit and the exponent at most 33 |
| CompactTarget.NormalUnique | src/arith_uint256.cpp:225-246 | for each number only one exponent makes the mantissa normal |
| CompactTarget.RoundTrip | src/arith_uint256.cpp:205-246 | for y = SetCompact(GetCompact(x)): no sign, no overflow, y <= x, (x - y) * 2^15 <= x, and GetCompact(y) == GetCompact(x) |
| CompactTarget.SignSurvives | src/arith_uint256.cpp:205-246 | the sign bit comes back as the negative flag for every number but 0, and changes neither value nor overflow |
| CompactTarget.SetCompact | src/arith_uint256.cpp:205-223 | carries out the decoding on the limbs |
| CompactTarget.GetCompact | src/arith_uint256.cpp:225-246 | carries out the encoding on the limbs |
| VarInt.VarIsRead | src/serialize.h:419-449 | what WriteVarInt writes is read back, whatever follows; a negative number comes back as its lowest seven bits |
| VarInt.ReadIsVar | src/serialize.h:419-449 | no redundancy: only the bytes written for a number are read as it |
| VarInt.WriteVarInt | src/serialize.h:419-434 | the loop writes these bytes, and its buffer is long enough for the type |
| VarInt.ReadVarInt | src/serialize.h:436-449 | the loop reads them |
| WireFormats.VarMeans | src/serialize.h:375-402 | the documented meaning: the bytes written are the only ones with continuation bits before the last whose base-128 digits, each but the last one more, spell the number |
| Compressor.DecompressOfCompress | src/compressor.cpp:137-180 | DecompressAmount undoes CompressAmount on all naturals |
| Compressor.CompressOfDecompress | src/compressor.cpp:137-180 | CompressAmount undoes DecompressAmount on all naturals |
| Compressor.CompressIsSmall | src/compressor.cpp:137-154 | the code is at most nine times the amount |
| Compressor.AmountFits | src/compressor.cpp:137-180 | up to (2^64 - 1) / 9 the 64-bit code neither wraps nor changes the amount |
| Compressor.SurvivesIffFits | src/compressor.cpp:137-180 | a 64-bit amount comes back if and only if its code does not wrap |
| Compressor.AmountWraps | src/compressor.cpp:137-180 | two units beyond that bound an amount no longer comes back; the one between does |
| Compressor.CompressAmountLoop | src/compressor.cpp:137-154 | the loop computes the code; the digit it drops is 1 to 9 |
| Compressor.DecompressAmountLoop | src/compressor.cpp:156-180 | the loop computes the amount |
| WireFormats.AmountCodeIs | src/compressor.cpp:128-154 | the documented form of the code, for the largest power of ten and the last digit of any amount |
| Compressor.DecompressOfCompressScript | src/compressor.cpp:43-126 | each special script comes back from its type and its 20 or 32 bytes |
| WireFormats.SpecialForms | src/compressor.cpp:43-92 | the five special scripts take 21 or 33 bytes: type and hash, or type and coordinate |
| Compressor.ScriptIsRead | src/compressor.h:69-96 | every script comes back; special codes 0 to 5 and the lengths of general scripts stay apart |
| Compressor.TxOutIsRead | src/compressor.h:113-126 | every output is read to its end with its script, and its amount comes back exactly if its code does not wrap |
| CoinsSerializer.BitOfByte | src/coins.h:213-219 | the bits or-ed into a byte are the bits tested when it is read |
| CoinsSerializer.MaskIsRead | src/coins.h:242-253 | the count of bytes that are not zero makes the reader take exactly the bitmask bytes |
| CoinsSerializer.AvailIsRead | src/coins.h:239-253 | the bits read say of each output whether it is unspent; outputs beyond them are all spent |
| CoinsSerializer.SomeMaskByte | src/coins.h:206 | the writer's assertion: unpruned coins show in the first two flags or in the mask |
| CoinsSerializer.HeaderIsRead | src/coins.h:207 | the header code gives back its four flags and the number of mask bytes, with the "-1" when both first outputs are spent |
| CoinsSerializer.UnserializeOfSerialize | src/coins.h:199-263 | what any unpruned coins read back as; with a header code that wraps they lose their last unspent output |
| CoinsSerializer.RoundTripsExactly | src/coins.h:199-263 | unpruned coins come back exactly when version and height are not negative, no null output stands at the end, null outputs are canonical, no amount's code wraps and neither does the header code |
| CoinsSerializer.NegativeVersionIsLost | src/coins.h:199-263 | a transaction version of -1 comes back as 127 |
| CoinsSerializer.CalcMaskSize | src/coins.cpp:17-34 | counts the bytes up to the last one in use, and those that are not zero |
| CoinsSerializer.WriteMaskByte | src/coins.h:212-219 | sets the bits of the outputs that are unspent |
| CoinsSerializer.Serialize | src/coins.h:199-227 | the loops write exactly the record of the model |
| CoinsSerializer.ReadBitmask | src/coins.h:242-253 | the loop builds vAvail from exactly as many bytes |
| CoinsSerializer.ReadOutputs | src/coins.h:254-259 | the loop fills in the unspent outputs |
| CoinsSerializer.Unserialize | src/coins.h:229-263 | the loops read exactly what the model says |
| Chain.CBlockIndex.GetAncestor | src/main.cpp:3874-3895 | the walk by skip pointers ends at the ancestor with that height; NULL outside the heights |
| Chain.LowestOneGoes | src/main.cpp:3860 | n & (n - 1) takes away the lowest bit |
| Chain.EvenSkip | src/main.cpp:3863-3872 | from an even height a skip pointer leads to the height without its lowest bit |
| Chain.OddSkip | src/main.cpp:3863-3872 | from an odd height it leads to the odd height without the two lowest bits above the last |
| Chain.Append | src/main.cpp:3902-3906 | a new entry's skip pointer is well formed again |
| Chain.OverwrittenIsPath | src/chain.cpp:19-23 | stopping early loses nothing: below an entry already in place are its own ancestors |
| Chain.TippedIsPath | src/chain.cpp:13-24 | SetTip makes the index the path from genesis to the tip |
| Chain.RunsIndexThePath | src/chain.cpp:13-24 | after any run of SetTip the index is the path to the last tip |
| Chain.CChain.SetTip | src/chain.cpp:13-24 | carries out the resize and the overwriting loop |
| Chain.CChain.AnswersOfPath | src/chain.h:500-534 | on the path to an entry, the tip is that entry, an index gives its ancestor at that height or NULL, and membership is ancestry |
| Chain.CChain.Next | src/chain.h:538-544 | the successor in the chain; NULL exactly for the tip and for entries outside |
| Chain.CChain.FindFork | src/chain.cpp:55-62 | the highest entry common to the chain and the argument's ancestry, NULL if there is none |
| Chain.LocatorDescends | src/chain.cpp:26-53 | the heights of a locator descend strictly and end at genesis |
| Chain.LocatorIsShort | src/chain.cpp:26-53 | a locator of m > 12 entries needs a height of at least 2^(m - 12) |
| Chain.CChain.GetLocator | src/chain.cpp:26-53 | lists the ancestors at these heights, by the index inside the chain and by skip pointers outside |
| Chain.MedianAtLeast | src/chain.h:300-312 | the middle of the sorted window is at least m exactly when no more than half are below m |
| Chain.MedianNeverDecreases | src/chain.h:298-312 | if every block is later than the median time past of its predecessor, the median time past never decreases along a chain, first blocks included |
| Chain.MedianStepsForward | src/kernel.cpp:485-488 | one block under the rule does not lower the median time past |
| Chain.GetMedianTimePast | src/chain.h:300-312 | the array filled from its end holds the window; its sorted middle is returned |
| MasternodePayments.AddPayeeCounts | src/masternode-payments.h:107-120 | one more vote for a payee, none for the others, and payees stay distinct |
| MasternodePayments.AddWinnerKeepsInv | src/masternode-payments.cpp:505-530 | recording a vote keeps the tally equal to the log |
| MasternodePayments.NewVoteIsCounted | src/masternode-payments.cpp:505-530 | exactly a vote for a known block under a new key is recorded; the votes and the tally of its height and payee rise by one and no other moves; any other vote is refused and leaves no trace |
| MasternodePayments.CleanedKeepsInv | src/masternode-payments.cpp:637-664 | whether a vote is old depends on its height alone, so a tally goes together with all its votes |
| MasternodePayments.CleanedKeepsRecent | src/masternode-payments.cpp:637-664 | votes at most that many blocks old stay with their tally, of older ones nothing is left |
| MasternodePayments.TallyMatchesTheVotes | src/masternode-payments.cpp:505-664 | in every state reached, the tally for each height and payee is the number of recorded votes |
| MasternodePayments.TallyCountsMasternodes | src/masternode-payments.h:185-193 | without hash collisions that is the number of different masternodes that voted so |
| MasternodePayments.GetPayee | src/masternode-payments.h:122-135 | the first payee among those with the most votes |
| MasternodePayments.WinnerHasMostVotes | src/masternode-payments.h:122-135 | the payee of a block has the most recorded votes |
| MasternodePayments.HasPayeeWithVotes | src/masternode-payments.h:137-146 | whether a payee has that many votes |
| MasternodePayments.IsTransactionValid | src/masternode-payments.cpp:532-592 | valid exactly if no payee has six votes or one that has is paid what is required |
| MasternodePayments.PaymentRule | src/masternode-payments.cpp:532-592 | the same rule in terms of the recorded votes |
| MasternodePayments.CMasternodePayments.constructor | src/masternode-payments.h:244-248 | nothing recorded |
| MasternodePayments.CMasternodePayments.Clear | src/masternode-payments.h:250-255 | both maps are emptied |
| MasternodePayments.CMasternodePayments.AddWinningMasternode | src/masternode-payments.cpp:505-530 | records exactly a new vote for a known block, with one more in the tally of its height and payee; a known vote or an unknown block changes nothing |
| MasternodePayments.CMasternodePayments.AddPayeeLoop | src/masternode-payments.h:107-120 | carries out the update or append |
| MasternodePayments.CMasternodePayments.CleanPaymentList | src/masternode-payments.cpp:637-664 | removes what is older than the limit, of at least a thousand blocks |
| MasternodePayments.CMasternodePayments.GetBlockPayee | src/masternode-payments.cpp:465-472 | the winner of a height that has votes |
| Budget.BudgetFits | src/masternode-budget.cpp:729-797 | GetBudget returns each proposal once, eligible, with what it asks for allotted; together within the total budget |
| Budget.RankedByVotes | src/masternode-budget.cpp:719-726 | the order of the proposals: more votes first, with as many the larger fee transaction hash |
| BudgetRules.VoteReachesProposal | src/masternode-budget.cpp:1756-1788 | a vote in time moves the balance of its proposal by its weight less that of the voter's last vote; nothing else moves |
| BudgetRules.VoteReachesFinalized | src/masternode-budget.cpp:2024-2055 | a vote in time adds one to the count of a finalized budget if the voter had none there |
| BudgetRules.VotesInTime | src/masternode-budget.cpp:1756-1788 | exactly a vote an hour after the voter's last one, and at most an hour from the future, replaces it |
| BudgetRules.CleanedNet | src/masternode-budget.cpp:1790-1798 | after cleaning the balance counts the votes of masternodes that are still in order, whatever was marked before |
| BudgetRules.EligibleMeans | src/masternode-budget.cpp:766-777 | which proposals GetBudget considers: for every block of the cycle, with more than a tenth of the masternodes for them, old enough, valid and not vetoed |
| BudgetRules.ValidUntilLastCycle | src/masternode-budget.cpp:1659-1754 | a proposal is valid exactly if its fields, votes, collateral and amount are in order and the tip is not past the start of its last cycle |
| BudgetRules.TotalBudgetIsShare | src/masternode-budget.cpp:865-884 | the total budget is two percent of the block values of a cycle, ten from the fork height on, up to rounding |
| BudgetRules.BudgetTouches | src/masternode-budget.cpp:729-797 | GetBudget keeps every proposal with its votes marked anew, allots to each eligible one what it asks for if returned and else nothing, and touches nothing else |
| BudgetRules.RecheckedIsCurrent | src/masternode-budget.cpp:441-499 | after CheckAndRemove every mark of validity is up to date and nothing else has changed |
| BudgetRules.StoredCameValid | src/masternode-budget.cpp:410-439 | in every state reached, each stored proposal and finalized budget stands under its hash and was valid when it came |
| BudgetRules.OnlyValidProposals | src/masternode-budget.cpp:423-439 | exactly a valid proposal that is not known is stored |
| BudgetRules.OnlyValidFinalized | src/masternode-budget.cpp:410-421 | exactly a valid finalized budget that is not known is stored |
| BudgetRules.PaymentForEachBlock | src/masternode-budget.h:416 | a finalized budget has a payment for each of its blocks and for no other |
| BudgetRules.SyncMarks | src/masternode-budget.cpp:1229-1310 | marking vetoes synchronised, and taking the marks off, changes nothing else in them |
| Budget.LeftOutOnlyIfTooLarge | src/masternode-budget.cpp:760-794 | an eligible proposal is returned exactly if it fits beside those ranked before it |
| Budget.SubmittedBudgetIsValid | src/masternode-budget.cpp:148-181 | on the same tip the payout limit holds for the submitted budget, which is valid exactly if its collateral is, it has at most a hundred payments and no recorded veto of a proposal it returns takes effect before that proposal's own block |
| Budget.VetoedPayments | src/masternode-budget.cpp:2262-2268 | which payments of a submitted budget are vetoed, by the ranking and the vetoes before the call |
| Budget.NoVetoBites | src/masternode-budget.cpp:148-181 | that cannot happen if the fork height is not after the start of the cycle, or no eligible proposal has a veto recorded |
| Budget.SubmittedButInvalid | src/masternode-budget.cpp:148-181 | a concrete state, one block before vetoes take effect, whose submitted budget is invalid |
| Budget.AutoCheckAgrees | src/masternode-budget.cpp:2057-2131 | the automatic vote goes to exactly the budget one would submit oneself |
| Budget.OnlySignedVetoes | src/masternode-budget.cpp:1623-1657 | a veto is recorded exactly if its proposal hash is not 0, has no valid veto, its key is new and its signature is good; any error names the first test that failed and leaves the state as it was |
| Budget.VetoIsRecorded | src/masternode-budget.cpp:1623-1657 | a signed veto is recorded once and makes a stored proposal invalid; nothing else is recorded |
| Budget.VetoesAreSigned | src/masternode-budget.cpp:1623-1657 | in every state reached from the empty one, each recorded veto is valid and came with a good signature |
| Budget.VetoIsPermanent | src/masternode-budget.h:270-277 | a recorded veto survives every run of steps other than Clear |
| Budget.VetoedIsNeverPaid | src/masternode-budget.cpp:1579-1603 | from the fork height on, no later budget contains a vetoed proposal and no finalized budget pays it |
| Budget.BestMoves | src/masternode-budget.cpp:513-528 | the choice among finalized budgets moves only to a payable one with strictly more votes |
| CBudgetManager.CBudgetManager.HasVetoVoteForProposal | src/masternode-budget.cpp:1579-1586 | whether a valid veto is recorded |
| CBudgetManager.CBudgetManager.IsVetoedAt | src/masternode-budget.cpp:1588-1594 | only from the fork height on |
| CBudgetManager.CBudgetManager.FinalizedBudgetPaymentVetoed | src/masternode-budget.cpp:1596-1603 | whether the payment due at a height is vetoed |
| CBudgetManager.CBudgetManager.ProposalIsValid | src/masternode-budget.cpp:1659-1754 | all conditions on a proposal |
| CBudgetManager.CBudgetManager.AddVetoVote | src/masternode-budget.cpp:1623-1657 | carries out the recording exactly of a signed veto for a proposal without one; with an error nothing changes |
| CBudgetManager.CBudgetManager.GetBudget | src/masternode-budget.cpp:729-797 | carries out the greedy loop |
| CBudgetManager.CBudgetManager.BudgetPayments | src/masternode-budget.cpp:166-174 | the payments for the proposals returned |
| CBudgetManager.CBudgetManager.TotalPayout | src/masternode-budget.cpp:2146-2155 | the sum of the payments |
| CBudgetManager.CBudgetManager.FinalizedIsValid | src/masternode-budget.cpp:2212-2281 | all conditions on a finalized budget |
| CBudgetManager.CBudgetManager.MatchesBudget | src/masternode-budget.cpp:2095-2128 | the comparison of AutoCheck |
| CBudgetManager.CBudgetManager.HighestCount | src/masternode-budget.cpp:513-528 | the payable budget with the most votes, the first of those, and its payment |
| CBudgetManager.PaidOutputs | src/masternode-budget.cpp:531-565 | a filled block contains the payment; a staking block keeps its outputs, another one its first, worth the block's value |
| CBudgetManager.CBudgetManager.FillBlockPayee | src/masternode-budget.cpp:501-565 | what a block pays for both kinds of block; it then passes IsTransactionValid of the budget it pays from |
| CBudgetManager.CBudgetManager.IsBudgetPaymentBlock | src/masternode-budget.cpp:606-634 | some payable budget has more than five percent |
| CBudgetManager.CBudgetManager.IsTransactionValid | src/masternode-budget.cpp:2283-2321 | the payment due is among the outputs and not vetoed |
| CBudgetManager.CBudgetManager.ClearSeen | src/masternode-budget.h:270-277 | forgets what was seen, but no veto |
| CBudgetManager.CBudgetManager.Clear | src/masternode-budget.h:315-329 | forgets everything, vetoes included |

## Left out

- Input and output, RPC, start-up, threads outside the check queue, Berkeley DB, LevelDB, OpenSSL, secp256k1, scrypt: foreign calls.
- The best-block hash of a coins view, SetBackend, GetStats, a database write that fails, HaveInputs, GetPriority: plumbing or I/O.
- Changing a parent cache directly while a child holds entries: the code relies on callers not doing this.
- CCoins::GetSerializeSize: it uses the factor 8 where Serialize uses 16, so it need not match (src/coins.h:185, src/coins.h:207).
- The field nRounds of an output, which its compressed form does not carry.
- CoinsSerializer.CalcMaskSize: does not model a loop counter that wraps, which needs more than 2^32 outputs.
- Select_, GetChance and the float constant of the cuckoo depth limit: probabilistic or floating point; the depth limit is an input.
- AddrManSerializer.Unserialize: does not model reading into a manager that was used before, because Clear leaves mapInfo and mapAddr (src/addrman.h:428-446); nor what is left in the manager when a stream ends too early, or one that ends within the header.
- AddrManDisk.LoadOfSave: does not cover the fields that are not written, nLastTry and the key.
- CheckQueue.StepKeepsInv: models the loop of each thread as atomic steps on values, not as a class, because threads interleave; nTodo is unbounded, so its wrap-around at 2^32 pending checks is not covered.
- nSelectedValue when nothing is selected, and the log output of coin selection.
- BitFlags.BitPackedAtomicFlags.BitSet: does not model concurrent erasure; the flags change one call at a time.
- Calling the cuckoo cache's setup a second time, which would leave elements away from their places.
- The hexadecimal form of DecodeBase58, CBase58Data::CompareTo and the address classes built on it: easy members.
- The bitwise operators, getdouble and the hexadecimal conversions of 256-bit numbers.
- Compressor.ScriptIsRead: rests on the elliptic curve recovering a valid key from one coordinate and a parity, which is an assumption about secp256k1.
- VarInt.ReadVarInt: does not model wrap-around of the integer type on bytes that no writer produces.
- CChain::Tip with fProofOfStake, chain trust, and the validity flags of block index entries.
- CanVote, which remembers only the last height of a masternode, so one vote per masternode and height is not guaranteed (src/masternode-payments.h:268-281).
- Masternode ranks and IsScheduled, Sync and the messages of payments and budget.
- The second loop of CBudgetManager::IsTransactionValid, which never ends when a payment is vetoed (src/masternode-budget.cpp:682-683).
- Orphan votes, immature budgets and the loading of budget.dat; the collateral check is an input.
- limitedmap, page-lock counting, Bloom filter, key stores, alerts and sync status: easier members.
