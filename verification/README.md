# Verified models of the Trivechain core

A Dafny model of the stateful cores of the Trivechain node, with proofs of what each of them promises.
`dafny verify dfyconfig.toml` checks everything; no file depends on anything outside this directory.

Most components come in two layers. A module of values states the behaviour as functions on datatypes, and proves
what every operation and every run keeps. A second module holds the objects: classes whose methods have the loops,
the in-place updates and the branches of the C++ code, each proved to compute what the functions say.

| files | component | main results |
|---|---|---|
| `Coins`, `CoinsFlags`, `CoinsCache` | stacked coin caches over the coin database | any stack under any run is one flat map, and flushing writes exactly it down; flags are always legal |
| `AddrMan`, `AddrManRun`, `AddrManEffects`, `AddrManCheck`, `AddrManager` | the address manager's tables | every run keeps everything `Check_` checks; no assert fires; what each operation does to which entry |
| `AddrManSerial`, `AddrManStream`, `AddrManLoad` | writing and reading the address manager | the round trip loses nothing; exactly when it is in order again |
| `CheckQueue` | the parallel script-check queue | each `Wait` is exact under every interleaving, and returns |
| `Cuckoo`, `CuckooFound`, `CuckooCache` | the signature cache | live elements are conserved, the load is bounded, lookup is membership; exactly which element is dropped |
| `Mixing`, `MixingRun`, `MixingAnswers`, `MixingOrder`, `MixingLimits`, `MixingServer` | the mixing-session server | whatever is broadcast merges balanced, agreeing submissions, each input with a valid signature of the run; exactly when it pays out what its coins are worth |
| `Governance`, `GovernanceRun`, `GovernanceRate`, `GovernanceFile`, `GovernanceObject` | governance votes and the vote file | tallies do not depend on arrival order; exactly when the file does not; rate-checked votes are an hour apart |
| `Bloom`, `BloomExact`, `BloomFilter` | the rolling Bloom filter | the last N keys are always found; exactly which keys are; the word-parallel wipe is exact |
| `Arith`, `ArithUint`, `Compact` | 256-bit arithmetic, compact targets, block work | limb operations are integer operations; work is floor(2^256 / (target + 1)) |
| `DbTx`, `DbTransaction` | database transactions and their merging iterator | reads, iteration and commit are those of the overlaid map |
| `Chain` | block tree, skip pointers, active chain | `GetAncestor` follows `pprev`; `SetTip`, `FindFork` and `GetLocator` are exact |
| `Base58`, `Base58Codec` | base-58 text | both round trips; the buffers always suffice |
| `CompactBlock`, `BlockScan`, `PartialBlock` | compact block reconstruction | the sender's list is rebuilt exactly |
| `Prelude`, `Lex` | options, lexicographic order | |

## What stands for what

- Hash functions, script and signature checks, the masternode list, clocks and random draws are parameters: function
  values where a result must be the same each time, and arguments of the event or call otherwise.
- Integers are unbounded. Where the width matters it is written out: limbs and carries of 256-bit numbers, 64-bit words
  of the Bloom filter, packed flag bytes of the signature cache, 16-bit slots of compact blocks.
- Exceptions and failing asserts are results or conditions that are proved unreachable.
- Concurrency in the check queue is a state machine whose steps are the sections between taking and releasing the mutex.

## Where the code differs from its comments

The models follow the code.

- `src/cuckoocache.h` says that the first eviction takes the first candidate location; the code takes the second.
- `src/exclusivesend.h` says that users submit a denomination matching the session's; the code compares an entry with the
  other entries only. `MixingLimits.DenomCanDiffer` shows it and `MixingLimits.DenomIff` says when they match.
- The pool compares the coins of an entry with those of the other entries, not among themselves. `MixingLimits.PaysTwice`
  shows a run in which a coin counts twice, and `MixingRun.PaysWorthIff` says when none does.
- `Check_` of the address manager looks addresses up by their full service, `Find` without the port unless ports tell
  addresses apart. `AddrManCheck.CheckCanFail` shows a run that fails it, and `AddrManager.AddrManager.Check` says when one does.
- A flush of a cache without a best block of its own writes a null one into a cache below.
  `Coins.FlushBestBlockIff` says when the answer survives.
- Dropping invalid governance votes can leave a stored vote without a current one. `GovernanceFile.RemoveInvalidCanFail`
  shows it and `GovernanceRun.RemoveInvalidKeepsIff` says when it does not.
- A rejected vote can leave a default record behind, which counts for outcome NONE. `GovernanceRun.NoneCanDiffer` shows it
  and `GovernanceRun.VotersAgreeIff` says when tallies agree all the same.
- The vote file can keep votes that were overtaken at the same timestamp. `GovernanceRun.FileDependsOnOrder` shows it and
  `GovernanceFile.FileDeterminedIff` says when the file does not depend on the order.

## Model

| member | source | states |
|---|---|---|
| Coins.RunRefines | src/coins.cpp:42-216 | A stack of caches of any depth, under any run of adds, spends, fetches, uncaches and flushes at any level whose adds are entitled, answers exactly like one flat map given the same adds and spends; no exception is thrown and the flag invariant holds at the end |
| Coins.UntouchedAgrees | src/coins.cpp:26-57 | Empty caches of any number over a database of unspent coins satisfy the invariant and answer like the database, so every run may start there |
| Coins.StepRefines | src/coins.cpp:42-216 | One operation keeps the invariant at every level and moves the view as it moves the flat map |
| Coins.ViewIsUnspent | src/coins.cpp:42-66 | What a stack shows is never a spent coin |
| Coins.FetchKeeps | src/coins.cpp:42-57 | Pulling a coin up changes no answer at any level and caches exactly the coins that the view has |
| Coins.UncacheKeeps | src/coins.cpp:209-216 | Exactly an entry without flags is dropped; no answer changes and the invariant stays |
| Coins.MergeEntryRefines | src/coins.cpp:146-200 | Merging one child entry into the parent never meets a misapplied FRESH flag, leaves legal flags, and the parent then shows what the child showed |
| Coins.MergeRefines | src/coins.cpp:146-200 | The same for every outpoint of a whole child map |
| Coins.BatchWriteRefines | src/coins.cpp:146-200 | Writing a cache into its base, cache or database, never throws; the base then shows what the cache showed and is invariant |
| Coins.FlushKeeps | src/coins.cpp:202-207 | A flush succeeds and changes no answer; the cache is empty afterwards, its base alone shows what the cache showed, and no other level is touched |
| Coins.FlushedRunIsFlat | src/coins.cpp:146-207 | Flushing every level from the top down leaves empty caches over a database that is the flat map |
| Coins.RunReachesDatabase | src/coins.cpp:42-216 | After any run whose adds are entitled, those flushes write to the database exactly what the run left |
| Coins.MaintainKeeps | src/coins.cpp:42-216 | Fetch, uncache and flush at any level of the stack change no answer at the top |
| Coins.AddKeepsIff | src/coins.cpp:68-87 | Adding without the overwrite flag keeps the invariant if and only if the view holds no coin there; with the flag it always does, and neither entitled form throws |
| Coins.AddView | src/coins.cpp:68-87 | After an add the view shows the new coin there, unless its script is unspendable, and everything else as before |
| Coins.SpendKeeps | src/coins.cpp:99-113 | A spend empties exactly that outpoint of the view and keeps the invariant |
| Coins.Rebase | src/coins.cpp:26-32 | A cache over another base with the same view shows the same |
| Coins.MisusedAddResurrects | src/coins.cpp:68-113 | An add over an uncached coin without the overwrite flag, then a spend, brings the old coin back: the entitlement is needed |
| Coins.FlushBestBlockIff | src/coins.cpp:136-144 | A flush keeps the best block if and only if the cache has one of its own, or its base's own is the answer anyway |
| Coins.FlushCanLoseBestBlock | src/coins.cpp:136-207 | Three levels on which a flush changes the best block |
| CoinsFlags.UncacheUndoesFetch | src/coins.cpp:42-57 | A fetched coin is not marked as changed: dropping it undoes the fetch |
| CoinsFlags.SpendUndoesAdd | src/coins.cpp:68-113 | A coin added and spent before a flush leaves the cache as it was, unless an earlier spend still has to be written down |
| CoinsFlags.SpendUndoesFlushedAdd | src/coins.cpp:146-200 | A cache that takes over a new coin from above still knows that it is new, and forgets it when it is spent |
| CoinsFlags.SpendAboveUndoesAdd | src/coins.cpp:146-200 | A coin that a cache added and the cache above spends is gone from both after a flush |
| CoinsFlags.SpendIsWrittenDown | src/coins.cpp:99-113 | A spent coin of the database is remembered as spent, and the flush removes it |
| CoinsFlags.AddOutputsView | src/coins.cpp:89-97 | After AddCoins exactly the transaction's spendable outputs are in view, with index, height and coinbase mark; the rest is as it was |
| CoinsCache.CoinsDb.BatchWrite | src/txdb.cpp:77-100 | The database takes the dirty entries of a batch, erasing spent ones, and the best block unless null |
| CoinsCache.CoinsViewCache.FetchCoin | src/coins.cpp:42-57 | The object becomes the fetched stack, and its memory count stays exact |
| CoinsCache.CoinsViewCache.GetCoin | src/coins.cpp:59-66 | Returns the coin the view shows, if any |
| CoinsCache.CoinsViewCache.AddCoin | src/coins.cpp:68-87 | Throws exactly where the add does, otherwise the object becomes the stack after it; the memory count stays exact |
| CoinsCache.CoinsViewCache.AddCoins | src/coins.cpp:89-97 | All outputs of a transaction in turn, stopping where one throws |
| CoinsCache.CoinsViewCache.SpendCoin | src/coins.cpp:99-113 | The object becomes the stack after the spend and the coin moved out is the one the view showed |
| CoinsCache.CoinsViewCache.AccessCoin | src/coins.cpp:117-124 | Returns the coin the view shows, or a spent one, worth -1, where it shows none; no answer changes |
| CoinsCache.CoinsViewCache.HaveCoin | src/coins.cpp:126-129 | True exactly when the view has a coin there |
| CoinsCache.CoinsViewCache.Uncache | src/coins.cpp:209-216 | The object becomes the stack after the uncache, with an exact memory count |
| CoinsCache.CoinsViewCache.BatchWrite | src/coins.cpp:146-200 | Walking the child map entry by entry in any order gives the merge of all of it, or throws exactly when some entry is misapplied |
| CoinsCache.CoinsViewCache.Flush | src/coins.cpp:202-207 | The object becomes the flushed stack, empty over a base that shows what it showed, and its memory count is exact |
| CoinsCache.CoinsViewCache.GetBestBlock | src/coins.cpp:136-140 | Returns the stack's best block and remembers it |
| CoinsCache.CoinsViewCache.HaveInputs | src/coins.cpp:234-244 | True exactly when the transaction is a coinbase or all its inputs are in the view; no answer changes |
| CoinsCache.CoinsViewCache.GetValueIn | src/coins.cpp:222-232 | The sum of the values the view shows for the inputs, 0 for a coinbase; no answer changes |
| CoinsCache.FillBestKeeps | src/coins.cpp:136-140 | Asking for the best block changes no answer and makes a later flush keep it |
| CoinsCache.ValueInRefines | src/coins.cpp:222-232 | Inputs that are all present are worth what the flat map says |
| CheckQueue.WaitIsExact | src/checkqueue.h:69-161 | Under every interleaving of master and workers each Wait returned true exactly when every check added since the previous one holds, and the to-do count equals queued plus in-flight checks |
| CheckQueue.NothingInFlightAtReturn | src/checkqueue.h:69-131 | When a Wait returns no thread holds an unreported batch, the queue is empty and the verdict is reset |
| CheckQueue.NoDeadlock | src/checkqueue.h:69-131 | While the master is inside Wait some thread can take a step: no wake-up is lost |
| CheckQueue.Progress | src/checkqueue.h:69-131 | Every internal step lowers a measure |
| CheckQueue.InternalStepsBounded | src/checkqueue.h:69-131 | No schedule of internal steps is longer than the measure, so Wait returns |
| CheckQueue.StepKeeps | src/checkqueue.h:69-161 | Every enabled step of every thread keeps the invariant |
| CheckQueue.BatchCount | src/checkqueue.h:109-116 | A batch has at least one check, at most the queue and the batch size, and within these as many as leave every thread the same share |
| CheckQueue.AddWakes | src/checkqueue.h:149-161 | Adding checks makes waiting workers runnable: all of them for two checks or more, one for a single check |
| CheckQueue.OutcomeIff | src/checkqueue.h:89-126 | A thread takes work if and only if there is some, and returns if and only if nothing is left to do and it is the master or told to quit |
| CheckQueue.CheckQueue.TakeBatch | src/checkqueue.h:117-126 | The batch is the end of the queue, last check first, and the queue loses exactly it |
| CheckQueue.CheckQueue.AcquireWork | src/checkqueue.h:89-126 | With the mutex held: return, wait or take a batch as the shared state says, and the state afterwards |
| CheckQueue.CheckQueue.Enter | src/checkqueue.h:77-126 | Reporting the previous batch and then acquiring work |
| CheckQueue.CheckQueue.Wake | src/checkqueue.h:89-126 | Acquiring work after a wake-up |
| CheckQueue.CheckQueue.Add | src/checkqueue.h:149-161 | The checks are appended and counted |
| Cuckoo.RunIsGood | src/cuckoocache.h:264-453 | After every run of inserts and lookups on an empty table recent live slots number at most epoch size plus a sixteenth (at least one), all live slots at most twice that, every element is unique and at one of its own eight slots, and lookup is membership |
| Cuckoo.NextKeeps | src/cuckoocache.h:368-453 | An insert, with its epoch check and its chain of swaps, or a lookup keeps load bound, heuristic counter bound and placement |
| Cuckoo.EvictKeeps | src/cuckoocache.h:388-416 | The chain of swaps, up to any depth and from any last location, keeps every element at one of its own slots, once, and neither loses nor duplicates a live one, the element in hand counted |
| Cuckoo.InsertedPlaced | src/cuckoocache.h:368-416 | An insert leaves every element unique and at one of its own eight slots |
| Cuckoo.InsertedConserves | src/cuckoocache.h:388-416 | Live elements after inserting an absent one, plus the one dropped, are live elements before plus the new one, epoch flags included |
| CuckooFound.InsertThenFound | src/cuckoocache.h:368-453 | Whatever calls came before: an element one of whose slots holds it or may be overwritten is found right after its insert, live and recent |
| CuckooFound.InsertedDirectly | src/cuckoocache.h:368-391 | With room an insert writes one slot, the first that holds the element or else the first that may be overwritten, and changes nothing else |
| CuckooFound.InsertedIsHeld | src/cuckoocache.h:368-391 | With room the element is held afterwards, live and recent, and every other live element stays where it is |
| CuckooFound.EvictIsTrail | src/cuckoocache.h:388-416 | A chain is some swaps, each forced because no slot of the element in hand may be overwritten, and then a placement in the first free slot, or as many swaps as the limit allows and a drop |
| CuckooFound.DroppedIff | src/cuckoocache.h:388-416 | An element is dropped if and only if as many swaps as the limit allows are forced one after another |
| CuckooFound.FoundIff | src/cuckoocache.h:368-453 | An element is found after its insert unless it was absent before and is the one dropped |
| CuckooFound.NeverStraightBack | src/cuckoocache.h:393-405 | Where an element's slots differ, it never goes back to the slot it was just moved from |
| CuckooFound.EpochCheckAges | src/cuckoocache.h:264-294 | Exactly when the counter has run out and an epoch is full, recent elements become old and old ones may be overwritten |
| CuckooFound.LookupMarks | src/cuckoocache.h:443-453 | A lookup that erases marks exactly the slot that holds the element, other lookups change nothing, and what is found stays the same |
| Cuckoo.ContainsIsMembership | src/cuckoocache.h:443-453 | Looking at eight slots finds an element exactly when the table holds it |
| Cuckoo.EpochCheckMakesRoom | src/cuckoocache.h:264-294 | After the epoch check one more recent element fits under the bound |
| Cuckoo.EpochCheckPlaced | src/cuckoocache.h:264-294 | Ageing moves no element |
| Cuckoo.InsertedAlive | src/cuckoocache.h:368-416 | An insert adds at most one recent live element and no old one |
| CuckooCache.WithBitOk | src/cuckoocache.h:92-117 | Writing one packed flag changes that flag and no other |
| CuckooCache.Cache.CheckEpoch | src/cuckoocache.h:264-294 | The packed flags and the counter become those of the epoch check |
| CuckooCache.Cache.Contains | src/cuckoocache.h:443-453 | Returns membership at the eight slots; erasing marks exactly the first match |
| CuckooCache.Cache.EvictChain | src/cuckoocache.h:388-416 | The loop leaves the slots that the chain of swaps gives |
| CuckooCache.Cache.Insert | src/cuckoocache.h:368-416 | The object becomes the state after the insert: epoch check, refresh of a present element, or the chain of swaps |
| CuckooCache.Cache.Round | src/cuckoocache.h:388-416 | One round takes the first dead slot of the element in hand, or swaps it with the location after the last one, and what is left to do is the rest of the chain |
| AddrManRun.RunPassesCheck | src/addrman.cpp:86-534 | After every run from an empty manager everything that Check_ checks holds, with addresses looked up as Find does: reference counts equal the new slots held and are at most 8, an entry is in exactly one table, counters are exact, every entry is found by its address |
| AddrManager.AddrManager.Check | src/addrman.cpp:400-474 | Check_ itself, loop by loop, on a manager in order: it returns -5 if ports do not tell addresses apart and an entry other than 0 has a port, -16 without a key, and 0 otherwise; the zeroes that its lookups insert are never found by Find |
| AddrManager.AddrManager.CheckEntry | src/addrman.cpp:408-432 | The tests of one entry fail exactly when the lookup by full address misses it |
| AddrManCheck.FullLookupIff | src/addrman.cpp:424-425 | A lookup by full address finds an entry if and only if ports tell addresses apart, the entry has no port, or it is entry 0 |
| AddrManCheck.StraysUnseen | src/addrman.cpp:68-84 | What such lookups insert changes no answer of Find |
| AddrManCheck.AllCollected | src/addrman.cpp:408-437 | The collected entries are as many as counted, and hold every slot of both tables |
| AddrManCheck.NewLeftNext | src/addrman.cpp:453-464 | A slot of the new table takes one reference off its entry, which was still expected |
| AddrManCheck.CheckCanFail | src/addrman.cpp:400-474 | Two addresses that share no slot, the second with a port, fail the check after two additions to an empty manager |
| AddrManRun.StepKeeps | src/addrman.cpp:205-534 | Every operation keeps the invariant |
| AddrMan.AddKeeps | src/addrman.cpp:257-328 | Add_ keeps the invariant for any announcement and any draw |
| AddrMan.CreateKeeps | src/addrman.cpp:86-101 | A created entry joins the address index and the random order |
| AddrMan.SwapKeeps | src/addrman.cpp:103-121 | Swapping two places of the random order keeps it a permutation |
| AddrMan.DeleteAllowed | src/addrman.cpp:123-140 | No assert of Delete can fire on an entry without references |
| AddrMan.DeleteKeeps | src/addrman.cpp:123-140 | Deleting such an entry keeps everything else in order |
| AddrMan.ClearNewKeeps | src/addrman.cpp:142-155 | No assert of ClearNew can fire and the slot is empty afterwards |
| AddrMan.FindIsLookup | src/addrman.cpp:68-84 | Find gives an entry if and only if its address has the same key; there is at most one |
| AddrManRun.MakeTriedKeeps | src/addrman.cpp:157-203 | No assert of MakeTried can fire; the entry moves to its tried slot and an evicted one back to a new slot |
| AddrManRun.GoodKeeps | src/addrman.cpp:205-255 | Good_ keeps the invariant and an exactly known address ends in its own tried slot |
| AddrManRun.NewIsInSomeBucket | src/addrman.cpp:234-249 | The exit for an entry in no bucket is never taken |
| AddrManRun.GetAddrKeeps | src/addrman.cpp:477-496 | GetAddr_ returns distinct entries that are not terrible, within both limits, and only permutes the random order |
| AddrManRun.GetAddrAnswers | src/addrman.cpp:477-496 | It returns exactly 23 percent of the entries or 2500, whichever is less, or else every entry that is not terrible; no entry changes but for its place in the order |
| AddrManRun.SizesAgree | src/addrman.cpp:400-474 | The random order lists every id once, as many as both counters say |
| AddrManRun.AddUnknownEffect | src/addrman.cpp:257-328 | A new address is kept exactly when its slot is free or overwritable, and the only entry lost is the one whose last slot that was |
| AddrManEffects.AddReportsNewIff | src/addrman.cpp:257-328 | Add_ reports a new address if and only if it is routable and no entry has it |
| AddrManEffects.AddNewEntry | src/addrman.cpp:257-328 | A new address that finds room is an entry with one reference in the slot of its source, with the announced services and its time less the penalty, which is waived for an address that announces itself |
| AddrManEffects.AddKnownEntry | src/addrman.cpp:257-328 | A repeated announcement refreshes the entry and adds one reference, in the slot of the new source, exactly when the draw lets it and that slot is free or holds a terrible entry |
| AddrManEffects.RefreshEffect | src/addrman.cpp:262-285 | Announced services add up and the time never goes back |
| AddrManEffects.GoodEntries | src/addrman.cpp:157-255 | A success resets the entry's failures and nothing else about any entry; the entry evicted from the tried table is back in the new one, in the slot of its source, and only an entry whose last slot that was is lost |
| AddrManEffects.FailuresCountOnce | src/addrman.cpp:330-347 | Between two successes any number of failed attempts at an address count as one failure |
| AddrManEffects.AttemptEffect | src/addrman.cpp:330-347 | An attempt is recorded with the one entry of exactly that address, and nothing else changes |
| AddrManEffects.ConnectedEffect | src/addrman.cpp:498-516 | A connection keeps the entry's time within twenty minutes and never turns it back |
| AddrManEffects.TriedIsNotTerrible | src/addrman.cpp:33-56 | An address is not terrible in the minute after a success or an attempt |
| AddrManRun.TriedHasNoSlot | src/addrman.cpp:400-474 | A tried entry has no new slot and no references |
| AddrManager.AddrManager.Create | src/addrman.cpp:86-101 | The object's tables become those after the creation |
| AddrManager.AddrManager.SwapRandom | src/addrman.cpp:103-121 | The order and the two back pointers are exchanged |
| AddrManager.AddrManager.Delete | src/addrman.cpp:123-140 | The entry leaves all tables |
| AddrManager.AddrManager.ClearNew | src/addrman.cpp:142-155 | The slot is emptied and an entry without references goes |
| AddrManager.AddrManager.MakeTried | src/addrman.cpp:157-203 | The loops over all buckets give the entry's move to the tried table |
| AddrManager.AddrManager.EvictTried | src/addrman.cpp:175-197 | The entry in a tried slot goes back to the new slot of its own source |
| AddrManager.AddrManager.FindBucket | src/addrman.cpp:234-245 | Walking the buckets from any start finds the entry exactly when some bucket holds it |
| AddrManager.AddrManager.Good | src/addrman.cpp:205-255 | The object after Good_, invariant included |
| AddrManager.AddrManager.Add | src/addrman.cpp:257-328 | The object after Add_, its result, and the invariant |
| AddrManager.AddrManager.Attempt | src/addrman.cpp:330-350 | Attempt_ updates the statistics of the exactly matching entry only |
| AddrManager.AddrManager.GetAddr | src/addrman.cpp:477-496 | The object and the answer after the shuffle, as many entries as the limits allow or every one that is not terrible |
| AddrManager.AddrManager.Connected | src/addrman.cpp:498-516 | Connected_ refreshes the time of the exactly matching entry when it is old enough |
| AddrManager.AddrManager.SetServices | src/addrman.cpp:518-534 | SetServices_ changes the services of the exactly matching entry only |
| AddrManSerial.RoundTrip | src/addrman.h:301-455 | Writing any manager and reading it into a fresh one gives back every entry, up to renumbering, with the same references in the same new and tried slots and nothing else |
| AddrManSerial.RoundTripInvIff | src/addrman.h:301-455 | The rebuilt manager satisfies the invariant if and only if ports are told apart or all ports are zero |
| AddrManSerial.RoundTripCanFail | src/addrman.h:352-455 | With ports ignored one entry with a real port breaks the rebuilt manager |
| AddrManSerial.SerializeAcceptable | src/addrman.h:301-350 | The asserts of Serialize hold and the announced counts are within their limits |
| AddrManSerial.LoadBack | src/addrman.h:352-437 | Before pruning everything is back in its place |
| AddrManSerial.NothingPruned | src/addrman.h:439-449 | Nothing is pruned from what was written |
| AddrManSerial.AddrsBackIff | src/addrman.h:352-455 | The address index is in order if and only if ports agree |
| AddrManStream.PruneAllowed | src/addrman.h:439-449 | Whatever the stream says, pruning meets no failing assert of Delete |
| AddrManLoad.OldFormatIff | src/addrman.h:381-397 | From a file whose bucket lists cannot be used, a new entry survives if and only if no earlier one wants the slot of its source, and then has one reference |
| AddrManLoad.LoadedIsBounded | src/addrman.h:352-455 | Whatever the bucket lists of a file say, every entry ends up in a table, with eight references at most |
| AddrManLoad.PruneIsExact | src/addrman.h:439-449 | Pruning removes exactly the entries that are in no table and changes no other |
| AddrManLoad.LoadTriedCounts | src/addrman.h:400-419 | Tried entries whose slot is taken are lost, and the counter is the number of those left |
| AddrManStream.Serialize | src/addrman.h:301-350 | The loops write exactly the stream of the manager's value |
| AddrManStream.Unserialize | src/addrman.h:352-455 | Fails exactly when an announced count is over its limit or the stream ends early, otherwise the object becomes the loaded and pruned manager |
| MixingRun.RunIsSound | src/exclusivesend-server.cpp:25-394 | For every sequence of client messages, timeouts and disconnects: the session invariant holds, and every transaction handed to the memory pool merges at least the pool minimum of agreeing, balanced, fully signed entries, each of them an accepted submission of the run, lists no outpoint twice under one sequence, pays out what its inputs are worth (where no entry names a coin twice, what its coins are worth), and carries in every input a signature that came in the run and passed the script check |
| MixingRun.StepKeeps | src/exclusivesend-server.cpp:25-875 | Every event keeps the session invariant |
| MixingRun.SigningIsFrozen | src/exclusivesend-server.cpp:154-346 | While signatures are collected nothing but signatures changes until the session is reset |
| MixingRun.FinalMerges | src/exclusivesend-server.cpp:322-346 | The final transaction is a permutation of the entries' inputs and outputs in BIP 69 order |
| MixingOrder.MergeIsUnique | src/exclusivesend-server.cpp:322-346 | Two merges of the same entries list the same outputs and the same outpoints in the same order |
| MixingRun.MergeConserves | src/exclusivesend-server.cpp:322-346 | A merge of balanced entries conserves value |
| MixingRun.PaysWorthIff | src/exclusivesend-server.cpp:322-346 | A merge pays out what the coins it spends are worth if no entry names a coin twice and, for coins that are worth something, only if |
| MixingRun.MergeOutpointsIff | src/exclusivesend-server.cpp:610-653 | A merge's outpoints are distinct if and only if each entry's own are |
| MixingRun.SignedDistinct | src/exclusivesend-server.cpp:655-700 | When every input is signed no outpoint and sequence is listed twice |
| MixingRun.DistinctIff | src/exclusivesend-server.cpp:634-645 | Inputs are distinct over the pool if and only if they are within each entry |
| MixingRun.AddedEntryOk | src/exclusivesend-server.cpp:154-257 | An entry that passes the checks is balanced, standard, within limits, of the pool's denominations and disjoint from the others |
| MixingRun.AddSigKeeps | src/exclusivesend-server.cpp:655-690 | Adding a signature, even one that an entry refuses, changes signatures only |
| MixingRun.AddSigExact | src/exclusivesend-server.cpp:655-690 | An accepted signature is new and valid, signs one matching input of the entries that was not signed, and every matching input of the final transaction carries it; no other input changes |
| MixingRun.RunCarries | src/exclusivesend-server.cpp:259-346 | In every run each signed input of the entries, and of the final transaction unless an entry repeats it, carries a valid signature of the run |
| MixingRun.AcceptKeeps | src/exclusivesend-server.cpp:715-812 | Joining keeps participant bounds and the session id and state in step |
| MixingAnswers.WelcomeIff | src/exclusivesend-server.cpp:715-812 | A user joins if and only if the session is idle, or queueing for the same denominations with a place left, and its message is in order; what the session is then, and that nothing changes otherwise |
| MixingAnswers.EveryPoolSize | src/exclusivesend-server.cpp:737-775 | The draw can give a new session every number of participants and every id that the limits allow |
| MixingAnswers.AddedIff | src/exclusivesend-server.cpp:154-257 | An entry is taken if and only if the pool is ready and not full, its coins are available and balance its outputs, scripts, sizes, denominations and collateral are in order, and it shares no coin with another entry |
| MixingAnswers.BroadcastIsBacked | src/exclusivesend-server.cpp:154-257 | Every coin of a broadcast was available when it was submitted, with a collateral in order |
| MixingAnswers.TimeoutIff | src/exclusivesend-server.cpp:507-544 | A session that has timed out is reset if and only if too few participants are left, and otherwise goes on with those |
| MixingAnswers.TimeoutsEnd | src/exclusivesend-server.cpp:507-563 | Left alone every session ends, after a timeout in each of its stages at most |
| MixingAnswers.ChargedIff | src/exclusivesend-server.cpp:408-470 | Somebody is charged if and only if the draws say so and there is an offence, but fewer than participants; offences are the users in the queue that did not submit, or the inputs that were not signed |
| MixingLimits.DenomIff | src/exclusivesend-server.cpp:702-713 | As long as the session keeps its entries, they all have the denomination it was announced for if and only if its first submission had |
| MixingLimits.DenomCanDiffer | src/exclusivesend-server.cpp:702-713 | With any pool limits: as many users as fill the smallest pool join for one denomination, and an entry of another is accepted |
| MixingLimits.OutpointsDistinctIff | src/exclusivesend-server.cpp:610-653 | In every reachable session that collects signatures the final transaction's outpoints are distinct if and only if each entry's own are |
| MixingLimits.PaysTwice | src/exclusivesend-server.cpp:154-346 | With any pool limits and coins to fill the smallest pool: a run whose transaction pays out more than its coins are worth, because an entry names its coin under two sequences |
| MixingLimits.CommitsIff | src/exclusivesend-server.cpp:655-700 | Some signatures finish a session if and only if no entry lists an outpoint twice under one sequence |
| MixingLimits.SignRest | src/exclusivesend-server.cpp:655-700 | Valid signatures for the inputs in turn are all taken and sign every input |
| MixingRun.ChargedIsOffender | src/exclusivesend-server.cpp:408-470 | Only a participant who did not submit, or did not sign, is ever charged |
| Mixing.MaskMeaning | src/exclusivesend.cpp:325-355 | A nonzero mask means standard outputs only, and equal nonzero masks mean the same set of denominations |
| MixingServer.GetDenominations | src/exclusivesend.cpp:325-355 | The loops compute the mask, or with a single random denomination the first one that is used and drawn, and 0 if there is none or an output is not standard |
| MixingServer.GetDenominationsBits | src/exclusivesend.cpp:357-378 | The set bits, and acceptance exactly when there are some and the number is below 32 |
| MixingServer.Server.ProcessAccept | src/exclusivesend-server.cpp:31-93 | DSACCEPT: the new session state and reply |
| MixingServer.Server.ProcessVin | src/exclusivesend-server.cpp:154-257 | DSVIN: the reply is the first failing check, and the session is the one after the submission |
| MixingServer.Server.ProcessSignatures | src/exclusivesend-server.cpp:259-284 | DSSIGNFINALTX: signatures in turn up to the first refused, then the pool check |
| MixingServer.Server.AddEntry | src/exclusivesend-server.cpp:610-653 | An entry joins the pool exactly when no check of AddEntry fails, and the reply names the first that does |
| MixingServer.Server.SharesInput | src/exclusivesend-server.cpp:634-645 | The triple loop finds a shared outpoint exactly when there is one |
| MixingServer.Server.AddScriptSig | src/exclusivesend-server.cpp:655-690 | The final transaction and the first matching unsigned input take the signature |
| MixingServer.Server.CreateFinalTransaction | src/exclusivesend-server.cpp:322-346 | The final transaction of all entries, and the state SIGNING |
| MixingServer.Server.CheckPool | src/exclusivesend-server.cpp:301-320 | Finalises a full pool or hands over a fully signed one |
| MixingServer.Server.CheckTimeout | src/exclusivesend-server.cpp:507-544 | Falls back to the participants at hand where there are enough, otherwise resets |
| MixingServer.Server.ChargeFees | src/exclusivesend-server.cpp:408-470 | The collateral charged for given random choices |
| GovernanceRun.CurrentIsWinner | src/governance-object.cpp:103-225 | With rate checks off, after any messages each masternode's vote on each signal is the lexicographically greatest (timestamp, outcome) of its valid votes, whatever came in between |
| GovernanceRun.OrderIndependent | src/governance-object.cpp:616-658 | Two sequences of valid votes with the same set of votes give the same tally for every signal and every outcome |
| GovernanceRun.TalliesAgree | src/governance-object.cpp:616-658 | The same with rejected messages in between: equal tallies for every outcome, where for NONE the two sequences must also have touched the same masternodes |
| GovernanceRun.VotersAgreeIff | src/governance-object.cpp:616-658 | With the same deciding votes, the voters of every outcome agree if and only if the same masternodes were touched |
| GovernanceRun.VotersIff | src/governance-object.cpp:103-225 | A masternode counts for an outcome if and only if some message about it reached its record and its winning vote has that outcome |
| GovernanceRun.NoneCanDiffer | src/governance-object.cpp:103-225 | One invalid vote and no vote at all: the same deciding votes, different tallies of NONE |
| GovernanceRun.FileHoldsWinner | src/governance-votedb.cpp:22-110 | The vote file holds the winning vote and only votes of its timestamp, and its count is its length |
| GovernanceRun.FileDependsOnOrder | src/governance-votedb.cpp:22-110 | An example of two votes of one timestamp where the number of stored votes depends on which came first |
| GovernanceFile.StoredIff | src/governance-votedb.cpp:22-110 | A vote is stored if and only if it is of the latest timestamp of its masternode and signal and met no greater vote when it arrived |
| GovernanceFile.FileDeterminedIff | src/governance-votedb.cpp:22-110 | The file holds exactly the winner in every order of the same votes if and only if no two of them share the winner's timestamp with different outcomes |
| GovernanceFile.UnrivalledKeepsOne | src/governance-votedb.cpp:94-110 | Without such a rival the file holds exactly the winner |
| GovernanceFile.WinnerKept | src/governance-votedb.cpp:22-32 | The winner is stored in every order |
| GovernanceRun.BestAfter | src/governance-object.cpp:103-225 | One message moves a masternode's vote to the later of the two, or not at all |
| GovernanceRate.AcceptedIff | src/governance-object.cpp:103-225 | A vote is accepted if and only if it counts, is not stored, is not behind the current one and, under rate checks, comes 3600 seconds or more after the last update of its pair |
| GovernanceRate.InstanceNext | src/governance-object.cpp:147-225 | An accepted vote becomes the current one and, under rate checks, records its arrival; no other vote changes |
| GovernanceRate.BestAfterRated | src/governance-object.cpp:103-225 | One message, rate-checked or not, moves a masternode's vote to the later of the two if it comes in time, or not at all |
| GovernanceRate.LastUpdate | src/governance-object.cpp:179-195 | After any run the recorded update of a pair is the arrival of its last accepted vote under rate checks, or 0 |
| GovernanceRate.AcceptedApart | src/governance-object.cpp:179-195 | In every run, accepted votes of one masternode on one signal under rate checks come 3600 seconds or more apart |
| GovernanceRate.CurrentIsGreatest | src/governance-object.cpp:103-225 | Rate checks or not: after any messages each masternode's vote on each signal is the greatest (timestamp, outcome) of those accepted |
| GovernanceRate.VerdictMeans | src/governance-object.cpp:103-225 | What each verdict says about the message, and exactly which messages are beaten, in time, or known |
| GovernanceRun.WinnerUnique | src/governance-object.cpp:147-167 | The winner is determined by the set of votes |
| GovernanceRun.RemoveInvalidKeepsIff | src/governance-object.cpp:244-282 | Dropping invalid votes keeps stored votes current if and only if no valid vote is stored behind an invalid winner |
| GovernanceRun.RemoveInvalidEffect | src/governance-object.cpp:244-282 | Exactly the masternode's invalid votes go from the file, and from its record those among them that were current; other masternodes are not touched |
| GovernanceFile.RemoveInvalidCanFail | src/governance-object.cpp:244-282 | Two votes of one timestamp in ascending outcome, the greater found invalid later: the other stays stored and is current no more |
| Governance.ProcessVoteKeeps | src/governance-object.cpp:103-225 | Every stored vote carries the current timestamp, every current vote is stored, and list, index and count agree, after any message, rate-checked or not |
| Governance.ClearVotesKeeps | src/governance-object.cpp:227-242 | The same after masternodes leave the list; those still listed keep records and stored votes, all others lose both |
| Governance.AddVoteKeeps | src/governance-votedb.cpp:22-32 | Adding a vote removes exactly the older ones of its masternode, object and signal |
| Governance.RemoveKeeps | src/governance-votedb.cpp:58-110 | Any removal keeps list, index and count in agreement and removes exactly the votes asked for |
| Governance.RebuildIsRepair | src/governance-votedb.cpp:112-128 | Rebuilding the index keeps each vote once and changes nothing in a file that was in order |
| GovernanceObject.VoteFile.Copy | src/governance-votedb.cpp:14-20 | A copy is rebuilt from the list of the original |
| GovernanceObject.VoteFile.AddVote | src/governance-votedb.cpp:22-32 | The file after the addition, in agreement |
| GovernanceObject.VoteFile.RemoveOldVotes | src/governance-votedb.cpp:94-110 | Erasing while walking removes exactly the votes that the new one replaces |
| GovernanceObject.VoteFile.RemoveVotesFrom | src/governance-votedb.cpp:58-70 | Erasing while walking removes exactly one masternode's votes |
| GovernanceObject.VoteFile.RemoveInvalidVotes | src/governance-votedb.cpp:72-92 | Removes and returns exactly the masternode's invalid votes |
| GovernanceObject.VoteFile.RebuildIndex | src/governance-votedb.cpp:112-128 | The list keeps first occurrences and index and count are rebuilt from it |
| GovernanceObject.GovObject.ProcessVote | src/governance-object.cpp:103-225 | The object and verdict after a vote message, rate check and the masternode manager's refusal included, and the invariant |
| GovernanceObject.GovObject.ClearMasternodeVotes | src/governance-object.cpp:227-242 | Votes of masternodes that left go from both places |
| GovernanceObject.GovObject.RemoveInvalidVotes | src/governance-object.cpp:244-282 | The object after invalid votes of one masternode are dropped |
| GovernanceObject.GovObject.CountMatchingVotes | src/governance-object.cpp:616-629 | The number of masternodes whose current vote on the signal has the outcome |
| Bloom.RememberedSince | src/bloom.cpp:302-407 | For a filter built for N keys whose generations hold an entry, after any insertions since the reset every one of the last N keys is found |
| BloomExact.ContainsIff | src/bloom.cpp:342-391 | After any insertions a key is found if and only if each of its places is a place of some key of the last three generations, the current one included |
| BloomExact.FreshContainsNothing | src/bloom.cpp:379-407 | A fresh or reset filter that hashes at all contains nothing |
| Bloom.PerGenerationIff | src/bloom.cpp:302-310 | Generations hold an entry for every N but 0 and 2^32 - 1, where the 32-bit sum wraps to zero, and two of them hold N keys |
| Bloom.InsertKeeps | src/bloom.cpp:342-371 | An insertion leaves every place of a key of the last generations written at most as many generations ago as the key |
| Bloom.WipeIsExact | src/bloom.cpp:350-358 | The word-parallel mask clears exactly the positions tagged with the reused generation |
| Bloom.WipedTags | src/bloom.cpp:350-358 | The same for every pair of words and every bit |
| Bloom.MarkAllTags | src/bloom.cpp:362-370 | A key's places carry the current generation and no other place changes |
| Bloom.SetBitReads | src/bloom.cpp:368-369 | The mask-and-or writes one bit of a word and no other |
| Bloom.FastModInRange | src/bloom.cpp:338-340 | The multiply-and-shift index is in range, and stands to the range as the hash does to 2^32 |
| BloomFilter.RollingBloomFilter.constructor | src/bloom.cpp:302-327 | The fresh filter is empty, with the generation size of the number of keys, and can be used exactly when that size and the number of bits are not zero |
| BloomFilter.RollingBloomFilter.Wipe | src/bloom.cpp:350-358 | The loop over pairs of words wipes the whole array |
| BloomFilter.RollingBloomFilter.Insert | src/bloom.cpp:342-371 | The object becomes the filter after the insertion; all indices stay in range |
| BloomFilter.RollingBloomFilter.Contains | src/bloom.cpp:379-391 | True exactly when every place of the key is set |
| BloomFilter.RollingBloomFilter.Reset | src/bloom.cpp:399-407 | The filter is empty under the new tweak |
| ArithUint.Uint.Add | src/arith_uint256.h:135-145 | The limb-by-limb sum is the sum modulo 2^256 |
| ArithUint.Uint.Subtract | src/arith_uint256.h:147-151 | Adding the negation is the difference modulo 2^256 |
| ArithUint.Uint.Increment | src/arith_uint256.h:173-180 | The ripple of ++ adds one modulo 2^256 |
| ArithUint.Complement | src/arith_uint256.h:69-75 | The complement of v is 2^256 - 1 - v |
| ArithUint.Negate | src/arith_uint256.h:77-84 | The negation of v is 2^256 - v, modulo 2^256 |
| ArithUint.Uint.SetWord | src/arith_uint256.h:88-95 | Assignment of a 64-bit number |
| ArithUint.Uint.Multiply | src/arith_uint256.cpp:68-81 | The schoolbook product is the product modulo 2^256 and no 64-bit intermediate wraps |
| ArithUint.Uint.ShiftLeft | src/arith_uint256.cpp:22-36 | Shifting left by any amount multiplies by the power of two, modulo 2^256 |
| ArithUint.Uint.ShiftRight | src/arith_uint256.cpp:39-53 | Shifting right by any amount is floor division by the power of two |
| ArithUint.Uint.Divide | src/arith_uint256.cpp:84-107 | Shift-and-subtract is floor division; it fails exactly on divisor zero |
| ArithUint.CompareTo | src/arith_uint256.cpp:110-119 | The sign of the comparison of the numbers |
| ArithUint.BitLength | src/arith_uint256.cpp:172-184 | The position of the highest set bit plus one, or zero |
| Arith.ValInjective | src/arith_uint256.cpp:110-119 | Different limbs are different numbers |
| Compact.OverflowIff | src/arith_uint256.cpp:204-222 | The overflow flag is set exactly when mantissa times 256^(exponent-3) reaches 2^256 |
| Compact.Truncates | src/arith_uint256.cpp:204-245 | Decoding what was encoded drops the low bytes only, with relative loss below 2^-15 and neither flag set |
| Compact.Reencodes | src/arith_uint256.cpp:204-245 | A compact number that is neither negative nor too large keeps its value when encoded again |
| Compact.SignKept | src/arith_uint256.cpp:204-247 | The sign survives encoding exactly for numbers other than zero and does not touch the value |
| Compact.EncoderAsserts | src/arith_uint256.cpp:224-245 | The asserts of GetCompact hold for every 256-bit number |
| Compact.SetCompact | src/arith_uint256.cpp:204-222 | The limbs and both flags are those of the decoding |
| Compact.GetCompact | src/arith_uint256.cpp:224-245 | The compact form of the limbs' number |
| Compact.ProofIsExact | src/chain.cpp:120-133 | For every valid target the work is floor(2^256 / (target + 1)), at least 1 and below 2^256 |
| Compact.ProofAntitone | src/chain.cpp:120-133 | A lower target is at least as much work |
| Compact.TargetBelow | src/chain.cpp:120-133 | target + 1 never wraps, so the divisor is not zero |
| Compact.GetBlockProof | src/chain.cpp:120-133 | The limb computation gives that work, and zero for an invalid target |
| DbTx.RunRefines | src/dbwrapper.h:614-700 | After any run of writes and erases the parent under the pending changes is the parent after the same changes, no key is both written and deleted, and the memory count is the exact sum over pending writes and deletes |
| DbTx.ReadsView | src/dbwrapper.h:635-668 | Read and Exists answer like the overlaid view |
| DbTx.RecordKeeps | src/dbwrapper.h:614-684 | Every write and erase keeps the memory count exact |
| DbTx.CurrentIsLeast | src/dbwrapper.h:536-548 | The current key is the least key still to be visited, and there is one exactly when the iterator is valid |
| DbTx.ListsUnique | src/dbwrapper.h:400-551 | There is only one ascending listing of a set of keys |
| DbTransaction.Transaction.Write | src/dbwrapper.h:614-627 | The transaction after the write, with the value's type and an exact memory count |
| DbTransaction.Transaction.Read | src/dbwrapper.h:635-651 | Throws exactly when a pending value of another type is asked for, and otherwise reads the overlaid view |
| DbTransaction.Transaction.Exists | src/dbwrapper.h:658-668 | Membership in the overlaid view |
| DbTransaction.Transaction.Erase | src/dbwrapper.h:675-684 | The transaction after the erase, with an exact memory count |
| DbTransaction.Transaction.Commit | src/dbwrapper.h:692-700 | The target becomes the overlaid view of what it held, whether or not it is the parent, and the transaction is clean |
| DbTransaction.Transaction.GetMemoryUsage | src/dbwrapper.h:706-716 | The exact byte count; the negative case never happens |
| DbTransaction.Iterator.SeekToFirst | src/dbwrapper.h:426-431 | Exactly the overlaid view's keys are ahead |
| DbTransaction.Iterator.Seek | src/dbwrapper.h:438-443 | Exactly the overlaid view's keys from the given one on are ahead |
| DbTransaction.Iterator.Next | src/dbwrapper.h:449-462 | Exactly the current key is left behind; no assert fires |
| DbTransaction.Iterator.GetKey | src/dbwrapper.h:491-500 | The least key ahead, or none |
| DbTransaction.Iterator.GetValue | src/dbwrapper.h:514-523 | The overlaid view's value at the current key, unless it is pending under another type |
| DbTransaction.Iterator.SkipDeletedAndOverwritten | src/dbwrapper.h:526-534 | The parent's position moves to the next key the parent has to itself |
| DbTransaction.Walk | src/dbwrapper.h:400-551 | Walking on yields exactly the keys ahead, once each, in strictly ascending order |
| Chain.BlockIndex.GetAncestor | src/chain.cpp:83-107 | The skip-pointer walk equals following pprev, for every block and height; it terminates and its assert never fires |
| Chain.SkipsDown | src/chain.cpp:68-81 | The skip height is below the height for every height of at least 1 |
| Chain.LowestBit | src/chain.cpp:69-70 | The bit trick takes away the lowest bit that is set |
| Chain.BlockIndex.Append | src/chain.cpp:114-118 | Appending a block and building its skip pointer keeps the tree in order |
| Chain.ActiveChain.SetTip | src/chain.cpp:11-21 | Despite the early exit of the loop the chain is exactly the path from genesis to the tip |
| Chain.PathBelow | src/chain.cpp:11-21 | Every block of the chain has its ancestors in the chain |
| Chain.ActiveChain.FindFork | src/chain.cpp:51-60 | The highest block that the argument's ancestry shares with the chain, null when there is none |
| Chain.ActiveChain.GetLocator | src/chain.cpp:23-49 | Ancestors of the start at the prescribed distances, ending at genesis |
| Chain.LocatorIsShort | src/chain.cpp:23-49 | A locator's heights fall strictly, and with more than 12 entries 2^(entries - 12) + 9 is below the height |
| Base58.DecodeEncode | src/base58.cpp:21-109 | Decoding the encoding of any byte string gives it back |
| Base58.EncodeDecode | src/base58.cpp:21-109 | Encoding the decoding of any valid text without spaces gives it back |
| Base58.RebaseTwice | src/base58.cpp:21-109 | Changing the base and changing it back, leading zeros apart, is the identity |
| Base58.AlphabetIsBijective | src/base58.cpp:18-19 | Digits and characters correspond one to one |
| Base58.CheckIff | src/base58.cpp:130-145 | A text is accepted for a payload exactly when it decodes to the payload followed by its checksum |
| Base58.CheckRoundTrip | src/base58.cpp:121-145 | A payload encoded with its checksum is accepted and comes back |
| Base58Codec.TextFits | src/base58.cpp:71-109 | The n*138/100+1 digits reserved always hold n bytes |
| Base58Codec.BytesFit | src/base58.cpp:21-69 | The n*733/1000+1 bytes reserved always hold n characters |
| Base58Codec.MulAdd | src/base58.cpp:81-97 | The in-place loop multiplies and adds, and where the result fits the last carry is zero, so the assert holds |
| Base58Codec.EncodeBase58 | src/base58.cpp:71-109 | The buffer algorithm computes the encoding |
| Base58Codec.DecodeBase58 | src/base58.cpp:21-69 | The buffer algorithm computes the decoding, failures included |
| CompactBlock.Rebuilds | src/blockencodings.cpp:50-200 | When nothing at hand has a short id of the block without being its transaction, the slots completed with the missing transactions in order are the sender's list exactly |
| CompactBlock.FillMissing | src/blockencodings.cpp:178-200 | The list comes out if and only if what the slots hold is the list's own |
| CompactBlock.FillIff | src/blockencodings.cpp:178-200 | Exactly as many transactions as there are free slots are accepted |
| CompactBlock.FreeCount | src/blockencodings.cpp:60-87 | There are as many free slots as short ids, so every index stays in bounds |
| CompactBlock.PlacedAt | src/blockencodings.cpp:60-76 | Each prefilled transaction keeps its slot |
| CompactBlock.SlotsAscend | src/blockencodings.cpp:83-88 | Short ids get distinct slots in ascending order |
| CompactBlock.SlotFor | src/blockencodings.cpp:83-88 | Every slot that is not prefilled belongs to a short id |
| CompactBlock.SendDescribes | src/blockencodings.cpp:20-30 | What the sender makes is a compact form of its block |
| PartialBlock.PartiallyDownloadedBlock.Prefill | src/blockencodings.cpp:58-76 | Accepts exactly the well-formed prefilled lists and puts each transaction in its slot |
| PartialBlock.PartiallyDownloadedBlock.IndexIds | src/blockencodings.cpp:82-104 | Fails exactly when a short id meets a crowded bucket; otherwise each short id leads to a slot of its own, and the table's size tells whether ids collide |
| PartialBlock.PartiallyDownloadedBlock.ScanPool | src/blockencodings.cpp:106-134 | A slot holds its prefilled transaction, nothing, or a pool transaction with its short id, a transaction that is alone with its short id fills its slot, and the count of filled slots is exact |
| PartialBlock.PartiallyDownloadedBlock.ScanExtra | src/blockencodings.cpp:136-165 | The same with the extra transactions: a slot keeps its pool transaction unless a different one turns up, and an unmarked one is filled if all that turn up are the same |
| BlockScan.StoppedIsTaken | src/blockencodings.cpp:106-134 | Stopping the scan early, once every slot is filled, loses nothing: transactions that are alone with their short id fill their slots all the same |
| BlockScan.ServedBoth | src/blockencodings.cpp:106-165 | A short id with one pool transaction, and no different extra one, or with no pool transaction and extra ones that are all the same, has its slot filled with it |
| PartialBlock.PartiallyDownloadedBlock.InitData | src/blockencodings.cpp:50-170 | Invalid exactly for malformed messages, failed exactly when well-formed ids collide or crowd a bucket, and otherwise what every slot holds and which transactions at hand fill theirs |
| PartialBlock.SlotsFitIff | src/blockencodings.cpp:82-86 | All slots fit their 16 bits if and only if the block has at most 65536 transactions |
| PartialBlock.PartiallyDownloadedBlock.FillBlock | src/blockencodings.cpp:178-219 | The filled list when exactly the missing transactions are given, then the verdict of the block check |
| PartialBlock.Deliver | src/blockencodings.cpp:20-219 | A block sent in compact form is read exactly when it is within the limit and its ids neither collide nor crowd a bucket, and completed with what the receiver lacks it arrives as it was |

## Left out

- CheckQueue.WaitIsExact: the to-do counter is unbounded; 32-bit wrap-around of the number of queued checks is not modelled.
- CheckQueue.NoDeadlock: covers the rounds of Wait; shutting the worker threads down is not modelled.
- CuckooCache.Cache.constructor: takes the base-two logarithm of the size, from 1 to 31, which the code computes in floating point; hashes masked to the size are taken as remainders.
- CoinsCache.CoinsViewCache.AddCoin: the memory count is exact only when no exception is thrown.
- AddrManRun.RunPassesCheck: times passed to Good_ are positive and to Attempt_ not negative, as the clock gives them.
- AddrManStream.Unserialize: reads into a fresh manager a stream whose announced counts are not negative; what a failed read leaves behind is not stated, since its caller clears the manager.
- AddrManager.AddrManager.Check: on managers in order, as every operation leaves them; what it reports for others is not stated.
- MixingRun.FinalMerges: sorting is by insertion; the order that the library sort gives to inputs of one outpoint is one choice.
- MixingServer.Server.AddScriptSig: the script check of a signature is a parameter of the call.
- GovernanceRun.OrderIndependent: rate checks are off; with them arrival times decide which votes are accepted, as `GovernanceRate.AcceptedIff` says.
- MixingRun.RunIsSound: the memory pool's own checks, which come after the transaction is handed over, are not modelled.
- Governance.ProcessVoteKeeps: votes name the object they are given to, as the governance manager routes them; a vote stands for its hash, which is taken over the same fields; orphan votes and the cached sentinel flags are not modelled.
- BloomFilter.RollingBloomFilter.constructor: the number of hash functions and of bits, which the code computes in floating point, are parameters.
- Chain.ActiveChain.GetLocator: returns blocks where the code returns their hashes, and its step is an unbounded integer.
- Chain.BlockIndex.Append: the skip pointer is set when the block is appended and never again.
- DbTransaction.Transaction.Read: values are their serialised bytes, and a number stands for the type of each pending one.
- DbTransaction.Walk: the transaction and its parent do not change while the iterator walks.
- Base58Codec.DecodeBase58: the text is a C string; cutting a longer string at its first NUL is not modelled.
- PartialBlock.PartiallyDownloadedBlock.InitData: a well-formed message has at most 65536 transactions, beyond which the code's 16-bit slots wrap (`PartialBlock.SlotsFitIff`); the statistics of extra transactions are not modelled.
- PartialBlock.PartiallyDownloadedBlock.IndexIds: at most 65536 transactions, for the same reason.
- PartialBlock.Deliver: at most 65536 transactions, for the same reason.
- `Select_`, `GetChance` and `GetAddressInfo_` of the address manager: probabilities and plain lookups.
- `SetBackend`, `SetBestBlock`, `HaveCoinInCache` and cursors of the coin caches: plain accessors.
- Multiplication by a 32-bit number, hexadecimal and byte conversions of 256-bit numbers, and `GetBlockProofEquivalentTime`: easy next to what is here.
- `CScopedDBTransaction`, batches and LevelDB itself: thin wrappers over foreign code.
- `FindEarliestAtLeast` of the chain: a library binary search.
- The mixing queue messages, fees charged at random after a success, and everything on the client side.
- Superblocks, triggers, proposals, BIP 39 word lists, script evaluation, networking, the wallet and the user interface.
