# TWINS Core: data structures and algorithms, modelled and proved in Dafny

TWINS Core is a coin node in the PIVX and Bitcoin family.  This project models the self-contained
data structures and algorithms of its C++ code and proves what they promise, over all inputs and all
runs.  `dafny verify dfyconfig.toml` checks everything.

## What is modelled

* **The peer address manager.**  `AddrBook.dfy` is the address book without redundancy: entries,
  the "new" table and the tried table, and what each request does to them.  `AddrMan.dfy` is the class
  with all its indexes (`mapInfo`, `mapAddr`, `vRandom`, the two bucket arrays, the counters); each
  method keeps the indexes in step and acts as the book says, through the half-broken states inside
  `MakeTried`.  `AddrLaws.dfy` says what each request records, in terms of the peer alone.  `AddrFile.dfy` is
  the saved record and its reload, `AddrReload.dfy` who survives it, `AddrCheck.dfy` what the source's
  own `Check_` counts.
* **The coins cache.**  `Coins.dfy` is one transaction's outputs, spending and undoing;
  `CoinsCache.dfy` is a stack of write-back caches with DIRTY and FRESH flags on a database, which
  refines one flat map.  `VarInt.dfy`, `Amounts.dfy`, `Scripts.dfy` and `CoinsCodec.dfy` are the compact
  serialization from the integer code up to the whole record, `Formats.dfy` its examples byte for byte.
* **Zerocoin mint selection.**  `Denominations.dfy` proves that largest-first is complete and minimal
  for the denominations 1, 5, 10, 50, 100, 500, 1000, 5000; `CoinSelection.dfy` is the code on top of it.
* **The check queue.**  `CheckQueue.dfy` is one master and any number of workers under one mutex with
  two condition variables, as a state machine whose steps are the critical sections and the single
  evaluations.
* **Encodings.**  `Base58.dfy` (with `Digits.dfy`) and `Bip39.dfy` (with `Bits.dfy`).
* **Consensus cores.**  `StakeModifier.dfy`, `Chain.dfy` (block tree, skip list, active chain, locators)
  and `Budget.dfy` with `BudgetLaws.dfy` (proposal budget), with `Sorting.dfy` for the standard sort and
  `Collections.dfy` for facts about sets and sequences.
* **Page locks.**  `PageLocks.dfy` is the reference counter that makes memory locks stack.

Hashes, signatures, elliptic-curve operations, the clock and random draws are parameters.  Asserts of
the source appear as assertions that are proved, or as branches that are proved not to be taken.

## Where the code does something else than one would expect

* `DisconnectBlock` does not restore the coinstake flag that the undo data carries, and reads a
  recorded height of 0 as "not the last output" (`Coins.SpendIsUndone`).
* `Add_` reports success for an address that it drops again (`AddrBook.AnnouncedIsKnown`,
  `AddrBook.AnnouncedAndDropped`).
* A flush from a cache that knows no best block makes its base cache forget its own
  (`CoinsCache.CoinsViewCache.Flush`, `CoinsCache.FlushForgets`).
* Of a negative height or version only the low seven bits are written (`CoinsCodec.CoinsRoundTrip`).
* A fully spent record keeps its flags, height and version while it is cached, and a modification sees
  them.  Only undo data without a height make a difference of that, which the source reports as damaged
  (`CoinsCache.RestoringIsRespectful`).
* `CAddrMan::Clear` keeps `mapInfo` and `mapAddr`, so it leaves a consistent manager only when there
  was nothing to clear (`AddrMan.CAddrMan.Clear`).
* `FromData` makes phrases of 15 and 21 words that `Check` refuses (`Bip39.PhraseAccepted`).
* A page range that touches the last page of the address space makes the loop of `LockRange` run
  forever, because the page address wraps (`PageLocks.LoopEndsIff`), and that of `UnlockRange` run until
  its assertion fails (`PageLocks.UnlockFails`).
* `GetBudget` may select more than 100 proposals, and then the finalized budget that is built from them
  is invalid.  This takes a budget of at least 1010 coins (`Budget.AtMostHundredIff`,
  `Budget.TooPopular`), which every chain has (`Budget.TotalBudgetIsAmple`).  Of the two tests on the
  number of payments, which the source calls the same, the first one lets 101 pass (`Budget.IsValid`).
* The comment on `GetSkipHeight` reports at most 110 steps for 2^18 blocks in simulations; the bound
  proved for all blocks is 360 (`Chain.CBlockIndex.GetAncestor`).
* The comments give examples of older formats: the header codes 4 and 9 of `coins.h` are 8 and 17 with the
  coinstake flag (`Formats.RecordExample`, `Formats.MaskExample`), and the bytes that `serialize.h` gives for
  16511 and 65535 are not those written (`Formats.IntegerExamples`).
* For the first block after the genesis block the stake modifier is the address of a string literal
  cast to an integer, so it is a parameter here.

## Model

| member | source | states |
|---|---|---|
| `AddrBook.ApplyValid` | TWINS-Core/src/addrman.cpp:201-316 | one Add_, Good_, Attempt_ or Connected_ keeps every law of the book: each occupied "new" slot holds a known untried entry that hashes to it, each tried slot a known entry that hashes there and has succeeded, network addresses are distinct, every entry has at most 8 references, every untried entry at least one, ids are below the next id |
| `AddrBook.Run` | TWINS-Core/src/addrman.cpp:201-316 | the same after any finite sequence of requests with positive success times |
| `AddrBook.PromoteSound` | TWINS-Core/src/addrman.cpp:153-199 | moving an untried entry to the tried table keeps all laws, whatever it evicts and whatever the evicted entry displaces; afterwards the entry sits in exactly its own tried slot |
| `AddrBook.PromoteLoss` | TWINS-Core/src/addrman.cpp:171-193 | a promotion invents no entry, changes none, and forgets at most the entry whose single "new" slot the evicted entry takes |
| `AddrBook.OnlySoleOccupantIsForgotten` | TWINS-Core/src/addrman.cpp:124-151 | no request forgets a tried peer; a forgotten peer had exactly one slot, the one contested by the request |
| `AddrBook.AtMostOneIsForgotten` | TWINS-Core/src/addrman.cpp:124-151 | a request forgets at most one peer |
| `AddrBook.AnnouncedIsKnown` | TWINS-Core/src/addrman.cpp:287-315 | an unknown routable address is known after Add_ exactly when its slot was free, or held a bad entry, or an entry that also sits elsewhere (Add_ itself returns true in all cases) |
| `AddrBook.AnnouncedAndDropped` | TWINS-Core/src/addrman.cpp:287-315 | a concrete consistent book and a routable unknown address, for which Add_ returns true, that is unknown afterwards |
| `AddrBook.KeptIff` | TWINS-Core/src/addrman.cpp:201-335 | from a consistent book a request leads to a consistent book exactly when its time may be recorded (positive for Good_, not negative for Attempt_, any for the others) or the very service is not in the book |
| `AddrBook.EvictSound` | TWINS-Core/src/addrman.cpp:171-181 | taking the occupant out of a tried slot leaves it in neither table and every other law intact |
| `AddrBook.ClearSlotEffect` | TWINS-Core/src/addrman.cpp:138-151 | emptying a slot deletes an entry exactly when it was its last slot and touches no other entry or slot |
| `AddrLaws.AnnouncedAgain` | TWINS-Core/src/addrman.cpp:259-268 | a known peer that is announced again takes the announced time less the penalty, at least 0, exactly when that time is known and the old one is missing or behind by more than the penalty and an hour, or a day for a peer not seen within a day; otherwise its time stays; it never falls unless the penalty is negative; the services add up and nothing else changes |
| `AddrLaws.TakesOneMoreSlot` | TWINS-Core/src/addrman.cpp:270-314 | a known peer takes the contested slot exactly when the time is news after the refresh, the peer is untried and has fewer than 8 slots, the draw hits one in 2^n for n slots, and the slot is free or held by a bad entry |
| `AddrLaws.NewPeerIsRecorded` | TWINS-Core/src/addrman.cpp:287-315 | an unknown peer that stays known is recorded under the next id with the announced address, the time less the penalty, at least 0, its source, no history, and the one slot of its source |
| `AddrLaws.OthersAreLeftAlone` | TWINS-Core/src/addrman.cpp:201-335 | no request changes what is remembered about another peer or invents one |
| `AddrLaws.GoodIsTried` | TWINS-Core/src/addrman.cpp:201-248 | after Good_ the success is recorded, the peer sits in its tried slot and nowhere else, and a peer evicted from there is back in the slot of its own source |
| `AddrLaws.ConnectedAfterTwentyMinutes` | TWINS-Core/src/addrman.cpp:479-497 | the time of a known service is replaced exactly after more than twenty minutes, nothing else changes |
| `AddrLaws.StrangersAreIgnored` | TWINS-Core/src/addrman.cpp:206-213 | a service whose port is not the one known, or that is unknown, changes nothing |
| `AddrLaws.AttemptsAddUp` | TWINS-Core/src/addrman.cpp:318-335 | after any run of attempts their number is added to the count and the last time is remembered, nothing else changes |
| `AddrLaws.GivenUp` | TWINS-Core/src/addrman.cpp:37-57 | when a peer is bad after any run of attempts: never within a minute of the last; then exactly if it was not seen within thirty days or is seen in the future, or never answered three times, or failed ten times and last answered more than a week ago |
| `AddrLaws.GroupReachesEightTried` | TWINS-Core/src/addrman.cpp:16-21 | the addresses of one group reach at most 8 of the 256 tried buckets, whatever the hash |
| `AddrLaws.SourcesReachSixtyFourNew` | TWINS-Core/src/addrman.cpp:23-29 | one group of sources reaches at most 64 of the 1024 "new" buckets, and one of them for each group of addresses |
| `AddrMan.CAddrMan.constructor` | TWINS-Core/src/addrman.h:432-450 | a new manager is consistent and empty |
| `AddrMan.CAddrMan.Find` | TWINS-Core/src/addrman.cpp:79-90 | the id of the entry with the network address, or none exactly when there is no such entry |
| `AddrMan.CAddrMan.Create` | TWINS-Core/src/addrman.cpp:92-102 | one new entry under the next id, in every index and in no table |
| `AddrMan.CAddrMan.SwapRandom` | TWINS-Core/src/addrman.cpp:104-122 | two places of the vector are exchanged and all positions stay right |
| `AddrMan.CAddrMan.Delete` | TWINS-Core/src/addrman.cpp:124-136 | the entry is gone from every index, the counter is one less, all indexes agree |
| `AddrMan.CAddrMan.Load` | TWINS-Core/src/addrman.h:346-351 | an entry enters every index except the tables |
| `AddrMan.CAddrMan.DropNew` | TWINS-Core/src/addrman.cpp:142-146 | one reference is dropped from its position and from the count; only this changes |
| `AddrMan.CAddrMan.FillNew` | TWINS-Core/src/addrman.cpp:307-308 | an empty position is filled and the reference counted |
| `AddrMan.CAddrMan.LeaveTried` | TWINS-Core/src/addrman.cpp:173-181 | the occupant leaves its tried slot; flag, slot and counter agree |
| `AddrMan.CAddrMan.FillTried` | TWINS-Core/src/addrman.h:376-383 | an empty tried slot is filled and the entry flagged |
| `AddrMan.CAddrMan.EnterTried` | TWINS-Core/src/addrman.cpp:196-198 | the same, and the counter is one more |
| `AddrMan.CAddrMan.Rewrite` | TWINS-Core/src/addrman.cpp:216-219 | an entry is changed in place without its network address; every index still agrees |
| `AddrMan.CAddrMan.ClearNew` | TWINS-Core/src/addrman.cpp:138-151 | the position is emptied, the occupant deleted if this was its last reference, the counter lowered by the entries deleted |
| `AddrMan.CAddrMan.DropAllNew` | TWINS-Core/src/addrman.cpp:155-165 | exactly the references of the entry are dropped; its count is 0 afterwards |
| `AddrMan.CAddrMan.Evict` | TWINS-Core/src/addrman.cpp:171-193 | the occupant of the tried slot is back in the "new" table in the slot of its own source; both counters exact |
| `AddrMan.CAddrMan.MakeRoom` | TWINS-Core/src/addrman.cpp:171-194 | the tried slot is free afterwards; both counters exact |
| `AddrMan.CAddrMan.MakeTried` | TWINS-Core/src/addrman.cpp:153-199 | all indexes and counters agree again and the book changed as the promotion specified in AddrBook; every assertion on the way holds |
| `AddrMan.CAddrMan.FindBucket` | TWINS-Core/src/addrman.cpp:227-242 | the search from any random start finds a bucket that holds the entry, so Good_ never bails out there |
| `AddrMan.CAddrMan.Good_` | TWINS-Core/src/addrman.cpp:201-248 | for any time the book changes as Good in AddrBook and all indexes and counters agree; the whole consistency invariant holds afterwards exactly when the time is positive or the very service was not known |
| `AddrMan.CAddrMan.Update` | TWINS-Core/src/addrman.cpp:259-268 | the branches of the source do what Refresh specifies, which AnnouncedAgain characterizes |
| `AddrMan.CAddrMan.Lucky` | TWINS-Core/src/addrman.cpp:280-286 | true exactly for draws divisible by 2^n |
| `AddrMan.CAddrMan.Announce` | TWINS-Core/src/addrman.cpp:259-286 | the entry is refreshed and takes part further exactly when it has newer information, is untried, has fewer than 8 references and wins the draw |
| `AddrMan.CAddrMan.OfferSlot` | TWINS-Core/src/addrman.cpp:294-314 | the slot of the source is taken, refused, or the entry without any slot deleted, as Offer in AddrBook |
| `AddrMan.CAddrMan.Insert` | TWINS-Core/src/addrman.cpp:287-292 | an unknown address becomes an entry with its time reduced by the penalty, never below 0 |
| `AddrMan.CAddrMan.Add_` | TWINS-Core/src/addrman.cpp:250-316 | the invariant is kept, the book changes as Add in AddrBook, and the result is true exactly for a routable unknown address |
| `AddrMan.CAddrMan.Attempt_` | TWINS-Core/src/addrman.cpp:318-335 | time of last try and attempts of exactly the matching service change and all indexes agree; the whole invariant holds afterwards exactly when the time is not negative or the very service was not known |
| `AddrMan.CAddrMan.Connected_` | TWINS-Core/src/addrman.cpp:479-497 | the invariant is kept; only the time of the matching service changes, and only after twenty minutes |
| `AddrMan.CAddrMan.PickAddresses` | TWINS-Core/src/addrman.cpp:464-476 | the shuffle only permutes the vector and visits entries one by one until the sample is full or all are visited |
| `AddrMan.CAddrMan.GetAddr_` | TWINS-Core/src/addrman.cpp:458-477 | at most 2500 and at most 23 percent of those known, only good entries, no network address twice, and every good entry when there is room for one more |
| `AddrMan.CAddrMan.CheckEntry` | TWINS-Core/src/addrman.cpp:389-413 | none of the tests on an entry fails |
| `AddrMan.CAddrMan.CheckEntries` | TWINS-Core/src/addrman.cpp:389-418 | both collections have exactly the sizes that the counters say |
| `AddrMan.CAddrMan.CheckTried` | TWINS-Core/src/addrman.cpp:420-432 | every occupied tried position holds a collected id that hashes there, once; none is left over |
| `AddrMan.CAddrMan.CheckNew` | TWINS-Core/src/addrman.cpp:434-450 | every occupied "new" position holds a collected id that hashes there and every reference count comes down to zero |
| `AddrMan.CAddrMan.Check_` | TWINS-Core/src/addrman.cpp:381-455 | for every consistent manager the source's own consistency check returns 0 (or -16 for a null key) |
| `AddrMan.CAddrMan.WipeTables` | TWINS-Core/src/addrman.h:436-445 | no cell of either table is in use |
| `AddrMan.CAddrMan.Clear` | TWINS-Core/src/addrman.h:432-450 | what it resets; as mapInfo and mapAddr are left alone, the indexes agree afterwards exactly when no peer was known |
| `AddrMan.CAddrMan.SaveNews` | TWINS-Core/src/addrman.h:286-299 | the untried entries in the order of their ids, with the index of each; the assertion on nNew holds |
| `AddrMan.CAddrMan.SaveTrieds` | TWINS-Core/src/addrman.h:300-308 | the tried entries in the order of their ids; the assertion on nTried holds |
| `AddrMan.CAddrMan.SaveBucket` | TWINS-Core/src/addrman.h:309-322 | the indexes of the occupants of a bucket in the order of its positions |
| `AddrMan.CAddrMan.Serialize` | TWINS-Core/src/addrman.h:280-323 | the record of a consistent manager is the one defined by SavedOf |
| `AddrMan.CAddrMan.LoadNews` | TWINS-Core/src/addrman.h:346-366 | the new entries of any well-formed record, with slots from their own sources when positions are unusable |
| `AddrMan.CAddrMan.LoadTriedEntry` | TWINS-Core/src/addrman.h:369-386 | a tried entry takes its slot, or is lost exactly when the slot is taken |
| `AddrMan.CAddrMan.LoadTrieds` | TWINS-Core/src/addrman.h:368-388 | all tried entries, and how many were lost |
| `AddrMan.CAddrMan.LoadReference` | TWINS-Core/src/addrman.h:394-404 | one saved reference is used exactly when the format matches, the position is free and the entry has fewer than 8 references |
| `AddrMan.CAddrMan.LoadReferences` | TWINS-Core/src/addrman.h:390-406 | all saved references, bucket by bucket |
| `AddrMan.CAddrMan.Prune` | TWINS-Core/src/addrman.h:408-418 | exactly the entries in neither table are deleted and the counter lowered by their number |
| `AddrMan.CAddrMan.Unserialize` | TWINS-Core/src/addrman.h:326-424 | from a manager without peers any record of distinct peers, of any version and bucket count, loads into a consistent manager with exact counters, as defined by Restored |
| `AddrFile.RestoredIsValid` | TWINS-Core/src/addrman.h:326-424 | whatever its version, buckets and references, a record of distinct peers restores to a consistent book |
| `AddrReload.TriedSurvives` | TWINS-Core/src/addrman.h:368-388 | from any record of distinct peers a tried peer survives exactly when none listed before it hashes to the same tried slot, and then with everything but the time of its last try |
| `AddrReload.UntriedSurvives` | TWINS-Core/src/addrman.h:346-366 | when the saved positions cannot be used an untried peer survives exactly when none listed before it has the slot that its own source selects, and then in that slot |
| `AddrFile.SaveAndLoad` | TWINS-Core/src/addrman.h:280-424 | loading what was saved from any consistent book gives the same entries, "new" slots and tried slots up to a one-to-one renumbering, nothing lost to collisions, with equally many entries |
| `AddrFile.ListsBack` | TWINS-Core/src/addrman.h:368-388 | no two saved tried peers compete for a slot |
| `AddrFile.RoomForReference` | TWINS-Core/src/addrman.h:400-403 | every saved reference finds its position free and its entry below the limit |
| `AddrFile.NothingPruned` | TWINS-Core/src/addrman.h:408-418 | after a reload of a saved book no entry is pruned |
| `AddrFile.ListSizes` | TWINS-Core/src/addrman.h:290-306 | the lists of untried and tried ids are exactly as long as the counters say |
| `AddrFile.NumberInjective` | TWINS-Core/src/addrman.h:286-299 | different entries get different numbers |
| `Coins.Cleanup` | TWINS-Core/src/coins.h:121-128 | the array without its maximal run of spent outputs at the end |
| `Coins.Spend` | TWINS-Core/src/coins.cpp:36-53 | succeeds exactly for an existing unspent output; then that output is spent, every other one is as before with null ones at the end dropped, the metadata stay, and are part of the undo record exactly when no output is left; otherwise nothing changes |
| `Coins.SpentIsSpent` | TWINS-Core/src/coins.cpp:37-53 | an output that was spent is not unspent any more, nothing else changes |
| `Coins.SpentInTurnIs` | TWINS-Core/src/main.cpp:2101-2101 | after any spends in any order exactly the outputs are unspent that were and are not among them, so none can be spent twice |
| `Coins.RestoredOutputs` | TWINS-Core/src/main.cpp:2391-2407 | undoing a spend always brings all outputs back |
| `Coins.SpendIsUndone` | TWINS-Core/src/main.cpp:2391-2407 | undoing a spend gives the whole record back exactly when an output survived, or it is no coinstake above height 0, or it is at height 0 and the view still has its metadata |
| `Coins.LastSpendForgetsCoinStake` | TWINS-Core/src/main.cpp:2391-2407 | undoing the spend of the last output of any coinstake above height 0 gives it back as no coinstake |
| `Coins.UndoForgetsCoinStake` | TWINS-Core/src/main.cpp:2395-2398 | a concrete coinstake, whose empty first output is spent already, that loses its flag |
| `CoinsCache.WriteOneOk` | TWINS-Core/src/coins.cpp:170-195 | moving one dirty entry into the parent: the FRESH assertion holds, both deletion shortcuts lose nothing, the parent then shows the child's coins and nothing else changes |
| `CoinsCache.Modified` | TWINS-Core/src/coins.cpp:274-282 | dropping a fresh, fully spent entry when a modification ends loses nothing |
| `CoinsCache.CoinsViewDB.BatchWrite` | TWINS-Core/src/txdb.cpp:57-76 | the database shows exactly what the flushed cache showed, fully spent records are erased, and a best block replaces the old one unless it is none |
| `CoinsCache.CoinsViewCache.OnDatabase` | TWINS-Core/src/coins.cpp:80-80 | a new cache on the database is empty, knows no best block and shows what the database shows |
| `CoinsCache.CoinsViewCache.OnCache` | TWINS-Core/src/coins.cpp:80-80 | a new cache on a cache is empty, knows no best block and shows what that cache shows |
| `CoinsCache.CoinsViewCache.FetchCoins` | TWINS-Core/src/coins.cpp:87-103 | reading caches but changes nothing visible, at any depth of the stack |
| `CoinsCache.CoinsViewCache.BaseGetCoins` | TWINS-Core/src/coins.cpp:93-93 | the layer below answers with what it shows, and still shows it |
| `CoinsCache.CoinsViewCache.GetCoins` | TWINS-Core/src/coins.cpp:105-113 | answers with what the stack shows and changes nothing visible |
| `CoinsCache.CoinsViewCache.HaveCoins` | TWINS-Core/src/coins.cpp:144-152 | true exactly when the visible record has an unspent output, although only the length of vout is looked at |
| `CoinsCache.CoinsViewCache.EntryFor` | TWINS-Core/src/coins.cpp:117-131 | the entry handed out is marked fresh exactly when the layers below show nothing |
| `CoinsCache.CoinsViewCache.ModifyCoins` | TWINS-Core/src/coins.cpp:115-132 | after the modification the transaction shows the cleaned-up result of the change, every other one is untouched, and so is the best block |
| `CoinsCache.CoinsViewCache.GetBestBlock` | TWINS-Core/src/coins.cpp:154-159 | the hash of the first layer that has one, remembered in every layer that was asked |
| `CoinsCache.CoinsViewCache.SetBestBlock` | TWINS-Core/src/coins.cpp:161-164 | only the best block of this layer changes |
| `CoinsCache.CoinsViewCache.TakeEntry` | TWINS-Core/src/coins.cpp:170-195 | the branches of the loop body do what WriteOne specifies; the FRESH assertion holds |
| `CoinsCache.CoinsViewCache.TakeAll` | TWINS-Core/src/coins.cpp:166-201 | in any order of the entries the parent ends up showing what the child showed |
| `CoinsCache.CoinsViewCache.BatchWrite` | TWINS-Core/src/coins.cpp:166-201 | the cache then shows what the flushed child showed and has its best block, even when that is none |
| `CoinsCache.CoinsViewCache.Flush` | TWINS-Core/src/coins.cpp:203-208 | the cache is empty afterwards and both it and its base show what it showed before; the layer below has the best block of this one, and if this one knew none, that of the layer below it; so the best block shown stays exactly when the cache knew one, or lies on the database, or its base knew none or the same as the layers below |
| `CoinsCache.CoinsViewCache.EndModifier` | TWINS-Core/src/coins.cpp:274-282 | the end of a modification cleans the entry and drops it if it is fresh and fully spent; the transaction then shows the cleaned result, nothing else changes |
| `CoinsCache.Perform` | TWINS-Core/src/coins.cpp:87-208 | any request, respectful or not, is answered as one flat map that holds what the stack shows would answer it, and changes only what it names |
| `CoinsCache.Step` | TWINS-Core/src/coins.cpp:87-208 | one respectful request to a stack that may grow or shrink answers and acts as on one flat map of coins; it does so for the best block too, unless a flush is not preceded by a known best block or the best block is set to none |
| `CoinsCache.Simulate` | TWINS-Core/src/test/coins_tests.cpp:76-178 | any sequence of respectful modifications, reads, new layers and flushes on a stack answers exactly as a flat map of coins does, and all questions about the best block as well when each flush follows right after the best block was set or asked for; respectful are modifications that leave the same for a reader on every fully spent record |
| `CoinsCache.Mismatch` | TWINS-Core/src/coins.cpp:115-132 | the condition on modifications is exact: for every other one and any database with something to spend there is a run of two modifications and a read that the stack answers differently |
| `CoinsCache.FlushForgets` | TWINS-Core/src/coins.cpp:203-208 | so is the one on flushes: over any database, a best block set in a cache is forgotten, and the one of the database answered, after the flush of a new cache above it |
| `CoinsCache.SpendingIsRespectful` | TWINS-Core/src/main.cpp:2101-2101 | spending an output, or not when it is missing or spent, is respectful |
| `CoinsCache.ReplacingIsRespectful` | TWINS-Core/src/main.cpp:2107-2107 | so is replacing the record, as adding the outputs of a transaction and removing them do |
| `CoinsCache.RestoringIsRespectful` | TWINS-Core/src/main.cpp:2390-2407 | restoring an output is respectful exactly when the undo data carry a height or restore nothing; without a height a fully spent record keeps its stale fields |
| `Denominations.SweepComplete` | TWINS-Core/src/denomination_functions.cpp:41-63 | largest first with limited supply finds an exact payment whenever one exists |
| `Denominations.ExactIffPossible` | TWINS-Core/src/denomination_functions.cpp:41-63 | the sweep pays exactly if and only if some choice of the coins held does |
| `Denominations.SweepThrifty` | TWINS-Core/src/denomination_functions.cpp:41-63 | no exact payment from the coins held uses fewer coins than the sweep |
| `Denominations.OverIsTight` | TWINS-Core/src/denomination_functions.cpp:364-375 | the sweep that may pay too much uses a coin only when all larger ones are used, and without its smallest coin it would not pay |
| `Denominations.Extract` | TWINS-Core/src/libzerocoin/Denominations.h:20-35 | coins below a denomination that are worth a multiple of it contain some worth exactly that multiple |
| `Denominations.TakesMost` | TWINS-Core/src/denomination_functions.cpp:53-61 | at the largest denomination the sweep takes at least as many coins as any exact payment |
| `Denominations.ChangeConserves` | TWINS-Core/src/denomination_functions.cpp:68-88 | change is worth the amount asked for up to a remainder below the smallest denomination; none for nothing |
| `Denominations.ChangeIsFewest` | TWINS-Core/src/denomination_functions.cpp:68-88 | no other coins of the same value are as few as the change given |
| `CoinSelection.Grab` | TWINS-Core/src/denomination_functions.cpp:55-60 | as many coins of one denomination as are held and fit |
| `CoinSelection.SweepDown` | TWINS-Core/src/denomination_functions.cpp:53-61 | the sweep over the lower denominations and what it leaves unpaid |
| `CoinSelection.GetSpendCoins` | TWINS-Core/src/denomination_functions.cpp:41-63 | the sweep of all denominations |
| `CoinSelection.GrabAll` | TWINS-Core/src/denomination_functions.cpp:80-85 | as many coins as fit, however many are held |
| `CoinSelection.GetChange` | TWINS-Core/src/denomination_functions.cpp:68-88 | the change defined by the unlimited sweep |
| `CoinSelection.GetNumberOfCoinsUsed` | TWINS-Core/src/denomination_functions.cpp:13-21 | the number of coins |
| `CoinSelection.GetMaxDenomHeld` | TWINS-Core/src/denomination_functions.cpp:26-37 | the largest denomination held, if any |
| `CoinSelection.GetNextLowerDenomHeld` | TWINS-Core/src/denomination_functions.cpp:201-212 | the largest denomination held below another, if any |
| `CoinSelection.GetIdealSpends` | TWINS-Core/src/denomination_functions.cpp:94-118 | started on an empty map it returns true exactly when some choice of unused mints is worth the target, for any list and any target |
| `CoinSelection.GrabMints` | TWINS-Core/src/denomination_functions.cpp:108-115 | one walk over the list takes as many mints of the denomination as are unused and fit |
| `CoinSelection.GetSpends` | TWINS-Core/src/denomination_functions.cpp:123-143 | with a mint of each wanted denomination it ends; the mints picked and their total are those wanted |
| `CoinSelection.OneRound` | TWINS-Core/src/denomination_functions.cpp:132-139 | one walk picks the first unused mints of the denomination, as many as wanted or all |
| `CoinSelection.PickDenom` | TWINS-Core/src/denomination_functions.cpp:131-140 | walks are repeated until the number wanted is reached, and are worth that many coins |
| `CoinSelection.PickedElements` | TWINS-Core/src/denomination_functions.cpp:130-141 | what getSpends picks are unused mints, as many of each denomination as wanted |
| `CoinSelection.PickedDistinct` | TWINS-Core/src/denomination_functions.cpp:130-141 | no mint is picked twice exactly when no more mints are wanted than there are |
| `CoinSelection.CoverRest` | TWINS-Core/src/denomination_functions.cpp:252-261 | one more coin, the smallest left over that is larger than the rest, or none if there is none; while something is left every coin in reserve is at most what is left |
| `CoinSelection.RemoveOverlap` | TWINS-Core/src/denomination_functions.cpp:274-284 | exactly the coins common to spending and change are cancelled, so the difference in value stays |
| `CoinSelection.StuckPaysExactly` | TWINS-Core/src/denomination_functions.cpp:235-247 | when the strict sweep gets stuck although the coins suffice, paying without overshoot is exact |
| `CoinSelection.CancelledIsChange` | TWINS-Core/src/denomination_functions.cpp:263-294 | computing the change again after cancelling gives what cancelling left of it, so no coin is both spent and returned in the attempt |
| `CoinSelection.Settle` | TWINS-Core/src/denomination_functions.cpp:286-302 | the new coins and their change count if better, otherwise the saved ones |
| `CoinSelection.SpendOneCoin` | TWINS-Core/src/denomination_functions.cpp:331-355 | the single covering coin, or with fMinimizeChange the better attempt below it |
| `CoinSelection.SpendLargest` | TWINS-Core/src/denomination_functions.cpp:357-399 | the largest coins until the target is covered, or the better attempt |
| `CoinSelection.PickedWorth` | TWINS-Core/src/denomination_functions.cpp:123-143 | the mints picked are worth as much as the numbers of coins wanted |
| `CoinSelection.ExactWithinIs` | TWINS-Core/src/denomination_functions.cpp:413-428 | the exact payment found is within the limit of spends exactly when some exact payment is |
| `CoinSelection.MinimizeChange` | TWINS-Core/src/denomination_functions.cpp:214-303 | the new coins are taken exactly when they give less change than before within the limit of spends; they are the coins held worth the attempt less what would come back; otherwise the old coins and count stay |
| `CoinSelection.CalculateChange` | TWINS-Core/src/denomination_functions.cpp:311-400 | if the coins held suffice, the coins chosen are among them, are worth at least the target, and the count is that of getChange of the difference, on every path; otherwise the count is 0; which coins are chosen is stated for each path: one covering coin, the largest first, or the better attempt |
| `CoinSelection.SelectMints` | TWINS-Core/src/denomination_functions.cpp:406-438 | what is selected are distinct unused mints, worth what is reported and at least the target, with the right count of change; an exact payment within the limit of spends is made whenever there is one; otherwise the coins are those of calculateChange, and something is selected exactly when change is left, so always when the coins held suffice and no choice of them is exact; the number of spends needed is that of the exact payment when it is over the limit |
| `CheckQueue.BatchFits` | TWINS-Core/src/checkqueue.h:105-117 | a batch has between one check and the whole queue, so the popping loop never meets an empty queue |
| `CheckQueue.BatchIsFair` | TWINS-Core/src/checkqueue.h:105-117 | a batch of more than one check is within the maximum and leaves as much for each other thread, and one below the maximum is as large as that allows |
| `CheckQueue.StepKeeps` | TWINS-Core/src/checkqueue.h:69-127 | every critical section and every evaluation of every thread keeps: nTodo is the queued checks plus those in unreported batches, nTotal - nIdle the threads running a batch, all added checks are queued, in a batch or reported, and fAllOk is right so far |
| `CheckQueue.EveryRunKeeps` | TWINS-Core/src/checkqueue.h:69-158 | the same after any interleaving of any number of workers with the master, spurious wake-ups included |
| `CheckQueue.LoopHeadReturns` | TWINS-Core/src/checkqueue.h:91-100 | the result returned is true exactly when every check added since the last Wait succeeds |
| `CheckQueue.WaitIsCorrect` | TWINS-Core/src/checkqueue.h:139-142 | in every reachable state in which Wait returns its result is right, and the queue is idle and empty at that moment |
| `CheckQueue.ControllerFindsIdle` | TWINS-Core/src/checkqueue.h:164-190 | in every reachable state in which nothing was added since the last Wait returned, or since the start, the queue is idle, whatever the workers do in between, so the assertion of every new controller holds |
| `CheckQueue.ReportLocked` | TWINS-Core/src/checkqueue.h:78-86 | reporting a batch keeps all counts, and a master that sleeps without having been notified still has checks outstanding |
| `CheckQueue.MasterIsNeverStuck` | TWINS-Core/src/checkqueue.h:80-104 | while the master is in Wait some thread can take a step that is no spurious wake-up |
| `CheckQueue.EveryStepIsProgress` | TWINS-Core/src/checkqueue.h:69-127 | each such step comes closer to the end in a well-founded order |
| `CheckQueue.WaitEnds` | TWINS-Core/src/checkqueue.h:139-149 | there is no endless run of such steps in which the master stays in Wait, whatever the number of workers and the interleaving |
| `Base58.DecodeEncode` | TWINS-Core/src/base58.cpp:24-118 | decoding the encoding of any bytes gives them back |
| `Base58.EncodeDecode` | TWINS-Core/src/base58.cpp:24-118 | encoding what any word over the alphabet decodes to gives the word back |
| `Base58.EncodeBufferFits` | TWINS-Core/src/base58.cpp:94-94 | n * 138 / 100 + 1 base-58 digits always suffice |
| `Base58.DecodeBufferFits` | TWINS-Core/src/base58.cpp:36-36 | n * 733 / 1000 + 1 bytes always suffice |
| `Base58.MulAdd` | TWINS-Core/src/base58.cpp:98-103 | the carry loop multiplies the number in the buffer and adds, exactly, up to the carry |
| `Base58.EncodeBase58` | TWINS-Core/src/base58.cpp:85-118 | the string defined by leading zeros and the proper base-58 notation; the carry assertion holds |
| `Base58.ReadWord` | TWINS-Core/src/base58.cpp:35-52 | fails exactly at a character outside the alphabet; otherwise the buffer holds the number of the word; the carry assertion holds |
| `Base58.SkipOnes` | TWINS-Core/src/base58.cpp:29-34 | exactly the leading ones are skipped |
| `Base58.SkipWhile` | TWINS-Core/src/base58.cpp:26-55 | the first position after the spaces, or after the non-spaces |
| `Base58.StripZeros` | TWINS-Core/src/base58.cpp:107-110 | the digits after the leading zeros are the proper notation of the number |
| `Base58.DecodeBase58` | TWINS-Core/src/base58.cpp:24-68 | succeeds exactly on one word over the alphabet between spaces, with the bytes it stands for |
| `Base58.EncodeBase58Check` | TWINS-Core/src/base58.cpp:130-137 | the encoding of the bytes followed by four bytes of their hash |
| `Base58.DecodeBase58Check` | TWINS-Core/src/base58.cpp:139-154 | accepts exactly the strings that decode to some bytes followed by the first four bytes of their hash |
| `Base58.CheckRoundTrip` | TWINS-Core/src/base58.cpp:130-154 | what is encoded with a checksum is accepted, and only as the bytes encoded |
| `Digits.ComparePowers` | TWINS-Core/src/base58.cpp:36-94 | powers of two bases compare as one known pair of powers and the exponents say |
| `Bip39.PhraseAccepted` | TWINS-Core/src/bip39.cpp:46-149 | Check accepts the phrase of 16, 24 or 32 bytes and refuses that of 20 or 28 bytes, which FromData produces too |
| `Bip39.AcceptedIsPhrase` | TWINS-Core/src/bip39.cpp:46-149 | every accepted phrase is exactly the phrase of the entropy that its words encode |
| `Bip39.WordsChecked` | TWINS-Core/src/bip39.cpp:52-75 | the words made from some bytes carry those bytes and a right checksum |
| `Bip39.CheckedWords` | TWINS-Core/src/bip39.cpp:115-148 | words with a right checksum are the words of the entropy they carry |
| `Bip39.SplitJoin` | TWINS-Core/src/bip39.cpp:61-75 | the words can be told apart in the phrase |
| `Bip39.ReadIndex` | TWINS-Core/src/bip39.cpp:66-70 | eleven bits of the buffer as a number |
| `Bip39.AppendWords` | TWINS-Core/src/bip39.cpp:61-75 | the words of the leading groups of eleven bits, joined by single spaces |
| `Bip39.FromData` | TWINS-Core/src/bip39.cpp:46-78 | empty for an unsupported length, otherwise the phrase of the first len bytes; bit indexes stay in the buffer |
| `Bip39.CountWords` | TWINS-Core/src/bip39.cpp:86-93 | the number of pieces between spaces |
| `Bip39.ReadWord` | TWINS-Core/src/bip39.cpp:106-112 | the characters up to the next space, or failure exactly beyond nine |
| `Bip39.Lookup` | TWINS-Core/src/bip39.cpp:114-129 | the index of a listed word, or the end of the list for any other |
| `Bip39.StoreIndex` | TWINS-Core/src/bip39.cpp:120-125 | exactly the eleven bits of the index are appended; the 33-byte buffer has room |
| `Bip39.CollectWord` | TWINS-Core/src/bip39.cpp:104-130 | a word that is not listed refuses the phrase rightly; a listed one adds its bits |
| `Bip39.CompareChecksum` | TWINS-Core/src/bip39.cpp:134-148 | true exactly when the leading bits of the digest are those collected after the entropy |
| `Bip39.TailEnd` | TWINS-Core/src/bip39.cpp:104-133 | when the loop ends with a piece left over, after a trailing space, the phrase is rightly refused |
| `Bip39.Check` | TWINS-Core/src/bip39.cpp:80-149 | true exactly for 12, 18 or 24 listed words whose checksum is right |
| `Bits.UnpackPack` | TWINS-Core/src/bip39.cpp:119-126 | packing bits into bytes loses nothing |
| `Bits.SetBit` | TWINS-Core/src/bip39.cpp:122-122 | or-ing a bit into a byte sets that bit and no other |
| `Bits.BitAt` | TWINS-Core/src/bip39.cpp:121-121 | bit j of an index is what the shift and mask read |
| `VarInt.ReadWritten` | TWINS-Core/src/serialize.h:437-467 | reading what was written gives the number back and consumes nothing else |
| `VarInt.SignedIs` | TWINS-Core/src/serialize.h:437-467 | a signed number read is the one with the same 32 bits; of a negative one written the low seven bits, of others all |
| `VarInt.OneEncoding` | TWINS-Core/src/serialize.h:398-423 | every byte string that reads as a number starts with the encoding of that number: one encoding per number |
| `VarInt.WriteVarInt` | TWINS-Core/src/serialize.h:437-452 | writes the encoding, of a negative number that of its low seven bits; a buffer of (bits + 6) / 7 bytes always suffices |
| `VarInt.WriteBackwards` | TWINS-Core/src/serialize.h:449-451 | the buffered groups in reverse order |
| `VarInt.ReadVarInt` | TWINS-Core/src/serialize.h:454-467 | reads the number modulo the range of its type, although every turn wraps, or fails at the end of the stream |
| `Amounts.CompressUndone` | TWINS-Core/src/compressor.cpp:139-182 | decompression undoes compression, for every number |
| `Amounts.DecompressUndone` | TWINS-Core/src/compressor.cpp:139-182 | compression undoes decompression: every number is the compressed form of exactly one amount |
| `Amounts.CompressFits` | TWINS-Core/src/compressor.cpp:139-156 | no step wraps for any amount up to 10^18 |
| `Amounts.CompressAmount` | TWINS-Core/src/compressor.cpp:139-156 | the 64-bit computation is the compressed form modulo 2^64; the assertion on the digit holds |
| `Amounts.DecompressAmount` | TWINS-Core/src/compressor.cpp:158-182 | the 64-bit computation is the decompressed form modulo 2^64 |
| `Amounts.AmountRoundTrip` | TWINS-Core/src/test/compress_tests.cpp:39-62 | in 64 bits every amount up to 10^18 survives |
| `Scripts.CompressUndoneBy` | TWINS-Core/src/compressor.cpp:45-130 | a compressed script has the size of its kind, and decompressing it gives the script back, given that key decompression inverts compression on fully valid keys |
| `Scripts.ScriptRoundTrip` | TWINS-Core/src/compressor.h:71-98 | every script whose size fits its field is read back from what was written for it, and the rest of the stream is left |
| `Scripts.ScriptSize` | TWINS-Core/src/compressor.h:25-29 | special scripts shrink; others cost one byte exactly up to 121 bytes and two exactly from 122 up to 16505 |
| `Scripts.CScriptCompressor.Unpack` | TWINS-Core/src/compressor.cpp:85-130 | the script is filled on success and unchanged on failure |
| `Scripts.CScriptCompressor.Serialize` | TWINS-Core/src/compressor.h:71-82 | writes the special form or the size plus six and the script |
| `Scripts.CScriptCompressor.Unserialize` | TWINS-Core/src/compressor.h:84-98 | reads either form in place, the size wrapping in 32 bits; fails when the stream ends early |
| `Scripts.OutRoundTrip` | TWINS-Core/src/compressor.h:113-128 | an output in the money range is read back from what was written |
| `Scripts.SerializeOut` | TWINS-Core/src/compressor.h:113-128 | writes the compressed amount and script |
| `Scripts.UnserializeOut` | TWINS-Core/src/compressor.h:113-128 | reads amount and script with the 64-bit and 32-bit wraps of the source |
| `Formats.IntegerSizes` | TWINS-Core/src/serialize.h:409-413 | one byte exactly up to 127, two up to 16511, three up to 2113663 |
| `Formats.IntegerExamples` | TWINS-Core/src/serialize.h:416-421 | the examples of the comment byte for byte, which is wrong about 16511 and 65535 |
| `Formats.AmountExamples` | TWINS-Core/src/test/compress_tests.cpp:41-46 | the pairs of the test |
| `Formats.ScriptKinds` | TWINS-Core/src/compressor.cpp:45-77 | the four templates and the first byte each is written with |
| `Formats.RecordExample` | TWINS-Core/src/coins.h:43-56 | the bytes of the first example, whose header code is 8 in this format rather than 4 |
| `Formats.MaskExample` | TWINS-Core/src/coins.h:58-72 | header code and mask of the second example, 17 in this format rather than 9 |
| `Formats.Base58Examples` | TWINS-Core/src/test/data/base58_encode_decode.json:3-13 | three of the test vectors |
| `CoinsCodec.CalcMaskSize` | TWINS-Core/src/coins.cpp:23-43 | the number of mask bytes written and the number of nonzero bytes |
| `CoinsCodec.PackedBit` | TWINS-Core/src/coins.h:218-224 | each bit of a mask byte says whether its output is unspent |
| `CoinsCodec.MaskRoundTrip` | TWINS-Core/src/coins.h:244-255 | reading stops right after the last mask byte, interior zero bytes included, with the flags written |
| `CoinsCodec.OutsRoundTrip` | TWINS-Core/src/coins.h:225-229 | the unspent outputs are read back into their places, the others are null |
| `CoinsCodec.CodeIsNatural` | TWINS-Core/src/coins.h:203-209 | the assertion of Serialize holds for every unpruned record, so the header code is not negative |
| `CoinsCodec.CodeFits` | TWINS-Core/src/coins.h:209-209 | the header code fits 32 bits |
| `CoinsCodec.CodeFields` | TWINS-Core/src/coins.h:238-243 | the four flags and the mask code come back out of the header code |
| `CoinsCodec.CoinsRoundTrip` | TWINS-Core/src/coins.h:202-265 | for any number of outputs, reading what was written gives the cleaned-up record, except that a negative height or version comes back as its low seven bits, and leaves the rest of the stream |
| `CoinsCodec.SameTrimmed` | TWINS-Core/src/coins.h:257-264 | Cleanup after reading sees the same last unspent output |
| `CoinsCodec.WriteMask` | TWINS-Core/src/coins.h:217-224 | writes the mask bytes |
| `CoinsCodec.WriteOuts` | TWINS-Core/src/coins.h:225-229 | writes the unspent outputs in order |
| `CoinsCodec.HeaderCode` | TWINS-Core/src/coins.h:206-209 | the header code of an unpruned record; the assertion on it holds |
| `CoinsCodec.Serialize` | TWINS-Core/src/coins.h:202-230 | writes version, code, mask, outputs and height as specified |
| `CoinsCodec.UnpackByte` | TWINS-Core/src/coins.h:247-252 | the eight flags of a mask byte |
| `CoinsCodec.UnpackMask` | TWINS-Core/src/coins.h:244-255 | reads flags until the announced number of nonzero bytes was seen, or fails at the end of the stream |
| `CoinsCodec.UnpackOuts` | TWINS-Core/src/coins.h:257-261 | reads the available outputs into their places |
| `CoinsCodec.Unserialize` | TWINS-Core/src/coins.h:231-265 | reads what the specification reads, for every byte string, with the 32-bit wraps of version, code, sizes and height |
| `StakeModifier.SelectBlockFromCandidates` | TWINS-Core/src/kernel.cpp:78-136 | on sorted indexed candidates: the free candidate up to the stop time with the least selection hash, the first one on a tie; the earliest free one when none is that early; failure exactly when none is free |
| `StakeModifier.PickUnique` | TWINS-Core/src/kernel.cpp:90-132 | a round has at most one right choice |
| `StakeModifier.StopsAligned` | TWINS-Core/src/kernel.cpp:58-73 | no round looks past the aligned end of the interval, and the last ends exactly there |
| `StakeModifier.GetStakeModifierSelectionInterval` | TWINS-Core/src/kernel.cpp:66-73 | the sum of the 64 sections |
| `StakeModifier.GetLastStakeModifier` | TWINS-Core/src/kernel.cpp:44-55 | the last block that generated a modifier; none exactly when no block did |
| `StakeModifier.CollectCandidates` | TWINS-Core/src/kernel.cpp:187-201 | sorted by time and hash, each block once with its own time, exactly those blocks of the chain from which on to the tip every block lies in the interval |
| `StakeModifier.CandidatesAre` | TWINS-Core/src/kernel.cpp:187-201 | the sorted window holds exactly those blocks of the chain, once each |
| `StakeModifier.CandidatesUnique` | TWINS-Core/src/kernel.cpp:187-201 | there is only one such list |
| `StakeModifier.StakeIsFavoured` | TWINS-Core/src/kernel.cpp:107-126 | a block without stake is picked over a free one with stake only with a hash 2^32 times smaller; before the upgrade the earliest of the stake blocks is picked |
| `StakeModifier.SectionsByRatio` | TWINS-Core/src/kernel.cpp:58-63 | the sections grow from a third of the modifier interval to the whole of it |
| `StakeModifier.CandidatesGood` | TWINS-Core/src/kernel.cpp:187-201 | the candidates are indexed, pairwise distinct and sorted by time |
| `StakeModifier.SomeLeft` | TWINS-Core/src/kernel.cpp:207-213 | while fewer rounds than candidates were played some candidate is free |
| `StakeModifier.SelectRounds` | TWINS-Core/src/kernel.cpp:203-223 | all min(64, n) rounds succeed, each with the right choice, and bit r of the modifier is the entropy bit of the pick of round r |
| `StakeModifier.RoundsDistinct` | TWINS-Core/src/kernel.cpp:207-219 | the blocks picked are pairwise distinct |
| `StakeModifier.RoundsUnique` | TWINS-Core/src/kernel.cpp:207-219 | candidates, previous modifier and rules determine the picks |
| `StakeModifier.ComputeNextStakeModifier` | TWINS-Core/src/kernel.cpp:151-251 | which modifier follows a chain, and failure exactly when no block of it ever generated one; a new one is made by rounds over exactly the blocks back to the first one before the interval |
| `StakeModifier.GetKernelStakeModifier` | TWINS-Core/src/kernel.cpp:255-283 | the modifier of the first generating block at least a selection interval after the coin's block; failure exactly when there is none or the block is unknown |
| `Chain.InvertIsAnd` | TWINS-Core/src/main.cpp:4576-4576 | clearing the lowest one bit is the bitwise "and" of n and n - 1 |
| `Chain.GetSkipHeight` | TWINS-Core/src/main.cpp:4579-4588 | a height strictly below, for every positive height |
| `Chain.CBlockIndex.constructor` | TWINS-Core/src/main.cpp:3706-3719 | a block added on a linked block is linked, its skip link included |
| `Chain.CBlockIndex.GetAncestor` | TWINS-Core/src/main.cpp:4590-4611 | following skip links arrives at the block that walking would reach, null exactly out of range, and below height 2^m it takes at most m^2 + 2m turns |
| `Chain.StepsLow` | TWINS-Core/src/main.cpp:4579-4611 | between two heights that agree in all but the m low bits the walk takes at most two turns for each 1 bit there and m^2 more |
| `Chain.BetterSkip` | TWINS-Core/src/main.cpp:4597-4601 | where the test for a better skip of the block before makes the walk step back, the two turns save a 1 bit of the height |
| `Chain.LastCommonAncestor` | TWINS-Core/src/main.cpp:470-486 | the highest common ancestor, or null exactly for blocks with different first blocks; the assertion holds in both cases |
| `Chain.CChain.SetTip` | TWINS-Core/src/chain.cpp:15-26 | the vector is the whole path from the first block to the new tip, although rewriting stops early |
| `Chain.CChain.FillDown` | TWINS-Core/src/chain.cpp:22-25 | everything below the first entry that is right already is right |
| `Chain.CChain.ContainsIsAncestor` | TWINS-Core/src/chain.h:557-560 | containment means being the tip or an ancestor of it |
| `Chain.CChain.NextIs` | TWINS-Core/src/chain.h:563-569 | the block above a contained one, whose predecessor it is; none exactly at the tip |
| `Chain.CChain.FindFork` | TWINS-Core/src/chain.cpp:57-64 | the highest block of the other chain that is contained; none exactly when no block is |
| `Chain.CChain.GetLocator` | TWINS-Core/src/chain.cpp:28-55 | hashes of ancestors at strictly falling heights from the block itself to the first block, the first ten steps of one and then of doubling width, at most twelve more than the logarithm of the height |
| `Chain.FindForkInGlobalIndex` | TWINS-Core/src/main.cpp:608-620 | the first entry of the locator on the active chain, otherwise the genesis block |
| `Chain.LocatorBrackets` | TWINS-Core/src/main.cpp:608-620 | the true fork is not below the entry found and below the entry before it, and the entry found is at most twice as far back as the fork |
| `Budget.CountVotes` | TWINS-Core/src/masternode-budget.cpp:1627-1664 | the number of valid votes of one kind |
| `Budget.CleanAndRemove` | TWINS-Core/src/masternode-budget.cpp:1599-1607 | every vote is marked by whether its signature is good, nothing else changes |
| `Budget.CBudgetManager.RankProposals` | TWINS-Core/src/masternode-budget.cpp:784-793 | every proposal cleaned and listed exactly once, more net votes first, ties by the larger fee hash |
| `Budget.Allocate` | TWINS-Core/src/masternode-budget.cpp:808-842 | a qualified proposal is taken and allotted its amount exactly when it fits beside those taken before; other qualified ones are allotted 0; unqualified ones keep their allotment |
| `Budget.CBudgetManager.AddProposal` | TWINS-Core/src/masternode-budget.cpp:444-460 | a proposal is taken exactly when it is acceptable and new, and every proposal held asks for at least 10 coins |
| `Budget.CBudgetManager.CheckAndRemove` | TWINS-Core/src/masternode-budget.cpp:506-527 | from any state exactly the acceptable proposals are kept, so every proposal held asks for at least 10 coins |
| `Budget.CBudgetManager.Read` | TWINS-Core/src/masternode-budget.cpp:321-399 | the same for whatever the file holds |
| `Budget.CBudgetManager.GetBudget` | TWINS-Core/src/masternode-budget.cpp:778-845 | the ranking and the allocation together, none without a chain; the selected proposals are distinct, qualified, in the order of their votes and covered by the budget, and a qualified proposal left out does not fit beside the selected ones with more votes, or equal votes and no smaller fee hash; the qualified proposals are allotted all or nothing, the others keep their allotment |
| `Budget.PickedIsFair` | TWINS-Core/src/masternode-budget.cpp:793-842 | the allocation gives the money to votes, stated without the ranking: see GetBudget |
| `Budget.AllottedIs` | TWINS-Core/src/masternode-budget.cpp:824-832 | selected proposals are allotted what they ask for, other qualified ones nothing, unqualified ones what they had |
| `Budget.CheckProposal` | TWINS-Core/src/masternode-budget.cpp:1488-1563 | the tests of CBudgetProposal::IsValid in their order accept exactly the acceptable proposals |
| `BudgetLaws.QualifiesIff` | TWINS-Core/src/masternode-budget.cpp:804-818 | a proposal qualifies exactly when it is valid, covers every block of the next payment cycle, has net votes of more than a tenth of the enabled masternodes and is old enough |
| `BudgetLaws.AcceptableIff` | TWINS-Core/src/masternode-budget.cpp:1488-1563 | a proposal is acceptable exactly when net votes against it are at most a tenth, its blocks are in order, it asks for 10 coins up to the budget, can be paid, and its payments reach the tip |
| `BudgetLaws.PaymentCountIs` | TWINS-Core/src/masternode-budget.cpp:1666-1698 | the number of payments is that of whole cycles from the start of the first cycle |
| `BudgetLaws.OneMoreVoteCounts` | TWINS-Core/src/masternode-budget.cpp:1627-1664 | one more valid yes adds one to the net votes, a valid no takes one, anything else changes nothing |
| `BudgetLaws.NoVoteCounts` | TWINS-Core/src/masternode-budget.cpp:1627-1664 | a proposal without votes has a score of zero |
| `BudgetLaws.BudgetFalls` | TWINS-Core/src/masternode-budget.cpp:913-956 | the budget of a month is a tenth of its subsidy, which falls by 5 coins every 43200 blocks |
| `Budget.SpentFits` | TWINS-Core/src/masternode-budget.cpp:824-827 | never more than a nonnegative budget is allotted |
| `Budget.LeftOutDoesNotFit` | TWINS-Core/src/masternode-budget.cpp:824-832 | with no negative amounts, no qualified proposal that was left out fits at the end |
| `Budget.AtMostHundredIff` | TWINS-Core/src/masternode-budget.cpp:824-827 | with every amount at least 10 coins, never more than 100 of distinct proposals are taken exactly when the budget is below 1010 coins |
| `Budget.TotalBudgetIsAmple` | TWINS-Core/src/masternode-budget.cpp:913-956 | on any chain with a tip the budget is at least 1010 coins |
| `Budget.VotesComeFirst` | TWINS-Core/src/masternode-budget.cpp:793-842 | at the first difference from any other affordable selection of qualified proposals it is the allocation that has the proposal |
| `Budget.GatherProposals` | TWINS-Core/src/masternode-budget.cpp:784-791 | in any order of the proposals each is cleaned and noted once with its net votes |
| `Budget.CBudgetManager.ListPayments` | TWINS-Core/src/masternode-budget.cpp:189-195 | one payment per selected proposal, in order, of its allotment |
| `Budget.CBudgetManager.BudgetPayments` | TWINS-Core/src/masternode-budget.cpp:185-195 | each payment goes to the payee of a proposal in the full amount asked, they are those of the allocation in its order, and together they stay within a nonnegative budget |
| `Budget.GetTotalPayout` | TWINS-Core/src/masternode-budget.cpp:1983-1992 | the sum of the payments |
| `Budget.IsValid` | TWINS-Core/src/masternode-budget.cpp:2049-2117 | accepted exactly when aligned, not at block 0, at most 100 payments, named, with a fee, within the budget, with a good collateral and not obsolete; the second test on the number of payments is the one that fails exactly for 101 payments |
| `Budget.CBudgetManager.SubmitFinalBudget` | TWINS-Core/src/masternode-budget.cpp:146-204 | when it stops early, and that, with a fee and a good collateral and a nonnegative budget, the budget it builds passes IsValid exactly when it has at most 100 payments, as it does for every budget below 1010 coins |
| `Budget.TooPopular` | TWINS-Core/src/masternode-budget.cpp:146-204 | for any budget of 1010 coins or more 101 popular proposals make it build an invalid budget |
| `PageLocks.TouchesMeans` | TWINS-Core/src/allocators.h:52-55 | a range touches a page exactly when one of its bytes lies in it |
| `PageLocks.LoopEndsIff` | TWINS-Core/src/allocators.h:55-55 | for a range inside the address space the page loop ends exactly when the range stays off the last page |
| `PageLocks.UnlockFails` | TWINS-Core/src/allocators.h:77-79 | unlocking a range that touches the last page always fails the assertion in the end, whatever is locked |
| `PageLocks.LastByteLoops` | TWINS-Core/src/allocators.h:55-55 | the last byte of the address space, and the first of its last page, are such ranges |
| `PageLocks.LockedPageManager.constructor` | TWINS-Core/src/allocators.h:34-39 | an empty manager for any power-of-two page size |
| `PageLocks.LockedPageManager.LockRange` | TWINS-Core/src/allocators.h:47-66 | each page's count is the number of live ranges touching it, the new one included, and pages are locked accordingly |
| `PageLocks.LockedPageManager.UnlockRange` | TWINS-Core/src/allocators.h:69-89 | for a live range the assertion never fails, one occurrence of it is gone, and counts and locks agree again |
| `PageLocks.LockedPageManager.LockedWhileTouched` | TWINS-Core/src/allocators.h:22-28 | a page is locked exactly while some live range touches it |
| `PageLocks.AddPages` | TWINS-Core/src/allocators.h:55-65 | exactly the touched pages gain one |
| `PageLocks.DropPages` | TWINS-Core/src/allocators.h:77-88 | exactly the touched pages lose one; those at zero are unlocked and forgotten |

## Left out

- AddrMan.CAddrMan.Unserialize: a record that lists one peer twice, whose tried peers never succeeded, or whose counters are not the lengths of its lists builds inconsistent indexes in the source; the model loads only records without these faults.
- AddrMan.CAddrMan.Serialize: the record is a value; its byte layout, the key size byte and the xor on the bucket count are not part of this model.
- AddrMan.CAddrMan.Find: ids, counters and times are unbounded integers except the 32-bit time of an address.
- CAddrMan::Select_ and GetChance: random loops that end only with probability one, and floating point.
- CoinsCache.CoinsViewCache.ModifyCoins: the modifier object and the code between its creation and its destruction are one call with a function for the change, so `hasModifier` is not modelled.
- CoinsCache.Simulate: runs of respectful modifications only, and for the best block only informed flushes; Mismatch and FlushForgets show that neither can be dropped.
- CoinsCache.CoinsViewDB.BatchWrite: the database is a map.
- CoinsCodec.Unserialize: where the source shifts bits out of a signed version or height, which C++ leaves open, the model wraps as its compilers do.
- CCoins::GetSerializeSize: it scales the header code by 8 where Serialize scales it by 16, so it does not announce the bytes written.
- Scripts.CompressUndoneBy: keys are byte strings, and parsing and decompressing them are parameters with the stated law.
- CoinSelection.MinimizeChange: its precondition states what both callers guarantee for the path on which no coin covers the rest.
- CoinSelection.GetSpends: without a mint of a wanted denomination the loop of the source does not end; callers never ask for that.
- CoinSelection.SelectMints: the limit of spends is not claimed on the paths with change, where the source does not respect it; the coins held are taken to be among the unused mints.
- getDenomWithMostCoins, getNextHighestDenom and listSpends: single scans that nothing modelled uses.
- CheckQueue.StepKeeps: integer widths of the counters, and shutting the queue down while it is in use.
- Base58.DecodeBase58: strings are sequences of characters ended by a NUL; the key and address classes above it are not modelled.
- Bip39.FromData: reading past the end of a data vector shorter than len; Generate and ToSeed only draw or derive bytes.
- StakeModifier.ComputeNextStakeModifier: a chain is a sequence of indexed blocks, times are nonnegative, and the standard sort is insertion sort; debug output is left out.
- StakeModifier.SelectBlockFromCandidates: on unsorted or unindexed candidates only that a selection is a free indexed candidate is stated.
- Stake kernel tests, target checks and modifier checksums: comparisons of hashes without structure of their own.
- Chain.CBlockIndex.constructor: links and heights are set once when a block is added; the other fields of a block index entry, Tip for proof of stake and block trust are not modelled.
- Chain.CChain.GetLocator: the doubling step is an unbounded integer.
- Budget.CBudgetManager.SubmitFinalBudget: wallet, collateral transactions, budgets seen before and relaying are left out; the collateral is a parameter.
- Budget.CBudgetManager.GetBudget: the total budget is a parameter, which TotalBudgetIsAmple relates to the table of the source; proposals are values in a map rather than objects, so they cannot be aliased.
- Budget.CBudgetManager.AddProposal: the address and collateral tests are one parameter, and votes are not added by a method.
- Votes on finalized budgets, budget payments in blocks and the masternode list: they rest on code outside the budget files.
- PageLocks.LockedPageManager.LockRange: ranges that wrap around the address space, and those that touch its last page, for which the loop never ends (LoopEndsIff).
- PageLocks.LockedPageManager.UnlockRange: the same, and ranges that are not live; counts are unbounded.
- limitedmap, bloom filters, keystores, alerts, RPC, databases and networking: input and output, or single lookups.
