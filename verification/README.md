# Innova block index, address manager and codecs

A Dafny model of the stateful core of the node: the block-index residency cache
with its threads, pins and eviction; the address manager with its four redundant
indexes and its serializer; the three ways derived block-index state is computed;
the tip-window collector; the fold of a mutable tip into a new generation; and
the arithmetic of Base58, compact targets and page locks.

`dafny verify dfyconfig.toml` checks everything.

## How it is laid out

- `HotOwnerModel` gives each locked region of the residency cache as a function on
  values; `HotOwnerRuns` builds every interleaving of threads from them;
  `HotOwnerTokens`, `HotOwnerPins` and `HotOwnerConvergence` prove properties of
  whole runs; `HotOwner` is the mutable object, proved against the functions.
- `AddrManModel` and `AddrManTried` hold the tables and their invariant, with the
  half-way states an operation passes through; `AddrMan` is the mutable object;
  `AddrManCheck` is the self-check, `AddrManRuns` whole histories, `AddrManLaws` what
  the operations come to in entries, buckets and seconds; `AddrManDisk`, `AddrManLoad`,
  `AddrManRoundTrip` and `AddrManRebuild` are the serializer.
- `Chain` defines derived state as a recursion over parent links; `DerivedReplay` and
  `TrustWalk` are algorithms that must agree with it. `BuilderRows` gives the equation
  that any pass over height-sorted rows solves, and when its solution is the recursion;
  `BuilderActive`, `GenerationBuilders` and, with `ExternalSort`, `LowMemoryBuilder` are
  the builders. `DerivedLaws` says in record fields what all of them compute.
- `TipWindow` is the collector, on heap objects with raw edges. `IndexStores` and
  `Fold` are the stores of a generation and the fold.
- `Digits`, `BigNum`, `Base58` and `PageLock` are the arithmetic, `BigNumLaws` and
  `Base58Laws` its meaning in bit fields and characters.
- `Arithmetic`, `Iteration` and `Options` are shared helpers.

## Reading the model

- Random choices, clocks, hashes, block trust and what a materializer brings back
  are parameters, so every statement holds for all of them.
- Integers are unbounded except where a width matters and is written out: 32-bit
  times, sums modulo 2^256, the 32-bit compact form, the 64-bit page counter, the
  32-bit height range of the active index.
- Files are sequences or maps; a slot that cannot be read is absent.
- A freed object is one that has left the set of live objects.
- The builders sort by height and then by hash, in two different byte orders. Both
  are modelled by one order on numbers. A result about parents that sort before their
  children at the same height holds for each builder under its own order; the results
  that compare builders ask that heights differ along parent links, so that no hash is
  compared.
- Bitwise combination of disjoint bytes is written as a sum.

## Where code and documentation differ

- `src/blockindex_derived_replay.h:159-160` promises that a failed rebuild publishes
  nothing. The code keeps the entries it has already written. `RebuildAll` says exactly
  when nothing is left, and `RefusedRebuildKeepsEntries` gives a store where something is.
  Lines 99-102 promise the same of a replay of the active chain; `NothingAppended` says
  when that holds.
- A comment at `src/addrman.cpp:129-130` speaks of the least recently tried entry.
  The code remembers where that entry was before the swap. `SelectedIsOldestIff` says
  exactly when it is selected all the same, and `SelectsTheYounger` shows a case where
  it is not.
- Reading an absent address during the self-check (`src/addrman.cpp:457`) inserts it
  with id 0. The self-check therefore does not imply that every entry is indexed:
  `OnlyZeroUnindexed` says that only entry 0 can be missed, and `UnindexedPasses` gives
  such a table.
- A fold over a tip with a gap can succeed short of the requested height, under the
  hash of the block at that height (`ReachesTopIffDense`, `TipHashAgreesIffDense`,
  `GapFoldsShort`). A base whose active entry names a record still to be appended gets
  an answer it did not have (`SameAtEveryHeight`, `StrayAnswered`).
- The loop over a page range that reaches the top page of the address space never ends
  (`NeverEndsIff`), nor does any loop with the page size 0, which the constructor's
  assertion admits (`ZeroPageSize`).
- The in-memory builder accepts a parent that sorts after its child, and then derives the
  child as if the parent's entry were empty (`BuiltRightIff`, `TrustRightIff`, `LateParentLosesTrust`). It
  checks the heights of the active chain without their order, so that the chain it lays
  out may not be linked (`LinkedIff`, `UnlinkedActiveAccepted`). Its walk down from the
  best block does not end on a cycle (`WalkEndsIff`).
- The low-memory builder refuses such a parent or reads zeroes for it, depending on
  RecordIds (`ParentSlot`, `LateParentRefused`, `ZeroSlotRead`), and hashes every
  parentless record (`RootGuardExact`, `ForeignRootDiffers`).

## Model

| member | source | states |
|---|---|---|
| HotOwnerModel.RequestValid | src/blockindex_hot_owner.cpp:143-174 | requesting a materialization keeps the owner's invariant: the height index equals the materialized residents grouped by height, every object has one owner, pending sequence numbers are distinct and already minted, only materialized entries are pinned |
| HotOwnerModel.PublishValid | src/blockindex_hot_owner.cpp:183-214 | publishing, accepted or refused, keeps that invariant |
| HotOwnerModel.SameObjectsValid | src/blockindex_hot_owner.cpp:380-407 | taking and releasing pins, anchoring and clearing a pending mark keep it |
| HotOwnerModel.DropValid | src/blockindex_hot_owner.cpp:442-496 | freeing one object and erasing its entry, with its height-index slot, keeps it |
| HotOwnerModel.AdoptValid | src/blockindex_hot_owner.cpp:536-559 | adopting a live object that no other hash owns keeps it |
| HotOwnerModel.AdoptValidIff | src/blockindex_hot_owner.cpp:536-559 | adopting a live object keeps the invariant if and only if the hash already has another object or no other hash owns this one |
| HotOwnerModel.DropSetValid | src/blockindex_hot_owner.cpp:498-524 | dropping any set of entries at once keeps it |
| HotOwnerModel.EvictAllDropsSet | src/blockindex_hot_owner.cpp:442-477 | evicting a duplicate-free list of eligible hashes one by one, in any order, drops exactly that set and succeeds every time |
| HotOwnerModel.EvictBelowFloorIsEvictAll | src/blockindex_hot_owner.cpp:424-524 | the indexed pass below a floor equals filtering the eligible heights and evicting each in turn, state and count |
| HotOwnerRuns.ApplyValid | src/blockindex_hot_owner.cpp:380-592 | every locked region that involves no thread in flight keeps the invariant |
| HotOwnerRuns.CompleteValid | src/blockindex_hot_owner.cpp:223-362 | so does the second half of EnsureResident and Pin, whatever the unlocked phase brought back |
| HotOwnerRuns.StepValid | src/blockindex_hot_owner.cpp:143-592 | so does every step of every interleaving |
| HotOwnerRuns.EveryStateValid | src/blockindex_hot_owner.cpp:143-592 | in every reachable state of every run the height index is exact, objects are singly owned and pending sequence numbers are distinct |
| HotOwnerTokens.SpentStaysSpent | src/blockindex_hot_owner.cpp:143-214 | a minted sequence number that is not the pending one of a hash never becomes so again |
| HotOwnerTokens.InstallSpends | src/blockindex_hot_owner.cpp:189-213 | an installation uses up its sequence number everywhere and puts a new object behind the hash |
| HotOwnerTokens.SpentForever | src/blockindex_hot_owner.cpp:143-214 | over any stretch of a run a spent sequence number stays spent |
| HotOwnerTokens.SeqInstallsOnce | src/blockindex_hot_owner.cpp:143-214 | in a whole run each minted sequence number installs at most one object |
| HotOwnerTokens.StaleInstallsNothing | src/blockindex_hot_owner.cpp:183-214 | a completion whose request was at any earlier point no longer outstanding changes nothing and does not return OK |
| HotOwnerTokens.RetiredExactlyBy | src/blockindex_hot_owner.cpp:143-265 | an outstanding request ends exactly by its own publication or failure, by adoption or by forced release of its entry, and by no eviction |
| HotOwnerPins.TakeBalances | src/blockindex_hot_owner.cpp:267-378 | a pin taken into a handle keeps pin counts equal to live handles if and only if that handle was empty |
| HotOwnerPins.MoveBalances | src/blockindex_hot_owner.cpp:678-696 | moving a handle keeps the balance, self-moves and occupied targets included |
| HotOwnerPins.ResetBalances | src/blockindex_hot_owner.cpp:663-676 | resetting a handle keeps the balance |
| HotOwnerPins.BalancedExactlyIfDisciplined | src/blockindex_hot_owner.cpp:267-392 | after any step pin counts equal the live handles on each hash if and only if the step was disciplined: the out-handle is empty whenever a pin will be taken (hash resident, own publication accepted, or a peer's found), and no forced release and no raw pin release hits a pinned hash |
| HotOwnerPins.EveryStateBalanced | src/blockindex_hot_owner.cpp:267-392 | pin counts equal live handles in every state of a disciplined run |
| HotOwnerPins.PinnedObjectKept | src/blockindex_hot_owner.cpp:442-559 | no disciplined step frees or replaces the object of a pinned hash |
| HotOwnerPins.HeightsNeverChange | src/blockindex_hot_owner.cpp:479-496 | no step changes the height of an object that stays live |
| HotOwnerPins.ClaimedObjectLives | src/blockindex_hot_owner.cpp:267-559 | while a handle claims a hash, through moves and resets of others, the same live object stays behind it |
| HotOwnerPins.AnchorKept | src/blockindex_hot_owner.cpp:394-477 | no step but an adoption that withdraws the anchor and a forced release takes an anchor away |
| HotOwnerPins.AnchoredObjectLives | src/blockindex_hot_owner.cpp:394-559 | over any stretch of a run without these two, a materialized anchored hash keeps its entry and the same live object, whatever is evicted meanwhile |
| HotOwnerConvergence.CompleteOnHash | src/blockindex_hot_owner.cpp:318-361 | a successful completion on a hash ends with it resident: it installs exactly if nobody had, and a Pin returns OK with its handle set |
| HotOwnerConvergence.InstalledOnce | src/blockindex_hot_owner.cpp:189-213 | over a calm run a hash is installed once if it becomes resident and never otherwise |
| HotOwnerConvergence.ResidentObjectStays | src/blockindex_hot_owner.cpp:156-213 | over a calm run a resident hash keeps its object |
| HotOwnerConvergence.ConcurrentPinsConverge | src/blockindex_hot_owner.cpp:156-361 | concurrent Pins of one hash with no eviction or generation change return OK on one and the same object, and exactly one installation happened |
| HotOwner.BlockIndexHotOwner.constructor | src/blockindex_hot_owner.cpp:84-87 | a new owner is the empty valid one |
| HotOwner.BlockIndexHotOwner.RequestMaterializationLocked | src/blockindex_hot_owner.cpp:143-174 | the locked request does what its specification says, and in fields: OK exactly for a materialized entry; an idle or absent entry becomes pending with the next sequence number, any other is untouched; the token carries hash, generation and the entry's number |
| HotOwner.BlockIndexHotOwner.Claim | src/blockindex_hot_owner.cpp:364-378 | one pin more on a resident entry and nothing else; the handle names this owner and the hash |
| HotOwner.BlockIndexHotOwner.PublishMaterializedLocked | src/blockindex_hot_owner.cpp:183-214 | the locked publication does what its specification says, and in fields: it installs one new object exactly for a found result, a valid token the entry is pending for, and a compatible generation; every refusal changes nothing |
| HotOwner.BlockIndexHotOwner.IndexResidentLocked | src/blockindex_hot_owner.cpp:479-484 | a hash is added under its height |
| HotOwner.BlockIndexHotOwner.UnindexResidentLocked | src/blockindex_hot_owner.cpp:486-496 | a hash is removed from its height, an emptied height with it |
| HotOwner.BlockIndexHotOwner.PinRequest | src/blockindex_hot_owner.cpp:267-297 | the first locked region of Pin is the begin step of the runs, handle included: on OK, and only then, the caller's handle names this owner and the hash, and a materialized entry has one pin more; a null handle is refused and changes nothing |
| HotOwner.BlockIndexHotOwner.PinFinish | src/blockindex_hot_owner.cpp:299-362 | the rest of Pin is the completion step of the runs, handle included, for every outcome of the materializer: on OK the entry is materialized and claimed, by one pin and nothing else if the request was no longer awaited; on a failure exactly the awaited pending mark is cleared |
| HotOwner.BlockIndexHotOwner.LookupResident | src/blockindex_hot_owner.cpp:364-378 | a resident object is pinned into the caller's handle, anything else is left alone: the lookup step of the runs; a null handle is refused |
| HotOwner.BlockIndexHotOwner.ReleasePinOf | src/blockindex_hot_owner.cpp:380-392 | one pin less and nothing else, never below zero, and the count left |
| HotOwner.BlockIndexHotOwner.MakePermanent | src/blockindex_hot_owner.cpp:394-407 | the entry, made if there is none, is anchored, and nothing else changes |
| HotOwner.BlockIndexHotOwner.EvictResident | src/blockindex_hot_owner.cpp:442-477 | success exactly for a materialized entry that is neither pinned nor anchored; then exactly this entry and its object are gone; pinned or anchored is what blocks; every other answer changes nothing; the invariant is kept |
| HotOwner.BlockIndexHotOwner.CollectBelow | src/blockindex_hot_owner.cpp:498-524 | walking the height index below the floor finds exactly the eligible residents there, each once |
| HotOwner.BlockIndexHotOwner.EvictBelowHeight | src/blockindex_hot_owner.cpp:498-524 | exactly the materialized, unpinned, unanchored residents below the floor are gone, every other entry is as it was, and the count returned is theirs |
| HotOwner.BlockIndexHotOwner.AdoptOwned | src/blockindex_hot_owner.cpp:536-559 | any live object is adopted as the specification says, in fields: a null one is refused, a hash with another object keeps it, otherwise the entry names the object and is materialized, not pending, and anchored as asked; the invariant is kept if and only if the adoption is declined or no other hash owns the object |
| HotOwner.BlockIndexHotOwner.ReleaseOwnedObject | src/blockindex_hot_owner.cpp:579-592 | forced release drops the entry and its object whatever its pins, and nothing else, and keeps the invariant |
| HotOwner.BlockIndexHotOwner.HeightIndexConsistentForTesting | src/blockindex_hot_owner.cpp:526-534 | for any residents whose pointers are live, rebuilding and comparing answers true exactly when the height index is exact |
| HotOwner.BlockIndexHotHandle.Reset | src/blockindex_hot_owner.cpp:663-671 | a claim is given back once, an empty handle is left as it is |
| HotOwner.BlockIndexHotHandle.MoveFrom | src/blockindex_hot_owner.cpp:685-696 | the claim moves, this handle's own one is given back first, a self-move does nothing |
| AddrManModel.SwapRandomConsistent | src/addrman.cpp:105-123 | swapping two places of the random order keeps all tables consistent, and its two assertions hold |
| AddrManModel.CreateConsistent | src/addrman.cpp:93-103 | creating an entry leaves all tables consistent but for the new id, which is in no bucket yet |
| AddrManModel.AddRefConsistent | src/addrman.cpp:361-363 | counting a reference before the bucket holds it leaves exactly that one debt |
| AddrManModel.InsertNewConsistent | src/addrman.cpp:361-367 | putting the id into a bucket with room settles the debt |
| AddrManModel.UnrefConsistent | src/addrman.cpp:149-201 | a bucket letting go of one id, deleting it with its last reference, keeps the tables consistent even while another id is owed a reference |
| AddrManModel.TouchConsistent | src/addrman.cpp:278-282 | rewriting an entry's statistics touches no table |
| AddrManTried.WithdrawConsistent | src/addrman.cpp:207-215 | taking an entry out of every new bucket leaves only that entry outside all tables |
| AddrManTried.PlaceConsistent | src/addrman.cpp:217-228 | appending it to the tried bucket its key selects makes the tables consistent again |
| AddrManTried.SwapTriedOK | src/addrman.cpp:133-144 | shuffling inside a tried bucket keeps every tried id exactly once in its own bucket |
| AddrManTried.ReplaceConsistent | src/addrman.cpp:230-258 | replacing an entry of a full tried bucket, the evicted one going to a new bucket with room, makes the tables consistent again |
| AddrMan.FindTerrible | src/addrman.cpp:154-172 | the first deletable entry in id order, found exactly when there is one |
| AddrMan.PickOldest | src/addrman.cpp:174-188 | among the members at four random ranks, the first with the least time |
| AddrMan.ChooseVictim | src/addrman.cpp:154-188 | the victim is the first deletable entry in id order if there is one, else the first oldest at the four random ranks drawn; the answer tells the two cases apart |
| AddrMan.AddReferenceConsistent | src/addrman.cpp:361-367 | making room and then inserting the owed id leaves the tables consistent |
| AddrMan.AddReferenceLoses | src/addrman.cpp:149-201 | a reference costs others at most the victim's address and nothing of the tried table; no entry's history changes |
| AddrMan.KnownReferenced | src/addrman.cpp:321-367 | one more reference to a known untried address: tables consistent, the address known, at most one other untried address lost |
| AddrMan.UnknownReferenced | src/addrman.cpp:350-367 | the same for an address just created |
| AddrMan.TimelyAfter | src/addrman.cpp:278-282 | after a success the clock conditions of the self-check hold if and only if its time is positive |
| AddrMan.PlacePromotes | src/addrman.cpp:203-228 | moving into a tried bucket with room, exactly: the entry is tried and last in its bucket, held by no new bucket, nothing else changed, counters moved by one |
| AddrMan.ReplacePromotes | src/addrman.cpp:230-258 | moving into a full one, exactly: the entry takes the place of the selected one, which is new again with one reference, in its own new bucket if that has room and otherwise in the origin |
| AddrMan.SelectOldest | src/addrman.cpp:125-147 | after any number of rounds the bucket is a permutation, the first oldest of the entries inspected is known, and the position kept is the one its round drew |
| AddrMan.SelectedIsOldestIff | src/addrman.cpp:125-147 | the selected entry is the first oldest one inspected if and only if the round that met it drew its own place, so that its swap moved nothing |
| AddrMan.SelectsTheYounger | src/addrman.cpp:125-147 | a full bucket and draws for which a younger entry is selected although the oldest was inspected |
| AddrMan.CAddrMan.constructor | src/addrman.h:382-390 | a new manager is empty and consistent |
| AddrMan.CAddrMan.SwapRandomAt | src/addrman.cpp:105-123 | the swap of its specification; table sizes unchanged |
| AddrMan.CAddrMan.ForgetEntry | src/addrman.cpp:161-168 | the entry leaves the random order, the address index and the table |
| AddrMan.CAddrMan.DropReference | src/addrman.cpp:161-169 | one reference less; with the last one the entry is forgotten |
| AddrMan.CAddrMan.ShrinkNew | src/addrman.cpp:149-201 | exactly that victim is dropped from the bucket, deleted with its last reference, and nothing else happens |
| AddrMan.CAddrMan.ReferenceIn | src/addrman.cpp:359-367 | a victim is let go exactly if the bucket was full, and it is the one the rule selects for these draws and this time; then the reference is taken |
| AddrMan.CAddrMan.CreateEntry | src/addrman.cpp:350-357 | the entry for an unknown address, with the time penalty applied |
| AddrMan.CAddrMan.RefreshEntry | src/addrman.cpp:321-349 | time and services updated; another reference is wanted exactly if there is newer information, the entry is untried and below the maximum, and the draw below 2^references is 0 |
| AddrMan.CAddrMan.AddKnown | src/addrman.cpp:321-367 | the exact new state: refreshed, and one more reference in the bucket of the source exactly if earned and not there yet, a full bucket giving up exactly its victim; the invariant is kept, the address stays known, at most one untried other is lost |
| AddrMan.CAddrMan.AddUnknown | src/addrman.cpp:350-367 | the exact new state: created with the penalty and held by the one bucket of its source, a full bucket giving up exactly its victim; the invariant is kept, the address is known, at most one untried other is lost |
| AddrMan.CAddrMan.Add | src/addrman.cpp:312-369 | the invariant is kept; true is returned exactly for a routable unknown address; an unroutable one changes nothing; otherwise the state is the one of the known or the unknown case, victim included |
| AddrMan.CAddrMan.SelectTried | src/addrman.cpp:125-147 | bucket and position are exactly what the rounds of the selection give; all other buckets are untouched and every tried id stays in its own |
| AddrMan.CAddrMan.WithdrawEntry | src/addrman.cpp:207-215 | the entry is in no new bucket and its reference count has come down to zero |
| AddrMan.CAddrMan.Exchange | src/addrman.cpp:240-258 | the entry at the position leaves the tried table for the given new bucket, which had room, and the promoted one takes its place |
| AddrMan.CAddrMan.EvictFor | src/addrman.cpp:230-258 | the entry at the selected position goes to its own new bucket if that has room without the promoted one, else to the origin; the new state is exact, the shuffle of the bucket by the selection included |
| AddrMan.CAddrMan.MakeTried | src/addrman.cpp:203-259 | the invariant is kept and the new state is exact: the entry is appended to its tried bucket, or exchanged for the one the selection picks with these draws, which goes back to one new bucket; all others are as before |
| AddrMan.CAddrMan.FindNewBucket | src/addrman.cpp:288-304 | the wrap-around search from the drawn bucket finds the first one that holds the id, exactly when there is one |
| AddrMan.CAddrMan.Good | src/addrman.cpp:261-310 | the invariant and every address are kept; a matching entry gets last try, last success and time of now and no attempts, and is tried afterwards, by the exact promotion above from the first bucket found; the no-bucket exit is never taken |
| AddrMan.CAddrMan.Attempt | src/addrman.cpp:371-388 | only a matching entry changes: last try is now and there is one attempt more |
| AddrMan.CAddrMan.Connected | src/addrman.cpp:510-528 | only a matching entry changes, in its time, which becomes now exactly if that is more than twenty minutes later |
| AddrMan.CAddrMan.DrawEntry | src/addrman.cpp:500-507 | the entry at the drawn place and the one at the given place are exchanged; nothing else moves |
| AddrMan.CAddrMan.DrawEntries | src/addrman.cpp:500-507 | after so many rounds the first places of the random order are the sample, and the order is exactly that after so many exchanges with drawn places |
| AddrMan.CAddrMan.GetAddr | src/addrman.cpp:494-508 | 23 percent of the table, at most 2500, of distinct known addresses: the first places of the random order after so many exchanges with drawn places; the invariant is kept and only the random order changed |
| AddrManLaws.TerribleIff | src/addrman.cpp:36-54 | an entry may be dropped exactly if it was not tried in the last minute and its time is more than ten minutes ahead, missing or 30 days old, or it failed three times without a success, or ten times with none for a week |
| AddrManLaws.VictimMeaning | src/addrman.cpp:149-188 | the victim of a bucket in ranks and times: the first entry that may be dropped, else the first with the least time of those at the ranks drawn modulo the bucket's size |
| AddrManLaws.UnknownEntry | src/addrman.cpp:350-367 | an unknown address becomes one entry with the penalized time, no history and exactly the bucket of its source; every other entry is as before, except that the bucket lets go of the victim, which is gone if that was its last bucket |
| AddrManLaws.KnownEntry | src/addrman.cpp:321-367 | a known address: its time changes by the rule of one hour or one day, services are united, and one bucket more is due exactly for newer information, an untried entry with less than four, and a draw divisible by 2, 4 or 8; the others as above |
| AddrManLaws.Capacities | src/addrman.h:122-141 | 256 new and 64 tried buckets of at most 64 entries, and an address in at most 4 new ones |
| AddrManLaws.NewSpread | src/addrman.h:104-108 | whatever the sources of one group report reaches at most 32 new buckets |
| AddrManLaws.NewBucketByGroups | src/addrman.cpp:23-34 | only the groups of address and source decide the new bucket |
| AddrManLaws.TriedSpread | src/addrman.h:112-114 | one address group is in at most 4 tried buckets, so it has at most 256 tried entries |
| AddrManLaws.SpreadReached | src/addrman.h:134-138 | both bounds are met by some hashing, one bucket for each residue |
| AddrManLaws.KeyChooses | src/addrman.h:171-171 | the secret key takes part in both choices: with some hashing it alone decides them |
| AddrManRuns.TriedBound | src/addrman.h:122-126 | a consistent manager has at most 4096 tried entries |
| AddrManRuns.NewBound | src/addrman.h:128-132 | and at most 16384 new ones |
| AddrManRuns.Bounded | src/addrman.h:96-132 | tables are bounded, and the random order and the address index have one place for each entry |
| AddrManRuns.AttemptTimely | src/addrman.cpp:385-387 | an attempt keeps the clock conditions if and only if its time is not negative |
| AddrManRuns.Perform | src/addrman.cpp:261-528 | every operation keeps the invariant, and the clock conditions if its time is positive; only Add_ makes addresses known or unknown |
| AddrManRuns.Run | src/addrman.cpp:261-528 | after every history from an empty manager, for every random choice: invariant, self-check passed (with positive times), sizes bounded, and no address that was never added |
| AddrManCheck.CheckEntry | src/addrman.cpp:444-460 | the code of the first test the entry fails, zero exactly for one that satisfies the declarative condition; its address is looked up, and an absent one thereby made known with id 0, exactly if it passes the first four |
| AddrManCheck.CheckEntries | src/addrman.cpp:442-461 | zero exactly if all entries pass, with the tried set and the reference counts collected; otherwise the code of the first entry in id order that does not; exactly the addresses of the entries come to are looked up |
| AddrManCheck.CheckTried | src/addrman.cpp:466-474 | striking off succeeds exactly if no id is listed twice or without being tried; what is left are the tried ids not listed |
| AddrManCheck.CheckNewBucket | src/addrman.cpp:478-484 | counting a bucket down succeeds exactly if all its members still count, and gives the lowered counts |
| AddrManCheck.CheckNew | src/addrman.cpp:476-488 | counting all buckets down succeeds exactly if no id is held that is not counted, or more often than it is; what is left are the ids held less often |
| AddrManCheck.CheckTables | src/addrman.cpp:463-490 | the tests of the tables, each with its code, in order |
| AddrManCheck.Check | src/addrman.cpp:435-491 | zero exactly for the tables that pass; otherwise the code of the first test that fails, entry by entry in id order and then table by table; the addresses looked up on the way, and only these, become known, with id 0 |
| AddrManCheck.CheckIsTheInvariant | src/addrman.cpp:435-491 | consistency with the clock conditions equals passing the self-check plus the few things it does not look at (of the address index only that of entry 0), in both directions |
| AddrManCheck.OnlyZeroUnindexed | src/addrman.cpp:444-460 | in a table that passes the self-check every entry is indexed if and only if entry 0, where present, is |
| AddrManCheck.ForgottenZeroPasses | src/addrman.cpp:444-460 | taking entry 0 out of the address index of any consistent table goes unnoticed by the self-check |
| AddrManCheck.UnindexedPasses | src/addrman.cpp:444-460 | a table with one entry and an empty address index that passes |
| AddrManDisk.WriteNew | src/addrman.h:283-295 | for any counter, right or wrong: the first so many entries with references in id order are written, and the position of an id is its rank among them as far as the loop got, else 0 |
| AddrManDisk.WriteTried | src/addrman.h:296-306 | for any counter: the first so many tried entries in id order are written |
| AddrManDisk.WriteBucket | src/addrman.h:309-316 | a bucket's positions in id order, 0 for an id without one |
| AddrManDisk.Write | src/addrman.h:270-317 | the exact stream of any manager, consistent or not |
| AddrManDisk.StoredWritten | src/addrman.h:270-317 | of a consistent manager every entry is written exactly once, new before tried, and each bucket's positions name exactly its members |
| AddrManLoad.ReadNew | src/addrman.h:327-340 | the loop over the new records does what its specification says; a stream that ends inside it leaves an unset entry behind |
| AddrManLoad.ReadNewRecord | src/addrman.h:329-339 | one new record: entry, address index, random order and, without usable positions, the bucket of its key |
| AddrManLoad.ReadTried | src/addrman.h:341-360 | the loop over the tried records does what its specification says, lost entries included; a stream that ends inside it leaves them counted |
| AddrManLoad.ReadPosition | src/addrman.h:367-375 | one position: an absent id is created, a reference is added unless the entry has enough |
| AddrManLoad.ReadBucket | src/addrman.h:361-376 | the loop over a bucket's positions does what its specification says |
| AddrManLoad.Read | src/addrman.h:318-377 | the whole state is replaced by the one the specification loads, or, exactly for streams shorter than announced, by what was loaded up to there |
| AddrManRoundTrip.RoomLeft | src/addrman.h:342-359 | a written tried record always finds room in the bucket its key selects |
| AddrManRoundTrip.LoadTriedStage | src/addrman.h:327-360 | after any number of records exactly those entries are back under their new ids, in their buckets, none lost |
| AddrManRoundTrip.LoadBucketsStage | src/addrman.h:361-376 | after any number of buckets exactly those memberships and references are back |
| AddrManRoundTrip.RoundTrip | src/addrman.h:270-379 | reading what a consistent manager wrote gives a consistent manager with the same entries, address index, new-bucket membership and tried-bucket contents under new ids |
| AddrManRoundTrip.SaveAndLoad | src/addrman.h:270-379 | the same for two manager objects: written from one, read into the other |
| AddrManRebuild.RebuildExact | src/addrman.h:264-379 | a file written with fewer new buckets brings back every entry, tried ones in their buckets, new ones with one reference in the bucket of their own source; the tables are consistent if and only if no bucket is the choice for more than 64 of them |
| AddrManRebuild.OverfullRebuild | src/addrman.h:335-339 | a consistent manager for which one bucket is the choice for any number of new entries up to 256 |
| AddrManRebuild.CutOffInconsistent | src/addrman.h:327-360 | a file cut off within its records leaves tables that are not consistent |
| Chain.SolutionUnique | src/blockindex_derived_replay.cpp:34-116 | where every record reaches a root, at most one map solves the derivation equation |
| Chain.SolvedIsSolution | src/blockindex_derived_replay.cpp:34-116 | entries solved one by one make up the solution |
| Chain.CycleNeverGrounded | src/blockindex_derived_replay.cpp:244-394 | a record that is its own ancestor reaches no root |
| DerivedReplay.ReplayActiveChain | src/blockindex_derived_replay.cpp:142-234 | above any seed record or the null parent: OK exactly if the heights above it are a dense chain of readable linked records, an I/O error exactly if the first bad height has no readable active entry, corruption otherwise; the entries of the heights below the first bad one are added, each derived from the height below, and an unreadable seed changes nothing |
| DerivedReplay.NothingAppended | src/blockindex_derived_replay.cpp:142-234 | a replay leaves the map as it was if and only if the first height above the seed is bad |
| DerivedReplay.ActiveSolved | src/blockindex_derived_replay.cpp:142-234 | with unique hashes, above the null parent or a seed with its right entry, those entries solve the recursion by parent hash |
| DerivedReplay.BuildHashIndex | src/blockindex_derived_replay.cpp:259-276 | OK exactly if all records are readable and no hash repeats; then the index is the inverse of the records |
| DerivedReplay.WalkToAnchor | src/blockindex_derived_replay.cpp:287-347 | the upward walk ends, at a derived record or a root, with the path on the stack, or refuses: as corrupt if the ancestry ends at a record whose parent is absent or itself, as internal if it enters a cycle of several records |
| DerivedReplay.BrokenOrCycle | src/blockindex_derived_replay.cpp:287-347 | no ancestry does both |
| DerivedReplay.DeriveDown | src/blockindex_derived_replay.cpp:349-388 | deriving down the stack solves exactly its records |
| DerivedReplay.ResolveOne | src/blockindex_derived_replay.cpp:284-388 | one round resolves a record with all its ancestors, or changes nothing; it is corrupt if and only if the ancestry ends broken, internal if and only if it enters a cycle of several records |
| DerivedReplay.ReplaySideClosure | src/blockindex_derived_replay.cpp:244-394 | it terminates on every store and succeeds exactly on sound ones, with the solution; the status of a refusal is exactly decided by the least record that reaches no root; what is left are the records resolved before it |
| DerivedReplay.RefusalFromNothing | src/blockindex_derived_replay.cpp:244-394 | a refused closure that began with nothing leaves nothing exactly if a record is unreadable, a hash repeats or record 1 reaches no root |
| DerivedReplay.RebuildAll | src/blockindex_derived_replay.cpp:400-480 | success exactly if the store is sound and the active chain dense; then the map covers ids 1 to the record count and is the only solution, whose entries DerivedLaws.SolutionMeaning gives in record fields; with unique hashes every entry a refusal leaves is right, and it leaves none if and only if the first record to be derived could not be; I/O and internal errors are characterised exactly |
| DerivedLaws.DeriveFollows | src/blockindex_derived_replay.cpp:34-116 | one step in record fields: trust of parent and block modulo 2^256; checksum the top 32 bits of the digest over the parent's, nFlags, hashProof if nFlags is odd and otherwise 0, and nStakeModifier, or 0 for a guarded root; time nTime under bit 4 of nFlags, else the parent's |
| DerivedLaws.SolutionMeaning | src/blockindex_derived_replay.cpp:34-116 | in any solution of the derivation equation the trust of a record is the sum of the block trusts along its ancestry modulo 2^256, its modifier time that of the nearest ancestor, itself included, with bit 4 of nFlags set, none if there is none, and its checksum the digest above over the parent entry's |
| DerivedLaws.BuiltMeaning | src/blockindex_generation_builder.cpp:340-500 | the same of every pass in row order, on any store; the ancestry ends at a root or where the parent is missing or sorts later, and the checksum is then taken over 0 |
| DerivedLaws.WorkProofsUnhashed | src/blockindex_derived_replay.cpp:69-70 | changing the hashProof of proof-of-work records changes no checksum of the store, in a solution or in a pass |
| DerivedReplay.RefusedRebuildKeepsEntries | src/blockindex_derived_replay.cpp:400-480 | a store on which the rebuild is refused and an entry stays in the map |
| ExternalSort.SortChunk | src/blockindex_generation_builder_lm.cpp:418-462 | a chunk is sorted by height and hash and keeps its rows |
| ExternalSort.MakeRuns | src/blockindex_generation_builder_lm.cpp:398-468 | for any chunk size the runs are sorted, together hold the rows, and are of exactly that size but for the last, which may be shorter |
| ExternalSort.BestHead | src/blockindex_generation_builder_lm.cpp:489-505 | the least head among the runs still alive |
| ExternalSort.MergeRuns | src/blockindex_generation_builder_lm.cpp:470-522 | the merge is sorted and a permutation of the runs |
| ExternalSort.ExternalHeightSort | src/blockindex_generation_builder_lm.cpp:395-522 | for any chunk size the output is the same rows by ascending height, and by ascending hash within a height |
| ExternalSort.BinSearchFixed | src/blockindex_generation_builder_lm.cpp:188-207 | a row with the hash is found exactly when there is one |
| BuilderRows.OrderedGrounded | src/blockindex_generation_builder.cpp:310-319 | where every parent's row sorts before its child's, every record reaches a root |
| BuilderRows.IncreasingIsOrdered | src/blockindex_generation_builder.cpp:310-319 | increasing heights are enough for that, however hashes compare |
| BuilderRows.PassedIffLess | src/blockindex_generation_builder.cpp:310-319 | when a pass comes to a row, the rows behind it are exactly those that sort before it |
| BuilderRows.BuiltUnique | src/blockindex_generation_builder.cpp:347-500 | on any store at most one map gives every record the entry derived from its parent's if that sorts first, and from the default entry otherwise |
| BuilderRows.BuiltExpected | src/blockindex_generation_builder.cpp:347-500 | where all parents sort first that map is the recursion, trust, checksum, time and size |
| BuilderRows.BuiltRightIff | src/blockindex_generation_builder.cpp:347-500 | on any store that map gives every record that reaches a root the entry of the recursion if and only if no parent that sorts late has trust, a checksum that changes the child's, or a modifier time the child would inherit |
| BuilderRows.TrustRightIff | src/blockindex_generation_builder.cpp:347-373 | its trusts are those of the recursion if and only if no late parent has any |
| BuilderActive.CollectHashes | src/blockindex_generation_builder.cpp:172-187 | accepted exactly if no hash repeats; the index then has every record |
| BuilderActive.WalkEndsIff | src/blockindex_generation_builder.cpp:227-241 | following the parent links from a record ends if and only if they lead into no cycle |
| BuilderActive.WalkActive | src/blockindex_generation_builder.cpp:227-241 | where it ends, the walk is accepted exactly if the best block reaches a root, and collects its ancestry in order |
| BuilderActive.CollectActive | src/blockindex_generation_builder.cpp:222-256 | accepted exactly if there is a best block, it reaches a root, and the heights of its ancestry are 0 and up without a gap; the layout then has each of these records at its height |
| BuilderActive.LinkedIff | src/blockindex_generation_builder.cpp:227-256 | an accepted layout is the linked chain the replay asks for if and only if heights step by one along the ancestry |
| GenerationBuilders.CheckRecords | src/fixed_blockindex_store.cpp:673-695 | accepted exactly if every record is valid |
| GenerationBuilders.CheckParents | src/blockindex_generation_builder.cpp:297-308 | accepted exactly if every claimed parent is present |
| GenerationBuilders.TrustPass | src/blockindex_generation_builder.cpp:347-373 | the first loop gives every record its own trust plus its parent's exactly if the parent's row sorts first, and sets nothing else, for any store with unique hashes |
| GenerationBuilders.ParentAsFound | src/blockindex_generation_builder.cpp:379-500 | when the second loop comes to a record, a parent that does not sort first still has its trust alone |
| GenerationBuilders.EntryPass | src/blockindex_generation_builder.cpp:379-500 | for any store with unique hashes the second loop gives every record the whole entry derived from its parent's if that sorts first, and from the default entry otherwise |
| GenerationBuilders.BuildDerived | src/blockindex_generation_builder.cpp:139-500 | accepted exactly if hashes are unique, records valid, the active chain dense and parents present; then the active chain is laid out by height and the entries are the unique map above, which DerivedLaws.BuiltMeaning gives in record fields |
| GenerationBuilders.LateParentLosesTrust | src/blockindex_generation_builder.cpp:222-373 | an accepted store with a late parent on a side branch: whatever is built misses the trust of the child's ancestry |
| GenerationBuilders.UnlinkedActiveAccepted | src/blockindex_generation_builder.cpp:222-373 | an accepted store whose active chain itself has a late parent: its layout is not linked, and the trust of its tip misses that of its ancestry |
| LowMemoryBuilder.SlotEntry | src/blockindex_generation_builder_lm.cpp:565-694 | one row is accepted exactly if the record is acceptable, its claimed parent on file and the parent's slot readable, and derives from what that slot holds |
| LowMemoryBuilder.ParentSlot | src/blockindex_generation_builder_lm.cpp:625-647 | a parent's slot holds its entry exactly if its row sorts first; else it reads as zeroes exactly if an earlier row has a RecordId as large, and fails otherwise |
| LowMemoryBuilder.SlotPass | src/blockindex_generation_builder_lm.cpp:562-712 | for any store with unique hashes the pass is refused exactly if some record is not acceptable, has its parent absent, or has the parent's slot beyond the end of the file; otherwise the slots are the unique map above, without the guard on roots |
| LowMemoryBuilder.OrderedDerivable | src/blockindex_generation_builder_lm.cpp:625-647 | where all parents sort first only the checks on the record itself count |
| LowMemoryBuilder.ScanDuplicates | src/blockindex_generation_builder_lm.cpp:367-378 | over records in hash order, accepted exactly if no hash repeats |
| LowMemoryBuilder.BuildDerivedLowMemory | src/blockindex_generation_builder_lm.cpp:395-712 | the whole low-memory derivation, for any chunk size: acceptance and slots, exactly; DerivedLaws.BuiltMeaning gives the slots in record fields |
| LowMemoryBuilder.LateParentRefused | src/blockindex_generation_builder_lm.cpp:636-647 | the store on which the in-memory builder loses trust is refused here |
| LowMemoryBuilder.ZeroSlotRead | src/blockindex_generation_builder_lm.cpp:636-650 | an accepted store on which the slot of a late parent is read as zeroes, and its trust is lost |
| LowMemoryBuilder.HarmlessValue | src/blockindex_generation_builder_lm.cpp:600-656 | where every parentless record is the genesis or has digest 0, the missing checksum guard changes no record's entry |
| LowMemoryBuilder.RootGuardExact | src/blockindex_generation_builder_lm.cpp:600-656 | over a whole store, descendants included, the two rules agree if and only if every parentless record is the genesis or has digest 0 |
| LowMemoryBuilder.ForeignRootDiffers | src/blockindex_generation_builder_lm.cpp:600-624 | a store on which they differ |
| LowMemoryBuilder.BuildersAgreeIff | src/blockindex_generation_builder_lm.cpp:562-712 | wherever parents sort, the two builders give the same entries if and only if every parentless record is the genesis or has digest 0 |
| LowMemoryBuilder.BuiltIsReplayIff | src/blockindex_generation_builder.cpp:347-500 | on a sound store a builder gives the solution of the replay if and only if nothing of a late parent's entry would have shown in its child's |
| LowMemoryBuilder.BuildersAgreeWithReplay | src/blockindex_generation_builder.cpp:347-500 | replay, in-memory builder and low-memory builder give identical maps where heights increase along parent links and the missing guard is harmless |
| TrustWalk.AccumulatedChainTrust | src/blockindex_authoritative_startup.cpp:956-1092 | the walk terminates on every finite domain and succeeds exactly if ancestry resolves with heights stepping down by one; its sum is the trust accumulated from the chain start |
| TrustWalk.CompletePathTrust | src/blockindex_authoritative_startup.cpp:1020-1032 | a completed path sums, modulo 2^256, to the trust accumulated from the chain start |
| TrustWalk.WalkEqualsDerivedTrust | src/blockindex_authoritative_startup.cpp:956-1092 | on records of consistent proof-of-stake classification the walk returns the derived entry's chain trust |
| TipWindow.Authority.CutObject | src/blockindex_authoritative_live.cpp:183-185 | exactly the edges to the victim are cleared |
| TipWindow.Authority.CutWindow | src/blockindex_authoritative_live.cpp:177-186 | no window object keeps an edge to the victim; no other edge changes |
| TipWindow.Authority.CutMap | src/blockindex_authoritative_live.cpp:187-199 | the same for the objects of the map |
| TipWindow.Authority.ReleaseEdges | src/blockindex_authoritative_live.cpp:171-203 | nothing reachable leads to the victim, the victim leads nowhere, all other edges are as before |
| TipWindow.Authority.CollectHeld | src/blockindex_authoritative_live.cpp:235-255 | exactly the objects in the map, one edge from it, best and genesis |
| TipWindow.Authority.CollectVictims | src/blockindex_authoritative_live.cpp:257-294 | exactly the evictable hashes, each once |
| TipWindow.Authority.DeepIff | src/blockindex_authoritative_live.cpp:135-139 | the floor the pass computes and the registered floor select exactly the heights meant |
| TipWindow.Authority.ReleaseAll | src/blockindex_authoritative_live.cpp:297-301 | edges to any victim are cut and no others |
| TipWindow.Authority.ReleaseOwned | src/blockindex_hot_owner.cpp:579-592 | the object is freed and its slot erased; the flag says whether there was one |
| TipWindow.Authority.FreeAll | src/blockindex_authoritative_live.cpp:302-303 | exactly the victims are freed |
| TipWindow.Authority.KeptApart | src/blockindex_authoritative_live.cpp:257-294 | nothing kept is among the victims under another name, and no victim is held |
| TipWindow.Authority.TwoPhases | src/blockindex_authoritative_live.cpp:297-303 | exactly the victims are gone, and every surviving object has lost exactly its edges to them |
| TipWindow.Authority.RunPass | src/blockindex_authoritative_live.cpp:297-303 | no edge of a reachable object leads into freed storage |
| TipWindow.Authority.RunPassKeeping | src/blockindex_authoritative_live.cpp:235-303 | whatever was held is live and held |
| TipWindow.Authority.RunPassFully | src/blockindex_authoritative_live.cpp:257-303 | a second pass right after the first finds nothing to evict |
| TipWindow.Authority.EvictBelowFloor | src/blockindex_authoritative_live.cpp:220-304 | an object is freed if and only if it is one of several, more than 2048 and more than twice the horizon below the top, neither anchored nor held, and not an active height at or above the registered floor; survivors lose exactly their edges into the freed; nothing dangles; nothing evictable is left |
| IndexStores.RecordStore.Append | src/fixed_blockindex_store.cpp:172-192 | a record is appended, under its position as id, exactly if its hash is set, its height is not negative, one at height 0 is parentless, a stake time is there exactly for odd nFlags and a stake prevout only for them; another changes nothing |
| IndexStores.RecordStore.WriteManifest | src/fixed_blockindex_store.cpp:821-835 | a manifest is stored exactly if it is the empty one, or its tip is one of its records, which the store has |
| IndexStores.HashIndex.Put | src/blockindex_hashindex.cpp:401-435 | a hash keeps the id it first got, another one is refused |
| IndexStores.ActiveIndex.Append | src/blockindex_activeindex.cpp:352-393 | one id at exactly the next height below 2^31 - 1, or nothing |
| IndexStores.ActiveIndex.AppendBatch | src/blockindex_activeindex.cpp:395-443 | a non-empty batch of valid ids up to height 2^31 - 1, or nothing |
| IndexStores.ActiveIndex.TruncateTo | src/blockindex_activeindex.cpp:445-477 | the heights up to the given one, refused above the current height and below -1 |
| IndexStores.ActiveIndex.ReadEntry | src/blockindex_activeindex.cpp:479-511 | the id at a height, exactly inside the physical range |
| Fold.RunIs | src/blockindex_fold_tool.cpp:163-184 | the loop over tip heights stops exactly at the end of the consecutive run |
| Fold.SlotHeights | src/blockindex_fold_tool.cpp:163-184 | the tip answers the heights right above its base height, one slot each, and no others |
| Fold.AppendIndexed | src/blockindex_fold_tool.cpp:48-54 | record and hash mapping are appended exactly if the record is valid and its hash new; index and records stay inverse |
| Fold.CopyRecords | src/blockindex_fold_tool.cpp:37-57 | succeeds exactly if all base records are readable, valid and of distinct hash; ids are unchanged |
| Fold.CopyActive | src/blockindex_fold_tool.cpp:122-138 | succeeds exactly if every base height is readable, and copies them all |
| Fold.CopyDerived | src/blockindex_fold_tool.cpp:140-157 | succeeds exactly if every base entry is readable, and copies them all |
| Fold.AppendTip | src/blockindex_fold_tool.cpp:159-184 | appends exactly the consecutive run of tip blocks with ids following the base's |
| Fold.BuildFoldStaging | src/blockindex_fold_tool.cpp:61-270 | succeeds exactly under the stated condition, and the staged generation is base followed by tip, with an exact hash index |
| Fold.FoldUpToPublication | src/blockindex_fold_tool.cpp:322-342 | nothing is staged at or below the base tip; above it staging decides |
| Fold.SameAtEveryHeight | src/blockindex_fold_tool.cpp:122-200 | every active height up to the fold resolves to the same record and derived entry as base-then-tip, if and only if it is not a base height whose entry names one of the appended records |
| Fold.StrayAnswered | src/blockindex_fold_tool.cpp:122-200 | a base with such an entry, and the generation folded from it: unanswered before, answered after |
| Fold.SameAtEveryId | src/blockindex_fold_tool.cpp:37-57 | every base id keeps its record and derived entry, and its hash resolves to it |
| Fold.ReachesTopIffDense | src/blockindex_fold_tool.cpp:159-200 | a staged fold reaches the requested height if and only if the tip has no gap below it; the active tip is the manifest's tip id, and without a gap its hash is the manifest's |
| Fold.TipHashAgreesIffDense | src/blockindex_fold_tool.cpp:201-254 | over a tip with distinct blocks the manifest names the hash of its own tip if and only if there is no gap |
| Fold.DenseTipNeverShort | src/blockindex_fold_tool.cpp:159-200 | over a tip that starts right above the base and is readable throughout, a fold is never short |
| Fold.GapFoldsShort | src/blockindex_fold_tool.cpp:159-254 | an input with a gap: the fold succeeds, short, under the hash of another block |
| BigNum.MpiBack | src/bignum.h:452-489 | the MPI form of a number is canonical and reads back as the number |
| BigNum.MpiOfValue | src/bignum.h:452-489 | a canonical MPI string is the one its number gets |
| BigNum.SignedMpiBack | src/bignum.h:452-489 | the MPI form of any integer, sign bit included, reads back as the integer |
| BigNum.VchBack | src/bignum.h:452-489 | setvch after getvch is the identity on all integers |
| BigNumLaws.MpiMeaning | src/bignum.h:452-489 | an MPI string is its big-endian number, negated and without the top bit of its first byte if that is set |
| BigNumLaws.VchMeaning | src/bignum.h:452-470 | a byte string is its little-endian number, negated and without the top bit of its last byte if that is set |
| BigNum.ExpandReadsTruncated | src/bignum.h:491-526 | expanding a compact form gives the number with all but its first three MPI bytes cleared; BigNumLaws.ExpandMeaning says what any compact form expands to |
| BigNum.CompactRoundsDown | src/bignum.h:491-526 | compact-then-expand rounds down by less than one part in 2^15 |
| BigNum.CompactCloseIff | src/bignum.h:491-526 | and does so if and only if the number has at most 255 MPI bytes |
| BigNum.LongFormsAreLost | src/bignum.h:508-526 | beyond that the length byte wraps and the result is never close |
| BigNum.CompactStable | src/bignum.h:491-526 | a second round trip changes nothing |
| BigNum.CompactNegates | src/bignum.h:491-526 | compact-then-expand of a negated number is the negated result, at every length |
| BigNum.CompactMonotone | src/bignum.h:508-526 | a larger number has a compact form at least as large; BigNumLaws.CompactMeaning says what that form is |
| BigNumLaws.ExpandMeaning | src/bignum.h:491-506 | every compact form, in bit fields: 23 bits of mantissa shifted by the 8 bits of length less 3, in bytes, to the right below 3, and negated under the sign bit |
| BigNumLaws.CompactMeaning | src/bignum.h:508-526 | the compact form of every number is of 32 bits: the shortest length modulo 256, the sign, and the magnitude shifted to three bytes |
| BigNumLaws.CompactFits | src/bignum.h:508-526 | every number has such a length, and its compact form is below 2^32 |
| Digits.TranscodeBack | src/base58.cpp:16-138 | changing the base and back, leading zeros kept, is the identity for all bases |
| Base58.DigitLoop | src/base58.cpp:36-56 | the division loop produces the digits of the number, lowest first |
| Base58.EncodeBase58 | src/base58.cpp:16-65 | the text is the base-58 numeral with one letter 1 for each leading zero byte |
| Base58.LetterLoop | src/base58.cpp:84-119 | the multiplication loop reads the leading letters, and succeeds exactly if only space follows |
| Base58.SignByteTrimmed | src/base58.cpp:122-127 | dropping the sign byte leaves the plain bytes of the number |
| Base58.DecodeBase58 | src/base58.cpp:75-138 | accepted exactly if the text is letters between space; then the bytes with one zero for each leading 1 |
| Base58.DecodeEncode | src/base58.cpp:16-138 | decoding an encoding returns the bytes, leading zeros included |
| Base58.EncodeDecode | src/base58.cpp:16-138 | encoding what a text decodes to returns its letters, leading ones included |
| Base58.DecodeInjective | src/base58.cpp:75-138 | two accepted texts give the same bytes exactly if they have the same letters |
| Base58Laws.AlphabetOrder | src/base58.cpp:13-13 | the letter of each digit is the one at its place in the 58-letter alphabet, and only these are letters |
| Base58Laws.FramedDecodes | src/base58.cpp:75-138 | a text of letters between blanks decodes, to bytes of the same number with one leading zero for each leading 1 of the letters |
| Base58Laws.AcceptedIff | src/base58.cpp:75-119 | a text is accepted exactly if it is letters of the alphabet with nothing but space, tab, newline, vertical tab, form feed and carriage return around them |
| Base58.CheckedRoundTrip | src/base58.cpp:148-174 | what is encoded with its checksum decodes to bytes that end in it, and the bytes before it are the original ones and no others |
| Base58.EncodeBase58Check | src/base58.cpp:148-155 | the bytes with the first four bytes of their hash, encoded; the text is one the checking decoder accepts, and the original bytes are the only answer it can give |
| Base58.DecodeBase58Check | src/base58.cpp:159-174 | accepted exactly if the decoded bytes end in the checksum of the others, which are returned and encode back to the letters of the text |
| PageLock.MaskRoundsDown | src/allocators.h:53-63 | masking with the complement of the page size minus one rounds down to a multiple of the page size |
| PageLock.PowerOfTwoTest | src/allocators.h:51-53 | the constructor's test accepts a positive size exactly if it is a power of two |
| PageLock.AddressArithmetic | src/allocators.h:51-64 | ends of ranges, page counters and the size less one are taken modulo 2^64 |
| PageLock.TouchesIffBetween | src/allocators.h:61-64 | the pages between the first and the last are exactly those that share a byte with the range |
| PageLock.VisitsIffTouches | src/allocators.h:61-64 | in a range inside the address space the loop visits exactly the pages that share a byte with it |
| PageLock.WrappedVisits | src/allocators.h:61-64 | in a range past the end of it the loop visits the first page if the wrapped end is on it, and nothing otherwise |
| PageLock.LeavesBelowTop | src/allocators.h:64-64 | a range whose last page is not the top one of the address space is left after finitely many rounds |
| PageLock.NeverEndsIff | src/allocators.h:64-64 | the loop over a range never ends if and only if its last page is the top one |
| PageLock.ZeroPageSize | src/allocators.h:48-64 | a page size of 0 passes the constructor's test; its mask is 0, so that first and last page of every range are page 0, and the guard of the loop holds in every round |
| PageLock.LockedPageManager.constructor | src/allocators.h:48-54 | a new manager has nothing locked and the mask of its page size; it is a valid one exactly if the size is not 0 |
| PageLock.LockedPageManager.LockRange | src/allocators.h:57-77 | for every range whose loop ends, every page counts one more live range exactly if the loop visits it |
| PageLock.LockedPageManager.UnlockRange | src/allocators.h:80-100 | the counts go down again; the assertion that the area was locked holds |
| PageLock.LockedPageManager.LockedIffTouched | src/allocators.h:48-100 | a page is OS-locked if and only if the loop of some live range visits it; for ranges inside the address space, if and only if one has a byte on it |
| PageLock.RunHistory | src/allocators.h:48-100 | after any matched history whose loops end, counts equal live coverage and exactly the covered pages are locked |

## Left out

- Metrics, call tracing, printf output, test seams and command-line tools are not modelled.
- The 64-bit wrap of the residency cache's token counter is not modelled: sequence numbers are unbounded.
- The fields of a materialized block-index object other than its height are not modelled.
- Destroying the residency cache, and the read-only queries beside it (counts, eligibility lists), would add only easy members.
- `Select_` and `GetChance` of the address manager: floating point and a random loop without a bound.
- Add over a list of addresses, and the locking wrappers of the address manager, repeat single operations.
- Address streams are read record by record: fields of a record cut off in the middle, negative counts and positions missing inside a bucket are not modelled; nor are files with more than 256 new buckets, where the source is undefined.
- Routability and the group of an address are parameters; IPv4 and IPv6 encodings are not modelled.
- The byte codecs of records, manifests, hash keys, active entries and derived entries are not modelled.
- Id assignment by the two builders, and the active chain of the low-memory one, are not modelled.
- How the mutable tip store works inside is not modelled; it answers by height, as its callers see it.
- Publishing, validating and selecting a folded generation, and truncating the tip afterwards, are not modelled.
- The content binding of derived state is a hash over the manifest and is not modelled.
- File-system failures are not modelled: a write that is accepted succeeds.
- GetActiveHeight of the active-chain reader gives up after a fixed number of probes and is not modelled.
- AddrManLoad.Read: requires counts that are not negative, because ids are natural numbers here, and a stream that does not come to a bucket past the table, where the source is undefined.
- AddrManLoad.ReadNew: requires counts that are not negative, for the same reason.
- AddrManLoad.ReadTried: requires the same.
- Fold.BuildFoldStaging: requires heights below the largest 32-bit one, because the source's loop counters overflow there.
- Fold.FoldUpToPublication: requires the same.
- GenerationBuilders.BuildDerived: requires that the walk down from the best block ends; WalkEndsIff says when it does.
- LowMemoryBuilder.BuildDerivedLowMemory: requires records in the order of their hashes, which is the key order of the scan; a record stored under another key is not modelled.
- LowMemoryBuilder.BuildersAgreeIff: asks that no record has the height of its parent, because the builders compare hashes in different byte orders.
- LowMemoryBuilder.BuildersAgreeWithReplay: asks for increasing heights, for the same reason.
- IndexStores.RecordStore.WriteManifest: the manifest's version, sizes, generation and state are not modelled, only the fields the fold depends on.
- PageLock.LockedPageManager.LockRange: requires a range whose loop ends; NeverEndsIff says which ones do.
- PageLock.LockedPageManager.UnlockRange: requires the same, and a range that was locked, which the source asserts.
- TipWindow.Authority.EvictBelowFloor: does not model 32-bit overflow of twice the horizon.
- TipWindow.Authority.ReleaseOwned: the height index is not part of this view; HotOwner.BlockIndexHotOwner.ReleaseOwnedObject has it.
