# DeepBook: a verified model

A Dafny model of the parts of DeepBook V3 that keep state between calls, with the properties its callers rely on:

- **Withdrawal rate limiter** (`RateLimiter`, `RateLimiterRuns`): the token bucket of margin pools, as a class, and
  what whole runs of it guarantee: arithmetic safety for any clock readings, a bound on every window, refinement of a
  bucket that ticks once per millisecond, invisibility of rejections and reads, and closure of admissible schedules
  under asking for less.
- **Order pages** (`BigVector`, `OrderQuery`, `OrderPaging`): the leaf cursor of the book, the scan loop, and paging
  through a book that changes between pages.
- **Balance managers** (`BalanceManager`, `Capabilities`): asset bags with absent and zero keys, and the capability
  allow-lists of all managers over all runs.
- **Pools** (`Balances`, `Vault`, `OrderFees`, `Referrals`, `Lots`, `FixedPoint`, `AskFees`, `AskSettlement`, `Pool`):
  settlement against the vault, swaps through a temporary manager with DEEP aliasing base or quote, the asset fees are
  taken and booked in, referral rewards, lot sizes, and fees in base.
- **Registry** (`Registry`): entries and pool flags over creation, unregistration and redeployment.
- **Indexer and server** (`Indexer`, `IndexerRuns`, `NetDeposits`): convergence of repeated commits, and net deposits
  from an hourly view.

Objects that the source updates in place are classes; each method is proved against a function of the old state, and
the theorems are about those functions. An abort is a `Result.Abort` that leaves every object as it was. Values are
bounded by the subset types `u64` and `u128`, so that an assignment to one is a proof that Move neither overflows nor
truncates there. Clock readings, object ids, senders, the matching engine and the dry run of a swap are parameters.

Seven places where the code does less than one may expect, each with its exact condition and most with an input:

- `has_next_page` may be set although nothing is left to return (`OrderPaging.NextPageMayBeEmpty`, instance
  `OrderPaging.EmptyNextPage`).
- A sale with the fee in base may leave a whole lot unsold that its input affords, because the division to a quantity
  rounds before the lot does (`AskFees.LotIsLeftExactlyWhen`, instance `AskFees.AffordableLotIsLeft`).
- The rate quoted for a fee in base covers the fee charged at settlement exactly when a quarter on top of the charged
  fee is at most the rounded rate (`AskSettlement.SettlementFitsExactlyWhen`). A surcharge over the quoted fee, as the
  gas-price penalty adds, makes the swap of some input abort in every pool when it is executed in full
  (`Pool.SurchargedSaleAborts`). With DEEP attached but without a price for it, no room is left at all: a sale executed
  in full settles exactly when the fee fits into what rounding to the lot left over
  (`Pool.UnpricedDeepSaleSettlesExactlyWhen`, in whitelisted pools `Pool.WhitelistedSaleSettlesExactlyWhen`).
- Fees are booked, and the referral's share of them charged, in the asset that the order's flags name. That is not the
  asset they were taken in exactly when the caller chose DEEP, there is no price for it, and the fee is not zero
  (`OrderFees.FeesAreBookedAsTakenExactlyWhen`, instance `OrderFees.BaseFeeBookedAsDeep`).
- A swap that turns back because its input is below the minimum size succeeds although it bought nothing, whatever
  minimum output was asked for; that is the only way to get less (last clause of `Pool.Pool.SwapExactQuantity`).
- The table that repeated commits leave depends on their order exactly when two batches bring different rows for one
  key (`IndexerRuns.ConvergesExactlyWhen`). Keys of digests of different lengths can clash
  (`Indexer.KeysClashExactlyWhen`), and for any such pair some log depends on the order
  (`IndexerRuns.ClashingKeysDiverge`, instance `IndexerRuns.ClashingDigestsDiverge` with digests of 43 and 44
  characters).
- Net deposits lack events of past hours that were committed after the view was last refreshed (instance
  `NetDeposits.LateDeposit`), events just before the epoch (instance `NetDeposits.MissedDeposit`), and part of an hour
  at negative instants; the query is right exactly when what it lacks nets to zero (`NetDeposits.ViewQueryIsDirectSum`).

The operations of balance managers, registries and referral records are written twice: as functions, which the runs
use, and as methods. Both are held to what the operation promises, spelled out without either: who may call it, exactly
when it succeeds, and what it leaves.

## Model

| member | source | states |
|---|---|---|
| RateLimiter.RefillFitsU128 | packages/deepbook_margin/sources/rate_limiter.move:110-124 | The refill product and its sum with a full bucket stay within u128; the extreme is 2^128 - 2^64 |
| RateLimiter.Limiter.constructor | packages/deepbook_margin/sources/rate_limiter.move:20-34 | A new limiter is full and stamped with the current reading |
| RateLimiter.Limiter.Refill | packages/deepbook_margin/sources/rate_limiter.move:110-124 | Brings the bucket to its level at the reading, never past capacity; a reading that goes back changes nothing |
| RateLimiter.Limiter.CheckAndRecordWithdrawal | packages/deepbook_margin/sources/rate_limiter.move:36-51 | Decision and whole new state, enabled or not, accepted or rejected |
| RateLimiter.Limiter.RecordDeposit | packages/deepbook_margin/sources/rate_limiter.move:53-60 | A deposit adds to the level and saturates at capacity; it is ignored while disabled |
| RateLimiter.Limiter.GetAvailableWithdrawal | packages/deepbook_margin/sources/rate_limiter.move:62-75 | Reports the level without storing it; the maximum u64 while disabled |
| RateLimiter.Limiter.UpdateConfig | packages/deepbook_margin/sources/rate_limiter.move:77-92 | Refills at the old rate, then takes the new settings and clips to the new capacity |
| RateLimiterRuns.StampIsMonotone | packages/deepbook_margin/sources/rate_limiter.move:110-124 | For clock readings in any order the stamp never goes back and never passes the latest reading |
| RateLimiterRuns.TokenBudgetAnyClock | packages/deepbook_margin/sources/rate_limiter.move:36-124 | For clock readings in any order, what is let out plus what is left is at most what was there, refilled and deposited |
| RateLimiterRuns.CallCreatesNoTokens | packages/deepbook_margin/sources/rate_limiter.move:77-92 | No call, a reconfiguration included, creates tokens at its own instant |
| RateLimiterRuns.WindowBound | packages/deepbook_margin/sources/rate_limiter.move:36-124 | Over any window, with reconfigurations and disabled spans, charged withdrawals plus the final level are bounded by the initial level, the refill of each segment at its own rate, and deposits |
| RateLimiterRuns.WithdrawalsInWindow | packages/deepbook_margin/sources/rate_limiter.move:36-60 | In every run, accepted withdrawals of a window that stays enabled are at most capacity, the refill of each segment at its own rate, and deposits; without reconfigurations the refill is rate * length |
| RateLimiterRuns.WindowBoundIsTight | packages/deepbook_margin/sources/rate_limiter.move:36-51 | The window bound is attained |
| RateLimiterRuns.TickToAddsRate | packages/deepbook_margin/sources/rate_limiter.move:110-124 | Ticking once per millisecond amounts to one saturating refill of the whole gap |
| RateLimiterRuns.LazyRefinesEager | packages/deepbook_margin/sources/rate_limiter.move:36-124 | For every run with a nondecreasing clock the limiter answers like the bucket that ticks every millisecond, through disabled spans and reconfigurations |
| RateLimiterRuns.NewLimiterRefinesFullBucket | packages/deepbook_margin/sources/rate_limiter.move:20-34 | From creation on, the limiter is indistinguishable from a ticking bucket that starts full |
| RateLimiterRuns.ErasureIsUnobservable | packages/deepbook_margin/sources/rate_limiter.move:36-75 | Erasing rejected withdrawals and reads from a run changes no other answer and no later behaviour |
| RateLimiterRuns.QuoteIsExact | packages/deepbook_margin/sources/rate_limiter.move:62-75 | A withdrawal is accepted exactly when it is at most the quoted availability, in both modes |
| RateLimiterRuns.LighterSchedulesAreAccepted | packages/deepbook_margin/sources/rate_limiter.move:36-60 | Deleting or shrinking withdrawals, or enlarging deposits, leaves every remaining withdrawal accepted |
| RateLimiterRuns.WithdrawalSplits | packages/deepbook_margin/sources/rate_limiter.move:36-51 | Withdrawing a + b at one instant is withdrawing a then b, in decision and in final state |
| BigVector.Side.NextSliceSteps | packages/deepbook/sources/helper/big_vector.move:391-402 | Stepping forward across leaves is stepping to the next order, and null exactly after the last |
| BigVector.Side.PrevSliceSteps | packages/deepbook/sources/helper/big_vector.move:405-422 | Stepping back across leaves is stepping to the previous order, and null exactly before the first |
| BigVector.Side.BisectLeft | packages/deepbook/sources/helper/big_vector.move:621-635 | Finds the first order of a leaf at or after a key |
| BigVector.Side.BisectRight | packages/deepbook/sources/helper/big_vector.move:639-652 | Finds the child of an interior node to descend to |
| BigVector.Side.Descend | packages/deepbook/sources/helper/big_vector.move:568-576 | The descent through interior nodes ends at the one leaf that may hold the key |
| BigVector.Side.FindLeaf | packages/deepbook/sources/helper/big_vector.move:568-582 | The leaf position found splits the whole side into orders below and orders at or above the key |
| BigVector.Side.SliceBefore | packages/deepbook/sources/helper/big_vector.move:345-361 | The last order below the key, across a leaf edge too |
| BigVector.Side.SliceFollowing | packages/deepbook/sources/helper/big_vector.move:328-340 | The first order at or above the key, across a leaf edge too |
| OrderQuery.FilterIsExact | packages/deepbook/sources/order_query.move:28-65 | The declarative scan contains exactly the matching orders, in scan order |
| OrderQuery.IterOrders | packages/deepbook/sources/order_query.move:28-65 | The page holds the first orders in scan order that meet every bound given, all of them unless it is full; a next page is reported exactly when an order lies past the full page or past the end bound |
| OrderQuery.PageIsOfTheOrdersAsked | packages/deepbook/sources/order_query.move:34-55 | What a page holds, read off the bounds as they are given, absent ones included |
| OrderQuery.Collect | packages/deepbook/sources/order_query.move:48-65 | Start cursor and loop for bounds already filled in |
| OrderQuery.CollectFrom | packages/deepbook/sources/order_query.move:54-64 | The cursor loop from any start cursor; it ends although the filter may reject every order |
| OrderQuery.ScanStopsRight | packages/deepbook/sources/order_query.move:54-64 | Stopping at the first order past the end bound omits nothing |
| OrderPaging.PagesAreOrderedAndGenuine | packages/deepbook/sources/order_query.move:28-65 | Ids over all pages are strictly monotone, and every order returned was in a book it was read from |
| OrderPaging.NothingIsSkipped | packages/deepbook/sources/order_query.move:28-65 | An order that matches in every book read along the way is returned |
| OrderPaging.PagingIsExact | packages/deepbook/sources/order_query.move:28-65 | Paging a changing book returns no id twice and every order that stays put exactly once |
| OrderPaging.PagesConcatenate | packages/deepbook/sources/order_query.move:28-65 | On a fixed book the pages put together are the unpaged scan, and enough pages always finish it |
| OrderPaging.DefaultsCoverTheSide | packages/deepbook/sources/order_query.move:37-49 | The default bounds cover each whole side |
| OrderPaging.NoNextPageMeansComplete | packages/deepbook/sources/order_query.move:61-64 | No next page means that nothing matching was omitted |
| OrderPaging.NextPageMayBeEmpty | packages/deepbook/sources/order_query.move:61-64 | Exactly when a next page is reported, including the cases in which it is empty |
| OrderPaging.EmptyNextPage | packages/deepbook/sources/order_query.move:54-64 | A query whose reported next page is empty |
| BalanceManager.BalanceManager.BalanceOf | packages/deepbook/sources/balance_manager.move:218-226 | Zero for an absent key |
| BalanceManager.BalanceManager.WithdrawWithProof | packages/deepbook/sources/balance_manager.move:522-547 | Takes the amount or everything, removes the key exactly when nothing is left, aborts without a trace when too little is there |
| BalanceManager.BalanceManager.Deposit | packages/deepbook/sources/balance_manager.move:292-301 | A deposit by anyone but the owner aborts |
| BalanceManager.BalanceManager.WithdrawAll | packages/deepbook/sources/balance_manager.move:360-370 | The owner gets the whole balance, and the key is gone |
| BalanceManager.BalanceManager.WithdrawWithCap | packages/deepbook/sources/balance_manager.move:321-339 | Fails for an unlisted capability before the balance is looked at |
| BalanceManager.BalanceManager.Delete | packages/deepbook/sources/balance_manager.move:551-561 | Succeeds exactly on a bag without any key |
| BalanceManager.BalanceManager.Mint | packages/deepbook/sources/balance_manager.move:228-248 | The owner alone mints, below the bound, and is handed the capability that is listed |
| BalanceManager.BalanceManager.RevokeTradeCap | packages/deepbook/sources/balance_manager.move:251-260 | The owner alone revokes, and only what is listed |
| BalanceManager.BalanceManager.DepositWithProof | packages/deepbook/sources/balance_manager.move:460-475 | A deposit needs a proof of this manager and room in the balance |
| BalanceManager.BalanceManager.SetBalanceManagerReferral | packages/deepbook/sources/balance_manager.move:182-195 | Only a listed capability to trade sets the referral of a pool, and of that pool only |
| BalanceManager.BagIsOneNumberPerAsset | packages/deepbook/sources/balance_manager.move:218-226 | Over every sequence of calls each balance is a plain number moved only by that asset's calls: what went in less what came out |
| BalanceManager.KeyPresence | packages/deepbook/sources/balance_manager.move:460-547 | Whether a key is there after any call, of amount zero and aborted too |
| Capabilities.CapabilityOwnership | packages/deepbook/sources/balance_manager.move:228-260 | Over all runs with many managers: allow-lists are disjoint and bounded, and a capability is honoured exactly by the manager that minted it and has not revoked it |
| Capabilities.CreatedWithOneOfEachKind | packages/deepbook/sources/balance_manager.move:159-171 | A manager created with capabilities honours exactly the three handed out, one of each kind |
| Capabilities.ProofNamesTheCapsManager | packages/deepbook/sources/balance_manager.move:278-289 | A proof from a capability names the capability's own manager |
| Capabilities.RevokedForEver | packages/deepbook/sources/balance_manager.move:251-260 | A revoked capability is never honoured again, anywhere |
| Capabilities.EveryEntryIsTheOwners | packages/deepbook/sources/balance_manager.move:228-260 | In every run every capability was minted at its manager's creation or by the manager's owner, and revoked by the owner |
| Capabilities.OwnersStay | packages/deepbook/sources/balance_manager.move:138-151 | In every run a manager keeps its owner |
| Capabilities.MintTakesEffectExactlyWhen | packages/deepbook/sources/balance_manager.move:228-248 | The owner below the bound adds one capability of the kind asked for; any other call changes nothing |
| Capabilities.RevokeTakesEffectExactlyWhen | packages/deepbook/sources/balance_manager.move:251-260 | The owner ends one honoured capability; any other call changes nothing |
| Capabilities.SetReferralTakesEffectExactlyWhen | packages/deepbook/sources/balance_manager.move:182-195 | In every run a referral is set exactly with a trading capability that the manager minted and has not revoked |
| Vault.Vault.Pay | packages/deepbook/sources/vault/vault.move:66-77 | One leg paid from a pot to the manager |
| Vault.Vault.Collect | packages/deepbook/sources/vault/vault.move:78-101 | One leg collected from the manager into a pot |
| Vault.Vault.PayLegs | packages/deepbook/sources/vault/vault.move:66-77 | The three payments together, when DEEP is also the base or the quote too |
| Vault.Vault.CollectLegs | packages/deepbook/sources/vault/vault.move:78-101 | The three collections together, when DEEP is also the base or the quote too |
| Vault.Vault.SettleBalanceManager | packages/deepbook/sources/vault/vault.move:58-102 | Settlement goes through exactly when every pot covers its leg and the manager every asset in total; then each asset moves by the net amount |
| Vault.SettlesExactlyWhen | packages/deepbook/sources/vault/vault.move:58-102 | When a settlement is possible, in terms of the three net amounts |
| Vault.OnlyNetsDecide | packages/deepbook/sources/vault/vault.move:66-101 | Amounts that go both ways in one leg cancel |
| OrderFees.UnpricedExactlyWhen | packages/deepbook/sources/vault/deep_price.move:198-223 | When an order that pays with DEEP has no price for it |
| OrderFees.UnpricedFees | packages/deepbook/sources/vault/deep_price.move:90-120 | Without a price the fee is taken in the asset paid with, whatever the caller chose |
| OrderFees.PricedFees | packages/deepbook/sources/vault/deep_price.move:90-104 | With a price the fee is in DEEP alone, on the side the price is quoted for |
| OrderFees.PriceIsTheAverage | packages/deepbook/sources/vault/deep_price.move:198-239 | The price is the rounded average of the quote points, or of the base points when there are no others |
| OrderFees.MarketOrdersTradeAtCost | packages/deepbook/sources/book/order_info.move:350-360 | Either side gets what was traded and owes what was given for it plus the fees |
| OrderFees.FeesAreBookedAsTakenExactlyWhen | packages/deepbook/sources/book/order_info.move:299-324 | All that was taken is booked; when it is booked in the asset it was taken in |
| OrderFees.BaseFeeBookedAsDeep | packages/deepbook/sources/book/order_info.move:299-324 | A sale whose fee is taken in base and booked as DEEP |
| OrderFees.UnpricedSale | packages/deepbook/sources/book/order_info.move:313-382 | What a sale without a price settles and owes, and when the amounts leave a u64 |
| Referrals.ChargeConserves | packages/deepbook/sources/pool.move:1933-1968 | A referral charge moves each asset from the manager to the record and touches no other record |
| Referrals.ChargeFollowsPaidFees | packages/deepbook/sources/book/order_info.move:299-307 | Each pot grows by the multiplier's share of the fees the pool booked in that asset |
| Referrals.ChargesExactlyWhen | packages/deepbook/sources/pool.move:1939-1968 | When a charge goes through |
| Referrals.ChargesAbortBecause | packages/deepbook/sources/pool.move:1939-1968 | The reason why a charge does not go through |
| Referrals.MisbookedShareIsTakenInDeep | packages/deepbook/sources/pool.move:1948-1957 | Where fees were taken in base or quote but booked as DEEP, the share comes out of the manager's DEEP alone, and the call aborts without enough of it |
| Referrals.RewardsAreChargesLessClaims | packages/deepbook/sources/pool.move:939-964 | In every run each pot holds what managers were charged for it less what was claimed |
| Referrals.CallsSucceedExactlyWhen | packages/deepbook/sources/pool.move:864-964 | In every run exactly who may open, update and claim a record, set a referral and be charged |
| Referrals.CallsTakeEffect | packages/deepbook/sources/pool.move:864-964 | What each successful call leaves |
| Referrals.ChargesTakeEffect | packages/deepbook/sources/pool.move:1945-1968 | A charge is recorded with the referral's share of the fees, in the leg the flags name |
| Referrals.ReferralLookupNeverAborts | packages/deepbook/sources/pool.move:1933-1945 | In every run a referral set for a pool has its record in that pool |
| Referrals.MultipliersStayGood | packages/deepbook/sources/pool.move:912-928 | In every run multipliers are bounded multiples of the unit |
| Pool.Pool.CreatePool | packages/deepbook/sources/pool.move:1763-1821 | Exactly when a pool is created, the reason otherwise, and the one entry added; the new pool is flagged, sound and of two different assets |
| Pool.Pool.UnregisterPoolAdmin | packages/deepbook/sources/pool.move:995-1004 | Clears the flag and removes the pair's entry together or not at all |
| Pool.Pool.AdjustMinLotSizeAdmin | packages/deepbook/sources/pool.move:1054-1070 | Exactly which sizes are accepted; the tick stays and soundness is kept |
| Pool.Pool.MintReferral | packages/deepbook/sources/pool.move:864-886 | Opens an empty record in this pool exactly for a good multiplier |
| Pool.Pool.UpdatePoolReferralMultiplier | packages/deepbook/sources/pool.move:912-928 | Exactly the owner with a good multiplier and a record of this pool; pots stay |
| Pool.Pool.ClaimPoolReferralRewards | packages/deepbook/sources/pool.move:939-964 | Pays out all three pots exactly to the owner and leaves them empty |
| Pool.Pool.ProcessReferralFees | packages/deepbook/sources/pool.move:1933-1978 | The referral's share of the booked fees, charged in the asset that the order's flags name, or no change at all; exactly when the charge goes through |
| Pool.Pool.PlaceOrder | packages/deepbook/sources/pool.move:1862-1930 | Succeeds exactly when the settlement is possible and the referral charge then goes through, and ends in that state; manager, vault and referral record together keep every asset; an abort rolls all three back |
| Pool.Pool.SwapExactQuantity | packages/deepbook/sources/pool.move:349-419 | For every aliasing of DEEP each asset comes back as deposited plus the pool's net payment; the quantity traded is the whole number of lots next below the dry run's answer, or below what the base coin affords; exactly when the call succeeds, an abort of the dry run included; the temporary manager is always empty at the end; inputs below the minimum come back unchanged, and only then is less bought than asked for |
| Pool.Pool.Trade | packages/deepbook/sources/pool.move:389-418 | The part of a swap that goes through the temporary manager |
| Pool.Pool.WithdrawCoins | packages/deepbook/sources/pool.move:406-408 | Three full withdrawals return everything once and leave no key |
| Pool.SaleLeavesALotExactlyWhen | packages/deepbook/sources/pool.move:375-384 | The quantity of a sale is an affordable number of lots; when one lot more would be affordable |
| Pool.FeeInBaseAskSettlesExactlyWhen | packages/deepbook/sources/pool.move:361-387 | A sale with the fee in base, whether DEEP is attached or not, settles exactly when the input coins cover base and fee and there is room |
| Pool.CoveredSaleSettles | packages/deepbook/sources/pool.move:361-387 | With a charge within the quoted rate a sale settles exactly when there is room, however much of it executes |
| Pool.SurchargedSaleAborts | packages/deepbook/sources/pool.move:361-404 | With a charge above it, every pool has an input whose sale, executed in full, no vault can settle |
| Pool.UnpricedDeepSaleSettlesExactlyWhen | packages/deepbook/sources/pool.move:365-404 | With DEEP attached but no price, a sale executed in full settles exactly when the fee fits into the rounded-off rest |
| Pool.WhitelistedSaleSettlesExactlyWhen | packages/deepbook/sources/state/state.move:138-146 | A whole number of lots sold in full in a whitelisted pool settles exactly when no fee is charged; the default surcharge is one |
| FixedPoint.MulSuperadditive | packages/deepbook/sources/helper/math.move:16-20 | Splitting a quantity never raises the sum of the rounded products |
| AskFees.AskQuantityFits | packages/deepbook/sources/pool.move:375-384 | The quantity offered needs at most the input, and one unit more at least all of it |
| AskFees.OneMoreUnitFitsExactlyWhen | packages/deepbook/sources/pool.move:375-384 | When one unit more would still be affordable |
| AskFees.LotIsLeftExactlyWhen | packages/deepbook/sources/pool.move:375-387 | When a sale leaves a lot unsold that its input affords |
| AskFees.AffordableLotIsLeft | packages/deepbook/sources/pool.move:375-387 | An input that affords a lot and sells nothing |
| AskFees.AskFitsInput | packages/deepbook/sources/pool.move:1616-1632 | Rounded to any lot and split into any fills, quantity and fees fit in the input |
| AskSettlement.SettlementFitsExactlyWhen | packages/deepbook/sources/book/order_info.move:313-326 | When the fee charged at settlement fits for every input and every number of lots executed: the exact condition on quoted and charged fee |
| AskSettlement.LargerChargeFallsShort | packages/deepbook/sources/book/order_info.move:313-326 | Otherwise, for any size, a multiple of it whose sale falls short |
| AskSettlement.GovernedFeesFit | packages/deepbook/sources/state/governance.move:151-161 | For fees that governance admits, exactly the charges up to the quoted fee always fit |
| Lots.IsPowerOfTen | packages/deepbook/sources/helper/math.move:89-101 | True exactly for powers of ten |
| Lots.CreatedPoolsStaySound | packages/deepbook/sources/pool.move:1773-1779 | After creation and any run of adjustments both sizes are powers of ten and the minimum is a multiple of the lot |
| Lots.LotsOnlyGetFiner | packages/deepbook/sources/pool.move:1054-1070 | A quantity aligned to an earlier lot stays aligned to all later ones |
| Lots.AdjustmentTakesEffectExactlyWhen | packages/deepbook/sources/pool.move:1054-1070 | A good request sets both sizes; any other changes nothing |
| Lots.PlacementNeedsQuantityAndFee | packages/deepbook/sources/pool.move:1563-1638 | An ask can be placed exactly when what is there covers the quantity and the fee on it |
| Lots.RoundingKeepsTheMinimum | packages/deepbook/sources/pool.move:384-387 | Rounding to the lot never crosses the minimum, so the swap turns back exactly the inputs below it |
| Lots.SwapQuantityCanBePlaced | packages/deepbook/sources/pool.move:1563-1638 | A swap's quantity passes the placement check with its own input exactly when it is not turned back |
| Registry.Registry.RegisterPool | packages/deepbook/sources/registry.move:243-258 | Succeeds exactly when neither the pair nor its mirror image is taken, and adds one entry |
| Registry.Registry.UnregisterPool | packages/deepbook/sources/registry.move:261-269 | Removes the pair's entry, or aborts |
| Registry.Registry.GetPoolId | packages/deepbook/sources/registry.move:300-309 | Finds the pair's entry as written, not its mirror image |
| Registry.RegistryMatchesPools | packages/deepbook/sources/pool.move:1763-1821 | After any run, entries and flagged pools are in bijection, and a lookup finds exactly the flagged pool of its pair |
| Registry.CreationSucceedsExactlyWhen | packages/deepbook/sources/pool.move:1773-1805 | In every run a creation succeeds exactly with good sizes, two different assets, and no flagged pool of the pair either way round |
| Registry.UnregistrationSucceedsExactlyWhen | packages/deepbook/sources/pool.move:995-1004 | In every run an unregistration succeeds exactly for a flagged pool, which alone loses its flag |
| Registry.UnregisterThenRedeploy | packages/deepbook/sources/pool.move:995-1004 | A flagged pool always finds its own entry; its pair is then free again, either way round |
| Indexer.Process | crates/indexer/src/handlers/mod.rs:113-141 | The nested loops yield the rows of the checkpoint, or fail as a whole |
| Indexer.Table.Commit | crates/indexer/src/handlers/mod.rs:144-157 | Inserts the rows whose keys are free, and counts them |
| Indexer.KeyInjective | crates/indexer/src/handlers/mod.rs:43-45 | Among digests of one length the key determines digest and index |
| Indexer.DecimalRoundTrip | crates/indexer/src/handlers/mod.rs:43-45 | An index is written in digits that stand for it, without leading zeros |
| Indexer.FilterPassesExactlyWhen | crates/indexer/src/handlers/mod.rs:206-251 | The transaction filter passes exactly the transactions that touch a known package |
| Indexer.KeysClashExactlyWhen | crates/indexer/src/handlers/mod.rs:43-45 | When two keys clash in general |
| Indexer.KeysOfUnequalDigestsCanClash | crates/indexer/src/handlers/mod.rs:43-45 | Two events with the same key, with digests that each encode 32 bytes |
| IndexerRuns.FilterHidesNothing | crates/indexer/src/handlers/mod.rs:206-251 | The transaction filter hides no event of a type that a known package defines |
| IndexerRuns.RowsAreExact | crates/indexer/src/handlers/mod.rs:117-141 | A processed checkpoint has a row for exactly its relevant events |
| IndexerRuns.ProcessFailsExactlyWhen | crates/indexer/src/handlers/mod.rs:132-132 | Processing fails exactly when a relevant event does not decode |
| IndexerRuns.ProcessingCarriesTheEvents | crates/indexer/src/handlers/mod.rs:22-45 | For types of known packages: a row, field by field, for exactly the events of the handler's type, and failure exactly when one does not decode |
| IndexerRuns.FirstCommitWins | crates/indexer/src/handlers/mod.rs:144-157 | After any schedule the table holds for each key what was committed first, and nothing of lost work |
| IndexerRuns.KeysIdentifyRows | crates/indexer/src/handlers/mod.rs:113-154 | With separate keys, a key determines the row among all handlers that share a table |
| IndexerRuns.ConvergesExactlyWhen | crates/indexer/src/handlers/mod.rs:113-154 | All covering schedules leave the same table exactly when batches that compete for a key bring the same row |
| IndexerRuns.CommitsConverge | crates/indexer/src/handlers/mod.rs:113-154 | With separate keys any covering schedule, reordered, repeated and with lost work, leaves the table of one pass in order |
| IndexerRuns.EqualLengthDigestsConverge | crates/indexer/src/handlers/mod.rs:113-154 | With digests of one length every covering schedule leaves that table, without any assumption on keys |
| IndexerRuns.ClashingKeysDiverge | crates/indexer/src/handlers/mod.rs:144-157 | For any two digests with clashing keys there is a log whose table depends on the order of commits |
| IndexerRuns.ClashingDigestsDiverge | crates/indexer/src/handlers/mod.rs:43-45 | Two transactions for which it does |
| IndexerRuns.BatchesSplit | crates/indexer/src/handlers/mod.rs:144-157 | Committing results as one batch or one after the other is the same |
| IndexerRuns.CommitsCommuteExactlyWhen | crates/indexer/src/handlers/mod.rs:144-157 | Two rows commute exactly when they do not compete for one free key |
| NetDeposits.EventsAreCountedExactlyWhen | crates/server/src/reader.rs:1287-1320 | No event is counted twice, and exactly which events are missed, at any instant |
| NetDeposits.ViewSums | crates/server/src/reader.rs:1308-1314 | Adding up hourly rows is adding up the log over those hours |
| NetDeposits.DirectSumIsDepositsLessWithdrawals | crates/server/src/reader.rs:1316-1322 | The direct sum is all that came in less all that went out |
| NetDeposits.ViewQueryIsDirectSum | crates/server/src/reader.rs:1281-1328 | For every log, view snapshot and instant, hourly rows, partial hour, missed events and late events add up to the direct signed sum of everything before the instant |
| NetDeposits.UpToDateQueryIsDirectSum | crates/server/src/reader.rs:1306-1328 | With timestamps since the epoch and nothing late, the query is the direct sum at every instant |
| NetDeposits.MissedDeposit | crates/server/src/reader.rs:1287-1320 | A deposit before the epoch that the query misses |
| NetDeposits.LateDeposit | crates/server/src/reader.rs:1281-1320 | A deposit committed after the refresh that the query misses |
| NetDeposits.NetDepositsAreExact | crates/server/src/reader.rs:1287-1352 | The keys of the answer are exactly the prefixed names of the assets asked for, with or without prefix, that have counted events; each value the direct sum but for missed and late events |
| NetDeposits.UpToDateAnswerIsDirect | crates/server/src/reader.rs:1287-1352 | With timestamps since the epoch and nothing late, the answer has exactly the requested assets with events before the instant, each with its direct sum |

## Left out

- OrderFees.MarketOrdersTradeAtCost: fills, and what a limit order leaves in the book, are not part of an order's settlement here.
- Matching, staking, governance, flash loans and level-2 quotes: the pool forwards to them; an execution is a parameter.
- Vault.Vault.SettleBalanceManager: the permissionless variant, which only pays, is not modelled.
- Pool.Pool.SwapExactQuantity: the dry run that sizes a bid and the matching engine are arbitrary functions, and the
  u64 range of the fee rate itself is not checked, since governance keeps fees far below it.
- BigVector.Side.Descend: insertion and removal, which keep the tree in the shape the descent needs, are not modelled.
- BalanceManager.BalanceManager.Mint: the id of the new object is a parameter; that ids are fresh is part of `Capabilities`.
- Indexer.Process: packages and event types are names, and decoding is part of the event.
- NetDeposits.NetDepositsAreExact: the sums are unbounded, so the cast of a sum to a 64-bit column is not modelled; rows
  are only ever added to the log, and stored assets carry no `0x`.
- Versions, events other than those that record charges and claims, deprecated functions and plain getters.
- The swap through an existing manager, limit orders, order changes and withdrawals of settled amounts.
- HTTP routes, SQL plumbing, metrics, field-copying handlers, TypeScript scripts and charts.
