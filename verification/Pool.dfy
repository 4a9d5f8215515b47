/** The pool object: creation and registration, book parameters, referral rewards, and swaps. */
module Pool {
  import opened MoveTypes
  import opened FixedPoint
  import opened AskFees
  import opened AskSettlement
  import opened Balances
  import opened BalanceManager
  import opened OrderFees
  import opened Referrals
  import opened Vault
  import Lots
  import Registry

  /** The matching engine, for a quantity, a side and a way to pay. */
  type Market = (u64, bool, bool) -> Result<Execution>

  datatype Coins = Coins(base: u64, quote: u64, deep: u64) {
    function In(): Balances { Balances(base, quote, deep) }
  }

  /** Which of the coins that come out was bought with those that went in. */
  function Bought(coins: Coins, out: Coins): u64 { if coins.quote > 0 then out.base else out.quote }

  /** From here on a sale pays at least one unit of the default surcharge. */
  const SMALLEST_SURCHARGED_SALE: u64 := 800

  /**
   * The base quantity a swap trades, rounded to the lot; `dryRun` answers how much base the quote coins buy, and
   * may abort.
   */
  function SwapQuantity(coins: Coins, rate: nat, lot: nat, dryRun: bool -> Result<u64>): Result<nat>
    requires lot > 0
  {
    var payWithDeep := coins.deep > 0;
    if coins.quote > 0 then
      match dryRun(payWithDeep)
      case Abort(code) => Abort(code)
      case Ok(quantity) => Ok(RoundToLot(quantity, lot))
    else Ok(SaleQuantity(coins, rate, lot))
  }

  function SaleQuantity(coins: Coins, rate: nat, lot: nat): nat
    requires lot > 0
  {
    RoundToLot(if coins.deep > 0 then coins.base else AskQuantity(coins.base, rate), lot)
  }

  /**
   * The quantity of a sale is a number of lots that the input affords, the fee included when it is not paid in
   * DEEP. One lot more is out of reach, but for the one case in which the rounded division stops just short.
   */
  lemma SaleLeavesALotExactlyWhen(coins: Coins, rate: nat, lot: nat)
    requires lot > 0
    ensures var q := SaleQuantity(coins, rate, lot);
            && Divides(lot, q)
            && if coins.deep > 0 then q <= coins.base < q + lot
               else
                 && RequiredBase(q, rate) <= coins.base
                 && (RequiredBase(q + lot, rate) <= coins.base <==>
                       q + lot == AskQuantity(coins.base, rate) + 1 &&
                       coins.base * FLOAT_SCALING % (FLOAT_SCALING + rate) > rate)
  {
    var q := SaleQuantity(coins, rate, lot);
    Lots.RoundedIsMultiple(if coins.deep > 0 then coins.base else AskQuantity(coins.base, rate), lot);
    if coins.deep == 0 {
      AskQuantityFits(coins.base, rate);
      MulMonotone(q, AskQuantity(coins.base, rate), FLOAT_SCALING + rate);
      LotIsLeftExactlyWhen(coins.base, rate, lot);
    }
  }

  /** What a manager holds once the three coins are in it. */
  ghost predicate HoldsDeposits(bag: Bag, pair: Pair, coins: Coins) {
    forall t :: Balance(bag, t) == coins.In().Total(pair, t)
  }

  ghost predicate FitsOneManager(pair: Pair, coins: Coins) { forall t :: coins.In().Total(pair, t) <= MAX_U64 }

  /** The coins fit into one manager, and the trade they pay for settles. */
  ghost predicate Trades(pots: Balances, pair: Pair, coins: Coins, e: Execution) {
    && FitsOneManager(pair, coins)
    && forall bag: Bag :: HoldsDeposits(bag, pair, coins) ==> CanSettle(pots, bag, pair, e.settled, e.owed)
  }

  /** What is left of an asset after the trade. */
  function Left(pair: Pair, coins: Coins, e: Execution, t: TypeName): int {
    coins.In().Total(pair, t) + e.settled.Total(pair, t) - e.owed.Total(pair, t)
  }

  predicate PotsMoved(before: Balances, after: Balances, e: Execution) {
    && after.base == before.base - e.settled.base + e.owed.base
    && after.quote == before.quote - e.settled.quote + e.owed.quote
    && after.deep == before.deep - e.settled.deep + e.owed.deep
  }

  /** The manager `m` after settling `e`: each asset has moved by the net amount, and only balances have changed. */
  ghost predicate SettledTo(m: Manager, m': Manager, pair: Pair, e: Execution) {
    && m' == m.(balances := m'.balances)
    && m'.balances.Keys <= m.balances.Keys + {pair.base, pair.quote, DEEP}
    && forall t :: Balance(m'.balances, t) == Balance(m.balances, t) + e.settled.Total(pair, t) - e.owed.Total(pair, t)
  }

  /** Settling moves between manager and vault exactly what it does not keep. */
  lemma TotalMoves(pair: Pair, before: Balances, after: Balances, e: Execution, t: TypeName)
    requires PotsMoved(before, after, e)
    ensures after.Total(pair, t) + e.settled.Total(pair, t) == before.Total(pair, t) + e.owed.Total(pair, t)
  {
  }

  /** What the record of the manager's referral for a pool holds in one asset type. */
  function ReferralTotal(ledger: Ledger, referrals: map<ID, ID>, poolId: ID, pair: Pair, t: TypeName): nat {
    if poolId in referrals && referrals[poolId] in ledger then ledger[referrals[poolId]].pots.Total(pair, t) else 0
  }

  /** A settlement followed by a referral charge, in one asset. */
  lemma OrderConserves(
    pair: Pair, before: Balances, after: Balances, e: Execution, bag: Bag, m: Manager, ledger: Ledger, poolId: ID,
    proof: TradeProof, t: TypeName)
    requires pair.base != pair.quote && PotsMoved(before, after, e)
    requires Balance(m.balances, t) == Balance(bag, t) + e.settled.Total(pair, t) - e.owed.Total(pair, t)
    requires Processed(ledger, pair, poolId, e.paid, m, proof).Ok?
    ensures var c := Processed(ledger, pair, poolId, e.paid, m, proof).value;
            Balance(c.manager.balances, t) + after.Total(pair, t) + ReferralTotal(c.ledger, m.referrals, poolId, pair, t)
            == Balance(bag, t) + before.Total(pair, t) + ReferralTotal(ledger, m.referrals, poolId, pair, t)
  {
    TotalMoves(pair, before, after, e, t);
    ChargeConserves(ledger, pair, poolId, e.paid, m, proof, t);
  }

  /** Whether a trade settles depends only on what the coins amount to. */
  lemma TradesIffSettles(bag: Bag, pots: Balances, pair: Pair, coins: Coins, e: Execution)
    requires HoldsDeposits(bag, pair, coins)
    ensures Trades(pots, pair, coins, e) <==> CanSettle(pots, bag, pair, e.settled, e.owed)
  {
    forall t ensures coins.In().Total(pair, t) <= MAX_U64 { assert Balance(bag, t) <= MAX_U64; }
    if CanSettle(pots, bag, pair, e.settled, e.owed) {
      forall other: Bag | HoldsDeposits(other, pair, coins) ensures CanSettle(pots, other, pair, e.settled, e.owed) {
        assert forall t :: Balance(other, t) == Balance(bag, t);
      }
    }
  }

  /** The three coins withdrawn are, type by type, all that was left, and the pots hold the rest. */
  lemma SwapConserves(pair: Pair, before: Balances, after: Balances, coins: Coins, out: Coins, e: Execution, t: TypeName)
    requires pair.base != pair.quote && PotsMoved(before, after, e)
    requires out.base == Left(pair, coins, e, pair.base) && out.quote == Left(pair, coins, e, pair.quote)
    requires out.deep == if DEEP == pair.base || DEEP == pair.quote then 0 else Left(pair, coins, e, DEEP)
    ensures out.In().Total(pair, t) == Left(pair, coins, e, t)
    ensures out.In().Total(pair, t) + after.Total(pair, t) == coins.In().Total(pair, t) + before.Total(pair, t)
  {
    TotalMoves(pair, before, after, e, t);
  }

  /** After the settlement the manager holds what is left of the deposits. */
  lemma SettledHoldsWhatIsLeft(m: Manager, m': Manager, pair: Pair, coins: Coins, e: Execution)
    requires HoldsDeposits(m.balances, pair, coins) && SettledTo(m, m', pair, e)
    ensures forall t :: Balance(m'.balances, t) == Left(pair, coins, e, t)
  {
  }

  // ---- sales with the fee taken in base

  /** The order settles against the coins in a manager of their own. */
  ghost predicate SaleSettles(pots: Balances, pair: Pair, coins: Coins, o: TakerOrder, takerFee: u64) {
    MarketExecution(o, takerFee).Ok? && Trades(pots, pair, coins, MarketExecution(o, takerFee).value)
  }

  /** What a sale needs besides coins enough: the pot of the proceeds, and no number that leaves a u64. */
  predicate HasRoom(pots: Balances, pair: Pair, coins: Coins, o: TakerOrder, takerFee: u64) {
    && Mul(o.executed, FEE_PENALTY_MULTIPLIER) <= MAX_U64
    && coins.In().Total(pair, pair.base) <= MAX_U64
    && o.quote <= pots.quote
    && pots.base + o.executed + FeeCharged(o.executed, takerFee) <= MAX_U64
    && coins.In().Total(pair, pair.quote) + o.quote <= MAX_U64
  }

  /** A sale of the coins' base whose fee is taken in base: nothing else is sold, and DEEP has no price. */
  predicate UnpricedSaleOf(coins: Coins, o: TakerOrder) {
    coins.quote == 0 && !o.isBid && o.price.deepPerAsset == 0 && o.payWithDeep == (coins.deep > 0)
  }

  /** It settles exactly when the coins cover base and fee, DEEP included where that is the base. */
  lemma FeeInBaseAskSettlesExactlyWhen(pots: Balances, pair: Pair, coins: Coins, o: TakerOrder, takerFee: u64)
    requires pair.base != pair.quote && UnpricedSaleOf(coins, o)
    ensures SaleSettles(pots, pair, coins, o, takerFee) <==>
            && HasRoom(pots, pair, coins, o, takerFee)
            && o.executed + FeeCharged(o.executed, takerFee) <= coins.In().Total(pair, pair.base)
  {
    RoomIsComputed(pots, pair, coins, o, takerFee);
    if MarketExecution(o, takerFee).Ok? && FitsOneManager(pair, coins) {
      var bag := DepositedBag(pair, coins);
      TradesIffSettles(bag, pots, pair, coins, MarketExecution(o, takerFee).value);
      SaleCanSettle(pots, bag, pair, coins, o, takerFee);
    }
  }

  lemma RoomIsComputed(pots: Balances, pair: Pair, coins: Coins, o: TakerOrder, takerFee: u64)
    requires UnpricedSaleOf(coins, o)
    ensures HasRoom(pots, pair, coins, o, takerFee) ==>
      MarketExecution(o, takerFee).Ok? && FitsOneManager(pair, coins)
  {
    UnpricedSale(o, takerFee);
  }

  ghost function DepositedBag(pair: Pair, coins: Coins): (bag: Bag)
    requires FitsOneManager(pair, coins)
    ensures HoldsDeposits(bag, pair, coins)
  {
    map t | t in {pair.base, pair.quote, DEEP} :: coins.In().Total(pair, t)
  }

  lemma SaleCanSettle(pots: Balances, bag: Bag, pair: Pair, coins: Coins, o: TakerOrder, takerFee: u64)
    requires pair.base != pair.quote && UnpricedSaleOf(coins, o) && HoldsDeposits(bag, pair, coins)
    requires MarketExecution(o, takerFee).Ok?
    ensures var e := MarketExecution(o, takerFee).value;
            CanSettle(pots, bag, pair, e.settled, e.owed) <==>
            && HasRoom(pots, pair, coins, o, takerFee)
            && o.executed + FeeCharged(o.executed, takerFee) <= coins.In().Total(pair, pair.base)
  {
    UnpricedSale(o, takerFee);
    var e := MarketExecution(o, takerFee).value;
    if CanSettle(pots, bag, pair, e.settled, e.owed) {
      assert e.owed.Over(e.settled).Total(pair, pair.base)
          <= Balance(bag, pair.base) + e.settled.Over(e.owed).Total(pair, pair.base);
      assert Balance(bag, pair.quote) + e.settled.Over(e.owed).Total(pair, pair.quote) <= MAX_U64;
    }
  }

  /** Without DEEP, a charge within the quoted rate: given room, a sale settles however many of its lots execute. */
  lemma CoveredSaleSettles(
    pots: Balances, pair: Pair, coins: Coins, o: TakerOrder, quotedFee: nat, chargedFee: u64, lot: nat)
    requires pair.base != pair.quote && UnpricedSaleOf(coins, o) && coins.deep == 0 && lot > 0
    requires 5 * chargedFee <= 4 * InputFeeRate(quotedFee)
    requires o.executed <= SaleQuantity(coins, InputFeeRate(quotedFee), lot)
    ensures SaleSettles(pots, pair, coins, o, chargedFee) <==> HasRoom(pots, pair, coins, o, chargedFee)
  {
    ChargeFits(coins.base, o.executed, chargedFee, InputFeeRate(quotedFee));
    FeeInBaseAskSettlesExactlyWhen(pots, pair, coins, o, chargedFee);
  }

  /**
   * Without DEEP, a charge above it: in any pool there is an input that the swap takes to the book and whose sale,
   * executed in full, no vault can settle. By `SwapOutcome` that swap aborts.
   */
  lemma SurchargedSaleAborts(p: Lots.BookParams, pair: Pair, quotedFee: nat, chargedFee: u64) returns (base: u64)
    requires Lots.Sound(p) && pair.base != pair.quote
    requires quotedFee <= MAX_TAKER_FEE && chargedFee <= MAX_TAKER_FEE + MAX_ADDITIONAL_TAKER_FEE
    requires 5 * chargedFee > 4 * InputFeeRate(quotedFee)
    ensures var coins := Coins(base, 0, 0);
            var q := SaleQuantity(coins, InputFeeRate(quotedFee), p.lot);
            && p.min <= q
            && forall o :: UnpricedSaleOf(coins, o) && o.executed == q ==> NoVaultSettles(pair, coins, o, chargedFee)
  {
    var executed;
    base, executed := LargerChargeFallsShort(quotedFee, chargedFee, p.min);
    DivisibilityChains(executed, p.min, p.lot);
    var coins := Coins(base, 0, 0);
    forall o | UnpricedSaleOf(coins, o) && o.executed == executed ensures NoVaultSettles(pair, coins, o, chargedFee) {
      ShortSaleNeverSettles(pair, coins, o, chargedFee);
    }
  }

  /** The engine answers, and then the settlement aborts, whatever the vault holds. */
  ghost predicate NoVaultSettles(pair: Pair, coins: Coins, o: TakerOrder, takerFee: u64) {
    MarketExecution(o, takerFee).Ok? && forall pots :: !SaleSettles(pots, pair, coins, o, takerFee)
  }

  lemma ShortSaleNeverSettles(pair: Pair, coins: Coins, o: TakerOrder, takerFee: u64)
    requires pair.base != pair.quote && UnpricedSaleOf(coins, o)
    requires Mul(o.executed, FEE_PENALTY_MULTIPLIER) <= MAX_U64
    requires coins.In().Total(pair, pair.base) < o.executed + FeeCharged(o.executed, takerFee) <= MAX_U64
    ensures NoVaultSettles(pair, coins, o, takerFee)
  {
    UnpricedSale(o, takerFee);
    forall pots ensures !SaleSettles(pots, pair, coins, o, takerFee) {
      FeeInBaseAskSettlesExactlyWhen(pots, pair, coins, o, takerFee);
    }
  }

  /**
   * With DEEP attached but no price for it, as in a whitelisted pool, the quantity leaves no room for a fee and the
   * fee is still taken in base: executed in full, the sale settles exactly when the fee fits into what rounding
   * to the lot left over (or into the attached coin, where DEEP is the base).
   */
  lemma UnpricedDeepSaleSettlesExactlyWhen(
    pots: Balances, pair: Pair, coins: Coins, o: TakerOrder, rate: nat, takerFee: u64, lot: nat)
    requires pair.base != pair.quote && UnpricedSaleOf(coins, o) && coins.deep > 0 && lot > 0
    requires o.executed == SaleQuantity(coins, rate, lot)
    ensures SaleSettles(pots, pair, coins, o, takerFee) <==>
            && HasRoom(pots, pair, coins, o, takerFee)
            && FeeCharged(o.executed, takerFee) <= coins.base % lot + if DEEP == pair.base then coins.deep else 0
  {
    FeeInBaseAskSettlesExactlyWhen(pots, pair, coins, o, takerFee);
    assert o.executed == coins.base - coins.base % lot;
  }

  /**
   * So in a whitelisted pool a whole number of lots, sold in full, settles exactly when no fee is charged; the
   * default surcharge alone makes it fall short.
   */
  lemma WhitelistedSaleSettlesExactlyWhen(
    pots: Balances, pair: Pair, coins: Coins, o: TakerOrder, takerFee: u64, lot: nat, prices: DeepPrice)
    requires pair.base != pair.quote && DEEP != pair.base && UnpricedSaleOf(coins, o) && coins.deep > 0
    requires Priced(o, prices, true) && Divides(lot, coins.base) && o.executed == coins.base
    ensures SaleSettles(pots, pair, coins, o, takerFee) <==>
            HasRoom(pots, pair, coins, o, takerFee) && FeeCharged(coins.base, takerFee) == 0
    ensures takerFee >= DEFAULT_ADDITIONAL_TAKER_FEE && coins.base >= SMALLEST_SURCHARGED_SALE ==>
            FeeCharged(coins.base, takerFee) > 0
  {
    UnpricedDeepSaleSettlesExactlyWhen(pots, pair, coins, o, 0, takerFee, lot);
    if takerFee >= DEFAULT_ADDITIONAL_TAKER_FEE && coins.base >= SMALLEST_SURCHARGED_SALE {
      var penalised := Mul(coins.base, FEE_PENALTY_MULTIPLIER);
      MulMonotone(SMALLEST_SURCHARGED_SALE, coins.base, FEE_PENALTY_MULTIPLIER);
      Scale(1000, penalised, takerFee);
      DivAtLeast(penalised * takerFee, FLOAT_SCALING, 1);
    }
  }

  class Pool {
    const id: ID
    const pair: Pair
    const vault: Vault
    var params: Lots.BookParams
    var registered: bool
    var ledger: Ledger

    constructor (id: ID, pair: Pair, params: Lots.BookParams)
      ensures this.id == id && this.pair == pair && this.params == params && registered && ledger == map[]
      ensures fresh(vault) && vault.Pots() == EMPTY
    {
      this.id := id;
      this.pair := pair;
      this.params := params;
      this.registered := true;
      this.ledger := map[];
      this.vault := new Vault();
    }

    /** What `create_pool` guarantees of every pool, and adjustments keep. */
    ghost predicate Valid()
      reads this
    {
      pair.base != pair.quote && Lots.Sound(params)
    }

    static method CreatePool(
      registry: Registry.Registry, key: Registry.PoolKey, tick: u64, lot: u64, min: u64,
      whitelisted: bool, stable: bool, poolId: ID) returns (r: Result<Pool>)
      modifies registry
      ensures var checked := Registry.CreationChecked(Registry.Create(key, tick, lot, min, whitelisted, stable));
              match checked
              case Abort(code) => r == Abort(code) && registry.pools == old(registry.pools)
              case Ok(params) =>
                match Registry.Registered(old(registry.pools), key, poolId)
                case Abort(code) => r == Abort(code) && registry.pools == old(registry.pools)
                case Ok(entries) =>
                  && r.Ok? && fresh(r.value) && r.value.Valid() && r.value.registered
                  && r.value.id == poolId && r.value.pair == Pair(key.base, key.quote) && r.value.params == params
                  && registry.pools == entries
      ensures r.Ok? <==>
        && tick > 0 && Lots.PowerOfTen(tick) && lot >= 1000 && Lots.PowerOfTen(lot)
        && min > 0 && min % lot == 0 && Lots.PowerOfTen(min) && !(whitelisted && stable) && key.base != key.quote
        && key !in old(registry.pools) && Registry.PoolKey(key.quote, key.base) !in old(registry.pools)
      ensures r.Ok? ==> registry.pools == old(registry.pools)[key := poolId]
      ensures r.Abort? ==> registry.pools == old(registry.pools)
      ensures r.Abort? ==> r == Abort(
        if tick == 0 || !Lots.PowerOfTen(tick) then EInvalidTickSize
        else if lot < 1000 || !Lots.PowerOfTen(lot) then EInvalidLotSize
        else if min == 0 || min % lot != 0 || !Lots.PowerOfTen(min) then EInvalidMinSize
        else if whitelisted && stable then EPoolCannotBeBothWhitelistedAndStable
        else if key.base == key.quote then ESameBaseAndQuote else EPoolAlreadyExists)
      ensures r.Ok? ==> r.value.params == Lots.BookParams(tick, lot, min) && r.value.ledger == map[]
    {
      var goodTick := Lots.IsPowerOfTen(tick);
      if tick == 0 || !goodTick { return Abort(EInvalidTickSize); }
      if lot < 1000 { return Abort(EInvalidLotSize); }
      var goodLot := Lots.IsPowerOfTen(lot);
      if !goodLot { return Abort(EInvalidLotSize); }
      if min == 0 || min % lot != 0 { return Abort(EInvalidMinSize); }
      var goodMin := Lots.IsPowerOfTen(min);
      if !goodMin { return Abort(EInvalidMinSize); }
      if whitelisted && stable { return Abort(EPoolCannotBeBothWhitelistedAndStable); }
      if key.base == key.quote { return Abort(ESameBaseAndQuote); }
      var entered := registry.RegisterPool(key.base, key.quote, poolId);
      if entered.Abort? { return Abort(entered.code); }
      var pool := new Pool(poolId, Pair(key.base, key.quote), Lots.BookParams(tick, lot, min));
      return Ok(pool);
    }

    method UnregisterPoolAdmin(registry: Registry.Registry) returns (r: Result<()>)
      modifies this`registered, registry
      ensures var key := Registry.PoolKey(pair.base, pair.quote);
              && (r.Ok? <==> old(registered) && key in old(registry.pools))
              && (r.Ok? ==> !registered && registry.pools == old(registry.pools) - {key})
              && (r.Abort? ==> registered == old(registered) && registry.pools == old(registry.pools))
              && (r.Abort? ==> r.code == if old(registered) then EPoolDoesNotExist else EPoolNotRegistered)
    {
      if !registered { return Abort(EPoolNotRegistered); }
      r := registry.UnregisterPool(pair.base, pair.quote);
      if r.Ok? { registered := false; }
    }

    method AdjustMinLotSizeAdmin(newLot: u64, newMin: u64) returns (r: Result<()>)
      requires Lots.Sound(params)
      modifies this`params
      ensures r == Reported(Lots.Adjusted(old(params), newLot, newMin), ())
      ensures params == if r.Ok? then Lots.Adjusted(old(params), newLot, newMin).value else old(params)
      ensures r.Ok? <==>
        && newLot > 0 && old(params).lot % newLot == 0 && Lots.PowerOfTen(newLot)
        && newMin > 0 && newMin % newLot == 0 && Lots.PowerOfTen(newMin)
      ensures r.Ok? ==> params == Lots.BookParams(old(params).tick, newLot, newMin)
      ensures r.Abort? ==> params == old(params)
      ensures r.Abort? ==> r == Abort(
        if newLot > 0 && old(params).lot % newLot == 0 && Lots.PowerOfTen(newLot) then EInvalidMinSize
        else EInvalidLotSize)
      ensures Lots.Sound(params)
    {
      if newLot == 0 || params.lot % newLot != 0 { return Abort(EInvalidLotSize); }
      var goodLot := Lots.IsPowerOfTen(newLot);
      if !goodLot { return Abort(EInvalidLotSize); }
      if newMin == 0 || newMin % newLot != 0 { return Abort(EInvalidMinSize); }
      var goodMin := Lots.IsPowerOfTen(newMin);
      if !goodMin { return Abort(EInvalidMinSize); }
      params := params.(lot := newLot, min := newMin);
      return Ok(());
    }

    method MintReferral(multiplier: u64, sender: Address, referralId: ID) returns (r: Result<PoolReferral>)
      modifies this`ledger
      ensures r == Reported(Opened(old(ledger), referralId, multiplier), PoolReferral(referralId, sender, id))
      ensures ledger == if r.Ok? then Opened(old(ledger), referralId, multiplier).value else old(ledger)
      ensures r.Ok? <==> multiplier <= 2_000_000_000 && multiplier % 100_000_000 == 0
      ensures r.Ok? ==>
        r.value == PoolReferral(referralId, sender, id)
        && ledger == old(ledger)[referralId := Rewards(multiplier, Balances(0, 0, 0))]
      ensures r.Abort? ==> r.code == EInvalidReferralMultiplier && ledger == old(ledger)
    {
      if multiplier > REFERRAL_MAX_MULTIPLIER { return Abort(EInvalidReferralMultiplier); }
      if multiplier % REFERRAL_MULTIPLIER != 0 { return Abort(EInvalidReferralMultiplier); }
      ledger := ledger[referralId := Rewards(multiplier, EMPTY)];
      return Ok(PoolReferral(referralId, sender, id));
    }

    method UpdatePoolReferralMultiplier(referral: PoolReferral, multiplier: u64, sender: Address) returns (r: Result<()>)
      modifies this`ledger
      ensures r == Reported(Updated(old(ledger), referral, multiplier, sender), ())
      ensures ledger == if r.Ok? then Updated(old(ledger), referral, multiplier, sender).value else old(ledger)
      ensures r.Ok? <==>
        && sender == referral.owner && multiplier <= 2_000_000_000 && multiplier % 100_000_000 == 0
        && referral.id in old(ledger)
      ensures r.Ok? ==> ledger == old(ledger)[referral.id := Rewards(multiplier, old(ledger)[referral.id].pots)]
      ensures r.Abort? ==> ledger == old(ledger)
      ensures r.Abort? ==> r == Abort(
        if sender != referral.owner then EInvalidReferralOwner
        else if referral.id in ledger then EInvalidReferralMultiplier
        else if multiplier <= 2_000_000_000 && multiplier % 100_000_000 == 0 then EFieldDoesNotExist
        else EInvalidReferralMultiplier)
    {
      if sender != referral.owner { return Abort(EInvalidReferralOwner); }
      if multiplier > REFERRAL_MAX_MULTIPLIER { return Abort(EInvalidReferralMultiplier); }
      if multiplier % REFERRAL_MULTIPLIER != 0 { return Abort(EInvalidReferralMultiplier); }
      if referral.id !in ledger { return Abort(EFieldDoesNotExist); }
      ledger := ledger[referral.id := ledger[referral.id].(multiplier := multiplier)];
      return Ok(());
    }

    /** The three pots are emptied one after the other. */
    method ClaimPoolReferralRewards(referral: PoolReferral, sender: Address) returns (r: Result<Balances>)
      modifies this`ledger
      ensures var expected := Claimed(old(ledger), referral, sender);
              && (expected.Ok? ==> r == Ok(expected.value.1) && ledger == expected.value.0)
              && (expected.Abort? ==> r == Abort(expected.code) && ledger == old(ledger))
      ensures r.Ok? <==> sender == referral.owner && referral.id in old(ledger)
      ensures r.Abort? ==> ledger == old(ledger)
      ensures r.Abort? ==> r == Abort(
        if sender != referral.owner then EInvalidReferralOwner else EFieldDoesNotExist)
      ensures r.Ok? ==>
        && r.value == old(ledger)[referral.id].pots
        && ledger == old(ledger)[referral.id := Rewards(old(ledger)[referral.id].multiplier, Balances(0, 0, 0))]
    {
      if sender != referral.owner { return Abort(EInvalidReferralOwner); }
      if referral.id !in ledger { return Abort(EFieldDoesNotExist); }
      var rewards := ledger[referral.id];
      var base := rewards.pots.base;
      rewards := rewards.(pots := rewards.pots.(base := 0));
      var quote := rewards.pots.quote;
      rewards := rewards.(pots := rewards.pots.(quote := 0));
      var deep := rewards.pots.deep;
      rewards := rewards.(pots := rewards.pots.(deep := 0));
      ledger := ledger[referral.id := rewards];
      return Ok(Balances(base, quote, deep));
    }

    /** The asset charged is the one that the order's flags name, which need not be the one the fees were taken in. */
    method ProcessReferralFees(paid: PaidFees, manager: BalanceManager, proof: TradeProof) returns (r: Result<()>)
      modifies this`ledger, manager`balances
      ensures var expected := Processed(old(ledger), pair, id, paid, old(manager.Abs()), proof);
              && r == Reported(expected, ())
              && ledger == (if expected.Ok? then expected.value.ledger else old(ledger))
              && manager.Abs() == if expected.Ok? then expected.value.manager else old(manager.Abs())
      ensures id !in manager.referrals ==> r.Ok?
      ensures id in manager.referrals ==>
        var referral, book := manager.referrals[id], old(ledger);
        r.Ok? <==>
          && referral in book
          && var fee, pots := Mul(paid.amount, book[referral].multiplier), book[referral].pots;
             && fee <= MAX_U64
             && (fee > 0 ==>
                  && proof.balanceManagerId == manager.id
                  && fee <= Balance(old(manager.balances),
                              if paid.isDeep then DEEP else if paid.isBid then pair.quote else pair.base)
                  && fee + (if paid.isDeep then pots.deep else if paid.isBid then pots.quote else pots.base) <= MAX_U64)
    {
      ChargesExactlyWhen(ledger, pair, id, paid, manager.Abs(), proof);
      if id !in manager.referrals { return Ok(()); }
      var referralId := manager.referrals[id];
      if referralId !in ledger { return Abort(EFieldDoesNotExist); }
      var rewards := ledger[referralId];
      var fee := Mul(paid.amount, rewards.multiplier);
      if fee > MAX_U64 { return Abort(EArithmetic); }
      if fee == 0 { return Ok(()); }
      var leg := if paid.isDeep then DeepLeg else if !paid.isBid then BaseLeg else QuoteLeg;
      var before := manager.balances;
      var taken := manager.WithdrawWithProof(proof, pair.TypeOf(leg), fee, false);
      if taken.Abort? { return Abort(taken.code); }
      if rewards.pots.Of(leg) + fee > MAX_U64 {
        manager.balances := before;
        return Abort(EArithmetic);
      }
      ledger := ledger[referralId := rewards.(pots := rewards.pots.With(leg, rewards.pots.Of(leg) + fee))];
      return Ok(());
    }

    /**
     * Settles an execution, then charges the manager's referral on what it holds by then (`settled`). Manager,
     * vault and referral record together hold as much of every asset as before, and an abort of either half
     * rolls back both.
     */
    method PlaceOrder(e: Execution, manager: BalanceManager, proof: TradeProof)
      returns (r: Result<()>, ghost settled: Manager)
      requires Valid()
      modifies vault, this`ledger, manager`balances
      ensures var possible := proof.balanceManagerId == manager.id &&
                CanSettle(old(vault.Pots()), old(manager.balances), pair, e.settled, e.owed);
              if possible
              then
                && SettledTo(old(manager.Abs()), settled, pair, e)
                && r == Reported(Processed(old(ledger), pair, id, e.paid, settled, proof), ())
                && (r.Ok? <==> CanCharge(old(ledger), pair, id, e.paid, settled, proof))
              else r.Abort?
      ensures r.Ok? ==>
        var c := Processed(old(ledger), pair, id, e.paid, settled, proof).value;
        ledger == c.ledger && manager.Abs() == c.manager && PotsMoved(old(vault.Pots()), vault.Pots(), e)
      ensures r.Ok? ==> forall t ::
        Balance(manager.balances, t) + vault.Pots().Total(pair, t) + ReferralTotal(ledger, manager.referrals, id, pair, t)
        == Balance(old(manager.balances), t) + old(vault.Pots()).Total(pair, t)
           + ReferralTotal(old(ledger), manager.referrals, id, pair, t)
      ensures r.Abort? ==>
        vault.Pots() == old(vault.Pots()) && ledger == old(ledger) && manager.Abs() == old(manager.Abs())
    {
      var pots, ledgerBefore, bag := vault.Pots(), ledger, manager.balances;
      r := vault.SettleBalanceManager(e.settled, e.owed, pair, manager, proof);
      settled := manager.Abs();
      if r.Abort? { return; }
      ChargesExactlyWhen(ledger, pair, id, e.paid, settled, proof);
      r := ProcessReferralFees(e.paid, manager, proof);
      if r.Abort? {
        vault.base, vault.quote, vault.deep := pots.base, pots.quote, pots.deep;
        manager.balances := bag;
        return;
      }
      forall t { OrderConserves(pair, pots, vault.Pots(), e, bag, settled, ledgerBefore, id, proof, t); }
    }

    /** Three deposits; aliased types add up. */
    static method DepositCoins(coins: Coins, pair: Pair, manager: BalanceManager, sender: Address) returns (r: Result<()>)
      requires manager.balances == map[] && manager.owner == sender
      modifies manager`balances
      ensures if FitsOneManager(pair, coins) then r.Ok? else r == Abort(EArithmetic)
      ensures r.Ok? ==> HoldsDeposits(manager.balances, pair, coins)
      ensures manager.balances.Keys <= {pair.base, pair.quote, DEEP}
    {
      assert coins.In().Total(pair, pair.base) >= coins.base && coins.In().Total(pair, pair.quote) >= coins.quote;
      r := manager.Deposit(pair.base, coins.base, sender);
      if r.Abort? { return; }
      r := manager.Deposit(pair.quote, coins.quote, sender);
      if r.Abort? { return; }
      r := manager.Deposit(DEEP, coins.deep, sender);
    }

    /** Three full withdrawals, base first; they leave no key behind. */
    static method WithdrawCoins(pair: Pair, manager: BalanceManager, sender: Address) returns (out: Coins)
      requires manager.owner == sender && manager.balances.Keys <= {pair.base, pair.quote, DEEP}
      requires pair.base != pair.quote
      modifies manager`balances
      ensures manager.balances == map[]
      ensures out.base == Balance(old(manager.balances), pair.base)
      ensures out.quote == Balance(old(manager.balances), pair.quote)
      ensures out.deep == if DEEP == pair.base || DEEP == pair.quote then 0 else Balance(old(manager.balances), DEEP)
    {
      var base := manager.WithdrawAll(pair.base, sender);
      var quote := manager.WithdrawAll(pair.quote, sender);
      var deep := manager.WithdrawAll(DEEP, sender);
      assert manager.balances.Keys == {};
      return Coins(base.value, quote.value, deep.value);
    }

    /** How a swap that reaches the book ends, for the execution it gets there. */
    ghost predicate SwapOutcome(coins: Coins, minOut: u64, execution: Result<Execution>, pots: Balances, r: Result<Coins>)
      reads vault
    {
      match execution
      case Abort(code) => r == Abort(if FitsOneManager(pair, coins) then code else EArithmetic)
      case Ok(e) =>
        var bought := if coins.quote > 0 then pair.base else pair.quote;
        && (r.Ok? <==> Trades(pots, pair, coins, e) && Left(pair, coins, e, bought) >= minOut)
        && (Trades(pots, pair, coins, e) && r.Abort? ==> r.code == EMinimumQuantityOutNotMet)
        && (r.Ok? ==>
              && PotsMoved(pots, vault.Pots(), e)
              && r.value.base == Left(pair, coins, e, pair.base)
              && r.value.quote == Left(pair, coins, e, pair.quote)
              && r.value.deep == if DEEP == pair.base || DEEP == pair.quote then 0 else Left(pair, coins, e, DEEP))
    }

    /** A swap of an amount worth `n` base: turned back below the minimum, else the whole lots in `n` are traded. */
    ghost predicate TradesWholeLots(
      n: u64, coins: Coins, minOut: u64, market: Market, pots: Balances, r: Result<Coins>)
      reads this, vault
    {
      && (n < params.min ==> r == Ok(coins) && vault.Pots() == pots)
      && (n >= params.min ==>
            forall q: u64 :: Divides(params.lot, q) && q <= n < q + params.lot ==>
              SwapOutcome(coins, minOut, market(q, coins.quote > 0, coins.deep > 0), pots, r))
    }

    lemma WholeLotsAreTraded(
      n: nat, coins: Coins, minOut: u64, market: Market, pots: Balances, r: Result<Coins>)
      requires Valid() && RoundToLot(n, params.lot) <= n <= MAX_U64
      requires RoundToLot(n, params.lot) < params.min ==> r == Ok(coins) && vault.Pots() == pots
      requires RoundToLot(n, params.lot) >= params.min ==>
        SwapOutcome(coins, minOut, market(RoundToLot(n, params.lot), coins.quote > 0, coins.deep > 0), pots, r)
      ensures TradesWholeLots(n, coins, minOut, market, pots, r)
    {
      Lots.RoundingKeepsTheMinimum(params, n);
      forall q: u64 | Divides(params.lot, q) && q <= n < q + params.lot ensures q == RoundToLot(n, params.lot) {
        Lots.RoundedIsTheMultipleBelow(n, params.lot, q);
      }
    }

    /**
     * Trades coins through a manager that lives only for this call. Each asset comes back in full, as deposited
     * plus the pool's net payment; when DEEP is also the base or the quote it all comes back in that coin.
     * Deleting the manager never aborts, and a call that turns back or aborts leaves the pool as it was. A call
     * that turns back is the only one to return with less than `minOut` bought.
     */
    method SwapExactQuantity(
      coins: Coins, minOut: u64, takerFee: u64, dryRun: bool -> Result<u64>, market: Market, managerId: ID,
      sender: Address)
      returns (r: Result<Coins>)
      requires Valid()
      modifies vault, this`ledger
      ensures ledger == old(ledger)
      ensures r.Abort? ==> vault.Pots() == old(vault.Pots())
      ensures r.Ok? ==> forall t ::
        r.value.In().Total(pair, t) + vault.Pots().Total(pair, t)
        == coins.In().Total(pair, t) + old(vault.Pots()).Total(pair, t)
      ensures (coins.base > 0) == (coins.quote > 0) ==> r == Abort(EInvalidQuantityIn)
      ensures (coins.base > 0) != (coins.quote > 0) ==>
        match SwapQuantity(coins, InputFeeRate(takerFee), params.lot, dryRun)
        case Abort(code) => r == Abort(code)
        case Ok(q) =>
          && q <= MAX_U64
          && (if q < params.min then r == Ok(coins) && vault.Pots() == old(vault.Pots())
              else SwapOutcome(coins, minOut, market(q, coins.quote > 0, coins.deep > 0), old(vault.Pots()), r))
          && (r.Ok? ==> (Bought(coins, r.value) < minOut <==> q < params.min && minOut > 0))
      ensures coins.base == 0 && coins.quote > 0 ==>
        match dryRun(coins.deep > 0)
        case Abort(code) => r == Abort(code)
        case Ok(n) => TradesWholeLots(n, coins, minOut, market, old(vault.Pots()), r)
      ensures coins.base > 0 && coins.quote == 0 ==>
        var n := if coins.deep > 0 then coins.base
                 else Div(coins.base, 1_000_000_000 + Mul(takerFee, 1_250_000_000));
        n <= MAX_U64 && TradesWholeLots(n, coins, minOut, market, old(vault.Pots()), r)
    {
      if (coins.base > 0) == (coins.quote > 0) { return Abort(EInvalidQuantityIn); }
      AskQuantityIsBounded(coins.base, InputFeeRate(takerFee));
      var sized := BaseQuantity(coins, takerFee, dryRun);
      if sized.Abort? { return Abort(sized.code); }
      var baseQuantity := sized.value;
      ghost var n := if coins.quote > 0 then dryRun(coins.deep > 0).value
                     else if coins.deep > 0 then coins.base else AskQuantity(coins.base, InputFeeRate(takerFee));
      var pots := vault.Pots();
      if baseQuantity < params.min {
        r := Ok(coins);
        WholeLotsAreTraded(n, coins, minOut, market, pots, r);
        return;
      }
      r := Trade(coins, minOut, baseQuantity, market, managerId, sender);
      if r.Ok? {
        var e := market(baseQuantity, coins.quote > 0, coins.deep > 0).value;
        forall t { SwapConserves(pair, pots, vault.Pots(), coins, r.value, e, t); }
      }
      WholeLotsAreTraded(n, coins, minOut, market, pots, r);
    }

    method BaseQuantity(coins: Coins, takerFee: u64, dryRun: bool -> Result<u64>) returns (r: Result<u64>)
      requires params.lot > 0
      ensures r == SwapQuantity(coins, InputFeeRate(takerFee), params.lot, dryRun)
    {
      var baseQuantity := coins.base;
      var inputFeeRate := InputFeeRate(takerFee);
      var payWithDeep := coins.deep > 0;
      if coins.quote > 0 {
        var answered := dryRun(payWithDeep);
        if answered.Abort? { return Abort(answered.code); }
        baseQuantity := answered.value;
      } else if !payWithDeep {
        AskQuantityIsBounded(coins.base, inputFeeRate);
        baseQuantity := AskQuantity(coins.base, inputFeeRate);
      }
      return Ok(RoundToLot(baseQuantity, params.lot));
    }

    /** The part of a swap that reaches the book. */
    method Trade(coins: Coins, minOut: u64, quantity: u64, market: Market, managerId: ID, sender: Address)
      returns (r: Result<Coins>)
      requires Valid()
      modifies vault, this`ledger
      ensures ledger == old(ledger)
      ensures r.Abort? ==> vault.Pots() == old(vault.Pots())
      ensures SwapOutcome(coins, minOut, market(quantity, coins.quote > 0, coins.deep > 0), old(vault.Pots()), r)
      ensures match market(quantity, coins.quote > 0, coins.deep > 0)
              case Abort(_) => r.Abort?
              case Ok(e) =>
                r.Ok? <==> Trades(old(vault.Pots()), pair, coins, e) &&
                           minOut <= Left(pair, coins, e, if coins.quote > 0 then pair.base else pair.quote)
    {
      var pots := vault.Pots();
      var manager := new BalanceManager(managerId, sender);
      var owned := manager.GenerateProofAsOwner(sender);
      var proof := owned.value;
      var filled := DepositCoins(coins, pair, manager, sender);
      if filled.Abort? { return Abort(filled.code); }
      var execution := market(quantity, coins.quote > 0, coins.deep > 0);
      if execution.Abort? { return Abort(execution.code); }
      TradesIffSettles(manager.balances, pots, pair, coins, execution.value);
      ghost var deposited := manager.Abs();
      var placed, settled := PlaceOrder(execution.value, manager, proof);
      if placed.Abort? { return Abort(placed.code); }
      SettledHoldsWhatIsLeft(deposited, settled, pair, coins, execution.value);
      assert manager.Abs() == settled;
      var out := WithdrawCoins(pair, manager, sender);
      if Bought(coins, out) < minOut {
        vault.base, vault.quote, vault.deep := pots.base, pots.quote, pots.deep;
        return Abort(EMinimumQuantityOutNotMet);
      }
      var deleted := manager.Delete();
      assert deleted.Ok?;
      return Ok(out);
    }
  }
}
