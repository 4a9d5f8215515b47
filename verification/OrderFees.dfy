/** What a taker order settles and owes, its fee included, and in which asset the pool books that fee. */
module OrderFees {
  import opened MoveTypes
  import opened FixedPoint
  import opened AskFees
  import opened Balances

  // ---- the price of DEEP

  datatype Price = Price(conversionRate: u64, timestamp: u64)

  datatype DeepPrice = DeepPrice(
    basePrices: seq<Price>, cumulativeBase: u64, quotePrices: seq<Price>, cumulativeQuote: u64)

  function LastInsertTimestamp(prices: seq<Price>): u64 {
    if prices == [] then 0 else prices[|prices| - 1].timestamp
  }

  /** The price an order is charged at; zero stands for none. */
  datatype OrderDeepPrice = OrderDeepPrice(assetIsBase: bool, deepPerAsset: u64) {
    /** The part of an order that the fee rate applies to: in DEEP with a price, else in the asset paid with. */
    function FeeQuantity(base: u64, quote: u64, isBid: bool): Result<Balances> {
      match MulU64(if assetIsBase then base else quote, deepPerAsset)
      case Abort(code) => Abort(code)
      case Ok(deep) =>
        if deepPerAsset > 0 then Ok(Balances(0, 0, deep))
        else match MulU64(if isBid then quote else base, FEE_PENALTY_MULTIPLIER)
          case Abort(code) => Abort(code)
          case Ok(penalised) => Ok(if isBid then Balances(0, penalised, 0) else Balances(penalised, 0, 0))
    }
  }

  const NO_PRICE := OrderDeepPrice(false, 0)

  function MulU64(x: u64, y: u64): Result<u64> { if Mul(x, y) > MAX_U64 then Abort(EArithmetic) else Ok(Mul(x, y)) }

  function Average(cumulative: u64, n: nat): u64
    requires n > 0
  {
    DivBounds(cumulative, n, cumulative / n);
    Scale(1, n, cumulative / n);
    cumulative / n
  }

  /** The average of the quote prices, or of the base prices when there are none. */
  function GetOrderDeepPrice(prices: DeepPrice, whitelisted: bool): Result<OrderDeepPrice> {
    if whitelisted then Ok(NO_PRICE)
    else if LastInsertTimestamp(prices.basePrices) == 0 && LastInsertTimestamp(prices.quotePrices) == 0
    then Abort(ENoDataPoints)
    else if LastInsertTimestamp(prices.quotePrices) == 0
    then Ok(OrderDeepPrice(true, Average(prices.cumulativeBase, |prices.basePrices|)))
    else Ok(OrderDeepPrice(false, Average(prices.cumulativeQuote, |prices.quotePrices|)))
  }

  // ---- orders

  /** What a pool books of an order's fees: an amount, and the flags that decide in which asset. */
  datatype PaidFees = PaidFees(amount: u64, isDeep: bool, isBid: bool) {
    function Leg(): Leg { if isDeep then DeepLeg else if !isBid then BaseLeg else QuoteLeg }

    function AsBalances(): Balances {
      if isDeep then Balances(0, 0, amount) else if isBid then Balances(0, amount, 0) else Balances(amount, 0, 0)
    }
  }

  /** What matching an order came to: amounts to settle, amounts owed (fees included), and the fees booked. */
  datatype Execution = Execution(settled: Balances, owed: Balances, paid: PaidFees)

  /** A market order after matching; `payWithDeep` is the caller's choice. */
  datatype TakerOrder = TakerOrder(executed: u64, quote: u64, isBid: bool, payWithDeep: bool, price: OrderDeepPrice)

  /** The price that placing the order gives it. */
  predicate Priced(o: TakerOrder, prices: DeepPrice, whitelisted: bool) {
    Ok(o.price) == if o.payWithDeep then GetOrderDeepPrice(prices, whitelisted) else Ok(NO_PRICE)
  }

  function Scaled(b: Balances, factor: u64): Result<Balances> {
    match MulU64(b.base, factor)
    case Abort(code) => Abort(code)
    case Ok(base) =>
      match MulU64(b.quote, factor)
      case Abort(code) => Abort(code)
      case Ok(quote) =>
        match MulU64(b.deep, factor)
        case Abort(code) => Abort(code)
        case Ok(deep) => Ok(Balances(base, quote, deep))
  }

  function NonZeroValue(b: Balances): u64 { if b.base > 0 then b.base else if b.quote > 0 then b.quote else b.deep }

  /** The fees taken from the trader. */
  function TakerFees(o: TakerOrder, takerFee: u64): Result<Balances> {
    match o.price.FeeQuantity(o.executed, o.quote, o.isBid)
    case Abort(code) => Abort(code)
    case Ok(quantity) => Scaled(quantity, takerFee)
  }

  /** The fees that the pool books, and charges the referral's share of. */
  function BookedFees(o: TakerOrder, taken: Balances): PaidFees { PaidFees(NonZeroValue(taken), o.payWithDeep, o.isBid) }

  /** The settlement of a market order, which leaves nothing in the book. */
  function MarketExecution(o: TakerOrder, takerFee: u64): Result<Execution> {
    match TakerFees(o, takerFee)
    case Abort(code) => Abort(code)
    case Ok(taken) =>
      var paid := BookedFees(o, taken);
      if o.isBid then
        if taken.quote + o.quote > MAX_U64 then Abort(EArithmetic)
        else Ok(Execution(Balances(o.executed, 0, 0), taken.(quote := taken.quote + o.quote), paid))
      else
        if taken.base + o.executed > MAX_U64 then Abort(EArithmetic)
        else Ok(Execution(Balances(0, o.quote, 0), taken.(base := taken.base + o.executed), paid))
  }

  lemma MulZero(y: nat)
    ensures Mul(0, y) == 0 && Mul(y, 0) == 0
  {
  }

  /** Without a price the fee is taken in the asset paid with, whatever the caller chose. */
  lemma UnpricedFees(o: TakerOrder, takerFee: u64)
    requires o.price.deepPerAsset == 0
    ensures var amount := if o.isBid then o.quote else o.executed;
            var fee := FeeCharged(amount, takerFee);
            TakerFees(o, takerFee) ==
              if Mul(amount, FEE_PENALTY_MULTIPLIER) > MAX_U64 || fee > MAX_U64 then Abort(EArithmetic)
              else Ok(if o.isBid then Balances(0, fee, 0) else Balances(fee, 0, 0))
  {
    MulZero(takerFee);
    MulZero(if o.price.assetIsBase then o.executed else o.quote);
  }

  /** With a price the fee is taken in DEEP alone, on the side of the trade that the price is quoted for. */
  lemma PricedFees(o: TakerOrder, takerFee: u64)
    requires o.price.deepPerAsset > 0
    ensures var deep := Mul(if o.price.assetIsBase then o.executed else o.quote, o.price.deepPerAsset);
            TakerFees(o, takerFee) ==
              if deep > MAX_U64 || Mul(deep, takerFee) > MAX_U64 then Abort(EArithmetic)
              else Ok(Balances(0, 0, Mul(deep, takerFee)))
  {
    MulZero(takerFee);
  }

  /** There are price points, and the last one is not at the beginning of time. */
  predicate HasPoints(points: seq<Price>) { points != [] && points[|points| - 1].timestamp > 0 }

  /** The price is the average of the quote points, rounded down; of the base points only when there are no others. */
  lemma PriceIsTheAverage(prices: DeepPrice)
    ensures GetOrderDeepPrice(prices, true) == Ok(OrderDeepPrice(false, 0))
    ensures match GetOrderDeepPrice(prices, false)
            case Abort(code) =>
              code == ENoDataPoints && !HasPoints(prices.quotePrices) && !HasPoints(prices.basePrices)
            case Ok(price) =>
              && (HasPoints(prices.quotePrices) || HasPoints(prices.basePrices))
              && price.assetIsBase == !HasPoints(prices.quotePrices)
              && var total, n := if price.assetIsBase then prices.cumulativeBase else prices.cumulativeQuote,
                                 if price.assetIsBase then |prices.basePrices| else |prices.quotePrices|;
                 price.deepPerAsset * n <= total < (price.deepPerAsset + 1) * n
  {
    if HasPoints(prices.quotePrices) {
      DivBounds(prices.cumulativeQuote, |prices.quotePrices|, prices.cumulativeQuote / |prices.quotePrices|);
    } else if HasPoints(prices.basePrices) {
      DivBounds(prices.cumulativeBase, |prices.basePrices|, prices.cumulativeBase / |prices.basePrices|);
    }
  }

  /** DEEP is chosen and has no price: in a whitelisted pool, or where the average rounds to zero. */
  lemma UnpricedExactlyWhen(o: TakerOrder, prices: DeepPrice, whitelisted: bool)
    requires Priced(o, prices, whitelisted) && o.payWithDeep
    ensures o.price.deepPerAsset == 0 <==>
            || whitelisted
            || (LastInsertTimestamp(prices.quotePrices) > 0 && prices.cumulativeQuote < |prices.quotePrices|)
            || (LastInsertTimestamp(prices.quotePrices) == 0 && prices.cumulativeBase < |prices.basePrices|)
  {
    if !whitelisted {
      if LastInsertTimestamp(prices.quotePrices) == 0 {
        DivBounds(prices.cumulativeBase, |prices.basePrices|, o.price.deepPerAsset);
        Scale(1, o.price.deepPerAsset, |prices.basePrices|);
      } else {
        DivBounds(prices.cumulativeQuote, |prices.quotePrices|, o.price.deepPerAsset);
        Scale(1, o.price.deepPerAsset, |prices.quotePrices|);
      }
    }
  }

  /**
   * The pool books all that was taken, and in the asset it was taken in unless the caller chose DEEP, there is no
   * price for it, and the fee is not zero.
   */
  lemma FeesAreBookedAsTakenExactlyWhen(o: TakerOrder, takerFee: u64, prices: DeepPrice, whitelisted: bool)
    requires Priced(o, prices, whitelisted) && TakerFees(o, takerFee).Ok?
    ensures var taken := TakerFees(o, takerFee).value;
            BookedFees(o, taken).AsBalances() == taken <==>
            !o.payWithDeep || o.price.deepPerAsset > 0
            || FeeCharged(if o.isBid then o.quote else o.executed, takerFee) == 0
    ensures var taken := TakerFees(o, takerFee).value;
            BookedFees(o, taken).amount == taken.base + taken.quote + taken.deep
  {
    if o.price.deepPerAsset > 0 { PricedFees(o, takerFee); } else { UnpricedFees(o, takerFee); }
  }

  /** The trader gets what was traded, and owes what was given for it and the fees; nothing else. */
  lemma MarketOrdersTradeAtCost(o: TakerOrder, takerFee: u64)
    ensures MarketExecution(o, takerFee).Ok? <==>
            && TakerFees(o, takerFee).Ok?
            && (o.isBid ==> o.quote + TakerFees(o, takerFee).value.quote <= MAX_U64)
            && (!o.isBid ==> o.executed + TakerFees(o, takerFee).value.base <= MAX_U64)
    ensures MarketExecution(o, takerFee).Ok? ==>
              var e, fees := MarketExecution(o, takerFee).value, TakerFees(o, takerFee).value;
              && e.settled == (if o.isBid then Balances(o.executed, 0, 0) else Balances(0, o.quote, 0))
              && e.owed.base == fees.base + (if o.isBid then 0 else o.executed)
              && e.owed.quote == fees.quote + (if o.isBid then o.quote else 0)
              && e.owed.deep == fees.deep
              && e.paid == PaidFees(fees.base + fees.quote + fees.deep, o.payWithDeep, o.isBid)
  {
    if TakerFees(o, takerFee).Ok? {
      if o.price.deepPerAsset > 0 { PricedFees(o, takerFee); } else { UnpricedFees(o, takerFee); }
    }
  }

  /** A sale without a price: what it settles, and when it cannot even be computed. */
  lemma UnpricedSale(o: TakerOrder, takerFee: u64)
    requires !o.isBid && o.price.deepPerAsset == 0
    ensures var fee := FeeCharged(o.executed, takerFee);
            MarketExecution(o, takerFee) ==
              if Mul(o.executed, FEE_PENALTY_MULTIPLIER) > MAX_U64 || o.executed + fee > MAX_U64 then Abort(EArithmetic)
              else Ok(Execution(
                Balances(0, o.quote, 0), Balances(o.executed + fee, 0, 0), PaidFees(fee, o.payWithDeep, false)))
  {
    UnpricedFees(o, takerFee);
  }

  /** A sale in a whitelisted pool under a surcharge: 1250 units of base are taken and 1250 units of DEEP booked. */
  lemma BaseFeeBookedAsDeep(prices: DeepPrice)
    ensures var o := TakerOrder(1_000_000, 1_000_000, false, true, NO_PRICE);
            && Priced(o, prices, true)
            && TakerFees(o, 1_000_000) == Ok(Balances(1250, 0, 0))
            && BookedFees(o, Balances(1250, 0, 0)).AsBalances() == Balances(0, 0, 1250)
  {
    UnpricedFees(TakerOrder(1_000_000, 1_000_000, false, true, NO_PRICE), 1_000_000);
  }
}
