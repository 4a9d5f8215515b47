/** Selling an exact amount of base with the fee taken in base: the quantity, the check, and the fee charged. */
module AskFees {
  import opened FixedPoint

  /** 25% on top of the normal fee when it is not paid in DEEP. */
  const FEE_PENALTY_MULTIPLIER: nat := 1_250_000_000

  function InputFeeRate(takerFee: nat): nat { Mul(takerFee, FEE_PENALTY_MULTIPLIER) }

  /** How much of `base` a swap offers for sale, before rounding to lots. */
  function AskQuantity(base: nat, rate: nat): nat { Div(base, FLOAT_SCALING + rate) }

  function RoundToLot(quantity: nat, lot: nat): (rounded: nat)
    requires lot > 0
    ensures rounded <= quantity < rounded + lot
  {
    quantity - quantity % lot
  }

  /** What `can_place_market_order` asks to see in the manager. */
  function RequiredBase(quantity: nat, rate: nat): nat { Mul(quantity, FLOAT_SCALING + rate) }

  /** What settlement charges: the penalised quantity first, the fee on that, each rounded down. */
  function FeeCharged(executed: nat, takerFee: nat): nat { Mul(Mul(executed, FEE_PENALTY_MULTIPLIER), takerFee) }

  function Sum(xs: seq<nat>): nat { if xs == [] then 0 else xs[0] + Sum(xs[1..]) }

  function FillFees(fills: seq<nat>, rate: nat): nat {
    if fills == [] then 0 else Mul(fills[0], rate) + FillFees(fills[1..], rate)
  }

  lemma RequiredBaseIsQuantityPlusFee(quantity: nat, rate: nat)
    ensures RequiredBase(quantity, rate) == quantity + Mul(quantity, rate)
  {
    MulBounds(quantity, rate);
    var all := quantity * (FLOAT_SCALING + rate);
    assert all == quantity * FLOAT_SCALING + quantity * rate;
    DivAtLeast(all, FLOAT_SCALING, quantity + Mul(quantity, rate));
    MulAtMost(quantity, FLOAT_SCALING + rate, quantity + Mul(quantity, rate));
  }

  /** The offered quantity is affordable, and one unit more would take at least the whole input. */
  lemma AskQuantityFits(base: nat, rate: nat)
    ensures RequiredBase(AskQuantity(base, rate), rate) <= base <= RequiredBase(AskQuantity(base, rate) + 1, rate)
  {
    var q, d := AskQuantity(base, rate), FLOAT_SCALING + rate;
    DivBounds(base * FLOAT_SCALING, d, q);
    MulAtMost(q, d, base);
    DivAtLeast((q + 1) * d, FLOAT_SCALING, base);
  }

  /** One unit more is still affordable exactly when the division dropped more than the rate. */
  lemma OneMoreUnitFitsExactlyWhen(base: nat, rate: nat)
    ensures RequiredBase(AskQuantity(base, rate) + 1, rate) <= base <==>
            base * FLOAT_SCALING % (FLOAT_SCALING + rate) > rate
    ensures RequiredBase(AskQuantity(base, rate) + 2, rate) > base
  {
    var q, d := AskQuantity(base, rate), FLOAT_SCALING + rate;
    var dropped := base * FLOAT_SCALING % d;
    assert base * FLOAT_SCALING == q * d + dropped;
    assert (q + 1) * d == q * d + d && (q + 2) * d == q * d + 2 * d;
    if dropped > rate {
      DivAtMost((q + 1) * d, FLOAT_SCALING, base);
    } else {
      DivAtLeast((q + 1) * d, FLOAT_SCALING, base + 1);
    }
    DivAtLeast((q + 2) * d, FLOAT_SCALING, base + 1);
  }

  /**
   * A sale may leave a lot unsold that its input affords: exactly when the unrounded quantity stops one unit
   * short of that lot and the division dropped more than the rate.
   */
  lemma LotIsLeftExactlyWhen(base: nat, rate: nat, lot: nat)
    requires lot > 0
    ensures var q := AskQuantity(base, rate);
            RequiredBase(RoundToLot(q, lot) + lot, rate) <= base <==>
            RoundToLot(q, lot) + lot == q + 1 && base * FLOAT_SCALING % (FLOAT_SCALING + rate) > rate
  {
    var q := AskQuantity(base, rate);
    OneMoreUnitFitsExactlyWhen(base, rate);
    if RoundToLot(q, lot) + lot > q + 1 {
      MulMonotone(q + 2, RoundToLot(q, lot) + lot, FLOAT_SCALING + rate);
    }
  }

  /** With the default taker fee and a lot of 1000, an input of 1001 pays for a whole lot and sells nothing. */
  lemma AffordableLotIsLeft()
    ensures var rate := InputFeeRate(1_000_000);
            && RequiredBase(1000, rate) == 1001
            && AskQuantity(1001, rate) == 999
            && RoundToLot(AskQuantity(1001, rate), 1000) == 0
  {
  }

  lemma AskQuantityIsBounded(base: nat, rate: nat)
    ensures AskQuantity(base, rate) <= base
  {
    AskQuantityFits(base, rate);
    RequiredBaseIsQuantityPlusFee(AskQuantity(base, rate), rate);
  }

  lemma {:induction false} FillFeesFit(fills: seq<nat>, rate: nat)
    ensures FillFees(fills, rate) <= Mul(Sum(fills), rate)
  {
    if fills != [] {
      FillFeesFit(fills[1..], rate);
      MulSuperadditive(fills[0], Sum(fills[1..]), rate);
    }
  }

  /** Rounded to any lot, however it is then split into fills, the quantity and its fees stay within the input. */
  lemma AskFitsInput(base: nat, rate: nat, lot: nat, fills: seq<nat>)
    requires lot > 0 && Sum(fills) == RoundToLot(AskQuantity(base, rate), lot)
    ensures RequiredBase(Sum(fills), rate) <= base
    ensures Sum(fills) + FillFees(fills, rate) <= base
  {
    var q := Sum(fills);
    AskQuantityFits(base, rate);
    MulMonotone(q, AskQuantity(base, rate), FLOAT_SCALING + rate);
    FillFeesFit(fills, rate);
    RequiredBaseIsQuantityPlusFee(q, rate);
  }
}
