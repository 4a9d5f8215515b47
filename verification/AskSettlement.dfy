/** Whether the fee that settlement charges on a sale fits into the input as well as the fee that was quoted. */
module AskSettlement {
  import opened MoveTypes
  import opened FixedPoint
  import opened AskFees
  import opened Lots

  /** The bounds that governance and the gas-price surcharge put on fees. */
  const MAX_TAKER_FEE: nat := 1_000_000
  const MAX_ADDITIONAL_TAKER_FEE: nat := 2_000_000
  const DEFAULT_ADDITIONAL_TAKER_FEE: nat := 1_000_000

  /** Whatever is offered, and however many of its lots execute, the quoted fee leaves room for the charged one. */
  ghost predicate SettlementAlwaysFits(quotedFee: nat, chargedFee: nat, lot: nat) {
    forall base: u64, executed: nat ::
      (Divides(lot, executed) && executed <= AskQuantity(base, InputFeeRate(quotedFee))) ==>
        executed + FeeCharged(executed, chargedFee) <= base
  }

  lemma ChargeIsAtMostTheRate(executed: nat, fee: nat, rate: nat)
    requires 5 * fee <= 4 * rate
    ensures FeeCharged(executed, fee) <= Mul(executed, rate)
  {
    var penalised := Mul(executed, FEE_PENALTY_MULTIPLIER);
    MulBounds(executed, FEE_PENALTY_MULTIPLIER);
    MulBounds(executed, rate);
    assert penalised * 4 <= executed * 5;
    Scale(penalised * 4, executed * 5, fee);
    Scale(5 * fee, 4 * rate, executed);
    assert penalised * fee <= executed * rate;
    MulAtMost(penalised, fee, Mul(executed, rate));
  }

  lemma ChargeFits(base: nat, executed: nat, fee: nat, rate: nat)
    requires 5 * fee <= 4 * rate && executed <= AskQuantity(base, rate)
    ensures executed + FeeCharged(executed, fee) <= base
  {
    ChargeIsAtMostTheRate(executed, fee, rate);
    RequiredBaseIsQuantityPlusFee(executed, rate);
    AskQuantityFits(base, rate);
    MulMonotone(executed, AskQuantity(base, rate), FLOAT_SCALING + rate);
  }

  /** The base that buys exactly `n` times four whole units at a quoted rate. */
  function TightBase(n: nat, rate: nat): nat { n * (4 * FLOAT_SCALING) + 4 * (n * rate) }

  lemma TightSale(n: nat, fee: nat, rate: nat)
    ensures AskQuantity(TightBase(n, rate), rate) == n * (4 * FLOAT_SCALING)
    ensures FeeCharged(n * (4 * FLOAT_SCALING), fee) == 5 * (n * fee)
  {
    var executed, base, d := n * (4 * FLOAT_SCALING), TightBase(n, rate), FLOAT_SCALING + rate;
    assert base * FLOAT_SCALING == executed * d by {
      assert executed * d == executed * FLOAT_SCALING + executed * rate;
      assert executed * rate == 4 * FLOAT_SCALING * (n * rate);
    }
    MultipleModulo(executed, d);
    assert executed * FEE_PENALTY_MULTIPLIER == (5 * FLOAT_SCALING * n) * FLOAT_SCALING;
    MultipleModulo(5 * FLOAT_SCALING * n, FLOAT_SCALING);
    assert 5 * FLOAT_SCALING * n * fee == (5 * (n * fee)) * FLOAT_SCALING;
    MultipleModulo(5 * (n * fee), FLOAT_SCALING);
  }

  lemma {:induction false} Pow10Divides(j: nat, k: nat)
    requires j <= k
    ensures Pow10(j) > 0 && Divides(Pow10(j), Pow10(k)) && Pow10(j) <= Pow10(k)
    decreases k
  {
    Pow10Positive(j);
    if j == k {
      MultipleModulo(1, Pow10(j));
    } else {
      Pow10Divides(j, k - 1);
      MultipleModulo(10, Pow10(k - 1));
      DivisibilityChains(Pow10(k), Pow10(k - 1), Pow10(j));
    }
  }

  /** Every size that a u64 admits divides some number of times four whole units, small enough to be traded. */
  lemma CommonSize(size: u64) returns (n: nat)
    requires PowerOfTen(size)
    ensures 0 < n <= 2_500_000_000 && Divides(size, n * (4 * FLOAT_SCALING)) && size <= n * (4 * FLOAT_SCALING)
  {
    var k: nat :| size == Pow10(k);
    Pow10Values();
    if k >= 20 { Pow10Divides(20, k); }
    if k <= 9 {
      n := 1;
      Pow10Divides(k, 9);
      DivisibilityChains(4 * FLOAT_SCALING, FLOAT_SCALING, size);
    } else if k == 10 {
      n := 5;
    } else {
      n := size / (4 * FLOAT_SCALING);
      LargeSize(k, n);
      MultipleModulo(1, size);
    }
  }

  lemma LargeSize(k: nat, n: nat)
    requires 11 <= k <= 19 && n == Pow10(k) / (4 * FLOAT_SCALING)
    ensures n * (4 * FLOAT_SCALING) == Pow10(k) && 0 < n <= 2_500_000_000
  {
    Pow10Values();
    Pow10Divides(11, k);
    Pow10Divides(k, 19);
    LargeMultiple(Pow10(k), n);
  }

  lemma LargeMultiple(size: nat, n: nat)
    requires Divides(100_000_000_000, size) && 100_000_000_000 <= size <= 10_000_000_000_000_000_000
    requires n == size / (4 * FLOAT_SCALING)
    ensures n * (4 * FLOAT_SCALING) == size && 0 < n <= 2_500_000_000
  {
    var m := size / 100_000_000_000;
    assert size == m * 100_000_000_000 == (25 * m) * (4 * FLOAT_SCALING);
    MultipleModulo(25 * m, 4 * FLOAT_SCALING);
  }

  lemma Pow10Values()
    ensures Pow10(9) == 1_000_000_000 && Pow10(10) == 10_000_000_000 && Pow10(11) == 100_000_000_000
    ensures Pow10(19) == 10_000_000_000_000_000_000 && Pow10(20) == 100_000_000_000_000_000_000
  {
  }

  lemma RateIsSmall(fee: nat)
    requires fee <= MAX_TAKER_FEE
    ensures InputFeeRate(fee) <= 1_250_000
  {
    MulMonotone(fee, MAX_TAKER_FEE, FEE_PENALTY_MULTIPLIER);
    assert Mul(MAX_TAKER_FEE, FEE_PENALTY_MULTIPLIER) == 1_250_000;
  }

  /** A charge above the rate leaves some sale short: of a multiple of any lot, for an input that a u64 holds. */
  lemma LargerChargeFallsShort(quotedFee: nat, chargedFee: nat, size: u64) returns (base: u64, executed: nat)
    requires PowerOfTen(size) && quotedFee <= MAX_TAKER_FEE && 5 * chargedFee > 4 * InputFeeRate(quotedFee)
    ensures executed == AskQuantity(base, InputFeeRate(quotedFee)) && Divides(size, executed) && size <= executed
    ensures executed + FeeCharged(executed, chargedFee) > base
    ensures Mul(executed, FEE_PENALTY_MULTIPLIER) <= MAX_U64
    ensures chargedFee <= MAX_TAKER_FEE + MAX_ADDITIONAL_TAKER_FEE ==>
      executed + FeeCharged(executed, chargedFee) <= MAX_U64
  {
    var rate := InputFeeRate(quotedFee);
    var n := CommonSize(size);
    RateIsSmall(quotedFee);
    TightSale(n, chargedFee, rate);
    TimesKeepsOrder(n, rate, 1_250_000);
    TimesKeepsOrder(n, chargedFee, MAX_TAKER_FEE + MAX_ADDITIONAL_TAKER_FEE);
    ChargeExceedsRate(n, chargedFee, rate);
    base, executed := TightBase(n, rate), n * (4 * FLOAT_SCALING);
    MulAtMost(executed, FEE_PENALTY_MULTIPLIER, 12_500_000_000_000_000_000);
  }

  lemma TimesKeepsOrder(n: nat, a: nat, b: nat)
    ensures a <= b ==> n * a <= n * b
  {
  }

  lemma ChargeExceedsRate(n: nat, fee: nat, rate: nat)
    requires n > 0 && 5 * fee > 4 * rate
    ensures 5 * (n * fee) > 4 * (n * rate)
  {
    TimesKeepsOrder(n, 4 * rate + 1, 5 * fee);
    assert n * (5 * fee) == 5 * (n * fee) && n * (4 * rate + 1) == 4 * (n * rate) + n;
  }

  /** Exactly when the charged fee with its quarter on top is no more than the rate that was quoted. */
  lemma SettlementFitsExactlyWhen(quotedFee: nat, chargedFee: nat, lot: u64)
    requires PowerOfTen(lot) && quotedFee <= MAX_TAKER_FEE
    ensures SettlementAlwaysFits(quotedFee, chargedFee, lot) <==> 5 * chargedFee <= 4 * InputFeeRate(quotedFee)
  {
    var rate := InputFeeRate(quotedFee);
    if 5 * chargedFee <= 4 * rate {
      forall base: u64, executed: nat | Divides(lot, executed) && executed <= AskQuantity(base, rate)
        ensures executed + FeeCharged(executed, chargedFee) <= base
      {
        ChargeFits(base, executed, chargedFee, rate);
      }
    } else {
      var base, executed := LargerChargeFallsShort(quotedFee, chargedFee, lot);
    }
  }

  /**
   * Governance admits only multiples of 1000, so the rate is exact: every discounted fee then fits, and any
   * surcharge on top of the quoted fee makes some sale fall short.
   */
  lemma GovernedFeesFit(quotedFee: nat, chargedFee: nat, lot: u64)
    requires PowerOfTen(lot) && quotedFee <= MAX_TAKER_FEE && quotedFee % 1000 == 0
    ensures SettlementAlwaysFits(quotedFee, chargedFee, lot) <==> chargedFee <= quotedFee
  {
    ExactRate(quotedFee);
    SettlementFitsExactlyWhen(quotedFee, chargedFee, lot);
  }

  lemma ExactRate(fee: nat)
    requires fee % 1000 == 0
    ensures 4 * InputFeeRate(fee) == 5 * fee
  {
    var n := fee / 1000;
    assert fee * FEE_PENALTY_MULTIPLIER == (1250 * n) * FLOAT_SCALING;
    MultipleModulo(1250 * n, FLOAT_SCALING);
  }
}
