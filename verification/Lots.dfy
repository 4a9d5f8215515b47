/** Tick, lot and minimum sizes: how they are created, how an administrator may change them, what stays true. */
module Lots {
  import opened MoveTypes
  import opened AskFees
  import opened FixedPoint

  const SMALLEST_INITIAL_LOT := 1000

  datatype BookParams = BookParams(tick: u64, lot: u64, min: u64)

  function Pow10(k: nat): nat { if k == 0 then 1 else 10 * Pow10(k - 1) }

  ghost predicate PowerOfTen(n: nat) { exists k: nat :: n == Pow10(k) }

  lemma PowerOfTenScales(n: nat)
    requires n > 0
    ensures PowerOfTen(10 * n) <==> PowerOfTen(n)
  {
    if PowerOfTen(n) {
      var k: nat :| n == Pow10(k);
      assert 10 * n == Pow10(k + 1);
    }
    if PowerOfTen(10 * n) {
      var k: nat :| 10 * n == Pow10(k);
      assert n == Pow10(k - 1);
    }
  }

  method IsPowerOfTen(n: u64) returns (yes: bool)
    ensures yes <==> PowerOfTen(n)
  {
    var num := n;
    if num < 1 {
      forall k: nat ensures Pow10(k) > 0 { Pow10Positive(k); }
      return false;
    }
    while num % 10 == 0
      invariant num >= 1
      invariant PowerOfTen(n) <==> PowerOfTen(num)
      decreases num
    {
      PowerOfTenScales(num / 10);
      num := num / 10;
    }
    assert Pow10(0) == 1;
    return num == 1;
  }

  lemma Pow10Positive(k: nat)
    ensures Pow10(k) > 0
  {
  }

  /** The checks of pool creation, in the order they are made. */
  ghost function Created(tick: u64, lot: u64, min: u64): Result<BookParams> {
    if tick == 0 || !PowerOfTen(tick) then Abort(EInvalidTickSize)
    else if lot < SMALLEST_INITIAL_LOT || !PowerOfTen(lot) then Abort(EInvalidLotSize)
    else if min == 0 || min % lot != 0 || !PowerOfTen(min) then Abort(EInvalidMinSize)
    else Ok(BookParams(tick, lot, min))
  }

  /** The checks of an adjustment: the new lot must divide the old one. */
  ghost function Adjusted(p: BookParams, lot: u64, min: u64): Result<BookParams> {
    if lot == 0 || p.lot % lot != 0 || !PowerOfTen(lot) then Abort(EInvalidLotSize)
    else if min == 0 || min % lot != 0 || !PowerOfTen(min) then Abort(EInvalidMinSize)
    else Ok(p.(lot := lot, min := min))
  }

  ghost predicate Sound(p: BookParams) {
    p.lot > 0 && p.min > 0 && PowerOfTen(p.lot) && PowerOfTen(p.min) && p.min % p.lot == 0
  }

  ghost function AdjustedOrSame(p: BookParams, lot: u64, min: u64): BookParams {
    if Adjusted(p, lot, min).Ok? then Adjusted(p, lot, min).value else p
  }

  ghost function AdjustAll(p: BookParams, requests: seq<(u64, u64)>): BookParams
    decreases |requests|
  {
    if requests == [] then p
    else AdjustAll(AdjustedOrSame(p, requests[0].0, requests[0].1), requests[1..])
  }

  lemma AdjustmentIsFiner(p: BookParams, lot: u64, min: u64)
    requires Sound(p)
    ensures Sound(AdjustedOrSame(p, lot, min)) && Divides(AdjustedOrSame(p, lot, min).lot, p.lot)
  {
    if Adjusted(p, lot, min).Abort? { MultipleModulo(1, p.lot); }
  }

  /** A good request sets both sizes and leaves the tick; any other changes nothing. */
  lemma AdjustmentTakesEffectExactlyWhen(p: BookParams, lot: u64, min: u64)
    ensures AdjustedOrSame(p, lot, min) ==
      if lot > 0 && p.lot % lot == 0 && PowerOfTen(lot) && min > 0 && min % lot == 0 && PowerOfTen(min)
      then BookParams(p.tick, lot, min) else p
  {
  }

  /** Any run of adjustments: still sound, and every quantity once aligned to a lot stays aligned. */
  lemma {:induction false} LotsOnlyGetFiner(p: BookParams, requests: seq<(u64, u64)>, quantity: nat)
    requires Sound(p)
    ensures Sound(AdjustAll(p, requests))
    ensures Divides(AdjustAll(p, requests).lot, p.lot)
    ensures Divides(p.lot, quantity) ==> Divides(AdjustAll(p, requests).lot, quantity)
    decreases |requests|
  {
    if requests == [] {
      MultipleModulo(1, p.lot);
    } else {
      AdjustmentIsFiner(p, requests[0].0, requests[0].1);
      var p' := AdjustedOrSame(p, requests[0].0, requests[0].1);
      LotsOnlyGetFiner(p', requests[1..], quantity);
      var lot := AdjustAll(p', requests[1..]).lot;
      DivisibilityChains(p.lot, p'.lot, lot);
      if Divides(p.lot, quantity) { DivisibilityChains(quantity, p.lot, lot); }
    }
  }

  /** Rounding down to the lot never crosses the minimum, so the swap turns back exactly the small inputs. */
  lemma RoundingKeepsTheMinimum(p: BookParams, quantity: nat)
    requires Sound(p)
    ensures RoundToLot(quantity, p.lot) % p.lot == 0
    ensures RoundToLot(quantity, p.lot) >= p.min <==> quantity >= p.min
  {
    var k, m := quantity / p.lot, p.min / p.lot;
    RoundedIsMultiple(quantity, p.lot);
    RoundedIsMultiple(p.min, p.lot);
    DivBounds(quantity, p.lot, k);
    Scale(m, k, p.lot);
    Scale(k + 1, m, p.lot);
  }

  lemma RoundedIsMultiple(quantity: nat, lot: nat)
    requires lot > 0
    ensures RoundToLot(quantity, lot) == quantity / lot * lot
    ensures RoundToLot(quantity, lot) % lot == 0
  {
    assert quantity == quantity / lot * lot + quantity % lot;
    MultipleModulo(quantity / lot, lot);
  }

  /** It is the one multiple of the lot next below. */
  lemma RoundedIsTheMultipleBelow(quantity: nat, lot: nat, q: nat)
    requires Divides(lot, q) && q <= quantity < q + lot
    ensures q == RoundToLot(quantity, lot)
  {
    var k := q / lot;
    assert q == k * lot && q + lot == (k + 1) * lot;
    DivAtLeast(quantity, lot, k);
    DivAtMost(quantity, lot, k);
    RoundedIsMultiple(quantity, lot);
  }

  /** What a pool is created with, and then adjusted to any number of times, is sound. */
  lemma CreatedPoolsStaySound(tick: u64, lot: u64, min: u64, requests: seq<(u64, u64)>)
    requires Created(tick, lot, min).Ok?
    ensures Sound(AdjustAll(Created(tick, lot, min).value, requests))
  {
    LotsOnlyGetFiner(Created(tick, lot, min).value, requests, 0);
  }

  predicate CanPlaceMarketAsk(availableBase: nat, quantity: nat, rate: nat, lot: nat, min: nat)
    requires lot > 0
  {
    quantity >= min && quantity % lot == 0 && availableBase >= RequiredBase(quantity, rate)
  }

  /** A quantity of whole lots can be placed exactly when what is there covers it and the fee on it. */
  lemma PlacementNeedsQuantityAndFee(availableBase: nat, quantity: nat, rate: nat, p: BookParams)
    requires Sound(p)
    ensures CanPlaceMarketAsk(availableBase, quantity, rate, p.lot, p.min) <==>
            Divides(p.lot, quantity) && p.min <= quantity && quantity + Mul(quantity, rate) <= availableBase
  {
    RequiredBaseIsQuantityPlusFee(quantity, rate);
  }

  /** A fee-in-base ask either is too small before rounding, or passes the placement check with its own input. */
  lemma SwapQuantityCanBePlaced(base: nat, rate: nat, p: BookParams)
    requires Sound(p)
    ensures var q := AskQuantity(base, rate);
            CanPlaceMarketAsk(base, RoundToLot(q, p.lot), rate, p.lot, p.min) <==> q >= p.min
  {
    var q := RoundToLot(AskQuantity(base, rate), p.lot);
    RoundingKeepsTheMinimum(p, AskQuantity(base, rate));
    assert Sum([q]) == q + Sum([]);
    AskFitsInput(base, rate, p.lot, [q]);
  }
}
