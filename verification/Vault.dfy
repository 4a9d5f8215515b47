/** The pool's vault, and the settlement of a balance manager against it. */
module Vault {
  import opened MoveTypes
  import opened Balances
  import opened BalanceManager

  /**
   * Settlement nets each leg, pays what is `settled` and collects what is `owed`. It goes through when every pot
   * covers its leg and the manager covers every asset in total.
   */
  ghost predicate CanSettle(pots: Balances, bag: Bag, pair: Pair, settled: Balances, owed: Balances) {
    && pots.Covers(settled.Over(owed))
    && pots.base + owed.Over(settled).base <= MAX_U64
    && pots.quote + owed.Over(settled).quote <= MAX_U64
    && pots.deep + owed.Over(settled).deep <= MAX_U64
    && (forall t :: Balance(bag, t) + settled.Over(owed).Total(pair, t) <= MAX_U64)
    && (forall t :: owed.Over(settled).Total(pair, t) <= Balance(bag, t) + settled.Over(owed).Total(pair, t))
  }

  lemma NettingKeepsTotals(pair: Pair, settled: Balances, owed: Balances, t: TypeName)
    ensures settled.Over(owed).Total(pair, t) - owed.Over(settled).Total(pair, t)
            == settled.Total(pair, t) - owed.Total(pair, t)
  {
  }

  /** Leg by leg, what is settled less what is owed. */
  predicate SameNets(settled: Balances, owed: Balances, settled': Balances, owed': Balances) {
    && settled.base - owed.base == settled'.base - owed'.base
    && settled.quote - owed.quote == settled'.quote - owed'.quote
    && settled.deep - owed.deep == settled'.deep - owed'.deep
  }

  /** Amounts that go both ways in one leg cancel before anything moves: only the nets decide. */
  lemma OnlyNetsDecide(
    pots: Balances, bag: Bag, pair: Pair, settled: Balances, owed: Balances, settled': Balances, owed': Balances)
    requires SameNets(settled, owed, settled', owed')
    ensures CanSettle(pots, bag, pair, settled, owed) <==> CanSettle(pots, bag, pair, settled', owed')
  {
    assert settled.Over(owed) == settled'.Over(owed') && owed.Over(settled) == owed'.Over(settled');
  }

  /** What the three net amounts pay into the manager, asset by asset, before anything is collected. */
  function Gain(pair: Pair, base: int, quote: int, deep: int, t: TypeName): nat {
    (if pair.base == t && base > 0 then base else 0) + (if pair.quote == t && quote > 0 then quote else 0)
    + (if DEEP == t && deep > 0 then deep else 0)
  }

  /**
   * In terms of the three net amounts: each pot must stay within a u64, the manager must have room for what is paid
   * in first, and end with no asset below zero.
   */
  lemma SettlesExactlyWhen(pots: Balances, bag: Bag, pair: Pair, settled: Balances, owed: Balances)
    ensures var base, quote, deep := settled.base - owed.base, settled.quote - owed.quote, settled.deep - owed.deep;
            CanSettle(pots, bag, pair, settled, owed) <==>
            && 0 <= pots.base - base <= MAX_U64 && 0 <= pots.quote - quote <= MAX_U64
            && 0 <= pots.deep - deep <= MAX_U64
            && (forall t :: Balance(bag, t) + Gain(pair, base, quote, deep, t) <= MAX_U64)
            && (forall t :: Balance(bag, t) + settled.Total(pair, t) - owed.Total(pair, t) >= 0)
  {
    var base, quote, deep := settled.base - owed.base, settled.quote - owed.quote, settled.deep - owed.deep;
    forall t
      ensures settled.Over(owed).Total(pair, t) == Gain(pair, base, quote, deep, t)
      ensures owed.Over(settled).Total(pair, t) ==
                Gain(pair, base, quote, deep, t) + owed.Total(pair, t) - settled.Total(pair, t)
    {
      GainIsPaid(pair, settled, owed, t);
    }
    PotsMoveByNets(pots, settled, owed);
  }

  lemma GainIsPaid(pair: Pair, settled: Balances, owed: Balances, t: TypeName)
    ensures settled.Over(owed).Total(pair, t) ==
      Gain(pair, settled.base - owed.base, settled.quote - owed.quote, settled.deep - owed.deep, t)
    ensures owed.Over(settled).Total(pair, t) ==
      settled.Over(owed).Total(pair, t) + owed.Total(pair, t) - settled.Total(pair, t)
  {
    NettingKeepsTotals(pair, settled, owed, t);
  }

  lemma PotsMoveByNets(pots: Balances, settled: Balances, owed: Balances)
    ensures (pots.Covers(settled.Over(owed)) && pots.base + owed.Over(settled).base <= MAX_U64
             && pots.quote + owed.Over(settled).quote <= MAX_U64 && pots.deep + owed.Over(settled).deep <= MAX_U64)
       <==> (0 <= pots.base - (settled.base - owed.base) <= MAX_U64
             && 0 <= pots.quote - (settled.quote - owed.quote) <= MAX_U64
             && 0 <= pots.deep - (settled.deep - owed.deep) <= MAX_U64)
  {
  }

  class Vault {
    var base: u64
    var quote: u64
    var deep: u64

    constructor ()
      ensures Pots() == EMPTY
    {
      base, quote, deep := 0, 0, 0;
    }

    function Pots(): Balances
      reads this
    {
      Balances(base, quote, deep)
    }

    /** Splits a pot and hands the part to the manager, if there is any; returns what is left in the pot. */
    static method Pay(manager: BalanceManager, proof: TradeProof, t: TypeName, pot: u64, amount: u64)
      returns (r: Result<u64>)
      requires proof.balanceManagerId == manager.id
      modifies manager`balances
      ensures r.Ok? <==> amount <= pot && Balance(old(manager.balances), t) + amount <= MAX_U64
      ensures r.Ok? ==> r.value == pot - amount
      ensures r.Ok? ==> forall u ::
        Balance(manager.balances, u) == Balance(old(manager.balances), u) + if u == t then amount else 0
      ensures manager.balances.Keys <= old(manager.balances).Keys + {t}
      ensures r.Abort? ==> manager.balances == old(manager.balances) && r.code != EBagNotEmpty
    {
      if amount == 0 { return Ok(pot); }
      if amount > pot { return Abort(ENotEnough); }
      var paid := manager.DepositWithProof(proof, t, amount);
      if paid.Abort? { return Abort(paid.code); }
      return Ok(pot - amount);
    }

    /** Takes an amount, if there is any, from the manager and joins it to a pot; returns the pot. */
    static method Collect(manager: BalanceManager, proof: TradeProof, t: TypeName, pot: u64, amount: u64)
      returns (r: Result<u64>)
      requires proof.balanceManagerId == manager.id
      modifies manager`balances
      ensures r.Ok? <==> amount <= Balance(old(manager.balances), t) && pot + amount <= MAX_U64
      ensures r.Ok? ==> r.value == pot + amount
      ensures r.Ok? ==> forall u ::
        Balance(manager.balances, u) == Balance(old(manager.balances), u) - if u == t then amount else 0
      ensures manager.balances.Keys <= old(manager.balances).Keys
      ensures r.Abort? ==> manager.balances == old(manager.balances) && r.code != EBagNotEmpty
    {
      if amount == 0 { return Ok(pot); }
      var before := manager.balances;
      var taken := manager.WithdrawWithProof(proof, t, amount, false);
      if taken.Abort? { return Abort(taken.code); }
      if pot + amount > MAX_U64 {
        manager.balances := before;
        return Abort(EArithmetic);
      }
      return Ok(pot + amount);
    }

    static method PayLegs(pots: Balances, due: Balances, pair: Pair, manager: BalanceManager, proof: TradeProof)
      returns (r: Result<Balances>)
      requires proof.balanceManagerId == manager.id
      modifies manager`balances
      ensures r.Ok? <==> pots.Covers(due) &&
                         forall t :: Balance(old(manager.balances), t) + due.Total(pair, t) <= MAX_U64
      ensures r.Ok? ==> r.value == Balances(pots.base - due.base, pots.quote - due.quote, pots.deep - due.deep)
      ensures r.Ok? ==> forall t :: Balance(manager.balances, t) == Balance(old(manager.balances), t) + due.Total(pair, t)
      ensures manager.balances.Keys <= old(manager.balances).Keys + {pair.base, pair.quote, DEEP}
      ensures r.Abort? ==> r.code != EBagNotEmpty
    {
      ghost var held := manager.balances;
      var b := Pay(manager, proof, pair.base, pots.base, due.base);
      if b.Abort? { return Abort(b.code); }
      assert manager.balances.Keys <= held.Keys + {pair.base};
      var q := Pay(manager, proof, pair.quote, pots.quote, due.quote);
      if q.Abort? { return Abort(q.code); }
      assert manager.balances.Keys <= held.Keys + {pair.base, pair.quote};
      var d := Pay(manager, proof, DEEP, pots.deep, due.deep);
      if d.Abort? { return Abort(d.code); }
      r := Ok(Balances(b.value, q.value, d.value));
      assert forall t :: Balance(manager.balances, t) == Balance(held, t) + due.Total(pair, t);
      assert forall t :: Balance(manager.balances, t) <= MAX_U64;
    }

    static method CollectLegs(pots: Balances, due: Balances, pair: Pair, manager: BalanceManager, proof: TradeProof)
      returns (r: Result<Balances>)
      requires proof.balanceManagerId == manager.id
      modifies manager`balances
      ensures r.Ok? <==> && pots.base + due.base <= MAX_U64 && pots.quote + due.quote <= MAX_U64
                         && pots.deep + due.deep <= MAX_U64
                         && forall t :: due.Total(pair, t) <= Balance(old(manager.balances), t)
      ensures r.Ok? ==> r.value == Balances(pots.base + due.base, pots.quote + due.quote, pots.deep + due.deep)
      ensures r.Ok? ==> forall t :: Balance(manager.balances, t) == Balance(old(manager.balances), t) - due.Total(pair, t)
      ensures manager.balances.Keys <= old(manager.balances).Keys
      ensures r.Abort? ==> r.code != EBagNotEmpty
    {
      ghost var held := manager.balances;
      var b := Collect(manager, proof, pair.base, pots.base, due.base);
      if b.Abort? { return Abort(b.code); }
      var q := Collect(manager, proof, pair.quote, pots.quote, due.quote);
      if q.Abort? { return Abort(q.code); }
      var d := Collect(manager, proof, DEEP, pots.deep, due.deep);
      if d.Abort? { return Abort(d.code); }
      r := Ok(Balances(b.value, q.value, d.value));
      assert forall t :: Balance(manager.balances, t) == Balance(held, t) - due.Total(pair, t);
      assert forall t :: Balance(manager.balances, t) >= 0;
    }

    /** First everything the vault owes, then everything it is owed; an abort rolls both objects back. */
    method SettleBalanceManager(
      settled: Balances, owed: Balances, pair: Pair, manager: BalanceManager, proof: TradeProof) returns (r: Result<()>)
      modifies this, manager`balances
      ensures r.Ok? <==> proof.balanceManagerId == manager.id &&
                         CanSettle(old(Pots()), old(manager.balances), pair, settled, owed)
      ensures proof.balanceManagerId != manager.id ==> r == Abort(EInvalidProof)
      ensures r.Ok? ==>
        && base == old(base) - settled.base + owed.base
        && quote == old(quote) - settled.quote + owed.quote
        && deep == old(deep) - settled.deep + owed.deep
      ensures r.Ok? ==> forall t ::
        Balance(manager.balances, t) == Balance(old(manager.balances), t) + settled.Total(pair, t) - owed.Total(pair, t)
      ensures manager.balances.Keys <= old(manager.balances).Keys + {pair.base, pair.quote, DEEP}
      ensures r.Abort? ==> Pots() == old(Pots()) && manager.balances == old(manager.balances) && r.code != EBagNotEmpty
    {
      if proof.balanceManagerId != manager.id { return Abort(EInvalidProof); }
      var before := manager.balances;
      var pots := PayLegs(Pots(), settled.Over(owed), pair, manager, proof);
      if pots.Ok? {
        pots := CollectLegs(pots.value, owed.Over(settled), pair, manager, proof);
      }
      if pots.Abort? {
        manager.balances := before;
        return Abort(pots.code);
      }
      forall t ensures settled.Over(owed).Total(pair, t) - owed.Over(settled).Total(pair, t)
                       == settled.Total(pair, t) - owed.Total(pair, t)
      {
        NettingKeepsTotals(pair, settled, owed, t);
      }
      base, quote, deep := pots.value.base, pots.value.quote, pots.value.deep;
      return Ok(());
    }
  }
}
