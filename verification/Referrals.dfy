/** Referral rewards: what a pool keeps for a referral, and what managers are charged for it. */
module Referrals {
  import opened MoveTypes
  import opened FixedPoint
  import opened Balances
  import opened BalanceManager
  import opened AskFees
  import opened OrderFees

  const REFERRAL_MAX_MULTIPLIER: nat := 2_000_000_000
  const REFERRAL_MULTIPLIER: nat := 100_000_000

  datatype Rewards = Rewards(multiplier: u64, pots: Balances)

  type Ledger = map<ID, Rewards>

  predicate GoodMultiplier(multiplier: nat) {
    multiplier <= REFERRAL_MAX_MULTIPLIER && multiplier % REFERRAL_MULTIPLIER == 0
  }

  function Opened(ledger: Ledger, referral: ID, multiplier: u64): Result<Ledger> {
    if !GoodMultiplier(multiplier) then Abort(EInvalidReferralMultiplier)
    else Ok(ledger[referral := Rewards(multiplier, EMPTY)])
  }

  function Updated(ledger: Ledger, referral: PoolReferral, multiplier: u64, sender: Address): Result<Ledger> {
    if sender != referral.owner then Abort(EInvalidReferralOwner)
    else if !GoodMultiplier(multiplier) then Abort(EInvalidReferralMultiplier)
    else if referral.id !in ledger then Abort(EFieldDoesNotExist)
    else Ok(ledger[referral.id := ledger[referral.id].(multiplier := multiplier)])
  }

  /** A claim pays out all three pots of the referral and leaves them empty. */
  function Claimed(ledger: Ledger, referral: PoolReferral, sender: Address): Result<(Ledger, Balances)> {
    if sender != referral.owner then Abort(EInvalidReferralOwner)
    else if referral.id !in ledger then Abort(EFieldDoesNotExist)
    else Ok((ledger[referral.id := Rewards(ledger[referral.id].multiplier, EMPTY)], ledger[referral.id].pots))
  }

  function ReferralFee(paid: PaidFees, rewards: Rewards): nat { Mul(paid.amount, rewards.multiplier) }

  datatype Charge = Charge(ledger: Ledger, manager: Manager, referral: Option<ID>, fee: u64)

  /** The share of the fees that goes from the manager to the referral it has set for this pool. */
  function Processed(ledger: Ledger, pair: Pair, poolId: ID, paid: PaidFees, m: Manager, proof: TradeProof)
    : Result<Charge>
  {
    if poolId !in m.referrals then Ok(Charge(ledger, m, None, 0))
    else
      var referral, leg := m.referrals[poolId], paid.Leg();
      if referral !in ledger then Abort(EFieldDoesNotExist)
      else
        var rewards := ledger[referral];
        var fee := ReferralFee(paid, rewards);
        if fee > MAX_U64 then Abort(EArithmetic)
        else if fee == 0 then Ok(Charge(ledger, m, None, 0))
        else match m.WithdrawnBy(proof, pair.TypeOf(leg), fee, false)
          case Abort(code) => Abort(code)
          case Ok((m', _)) =>
            if rewards.pots.Of(leg) + fee > MAX_U64 then Abort(EArithmetic)
            else
              var pots := rewards.pots.With(leg, rewards.pots.Of(leg) + fee);
              Ok(Charge(ledger[referral := rewards.(pots := pots)], m', Some(referral), fee))
  }

  /**
   * When a charge goes through: no referral is set, or its record is there, the share fits a u64, and a share that
   * is not zero is held by the proof's manager in the asset the flags name and fits the pot.
   */
  ghost predicate CanCharge(ledger: Ledger, pair: Pair, poolId: ID, paid: PaidFees, m: Manager, proof: TradeProof) {
    poolId in m.referrals ==>
      var referral := m.referrals[poolId];
      && referral in ledger
      && var share, pots := Mul(paid.amount, ledger[referral].multiplier), ledger[referral].pots;
         && share <= MAX_U64
         && (share > 0 ==>
               && proof.balanceManagerId == m.id
               && if paid.isDeep then share <= Balance(m.balances, DEEP) && pots.deep + share <= MAX_U64
                  else if paid.isBid then share <= Balance(m.balances, pair.quote) && pots.quote + share <= MAX_U64
                  else share <= Balance(m.balances, pair.base) && pots.base + share <= MAX_U64)
  }

  lemma ChargesExactlyWhen(ledger: Ledger, pair: Pair, poolId: ID, paid: PaidFees, m: Manager, proof: TradeProof)
    ensures Processed(ledger, pair, poolId, paid, m, proof).Ok? <==> CanCharge(ledger, pair, poolId, paid, m, proof)
  {
  }

  /** The reason why a charge does not go through. */
  lemma ChargesAbortBecause(ledger: Ledger, pair: Pair, poolId: ID, paid: PaidFees, m: Manager, proof: TradeProof)
    requires Processed(ledger, pair, poolId, paid, m, proof).Abort?
    ensures poolId in m.referrals
    ensures var code, r := Processed(ledger, pair, poolId, paid, m, proof).code, m.referrals[poolId];
            if r !in ledger then code == EFieldDoesNotExist
            else
              var share := Mul(paid.amount, ledger[r].multiplier);
              var t := if paid.isDeep then DEEP else if paid.isBid then pair.quote else pair.base;
              code == if share > MAX_U64 then EArithmetic
                      else if proof.balanceManagerId != m.id then EInvalidProof
                      else if share > Balance(m.balances, t) then EBalanceManagerBalanceTooLow
                      else EArithmetic
  {
  }

  /** Nothing is created or lost, asset by asset, however the asset types coincide. */
  lemma ChargeConserves(
    ledger: Ledger, pair: Pair, poolId: ID, paid: PaidFees, m: Manager, proof: TradeProof, t: TypeName)
    requires pair.base != pair.quote
    requires Processed(ledger, pair, poolId, paid, m, proof).Ok?
    ensures var c := Processed(ledger, pair, poolId, paid, m, proof).value;
            && (forall r :: r in ledger && c.referral != Some(r) ==> r in c.ledger && c.ledger[r] == ledger[r])
            && (c.referral == None ==> c.ledger == ledger && c.manager == m)
            && (c.referral.Some? ==>
                  && c.referral.value in ledger && c.referral.value in c.ledger
                  && Balance(c.manager.balances, t) + c.ledger[c.referral.value].pots.Total(pair, t)
                     == Balance(m.balances, t) + ledger[c.referral.value].pots.Total(pair, t))
  {
  }

  /** Every pot grows by the multiplier's share of the fees booked in that asset, and by nothing else. */
  lemma ChargeFollowsPaidFees(
    ledger: Ledger, pair: Pair, poolId: ID, paid: PaidFees, m: Manager, proof: TradeProof, leg: Leg)
    requires Processed(ledger, pair, poolId, paid, m, proof).Ok?
    requires poolId in m.referrals && m.referrals[poolId] in ledger
    ensures var c, r := Processed(ledger, pair, poolId, paid, m, proof).value, m.referrals[poolId];
            && r in c.ledger && c.ledger[r].multiplier == ledger[r].multiplier
            && c.ledger[r].pots.Of(leg) == ledger[r].pots.Of(leg) + Mul(paid.AsBalances().Of(leg), ledger[r].multiplier)
  {
    assert Mul(0, ledger[m.referrals[poolId]].multiplier) == 0;
  }

  /**
   * Fees taken in base or quote but booked as DEEP: the referral's share of them is taken in DEEP, and the call
   * aborts for a manager that does not hold it, whatever else it holds.
   */
  lemma MisbookedShareIsTakenInDeep(
    o: TakerOrder, takerFee: u64, ledger: Ledger, pair: Pair, poolId: ID, m: Manager, proof: TradeProof)
    requires o.payWithDeep && o.price.deepPerAsset == 0 && TakerFees(o, takerFee).Ok?
    requires poolId in m.referrals && m.referrals[poolId] in ledger
    ensures var share := Mul(FeeCharged(if o.isBid then o.quote else o.executed, takerFee),
                             ledger[m.referrals[poolId]].multiplier);
            match Processed(ledger, pair, poolId, BookedFees(o, TakerFees(o, takerFee).value), m, proof)
            case Ok(c) =>
              && share <= Balance(m.balances, DEEP)
              && forall t :: Balance(c.manager.balances, t) == Balance(m.balances, t) - if t == DEEP then share else 0
            case Abort(code) =>
              proof.balanceManagerId == m.id ==> code == EBalanceManagerBalanceTooLow || code == EArithmetic
  {
    UnpricedFees(o, takerFee);
  }

  // ---- runs over many pools, managers and referrals

  datatype PoolRewards = PoolRewards(pair: Pair, ledger: Ledger)

  datatype Record =
    | Charged(pool: ID, referral: ID, leg: Leg, amount: u64)
    | Paid(pool: ID, referral: ID, leg: Leg, amount: u64)

  datatype World = World(
    pools: map<ID, PoolRewards>, managers: map<ID, Manager>, referrals: map<ID, PoolReferral>, nextId: ID,
    history: seq<Record>)

  const GENESIS := World(map[], map[], map[], 0, [])

  datatype Op =
    | CreatePool(pair: Pair)
    | CreateManager(owner: Address)
    | MintReferral(pool: ID, multiplier: u64, sender: Address)
    | UpdateMultiplier(pool: ID, referral: ID, multiplier: u64, sender: Address)
    | Claim(pool: ID, referral: ID, sender: Address)
    | SetReferral(manager: ID, referral: ID, cap: TraderCap)
    | UnsetReferral(manager: ID, pool: ID, cap: TraderCap)
    | Process(pool: ID, manager: ID, paid: PaidFees, proof: TradeProof)
    | TouchManager(manager: ID, balances: Bag, allowListed: set<ID>)

  /** The objects an operation names exist. */
  predicate Names(w: World, op: Op) {
    match op
    case MintReferral(pool, _, _) => pool in w.pools
    case UpdateMultiplier(pool, referral, _, _) => pool in w.pools && referral in w.referrals
    case Claim(pool, referral, _) => pool in w.pools && referral in w.referrals
    case SetReferral(manager, referral, _) => manager in w.managers && referral in w.referrals
    case UnsetReferral(manager, _, _) => manager in w.managers
    case Process(pool, manager, _, _) => pool in w.pools && manager in w.managers
    case TouchManager(manager, _, _) => manager in w.managers
    case _ => true
  }

  function WithLedger(w: World, pool: ID, ledger: Ledger): World
    requires pool in w.pools
  {
    w.(pools := w.pools[pool := w.pools[pool].(ledger := ledger)])
  }

  function WithManager(w: World, manager: ID, m: Manager): World { w.(managers := w.managers[manager := m]) }

  function Attempt(w: World, op: Op): Result<World>
    requires Names(w, op)
  {
    match op
    case CreatePool(pair) => Ok(w.(pools := w.pools[w.nextId := PoolRewards(pair, map[])], nextId := w.nextId + 1))
    case CreateManager(owner) => Ok(WithManager(w, w.nextId, NewManager(w.nextId, owner)).(nextId := w.nextId + 1))
    case MintReferral(pool, multiplier, sender) =>
      (match Opened(w.pools[pool].ledger, w.nextId, multiplier)
       case Abort(code) => Abort(code)
       case Ok(ledger) =>
         Ok(WithLedger(w, pool, ledger)
              .(referrals := w.referrals[w.nextId := PoolReferral(w.nextId, sender, pool)], nextId := w.nextId + 1)))
    case UpdateMultiplier(pool, referral, multiplier, sender) =>
      (match Updated(w.pools[pool].ledger, w.referrals[referral], multiplier, sender)
       case Abort(code) => Abort(code)
       case Ok(ledger) => Ok(WithLedger(w, pool, ledger)))
    case Claim(pool, referral, sender) =>
      (match Claimed(w.pools[pool].ledger, w.referrals[referral], sender)
       case Abort(code) => Abort(code)
       case Ok((ledger, paid)) =>
         var payments := Payments(pool, w.referrals[referral].id, paid);
         Ok(WithLedger(w, pool, ledger).(history := w.history + payments)))
    case SetReferral(manager, referral, cap) =>
      (match w.managers[manager].WithReferral(w.referrals[referral], cap)
       case Abort(code) => Abort(code)
       case Ok(m) => Ok(WithManager(w, manager, m)))
    case UnsetReferral(manager, pool, cap) =>
      (match w.managers[manager].WithoutReferral(pool, cap)
       case Abort(code) => Abort(code)
       case Ok(m) => Ok(WithManager(w, manager, m)))
    case Process(pool, manager, paid, proof) =>
      (match Processed(w.pools[pool].ledger, w.pools[pool].pair, pool, paid, w.managers[manager], proof)
       case Abort(code) => Abort(code)
       case Ok(c) =>
         var charged := ChargeRecords(pool, paid, c);
         Ok(WithManager(WithLedger(w, pool, c.ledger), manager, c.manager).(history := w.history + charged)))
    case TouchManager(manager, balances, allowListed) =>
      Ok(WithManager(w, manager, w.managers[manager].(balances := balances, allowListed := allowListed)))
  }

  function Payments(pool: ID, referral: ID, paid: Balances): seq<Record> {
    [Paid(pool, referral, BaseLeg, paid.base), Paid(pool, referral, QuoteLeg, paid.quote),
     Paid(pool, referral, DeepLeg, paid.deep)]
  }

  function Next(w: World, op: Op): World {
    if !Names(w, op) then w else match Attempt(w, op) case Ok(w') => w' case Abort(_) => w
  }

  function Run(w: World, ops: seq<Op>): World
    decreases |ops|
  {
    if ops == [] then w else Run(Next(w, ops[0]), ops[1..])
  }

  /** Charged so far minus paid out so far. */
  function Net(history: seq<Record>, pool: ID, referral: ID, leg: Leg): int {
    if history == [] then 0
    else
      var last := history[|history| - 1];
      Net(history[..|history| - 1], pool, referral, leg) +
      if last == Charged(pool, referral, leg, last.amount) then last.amount
      else if last == Paid(pool, referral, leg, last.amount) then -(last.amount as int)
      else 0
  }

  ghost predicate HasRewards(w: World, pool: ID, referral: ID) { pool in w.pools && referral in w.pools[pool].ledger }

  ghost predicate IdsAreOld(w: World) {
    && (forall p :: p in w.pools ==> p < w.nextId)
    && (forall m :: m in w.managers ==> m < w.nextId)
  }

  ghost predicate Linked(w: World) {
    && IdsAreOld(w)
    && (forall p: ID, r: ID :: HasRewards(w, p, r) ==> r < w.nextId)
    && (forall r :: r in w.referrals ==>
          r < w.nextId && w.referrals[r].id == r && HasRewards(w, w.referrals[r].poolId, r))
    && (forall m, p :: m in w.managers && p in w.managers[m].referrals ==> HasRewards(w, p, w.managers[m].referrals[p]))
    && (forall p: ID, r: ID :: HasRewards(w, p, r) ==> GoodMultiplier(w.pools[p].ledger[r].multiplier))
  }

  /** The record's pot holds what the history says; where there is no record there is no history. */
  ghost predicate BalancedAt(w: World, p: ID, r: ID, leg: Leg) {
    Net(w.history, p, r, leg) == if HasRewards(w, p, r) then w.pools[p].ledger[r].pots.Of(leg) else 0
  }

  ghost predicate Balanced(w: World) { forall p: ID, r: ID, leg :: BalancedAt(w, p, r, leg) }

  lemma RecordsStay(w: World, op: Op, p: ID, r: ID)
    requires Linked(w)
    ensures HasRewards(w, p, r) ==> HasRewards(Next(w, op), p, r)
    ensures HasRewards(Next(w, op), p, r) ==>
      HasRewards(w, p, r) || (op.MintReferral? && p == op.pool && r == w.nextId && w.nextId < Next(w, op).nextId)
  {
  }

  lemma ReferralsStayLinked(w: World, op: Op, r: ID)
    requires Linked(w) && r in Next(w, op).referrals
    ensures var w' := Next(w, op);
            r < w'.nextId && w'.referrals[r].id == r && HasRewards(w', w'.referrals[r].poolId, r)
  {
    if r in w.referrals { RecordsStay(w, op, w.referrals[r].poolId, r); }
  }

  /** Only setting and unsetting touch the referral fields of a manager. */
  lemma ReferralFieldsStay(w: World, op: Op, m: ID)
    requires Linked(w) && m in Next(w, op).managers && !op.SetReferral? && !op.UnsetReferral?
    ensures Next(w, op).managers[m].referrals == if m in w.managers then w.managers[m].referrals else map[]
  {
  }

  lemma ManagersStayLinked(w: World, op: Op, m: ID, p: ID)
    requires Linked(w) && m in Next(w, op).managers && p in Next(w, op).managers[m].referrals
    ensures HasRewards(Next(w, op), p, Next(w, op).managers[m].referrals[p])
  {
    var r := Next(w, op).managers[m].referrals[p];
    RecordsStay(w, op, p, r);
    if op.SetReferral? || op.UnsetReferral? {
      SetReferralLinks(w, op, m, p);
    } else {
      ReferralFieldsStay(w, op, m);
      assert HasRewards(w, p, r);
    }
  }

  lemma SetReferralLinks(w: World, op: Op, m: ID, p: ID)
    requires Linked(w) && (op.SetReferral? || op.UnsetReferral?)
    requires m in Next(w, op).managers && p in Next(w, op).managers[m].referrals
    ensures HasRewards(w, p, Next(w, op).managers[m].referrals[p])
  {
  }

  lemma MultiplierStaysGood(w: World, op: Op, p: ID, r: ID)
    requires Linked(w) && HasRewards(Next(w, op), p, r)
    ensures p < Next(w, op).nextId && r < Next(w, op).nextId
    ensures GoodMultiplier(Next(w, op).pools[p].ledger[r].multiplier)
  {
    RecordsStay(w, op, p, r);
  }

  lemma IdsStayOld(w: World, op: Op)
    requires IdsAreOld(w)
    ensures IdsAreOld(Next(w, op))
  {
  }

  lemma NextLinked(w: World, op: Op)
    requires Linked(w)
    ensures Linked(Next(w, op))
  {
    var w' := Next(w, op);
    IdsStayOld(w, op);
    forall p: ID, r: ID | HasRewards(w', p, r)
      ensures r < w'.nextId && GoodMultiplier(w'.pools[p].ledger[r].multiplier)
    {
      MultiplierStaysGood(w, op, p, r);
    }
    forall r | r in w'.referrals
      ensures r < w'.nextId && w'.referrals[r].id == r && HasRewards(w', w'.referrals[r].poolId, r)
    {
      ReferralsStayLinked(w, op, r);
    }
    forall m, p | m in w'.managers && p in w'.managers[m].referrals
      ensures HasRewards(w', p, w'.managers[m].referrals[p])
    {
      ManagersStayLinked(w, op, m, p);
    }
  }

  lemma NetStep(history: seq<Record>, e: Record, pool: ID, referral: ID, leg: Leg)
    ensures Net(history + [e], pool, referral, leg) == Net(history, pool, referral, leg) +
      if e == Charged(pool, referral, leg, e.amount) then e.amount as int
      else if e == Paid(pool, referral, leg, e.amount) then -(e.amount as int)
      else 0
  {
    assert (history + [e])[..|history|] == history;
  }

  lemma NetPayments(history: seq<Record>, p: ID, r: ID, paid: Balances, pool: ID, referral: ID, leg: Leg)
    ensures Net(history + Payments(p, r, paid), pool, referral, leg) ==
      Net(history, pool, referral, leg) - if p == pool && r == referral then paid.Of(leg) else 0
  {
    var all := Payments(p, r, paid);
    assert history + all == history + [all[0]] + [all[1]] + [all[2]];
    NetStep(history, all[0], pool, referral, leg);
    NetStep(history + [all[0]], all[1], pool, referral, leg);
    NetStep(history + [all[0]] + [all[1]], all[2], pool, referral, leg);
  }

  lemma UntouchedHistory(w: World, op: Op, p: ID, r: ID, leg: Leg)
    requires Linked(w) && Balanced(w) && !op.Claim? && !op.Process?
    ensures BalancedAt(Next(w, op), p, r, leg)
  {
    assert BalancedAt(w, p, r, leg);
    RecordsStay(w, op, p, r);
  }

  lemma ClaimBalanced(w: World, op: Op, p: ID, r: ID, leg: Leg)
    requires Linked(w) && Balanced(w) && op.Claim?
    ensures BalancedAt(Next(w, op), p, r, leg)
  {
    assert BalancedAt(w, p, r, leg);
    if Next(w, op) != w {
      var referral := w.referrals[op.referral];
      NetPayments(w.history, op.pool, referral.id, w.pools[op.pool].ledger[referral.id].pots, p, r, leg);
    }
  }

  /** A charge adds its fee to one pot of one record. */
  lemma ChargeMovesOnePot(
    ledger: Ledger, pair: Pair, poolId: ID, paid: PaidFees, m: Manager, proof: TradeProof, r: ID, leg: Leg)
    requires Processed(ledger, pair, poolId, paid, m, proof).Ok?
    ensures var c := Processed(ledger, pair, poolId, paid, m, proof).value;
            && (r in c.ledger <==> r in ledger)
            && (c.referral == Some(r) ==> r in ledger)
            && (r in ledger ==>
                  c.ledger[r].pots.Of(leg) - ledger[r].pots.Of(leg)
                  == if c.referral == Some(r) && leg == paid.Leg() then c.fee else 0)
  {
  }

  function ChargeRecords(pool: ID, paid: PaidFees, c: Charge): seq<Record> {
    if c.referral.None? then [] else [Charged(pool, c.referral.value, paid.Leg(), c.fee)]
  }

  lemma NetCharge(history: seq<Record>, pool: ID, paid: PaidFees, c: Charge, p: ID, r: ID, leg: Leg)
    ensures Net(history + ChargeRecords(pool, paid, c), p, r, leg) ==
      Net(history, p, r, leg) + if pool == p && c.referral == Some(r) && leg == paid.Leg() then c.fee else 0
  {
    if c.referral.None? {
      assert history + [] == history;
    } else {
      NetStep(history, Charged(pool, c.referral.value, paid.Leg(), c.fee), p, r, leg);
    }
  }

  lemma ProcessBalanced(w: World, op: Op, p: ID, r: ID, leg: Leg)
    requires Balanced(w) && op.Process?
    ensures BalancedAt(Next(w, op), p, r, leg)
  {
    assert BalancedAt(w, p, r, leg);
    if Names(w, op) && Attempt(w, op).Ok? {
      var pool, m := w.pools[op.pool], w.managers[op.manager];
      ChargeMovesOnePot(pool.ledger, pool.pair, op.pool, op.paid, m, op.proof, r, leg);
      NetCharge(w.history, op.pool, op.paid,
        Processed(pool.ledger, pool.pair, op.pool, op.paid, m, op.proof).value, p, r, leg);
    }
  }

  lemma NextBalanced(w: World, op: Op)
    requires Linked(w) && Balanced(w)
    ensures Balanced(Next(w, op))
  {
    forall p: ID, r: ID, leg: Leg ensures BalancedAt(Next(w, op), p, r, leg) {
      if op.Claim? { ClaimBalanced(w, op, p, r, leg); }
      else if op.Process? { ProcessBalanced(w, op, p, r, leg); }
      else { UntouchedHistory(w, op, p, r, leg); }
    }
  }

  lemma {:induction false} RunKeeps(w: World, ops: seq<Op>)
    requires Linked(w) && Balanced(w)
    ensures Linked(Run(w, ops)) && Balanced(Run(w, ops))
    decreases |ops|
  {
    if ops != [] {
      NextLinked(w, ops[0]);
      NextBalanced(w, ops[0]);
      RunKeeps(Next(w, ops[0]), ops[1..]);
    }
  }

  /** In every run each pot holds exactly what managers were charged for it, less what was claimed from it. */
  lemma RewardsAreChargesLessClaims(ops: seq<Op>, pool: ID, referral: ID, leg: Leg)
    ensures var w := Run(GENESIS, ops);
            Net(w.history, pool, referral, leg) ==
              if HasRewards(w, pool, referral) then w.pools[pool].ledger[referral].pots.Of(leg) else 0
  {
    RunKeeps(GENESIS, ops);
    assert BalancedAt(Run(GENESIS, ops), pool, referral, leg);
  }

  /** When a call succeeds, in terms of who calls and what is there. */
  ghost predicate Allowed(w: World, op: Op)
    requires Names(w, op)
  {
    match op
    case MintReferral(_, multiplier, _) => multiplier <= 2_000_000_000 && multiplier % 100_000_000 == 0
    case UpdateMultiplier(pool, referral, multiplier, sender) =>
      && sender == w.referrals[referral].owner && w.referrals[referral].poolId == pool
      && multiplier <= 2_000_000_000 && multiplier % 100_000_000 == 0
    case Claim(pool, referral, sender) => sender == w.referrals[referral].owner && w.referrals[referral].poolId == pool
    case SetReferral(manager, _, cap) => cap.id in w.managers[manager].allowListed
    case UnsetReferral(manager, _, cap) => cap.id in w.managers[manager].allowListed
    case Process(pool, manager, paid, proof) =>
      CanCharge(w.pools[pool].ledger, w.pools[pool].pair, pool, paid, w.managers[manager], proof)
    case _ => true
  }

  /** A record is in one pool only: the one its referral names. */
  ghost predicate Unshared(w: World) {
    forall p: ID, r: ID :: HasRewards(w, p, r) ==> r in w.referrals && w.referrals[r].poolId == p
  }

  lemma NextUnshared(w: World, op: Op)
    requires Linked(w) && Unshared(w)
    ensures Unshared(Next(w, op))
  {
    forall p: ID, r: ID | HasRewards(Next(w, op), p, r)
      ensures r in Next(w, op).referrals && Next(w, op).referrals[r].poolId == p
    {
      RecordsStay(w, op, p, r);
      ReferralsAreFixed(w, op, r);
    }
  }

  lemma ReferralsAreFixed(w: World, op: Op, r: ID)
    requires Linked(w)
    ensures r in w.referrals ==> r in Next(w, op).referrals && Next(w, op).referrals[r] == w.referrals[r]
    ensures op.MintReferral? && Next(w, op) != w ==>
      w.nextId in Next(w, op).referrals && Next(w, op).referrals[w.nextId] == PoolReferral(w.nextId, op.sender, op.pool)
  {
  }

  lemma {:induction false} RunUnshared(w: World, ops: seq<Op>)
    requires Linked(w) && Unshared(w)
    ensures Unshared(Run(w, ops))
    decreases |ops|
  {
    if ops != [] {
      NextLinked(w, ops[0]);
      NextUnshared(w, ops[0]);
      RunUnshared(Next(w, ops[0]), ops[1..]);
    }
  }

  /** In every run: owners alone set multipliers and claim, in their referral's own pool, and nothing else stops them. */
  lemma CallsSucceedExactlyWhen(ops: seq<Op>, op: Op)
    requires Names(Run(GENESIS, ops), op)
    ensures Attempt(Run(GENESIS, ops), op).Ok? <==> Allowed(Run(GENESIS, ops), op)
  {
    var w := Run(GENESIS, ops);
    RunKeeps(GENESIS, ops);
    RunUnshared(GENESIS, ops);
    CallSucceeds(w, op);
  }

  lemma CallSucceeds(w: World, op: Op)
    requires Linked(w) && Unshared(w) && Names(w, op)
    ensures Attempt(w, op).Ok? <==> Allowed(w, op)
  {
    if op.Process? {
      ChargesExactlyWhen(w.pools[op.pool].ledger, w.pools[op.pool].pair, op.pool, op.paid, w.managers[op.manager],
        op.proof);
    }
    if op.UpdateMultiplier? || op.Claim? {
      var r := w.referrals[op.referral];
      assert HasRewards(w, op.pool, r.id) <==> r.poolId == op.pool;
    }
  }

  /** What a call that succeeds does, apart from charges. */
  lemma CallsTakeEffect(w: World, op: Op)
    requires Linked(w) && Names(w, op) && Attempt(w, op).Ok?
    ensures var w' := Next(w, op);
            match op
            case MintReferral(pool, multiplier, sender) =>
              && w'.referrals == w.referrals[w.nextId := PoolReferral(w.nextId, sender, pool)]
              && HasRewards(w', pool, w.nextId)
              && w'.pools[pool].ledger[w.nextId] == Rewards(multiplier, Balances(0, 0, 0))
            case UpdateMultiplier(pool, referral, multiplier, _) =>
              && HasRewards(w, pool, referral) && HasRewards(w', pool, referral)
              && w'.pools[pool].ledger[referral] == Rewards(multiplier, w.pools[pool].ledger[referral].pots)
            case Claim(pool, referral, _) =>
              && HasRewards(w, pool, referral) && HasRewards(w', pool, referral)
              && var record := w.pools[pool].ledger[referral];
                 && w'.pools[pool].ledger[referral] == Rewards(record.multiplier, Balances(0, 0, 0))
                 && w'.history == w.history + [
                      Paid(pool, referral, BaseLeg, record.pots.base), Paid(pool, referral, QuoteLeg, record.pots.quote),
                      Paid(pool, referral, DeepLeg, record.pots.deep)]
            case SetReferral(manager, referral, _) =>
              w'.managers == w.managers[manager := w.managers[manager].(referrals :=
                w.managers[manager].referrals[w.referrals[referral].poolId := referral])]
            case UnsetReferral(manager, pool, _) =>
              w'.managers == w.managers[manager := w.managers[manager].(referrals :=
                w.managers[manager].referrals - {pool})]
            case CreatePool(pair) => w'.pools == w.pools[w.nextId := PoolRewards(pair, map[])]
            case CreateManager(owner) => w'.managers == w.managers[w.nextId := Manager(w.nextId, owner, map[], {}, map[])]
            case TouchManager(manager, balances, _) =>
              manager in w'.managers && w'.managers[manager].balances == balances
            case Process(_, _, _, _) => true
  {
  }

  /** A charge that succeeds is recorded with the referral's share of the fees, if that is not zero. */
  lemma ChargesTakeEffect(w: World, op: Op)
    requires Linked(w) && Names(w, op) && op.Process? && Attempt(w, op).Ok?
    ensures var w', m := Next(w, op), w.managers[op.manager];
            if op.pool !in m.referrals then w'.history == w.history
            else
              && HasRewards(w, op.pool, m.referrals[op.pool])
              && var share := Mul(op.paid.amount, w.pools[op.pool].ledger[m.referrals[op.pool]].multiplier);
                 && share <= MAX_U64
                 && w'.history == w.history + if share == 0 then []
                      else [Charged(op.pool, m.referrals[op.pool],
                              if op.paid.isDeep then DeepLeg else if op.paid.isBid then QuoteLeg else BaseLeg, share)]
  {
  }

  /** A referral a manager has set for a pool always has its record there, so charging never misses it. */
  lemma ReferralLookupNeverAborts(ops: seq<Op>, pool: ID, manager: ID, paid: PaidFees, proof: TradeProof)
    requires pool in Run(GENESIS, ops).pools && manager in Run(GENESIS, ops).managers
    ensures var w := Run(GENESIS, ops);
            && Attempt(w, Process(pool, manager, paid, proof)) != Abort(EFieldDoesNotExist)
            && (pool in w.managers[manager].referrals ==> HasRewards(w, pool, w.managers[manager].referrals[pool]))
  {
    RunKeeps(GENESIS, ops);
    var w := Run(GENESIS, ops);
    assert pool in w.managers[manager].referrals ==> HasRewards(w, pool, w.managers[manager].referrals[pool]);
  }

  /** Multipliers never leave their range, whoever updates what. */
  lemma MultipliersStayGood(ops: seq<Op>, pool: ID, referral: ID)
    requires HasRewards(Run(GENESIS, ops), pool, referral)
    ensures var multiplier := Run(GENESIS, ops).pools[pool].ledger[referral].multiplier;
            multiplier <= 2_000_000_000 && multiplier % 100_000_000 == 0
  {
    RunKeeps(GENESIS, ops);
  }
}
