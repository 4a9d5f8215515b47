/** A balance manager: its bag of balances, its allow-list of capabilities, and its referral fields. */
module BalanceManager {
  import opened MoveTypes

  const MAX_TRADE_CAPS := 1000

  datatype CapKind = TradeCap | DepositCap | WithdrawCap
  datatype Cap = Cap(kind: CapKind, id: ID, balanceManagerId: ID)
  /** Capabilities of one kind, where the signature asks for it. */
  type TraderCap = cap: Cap | cap.kind == TradeCap witness Cap(TradeCap, 0, 0)
  type WithdrawerCap = cap: Cap | cap.kind == WithdrawCap witness Cap(WithdrawCap, 0, 0)

  datatype TradeProof = TradeProof(balanceManagerId: ID, trader: Address)
  datatype PoolReferral = PoolReferral(id: ID, owner: Address, poolId: ID)

  /** Asset balances by type; a missing key stands for zero, but a zero may also be stored. */
  type Bag = map<TypeName, u64>

  function Balance(bag: Bag, t: TypeName): u64 { if t in bag then bag[t] else 0 }

  function Join(bag: Bag, t: TypeName, amount: u64): Result<Bag> {
    if Balance(bag, t) + amount > MAX_U64 then Abort(EArithmetic) else Ok(bag[t := Balance(bag, t) + amount])
  }

  /** Taking everything there is removes the key; `all` takes everything whatever the amount. */
  function Split(bag: Bag, t: TypeName, amount: u64, all: bool): Result<(Bag, u64)> {
    var held := Balance(bag, t);
    var taken := if all then held else amount;
    if taken > held then Abort(EBalanceManagerBalanceTooLow)
    else Ok((if taken == held then bag - {t} else bag[t := held - taken], taken))
  }

  datatype Manager = Manager(id: ID, owner: Address, balances: Bag, allowListed: set<ID>, referrals: map<ID, ID>) {
    function DepositedBy(proof: TradeProof, t: TypeName, amount: u64): Result<Manager> {
      if proof.balanceManagerId != id then Abort(EInvalidProof) else Deposited(t, amount)
    }

    function Deposited(t: TypeName, amount: u64): Result<Manager> {
      match Join(balances, t, amount)
      case Ok(bag) => Ok(this.(balances := bag))
      case Abort(code) => Abort(code)
    }

    function WithdrawnBy(proof: TradeProof, t: TypeName, amount: u64, all: bool): Result<(Manager, u64)> {
      if proof.balanceManagerId != id then Abort(EInvalidProof)
      else match Split(balances, t, amount, all)
        case Ok((bag, taken)) => Ok((this.(balances := bag), taken))
        case Abort(code) => Abort(code)
    }

    predicate Validates(cap: Cap) { cap.id in allowListed }

    function ProofAsOwner(sender: Address): Result<TradeProof> {
      if sender == owner then Ok(TradeProof(id, sender)) else Abort(EInvalidOwner)
    }

    function ProofWithCap(cap: Cap, sender: Address): Result<TradeProof> {
      if Validates(cap) then Ok(TradeProof(id, sender)) else Abort(EInvalidTrader)
    }

    function Minted(sender: Address, capId: ID): Result<Manager> {
      if sender != owner then Abort(EInvalidOwner) else MintedInternal(capId)
    }

    function MintedInternal(capId: ID): Result<Manager> {
      if |allowListed| >= MAX_TRADE_CAPS then Abort(EMaxCapsReached)
      else Ok(this.(allowListed := allowListed + {capId}))
    }

    function Revoked(sender: Address, capId: ID): Result<Manager> {
      if sender != owner then Abort(EInvalidOwner)
      else if capId !in allowListed then Abort(ECapNotInList)
      else Ok(this.(allowListed := allowListed - {capId}))
    }

    function WithReferral(referral: PoolReferral, cap: TraderCap): Result<Manager> {
      if !Validates(cap) then Abort(EInvalidTrader)
      else Ok(this.(referrals := referrals[referral.poolId := referral.id]))
    }

    function WithoutReferral(poolId: ID, cap: TraderCap): Result<Manager> {
      if !Validates(cap) then Abort(EInvalidTrader) else Ok(this.(referrals := referrals - {poolId}))
    }
  }

  function NewManager(id: ID, owner: Address): Manager { Manager(id, owner, map[], {}, map[]) }

  /** The result a method reports when its new state is `m`. */
  function Reported<T, U>(m: Result<T>, value: U): Result<U> {
    match m
    case Ok(_) => Ok(value)
    case Abort(code) => Abort(code)
  }

  /** The shared object. An aborting call leaves it as it was. */
  class BalanceManager {
    const id: ID
    const owner: Address
    var balances: Bag
    var allowListed: set<ID>
    var referrals: map<ID, ID>

    function Abs(): Manager
      reads this
    {
      Manager(id, owner, balances, allowListed, referrals)
    }

    constructor (id: ID, owner: Address)
      ensures Abs() == NewManager(id, owner)
      ensures this.id == id && this.owner == owner && balances == map[] && allowListed == {} && referrals == map[]
    {
      this.id := id;
      this.owner := owner;
      this.balances := map[];
      this.allowListed := {};
      this.referrals := map[];
    }

    method BalanceOf(t: TypeName) returns (value: u64)
      ensures value == Balance(balances, t)
    {
      if t !in balances { return 0; }
      return balances[t];
    }

    method DepositPermissionless(t: TypeName, amount: u64) returns (r: Result<()>)
      modifies this`balances
      ensures r == Reported(old(Abs()).Deposited(t, amount), ())
      ensures Abs() == if r.Ok? then old(Abs()).Deposited(t, amount).value else old(Abs())
      ensures r.Ok? <==> Balance(old(balances), t) + amount <= MAX_U64
      ensures balances == if r.Ok? then old(balances)[t := Balance(old(balances), t) + amount] else old(balances)
    {
      if t in balances {
        if balances[t] + amount > MAX_U64 { return Abort(EArithmetic); }
        balances := balances[t := balances[t] + amount];
      } else {
        balances := balances[t := amount];
      }
      return Ok(());
    }

    method DepositWithProof(proof: TradeProof, t: TypeName, amount: u64) returns (r: Result<()>)
      modifies this`balances
      ensures r == Reported(old(Abs()).DepositedBy(proof, t, amount), ())
      ensures Abs() == if r.Ok? then old(Abs()).DepositedBy(proof, t, amount).value else old(Abs())
      ensures r.Ok? <==> proof.balanceManagerId == id && Balance(old(balances), t) + amount <= MAX_U64
      ensures r.Abort? ==> r.code == if proof.balanceManagerId == id then EArithmetic else EInvalidProof
      ensures balances == if r.Ok? then old(balances)[t := Balance(old(balances), t) + amount] else old(balances)
    {
      if proof.balanceManagerId != id { return Abort(EInvalidProof); }
      r := DepositPermissionless(t, amount);
    }

    /** The bag is changed in steps on a scratch copy, which an abort discards. */
    method WithdrawWithProof(proof: TradeProof, t: TypeName, amount: u64, all: bool) returns (r: Result<u64>)
      modifies this`balances
      ensures var expected := old(Abs()).WithdrawnBy(proof, t, amount, all);
              && (expected.Ok? ==> r == Ok(expected.value.1) && Abs() == expected.value.0)
              && (expected.Abort? ==> r == Abort(expected.code) && Abs() == old(Abs()))
      ensures r.Ok? <==> proof.balanceManagerId == id && (all || amount <= Balance(old(balances), t))
      ensures r.Abort? ==> r.code == if proof.balanceManagerId == id then EBalanceManagerBalanceTooLow else EInvalidProof
      ensures r.Ok? ==> r.value == if all then Balance(old(balances), t) else amount
      ensures r.Ok? ==> Balance(balances, t) == Balance(old(balances), t) - r.value
      ensures r.Ok? ==> (t in balances <==> Balance(balances, t) > 0) && balances - {t} == old(balances) - {t}
    {
      if proof.balanceManagerId != id { return Abort(EInvalidProof); }
      var bag := balances;
      if t !in bag { bag := bag[t := 0]; }
      if all {
        r := Ok(bag[t]);
        bag := bag - {t};
      } else {
        var held := bag[t];
        if held < amount { return Abort(EBalanceManagerBalanceTooLow); }
        if amount == held {
          bag := bag - {t};
        } else {
          bag := bag[t := held - amount];
        }
        r := Ok(amount);
      }
      assert bag == Split(balances, t, amount, all).value.0;
      balances := bag;
    }

    method GenerateProofAsOwner(sender: Address) returns (r: Result<TradeProof>)
      ensures r == Abs().ProofAsOwner(sender)
      ensures r == if sender == owner then Ok(TradeProof(id, sender)) else Abort(EInvalidOwner)
    {
      if sender != owner { return Abort(EInvalidOwner); }
      return Ok(TradeProof(id, sender));
    }

    /** As trader, depositor or withdrawer: the three checks look at the one allow-list. */
    method GenerateProofWithCap(cap: Cap, sender: Address) returns (r: Result<TradeProof>)
      ensures r == Abs().ProofWithCap(cap, sender)
      ensures r == if cap.id in allowListed then Ok(TradeProof(id, sender)) else Abort(EInvalidTrader)
    {
      if cap.id !in allowListed { return Abort(EInvalidTrader); }
      return Ok(TradeProof(id, sender));
    }

    method Deposit(t: TypeName, amount: u64, sender: Address) returns (r: Result<()>)
      modifies this`balances
      ensures sender != owner ==> r == Abort(EInvalidOwner) && Abs() == old(Abs())
      ensures sender == owner ==>
        && r == Reported(old(Abs()).Deposited(t, amount), ())
        && Abs() == if r.Ok? then old(Abs()).Deposited(t, amount).value else old(Abs())
    {
      var proof := GenerateProofAsOwner(sender);
      if proof.Abort? { return Abort(proof.code); }
      r := DepositWithProof(proof.value, t, amount);
    }

    method WithdrawAll(t: TypeName, sender: Address) returns (r: Result<u64>)
      modifies this`balances
      ensures sender != owner ==> r == Abort(EInvalidOwner) && Abs() == old(Abs())
      ensures sender == owner ==> r == Ok(Balance(old(balances), t)) && balances == old(balances) - {t}
    {
      var proof := GenerateProofAsOwner(sender);
      if proof.Abort? { return Abort(proof.code); }
      r := WithdrawWithProof(proof.value, t, 0, true);
    }

    method WithdrawWithCap(cap: WithdrawerCap, t: TypeName, amount: u64, sender: Address) returns (r: Result<u64>)
      modifies this`balances
      ensures cap.id !in allowListed ==> r == Abort(EInvalidTrader) && Abs() == old(Abs())
      ensures cap.id in allowListed && amount > Balance(old(balances), t) ==>
        r == Abort(EBalanceManagerBalanceTooLow) && Abs() == old(Abs())
      ensures cap.id in allowListed && amount <= Balance(old(balances), t) ==>
        && r == Ok(amount) && Balance(balances, t) == Balance(old(balances), t) - amount
        && (t in balances <==> Balance(balances, t) > 0) && balances - {t} == old(balances) - {t}
    {
      var proof := GenerateProofWithCap(cap, sender);
      if proof.Abort? { return Abort(proof.code); }
      r := WithdrawWithProof(proof.value, t, amount, false);
    }

    /** Only the owner mints, and only below the bound. `capId` is the id of the new capability object. */
    method Mint(kind: CapKind, sender: Address, capId: ID) returns (r: Result<Cap>)
      modifies this`allowListed
      ensures r == Reported(old(Abs()).Minted(sender, capId), Cap(kind, capId, id))
      ensures Abs() == if r.Ok? then old(Abs()).Minted(sender, capId).value else old(Abs())
      ensures sender != owner ==> r == Abort(EInvalidOwner)
      ensures sender == owner && |old(allowListed)| >= 1000 ==> r == Abort(EMaxCapsReached)
      ensures sender == owner && |old(allowListed)| < 1000 ==> r == Ok(Cap(kind, capId, id))
      ensures allowListed == if r.Ok? then old(allowListed) + {capId} else old(allowListed)
    {
      if sender != owner { return Abort(EInvalidOwner); }
      if |allowListed| >= MAX_TRADE_CAPS { return Abort(EMaxCapsReached); }
      allowListed := allowListed + {capId};
      return Ok(Cap(kind, capId, id));
    }

    /** Only the owner revokes, and only what is listed. */
    method RevokeTradeCap(capId: ID, sender: Address) returns (r: Result<()>)
      modifies this`allowListed
      ensures r == Reported(old(Abs()).Revoked(sender, capId), ())
      ensures Abs() == if r.Ok? then old(Abs()).Revoked(sender, capId).value else old(Abs())
      ensures sender != owner ==> r == Abort(EInvalidOwner)
      ensures sender == owner && capId !in old(allowListed) ==> r == Abort(ECapNotInList)
      ensures sender == owner && capId in old(allowListed) ==> r.Ok?
      ensures allowListed == if r.Ok? then old(allowListed) - {capId} else old(allowListed)
    {
      if sender != owner { return Abort(EInvalidOwner); }
      if capId !in allowListed { return Abort(ECapNotInList); }
      allowListed := allowListed - {capId};
      return Ok(());
    }

    method SetBalanceManagerReferral(referral: PoolReferral, cap: TraderCap) returns (r: Result<()>)
      modifies this`referrals
      ensures r == Reported(old(Abs()).WithReferral(referral, cap), ())
      ensures Abs() == if r.Ok? then old(Abs()).WithReferral(referral, cap).value else old(Abs())
      ensures r == if cap.id in allowListed then Ok(()) else Abort(EInvalidTrader)
      ensures referrals == if r.Ok? then old(referrals)[referral.poolId := referral.id] else old(referrals)
    {
      if cap.id !in allowListed { return Abort(EInvalidTrader); }
      referrals := referrals - {referral.poolId};
      referrals := referrals[referral.poolId := referral.id];
      return Ok(());
    }

    method UnsetBalanceManagerReferral(poolId: ID, cap: TraderCap) returns (r: Result<()>)
      modifies this`referrals
      ensures r == Reported(old(Abs()).WithoutReferral(poolId, cap), ())
      ensures Abs() == if r.Ok? then old(Abs()).WithoutReferral(poolId, cap).value else old(Abs())
      ensures r == if cap.id in allowListed then Ok(()) else Abort(EInvalidTrader)
      ensures referrals == if r.Ok? then old(referrals) - {poolId} else old(referrals)
    {
      if cap.id !in allowListed { return Abort(EInvalidTrader); }
      referrals := referrals - {poolId};
      return Ok(());
    }

    /** Destroying the manager requires its bag to hold no key at all, not even a zero. */
    method Delete() returns (r: Result<()>)
      ensures r == if balances == map[] then Ok(()) else Abort(EBagNotEmpty)
    {
      if |balances| != 0 { return Abort(EBagNotEmpty); }
      return Ok(());
    }
  }

  // ---- the bag over whole runs

  datatype BagOp =
    | Put(t: TypeName, amount: u64)
    | Take(t: TypeName, amount: u64)
    | TakeAll(t: TypeName)

  /** An aborted call leaves the bag as it was and pays nothing. */
  function BagNext(bag: Bag, op: BagOp): Bag {
    match op
    case Put(t, amount) => var r := Join(bag, t, amount); if r.Ok? then r.value else bag
    case Take(t, amount) => var r := Split(bag, t, amount, false); if r.Ok? then r.value.0 else bag
    case TakeAll(t) => Split(bag, t, 0, true).value.0
  }

  function BagRun(bag: Bag, ops: seq<BagOp>): Bag
    decreases |ops|
  {
    if ops == [] then bag else BagRun(BagNext(bag, ops[0]), ops[1..])
  }

  /** What one call moved into (positive) or out of (negative) the manager, in units of `t`. */
  function Moved(bag: Bag, op: BagOp, t: TypeName): int {
    if op.t != t then 0
    else match op
      case Put(_, amount) => if Join(bag, t, amount).Ok? then amount else 0
      case Take(_, amount) => if Split(bag, t, amount, false).Ok? then -(amount as int) else 0
      case TakeAll(_) => -(Balance(bag, t) as int)
  }

  function TotalMoved(bag: Bag, ops: seq<BagOp>, t: TypeName): int
    decreases |ops|
  {
    if ops == [] then 0 else Moved(bag, ops[0], t) + TotalMoved(BagNext(bag, ops[0]), ops[1..], t)
  }

  /** The calls that concern one asset, and a plain number that undergoes them. */
  function Concerning(ops: seq<BagOp>, t: TypeName): seq<BagOp> {
    if ops == [] then [] else (if ops[0].t == t then [ops[0]] else []) + Concerning(ops[1..], t)
  }

  function AccountNext(held: nat, op: BagOp): nat {
    match op
    case Put(_, amount) => if held + amount <= MAX_U64 then held + amount else held
    case Take(_, amount) => if amount <= held then held - amount else held
    case TakeAll(_) => 0
  }

  function AccountRun(held: nat, ops: seq<BagOp>): nat
    decreases |ops|
  {
    if ops == [] then held else AccountRun(AccountNext(held, ops[0]), ops[1..])
  }

  lemma BagStepIsOneNumber(bag: Bag, op: BagOp, t: TypeName)
    ensures Balance(BagNext(bag, op), t) == Balance(bag, t) + Moved(bag, op, t)
    ensures Balance(BagNext(bag, op), t) == if op.t == t then AccountNext(Balance(bag, t), op) else Balance(bag, t)
  {
  }

  /** Absent keys, stored zeros and removed keys are unobservable: the bag is one plain number per asset. */
  lemma {:induction false} BagIsOneNumberPerAsset(bag: Bag, ops: seq<BagOp>, t: TypeName)
    ensures Balance(BagRun(bag, ops), t) == AccountRun(Balance(bag, t), Concerning(ops, t))
    ensures Balance(BagRun(bag, ops), t) == Balance(bag, t) + TotalMoved(bag, ops, t)
    decreases |ops|
  {
    if ops != [] {
      var tail := Concerning(ops[1..], t);
      assert ([ops[0]] + tail)[1..] == tail && [] + tail == tail;
      BagStepIsOneNumber(bag, ops[0], t);
      BagIsOneNumberPerAsset(BagNext(bag, ops[0]), ops[1..], t);
    }
  }

  /**
   * Whether a key is there after any call, of amount zero too: a deposit always leaves one, a withdrawal leaves
   * one exactly when something is left, and a call that aborts or concerns another asset changes nothing.
   */
  lemma KeyPresence(bag: Bag, op: BagOp, t: TypeName)
    ensures t in BagNext(bag, op) <==>
      if op.t != t then t in bag
      else match op
        case Put(_, amount) => Balance(bag, t) + amount <= MAX_U64 || t in bag
        case Take(_, amount) => if amount <= Balance(bag, t) then amount < Balance(bag, t) else t in bag
        case TakeAll(_) => false
  {
  }
}
