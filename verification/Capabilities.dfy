/** Who may act for which manager: every manager, every capability, over every run of mints and revocations. */
module Capabilities {
  import opened MoveTypes
  import opened BalanceManager

  datatype Entry = Minted(manager: ID, cap: ID) | Revoked(manager: ID, cap: ID)

  /** All managers and capability objects, the next fresh object id, and the history of mints and revocations. */
  datatype World = World(managers: map<ID, Manager>, caps: map<ID, Cap>, nextId: ID, history: seq<Entry>)

  const GENESIS := World(map[], map[], 0, [])

  datatype Op =
    | Create(owner: Address)
    | CreateWithCaps(owner: Address)
    | Mint(manager: ID, kind: CapKind, sender: Address)
    | Revoke(manager: ID, cap: ID, sender: Address)
    | MoveFunds(manager: ID, balances: Bag)
    | SetReferral(manager: ID, referral: PoolReferral, cap: ID)

  function Created(w: World, owner: Address): World {
    w.(managers := w.managers[w.nextId := NewManager(w.nextId, owner)], nextId := w.nextId + 1)
  }

  function MintedInto(w: World, manager: ID, kind: CapKind, m: Manager): World {
    World(w.managers[manager := m], w.caps[w.nextId := Cap(kind, w.nextId, manager)], w.nextId + 1,
          w.history + [Minted(manager, w.nextId)])
  }

  function MintInternal(w: World, manager: ID, kind: CapKind): World
    requires manager in w.managers
  {
    match w.managers[manager].MintedInternal(w.nextId)
    case Ok(m) => MintedInto(w, manager, kind, m)
    case Abort(_) => w
  }

  /** A call that aborts, or that names an object that is not there, changes nothing. */
  function Next(w: World, op: Op): World {
    match op
    case Create(owner) => Created(w, owner)
    case CreateWithCaps(owner) =>
      var manager := w.nextId;
      var w1 := MintInternal(Created(w, owner), manager, DepositCap);
      var w2 := if manager in w1.managers then MintInternal(w1, manager, WithdrawCap) else w1;
      if manager in w2.managers then MintInternal(w2, manager, TradeCap) else w2
    case Mint(manager, kind, sender) =>
      if manager !in w.managers || w.managers[manager].Minted(sender, w.nextId).Abort? then w
      else MintedInto(w, manager, kind, w.managers[manager].Minted(sender, w.nextId).value)
    case Revoke(manager, cap, sender) =>
      if manager !in w.managers || w.managers[manager].Revoked(sender, cap).Abort? then w
      else w.(managers := w.managers[manager := w.managers[manager].Revoked(sender, cap).value],
              history := w.history + [Revoked(manager, cap)])
    case MoveFunds(manager, balances) =>
      if manager !in w.managers then w
      else w.(managers := w.managers[manager := w.managers[manager].(balances := balances)])
    case SetReferral(manager, referral, cap) =>
      if manager !in w.managers || cap !in w.caps || w.caps[cap].kind != TradeCap then w
      else match w.managers[manager].WithReferral(referral, w.caps[cap])
        case Abort(_) => w
        case Ok(m) => w.(managers := w.managers[manager := m])
  }

  function Run(w: World, ops: seq<Op>): World
    decreases |ops|
  {
    if ops == [] then w else Run(Next(w, ops[0]), ops[1..])
  }

  ghost predicate Allows(w: World, manager: ID, cap: ID) {
    manager in w.managers && cap in w.managers[manager].allowListed
  }

  ghost predicate Wellformed(w: World) {
    && (forall i :: i in w.managers ==> i < w.nextId && w.managers[i].id == i)
    && (forall i :: i in w.managers ==> |w.managers[i].allowListed| <= MAX_TRADE_CAPS)
    && (forall c :: c in w.caps ==> c < w.nextId && w.caps[c].id == c)
  }

  /** The history tells exactly which capabilities exist, for whom, and which are still good. */
  ghost predicate Accounted(w: World) {
    && (forall i, c :: Minted(i, c) in w.history <==> c in w.caps && w.caps[c].balanceManagerId == i)
    && (forall i, c :: Revoked(i, c) in w.history ==> Minted(i, c) in w.history)
    && (forall i, c :: Allows(w, i, c) <==> Minted(i, c) in w.history && Revoked(i, c) !in w.history)
  }

  ghost predicate Inv(w: World) { Wellformed(w) && Accounted(w) }

  lemma CreateKeeps(w: World, owner: Address)
    requires Inv(w)
    ensures Inv(Created(w, owner)) && w.history <= Created(w, owner).history
  {
    var w' := Created(w, owner);
    forall i, c ensures Allows(w', i, c) <==> Allows(w, i, c) {
      if i == w.nextId { assert !Allows(w, i, c); }
    }
  }

  lemma MintKeeps(w: World, manager: ID, kind: CapKind)
    requires Inv(w) && manager in w.managers
    ensures Inv(MintInternal(w, manager, kind)) && manager in MintInternal(w, manager, kind).managers
    ensures w.history <= MintInternal(w, manager, kind).history
  {
    var w' := MintInternal(w, manager, kind);
    if |w.managers[manager].allowListed| < MAX_TRADE_CAPS {
      var cap := w.nextId;
      assert cap !in w.caps;
      assert forall i :: Minted(i, cap) !in w.history && Revoked(i, cap) !in w.history;
      assert forall e :: e in w'.history <==> e in w.history || e == Minted(manager, cap);
      assert forall i, c :: Allows(w', i, c) <==> Allows(w, i, c) || (i == manager && c == cap);
    }
  }

  lemma RevokeKeeps(w: World, manager: ID, cap: ID, sender: Address)
    requires Inv(w)
    ensures Inv(Next(w, Op.Revoke(manager, cap, sender)))
    ensures w.history <= Next(w, Op.Revoke(manager, cap, sender)).history
  {
    var w' := Next(w, Op.Revoke(manager, cap, sender));
    if manager in w.managers && w.managers[manager].Revoked(sender, cap).Ok? {
      assert Allows(w, manager, cap);
      assert forall e :: e in w'.history <==> e in w.history || e == Revoked(manager, cap);
      assert forall i, c :: Allows(w', i, c) <==> Allows(w, i, c) && !(i == manager && c == cap);
      var left := w.managers[manager].allowListed - {cap};
      assert |left| + 1 == |w.managers[manager].allowListed| by {
        assert left + {cap} == w.managers[manager].allowListed;
      }
    }
  }

  lemma CreateWithCapsKeeps(w: World, owner: Address)
    requires Inv(w)
    ensures Inv(Next(w, CreateWithCaps(owner)))
    ensures w.history <= Next(w, CreateWithCaps(owner)).history
  {
    CreateKeeps(w, owner);
    MintKeeps(Created(w, owner), w.nextId, DepositCap);
    var w1 := MintInternal(Created(w, owner), w.nextId, DepositCap);
    MintKeeps(w1, w.nextId, WithdrawCap);
    MintKeeps(MintInternal(w1, w.nextId, WithdrawCap), w.nextId, TradeCap);
  }

  lemma MintByOwnerKeeps(w: World, manager: ID, kind: CapKind, sender: Address)
    requires Inv(w)
    ensures Inv(Next(w, Op.Mint(manager, kind, sender)))
    ensures w.history <= Next(w, Op.Mint(manager, kind, sender)).history
  {
    if manager in w.managers { MintKeeps(w, manager, kind); }
  }

  /** Funds and referrals are no business of the allow-lists. */
  lemma OtherCallsKeep(w: World, op: Op)
    requires Inv(w) && (op.MoveFunds? || op.SetReferral?)
    ensures Inv(Next(w, op)) && w.history == Next(w, op).history
  {
    assert forall i, c :: Allows(Next(w, op), i, c) <==> Allows(w, i, c);
  }

  lemma NextKeeps(w: World, op: Op)
    requires Inv(w)
    ensures Inv(Next(w, op)) && w.history <= Next(w, op).history
  {
    match op
    case Create(owner) => CreateKeeps(w, owner);
    case CreateWithCaps(owner) => CreateWithCapsKeeps(w, owner);
    case Mint(manager, kind, sender) => MintByOwnerKeeps(w, manager, kind, sender);
    case Revoke(manager, cap, sender) => RevokeKeeps(w, manager, cap, sender);
    case MoveFunds(_, _) => OtherCallsKeep(w, op);
    case SetReferral(_, _, _) => OtherCallsKeep(w, op);
  }

  lemma {:induction false} RunKeeps(w: World, ops: seq<Op>)
    requires Inv(w)
    ensures Inv(Run(w, ops))
    ensures w.history <= Run(w, ops).history
    decreases |ops|
  {
    if ops != [] {
      NextKeeps(w, ops[0]);
      RunKeeps(Next(w, ops[0]), ops[1..]);
    }
  }

  // ---- who did it

  /** The calls that may add an entry: creation of the manager, or a call of its owner. */
  predicate MayAdd(w: World, op: Op, e: Entry) {
    match e
    case Minted(manager, _) =>
      || (op.CreateWithCaps? && manager == w.nextId)
      || (op.Mint? && op.manager == manager && manager in w.managers && op.sender == w.managers[manager].owner)
    case Revoked(manager, cap) =>
      op.Revoke? && op.manager == manager && op.cap == cap && manager in w.managers
      && op.sender == w.managers[manager].owner
  }

  lemma NewEntriesAreTheOwners(w: World, op: Op, e: Entry)
    requires e in Next(w, op).history && e !in w.history
    ensures MayAdd(w, op, e)
  {
  }

  lemma {:induction false} RunSteps(w: World, ops: seq<Op>, op: Op)
    ensures Run(w, ops + [op]) == Next(Run(w, ops), op)
    decreases |ops|
  {
    if ops == [] {
      assert [op][1..] == [];
    } else {
      assert (ops + [op])[1..] == ops[1..] + [op];
      RunSteps(Next(w, ops[0]), ops[1..], op);
    }
  }

  /** Every capability was minted at its manager's creation or by the manager's owner, and revoked by the owner. */
  lemma {:induction false} EveryEntryIsTheOwners(ops: seq<Op>, e: Entry)
    requires e in Run(GENESIS, ops).history
    ensures exists k :: 0 <= k < |ops| && MayAdd(Run(GENESIS, ops[..k]), ops[k], e)
    decreases |ops|
  {
    var n := |ops| - 1;
    assert ops == ops[..n] + [ops[n]];
    RunSteps(GENESIS, ops[..n], ops[n]);
    if e in Run(GENESIS, ops[..n]).history {
      EveryEntryIsTheOwners(ops[..n], e);
      var k :| 0 <= k < n && MayAdd(Run(GENESIS, ops[..n][..k]), ops[..n][k], e);
      assert ops[..n][..k] == ops[..k];
    } else {
      NewEntriesAreTheOwners(Run(GENESIS, ops[..n]), ops[n], e);
      assert MayAdd(Run(GENESIS, ops[..n]), ops[n], e);
    }
  }

  lemma {:induction false} RunKeepsOwners(w: World, ops: seq<Op>, manager: ID)
    requires Inv(w) && manager in w.managers
    ensures manager in Run(w, ops).managers && Run(w, ops).managers[manager].owner == w.managers[manager].owner
    decreases |ops|
  {
    if ops != [] {
      NextKeeps(w, ops[0]);
      OwnerStays(w, ops[0], manager);
      RunKeepsOwners(Next(w, ops[0]), ops[1..], manager);
    }
  }

  /** Ownership never changes hands. */
  lemma OwnersStay(ops: seq<Op>, more: seq<Op>, manager: ID)
    requires manager in Run(GENESIS, ops).managers
    ensures var w, w' := Run(GENESIS, ops), Run(Run(GENESIS, ops), more);
            manager in w'.managers && w'.managers[manager].owner == w.managers[manager].owner
  {
    RunKeeps(GENESIS, ops);
    RunKeepsOwners(Run(GENESIS, ops), more, manager);
  }

  lemma OwnerStays(w: World, op: Op, manager: ID)
    requires Inv(w) && manager in w.managers
    ensures manager in Next(w, op).managers && Next(w, op).managers[manager].owner == w.managers[manager].owner
  {
  }

  /** A call of the owner, below the bound, makes a capability of the kind asked for; any other changes nothing. */
  lemma MintTakesEffectExactlyWhen(w: World, manager: ID, kind: CapKind, sender: Address)
    requires Inv(w)
    ensures var w' := Next(w, Op.Mint(manager, kind, sender));
            if manager in w.managers && sender == w.managers[manager].owner && |w.managers[manager].allowListed| < 1000
            then
              && w'.caps == w.caps[w.nextId := Cap(kind, w.nextId, manager)]
              && w'.managers.Keys == w.managers.Keys
              && (forall i, c :: Allows(w', i, c) <==> Allows(w, i, c) || (i == manager && c == w.nextId))
            else w' == w
  {
    MintByOwnerKeeps(w, manager, kind, sender);
  }

  /** A call of the owner on a capability that is honoured ends that one; any other changes nothing. */
  lemma RevokeTakesEffectExactlyWhen(w: World, manager: ID, cap: ID, sender: Address)
    ensures var w' := Next(w, Op.Revoke(manager, cap, sender));
            if Allows(w, manager, cap) && sender == w.managers[manager].owner
            then
              && w'.caps == w.caps && w'.managers.Keys == w.managers.Keys
              && (forall i, c :: Allows(w', i, c) <==> Allows(w, i, c) && !(i == manager && c == cap))
            else w' == w
  {
  }

  /** Only a capability to trade sets a referral, and only one that its manager minted and has not revoked. */
  lemma SetReferralTakesEffectExactlyWhen(ops: seq<Op>, manager: ID, referral: PoolReferral, cap: ID)
    ensures var w := Run(GENESIS, ops);
            var w' := Next(w, Op.SetReferral(manager, referral, cap));
            if cap in w.caps && w.caps[cap].kind == TradeCap
               && Minted(manager, cap) in w.history && Revoked(manager, cap) !in w.history
            then
              && manager in w.managers
              && w' == w.(managers := w.managers[manager := w.managers[manager].(referrals :=
                            w.managers[manager].referrals[referral.poolId := referral.id])])
            else w' == w
  {
    var w := Run(GENESIS, ops);
    RunKeeps(GENESIS, ops);
    assert Allows(w, manager, cap) <==> Minted(manager, cap) in w.history && Revoked(manager, cap) !in w.history;
  }

  /** A plain creation adds one empty manager under a fresh id. */
  lemma CreatedIsFreshAndEmpty(ops: seq<Op>, owner: Address)
    ensures var w := Run(GENESIS, ops);
            var w', n := Next(w, Create(owner)), w.nextId;
            && n !in w.managers && n !in w.caps && w'.caps == w.caps
            && w'.managers == w.managers[n := Manager(n, owner, map[], {}, map[])]
  {
    RunKeeps(GENESIS, ops);
  }

  /**
   * After any run: no capability is on two lists, no list exceeds its bound, and a capability is honoured by
   * exactly the manager that minted it, exactly until it is revoked there.
   */
  lemma CapabilityOwnership(ops: seq<Op>)
    ensures var w := Run(GENESIS, ops);
            && (forall i, j :: i in w.managers && j in w.managers && i != j ==>
                  w.managers[i].allowListed !! w.managers[j].allowListed)
            && (forall i :: i in w.managers ==> |w.managers[i].allowListed| <= MAX_TRADE_CAPS)
            && (forall i, c :: i in w.managers && c in w.caps ==>
                  (w.managers[i].Validates(w.caps[c]) <==>
                     Minted(i, c) in w.history && Revoked(i, c) !in w.history))
  {
    var w := Run(GENESIS, ops);
    RunKeeps(GENESIS, ops);
    forall i, j | i in w.managers && j in w.managers && i != j
      ensures w.managers[i].allowListed !! w.managers[j].allowListed
    {
      forall c | c in w.managers[i].allowListed && c in w.managers[j].allowListed ensures false {
        assert Allows(w, i, c) && Allows(w, j, c);
      }
    }
    forall i, c | i in w.managers && c in w.caps
      ensures w.managers[i].Validates(w.caps[c]) <==> Minted(i, c) in w.history && Revoked(i, c) !in w.history
    {
      assert Allows(w, i, c) <==> w.managers[i].Validates(w.caps[c]);
    }
  }

  /** A proof made from a capability always names the capability's own manager. */
  lemma ProofNamesTheCapsManager(ops: seq<Op>, i: ID, c: ID, sender: Address)
    requires i in Run(GENESIS, ops).managers && c in Run(GENESIS, ops).caps
    ensures var w := Run(GENESIS, ops);
            var proof := w.managers[i].ProofWithCap(w.caps[c], sender);
            proof.Ok? ==> proof.value.balanceManagerId == w.caps[c].balanceManagerId == i
  {
    var w := Run(GENESIS, ops);
    RunKeeps(GENESIS, ops);
    assert Allows(w, i, c) <==> w.managers[i].Validates(w.caps[c]);
  }

  /** Creation with capabilities hands out one of each kind, and the new manager honours exactly these three. */
  lemma CreatedWithOneOfEachKind(w: World, owner: Address)
    ensures var w', n := Next(w, CreateWithCaps(owner)), w.nextId;
            && n in w'.managers && w'.managers[n].owner == owner && w'.managers[n].allowListed == {n + 1, n + 2, n + 3}
            && w'.caps == w.caps[n + 1 := Cap(DepositCap, n + 1, n)][n + 2 := Cap(WithdrawCap, n + 2, n)]
                               [n + 3 := Cap(TradeCap, n + 3, n)]
  {
    var w1 := MintInternal(Created(w, owner), w.nextId, DepositCap);
    var w2 := MintInternal(w1, w.nextId, WithdrawCap);
    assert w1.managers[w.nextId].allowListed == {w.nextId + 1};
    assert w2.managers[w.nextId].allowListed == {w.nextId + 1, w.nextId + 2};
  }

  /** Once revoked, a capability is never honoured again, by any manager, whatever happens next. */
  lemma RevokedForEver(ops: seq<Op>, more: seq<Op>, i: ID, c: ID, j: ID)
    requires Revoked(i, c) in Run(GENESIS, ops).history
    ensures !Allows(Run(Run(GENESIS, ops), more), j, c)
  {
    var w := Run(GENESIS, ops);
    var w' := Run(w, more);
    RunKeeps(GENESIS, ops);
    RunKeeps(w, more);
    assert Revoked(i, c) in w'.history && Minted(i, c) in w'.history;
    assert Minted(j, c) in w'.history ==> j == w'.caps[c].balanceManagerId == i;
  }
}
