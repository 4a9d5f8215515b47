/** The registry of pools, and its agreement with the flags that the pools themselves carry. */
module Registry {
  import opened MoveTypes
  import opened Lots

  datatype PoolKey = PoolKey(base: TypeName, quote: TypeName) {
    function Flipped(): PoolKey { PoolKey(quote, base) }
  }

  type Entries = map<PoolKey, ID>

  /** Neither the pair nor its mirror image may be taken. */
  function Registered(pools: Entries, key: PoolKey, poolId: ID): Result<Entries> {
    if key in pools || key.Flipped() in pools then Abort(EPoolAlreadyExists) else Ok(pools[key := poolId])
  }

  function Unregistered(pools: Entries, key: PoolKey): Result<Entries> {
    if key in pools then Ok(pools - {key}) else Abort(EPoolDoesNotExist)
  }

  function Lookup(pools: Entries, key: PoolKey): Result<ID> {
    if key in pools then Ok(pools[key]) else Abort(EPoolDoesNotExist)
  }

  class Registry {
    var pools: Entries

    constructor ()
      ensures pools == map[]
    {
      pools := map[];
    }

    method RegisterPool(base: TypeName, quote: TypeName, poolId: ID) returns (r: Result<()>)
      modifies this
      ensures r.Ok? <==> Registered(old(pools), PoolKey(base, quote), poolId).Ok?
      ensures r.Ok? ==> pools == Registered(old(pools), PoolKey(base, quote), poolId).value
      ensures r.Ok? <==> PoolKey(base, quote) !in old(pools) && PoolKey(quote, base) !in old(pools)
      ensures r.Ok? ==> pools == old(pools)[PoolKey(base, quote) := poolId]
      ensures r.Abort? ==> r.code == EPoolAlreadyExists && pools == old(pools)
    {
      var mirrored := PoolKey(quote, base);
      if mirrored in pools { return Abort(EPoolAlreadyExists); }
      var key := PoolKey(base, quote);
      if key in pools { return Abort(EPoolAlreadyExists); }
      pools := pools[key := poolId];
      return Ok(());
    }

    method UnregisterPool(base: TypeName, quote: TypeName) returns (r: Result<()>)
      modifies this
      ensures r.Ok? <==> PoolKey(base, quote) in old(pools)
      ensures r.Ok? ==> pools == old(pools) - {PoolKey(base, quote)}
      ensures r.Abort? ==> r.code == EPoolDoesNotExist && pools == old(pools)
    {
      var key := PoolKey(base, quote);
      if key !in pools { return Abort(EPoolDoesNotExist); }
      pools := pools - {key};
      return Ok(());
    }

    method GetPoolId(base: TypeName, quote: TypeName) returns (r: Result<ID>)
      ensures r == Lookup(pools, PoolKey(base, quote))
      ensures r.Ok? <==> PoolKey(base, quote) in pools
      ensures r.Ok? ==> r.value == pools[PoolKey(base, quote)]
    {
      var key := PoolKey(base, quote);
      if key !in pools { return Abort(EPoolDoesNotExist); }
      return Ok(pools[key]);
    }
  }

  // ---- runs of creation, unregistration and redeployment

  datatype PoolInfo = PoolInfo(key: PoolKey, registered: bool)

  datatype World = World(entries: Entries, pools: map<ID, PoolInfo>, nextId: ID)

  const GENESIS := World(map[], map[], 0)

  datatype Op =
    | Create(key: PoolKey, tick: u64, lot: u64, min: u64, whitelisted: bool, stable: bool)
    | Unregister(pool: ID)

  /** Every check of pool creation that comes before the registry is asked. */
  ghost function CreationChecked(op: Op): Result<BookParams>
    requires op.Create?
  {
    match Created(op.tick, op.lot, op.min)
    case Abort(code) => Abort(code)
    case Ok(params) =>
      if op.whitelisted && op.stable then Abort(EPoolCannotBeBothWhitelistedAndStable)
      else if op.key.base == op.key.quote then Abort(ESameBaseAndQuote)
      else Ok(params)
  }

  /** What a call answers; `Unregister` names a pool object, whose types give the pair to remove. */
  ghost function Outcome(w: World, op: Op): Result<Entries> {
    match op
    case Create(key, _, _, _, _, _) =>
      (match CreationChecked(op)
       case Abort(code) => Abort(code)
       case Ok(_) => Registered(w.entries, key, w.nextId))
    case Unregister(pool) =>
      if pool !in w.pools then Abort(EFieldDoesNotExist)
      else if !w.pools[pool].registered then Abort(EPoolNotRegistered)
      else Unregistered(w.entries, w.pools[pool].key)
  }

  ghost function Next(w: World, op: Op): World {
    match Outcome(w, op)
    case Abort(_) => w
    case Ok(entries) =>
      match op
      case Create(key, _, _, _, _, _) =>
        World(entries, w.pools[w.nextId := PoolInfo(key, true)], w.nextId + 1)
      case Unregister(pool) =>
        w.(entries := entries, pools := w.pools[pool := w.pools[pool].(registered := false)])
  }

  ghost function Run(w: World, ops: seq<Op>): World
    decreases |ops|
  {
    if ops == [] then w else Run(Next(w, ops[0]), ops[1..])
  }

  ghost predicate Corresponds(w: World) {
    && (forall i :: i in w.pools ==> i < w.nextId)
    && (forall k :: k in w.entries ==> w.entries[k] in w.pools && w.pools[w.entries[k]] == PoolInfo(k, true))
    && (forall i :: i in w.pools && w.pools[i].registered ==>
          w.pools[i].key in w.entries && w.entries[w.pools[i].key] == i)
    && (forall k :: k in w.entries ==> k.base != k.quote && k.Flipped() !in w.entries)
  }

  lemma NextCorresponds(w: World, op: Op)
    requires Corresponds(w)
    ensures Corresponds(Next(w, op))
  {
    var w' := Next(w, op);
    if op.Create? && Outcome(w, op).Ok? {
      assert w.nextId !in w.pools;
      forall k | k in w'.entries ensures k.base != k.quote && k.Flipped() !in w'.entries {
        assert k.Flipped().Flipped() == k;
      }
    }
  }

  lemma {:induction false} RunCorresponds(w: World, ops: seq<Op>)
    requires Corresponds(w)
    ensures Corresponds(Run(w, ops))
    decreases |ops|
  {
    if ops != [] {
      NextCorresponds(w, ops[0]);
      RunCorresponds(Next(w, ops[0]), ops[1..]);
    }
  }

  /**
   * After any run the entries and the flagged pools are the two sides of one bijection, and a lookup finds
   * exactly the flagged pool of that pair.
   */
  lemma RegistryMatchesPools(ops: seq<Op>)
    ensures var w := Run(GENESIS, ops);
            && Corresponds(w)
            && (forall k, i :: Lookup(w.entries, k) == Ok(i) <==> i in w.pools && w.pools[i] == PoolInfo(k, true))
            && (forall k, k' :: k in w.entries && k' in w.entries && w.entries[k] == w.entries[k'] ==> k == k')
  {
    RunCorresponds(GENESIS, ops);
  }

  /** A flagged pool has the pair, either way round. */
  ghost predicate Taken(w: World, base: TypeName, quote: TypeName) {
    exists i :: i in w.pools && w.pools[i].registered &&
      (w.pools[i].key == PoolKey(base, quote) || w.pools[i].key == PoolKey(quote, base))
  }

  /**
   * In every run a creation with good sizes of two different assets succeeds exactly when no flagged pool has the
   * pair, either way round; it then adds one flagged pool under a fresh id, and nothing else changes.
   */
  lemma CreationSucceedsExactlyWhen(ops: seq<Op>, op: Op)
    requires op.Create?
    ensures var w, w', key := Run(GENESIS, ops), Next(Run(GENESIS, ops), op), op.key;
            if && PowerOfTen(op.tick) && op.tick > 0 && PowerOfTen(op.lot) && op.lot >= 1000
               && PowerOfTen(op.min) && op.min > 0 && op.min % op.lot == 0
               && !(op.whitelisted && op.stable) && key.base != key.quote && !Taken(w, key.base, key.quote)
            then Outcome(w, op).Ok? && w.nextId !in w.pools && w'.pools == w.pools[w.nextId := PoolInfo(key, true)]
            else Outcome(w, op).Abort? && w' == w
  {
    var w, key := Run(GENESIS, ops), op.key;
    RunCorresponds(GENESIS, ops);
    TakenExactlyWhen(w, key);
  }

  lemma TakenExactlyWhen(w: World, key: PoolKey)
    requires Corresponds(w)
    ensures Taken(w, key.base, key.quote) <==> key in w.entries || PoolKey(key.quote, key.base) in w.entries
  {
    if key in w.entries { assert w.pools[w.entries[key]] == PoolInfo(key, true); }
    var mirrored := PoolKey(key.quote, key.base);
    if mirrored in w.entries { assert w.pools[w.entries[mirrored]] == PoolInfo(mirrored, true); }
  }

  /** In every run an unregistration succeeds exactly for a flagged pool; that pool loses its flag, and no other. */
  lemma UnregistrationSucceedsExactlyWhen(ops: seq<Op>, pool: ID)
    ensures var w, w' := Run(GENESIS, ops), Next(Run(GENESIS, ops), Unregister(pool));
            if pool in w.pools && w.pools[pool].registered
            then
              && Outcome(w, Unregister(pool)).Ok?
              && w'.pools == w.pools[pool := PoolInfo(w.pools[pool].key, false)]
            else Outcome(w, Unregister(pool)).Abort? && w' == w
  {
    RunCorresponds(GENESIS, ops);
  }

  /** A flagged pool always finds its own entry to remove, and its pair, either way round, is then free again. */
  lemma UnregisterThenRedeploy(ops: seq<Op>, pool: ID, again: Op)
    requires var w := Run(GENESIS, ops); pool in w.pools && w.pools[pool].registered
    requires again.Create? && CreationChecked(again).Ok?
    requires var key := Run(GENESIS, ops).pools[pool].key; again.key == key || again.key == key.Flipped()
    ensures var w := Run(GENESIS, ops);
            && Outcome(w, again) == Abort(EPoolAlreadyExists)
            && Outcome(w, Unregister(pool)) == Ok(w.entries - {w.pools[pool].key})
            && Outcome(Next(w, Unregister(pool)), again).Ok?
            && Outcome(Next(w, Unregister(pool)), Unregister(pool)) == Abort(EPoolNotRegistered)
  {
    var w := Run(GENESIS, ops);
    RunCorresponds(GENESIS, ops);
    var key := w.pools[pool].key;
    assert key.Flipped().Flipped() == key;
  }
}
