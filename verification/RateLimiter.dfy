/** The token bucket of deepbook_margin: its state, its operations, and what one operation does. */
module RateLimiter {
  import opened MoveTypes

  datatype State = State(available: u64, lastUpdatedMs: u64, capacity: u64, rate: u64, enabled: bool) {
    predicate Valid() { available <= capacity }

    function Elapsed(now: nat): nat { if now > lastUpdatedMs then now - lastUpdatedMs else 0 }

    /** The tokens the bucket holds at `now`, whether or not it has been touched since the last refill. */
    function Level(now: nat): (tokens: u64)
      requires Valid()
      ensures available <= tokens <= capacity
    {
      LevelBounds(now);
      Min(available + Elapsed(now) * rate, capacity)
    }

    lemma LevelBounds(now: nat)
      ensures 0 <= Elapsed(now) * rate
    {
    }

    /** The same bucket brought up to date at `now`. */
    function At(now: u64): (s: State)
      requires Valid()
      ensures s.Valid()
    {
      this.(available := Level(now), lastUpdatedMs := Max(lastUpdatedMs, now))
    }
  }

  datatype Op =
    | Withdraw(amount: u64)
    | Deposit(amount: u64)
    | Query
    | Configure(capacity: u64, rate: u64, enabled: bool)

  datatype Event = Event(now: u64, op: Op)

  datatype Answer = Decision(accepted: bool) | Available(amount: u64) | Done

  function New(capacity: u64, rate: u64, enabled: bool, now: u64): (s: State)
    ensures s.Valid()
  {
    State(capacity, now, capacity, rate, enabled)
  }

  /** What the limiter answers to one call. */
  function Reply(s: State, e: Event): Answer
    requires s.Valid()
  {
    match e.op
    case Withdraw(amount) => Decision(s.enabled ==> amount <= s.Level(e.now))
    case Query => Available(if s.enabled then s.Level(e.now) else MAX_U64)
    case _ => Done
  }

  /** The bucket after one call. A rejected withdrawal still refills. */
  function Next(s: State, e: Event): (s': State)
    requires s.Valid()
    ensures s'.Valid()
  {
    var topped := s.At(e.now);
    match e.op
    case Withdraw(amount) =>
      if !s.enabled then s
      else if amount > topped.available then topped
      else topped.(available := topped.available - amount)
    case Deposit(amount) =>
      if !s.enabled then s
      else topped.(available := Min(topped.available + amount, s.capacity))
    case Query => s
    case Configure(capacity, rate, enabled) =>
      State(Min(topped.available, capacity), topped.lastUpdatedMs, capacity, rate, enabled)
  }

  lemma ProductBound(x: nat, y: nat, bound: nat)
    requires x <= bound && y <= bound
    ensures 0 <= x * y <= bound * bound
  {
    assert x * y <= bound * y;
  }

  /** The most a refill can form is 2^128 - 2^64: `MAX_U64 * MAX_U64 + MAX_U64`. */
  lemma RefillFitsU128(elapsed: u64, rate: u64, available: u64)
    ensures 0 <= elapsed * rate < TWO_128
    ensures elapsed * rate + available <= TWO_128 - TWO_64
  {
    ProductBound(elapsed, rate, 0xFFFF_FFFF_FFFF_FFFF);
  }

  class Limiter {
    var available: u64
    var lastUpdatedMs: u64
    var capacity: u64
    var rate: u64
    var enabled: bool

    function Abs(): State
      reads this
    {
      State(available, lastUpdatedMs, capacity, rate, enabled)
    }

    constructor (capacity: u64, rate: u64, enabled: bool, now: u64)
      ensures Abs() == New(capacity, rate, enabled, now)
    {
      this.available := capacity;
      this.lastUpdatedMs := now;
      this.capacity := capacity;
      this.rate := rate;
      this.enabled := enabled;
    }

    method Refill(now: u64)
      requires Abs().Valid()
      modifies this`available, this`lastUpdatedMs
      ensures Abs() == old(Abs()).At(now)
    {
      var elapsed: u64 := if now > lastUpdatedMs then now - lastUpdatedMs else 0;
      if elapsed > 0 {
        RefillFitsU128(elapsed, rate, available);
        var refillAmount: u128 := elapsed * rate;
        var newAvailable: u128 := available + refillAmount;
        available := Min(newAvailable, capacity);
        lastUpdatedMs := now;
      }
    }

    method CheckAndRecordWithdrawal(amount: u64, now: u64) returns (ok: bool)
      requires Abs().Valid()
      modifies this`available, this`lastUpdatedMs
      ensures Decision(ok) == Reply(old(Abs()), Event(now, Withdraw(amount)))
      ensures Abs() == Next(old(Abs()), Event(now, Withdraw(amount)))
    {
      if !enabled { return true; }
      Refill(now);
      if amount > available { return false; }
      available := available - amount;
      return true;
    }

    method RecordDeposit(amount: u64, now: u64)
      requires Abs().Valid()
      modifies this`available, this`lastUpdatedMs
      ensures Abs() == Next(old(Abs()), Event(now, Deposit(amount)))
    {
      if !enabled { return; }
      Refill(now);
      var newAvailable: u128 := available + amount;
      available := Min(newAvailable, capacity);
    }

    method GetAvailableWithdrawal(now: u64) returns (amount: u64)
      requires Abs().Valid()
      ensures Available(amount) == Reply(Abs(), Event(now, Query))
      ensures Abs() == Next(Abs(), Event(now, Query))
    {
      if !enabled { return MAX_U64; }
      var elapsed: u64 := if now > lastUpdatedMs then now - lastUpdatedMs else 0;
      RefillFitsU128(elapsed, rate, available);
      var refillAmount: u128 := elapsed * rate;
      var newAvailable: u128 := available + refillAmount;
      return Min(newAvailable, capacity);
    }

    method UpdateConfig(capacity: u64, rate: u64, enabled: bool, now: u64)
      requires Abs().Valid()
      modifies this
      ensures Abs() == Next(old(Abs()), Event(now, Configure(capacity, rate, enabled)))
    {
      Refill(now);
      this.capacity := capacity;
      this.rate := rate;
      this.enabled := enabled;
      if available > capacity {
        available := capacity;
      }
    }
  }
}
