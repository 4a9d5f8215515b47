/** What whole runs of the limiter guarantee: sequences of calls with arbitrary clock readings. */
module RateLimiterRuns {
  import opened MoveTypes
  import opened RateLimiter

  type Trace = seq<Event>

  function Run(s: State, es: Trace): (s': State)
    requires s.Valid()
    ensures s'.Valid()
    decreases |es|
  {
    if es == [] then s else Run(Next(s, es[0]), es[1..])
  }

  function Answers(s: State, es: Trace): (answers: seq<Answer>)
    requires s.Valid()
    ensures |answers| == |es|
    decreases |es|
  {
    if es == [] then [] else [Reply(s, es[0])] + Answers(Next(s, es[0]), es[1..])
  }

  /** The clock readings never go back, and start no earlier than `t`. */
  predicate Monotone(t: u64, es: Trace)
    decreases |es|
  {
    es == [] || (t <= es[0].now && Monotone(es[0].now, es[1..]))
  }

  /** The last clock reading. */
  function End(t: u64, es: Trace): u64
    decreases |es|
  {
    if es == [] then t else End(es[0].now, es[1..])
  }

  // ---- safety for clock readings in any order

  ghost predicate BoundedBy(es: Trace, horizon: u64) { forall e :: e in es ==> e.now <= horizon }

  /** Even when readings go back, the refill stamp only moves forward and never past the latest reading. */
  lemma {:induction false} StampIsMonotone(s: State, es: Trace, horizon: u64)
    requires s.Valid() && BoundedBy(es, horizon)
    ensures s.lastUpdatedMs <= Run(s, es).lastUpdatedMs <= Max(s.lastUpdatedMs, horizon)
    decreases |es|
  {
    if es != [] {
      assert es[0] in es;
      assert BoundedBy(es[1..], horizon);
      StampIsMonotone(Next(s, es[0]), es[1..], horizon);
    }
  }

  function Charge(s: State, e: Event): nat
    requires s.Valid()
  {
    if s.enabled && e.op.Withdraw? && e.op.amount <= s.Level(e.now) then e.op.amount else 0
  }

  function Credit(s: State, e: Event): nat {
    if s.enabled && e.op.Deposit? then e.op.amount else 0
  }

  /** What the enabled limiter let out. */
  function Charged(s: State, es: Trace): nat
    requires s.Valid()
    decreases |es|
  {
    if es == [] then 0 else Charge(s, es[0]) + Charged(Next(s, es[0]), es[1..])
  }

  /** What the enabled limiter was told came in. */
  function Credited(s: State, es: Trace): nat
    requires s.Valid()
    decreases |es|
  {
    if es == [] then 0 else Credit(s, es[0]) + Credited(Next(s, es[0]), es[1..])
  }

  /** The rate in force, times how far each call moved the refill stamp. */
  function StampRefill(s: State, es: Trace): int
    requires s.Valid()
    decreases |es|
  {
    if es == [] then 0
    else (Next(s, es[0]).lastUpdatedMs - s.lastUpdatedMs) * s.rate + StampRefill(Next(s, es[0]), es[1..])
  }

  lemma CallBudget(s: State, e: Event)
    requires s.Valid()
    ensures Charge(s, e) + Next(s, e).available
         <= s.available + (Next(s, e).lastUpdatedMs - s.lastUpdatedMs) * s.rate + Credit(s, e)
  {
    s.LevelBounds(e.now);
    assert s.Level(e.now) <= s.available + s.Elapsed(e.now) * s.rate;
    if Next(s, e).lastUpdatedMs == s.lastUpdatedMs {
      assert (Next(s, e).lastUpdatedMs - s.lastUpdatedMs) * s.rate == 0;
    } else {
      assert Next(s, e).lastUpdatedMs - s.lastUpdatedMs == s.Elapsed(e.now);
    }
  }

  /** No schedule of readings, however disordered, lets out more than came in. */
  lemma {:induction false} TokenBudgetAnyClock(s: State, es: Trace)
    requires s.Valid()
    ensures Charged(s, es) + Run(s, es).available <= s.available + StampRefill(s, es) + Credited(s, es)
    decreases |es|
  {
    if es != [] {
      CallBudget(s, es[0]);
      TokenBudgetAnyClock(Next(s, es[0]), es[1..]);
    }
  }

  // ---- the window bound

  lemma LevelAdvances(s: State, t: nat, t': nat)
    requires s.Valid() && s.lastUpdatedMs <= t <= t'
    ensures 0 <= (t' - t) * s.rate
    ensures s.Level(t') == Min(s.Level(t) + (t' - t) * s.rate, s.capacity)
  {
    assert (t' - s.lastUpdatedMs) * s.rate == (t - s.lastUpdatedMs) * s.rate + (t' - t) * s.rate;
  }

  lemma LevelAtStamp(s: State)
    requires s.Valid()
    ensures s.Level(s.lastUpdatedMs) == s.available
  {
  }

  /** Refill between `t` and `t'`: each stretch between reconfigurations at the rate then in force. */
  function SegmentRefill(rate: nat, t: u64, es: Trace, t': u64): int
    decreases |es|
  {
    if es == [] then (t' - t) * rate
    else
      var e := es[0];
      (e.now - t) * rate + SegmentRefill(if e.op.Configure? then e.op.rate else rate, e.now, es[1..], t')
  }

  /** One call at the bucket's own instant creates no tokens; in particular a reconfiguration does not. */
  lemma CallCreatesNoTokens(s: State, e: Event)
    requires s.Valid() && s.lastUpdatedMs <= e.now
    ensures Next(s, e).lastUpdatedMs <= e.now
    ensures Next(s, e).Level(e.now) + Charge(s, e) <= s.Level(e.now) + Credit(s, e)
  {
    var s' := Next(s, e);
    if s'.lastUpdatedMs == e.now {
      assert s'.Level(e.now) == s'.available;
    }
  }

  /** Over any window, with reconfigurations and disabled spans inside. */
  lemma {:induction false} WindowBound(s: State, t: u64, es: Trace, t': u64)
    requires s.Valid() && s.lastUpdatedMs <= t
    requires Monotone(t, es) && End(t, es) <= t'
    ensures Run(s, es).lastUpdatedMs <= t'
    ensures Charged(s, es) + Run(s, es).Level(t') <= s.Level(t) + SegmentRefill(s.rate, t, es, t') + Credited(s, es)
    decreases |es|
  {
    if es == [] {
      LevelAdvances(s, t, t');
    } else {
      var e := es[0];
      LevelAdvances(s, t, e.now);
      CallCreatesNoTokens(s, e);
      WindowBound(Next(s, e), e.now, es[1..], t');
    }
  }

  /** Reconfigurations may change capacity and rate, but none switches the limiter off. */
  predicate StaysEnabled(es: Trace) { forall e :: e in es && e.op.Configure? ==> e.op.enabled }

  predicate NoConfigure(es: Trace) { forall e :: e in es ==> !e.op.Configure? }

  /** Everything the limiter said yes to, and everything deposited, read off the schedule alone. */
  function Accepted(s: State, es: Trace): nat
    requires s.Valid()
    decreases |es|
  {
    if es == [] then 0
    else (if Reply(s, es[0]) == Decision(true) then es[0].op.amount else 0) + Accepted(Next(s, es[0]), es[1..])
  }

  function Deposits(es: Trace): nat
    decreases |es|
  {
    if es == [] then 0 else (if es[0].op.Deposit? then es[0].op.amount else 0) + Deposits(es[1..])
  }

  lemma {:induction false} EnabledChargesEverything(s: State, es: Trace)
    requires s.Valid() && s.enabled && StaysEnabled(es)
    ensures Accepted(s, es) == Charged(s, es)
    ensures Credited(s, es) == Deposits(es)
    decreases |es|
  {
    if es != [] {
      assert es[0] in es;
      EnabledChargesEverything(Next(s, es[0]), es[1..]);
    }
  }

  lemma {:induction false} SteadyRefill(rate: nat, t: u64, es: Trace, t': u64)
    requires NoConfigure(es)
    ensures SegmentRefill(rate, t, es, t') == (t' - t) * rate
    decreases |es|
  {
    if es != [] {
      assert es[0] in es;
      SteadyRefill(rate, es[0].now, es[1..], t');
      assert (es[0].now - t) * rate + (t' - es[0].now) * rate == (t' - t) * rate;
    }
  }

  lemma {:induction false} RunStampBefore(s: State, t: u64, es: Trace)
    requires s.Valid() && s.lastUpdatedMs <= t && Monotone(t, es)
    ensures Run(s, es).lastUpdatedMs <= End(t, es)
    decreases |es|
  {
    if es != [] { RunStampBefore(Next(s, es[0]), es[0].now, es[1..]); }
  }

  /**
   * The promise of a token bucket: any window of any run in which the limiter is enabled throughout, with
   * whatever reconfigurations; without any, the refill is the rate times the length of the window.
   */
  lemma WithdrawalsInWindow(
    capacity: u64, rate: u64, enabled: bool, t0: u64, before: Trace, window: Trace, t: u64, t': u64)
    requires Monotone(t0, before) && End(t0, before) <= t
    requires Monotone(t, window) && End(t, window) <= t' && StaysEnabled(window)
    requires Run(New(capacity, rate, enabled, t0), before).enabled
    ensures var s := Run(New(capacity, rate, enabled, t0), before);
            && Accepted(s, window) <= s.capacity + SegmentRefill(s.rate, t, window, t') + Deposits(window)
            && (NoConfigure(window) ==> SegmentRefill(s.rate, t, window, t') == (t' - t) * s.rate)
  {
    var s := Run(New(capacity, rate, enabled, t0), before);
    RunStampBefore(New(capacity, rate, enabled, t0), t0, before);
    WindowBound(s, t, window, t');
    EnabledChargesEverything(s, window);
    if NoConfigure(window) { SteadyRefill(s.rate, t, window, t'); }
  }

  /** The bound is attained: a full bucket drained at once, and again as soon as it has refilled. */
  lemma WindowBoundIsTight(capacity: u64, rate: u64, t: u64, t': u64, refill: u64)
    requires t < t' && refill == (t' - t) * rate <= capacity
    ensures var drain := [Event(t, Withdraw(capacity)), Event(t', Withdraw(refill))];
            Accepted(New(capacity, rate, true, t), drain) == capacity + refill
  {
    var s := New(capacity, rate, true, t);
    var e, e' := Event(t, Withdraw(capacity)), Event(t', Withdraw(refill));
    LevelAtStamp(s);
    assert Next(s, e) == s.(available := 0);
    assert Reply(Next(s, e), e') == Decision(true);
    assert [e, e'][1..] == [e'] && [e'][1..] == [];
    assert Accepted(Next(s, e), [e']) == refill + Accepted(Next(Next(s, e), e'), []);
  }

  // ---- refinement of an eager bucket

  /** A bucket that adds its rate once every millisecond, whatever its switch says. */
  datatype Eager = Eager(tokens: nat, now: nat, capacity: nat, rate: nat, enabled: bool)

  function Tick(b: Eager): Eager { b.(tokens := Min(b.tokens + b.rate, b.capacity), now := b.now + 1) }

  function TickTo(b: Eager, t: nat): Eager
    decreases t - b.now
  {
    if b.now >= t then b else TickTo(Tick(b), t)
  }

  function EagerReply(b: Eager, op: Op): Answer
    requires b.tokens <= MAX_U64
  {
    match op
    case Withdraw(amount) => Decision(!b.enabled || amount <= b.tokens)
    case Query => Available(if b.enabled then b.tokens else MAX_U64)
    case _ => Done
  }

  function EagerNext(b: Eager, op: Op): Eager {
    match op
    case Withdraw(amount) => if b.enabled && amount <= b.tokens then b.(tokens := b.tokens - amount) else b
    case Deposit(amount) => if b.enabled then b.(tokens := Min(b.tokens + amount, b.capacity)) else b
    case Query => b
    case Configure(capacity, rate, enabled) => Eager(Min(b.tokens, capacity), b.now, capacity, rate, enabled)
  }

  ghost predicate EagerFits(b: Eager) { b.tokens <= b.capacity <= MAX_U64 }

  lemma {:induction false} TickToAddsRate(b: Eager, t: nat)
    requires b.tokens <= b.capacity && b.now <= t
    ensures 0 <= (t - b.now) * b.rate
    ensures TickTo(b, t) == b.(tokens := Min(b.tokens + (t - b.now) * b.rate, b.capacity), now := t)
    decreases t - b.now
  {
    if b.now < t {
      TickToAddsRate(Tick(b), t);
      assert (t - b.now) * b.rate == b.rate + (t - (b.now + 1)) * b.rate;
      assert 0 <= (t - (b.now + 1)) * b.rate;
    }
  }

  function EagerRun(b: Eager, es: Trace): Eager
    decreases |es|
  {
    if es == [] then b else EagerRun(EagerNext(TickTo(b, es[0].now), es[0].op), es[1..])
  }

  ghost function EagerAnswers(b: Eager, es: Trace): seq<Answer>
    requires EagerFits(b) && b.now <= MAX_U64 && Monotone(b.now, es)
    decreases |es|
  {
    if es == [] then []
    else
      TickToAddsRate(b, es[0].now);
      var b' := TickTo(b, es[0].now);
      [EagerReply(b', es[0].op)] + EagerAnswers(EagerNext(b', es[0].op), es[1..])
  }

  /** The lazy bucket stands for the eager one: same settings, and the same tokens once brought up to date. */
  ghost predicate Tracks(s: State, b: Eager) {
    && s.Valid() && s.lastUpdatedMs <= b.now <= MAX_U64
    && b.capacity == s.capacity && b.rate == s.rate && b.enabled == s.enabled
    && b.tokens == s.Level(b.now)
  }

  lemma StepTracksAtOneInstant(s: State, b: Eager, e: Event)
    requires Tracks(s, b) && b.now == e.now
    ensures EagerFits(b)
    ensures Reply(s, e) == EagerReply(b, e.op)
    ensures Tracks(Next(s, e), EagerNext(b, e.op))
  {
    LevelAtStamp(Next(s, e));
  }

  lemma StepTracks(s: State, b: Eager, e: Event)
    requires Tracks(s, b) && b.now <= e.now
    ensures EagerFits(b) && EagerFits(TickTo(b, e.now))
    ensures Reply(s, e) == EagerReply(TickTo(b, e.now), e.op)
    ensures Tracks(Next(s, e), EagerNext(TickTo(b, e.now), e.op))
  {
    TickToAddsRate(b, e.now);
    LevelAdvances(s, b.now, e.now);
    StepTracksAtOneInstant(s, TickTo(b, e.now), e);
  }

  /** Lazy refill gives the answers of the millisecond bucket, call by call, through every mode and setting. */
  lemma {:induction false} LazyRefinesEager(s: State, b: Eager, es: Trace)
    requires Tracks(s, b) && Monotone(b.now, es)
    ensures EagerFits(b)
    ensures Answers(s, es) == EagerAnswers(b, es)
    ensures Tracks(Run(s, es), EagerRun(b, es))
    decreases |es|
  {
    if es != [] {
      var e := es[0];
      StepTracks(s, b, e);
      TickToAddsRate(b, e.now);
      LazyRefinesEager(Next(s, e), EagerNext(TickTo(b, e.now), e.op), es[1..]);
    }
  }

  /** In particular a new limiter answers like a bucket that starts full. */
  lemma NewLimiterRefinesFullBucket(capacity: u64, rate: u64, enabled: bool, now: u64, es: Trace)
    requires Monotone(now, es)
    ensures Answers(New(capacity, rate, enabled, now), es)
         == EagerAnswers(Eager(capacity, now, capacity, rate, enabled), es)
  {
    LazyRefinesEager(New(capacity, rate, enabled, now), Eager(capacity, now, capacity, rate, enabled), es);
  }

  // ---- rejected withdrawals and reads leave no trace

  /** From `t` on, nobody can tell these two buckets apart. */
  ghost predicate Agree(s: State, s': State, t: u64) {
    && s.Valid() && s'.Valid() && s.lastUpdatedMs <= t && s'.lastUpdatedMs <= t
    && s.capacity == s'.capacity && s.rate == s'.rate && s.enabled == s'.enabled
    && s.Level(t) == s'.Level(t)
  }

  lemma AgreeLater(s: State, s': State, t: u64, t': u64)
    requires Agree(s, s', t) && t <= t'
    ensures Agree(s, s', t')
  {
    LevelAdvances(s, t, t');
    LevelAdvances(s', t, t');
  }

  lemma StepAgreesAtOneInstant(s: State, s': State, e: Event)
    requires Agree(s, s', e.now)
    ensures Reply(s, e) == Reply(s', e)
    ensures Agree(Next(s, e), Next(s', e), e.now)
  {
    LevelAtStamp(Next(s, e));
    LevelAtStamp(Next(s', e));
  }

  lemma StepAgrees(s: State, s': State, t: u64, e: Event)
    requires Agree(s, s', t) && t <= e.now
    ensures Reply(s, e) == Reply(s', e)
    ensures Agree(Next(s, e), Next(s', e), e.now)
  {
    AgreeLater(s, s', t, e.now);
    StepAgreesAtOneInstant(s, s', e);
  }

  lemma InvisibleAgrees(s: State, s': State, t: u64, e: Event)
    requires Agree(s, s', t) && t <= e.now && Invisible(s, e)
    ensures Agree(Next(s, e), s', e.now)
  {
    AgreeLater(s, s', t, e.now);
    LevelAtStamp(Next(s, e));
  }

  predicate Invisible(s: State, e: Event)
    requires s.Valid()
  {
    e.op.Query? || Reply(s, e) == Decision(false)
  }

  /** A run without its rejected withdrawals and its reads, and the answers the rest of it got. */
  function Erase(s: State, es: Trace): Trace
    requires s.Valid()
    decreases |es|
  {
    if es == [] then []
    else (if Invisible(s, es[0]) then [] else [es[0]]) + Erase(Next(s, es[0]), es[1..])
  }

  function Kept(s: State, es: Trace): seq<Answer>
    requires s.Valid()
    decreases |es|
  {
    if es == [] then []
    else (if Invisible(s, es[0]) then [] else [Reply(s, es[0])]) + Kept(Next(s, es[0]), es[1..])
  }

  lemma {:induction false} ErasureIsUnobservable(s: State, s': State, t: u64, es: Trace)
    requires Agree(s, s', t) && Monotone(t, es)
    ensures Answers(s', Erase(s, es)) == Kept(s, es)
    ensures Agree(Run(s, es), Run(s', Erase(s, es)), End(t, es))
    decreases |es|
  {
    if es != [] {
      var e, rest := es[0], es[1..];
      StepAgrees(s, s', t, e);
      var tail := Erase(Next(s, e), rest);
      if Invisible(s, e) {
        InvisibleAgrees(s, s', t, e);
        ErasureIsUnobservable(Next(s, e), s', e.now, rest);
        assert Erase(s, es) == tail;
      } else {
        ErasureIsUnobservable(Next(s, e), Next(s', e), e.now, rest);
        assert Erase(s, es) == [e] + tail && ([e] + tail)[1..] == tail;
      }
    }
  }

  /** The read-only quote is exact, enabled or not, for any clock reading. */
  lemma QuoteIsExact(s: State, now: u64, amount: u64)
    requires s.Valid()
    ensures Reply(s, Event(now, Query)).Available?
    ensures Reply(s, Event(now, Withdraw(amount))) == Decision(amount <= Reply(s, Event(now, Query)).amount)
  {
  }

  // ---- admissible schedules are closed downward

  /** The second call asks for no more than the first: less out, or more in. */
  predicate Eases(e: Event, f: Event) {
    e.now == f.now && match e.op
      case Withdraw(amount) => f.op.Withdraw? && f.op.amount <= amount
      case Deposit(amount) => f.op.Deposit? && amount <= f.op.amount
      case _ => f.op == e.op
  }

  /** `fs` is `es` with some withdrawals deleted, some shrunk, and some deposits enlarged. */
  predicate Lighter(es: Trace, fs: Trace)
    decreases |es|
  {
    if es == [] then fs == []
    else
      || (es[0].op.Withdraw? && Lighter(es[1..], fs))
      || (fs != [] && Eases(es[0], fs[0]) && Lighter(es[1..], fs[1..]))
  }

  predicate AllAccepted(s: State, es: Trace)
    requires s.Valid()
    decreases |es|
  {
    es == [] || (Reply(s, es[0]) != Decision(false) && AllAccepted(Next(s, es[0]), es[1..]))
  }

  ghost predicate Dominates(s': State, s: State, t: u64) {
    && s.Valid() && s'.Valid() && s.lastUpdatedMs <= t && s'.lastUpdatedMs <= t
    && s.capacity == s'.capacity && s.rate == s'.rate && s.enabled == s'.enabled
    && s.Level(t) <= s'.Level(t)
  }

  lemma StepDominates(s: State, s': State, t: u64, e: Event, f: Event)
    requires Dominates(s', s, t) && t <= e.now && Eases(e, f) && Reply(s, e) != Decision(false)
    ensures Reply(s', f) != Decision(false)
    ensures Dominates(Next(s', f), Next(s, e), e.now)
  {
    LevelAdvances(s, t, e.now);
    LevelAdvances(s', t, e.now);
  }

  lemma {:induction false} LighterSchedulesAreAccepted(s: State, s': State, t: u64, es: Trace, fs: Trace)
    requires Dominates(s', s, t) && Monotone(t, es)
    requires AllAccepted(s, es) && Lighter(es, fs)
    ensures AllAccepted(s', fs)
    decreases |es|
  {
    if es != [] {
      var e, rest := es[0], es[1..];
      if e.op.Withdraw? && Lighter(rest, fs) {
        LevelAdvances(s, t, e.now);
        LevelAdvances(s', t, e.now);
        CallCreatesNoTokens(s, e);
        assert Dominates(s', Next(s, e), e.now);
        LighterSchedulesAreAccepted(Next(s, e), s', e.now, rest, fs);
      } else {
        StepDominates(s, s', t, e, fs[0]);
        LighterSchedulesAreAccepted(Next(s, e), Next(s', fs[0]), e.now, rest, fs[1..]);
      }
    }
  }

  lemma TwoCalls(s: State, e: Event, f: Event)
    requires s.Valid()
    ensures Run(s, [e, f]) == Next(Next(s, e), f)
    ensures Answers(s, [e, f]) == [Reply(s, e), Reply(Next(s, e), f)]
  {
    assert [e, f][1..] == [f];
    assert Run(Next(s, e), [f]) == Run(Next(Next(s, e), f), []);
    assert Answers(Next(Next(s, e), f), [f][1..]) == [];
  }

  /** Withdrawing `a + b` at one instant is withdrawing `a` and then `b`, in decision and in final state. */
  lemma WithdrawalSplits(s: State, now: u64, a: u64, b: u64)
    requires s.Valid() && a + b <= MAX_U64
    ensures var whole, first, second := Event(now, Withdraw(a + b)), Event(now, Withdraw(a)), Event(now, Withdraw(b));
            var both := Reply(s, first) == Decision(true) && Reply(Next(s, first), second) == Decision(true);
            && Reply(s, whole) == Decision(both)
            && (both ==> Run(s, [first, second]) == Next(s, whole))
  {
    var first, second := Event(now, Withdraw(a)), Event(now, Withdraw(b));
    TwoCalls(s, first, second);
  }
}
