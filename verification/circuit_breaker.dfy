/**
 The per-source circuit breaker of services/circuit_breaker.py.

 Many coroutines share one breaker.  The lock covers admission and the recording of an
 outcome, but not the upstream call between them, so those two critical sections are the
 atomic steps and an outcome may land in any state.  A run is a sequence of such steps with
 a clock that never goes back (`time.monotonic`).

 `After` is the state the code reaches; `Rejects` is what a caller should see, said only in
 terms of the outcomes recorded so far.
 */
module CircuitBreaking {
  import opened Common

  datatype CircuitState = Closed | Open | HalfOpen

  datatype Config = Config(failThreshold: int, resetSeconds: real)

  datatype Breaker = Breaker(state: CircuitState, failures: nat, openedAt: Option<real>)

  datatype Admission = Admitted | Rejected(retryIn: real)

  /** One critical section, or a cancellation (which runs none: `CancelledError` is not an `Exception`). */
  datatype Event =
    | Admit(call: nat, at: real, readAt: real)  // the clock is read again for `retry_in_s`
    | Succeed(call: nat, at: real)
    | Fail(call: nat, at: real)
    | Cancel(call: nat, at: real)
  {
    function End(): real {
      if Admit? then readAt else at
    }
  }

  // ---------------------------------------------------------------- the code, on values

  const INITIAL := Breaker(Closed, 0, None)

  /** Python's `given or default`: None and 0 both fall back. */
  function OrDefault(given: Option<int>, default: int): int {
    if given.Some? && given.value != 0 then given.value else default
  }

  function Due(cfg: Config, b: Breaker, now: real): bool {
    b.state.Open? && b.openedAt.Some? && now - b.openedAt.value >= cfg.resetSeconds
  }

  function OnAdmit(cfg: Config, b: Breaker, now: real): Breaker {
    if Due(cfg, b, now) then b.(state := HalfOpen) else b
  }

  function RetryIn(cfg: Config, b: Breaker, now: real): real {
    if b.openedAt.None? then 0.0
    else MaxReal(0.0, cfg.resetSeconds - (now - b.openedAt.value))
  }

  function Decision(cfg: Config, b: Breaker, now: real, readAt: real): Admission {
    if OnAdmit(cfg, b, now).state.Open? then Rejected(RetryIn(cfg, b, readAt)) else Admitted
  }

  function OnFailure(cfg: Config, b: Breaker, now: real): Breaker {
    var failures := b.failures + 1;
    if b.state.HalfOpen? || failures >= cfg.failThreshold
    then Breaker(Open, failures, Some(now))
    else b.(failures := failures)
  }

  function Step(cfg: Config, b: Breaker, e: Event): Breaker {
    match e
    case Admit(_, at, _) => OnAdmit(cfg, b, at)
    case Succeed(_, _) => INITIAL
    case Fail(_, at) => OnFailure(cfg, b, at)
    case Cancel(_, _) => b
  }

  /** The state after a run. */
  function After(cfg: Config, trace: seq<Event>): Breaker {
    if trace == [] then INITIAL
    else Step(cfg, After(cfg, trace[..|trace| - 1]), trace[|trace| - 1])
  }

  // ---------------------------------------------------------------- what callers should see

  datatype Outcome = Success | Failure(at: real)

  function Outcomes(trace: seq<Event>): seq<Outcome> {
    if trace == [] then []
    else
      var before := Outcomes(trace[..|trace| - 1]);
      match trace[|trace| - 1]
      case Succeed(_, _) => before + [Success]
      case Fail(_, at) => before + [Failure(at)]
      case _ => before
  }

  predicate EndsInFailures(o: seq<Outcome>, k: nat) {
    k <= |o| && forall i | |o| - k <= i < |o| :: o[i].Failure?
  }

  /** A threshold below 1 trips at the first failure, like 1. */
  function Trip(cfg: Config): nat {
    Max(1, cfg.failThreshold)
  }

  /** The specification of rejection: a long enough tail of failures, the last one recent. */
  predicate Rejects(cfg: Config, o: seq<Outcome>, t: real) {
    EndsInFailures(o, Trip(cfg)) && t - o[|o| - 1].at < cfg.resetSeconds
  }

  predicate Reached(trace: seq<Event>, t: real) {
    trace == [] || trace[|trace| - 1].End() <= t
  }

  /** The clock never goes back along the run. */
  predicate Timed(trace: seq<Event>) {
    trace == [] ||
    var last := trace[|trace| - 1];
    var before := trace[..|trace| - 1];
    Timed(before) && Reached(before, last.at) && last.at <= last.End()
  }

  // ---------------------------------------------------------------- the invariant

  /** The number of failures recorded since the last success. */
  function Tail(o: seq<Outcome>): nat {
    if o == [] || o[|o| - 1].Success? then 0 else Tail(o[..|o| - 1]) + 1
  }

  lemma {:induction false} TailMeaning(o: seq<Outcome>, k: nat)
    ensures Tail(o) >= k <==> EndsInFailures(o, k)
  {
    if k > 0 && o != [] && o[|o| - 1].Failure? {
      TailMeaning(o[..|o| - 1], k - 1);
    }
  }

  predicate Consistent(cfg: Config, b: Breaker, o: seq<Outcome>) {
    && b.failures == Tail(o)
    && (b.state.Closed? <==> b.failures < Trip(cfg))
    && (b.openedAt.None? <==> b.failures < Trip(cfg))
    && (b.openedAt.Some? ==> o != [] && o[|o| - 1] == Failure(b.openedAt.value))
  }

  /**
   The invariant every run keeps: CLOSED, fewer failures than the threshold and
   `opened_at is None` say the same, `opened_at` is the time of the last failure, and
   HALF_OPEN is only seen once the reset window is over.
   */
  lemma {:induction false} StateFollowsOutcomes(cfg: Config, trace: seq<Event>)
    requires Timed(trace)
    ensures var b := After(cfg, trace);
            && Consistent(cfg, b, Outcomes(trace))
            && (b.openedAt.Some? ==> trace != [] && b.openedAt.value <= trace[|trace| - 1].End())
            && (b.state.HalfOpen? ==>
                  trace != [] && trace[|trace| - 1].End() - b.openedAt.value >= cfg.resetSeconds)
  {
    if trace != [] {
      var before := trace[..|trace| - 1];
      StateFollowsOutcomes(cfg, before);
      var o := Outcomes(before);
      match trace[|trace| - 1] {
        case Fail(_, at) => assert (o + [Failure(at)])[..|o|] == o;
        case Succeed(_, _) => assert (o + [Success])[..|o|] == o;
        case _ =>
      }
    }
  }

  /**
   Main theorem.  After any interleaving of admissions, late outcomes and cancellations, a
   call made at `at` is rejected exactly when the recorded outcomes end in at least the
   threshold's number of failures and the last of them is less than the reset window old.
   */
  lemma RejectedExactlyWhen(cfg: Config, trace: seq<Event>, at: real, readAt: real)
    requires Timed(trace) && Reached(trace, at)
    ensures Decision(cfg, After(cfg, trace), at, readAt).Rejected? <==> Rejects(cfg, Outcomes(trace), at)
  {
    StateFollowsOutcomes(cfg, trace);
    TailMeaning(Outcomes(trace), Trip(cfg));
  }

  // ---------------------------------------------------------------- the retry hint

  lemma {:induction false} OutcomesOfRun(a: seq<Event>, b: seq<Event>)
    requires forall e | e in b :: !e.Fail?
    ensures Outcomes(a + b) == Outcomes(a) ||
            (Outcomes(a + b) != [] && Outcomes(a + b)[|Outcomes(a + b)| - 1].Success?)
  {
    if b == [] {
      assert a + b == a;
    } else {
      var front := b[..|b| - 1];
      OutcomesOfRun(a, front);
      assert (a + b)[..|a + b| - 1] == a + front;
      assert b[|b| - 1] in b;
    }
  }

  /**
   A rejected caller is told a wait between 0 and the reset window.  If no failure is recorded
   meanwhile, any call made at least that long after the hint was read is admitted, whatever
   else happens in between.
   */
  lemma RetryHintIsEnough(cfg: Config, trace: seq<Event>, hint: Event, meanwhile: seq<Event>, at: real, readAt: real)
    requires hint.Admit? && Timed(trace + [hint] + meanwhile) && Reached(trace + [hint] + meanwhile, at)
    requires Timed(trace) && Reached(trace, hint.at) && hint.at <= hint.readAt
    requires Decision(cfg, After(cfg, trace), hint.at, hint.readAt).Rejected?
    requires forall e | e in meanwhile :: !e.Fail?
    requires at >= hint.readAt + Decision(cfg, After(cfg, trace), hint.at, hint.readAt).retryIn
    ensures 0.0 <= Decision(cfg, After(cfg, trace), hint.at, hint.readAt).retryIn <= cfg.resetSeconds
    ensures Decision(cfg, After(cfg, trace + [hint] + meanwhile), at, readAt).Admitted?
  {
    var told := trace + [hint];
    assert told[..|told| - 1] == trace;
    StateFollowsOutcomes(cfg, trace);
    OutcomesOfRun(told, meanwhile);
    RejectedExactlyWhen(cfg, trace, hint.at, hint.readAt);
    RejectedExactlyWhen(cfg, told + meanwhile, at, readAt);
  }

  lemma {:induction false} NoOutcomes(a: seq<Event>, b: seq<Event>)
    requires forall e | e in b :: e.Admit? || e.Cancel?
    ensures Outcomes(a + b) == Outcomes(a)
  {
    if b == [] {
      assert a + b == a;
    } else {
      var front := b[..|b| - 1];
      NoOutcomes(a, front);
      assert (a + b)[..|a + b| - 1] == a + front;
      assert b[|b| - 1] in b;
    }
  }

  /** The wait is what is left of the reset window, counted from the last recorded failure. */
  lemma HintIsWhatIsLeft(cfg: Config, trace: seq<Event>, at: real, readAt: real)
    requires Timed(trace) && Reached(trace, at)
    requires Decision(cfg, After(cfg, trace), at, readAt).Rejected?
    ensures var o := Outcomes(trace);
            && o != [] && o[|o| - 1].Failure?
            && var left := o[|o| - 1].at + cfg.resetSeconds - readAt;
               Decision(cfg, After(cfg, trace), at, readAt).retryIn == if left > 0.0 then left else 0.0
  {
    StateFollowsOutcomes(cfg, trace);
  }

  /**
   The wait is exact: when no outcome is recorded meanwhile, only admissions and cancellations, the
   calls from the hint on are admitted exactly once that much time has passed.
   */
  lemma HintIsExact(cfg: Config, trace: seq<Event>, hint: Event, meanwhile: seq<Event>, at: real, readAt: real)
    requires hint.Admit? && Timed(trace + [hint] + meanwhile) && Reached(trace + [hint] + meanwhile, at)
    requires Timed(trace) && Reached(trace, hint.at) && hint.at <= hint.readAt <= at
    requires Decision(cfg, After(cfg, trace), hint.at, hint.readAt).Rejected?
    requires forall e | e in meanwhile :: e.Admit? || e.Cancel?
    ensures Decision(cfg, After(cfg, trace + [hint] + meanwhile), at, readAt).Admitted?
            <==> at >= hint.readAt + Decision(cfg, After(cfg, trace), hint.at, hint.readAt).retryIn
  {
    hide After, Decision, Timed, Reached, Outcomes;
    JoinThree(trace, [hint], meanwhile);
    NoOutcomes(trace, [hint] + meanwhile);
    HintIsWhatIsLeft(cfg, trace, hint.at, hint.readAt);
    RejectedExactlyWhen(cfg, trace, hint.at, hint.readAt);
    RejectedExactlyWhen(cfg, trace + [hint] + meanwhile, at, readAt);
  }

  // ---------------------------------------------------------------- no single probe

  /** The calls admitted and not yet finished. */
  function InFlight(cfg: Config, trace: seq<Event>): set<nat> {
    if trace == [] then {}
    else
      var before := trace[..|trace| - 1];
      match trace[|trace| - 1]
      case Admit(c, at, readAt) =>
        if Decision(cfg, After(cfg, before), at, readAt).Admitted?
        then InFlight(cfg, before) + {c} else InFlight(cfg, before)
      case Succeed(c, _) => InFlight(cfg, before) - {c}
      case Fail(c, _) => InFlight(cfg, before) - {c}
      case Cancel(c, _) => InFlight(cfg, before) - {c}
  }

  /** Calls start once and only finish when in flight: what the coroutines can produce. */
  predicate Legal(cfg: Config, trace: seq<Event>) {
    trace == [] ||
    var before := trace[..|trace| - 1];
    var last := trace[|trace| - 1];
    && Legal(cfg, before)
    && (last.Admit? <==> last.call !in InFlight(cfg, before))
  }

  lemma {:induction false} Extend(cfg: Config, trace: seq<Event>, e: Event)
    requires Timed(trace) && Legal(cfg, trace) && Reached(trace, e.at) && e.at <= e.End()
    requires e.Admit? <==> e.call !in InFlight(cfg, trace)
    ensures Timed(trace + [e]) && Legal(cfg, trace + [e])
    ensures After(cfg, trace + [e]) == Step(cfg, After(cfg, trace), e)
    ensures InFlight(cfg, trace + [e]) ==
            if e.Admit? then
              if Decision(cfg, After(cfg, trace), e.at, e.readAt).Admitted? then InFlight(cfg, trace) + {e.call}
              else InFlight(cfg, trace)
            else InFlight(cfg, trace) - {e.call}
  {
    assert (trace + [e])[..|trace + [e]| - 1] == trace;
  }

  lemma NothingYet(cfg: Config)
    ensures Timed([]) && Legal(cfg, []) && InFlight(cfg, []) == {} && Reached([], 0.0) && After(cfg, []) == INITIAL
  {
  }

  lemma ReachedAtEnd(trace: seq<Event>, e: Event)
    ensures Reached(trace + [e], e.End())
  {
  }

  lemma ReachedLater(trace: seq<Event>, t: real, later: real)
    requires Reached(trace, t) && t <= later
    ensures Reached(trace, later)
  {
  }

  /** A legal run of `k` failed calls at time 0, from a breaker still closed. */
  lemma {:induction false} FailRun(cfg: Config, k: nat) returns (trace: seq<Event>)
    requires k <= Trip(cfg)
    ensures Timed(trace) && Legal(cfg, trace) && InFlight(cfg, trace) == {} && Reached(trace, 0.0)
    ensures After(cfg, trace) == if k < Trip(cfg) then Breaker(Closed, k, None) else Breaker(Open, k, Some(0.0))
  {
    hide Timed, Legal, InFlight, After, Reached;
    if k == 0 {
      trace := [];
      NothingYet(cfg);
    } else {
      var t := FailRun(cfg, k - 1);
      var admit, fail := Admit(0, 0.0, 0.0), Fail(0, 0.0);
      Extend(cfg, t, admit);
      ReachedAtEnd(t, admit);
      Extend(cfg, t + [admit], fail);
      ReachedAtEnd(t + [admit], fail);
      trace := t + [admit] + [fail];
    }
  }

  lemma {:induction false} Probes(cfg: Config, n: nat) returns (trace: seq<Event>)
    requires cfg.resetSeconds > 0.0
    ensures Timed(trace) && Legal(cfg, trace) && Reached(trace, cfg.resetSeconds)
    ensures |InFlight(cfg, trace)| == n && forall c | c in InFlight(cfg, trace) :: c < n
    ensures After(cfg, trace).openedAt == Some(0.0)
    ensures if n == 0 then After(cfg, trace).state.Open? else After(cfg, trace).state.HalfOpen?
  {
    hide Timed, Legal, InFlight, After, Reached;
    if n == 0 {
      trace := FailRun(cfg, Trip(cfg));
      ReachedLater(trace, 0.0, cfg.resetSeconds);
    } else {
      var t := Probes(cfg, n - 1);
      var admit := Admit(n - 1, cfg.resetSeconds, cfg.resetSeconds);
      Extend(cfg, t, admit);
      ReachedAtEnd(t, admit);
      trace := t + [admit];
    }
  }

  /** "Half-open lets one probe through" is false: for every n, some legal run has n probes at once. */
  lemma HalfOpenAdmitsAnyNumberOfProbes(cfg: Config, n: nat)
    requires cfg.resetSeconds > 0.0 && n > 0
    ensures exists trace :: Timed(trace) && Legal(cfg, trace) && After(cfg, trace).state.HalfOpen?
                            && |InFlight(cfg, trace)| == n
  {
    var trace := Probes(cfg, n);
    assert Timed(trace) && Legal(cfg, trace) && After(cfg, trace).state.HalfOpen?
           && |InFlight(cfg, trace)| == n;
  }

  // ---------------------------------------------------------------- the object

  /** A failure leaves the breaker open, from now, exactly when the tail has reached the threshold. */
  lemma FailureOpensExactlyWhen(cfg: Config, trace: seq<Event>, call: nat, now: real)
    requires Timed(trace) && Reached(trace, now)
    ensures var after := After(cfg, trace + [Fail(call, now)]);
            && after == OnFailure(cfg, After(cfg, trace), now)
            && (after.state.Open? <==> EndsInFailures(Outcomes(trace + [Fail(call, now)]), Trip(cfg)))
            && (after.state.Open? ==> after.openedAt == Some(now))
            && Timed(trace + [Fail(call, now)])
  {
    var longer := trace + [Fail(call, now)];
    assert longer[..|longer| - 1] == trace;
    StateFollowsOutcomes(cfg, trace);
    StateFollowsOutcomes(cfg, longer);
    TailMeaning(Outcomes(longer), Trip(cfg));
  }

  class CircuitBreaker {
    const cfg: Config
    var state: CircuitState
    var failures: nat
    var openedAt: Option<real>
    ghost var trace: seq<Event>

    function Value(): Breaker
      reads this
    {
      Breaker(state, failures, openedAt)
    }

    ghost predicate Valid()
      reads this
    {
      Timed(trace) && Value() == After(cfg, trace)
    }

    constructor (failThreshold: Option<int>, resetSeconds: Option<int>, defaultThreshold: int, defaultReset: int)
      ensures Valid() && trace == []
      ensures cfg.failThreshold
              == if failThreshold == None || failThreshold == Some(0) then defaultThreshold else failThreshold.value
      ensures cfg.resetSeconds
              == (if resetSeconds == None || resetSeconds == Some(0) then defaultReset else resetSeconds.value) as real
      ensures Value() == Breaker(Closed, 0, None)
    {
      cfg := Config(OrDefault(failThreshold, defaultThreshold), OrDefault(resetSeconds, defaultReset) as real);
      state := Closed;
      failures := 0;
      openedAt := None;
      trace := [];
    }

    method TransitionToHalfOpenIfDue(now: real)
      modifies this`state
      ensures Value() == OnAdmit(cfg, old(Value()), now)
    {
      if state.Open? && openedAt.Some? {
        if now - openedAt.value >= cfg.resetSeconds {
          state := HalfOpen;
        }
      }
    }

    /** The first critical section of `call`. */
    method Enter(call: nat, now: real, readAt: real) returns (a: Admission)
      requires Valid() && Reached(trace, now) && now <= readAt
      modifies this
      ensures Valid() && trace == old(trace) + [Admit(call, now, readAt)]
      ensures a.Rejected? <==> Rejects(cfg, Outcomes(old(trace)), now)
      ensures a.Rejected? ==>
                var last := Outcomes(old(trace))[|Outcomes(old(trace))| - 1].at;
                0.0 <= a.retryIn <= cfg.resetSeconds
                && a.retryIn == if last + cfg.resetSeconds > readAt then last + cfg.resetSeconds - readAt else 0.0
      ensures a == Decision(cfg, old(Value()), now, readAt) && Value() == OnAdmit(cfg, old(Value()), now)
    {
      RejectedExactlyWhen(cfg, trace, now, readAt);
      StateFollowsOutcomes(cfg, trace);
      if Decision(cfg, Value(), now, readAt).Rejected? {
        HintIsWhatIsLeft(cfg, trace, now, readAt);
      }
      TransitionToHalfOpenIfDue(now);
      if state.Open? {
        a := Rejected(RetryIn(cfg, Value(), readAt));
      } else {
        a := Admitted;
      }
      trace := trace + [Admit(call, now, readAt)];
      assert trace[..|trace| - 1] == old(trace);
    }

    method OpenNow(now: real)
      modifies this`state, this`openedAt
      ensures state.Open? && openedAt == Some(now)
    {
      state := Open;
      openedAt := Some(now);
    }

    method RecordFailure(call: nat, now: real)
      requires Valid() && Reached(trace, now)
      modifies this
      ensures Valid() && trace == old(trace) + [Fail(call, now)]
      ensures state.Open? <==> EndsInFailures(Outcomes(trace), Trip(cfg))
      ensures state.Open? ==> openedAt == Some(now)
      ensures Value() == OnFailure(cfg, old(Value()), now)
    {
      FailureOpensExactlyWhen(cfg, trace, call, now);
      failures := failures + 1;
      if state.HalfOpen? {
        OpenNow(now);
      } else if failures >= cfg.failThreshold {
        OpenNow(now);
      }
      trace := trace + [Fail(call, now)];
    }

    method RecordSuccess(call: nat, now: real)
      requires Valid() && Reached(trace, now)
      modifies this
      ensures Valid() && trace == old(trace) + [Succeed(call, now)]
      ensures Value() == INITIAL
    {
      state := Closed;
      failures := 0;
      openedAt := None;
      trace := trace + [Succeed(call, now)];
      assert trace[..|trace| - 1] == old(trace);
    }
  }
}
