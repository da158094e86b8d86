/**
 `BaseScraper._get` of scrapers/base.py: one rate-limiter turn, then attempts through the
 circuit breaker with exponential waits between them.

 Upstream is an environment: for each attempt, what kind of reply it gives, how long it takes
 and how long the wait after it really lasts.
 */
module Fetching {
  import opened Common
  import opened CircuitBreaking
  import RateLimiting

  /** Retryable: a timeout, an HTTP status error or a 429.  Fatal: anything else that is raised. */
  datatype Reply = Good | Retryable | Fatal

  datatype Attempt = Attempt(reply: Reply, duration: real, slept: real)

  datatype Ending = Returned | Raised(reply: Reply) | CircuitOpen(retryIn: real)

  /** `starts` are the times of the upstream calls; `backoff` is the sum of the waits asked for. */
  datatype Fetch = Fetch(ending: Ending, starts: seq<real>, backoff: real)
  {
    function Calls(): nat {
      |starts|
    }
  }

  type Upstream = nat -> Attempt

  // ---------------------------------------------------------------- waits

  function Pow2(n: nat): nat {
    if n == 0 then 1 else 2 * Pow2(n - 1)
  }

  /** `wait_exponential(multiplier=1, min=1, max=30)` after attempt number `attempt`. */
  function Wait(attempt: nat): real
    requires attempt >= 1
  {
    MaxReal(1.0, MinReal(30.0, Pow2(attempt - 1) as real))
  }

  function WaitSum(from: nat, count: nat): real
    requires from >= 1
    decreases count
  {
    if count == 0 then 0.0 else Wait(from) + WaitSum(from + 1, count - 1)
  }

  lemma {:induction false} LongWaits(attempt: nat)
    requires attempt >= 6
    ensures Wait(attempt) == 30.0 && Pow2(attempt - 1) >= 32
  {
    if attempt == 6 {
      assert Pow2(5) == 2 * Pow2(4) == 4 * Pow2(3) == 8 * Pow2(2);
    } else {
      LongWaits(attempt - 1);
    }
  }

  lemma {:induction false} CappedWaits(from: nat, count: nat)
    requires from >= 6
    ensures WaitSum(from, count) == 30.0 * count as real
    decreases count
  {
    if count > 0 {
      LongWaits(from);
      CappedWaits(from + 1, count - 1);
    }
  }

  /** 1, 2, 4, 8, 16, then 30 for ever. */
  lemma FirstWaits(n: nat)
    ensures n <= 5 ==> WaitSum(1, n) == Pow2(n) as real - 1.0
    ensures n > 5 ==> WaitSum(1, n) == 31.0 + 30.0 * (n - 5) as real
  {
    assert Pow2(1) == 2 && Pow2(2) == 4 && Pow2(3) == 8 && Pow2(4) == 2 * Pow2(3) == 16;
    assert Pow2(5) == 2 * Pow2(4) == 32;
    if n > 5 {
      CappedWaits(6, n - 5);
      assert WaitSum(4, n - 3) == 8.0 + (16.0 + WaitSum(6, n - 5));
      assert WaitSum(3, n - 2) == 4.0 + WaitSum(4, n - 3);
      assert WaitSum(1, n) == 1.0 + (2.0 + WaitSum(3, n - 2));
    } else if n >= 3 {
      assert WaitSum(4, n - 3) == if n == 3 then 0.0 else 8.0 + WaitSum(5, n - 4);
      assert WaitSum(3, n - 2) == 4.0 + WaitSum(4, n - 3);
      assert WaitSum(1, n) == 1.0 + (2.0 + WaitSum(3, n - 2));
    }
  }

  // ---------------------------------------------------------------- the retry loop, on values

  /** From attempt number `attempt` on, starting at time `now` with the breaker at `b`. */
  function Attempts(cfg: Config, b: Breaker, maxRetries: int, attempt: nat, now: real, upstream: Upstream)
    : (Fetch, Breaker)
    requires attempt >= 1
    decreases maxRetries - attempt
  {
    var entered := OnAdmit(cfg, b, now);
    match Decision(cfg, b, now, now)
    case Rejected(retryIn) => (Fetch(CircuitOpen(retryIn), [], 0.0), entered)
    case Admitted =>
      var a := upstream(attempt);
      var later := now + a.duration;
      if a.reply.Good? then (Fetch(Returned, [now], 0.0), INITIAL)
      else
        var failed := OnFailure(cfg, entered, later);
        if a.reply.Fatal? || attempt >= maxRetries then (Fetch(Raised(a.reply), [now], 0.0), failed)
        else
          var (rest, last) := Attempts(cfg, failed, maxRetries, attempt + 1, later + a.slept, upstream);
          (Fetch(rest.ending, [now] + rest.starts, Wait(attempt) + rest.backoff), last)
  }

  /** What every reachable breaker satisfies (`CircuitBreaking.StateFollowsOutcomes`). */
  predicate Coherent(cfg: Config, b: Breaker) {
    && (b.state.Closed? <==> b.failures < Trip(cfg))
    && (b.openedAt.None? <==> b.failures < Trip(cfg))
  }

  /** What upstream does with the k-th call from attempt number `attempt` on. */
  function NthCall(upstream: Upstream, attempt: nat, k: nat): Attempt
    requires attempt >= 1 && k >= 1
  {
    upstream(attempt + k - 1)
  }

  /** Calls until the retries run out. */
  function Left(maxRetries: int, attempt: nat): (n: nat)
    ensures n >= 1
  {
    Max(1, maxRetries - attempt + 1)
  }

  /** Calls until a failure trips the breaker. */
  function Allowed(cfg: Config, b: Breaker): (n: nat)
    ensures n >= 1
  {
    Max(1, cfg.failThreshold - b.failures)
  }

  /**
   A reason to stop after the k-th call: a reply that is not retried, no retries left, or a
   tripped breaker that the wait after this call does not outlast.
   */
  predicate StopsAt(cfg: Config, b: Breaker, maxRetries: int, attempt: nat, upstream: Upstream, k: nat)
    requires attempt >= 1 && k >= 1
  {
    var a := NthCall(upstream, attempt, k);
    || !a.reply.Retryable?
    || k >= Left(maxRetries, attempt)
    || (k >= Allowed(cfg, b) && a.slept < cfg.resetSeconds)
  }

  /** The first reason to stop. */
  predicate StopsFirstAt(cfg: Config, b: Breaker, maxRetries: int, attempt: nat, upstream: Upstream, k: nat)
    requires attempt >= 1
  {
    && k >= 1 && StopsAt(cfg, b, maxRetries, attempt, upstream, k)
    && forall j | 1 <= j < k :: !StopsAt(cfg, b, maxRetries, attempt, upstream, j)
  }

  /** What the breaker looks like to the next attempt after a retryable failure. */
  function AfterFailure(cfg: Config, b: Breaker, now: real, later: real): Breaker {
    OnFailure(cfg, OnAdmit(cfg, b, now), later)
  }

  lemma NextStop(cfg: Config, b: Breaker, maxRetries: int, attempt: nat, now: real, later: real,
                 upstream: Upstream, k: nat)
    requires attempt >= 1 && Coherent(cfg, b) && attempt < maxRetries && k >= 1
    ensures StopsAt(cfg, b, maxRetries, attempt, upstream, k + 1)
            <==> StopsAt(cfg, AfterFailure(cfg, b, now, later), maxRetries, attempt + 1, upstream, k)
  {
  }

  /** A retried failure goes on exactly when the breaker lets the next attempt in after the wait. */
  lemma FirstStop(cfg: Config, b: Breaker, maxRetries: int, attempt: nat, now: real, later: real, upstream: Upstream)
    requires attempt >= 1 && Coherent(cfg, b) && Decision(cfg, b, now, now).Admitted?
    requires attempt < maxRetries && upstream(attempt).reply.Retryable?
    ensures var next, slept := AfterFailure(cfg, b, now, later), upstream(attempt).slept;
            && Coherent(cfg, next)
            && (StopsAt(cfg, b, maxRetries, attempt, upstream, 1)
                <==> Decision(cfg, next, later + slept, later + slept).Rejected?)
            && (Decision(cfg, next, later + slept, later + slept).Rejected? ==>
                  Decision(cfg, next, later + slept, later + slept).retryIn == cfg.resetSeconds - slept)
  {
  }

  /** The exact number of upstream calls, for every upstream: up to the first reason to stop. */
  lemma {:induction false} CallCount(cfg: Config, b: Breaker, maxRetries: int, attempt: nat,
                                     now: real, upstream: Upstream)
    requires attempt >= 1 && Coherent(cfg, b) && Decision(cfg, b, now, now).Admitted?
    ensures StopsFirstAt(cfg, b, maxRetries, attempt, upstream,
                         Attempts(cfg, b, maxRetries, attempt, now, upstream).0.Calls())
    decreases maxRetries - attempt
  {
    hide OnAdmit, OnFailure, Coherent, Allowed, Wait;
    var a := upstream(attempt);
    if a.reply.Retryable? && attempt < maxRetries {
      hide StopsAt, Decision;
      var later := now + a.duration;
      var next := AfterFailure(cfg, b, now, later);
      FirstStop(cfg, b, maxRetries, attempt, now, later, upstream);
      if Decision(cfg, next, later + a.slept, later + a.slept).Admitted? {
        CallCount(cfg, next, maxRetries, attempt + 1, later + a.slept, upstream);
        var rest := Attempts(cfg, next, maxRetries, attempt + 1, later + a.slept, upstream).0;
        forall k | 2 <= k <= rest.Calls() + 1
          ensures StopsAt(cfg, b, maxRetries, attempt, upstream, k)
                  <==> StopsAt(cfg, next, maxRetries, attempt + 1, upstream, k - 1)
        {
          NextStop(cfg, b, maxRetries, attempt, now, later, upstream, k - 1);
        }
        StopsOneLater(cfg, b, next, maxRetries, attempt, upstream, rest.Calls());
      }
    }
  }

  lemma StopsOneLater(cfg: Config, b: Breaker, next: Breaker, maxRetries: int, attempt: nat, upstream: Upstream, n: nat)
    requires attempt >= 1 && StopsFirstAt(cfg, next, maxRetries, attempt + 1, upstream, n)
    requires !StopsAt(cfg, b, maxRetries, attempt, upstream, 1)
    requires forall k | 2 <= k <= n + 1 :: (StopsAt(cfg, b, maxRetries, attempt, upstream, k)
                                            <==> StopsAt(cfg, next, maxRetries, attempt + 1, upstream, k - 1))
    ensures StopsFirstAt(cfg, b, maxRetries, attempt, upstream, n + 1)
  {
    hide StopsAt;
    forall j | 1 <= j < n + 1 ensures !StopsAt(cfg, b, maxRetries, attempt, upstream, j) {
      if j > 1 {
        assert !StopsAt(cfg, next, maxRetries, attempt + 1, upstream, j - 1);
      }
    }
  }

  /**
   How it ends and how long it backs off, for every upstream: the last reply decides, except that
   a retryable failure with retries left means the breaker refused the next attempt, after one
   more wait.
   */
  lemma {:induction false} EndingAndBackoff(cfg: Config, b: Breaker, maxRetries: int, attempt: nat,
                                            now: real, upstream: Upstream)
    requires attempt >= 1 && Coherent(cfg, b) && Decision(cfg, b, now, now).Admitted?
    ensures var f := Attempts(cfg, b, maxRetries, attempt, now, upstream).0;
            && f.Calls() >= 1
            && var reply := upstream(attempt + f.Calls() - 1).reply;
            && (f.ending.CircuitOpen? <==> reply.Retryable? && f.Calls() < Left(maxRetries, attempt))
            && (f.ending.Returned? <==> reply.Good?)
            && (f.ending.Raised? ==> f.ending.reply == reply)
            && (f.ending.CircuitOpen? ==>
                  f.ending.retryIn == cfg.resetSeconds - upstream(attempt + f.Calls() - 1).slept)
            && f.backoff == WaitSum(attempt, if f.ending.CircuitOpen? then f.Calls() else f.Calls() - 1)
    decreases maxRetries - attempt
  {
    hide OnAdmit, OnFailure, Coherent, Allowed, Wait, Decision;
    var a := upstream(attempt);
    if a.reply.Retryable? && attempt < maxRetries {
      var later := now + a.duration;
      var next := AfterFailure(cfg, b, now, later);
      FirstStop(cfg, b, maxRetries, attempt, now, later, upstream);
      if Decision(cfg, next, later + a.slept, later + a.slept).Admitted? {
        EndingAndBackoff(cfg, next, maxRetries, attempt + 1, later + a.slept, upstream);
      } else {
        assert WaitSum(attempt, 1) == Wait(attempt) + WaitSum(attempt + 1, 0);
      }
    }
  }

  // ---------------------------------------------------------------- an upstream that keeps failing

  /**
   The breaker cuts the retries of a failing upstream short, at the call that trips it, exactly
   when the wait after that one call is shorter than the reset window.
   */
  lemma CutExactlyWhen(cfg: Config, b: Breaker, maxRetries: int, attempt: nat, now: real, upstream: Upstream)
    requires attempt >= 1 && Coherent(cfg, b) && Decision(cfg, b, now, now).Admitted?
    requires forall i | i >= attempt :: upstream(i).reply.Retryable?
    ensures var calls := Attempts(cfg, b, maxRetries, attempt, now, upstream).0.Calls();
            var left, allowed := Left(maxRetries, attempt), Allowed(cfg, b);
            calls == Min(left, allowed)
            <==> left <= allowed || NthCall(upstream, attempt, allowed).slept < cfg.resetSeconds
  {
    hide Attempts, Decision, Coherent;
    CallCount(cfg, b, maxRetries, attempt, now, upstream);
    var n := Min(Left(maxRetries, attempt), Allowed(cfg, b));
    var calls := Attempts(cfg, b, maxRetries, attempt, now, upstream).0.Calls();
    assert forall k | 1 <= k < n :: !StopsAt(cfg, b, maxRetries, attempt, upstream, k);
    assert calls > n ==> !StopsAt(cfg, b, maxRetries, attempt, upstream, n);
  }

  /** It never cuts them short exactly when every wait from that call on outlasts the window. */
  lemma UncutExactlyWhen(cfg: Config, b: Breaker, maxRetries: int, attempt: nat, now: real, upstream: Upstream)
    requires attempt >= 1 && Coherent(cfg, b) && Decision(cfg, b, now, now).Admitted?
    requires forall i | i >= attempt :: upstream(i).reply.Retryable?
    ensures Attempts(cfg, b, maxRetries, attempt, now, upstream).0.Calls() == Left(maxRetries, attempt)
            <==> forall k | Allowed(cfg, b) <= k < Left(maxRetries, attempt) ::
                   NthCall(upstream, attempt, k).slept >= cfg.resetSeconds
  {
    hide Attempts, Decision, Coherent;
    CallCount(cfg, b, maxRetries, attempt, now, upstream);
    var left := Left(maxRetries, attempt);
    var calls := Attempts(cfg, b, maxRetries, attempt, now, upstream).0.Calls();
    forall k | 1 <= k < left
      ensures StopsAt(cfg, b, maxRetries, attempt, upstream, k)
              <==> k >= Allowed(cfg, b) && NthCall(upstream, attempt, k).slept < cfg.resetSeconds
    {
    }
    assert StopsAt(cfg, b, maxRetries, attempt, upstream, left);
  }

  lemma {:induction false} WaitBounds(attempt: nat)
    requires attempt >= 1
    ensures 1.0 <= Wait(attempt) <= 30.0 && Pow2(attempt - 1) >= 1
  {
    if attempt > 1 {
      WaitBounds(attempt - 1);
    }
  }

  lemma {:induction false} WaitsGrow(i: nat, j: nat)
    requires 1 <= i <= j
    ensures Wait(i) <= Wait(j) && Pow2(i - 1) <= Pow2(j - 1)
    decreases j
  {
    if i < j {
      WaitsGrow(i, j - 1);
    }
  }

  /**
   With exact sleeps the number of calls is the retries or, exactly when the wait after the
   tripping call is shorter than the reset window, the failures left to the threshold.  A window
   above the 30 second cap is always longer.
   */
  lemma PersistentFailure(cfg: Config, b: Breaker, maxRetries: int, now: real, upstream: Upstream)
    requires Coherent(cfg, b)
    requires forall i | i >= 1 :: upstream(i).reply.Retryable? && upstream(i).slept == Wait(i)
    ensures var f := Attempts(cfg, b, maxRetries, 1, now, upstream).0;
            if Decision(cfg, b, now, now).Rejected? then
              f.Calls() == 0 && f.backoff == 0.0 && f.ending.CircuitOpen?
            else
              var left, allowed := Left(maxRetries, 1), Allowed(cfg, b);
              var cut := allowed < left && Wait(allowed) < cfg.resetSeconds;
              && f.Calls() == (if cut then allowed else left)
              && f.ending.CircuitOpen? == cut
              && f.backoff == WaitSum(1, if cut then allowed else left - 1)
              && (cfg.resetSeconds > 30.0 ==> f.Calls() == Min(left, allowed))
  {
    if Decision(cfg, b, now, now).Admitted? {
      FailsToTheEnd(cfg, b, maxRetries, now, upstream);
    }
  }

  lemma FailsToTheEnd(cfg: Config, b: Breaker, maxRetries: int, now: real, upstream: Upstream)
    requires Coherent(cfg, b) && Decision(cfg, b, now, now).Admitted?
    requires forall i | i >= 1 :: upstream(i).reply.Retryable? && upstream(i).slept == Wait(i)
    ensures var f := Attempts(cfg, b, maxRetries, 1, now, upstream).0;
            var left, allowed := Left(maxRetries, 1), Allowed(cfg, b);
            var cut := allowed < left && Wait(allowed) < cfg.resetSeconds;
            && f.Calls() == (if cut then allowed else left)
            && f.ending.CircuitOpen? == cut
            && f.backoff == WaitSum(1, if cut then allowed else left - 1)
            && (cfg.resetSeconds > 30.0 ==> f.Calls() == Min(left, allowed))
  {
    hide Attempts, Decision, Coherent, Wait, WaitSum, Left, Allowed;
    var left, allowed := Left(maxRetries, 1), Allowed(cfg, b);
    CutExactlyWhen(cfg, b, maxRetries, 1, now, upstream);
    UncutExactlyWhen(cfg, b, maxRetries, 1, now, upstream);
    EndingAndBackoff(cfg, b, maxRetries, 1, now, upstream);
    WaitBounds(allowed);
    forall k | allowed <= k < left ensures Wait(allowed) <= NthCall(upstream, 1, k).slept {
      WaitsGrow(allowed, k);
    }
    if allowed < left {
      assert NthCall(upstream, 1, allowed).slept == Wait(allowed);
    }
  }

  // ---------------------------------------------------------------- spacing of the calls

  /** A call and the wait after it. */
  function Lasts(a: Attempt): real {
    a.duration + a.slept
  }

  lemma StartsUnfold(cfg: Config, b: Breaker, maxRetries: int, attempt: nat, now: real, upstream: Upstream)
    requires attempt >= 1
    ensures var starts := Attempts(cfg, b, maxRetries, attempt, now, upstream).0.starts;
            var a := upstream(attempt);
            var next := AfterFailure(cfg, b, now, now + a.duration);
            || |starts| == 0
            || starts == [now]
            || (attempt < maxRetries
                && var rest := Attempts(cfg, next, maxRetries, attempt + 1, now + a.duration + a.slept, upstream).0;
                   starts == [now] + rest.starts)
  {
    hide OnAdmit, OnFailure, Wait, Decision;
  }

  /** Each call starts when the one before it and the wait after that are over. */
  lemma {:induction false} StartTimes(cfg: Config, b: Breaker, maxRetries: int, attempt: nat,
                                      now: real, upstream: Upstream, i: nat)
    requires attempt >= 1
    ensures var starts := Attempts(cfg, b, maxRetries, attempt, now, upstream).0.starts;
            && (i == 0 < |starts| ==> starts[0] == now)
            && (i + 1 < |starts| ==> starts[i + 1] == starts[i] + Lasts(NthCall(upstream, attempt, i + 1)))
    decreases maxRetries - attempt
  {
    hide Attempts, AfterFailure;
    StartsUnfold(cfg, b, maxRetries, attempt, now, upstream);
    if attempt < maxRetries {
      var a := upstream(attempt);
      var next, later := AfterFailure(cfg, b, now, now + a.duration), now + a.duration + a.slept;
      StartTimes(cfg, next, maxRetries, attempt + 1, later, upstream, 0);
      if i > 0 {
        StartTimes(cfg, next, maxRetries, attempt + 1, later, upstream, i - 1);
      }
    }
  }

  predicate Spaced(starts: seq<real>, interval: real) {
    forall i | 1 <= i < |starts| :: starts[i] - starts[i - 1] >= interval
  }

  lemma SpacedByLasting(cfg: Config, b: Breaker, maxRetries: int, attempt: nat, now: real,
                        upstream: Upstream, interval: real)
    requires attempt >= 1
    ensures var starts := Attempts(cfg, b, maxRetries, attempt, now, upstream).0.starts;
            Spaced(starts, interval)
            <==> forall k | 1 <= k < |starts| :: Lasts(NthCall(upstream, attempt, k)) >= interval
  {
    hide Attempts;
    var starts := Attempts(cfg, b, maxRetries, attempt, now, upstream).0.starts;
    forall i | 1 <= i < |starts|
      ensures starts[i] - starts[i - 1] == Lasts(NthCall(upstream, attempt, i))
    {
      StartTimes(cfg, b, maxRetries, attempt, now, upstream, i - 1);
    }
    if Spaced(starts, interval) {
      forall k | 1 <= k < |starts| ensures Lasts(NthCall(upstream, attempt, k)) >= interval {
        assert starts[k] - starts[k - 1] >= interval;
      }
    }
  }

  /**
   The retries do not take turns at the rate limiter: the calls of one fetch are an interval apart
   exactly when each reply before the first reason to stop, and the wait after it, last that long.
   */
  lemma SpacedExactlyWhen(cfg: Config, b: Breaker, maxRetries: int, attempt: nat, now: real,
                          upstream: Upstream, interval: real, n: nat)
    requires attempt >= 1 && Coherent(cfg, b) && Decision(cfg, b, now, now).Admitted?
    requires StopsFirstAt(cfg, b, maxRetries, attempt, upstream, n)
    ensures Spaced(Attempts(cfg, b, maxRetries, attempt, now, upstream).0.starts, interval)
            <==> forall k | 1 <= k < n :: Lasts(NthCall(upstream, attempt, k)) >= interval
  {
    hide Attempts, Spaced, StopsAt, Decision, Coherent;
    CallCount(cfg, b, maxRetries, attempt, now, upstream);
    SpacedByLasting(cfg, b, maxRetries, attempt, now, upstream, interval);
    var calls := Attempts(cfg, b, maxRetries, attempt, now, upstream).0.Calls();
    assert !(calls < n) && !(n < calls);
  }

  /**
   It fails for an interval of two seconds: from a closed breaker that takes two failures, the
   first retry comes one second after a quick reply.
   */
  lemma FirstRetryComesSoon(cfg: Config, maxRetries: int, now: real, upstream: Upstream)
    requires cfg.failThreshold >= 2 && maxRetries >= 2
    requires upstream(1).reply.Retryable? && upstream(1).slept == Wait(1) && upstream(1).duration < 1.0
    ensures !Spaced(Attempts(cfg, INITIAL, maxRetries, 1, now, upstream).0.starts, 2.0)
  {
    hide Attempts, Spaced;
    CallCount(cfg, INITIAL, maxRetries, 1, now, upstream);
    SpacedByLasting(cfg, INITIAL, maxRetries, 1, now, upstream, 2.0);
    assert !StopsAt(cfg, INITIAL, maxRetries, 1, upstream, 1);
    FirstWaits(1);
    assert Lasts(NthCall(upstream, 1, 1)) < 2.0;
  }

  /** Sleeps of at least the length asked for keep any interval up to the shortest wait, one second. */
  lemma ShortIntervalsAreKept(cfg: Config, b: Breaker, maxRetries: int, now: real, upstream: Upstream, interval: real)
    requires interval <= 1.0
    requires forall i | i >= 1 :: upstream(i).duration >= 0.0 && upstream(i).slept >= Wait(i)
    ensures Spaced(Attempts(cfg, b, maxRetries, 1, now, upstream).0.starts, interval)
  {
    hide Attempts, Wait, Spaced;
    SpacedByLasting(cfg, b, maxRetries, 1, now, upstream, interval);
    forall i: nat | i >= 1 ensures Lasts(NthCall(upstream, 1, i)) >= interval {
      WaitBounds(i);
    }
  }

  // ---------------------------------------------------------------- the method

  function Prepend(starts: seq<real>, backoff: real, rest: (Fetch, Breaker)): (Fetch, Breaker) {
    (Fetch(rest.0.ending, starts + rest.0.starts, backoff + rest.0.backoff), rest.1)
  }

  lemma PrependNone(rest: (Fetch, Breaker))
    ensures Prepend([], 0.0, rest) == rest
  {
    assert [] + rest.0.starts == rest.0.starts;
  }

  /** A call already made moves from the rest to what went before. */
  lemma PrependOne(starts: seq<real>, backoff: real, start: real, wait: real, rest: (Fetch, Breaker))
    ensures Prepend(starts, backoff, (Fetch(rest.0.ending, [start] + rest.0.starts, wait + rest.0.backoff), rest.1))
            == Prepend(starts + [start], backoff + wait, rest)
  {
    assert starts + ([start] + rest.0.starts) == starts + [start] + rest.0.starts;
  }

  /** `CircuitBreaker.call` around one upstream attempt, with no other coroutine in between. */
  method CallThroughBreaker(breaker: CircuitBreaker, call: nat, clock: real, a: Attempt)
    returns (admission: Admission)
    requires breaker.Valid() && Reached(breaker.trace, clock) && a.duration >= 0.0
    modifies breaker
    ensures breaker.Valid() && Reached(breaker.trace, clock + a.duration)
    ensures admission == Decision(breaker.cfg, old(breaker.Value()), clock, clock)
    ensures breaker.Value() == var entered := OnAdmit(breaker.cfg, old(breaker.Value()), clock);
                               if admission.Rejected? then entered
                               else if a.reply.Good? then INITIAL
                               else OnFailure(breaker.cfg, entered, clock + a.duration)
  {
    hide Outcomes, Rejects, OnAdmit, OnFailure, Decision, CircuitBreaker.Valid;
    admission := breaker.Enter(call, clock, clock);
    if admission.Admitted? {
      if a.reply.Good? {
        breaker.RecordSuccess(call, clock + a.duration);
      } else {
        breaker.RecordFailure(call, clock + a.duration);
      }
    }
  }

  /** The attempts, as the loop runs them through the shared breaker. */
  method RetryThroughBreaker(breaker: CircuitBreaker, maxRetries: int, start: real, upstream: Upstream)
    returns (f: Fetch)
    requires breaker.Valid() && Reached(breaker.trace, start)
    requires forall i :: upstream(i).duration >= 0.0 && upstream(i).slept >= 0.0
    modifies breaker
    ensures breaker.Valid()
    ensures (f, breaker.Value()) == Attempts(breaker.cfg, old(breaker.Value()), maxRetries, 1, start, upstream)
  {
    hide Reached, OnAdmit, OnFailure, Decision, Wait, CircuitBreaker.Valid;
    var clock, attempt, backoff := start, 1, 0.0;
    var starts: seq<real> := [];
    PrependNone(Attempts(breaker.cfg, breaker.Value(), maxRetries, 1, clock, upstream));
    ghost var total := Attempts(breaker.cfg, breaker.Value(), maxRetries, 1, clock, upstream);
    while true
      invariant attempt >= 1 && breaker.Valid() && Reached(breaker.trace, clock)
      invariant total
              == Prepend(starts, backoff, Attempts(breaker.cfg, breaker.Value(), maxRetries, attempt, clock, upstream))
      decreases maxRetries - attempt
    {
      var a := upstream(attempt);
      var admission := CallThroughBreaker(breaker, attempt, clock, a);
      if admission.Rejected? {
        assert starts + [] == starts;
        return Fetch(CircuitOpen(admission.retryIn), starts, backoff);
      }
      starts := starts + [clock];
      if a.reply.Good? {
        return Fetch(Returned, starts, backoff);
      }
      if a.reply.Fatal? || attempt >= maxRetries {
        return Fetch(Raised(a.reply), starts, backoff);
      }
      PrependOne(starts[..|starts| - 1], backoff, clock, Wait(attempt),
                 Attempts(breaker.cfg, breaker.Value(), maxRetries, attempt + 1,
                          clock + a.duration + a.slept, upstream));
      backoff := backoff + Wait(attempt);
      ReachedLater(breaker.trace, clock + a.duration, clock + a.duration + a.slept);
      clock := clock + a.duration + a.slept;
      attempt := attempt + 1;
    }
  }

  /** One `_get`: a turn at the rate limiter, once, then the attempts. */
  method Get(limiter: RateLimiting.RateLimiter, breaker: CircuitBreaker, maxRetries: int,
             now: real, late: real, upstream: Upstream)
    returns (f: Fetch)
    requires limiter.Valid() && breaker.Valid() && Reached(breaker.trace, now) && late >= 0.0
    requires forall i :: upstream(i).duration >= 0.0 && upstream(i).slept >= 0.0
    modifies limiter, breaker
    ensures limiter.Valid() && breaker.Valid()
    ensures limiter.queue == old(limiter.queue) + [RateLimiting.Turn(now, late)]
    ensures (f, breaker.Value())
            == Attempts(breaker.cfg, old(breaker.Value()), maxRetries, 1, limiter.last, upstream)
    ensures if Rejects(breaker.cfg, Outcomes(old(breaker.trace)), limiter.last)
            then var last := Outcomes(old(breaker.trace))[|Outcomes(old(breaker.trace))| - 1].at;
                 f.Calls() == 0 && f.ending == CircuitOpen(last + breaker.cfg.resetSeconds - limiter.last)
            else StopsFirstAt(breaker.cfg, old(breaker.Value()), maxRetries, 1, upstream, f.Calls())
                 && f.starts[0] == limiter.last
  {
    limiter.Acquire(now, late);
    StateFollowsOutcomes(breaker.cfg, breaker.trace);
    RejectedExactlyWhen(breaker.cfg, breaker.trace, limiter.last, limiter.last);
    if Rejects(breaker.cfg, Outcomes(breaker.trace), limiter.last) {
      HintIsWhatIsLeft(breaker.cfg, breaker.trace, limiter.last, limiter.last);
    } else {
      CallCount(breaker.cfg, breaker.Value(), maxRetries, 1, limiter.last, upstream);
      StartTimes(breaker.cfg, breaker.Value(), maxRetries, 1, limiter.last, upstream, 0);
    }
    f := RetryThroughBreaker(breaker, maxRetries, limiter.last, upstream);
  }
}
