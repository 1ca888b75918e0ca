/** Retrying with exponential backoff, around a backend that is guarded by a circuit breaker. */
module Retry {
  import opened Prelude
  import opened CircuitBreaker

  /** Attempts, and delays in milliseconds that fit 64 bits. */
  datatype RetryConfig = RetryConfig(maxAttempts: nat, baseDelay: nat, maxDelay: nat) {
    predicate Valid() { baseDelay <= U64_MAX && maxDelay <= U64_MAX }
  }

  /** How a call ended: whether it is worth retrying, whether the breaker counts it, and the delay the server asked for. */
  datatype Response = Done | Failure(retryable: bool, transient: bool, retryAfter: Option<nat>)

  /** One call made through the breaker. A call that is not admitted fails at once as a lost connection. */
  datatype Attempt = Attempt(start: nat, finish: nat, admitted: bool, response: Response)

  const REJECTED: Response := Failure(true, true, None)

  // ---------------------------------------------------------------- Backoff

  function SaturatingMul(a: nat, b: nat): nat { Min(a * b, U64_MAX) }

  /** 1 shifted left, or the largest number if all bits are shifted out. */
  function ShiftedOne(shift: nat): nat { if shift < 64 then Pow2(shift) else U64_MAX }

  /** The largest delay after the k-th attempt, as computed in 64 bits. */
  function Ceiling(cfg: RetryConfig, k: nat): nat
    requires k >= 1
  {
    Min(SaturatingMul(cfg.baseDelay, ShiftedOne(k - 1)), cfg.maxDelay)
  }

  lemma {:induction false} Pow2Grows(m: nat, n: nat)
    requires m <= n
    ensures Pow2(m) <= Pow2(n)
  {
    if m < n {
      Pow2Grows(m, n - 1);
    }
  }

  lemma Pow2Plus8(n: nat)
    ensures Pow2(n + 8) == 0x100 * Pow2(n)
  {
    assert Pow2(n + 2) == 4 * Pow2(n);
    assert Pow2(n + 4) == 4 * Pow2(n + 2);
    assert Pow2(n + 6) == 4 * Pow2(n + 4);
  }

  lemma Pow2Of32()
    ensures Pow2(32) == 0x1_0000_0000
  {
    assert Pow2(0) == 1;
    hide Pow2;
    Pow2Plus8(0); Pow2Plus8(8); Pow2Plus8(16); Pow2Plus8(24);
  }

  lemma Pow2Of64()
    ensures Pow2(64) == U64_MAX + 1
  {
    Pow2Of32();
    hide Pow2;
    Pow2Plus8(32); Pow2Plus8(40); Pow2Plus8(48); Pow2Plus8(56);
  }

  /** Shifting past the last bit and saturating do not show: the ceiling is the exact product, capped. */
  lemma CeilingIsExact(cfg: RetryConfig, k: nat)
    requires cfg.Valid() && k >= 1
    ensures Ceiling(cfg, k) == Min(cfg.baseDelay * Pow2(k - 1), cfg.maxDelay)
  {
    if k > 64 && cfg.baseDelay > 0 {
      Pow2Of64();
      Pow2Grows(64, k - 1);
      ProductGrows(cfg.baseDelay, Pow2(k - 1));
      ProductGrows(cfg.baseDelay, U64_MAX);
    }
  }

  lemma ProductGrows(a: nat, b: nat)
    requires a >= 1
    ensures a * b >= b
  {}

  // ---------------------------------------------------------------- The breaker around the backend

  /** The calls a history of attempts makes to the breaker. */
  function EventsOf(attempts: seq<Attempt>): seq<Event> {
    if attempts == [] then []
    else
      var init, last := EventsOf(attempts[..|attempts| - 1]), attempts[|attempts| - 1];
      if last.admitted then init + [Ask(last.start), Report(last)] else init + [Ask(last.start)]
  }

  function Report(a: Attempt): Event {
    if a.response.Done? then Success else if a.response.transient then TransientError(a.finish) else OtherError
  }

  /** One call after the other, each admitted exactly when the breaker says so. */
  ghost predicate Sequential(cfg: Config, attempts: seq<Attempt>) {
    && (forall i :: 0 <= i < |attempts| ==> attempts[i].start <= attempts[i].finish)
    && (forall i, j :: 0 <= i < j < |attempts| ==> attempts[i].finish <= attempts[j].start)
    && (forall i :: 0 <= i < |attempts| ==>
          (attempts[i].admitted <==> Admits(cfg, Run(cfg, EventsOf(attempts[..i])), attempts[i].start)))
    && (forall i :: 0 <= i < |attempts| && !attempts[i].admitted ==> attempts[i].response == REJECTED)
  }

  ghost predicate Answers(backend: nat -> (Response, nat), r: Response) {
    exists n :: backend(n).0 == r
  }

  /** A backend behind a breaker, on one timeline. */
  class Guarded {
    const breaker: Breaker
    const backend: nat -> (Response, nat)
    var clock: nat
    var calls: nat
    ghost var attempts: seq<Attempt>

    ghost predicate Valid()
      reads this, breaker
    {
      && breaker.Valid()
      && breaker.log == EventsOf(attempts)
      && Sequential(breaker.config, attempts)
      && (forall i :: 0 <= i < |attempts| ==> attempts[i].finish <= clock)
      && (forall i :: 0 <= i < |attempts| && attempts[i].admitted ==> Answers(backend, attempts[i].response))
    }

    /** The backend's n-th call answers backend(n): the response and how long it takes. */
    constructor (breaker: Breaker, backend: nat -> (Response, nat))
      requires breaker.Valid() && breaker.log == []
      ensures Valid() && this.breaker == breaker && this.backend == backend && attempts == []
    {
      this.breaker, this.backend := breaker, backend;
      clock, calls, attempts := 0, 0, [];
    }

    method Execute() returns (response: Response)
      requires Valid()
      modifies this, breaker
      ensures Valid() && clock >= old(clock)
      ensures |attempts| == |old(attempts)| + 1 && attempts[..|old(attempts)|] == old(attempts)
      ensures attempts[|old(attempts)|].start == old(clock) && attempts[|old(attempts)|].finish == clock
      ensures response == attempts[|old(attempts)|].response
      ensures attempts[|old(attempts)|].admitted ==> response == backend(old(calls)).0 && clock == old(clock) + backend(old(calls)).1
      ensures calls == old(calls) + if attempts[|old(attempts)|].admitted then 1 else 0
    {
      hide Run, EventsOf, Admits, Sequential, After;
      var start := clock;
      var admitted := breaker.BeforeCall(start);
      if admitted {
        response := backend(calls).0;
        clock := clock + backend(calls).1;
        calls := calls + 1;
        breaker.AfterCall(if response.Done? then Success else if response.transient then TransientError(clock) else OtherError);
      } else {
        response := REJECTED;
      }
      ghost var last := Attempt(start, clock, admitted, response);
      ExtendSequential(breaker.config, attempts, last);
      ExtendEvents(attempts, last);
      attempts := attempts + [last];
    }

    method Sleep(delay: nat)
      requires Valid()
      modifies this`clock
      ensures Valid() && clock == old(clock) + delay
    {
      clock := clock + delay;
    }
  }

  lemma ExtendSequential(cfg: Config, attempts: seq<Attempt>, last: Attempt)
    requires Sequential(cfg, attempts)
    requires last.start <= last.finish
    requires forall i :: 0 <= i < |attempts| ==> attempts[i].finish <= last.start
    requires last.admitted <==> Admits(cfg, Run(cfg, EventsOf(attempts)), last.start)
    requires !last.admitted ==> last.response == REJECTED
    ensures Sequential(cfg, attempts + [last])
  {
    hide Run, Admits, EventsOf;
    var all := attempts + [last];
    forall i | 0 <= i < |all| ensures all[i].admitted <==> Admits(cfg, Run(cfg, EventsOf(all[..i])), all[i].start) {
      if i < |attempts| {
        assert all[..i] == attempts[..i];
      } else {
        assert all[..i] == attempts;
      }
    }
  }

  lemma ExtendEvents(attempts: seq<Attempt>, last: Attempt)
    ensures EventsOf(attempts + [last]) ==
      if last.admitted then EventsOf(attempts) + [Ask(last.start)] + [Report(last)] else EventsOf(attempts) + [Ask(last.start)]
  {
    assert (attempts + [last])[..|attempts|] == attempts;
    if last.admitted {
      ConcatAssociates(EventsOf(attempts), [Ask(last.start)], [Report(last)]);
    }
  }

  // ---------------------------------------------------------------- The retry loop

  /** Drawing a random delay from 0 to the ceiling overflows if the ceiling is the largest 64-bit number. */
  datatype Outcome = Returned(response: Response) | Panicked

  predicate Retries(cfg: RetryConfig, r: Response, k: nat) {
    r.Failure? && r.retryable && k < cfg.maxAttempts
  }

  /** The largest random pause after the k-th attempt. */
  function Backoff(cfg: RetryConfig, k: nat): (bound: nat)
    requires k >= 1
  {
    Min(cfg.baseDelay * Pow2(k - 1), cfg.maxDelay)
  }

  /** The pause after the k-th attempt is what the server asks for, or else drawn from 0 to the exact backoff bound. */
  predicate PauseMade(cfg: RetryConfig, random: nat -> nat, r: Response, k: nat, pause: int)
    requires k >= 1
  {
    r.Failure? &&
    if r.retryAfter.Some? then pause == r.retryAfter.value else pause == random(k) % (Backoff(cfg, k) + 1)
  }

  lemma RemainderBelow(n: nat, d: nat)
    requires d > 0
    ensures 0 <= n % d < d
    ensures n < d ==> n % d == n
  {}

  /** Every pause from 0 to the bound is made for some draw, and no other. */
  lemma EveryPauseIsDrawn(cfg: RetryConfig, r: Response, k: nat, pause: int)
    requires cfg.Valid() && k >= 1 && r.Failure? && r.retryAfter == None
    ensures (exists draw: nat :: draw <= U64_MAX && PauseMade(cfg, Always(draw), r, k, pause)) <==> 0 <= pause <= Backoff(cfg, k)
  {
    hide Backoff;
    if 0 <= pause <= Backoff(cfg, k) {
      BackoffFits(cfg, k);
      RemainderBelow(pause, Backoff(cfg, k) + 1);
      assert PauseMade(cfg, Always(pause), r, k, pause);
    }
    if draw: nat :| draw <= U64_MAX && PauseMade(cfg, Always(draw), r, k, pause) {
      RemainderBelow(draw, Backoff(cfg, k) + 1);
    }
  }

  function Always(draw: nat): nat -> nat { _ => draw }

  lemma BackoffFits(cfg: RetryConfig, k: nat)
    requires cfg.Valid() && k >= 1
    ensures Backoff(cfg, k) <= U64_MAX
  {}

  /** A random delay would be drawn below the largest 64-bit ceiling, for which the next number does not exist. */
  predicate Overflows(cfg: RetryConfig, r: Response, k: nat)
    requires k >= 1
  {
    Retries(cfg, r, k) && r.retryAfter == None && Backoff(cfg, k) == U64_MAX
  }

  /** The attempt was followed by another one, as the configuration allows. */
  ghost predicate RetriedWell(cfg: RetryConfig, random: nat -> nat, made: seq<Attempt>, k: nat)
    requires k + 1 < |made|
  {
    && Retries(cfg, made[k].response, k + 1)
    && !Overflows(cfg, made[k].response, k + 1)
    && made[k + 1].start >= made[k].finish
    && PauseMade(cfg, random, made[k].response, k + 1, made[k + 1].start - made[k].finish)
  }

  /** The last attempt is about to be followed by another one at time `now`. */
  ghost predicate RetriedInto(cfg: RetryConfig, random: nat -> nat, made: seq<Attempt>, now: nat)
    requires made != []
  {
    var last := made[|made| - 1];
    && Retries(cfg, last.response, |made|)
    && !Overflows(cfg, last.response, |made|)
    && now >= last.finish
    && PauseMade(cfg, random, last.response, |made|, now - last.finish)
  }

  /** The attempts one operation made. */
  ghost predicate IsOperation(cfg: RetryConfig, random: nat -> nat, made: seq<Attempt>, outcome: Outcome) {
    && 1 <= |made| <= (if cfg.maxAttempts == 0 then 1 else cfg.maxAttempts)
    && (forall k :: 0 <= k < |made| - 1 ==> RetriedWell(cfg, random, made, k))
    && match outcome
       case Returned(r) => r == made[|made| - 1].response && !Retries(cfg, r, |made|)
       case Panicked => Overflows(cfg, made[|made| - 1].response, |made|)
  }

  method ExecuteWithRetry(cfg: RetryConfig, inner: Guarded, random: nat -> nat) returns (outcome: Outcome)
    requires cfg.Valid() && inner.Valid()
    modifies inner, inner.breaker
    ensures inner.Valid()
    ensures |inner.attempts| >= |old(inner.attempts)| && inner.attempts[..|old(inner.attempts)|] == old(inner.attempts)
    ensures IsOperation(cfg, random, inner.attempts[|old(inner.attempts)|..], outcome)
  {
    hide Sequential, EventsOf, Run, Admits, PauseMade, Pow2, ShiftedOne, SaturatingMul, Guarded.Valid;
    var attempts: nat := 0;
    ghost var from := |inner.attempts|;
    ghost var made: seq<Attempt> := [];
    while true
      invariant inner.Valid()
      invariant |inner.attempts| == from + attempts && inner.attempts[..from] == old(inner.attempts)
      invariant made == inner.attempts[from..]
      invariant attempts == 0 || attempts < cfg.maxAttempts
      invariant forall k :: 0 <= k < attempts - 1 ==> RetriedWell(cfg, random, made, k)
      invariant attempts > 0 ==> RetriedInto(cfg, random, made, inner.clock)
      decreases cfg.maxAttempts - attempts
    {
      ghost var before := inner.attempts;
      attempts := attempts + 1;
      var response := inner.Execute();
      ghost var next := inner.attempts[from..];
      assert inner.attempts[..from] == before[..from];
      assert next == made + [inner.attempts[from + attempts - 1]];
      StepRetried(cfg, random, made, next);
      made := next;
      if response.Done? {
        return Returned(response);
      }
      if attempts >= cfg.maxAttempts || !response.retryable {
        return Returned(response);
      }
      var delay;
      if response.retryAfter.Some? {
        delay := response.retryAfter.value;
      } else {
        var expFactor := ShiftedOne(attempts - 1);
        var ceiling := Min(SaturatingMul(cfg.baseDelay, expFactor), cfg.maxDelay);
        CeilingIsExact(cfg, attempts);
        assert ceiling == Ceiling(cfg, attempts);
        if ceiling == U64_MAX {
          return Panicked;
        }
        delay := if ceiling > 0 then random(attempts) % (ceiling + 1) else 0;
      }
      DelayMade(cfg, random, response, attempts, delay);
      inner.Sleep(delay);
    }
  }

  lemma DelayMade(cfg: RetryConfig, random: nat -> nat, r: Response, k: nat, delay: nat)
    requires cfg.Valid() && k >= 1 && r.Failure?
    requires if r.retryAfter.Some? then delay == r.retryAfter.value
             else delay == if Ceiling(cfg, k) > 0 then random(k) % (Ceiling(cfg, k) + 1) else 0
    ensures PauseMade(cfg, random, r, k, delay)
  {
    hide Ceiling, Pow2;
    CeilingIsExact(cfg, k);
  }

  lemma StepRetried(cfg: RetryConfig, random: nat -> nat, made: seq<Attempt>, next: seq<Attempt>)
    requires |next| == |made| + 1 && next[..|made|] == made
    requires forall k :: 0 <= k < |made| - 1 ==> RetriedWell(cfg, random, made, k)
    requires made != [] ==> RetriedInto(cfg, random, made, next[|made|].start)
    ensures forall k :: 0 <= k < |next| - 1 ==> RetriedWell(cfg, random, next, k)
  {
    hide PauseMade;
    assert forall k :: 0 <= k < |made| ==> next[k] == made[k];
    forall k | 0 <= k < |next| - 1 ensures RetriedWell(cfg, random, next, k) {
      if k < |made| - 1 {
        assert RetriedWell(cfg, random, made, k);
      }
    }
  }

  // ---------------------------------------------------------------- When an operation overflows

  lemma RetriedOnTheWay(cfg: RetryConfig, random: nat -> nat, made: seq<Attempt>, outcome: Outcome)
    requires IsOperation(cfg, random, made, outcome)
    ensures forall k :: 0 <= k < |made| - 1 ==> Retries(cfg, made[k].response, k + 1) && !Overflows(cfg, made[k].response, k + 1)
  {
    hide Pow2, PauseMade;
    forall k | 0 <= k < |made| - 1 ensures Retries(cfg, made[k].response, k + 1) && !Overflows(cfg, made[k].response, k + 1) {
      assert RetriedWell(cfg, random, made, k);
    }
  }

  /** An operation overflows exactly if one of its attempts calls for a random delay below the largest ceiling. */
  lemma PanicsExactly(cfg: RetryConfig, random: nat -> nat, made: seq<Attempt>, outcome: Outcome)
    requires IsOperation(cfg, random, made, outcome)
    ensures outcome.Panicked? <==> exists k :: 0 <= k < |made| && Overflows(cfg, made[k].response, k + 1)
  {
    hide Pow2, RetriedWell;
    RetriedOnTheWay(cfg, random, made, outcome);
    if outcome.Panicked? {
      assert Overflows(cfg, made[|made| - 1].response, |made| - 1 + 1);
    }
  }

  /** The responses decide how many attempts an operation makes and how it ends. */
  lemma OperationIsDetermined(cfg: RetryConfig, random: nat -> nat, made1: seq<Attempt>, outcome1: Outcome, made2: seq<Attempt>, outcome2: Outcome)
    requires IsOperation(cfg, random, made1, outcome1) && IsOperation(cfg, random, made2, outcome2)
    requires forall k :: 0 <= k < |made1| && k < |made2| ==> made1[k].response == made2[k].response
    ensures |made1| == |made2| && outcome1 == outcome2
  {
    hide Pow2, RetriedWell;
    RetriedOnTheWay(cfg, random, made1, outcome1);
    RetriedOnTheWay(cfg, random, made2, outcome2);
    var last := Min(|made1|, |made2|) - 1;
    assert made1[last].response == made2[last].response;
  }

  /**
   * An attempt is followed by another one exactly if it failed in a way worth retrying, attempts are left, and the
   * delay before the next one can be computed. Errors that are not worth retrying end the operation at once.
   */
  lemma FollowedExactly(cfg: RetryConfig, random: nat -> nat, made: seq<Attempt>, outcome: Outcome, k: nat)
    requires cfg.Valid() && IsOperation(cfg, random, made, outcome) && k < |made|
    ensures k + 1 < |made| <==>
      && made[k].response.Failure? && made[k].response.retryable && k + 1 < cfg.maxAttempts
      && (made[k].response.retryAfter.Some? || cfg.baseDelay * Pow2(k) < U64_MAX || cfg.maxDelay < U64_MAX)
    ensures outcome.Returned? && k + 1 == |made| ==> outcome.response == made[k].response
  {
    hide Pow2, RetriedWell;
    RetriedOnTheWay(cfg, random, made, outcome);
  }

  /** A call that the breaker refuses is retried like a lost connection, with backoff, as long as attempts are left. */
  lemma RefusedIsRetried(cfg: RetryConfig, random: nat -> nat, made: seq<Attempt>, outcome: Outcome, cb: Config, before: seq<Attempt>, k: nat)
    requires cfg.Valid() && IsOperation(cfg, random, made, outcome) && Sequential(cb, before + made)
    requires k + 1 < cfg.maxAttempts && cfg.maxDelay < U64_MAX
    requires k < |made| && !made[k].admitted
    ensures k + 1 < |made|
    ensures made[k + 1].start - made[k].finish == random(k + 1) % (Min(cfg.baseDelay * Pow2(k), cfg.maxDelay) + 1)
  {
    assert (before + made)[|before| + k] == made[k];
    FollowedExactly(cfg, random, made, outcome, k);
    assert RetriedWell(cfg, random, made, k);
  }

  lemma BackoffGrows(base: nat, m: nat, n: nat)
    requires m <= n
    ensures base * Pow2(m) <= base * Pow2(n)
  {
    Pow2Grows(m, n);
  }

  /** Failures that are retried at once, and then one without a delay asked for by the server. */
  function Failing(n: nat): (made: seq<Attempt>)
    ensures |made| == n
  {
    seq(n, k => Attempt(0, 0, true, Failure(true, true, if k == n - 1 then None else Some(0))))
  }

  lemma FailingOverflows(cfg: RetryConfig, random: nat -> nat, n: nat)
    requires 1 <= n < cfg.maxAttempts && cfg.maxDelay == U64_MAX && cfg.baseDelay * Pow2(n - 1) >= U64_MAX
    ensures IsOperation(cfg, random, Failing(n), Panicked)
  {
    hide Pow2;
    var made := Failing(n);
    forall k | 0 <= k < n - 1 ensures RetriedWell(cfg, random, made, k) {
      assert made[k].response.retryAfter == Some(0);
    }
  }

  /**
   * Some backend makes an operation overflow if and only if the largest delay is the largest 64-bit number and the
   * backoff before the last retry reaches it.
   */
  lemma OverflowPossible(cfg: RetryConfig, random: nat -> nat)
    requires cfg.Valid()
    ensures (exists made :: IsOperation(cfg, random, made, Panicked)) <==>
      cfg.maxDelay == U64_MAX && cfg.maxAttempts >= 2 && cfg.baseDelay * Pow2(cfg.maxAttempts - 2) >= U64_MAX
  {
    hide Pow2, RetriedWell;
    if made :| IsOperation(cfg, random, made, Panicked) {
      BackoffGrows(cfg.baseDelay, |made| - 1, cfg.maxAttempts - 2);
    }
    if cfg.maxDelay == U64_MAX && cfg.maxAttempts >= 2 && cfg.baseDelay * Pow2(cfg.maxAttempts - 2) >= U64_MAX {
      FailingOverflows(cfg, random, cfg.maxAttempts - 1);
    }
  }

  /** The smallest case: two attempts allowed, and delays of the largest 64-bit number. */
  lemma OverflowingInput()
    ensures IsOperation(RetryConfig(2, U64_MAX, U64_MAX), Always(0), [Attempt(0, 0, true, Failure(true, true, None))], Panicked)
  {
    FailingOverflows(RetryConfig(2, U64_MAX, U64_MAX), Always(0), 1);
    assert Failing(1) == [Attempt(0, 0, true, Failure(true, true, None))];
  }

  // ---------------------------------------------------------------- Sleep

  function TotalPause(made: seq<Attempt>): int {
    if |made| < 2 then 0
    else TotalPause(made[..|made| - 1]) + (made[|made| - 1].start - made[|made| - 2].finish)
  }

  /** Without delays asked for by the server, an operation pauses at most the largest delay before each retry. */
  lemma {:induction false} TotalPauseBound(cfg: RetryConfig, random: nat -> nat, made: seq<Attempt>)
    requires made != []
    requires forall k :: 0 <= k < |made| - 1 ==> RetriedWell(cfg, random, made, k)
    requires forall k :: 0 <= k < |made| - 1 ==> made[k].response.Failure? ==> made[k].response.retryAfter == None
    ensures 0 <= TotalPause(made) <= (|made| - 1) * cfg.maxDelay
  {
    var n := |made| - 1;
    if n >= 1 {
      var init := made[..n];
      forall k | 0 <= k < |init| - 1 ensures RetriedWell(cfg, random, init, k) {
        assert RetriedWell(cfg, random, made, k);
      }
      TotalPauseBound(cfg, random, init);
      assert RetriedWell(cfg, random, made, n - 1);
      assert init[|init| - 1] == made[n - 1];
    }
  }

  // ---------------------------------------------------------------- A backend that is down

  function Dispatched(): Attempt -> bool { (a: Attempt) => a.admitted }

  function DispatchedWithin(from: nat, length: nat): Attempt -> bool {
    (a: Attempt) => a.admitted && from <= a.start < from + length
  }

  /** Every call that reaches the backend fails transiently. */
  ghost predicate Down(attempts: seq<Attempt>) {
    forall i :: 0 <= i < |attempts| && attempts[i].admitted ==> attempts[i].response.Failure? && attempts[i].response.transient
  }

  function LastFinish(attempts: seq<Attempt>): nat {
    if attempts == [] then 0
    else if attempts[|attempts| - 1].admitted then attempts[|attempts| - 1].finish
    else LastFinish(attempts[..|attempts| - 1])
  }

  lemma SequentialInit(cfg: Config, attempts: seq<Attempt>)
    requires attempts != [] && Sequential(cfg, attempts)
    ensures Sequential(cfg, attempts[..|attempts| - 1])
  {
    hide Run, Admits, EventsOf;
    var init := attempts[..|attempts| - 1];
    forall i | 0 <= i < |init| ensures init[i].admitted <==> Admits(cfg, Run(cfg, EventsOf(init[..i])), init[i].start) {
      assert init[..i] == attempts[..i];
    }
  }

  lemma EventsStep(cfg: Config, attempts: seq<Attempt>)
    requires attempts != []
    ensures var init, last := attempts[..|attempts| - 1], attempts[|attempts| - 1];
      var asked := After(cfg, Run(cfg, EventsOf(init)), Ask(last.start));
      Run(cfg, EventsOf(attempts)) == if last.admitted then After(cfg, asked, Report(last)) else asked
  {
    hide After;
    var init, last := attempts[..|attempts| - 1], attempts[|attempts| - 1];
    RunSnoc(cfg, EventsOf(init), Ask(last.start));
    if last.admitted {
      RunSnoc(cfg, EventsOf(init) + [Ask(last.start)], Report(last));
      assert EventsOf(init) + [Ask(last.start)] + [Report(last)] == EventsOf(init) + [Ask(last.start), Report(last)];
    }
  }

  /** One more attempt on a backend that is down, seen from a breaker that has counted n failures. */
  lemma DownStep(cfg: Config, b: Internal, last: Attempt, n: nat, since: nat)
    requires cfg.failureThreshold >= 1 && n < 0xFFFF_FFFF
    requires last.admitted ==> last.response.Failure? && last.response.transient
    requires last.admitted <==> Admits(cfg, b, last.start)
    requires b.failures == n && b.state == if n < cfg.failureThreshold then Closed else Open(since)
    ensures var asked := After(cfg, b, Ask(last.start));
      var b' := if last.admitted then After(cfg, asked, Report(last)) else asked;
      var n' := if last.admitted then n + 1 else n;
      var since' := if last.admitted then last.finish else since;
      b'.failures == n' && b'.state == if n' < cfg.failureThreshold then Closed else Open(since')
  {}

  /** While the backend is down, the breaker counts every dispatch, and once it has opened it stays so. */
  lemma {:induction false} DownState(cfg: Config, attempts: seq<Attempt>)
    requires cfg.failureThreshold >= 1 && |attempts| < 0x1_0000_0000
    requires Sequential(cfg, attempts) && Down(attempts)
    ensures var n := CountIf(Dispatched(), attempts);
      && n <= |attempts|
      && Run(cfg, EventsOf(attempts)).failures == n
      && Run(cfg, EventsOf(attempts)).state == if n < cfg.failureThreshold then Closed else Open(LastFinish(attempts))
  {
    if attempts != [] {
      var init, last := attempts[..|attempts| - 1], attempts[|attempts| - 1];
      SequentialInit(cfg, attempts);
      DownState(cfg, init);
      EventsStep(cfg, attempts);
      assert last.admitted <==> Admits(cfg, Run(cfg, EventsOf(init)), last.start);
      DownStep(cfg, Run(cfg, EventsOf(init)), last, CountIf(Dispatched(), init), LastFinish(init));
      hide After, Admits, Run, EventsOf, Sequential;
    }
  }

  lemma {:induction false} DispatchesEarlier(attempts: seq<Attempt>, from: nat, length: nat)
    requires forall i :: 0 <= i < |attempts| ==> attempts[i].start <= attempts[i].finish
    requires forall i, j :: 0 <= i < j < |attempts| ==> attempts[i].finish <= attempts[j].start
    ensures CountIf(DispatchedWithin(from, length), attempts) <= CountIf(Dispatched(), attempts)
    ensures LastFinish(attempts) < from ==> CountIf(DispatchedWithin(from, length), attempts) == 0
  {
    if attempts != [] {
      var init, last := attempts[..|attempts| - 1], attempts[|attempts| - 1];
      DispatchesEarlier(init, from, length);
      if last.admitted {
        LastFinishBefore(init, last.start);
      }
    }
  }

  lemma {:induction false} LastFinishBefore(attempts: seq<Attempt>, t: nat)
    requires forall i :: 0 <= i < |attempts| ==> attempts[i].finish <= t
    ensures LastFinish(attempts) <= t
  {
    if attempts != [] {
      LastFinishBefore(attempts[..|attempts| - 1], t);
    }
  }

  /**
   * While the backend is down, no window as long as the recovery timeout sees more dispatches than the threshold,
   * however often the calls are retried: rejected calls do not move the time at which the breaker opened.
   */
  lemma {:induction false} DispatchesBounded(cfg: Config, attempts: seq<Attempt>, from: nat)
    requires cfg.failureThreshold >= 1 && |attempts| < 0x1_0000_0000
    requires Sequential(cfg, attempts) && Down(attempts)
    ensures CountIf(DispatchedWithin(from, cfg.recoveryTimeout), attempts) <= cfg.failureThreshold
  {
    if attempts != [] {
      var init, last := attempts[..|attempts| - 1], attempts[|attempts| - 1];
      SequentialInit(cfg, attempts);
      DispatchesBounded(cfg, init, from);
      if DispatchedWithin(from, cfg.recoveryTimeout)(last) {
        DownState(cfg, init);
        DispatchesEarlier(init, from, cfg.recoveryTimeout);
        assert Admits(cfg, Run(cfg, EventsOf(init)), last.start);
      }
    }
  }

  lemma OtherErrorStep(cfg: Config, b: Internal, last: Attempt)
    requires cfg.failureThreshold >= 1 && b.state == Closed && b.failures == 0
    requires last.admitted <==> Admits(cfg, b, last.start)
    requires last.response.Failure? && last.admitted ==> !last.response.transient
    ensures var b' := After(cfg, After(cfg, b, Ask(last.start)), Report(last));
      last.admitted && b'.state == Closed && b'.failures == 0
  {}

  lemma NoAttempts(cfg: Config)
    ensures Run(cfg, EventsOf([])) == INITIAL
  {}

  /** Errors that are not transient never open the breaker: every call reaches the backend. */
  lemma {:induction false} OtherErrorsDoNotOpen(cfg: Config, attempts: seq<Attempt>)
    requires cfg.failureThreshold >= 1 && Sequential(cfg, attempts)
    requires forall i :: 0 <= i < |attempts| && attempts[i].response.Failure? && attempts[i].admitted ==> !attempts[i].response.transient
    ensures Run(cfg, EventsOf(attempts)).state == Closed && Run(cfg, EventsOf(attempts)).failures == 0
    ensures forall i :: 0 <= i < |attempts| ==> attempts[i].admitted
  {
    hide Run, EventsOf, Admits, After, Report;
    if attempts == [] {
      NoAttempts(cfg);
    } else {
      var init, last := attempts[..|attempts| - 1], attempts[|attempts| - 1];
      SequentialInit(cfg, attempts);
      assert last.admitted <==> Admits(cfg, Run(cfg, EventsOf(init)), last.start);
      hide Sequential;
      OtherErrorsDoNotOpen(cfg, init);
      EventsStep(cfg, attempts);
      OtherErrorStep(cfg, Run(cfg, EventsOf(init)), last);
      assert forall i :: 0 <= i < |init| ==> init[i] == attempts[i];
    }
  }

  /** A call that succeeds ends the row of failures of a closed breaker and counts towards closing a half-open one. */
  lemma SuccessCounts(cfg: Config, attempts: seq<Attempt>)
    requires attempts != [] && attempts[|attempts| - 1].admitted && attempts[|attempts| - 1].response.Done?
    requires Run(cfg, EventsOf(attempts[..|attempts| - 1])).state.Closed? || Run(cfg, EventsOf(attempts[..|attempts| - 1])).state.HalfOpen?
    requires Run(cfg, EventsOf(attempts[..|attempts| - 1])).successes < 0xFFFF_FFFF
    ensures var b, b' := Run(cfg, EventsOf(attempts[..|attempts| - 1])), Run(cfg, EventsOf(attempts));
      if b.state.Closed? then b' == Internal(Closed, 0, b.successes)
      else b'.successes == b.successes + 1 && (b'.state.Closed? <==> b'.successes >= cfg.probeSuccessThreshold)
  {
    EventsStep(cfg, attempts);
    hide Run, EventsOf;
  }

  /** Operations one after the other, each retried as configured, against a backend that is down. */
  method HammerDownBackend(cfg: RetryConfig, inner: Guarded, operations: nat, pauses: nat -> nat, random: nat -> nat -> nat)
    requires cfg.Valid() && inner.Valid()
    requires inner.breaker.config.failureThreshold >= 1
    requires forall n :: inner.backend(n).0.Failure? && inner.backend(n).0.transient
    modifies inner, inner.breaker
    ensures inner.Valid()
    ensures |inner.attempts| < 0x1_0000_0000 ==>
      forall from: nat ::
        CountIf(DispatchedWithin(from, inner.breaker.config.recoveryTimeout), inner.attempts) <= inner.breaker.config.failureThreshold
  {
    for i := 0 to operations
      invariant inner.Valid()
    {
      var _ := ExecuteWithRetry(cfg, inner, random(i));
      inner.Sleep(pauses(i));
    }
    if |inner.attempts| < 0x1_0000_0000 {
      assert Down(inner.attempts);
      forall from: nat
        ensures CountIf(DispatchedWithin(from, inner.breaker.config.recoveryTimeout), inner.attempts) <= inner.breaker.config.failureThreshold
      {
        DispatchesBounded(inner.breaker.config, inner.attempts, from);
      }
    }
  }
}
