/** The circuit breaker: a small state machine shared by all calls in flight. */
module CircuitBreaker {
  import opened Prelude

  datatype Config = Config(failureThreshold: nat, recoveryTimeout: nat, probeSuccessThreshold: nat)

  datatype State = Closed | Open(since: nat) | HalfOpen

  datatype Internal = Internal(state: State, failures: nat, successes: nat)

  /** What the breaker is told: a call asks to start, or a call in flight reports how it went. */
  datatype Event = Ask(now: nat) | Success | TransientError(now: nat) | OtherError

  const INITIAL: Internal := Internal(Closed, 0, 0)

  /** Counters are 32 bits wide. */
  function Bump(n: nat): nat { (n + 1) % 0x1_0000_0000 }

  function Elapsed(since: nat, now: nat): nat { if now >= since then now - since else 0 }

  predicate Recovered(cfg: Config, since: nat, now: nat) {
    Elapsed(since, now) >= cfg.recoveryTimeout
  }

  predicate Admits(cfg: Config, b: Internal, now: nat) {
    b.state.Open? ==> Recovered(cfg, b.state.since, now)
  }

  function After(cfg: Config, b: Internal, e: Event): Internal {
    match e
    case Ask(now) =>
      if b.state.Open? && Recovered(cfg, b.state.since, now) then Internal(HalfOpen, b.failures, 0) else b
    case Success =>
      (match b.state
       case HalfOpen =>
         var n := Bump(b.successes);
         if n >= cfg.probeSuccessThreshold then Internal(Closed, 0, n) else b.(successes := n)
       case Closed => b.(failures := 0)
       case Open(_) => b)
    case TransientError(now) =>
      var n := Bump(b.failures);
      Internal(if n >= cfg.failureThreshold then Open(now) else b.state, n, b.successes)
    case OtherError => b
  }

  function Run(cfg: Config, events: seq<Event>): Internal {
    if events == [] then INITIAL else After(cfg, Run(cfg, events[..|events| - 1]), events[|events| - 1])
  }

  class Breaker {
    const config: Config
    var state: State
    var consecutiveFailures: nat
    var consecutiveSuccesses: nat
    ghost var log: seq<Event>

    /** The fields are what the history of events makes them. */
    ghost predicate Valid()
      reads this
    {
      Internal(state, consecutiveFailures, consecutiveSuccesses) == Run(config, log)
    }

    constructor (config: Config)
      ensures Valid() && this.config == config && log == []
    {
      this.config := config;
      state, consecutiveFailures, consecutiveSuccesses := Closed, 0, 0;
      log := [];
    }

    method BeforeCall(now: nat) returns (admitted: bool)
      requires Valid()
      modifies this
      ensures Valid() && log == old(log) + [Ask(now)]
      ensures admitted == Admits(config, Run(config, old(log)), now)
    {
      admitted := true;
      if state.Open? {
        if Elapsed(state.since, now) >= config.recoveryTimeout {
          state := HalfOpen;
          consecutiveSuccesses := 0;
        } else {
          admitted := false;
        }
      }
      log := log + [Ask(now)];
      assert log[..|log| - 1] == old(log);
    }

    method AfterCall(e: Event)
      requires Valid() && !e.Ask?
      modifies this
      ensures Valid() && log == old(log) + [e]
    {
      if e.Success? {
        if state.HalfOpen? {
          consecutiveSuccesses := Bump(consecutiveSuccesses);
          if consecutiveSuccesses >= config.probeSuccessThreshold {
            state := Closed;
            consecutiveFailures := 0;
          }
        } else if state.Closed? {
          consecutiveFailures := 0;
        }
      } else if e.TransientError? {
        consecutiveFailures := Bump(consecutiveFailures);
        if consecutiveFailures >= config.failureThreshold {
          state := Open(e.now);
        }
      }
      log := log + [e];
      assert log[..|log| - 1] == old(log);
    }
  }

  // ---------------------------------------------------------------- What the state means

  /** The transient errors reported since the last reported success. */
  function ErrorsSinceSuccess(events: seq<Event>): nat {
    if events == [] || events[|events| - 1].Success? then 0
    else ErrorsSinceSuccess(events[..|events| - 1]) + if events[|events| - 1].TransientError? then 1 else 0
  }

  /** The events since the breaker last went from open to half-open. */
  function SinceProbing(cfg: Config, events: seq<Event>): seq<Event> {
    if events == [] then []
    else
      var init, last := events[..|events| - 1], events[|events| - 1];
      if Run(cfg, init).state.Open? && Run(cfg, events).state.HalfOpen? then [] else SinceProbing(cfg, init) + [last]
  }

  function IsSuccess(): Event -> bool { (e: Event) => e.Success? }

  function IsError(): Event -> bool { (e: Event) => e.TransientError? }

  /** How many successes close a half-open breaker. */
  function ProbesNeeded(cfg: Config): nat { if cfg.probeSuccessThreshold == 0 then 1 else cfg.probeSuccessThreshold }

  /** What a state says about the history: errors since the last success, errors and successes since probing began. */
  ghost predicate Says(cfg: Config, b: Internal, errors: nat, probeErrors: nat, probeSuccesses: nat) {
    && (b.state.Closed? <==> b.failures < cfg.failureThreshold)
    && (b.state.Closed? ==> b.failures == errors)
    && (b.state.HalfOpen? ==> probeErrors == 0 && b.successes == probeSuccesses < ProbesNeeded(cfg))
  }

  ghost predicate Meaning(cfg: Config, events: seq<Event>) {
    var probing := SinceProbing(cfg, events);
    Says(cfg, Run(cfg, events), ErrorsSinceSuccess(events), CountIf(IsError(), probing), CountIf(IsSuccess(), probing))
  }

  lemma SaysStep(cfg: Config, b: Internal, e: Event, errors: nat, probeErrors: nat, probeSuccesses: nat)
    requires cfg.failureThreshold >= 1
    requires b.failures < 0xFFFF_FFFF && b.successes < 0xFFFF_FFFF
    requires Says(cfg, b, errors, probeErrors, probeSuccesses)
    ensures var b' := After(cfg, b, e);
      var errors' := if e.Success? then 0 else errors + (if e.TransientError? then 1 else 0);
      if b.state.Open? && b'.state.HalfOpen? then Says(cfg, b', errors', 0, 0)
      else Says(cfg, b', errors', probeErrors + (if e.TransientError? then 1 else 0), probeSuccesses + (if e.Success? then 1 else 0))
  {}

  lemma CountersStep(cfg: Config, b: Internal, e: Event)
    ensures After(cfg, b, e).failures <= b.failures + 1 && After(cfg, b, e).successes <= b.successes + 1
  {}

  lemma {:induction false} CountersBounded(cfg: Config, events: seq<Event>)
    ensures Run(cfg, events).failures <= |events| && Run(cfg, events).successes <= |events|
  {
    hide After;
    if events != [] {
      CountersBounded(cfg, events[..|events| - 1]);
      CountersStep(cfg, Run(cfg, events[..|events| - 1]), events[|events| - 1]);
    }
  }

  /**
   * For every interleaving of calls: the breaker is closed exactly while its failure count is below the threshold;
   * while closed the count is the number of transient errors since the last success; while half-open no transient
   * error has been reported since probing began and the successes since then are fewer than needed.
   */
  lemma {:induction false} BreakerMeaning(cfg: Config, events: seq<Event>)
    requires cfg.failureThreshold >= 1 && |events| < 0x1_0000_0000
    ensures Meaning(cfg, events)
  {
    if events != [] {
      var init, last := events[..|events| - 1], events[|events| - 1];
      BreakerMeaning(cfg, init);
      CountersBounded(cfg, init);
      var probing := SinceProbing(cfg, init);
      SaysStep(cfg, Run(cfg, init), last, ErrorsSinceSuccess(init), CountIf(IsError(), probing), CountIf(IsSuccess(), probing));
      hide After, Says;
      CountIfSnoc(IsError(), probing, last);
      CountIfSnoc(IsSuccess(), probing, last);
    }
  }

  lemma RunSnoc(cfg: Config, events: seq<Event>, e: Event)
    ensures Run(cfg, events + [e]) == After(cfg, Run(cfg, events), e)
  {
    assert (events + [e])[..|events|] == events;
  }

  /** A half-open breaker closes only on the success that completes the required number, with no error in between. */
  lemma {:induction false} ClosingTakesAllProbes(cfg: Config, events: seq<Event>, e: Event)
    requires cfg.failureThreshold >= 1 && |events| < 0xFFFF_FFFF
    requires Run(cfg, events).state.HalfOpen?
    ensures Run(cfg, events + [e]).state.Closed? <==>
      e.Success? && CountIf(IsSuccess(), SinceProbing(cfg, events)) + 1 == ProbesNeeded(cfg)
    ensures CountIf(IsError(), SinceProbing(cfg, events)) == 0
  {
    RunSnoc(cfg, events, e);
    hide CountIf, SinceProbing, Run, ErrorsSinceSuccess;
    BreakerMeaning(cfg, events);
    CountersBounded(cfg, events);
  }

  // ---------------------------------------------------------------- How it trips and recovers

  /** A closed breaker opens, at once, on the error that makes as many in a row as the threshold; other errors do not count. */
  lemma TripsExactly(cfg: Config, events: seq<Event>, now: nat)
    requires cfg.failureThreshold >= 1 && |events| < 0xFFFF_FFFF
    requires Run(cfg, events).state.Closed?
    ensures Run(cfg, events + [TransientError(now)]).state ==
      if ErrorsSinceSuccess(events) + 1 >= cfg.failureThreshold then Open(now) else Closed
    ensures Run(cfg, events + [OtherError]) == Run(cfg, events)
  {
    RunSnoc(cfg, events, TransientError(now));
    RunSnoc(cfg, events, OtherError);
    hide Run, ErrorsSinceSuccess, SinceProbing;
    BreakerMeaning(cfg, events);
    CountersBounded(cfg, events);
  }

  /** The counters have 32 bits: after 4,294,967,295 errors in a row the next one starts again from zero. */
  lemma CounterWraps(cfg: Config, b: Internal, now: nat)
    requires cfg.failureThreshold >= 1 && b.failures == 4_294_967_295
    ensures After(cfg, b, TransientError(now)) == Internal(b.state, 0, b.successes)
  {}

  /** An open breaker admits a call exactly if the recovery timeout has passed; the others admit every call. */
  lemma AdmitsExactly(cfg: Config, events: seq<Event>, now: nat)
    ensures Admits(cfg, Run(cfg, events), now) <==>
      match Run(cfg, events).state
      case Open(since) => now >= since + cfg.recoveryTimeout || cfg.recoveryTimeout == 0
      case _ => true
  {
    hide Run;
  }

  /** The first transient error reopens a half-open breaker. */
  lemma OneErrorReopens(cfg: Config, events: seq<Event>, now: nat)
    requires cfg.failureThreshold >= 1 && |events| < 0xFFFF_FFFF
    requires Run(cfg, events).state.HalfOpen?
    ensures Run(cfg, events + [TransientError(now)]).state == Open(now)
  {
    RunSnoc(cfg, events, TransientError(now));
    hide Run, ErrorsSinceSuccess, SinceProbing;
    BreakerMeaning(cfg, events);
    CountersBounded(cfg, events);
  }

  function Successes(n: nat): (events: seq<Event>)
    ensures |events| == n
  {
    seq(n, _ => Success)
  }

  lemma ProbeStep(cfg: Config, b: Internal, n: nat)
    requires b.state.HalfOpen? && b.successes == n < ProbesNeeded(cfg) < 0x1_0000_0000
    ensures var b' := After(cfg, b, Success);
      && b'.successes == n + 1
      && if n + 1 < ProbesNeeded(cfg) then b'.state == HalfOpen else b'.state == Closed && b'.failures == 0
  {}

  /** An open breaker that is asked when its timeout has passed closes after as many successes as it wants, and not before. */
  lemma {:induction false} Recovers(cfg: Config, events: seq<Event>, now: nat, n: nat)
    requires Run(cfg, events).state.Open? && now >= Run(cfg, events).state.since + cfg.recoveryTimeout
    requires n <= ProbesNeeded(cfg) < 0x1_0000_0000
    ensures var b := Run(cfg, events + [Ask(now)] + Successes(n));
      && b.successes == n
      && if n < ProbesNeeded(cfg) then b.state == HalfOpen else b.state == Closed && b.failures == 0
  {
    RunSnoc(cfg, events, Ask(now));
    var asked := events + [Ask(now)];
    if n == 0 {
      assert asked + Successes(0) == asked;
    } else {
      hide Run, After;
      Recovers(cfg, events, now, n - 1);
      assert asked + Successes(n) == (asked + Successes(n - 1)) + [Success];
      RunSnoc(cfg, asked + Successes(n - 1), Success);
      ProbeStep(cfg, Run(cfg, asked + Successes(n - 1)), n - 1);
    }
  }
}
