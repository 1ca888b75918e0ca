/** Calls that overlap: how many reach a backend that is down. */
module Interleaved {
  import opened CircuitBreaker

  predicate Admitted(cfg: Config, before: seq<Event>, e: Event) {
    e.Ask? && Admits(cfg, Run(cfg, before), e.now)
  }

  /** How many calls have been admitted. */
  function Admissions(cfg: Config, events: seq<Event>): nat {
    if events == [] then 0
    else
      var init, last := events[..|events| - 1], events[|events| - 1];
      Admissions(cfg, init) + if Admitted(cfg, init, last) then 1 else 0
  }

  /** How many of them were admitted within the window. */
  function AdmissionsWithin(cfg: Config, events: seq<Event>, from: nat, length: nat): nat {
    if events == [] then 0
    else
      var init, last := events[..|events| - 1], events[|events| - 1];
      AdmissionsWithin(cfg, init, from, length) + if Admitted(cfg, init, last) && from <= last.now < from + length then 1 else 0
  }

  /** How many calls have reported. */
  function Reports(events: seq<Event>): nat {
    if events == [] then 0
    else Reports(events[..|events| - 1]) + if events[|events| - 1].Ask? then 0 else 1
  }

  predicate Timed(e: Event) { e.Ask? || e.TransientError? }

  function TimeOf(e: Event): nat
    requires Timed(e)
  {
    e.now
  }

  /**
   * Calls to a backend that is down, in the order of their events: each call asks and, if it is admitted, reports a
   * transient error later; no more than `flying` admitted calls wait for their report at any time.
   */
  ghost predicate DownWith(cfg: Config, events: seq<Event>, flying: nat) {
    && |events| < 0x1_0000_0000
    && (forall i :: 0 <= i < |events| ==> Timed(events[i]))
    && (forall i, j :: 0 <= i < j < |events| ==> TimeOf(events[i]) <= TimeOf(events[j]))
    && (forall n :: 0 <= n <= |events| ==> Reports(events[..n]) <= Admissions(cfg, events[..n]) <= Reports(events[..n]) + flying)
  }

  /** The time of the last event. */
  function Latest(events: seq<Event>): nat
    requires forall i :: 0 <= i < |events| ==> Timed(events[i])
  {
    if events == [] then 0 else TimeOf(events[|events| - 1])
  }

  function LastReport(events: seq<Event>): nat {
    if events == [] then 0
    else if events[|events| - 1].TransientError? then events[|events| - 1].now
    else LastReport(events[..|events| - 1])
  }

  /** How many calls have been admitted since the last report. */
  function SinceReport(cfg: Config, events: seq<Event>): nat {
    if events == [] then 0
    else
      var init, last := events[..|events| - 1], events[|events| - 1];
      if last.Ask? then SinceReport(cfg, init) + (if Admitted(cfg, init, last) then 1 else 0) else 0
  }

  lemma DownInit(cfg: Config, events: seq<Event>, flying: nat)
    requires events != [] && DownWith(cfg, events, flying)
    ensures DownWith(cfg, events[..|events| - 1], flying)
    ensures Latest(events[..|events| - 1]) <= Latest(events)
  {
    hide Reports, Admissions;
    var init := events[..|events| - 1];
    forall n | 0 <= n <= |init| ensures Reports(init[..n]) <= Admissions(cfg, init[..n]) <= Reports(init[..n]) + flying {
      assert init[..n] == events[..n];
    }
  }

  /** What the breaker's state says about such calls. */
  ghost predicate DownSays(cfg: Config, b: Internal, reports: nat, lastReport: nat, since: nat, latest: nat) {
    && b.failures == reports
    && lastReport <= latest
    && (reports < cfg.failureThreshold <==> b.state.Closed?)
    && (b.state.Open? ==> b.state.since == lastReport && since == 0)
    && (b.state.HalfOpen? ==> latest >= lastReport + cfg.recoveryTimeout)
  }

  lemma DownSaysStep(cfg: Config, b: Internal, e: Event, reports: nat, lastReport: nat, since: nat, latest: nat)
    requires cfg.failureThreshold >= 1 && b.failures < 0xFFFF_FFFF
    requires Timed(e) && latest <= e.now
    requires DownSays(cfg, b, reports, lastReport, since, latest)
    ensures var admitted := e.Ask? && Admits(cfg, b, e.now);
      if e.Ask? then DownSays(cfg, After(cfg, b, e), reports, lastReport, since + (if admitted then 1 else 0), e.now)
      else DownSays(cfg, After(cfg, b, e), reports + 1, e.now, 0, e.now)
  {}

  lemma {:induction false} DownMeaning(cfg: Config, events: seq<Event>, flying: nat)
    requires cfg.failureThreshold >= 1 && DownWith(cfg, events, flying)
    ensures DownSays(cfg, Run(cfg, events), Reports(events), LastReport(events), SinceReport(cfg, events), Latest(events))
  {
    hide After, Admits;
    if events != [] {
      var init, last := events[..|events| - 1], events[|events| - 1];
      DownInit(cfg, events, flying);
      DownMeaning(cfg, init, flying);
      CountersBounded(cfg, init);
      hide DownSays, DownWith;
      DownSaysStep(cfg, Run(cfg, init), last, Reports(init), LastReport(init), SinceReport(cfg, init), Latest(init));
    }
  }

  /** A window admits no more calls than there are; before its start, none; and after a report before it, only later ones. */
  lemma {:induction false} WithinBounds(cfg: Config, events: seq<Event>, flying: nat, from: nat, length: nat)
    requires DownWith(cfg, events, flying)
    ensures AdmissionsWithin(cfg, events, from, length) <= Admissions(cfg, events)
    ensures Latest(events) < from ==> AdmissionsWithin(cfg, events, from, length) == 0
    ensures LastReport(events) < from ==> AdmissionsWithin(cfg, events, from, length) <= SinceReport(cfg, events)
  {
    if events != [] {
      var init := events[..|events| - 1];
      DownInit(cfg, events, flying);
      hide Run, Admits;
      WithinBounds(cfg, init, flying, from, length);
    }
  }

  lemma {:induction false} FlyingSinceReport(cfg: Config, events: seq<Event>, flying: nat)
    requires DownWith(cfg, events, flying)
    ensures SinceReport(cfg, events) + Reports(events) <= Admissions(cfg, events)
  {
    if events != [] {
      var init, last := events[..|events| - 1], events[|events| - 1];
      assert events[..|events|] == events;
      DownInit(cfg, events, flying);
      FlyingSinceReport(cfg, init, flying);
    }
  }

  /** One more admitted call. */
  lemma AdmittedStep(cfg: Config, init: seq<Event>, e: Event, flying: nat, from: nat)
    requires cfg.failureThreshold >= 1 && DownWith(cfg, init + [e], flying) && DownWith(cfg, init, flying)
    requires Admitted(cfg, init, e) && from <= e.now < from + cfg.recoveryTimeout
    requires Latest(init) <= e.now
    ensures AdmissionsWithin(cfg, init, from, cfg.recoveryTimeout) + 1 <= cfg.failureThreshold - 1 + flying
  {
    var events := init + [e];
    assert events[..|init|] == init && events[..|events|] == events;
    assert Reports(events) == Reports(init) && Admissions(cfg, events) == Admissions(cfg, init) + 1;
    assert Reports(events[..|events|]) <= Admissions(cfg, events[..|events|]) <= Reports(events[..|events|]) + flying;
    assert init[..|init|] == init;
    DownMeaning(cfg, init, flying);
    WithinBounds(cfg, init, flying, from, cfg.recoveryTimeout);
    FlyingSinceReport(cfg, init, flying);
    hide Run, Reports, Admissions, AdmissionsWithin, SinceReport, LastReport, Latest, DownWith;
    assert flying >= 1 && Admissions(cfg, init) + 1 <= Reports(init) + flying;
  }

  /**
   * While the backend is down, no window as long as the recovery timeout sees more admitted calls than the threshold
   * less one plus the calls that may be in flight at a time.
   */
  lemma {:induction false} InterleavedBound(cfg: Config, events: seq<Event>, flying: nat, from: nat)
    requires cfg.failureThreshold >= 1 && DownWith(cfg, events, flying)
    ensures AdmissionsWithin(cfg, events, from, cfg.recoveryTimeout) <= cfg.failureThreshold - 1 + flying
  {
    if events != [] {
      var init, last := events[..|events| - 1], events[|events| - 1];
      DownInit(cfg, events, flying);
      InterleavedBound(cfg, init, flying, from);
      if Admitted(cfg, init, last) && from <= last.now < from + cfg.recoveryTimeout {
        assert events == init + [last];
        AdmittedStep(cfg, init, last, flying, from);
      }
    }
  }

  function Asks(n: nat, now: nat): (events: seq<Event>)
    ensures |events| == n
  {
    seq(n, _ => Ask(now))
  }

  /** A half-open breaker admits every call until one reports: nothing but the calls in flight limits the bound. */
  lemma {:induction false} HalfOpenAdmitsAll(cfg: Config, events: seq<Event>, n: nat, now: nat)
    requires Run(cfg, events).state.HalfOpen?
    ensures Run(cfg, events + Asks(n, now)) == Run(cfg, events)
    ensures Admissions(cfg, events + Asks(n, now)) == Admissions(cfg, events) + n
  {
    if n == 0 {
      assert events + Asks(0, now) == events;
    } else {
      HalfOpenAdmitsAll(cfg, events, n - 1, now);
      var before := events + Asks(n - 1, now);
      assert events + Asks(n, now) == before + [Ask(now)];
      RunSnoc(cfg, before, Ask(now));
      assert (before + [Ask(now)])[..|before|] == before;
    }
  }
}
