/** What the counters of an execution and the totals of a plan say. */
module Counters {
  import opened Prelude
  import opened SyncTypes
  import opened Planner
  import opened Ownership
  import opened PlanContents
  import opened Executor
  import opened Commutation

  /** A call to the backend that failed. Local deletions, conflicts and states never count as failed. */
  function RemoteFailure(): Step -> bool {
    (s: Step) => s.outcome.Failed? && (s.action.Upload? || s.action.Download? || s.action.ServerSideMove? || s.action.DeleteRemote?)
  }

  /** The sizes of the uploads that succeeded. */
  function SentBytes(steps: seq<Step>): nat {
    if steps == [] then 0
    else
      var s := steps[|steps| - 1];
      SentBytes(steps[..|steps| - 1]) + if s.action.Upload? && s.outcome.Done? then s.action.size else 0
  }

  /** The sizes of the downloads that succeeded. */
  function FetchedBytes(steps: seq<Step>): nat {
    if steps == [] then 0
    else
      var s := steps[|steps| - 1];
      FetchedBytes(steps[..|steps| - 1]) + if s.action.Download? && s.outcome.Done? then s.action.size else 0
  }

  /** The file that the action takes from somewhere is there. */
  predicate SourceThere(a: SyncAction, w: World) {
    match a
    case Upload(l, _, _) => l in w.local
    case Download(r, _, _, _, _) => r in w.remote
    case ServerSideMove(from, _) => from in w.remote
    case ServerSideCopy(_, _) => false
    case _ => true
  }

  lemma CountedIfThere(step: Step, w: World)
    requires SourceThere(step.action, w)
    ensures Counted(step, w) <==> !RemoteFailure()(step)
  {}

  lemma SourceStays(step: Step, v: World, w: World)
    requires SourceThere(step.action, w) && forall p :: p in ClaimList(step.action) ==> SameAt(v, w, p)
    ensures SourceThere(step.action, v)
  {
    match step.action {
      case Upload(l, r, _) => assert l in ClaimList(step.action); assert SameAt(v, w, l);
      case Download(r, l, _, _, _) => assert r in ClaimList(step.action); assert SameAt(v, w, r);
      case ServerSideMove(from, to) => assert from in ClaimList(step.action); assert SameAt(v, w, from);
      case _ =>
    }
  }

  /** What the steps before the last leave of its paths. */
  lemma LastUntouched(env: Transfers, init: seq<Step>, last: Step, w: World)
    requires Exclusive(init + [last])
    ensures forall p :: p in ClaimList(last.action) ==> SameAt(Exec(env, init, w), w, p)
  {
    forall p | p in ClaimList(last.action) ensures SameAt(Exec(env, init, w), w, p) {
      assert CountIf(StepTouches(p), init + [last]) <= 1;
      CountIfSnoc(StepTouches(p), init, last);
      assert StepTouches(p)(last);
      ExecElsewhere(env, init, w, p);
    }
  }

  lemma ExclusiveInit(steps: seq<Step>)
    requires steps != [] && Exclusive(steps)
    ensures Exclusive(steps[..|steps| - 1])
  {
    forall p ensures CountIf(StepTouches(p), steps[..|steps| - 1]) <= 1 {
      assert CountIf(StepTouches(p), steps) <= 1;
    }
  }

  lemma WrapsOnce(sum: nat, n: nat)
    ensures Wrapped(sum % 0x1_0000_0000_0000_0000, n) == (sum + n) % 0x1_0000_0000_0000_0000
  {}

  /** The tally that the counts stand for. */
  predicate Tallied(t: ExecutionResult, actions: nat, failures: nat, sent: nat, fetched: nat) {
    && t.failedActions == failures && t.executedActions + failures == actions
    && t.bytesUploaded == sent % 0x1_0000_0000_0000_0000
    && t.bytesDownloaded == fetched % 0x1_0000_0000_0000_0000
  }

  function Next(t: ExecutionResult, s: Step, counted: bool): ExecutionResult {
    if !counted then t.(failedActions := t.failedActions + 1)
    else
      t.(executedActions := t.executedActions + 1,
         bytesUploaded := if s.action.Upload? then Wrapped(t.bytesUploaded, s.action.size) else t.bytesUploaded,
         bytesDownloaded := if s.action.Download? then Wrapped(t.bytesDownloaded, s.action.size) else t.bytesDownloaded)
  }

  lemma TallySnoc(env: Transfers, init: seq<Step>, s: Step, w: World)
    ensures Tally(env, init + [s], w) == Next(Tally(env, init, w), s, Counted(s, Exec(env, init, w)))
  {
    assert (init + [s])[..|init|] == init;
  }

  lemma CountsSnoc(init: seq<Step>, s: Step)
    ensures SentBytes(init + [s]) == SentBytes(init) + if s.action.Upload? && s.outcome.Done? then s.action.size else 0
    ensures FetchedBytes(init + [s]) == FetchedBytes(init) + if s.action.Download? && s.outcome.Done? then s.action.size else 0
  {
    assert (init + [s])[..|init|] == init;
  }

  lemma TalliedNext(t: ExecutionResult, s: Step, actions: nat, failures: nat, sent: nat, fetched: nat)
    requires Tallied(t, actions, failures, sent, fetched)
    ensures Tallied(Next(t, s, !RemoteFailure()(s)), actions + 1, failures + (if RemoteFailure()(s) then 1 else 0),
                    sent + (if s.action.Upload? && s.outcome.Done? then s.action.size else 0),
                    fetched + (if s.action.Download? && s.outcome.Done? then s.action.size else 0))
  {
    if s.action.Upload? { WrapsOnce(sent, s.action.size); }
    if s.action.Download? { WrapsOnce(fetched, s.action.size); }
    hide Wrapped;
  }

  lemma LastCounted(env: Transfers, init: seq<Step>, last: Step, w: World)
    requires Exclusive(init + [last]) && SourceThere(last.action, w)
    ensures Counted(last, Exec(env, init, w)) <==> !RemoteFailure()(last)
  {
    hide Exec, Exclusive, SameAt, ClaimList, Counted, SourceThere, RemoteFailure;
    LastUntouched(env, init, last, w);
    SourceStays(last, Exec(env, init, w), w);
    CountedIfThere(last, Exec(env, init, w));
  }

  ghost predicate TalliedSteps(env: Transfers, steps: seq<Step>, w: World) {
    Tallied(Tally(env, steps, w), |steps|, CountIf(RemoteFailure(), steps), SentBytes(steps), FetchedBytes(steps))
  }

  lemma TallyStep(env: Transfers, init: seq<Step>, last: Step, w: World)
    requires Exclusive(init + [last]) && SourceThere(last.action, w)
    requires TalliedSteps(env, init, w)
    ensures TalliedSteps(env, init + [last], w)
  {
    hide Tally, Exec, Exclusive, SameAt, ClaimList, Counted, Tallied, Next, SourceThere, RemoteFailure, SentBytes, FetchedBytes;
    LastCounted(env, init, last, w);
    TallySnoc(env, init, last, w);
    CountsSnoc(init, last);
    CountIfSnoc(RemoteFailure(), init, last);
    TalliedNext(Tally(env, init, w), last, |init|, CountIf(RemoteFailure(), init), SentBytes(init), FetchedBytes(init));
  }

  lemma {:induction false} TallyOf(env: Transfers, steps: seq<Step>, w: World)
    requires Exclusive(steps) && forall i :: 0 <= i < |steps| ==> SourceThere(steps[i].action, w)
    ensures TalliedSteps(env, steps, w)
  {
    hide Exclusive, SourceThere;
    if steps != [] {
      hide TalliedSteps;
      var init, last := steps[..|steps| - 1], steps[|steps| - 1];
      ExclusiveInit(steps);
      TallyOf(env, init, w);
      assert steps == init + [last];
      TallyStep(env, init, last, w);
    }
  }

  /**
   * After a plan has been carried out, the failed actions are the calls to the backend that failed, all others count
   * as executed, and the byte counters hold the sizes of the transfers that succeeded, modulo two to the 64.
   */
  lemma PlanTally(env: Transfers, inp: Inputs, order: seq<Path>, outcomes: seq<Outcome>)
    requires Enumerates(order, inp.Paths()) && |outcomes| == |PlanOf(inp, order)|
    ensures var steps := StepsOf(PlanOf(inp, order), outcomes);
      Tallied(Tally(env, steps, World(inp.local, inp.remote)), |steps|, CountIf(RemoteFailure(), steps), SentBytes(steps), FetchedBytes(steps))
  {
    hide PlanOf, Exclusive, Tally;
    var plan := PlanOf(inp, order);
    var steps := StepsOf(plan, outcomes);
    assert ActionsOf(steps) == plan;
    PlanIsExclusive(inp, order, steps);
    forall i | 0 <= i < |steps| ensures SourceThere(steps[i].action, World(inp.local, inp.remote)) {
      assert plan[i] in plan;
      PlanDescribes(inp, order, plan[i]);
    }
    TallyOf(env, steps, World(inp.local, inp.remote));
  }

  /** If every action succeeds, the bytes sent and fetched are the totals that the plan announced, before clamping. */
  lemma {:induction false} TotalsAnnounced(steps: seq<Step>)
    requires forall i :: 0 <= i < |steps| ==> steps[i].outcome.Done?
    ensures Sum(UploadBytes, ActionsOf(steps)) == SentBytes(steps)
    ensures Sum(DownloadBytes, ActionsOf(steps)) == FetchedBytes(steps)
    ensures Sum(Total.Conflicts, ActionsOf(steps)) == CountIf(IsConflict(), steps)
  {
    if steps != [] {
      var init, last := steps[..|steps| - 1], steps[|steps| - 1];
      TotalsAnnounced(init);
      assert ActionsOf(steps) == ActionsOf(init) + [last.action];
      SumSnoc(UploadBytes, ActionsOf(init), last.action);
      SumSnoc(DownloadBytes, ActionsOf(init), last.action);
      SumSnoc(Total.Conflicts, ActionsOf(init), last.action);
    }
  }

  function IsConflict(): Step -> bool { (s: Step) => s.action.Conflict? }
}
