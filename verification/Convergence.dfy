/** What a second plan holds after a cycle, and when it holds nothing new. */
module Convergence {
  import opened Prelude
  import opened SyncTypes
  import opened Planner
  import opened Ownership
  import opened Moves
  import opened Executor
  import opened Orchestrator
  import opened Followup

  function AllDone(n: nat): (o: seq<Outcome>)
    ensures |o| == n
  {
    seq(n, i => Done)
  }

  /** The system after a cycle in which every call succeeded. */
  function After(setup: Setup, env: Transfers, now: Path -> Time, sys: System, order: seq<Path>): System {
    Cycle(setup, env, now, sys, order, AllDone(|FirstPlan(setup, sys, order)|))
  }

  // ---------------------------------------------------------------- From decisions to plans

  /** If every decision is to act or to do nothing, the plan is what the path loop adds. */
  lemma {:induction false} NoCandidates(ds: seq<Decision>)
    requires forall i :: 0 <= i < |ds| ==> ds[i] == Nothing || ds[i].Act?
    ensures Deletions(ds) == [] && Additions(ds) == []
  {
    if ds != [] {
      NoCandidates(ds[..|ds| - 1]);
    }
  }

  lemma DirectPlan(inp: Inputs, order: seq<Path>, b: SyncAction)
    requires Enumerates(order, inp.Paths())
    requires forall p :: DecideAt(inp, p) == Nothing || DecideAt(inp, p).Act?
    ensures b in PlanOf(inp, order) <==> exists p :: DecideAt(inp, p) == Act(b)
  {
    var ds := Decisions(inp, order);
    forall i | 0 <= i < |ds| ensures ds[i] == Nothing || ds[i].Act? {
      assert DecideAt(inp, order[i]) == Nothing || DecideAt(inp, order[i]).Act?;
    }
    NoCandidates(ds);
    assert PlanOf(inp, order) == Direct(ds);
    DirectMember(ds, b);
    if b in PlanOf(inp, order) {
      var i :| 0 <= i < |ds| && ds[i] == Act(b);
      assert DecideAt(inp, order[i]) == Act(b);
    }
    if p :| DecideAt(inp, p) == Act(b) {
      ActiveIsListed(inp, p);
      var i :| 0 <= i < |order| && order[i] == p;
      assert ds[i] == Act(b);
    }
  }

  function ConflictsIn(plan: seq<SyncAction>): seq<SyncAction> {
    if plan == [] then []
    else
      var before := ConflictsIn(plan[..|plan| - 1]);
      if plan[|plan| - 1].Conflict? then before + [plan[|plan| - 1]] else before
  }

  lemma {:induction false} ConflictsCount(plan: seq<SyncAction>, b: SyncAction)
    ensures CountIf(Is(b), ConflictsIn(plan)) == if b.Conflict? then CountIf(Is(b), plan) else 0
  {
    if plan != [] {
      var init, last := plan[..|plan| - 1], plan[|plan| - 1];
      ConflictsCount(init, b);
      CountIfSnoc(Is(b), ConflictsIn(init), last);
    }
  }

  lemma ConflictsMember(plan: seq<SyncAction>, b: SyncAction)
    ensures b in ConflictsIn(plan) <==> b.Conflict? && b in plan
  {
    ConflictsCount(plan, b);
    CountIfPositive(Is(b), plan);
    CountIfPositive(Is(b), ConflictsIn(plan));
  }

  /** The second plan consists of the conflicts of the first, each as often as there. */
  ghost predicate OnlyRepeatsConflicts(second: seq<SyncAction>, first: seq<SyncAction>) {
    multiset(second) == multiset(ConflictsIn(first))
  }

  /** If acting means repeating a conflict of an earlier plan, the plan repeats exactly the conflicts it decided. */
  lemma OnlyConflicts(inp: Inputs, order: seq<Path>, inp2: Inputs, order2: seq<Path>)
    requires Enumerates(order, inp.Paths()) && Enumerates(order2, inp2.Paths())
    requires forall p :: DecideAt(inp2, p) == Nothing || DecideAt(inp2, p).Act?
    requires forall b :: (exists p :: DecideAt(inp2, p) == Act(b)) <==> b.Conflict? && b in PlanOf(inp, order)
    ensures OnlyRepeatsConflicts(PlanOf(inp2, order2), PlanOf(inp, order))
  {
    hide Decide, PlanOf, ConflictsIn;
    var plan, plan2 := PlanOf(inp, order), PlanOf(inp2, order2);
    forall b ensures multiset(plan2)[b] == multiset(ConflictsIn(plan))[b] {
      DirectPlan(inp2, order2, b);
      ConflictsCount(plan, b);
      PlanCounts(inp, order, b);
      PlanCounts(inp2, order2, b);
      CountIsMultiplicity(plan2, b);
      CountIsMultiplicity(ConflictsIn(plan), b);
    }
  }

  /** If the second plan only repeats conflicts, it does nothing at a path owned by another action. */
  lemma QuietPath(inp: Inputs, order: seq<Path>, inp2: Inputs, order2: seq<Path>, a: SyncAction, p: Path)
    requires Enumerates(order, inp.Paths()) && Enumerates(order2, inp2.Paths())
    requires OnlyRepeatsConflicts(PlanOf(inp2, order2), PlanOf(inp, order))
    requires a in PlanOf(inp, order) && !a.Conflict? && p in ClaimList(a)
    ensures DecideAt(inp2, p) == Nothing
  {
    hide Decide, PlanOf;
    if Active(inp2, p) {
      var b := PlanServes(inp2, order2, p);
      assert b in multiset(PlanOf(inp2, order2));
      assert b in multiset(ConflictsIn(PlanOf(inp, order)));
      ConflictsMember(PlanOf(inp, order), b);
      OneOwner(inp, order, a, b, p);
    }
  }

  // ---------------------------------------------------------------- Convergence, whatever the outcomes

  /**
   * The next plan has nothing to do about any path of the action: what the action was to bring about holds, as far
   * as the mode looks at it. A move never comes to rest.
   */
  predicate Rests(setup: Setup, env: Transfers, w: World, a: SyncAction, o: Outcome) {
    match a
    case Upload(p, _, _) =>
      && p in w.local
      && var remote := Landed(o, env.uploaded(p, w.local[p]), Lookup(w.remote, p));
         remote.Some? && (setup.mode == TwoWay ==> Kept(w.local[p], remote.value))
    case Download(p, _, _, _, _) =>
      && p in w.remote
      && var local := Landed(o, env.downloaded(p, w.remote[p]), Lookup(w.local, p));
         local.Some? && Kept(w.remote[p], local.value)
    case DeleteLocal(_) => o.Done?
    case DeleteRemote(_) => o.Done? || setup.mode != TwoWay
    case ServerSideMove(_, _) => false
    case _ => true
  }

  lemma RestsIfNothing(setup: Setup, env: Transfers, w: World, p: Path, a: SyncAction, o: Outcome, v: View)
    requires Fits(w, p, a, v) && !a.Conflict? && !a.ServerSideMove?
    requires v.local == Lookup(w.local, p) && v.remote == Lookup(w.remote, p)
    ensures NextDecision(setup, env, w, p, a, o, v) == Nothing <==> Rests(setup, env, w, a, o)
  {}

  lemma MoveTargetStaysActive(setup: Setup, env: Transfers, w: World, p: Path, a: SyncAction, o: Outcome, v: View)
    requires Fits(w, p, a, v) && a.ServerSideMove? && p == a.to
    requires DecideView(setup, p, v) != Nothing
    ensures NextDecision(setup, env, w, p, a, o, v) != Nothing
  {}

  /** The path that shows whether an action has come to rest. */
  function Witness(a: SyncAction): (p: Path)
    ensures p in ClaimList(a)
  {
    if a.ServerSideMove? then a.to else ClaimList(a)[0]
  }

  ghost predicate Leftovers(plan: seq<SyncAction>, outcomes: seq<Outcome>)
    requires |plan| == |outcomes|
  {
    forall i :: 0 <= i < |plan| ==> LocalLeftover(plan[i], outcomes[i])
  }

  ghost predicate AllRest(setup: Setup, env: Transfers, w: World, plan: seq<SyncAction>, outcomes: seq<Outcome>)
    requires |plan| == |outcomes|
  {
    forall i :: 0 <= i < |plan| && !plan[i].Conflict? ==> Rests(setup, env, w, plan[i], outcomes[i])
  }

  /** Whether an owned path is acted on again, action by action. */
  lemma OwnedPathRests(setup: Setup, env: Transfers, now: Path -> Time, sys: System, order: seq<Path>, outcomes: seq<Outcome>, i: nat, p: Path)
    requires Enumerates(order, InputsOf(setup, sys).Paths())
    requires LocallyScanned(sys.world.local, env)
    requires i < |FirstPlan(setup, sys, order)| == |outcomes| && p in ClaimList(FirstPlan(setup, sys, order)[i])
    requires LocalLeftover(FirstPlan(setup, sys, order)[i], outcomes[i])
    ensures var a, d := FirstPlan(setup, sys, order)[i], DecideAt(InputsOf(setup, Cycle(setup, env, now, sys, order, outcomes)), p);
      && (a.Conflict? ==> d == Act(a))
      && (!a.Conflict? && Rests(setup, env, sys.world, a, outcomes[i]) ==> d == Nothing)
      && (!a.Conflict? && p == Witness(a) && d == Nothing ==> Rests(setup, env, sys.world, a, outcomes[i]))
  {
    hide Decide, PlanOf, Cycle;
    var a, v := FirstPlan(setup, sys, order)[i], ViewAt(sys, p);
    SecondDecision(setup, env, now, sys, order, outcomes, i, p);
    if a.ServerSideMove? {
      OwnerFits(setup, sys, order, a, p);
      assert DecideAt(InputsOf(setup, sys), p) == DecideView(setup, p, v);
      if p == a.to {
        MoveTargetStaysActive(setup, env, sys.world, p, a, outcomes[i], v);
      }
    } else if !a.Conflict? {
      RestsIfNothing(setup, env, sys.world, p, a, outcomes[i], v);
    }
  }

  lemma RestingDecision(setup: Setup, env: Transfers, now: Path -> Time, sys: System, order: seq<Path>, outcomes: seq<Outcome>, p: Path)
    requires Enumerates(order, InputsOf(setup, sys).Paths())
    requires LocallyScanned(sys.world.local, env)
    requires |FirstPlan(setup, sys, order)| == |outcomes| && Leftovers(FirstPlan(setup, sys, order), outcomes)
    requires AllRest(setup, env, sys.world, FirstPlan(setup, sys, order), outcomes)
    ensures var d := DecideAt(InputsOf(setup, Cycle(setup, env, now, sys, order, outcomes)), p);
      d == Nothing || (d.Act? && d.action.Conflict? && d.action in FirstPlan(setup, sys, order))
  {
    hide Decide, PlanOf, Cycle, Rests;
    var inp, plan := InputsOf(setup, sys), FirstPlan(setup, sys, order);
    if Active(inp, p) {
      var a := PlanServes(inp, order, p);
      var i :| 0 <= i < |plan| && plan[i] == a;
      OwnedPathRests(setup, env, now, sys, order, outcomes, i, p);
    } else {
      StaysInactive(setup, env, now, sys, order, outcomes, p);
    }
  }

  lemma QuietIfResting(setup: Setup, env: Transfers, now: Path -> Time, sys: System, order: seq<Path>, outcomes: seq<Outcome>, order2: seq<Path>)
    requires Enumerates(order, InputsOf(setup, sys).Paths())
    requires LocallyScanned(sys.world.local, env)
    requires |FirstPlan(setup, sys, order)| == |outcomes| && Leftovers(FirstPlan(setup, sys, order), outcomes)
    requires AllRest(setup, env, sys.world, FirstPlan(setup, sys, order), outcomes)
    requires Enumerates(order2, InputsOf(setup, Cycle(setup, env, now, sys, order, outcomes)).Paths())
    ensures OnlyRepeatsConflicts(FirstPlan(setup, Cycle(setup, env, now, sys, order, outcomes), order2), FirstPlan(setup, sys, order))
  {
    hide Decide, PlanOf, Cycle, AllRest;
    var inp, inp2 := InputsOf(setup, sys), InputsOf(setup, Cycle(setup, env, now, sys, order, outcomes));
    var plan := FirstPlan(setup, sys, order);
    forall p ensures var d := DecideAt(inp2, p); d == Nothing || (d.Act? && d.action.Conflict? && d.action in plan) {
      RestingDecision(setup, env, now, sys, order, outcomes, p);
    }
    forall b: SyncAction | b.Conflict? && b in plan ensures exists p :: DecideAt(inp2, p) == Act(b) {
      var i :| 0 <= i < |plan| && plan[i] == b;
      OwnedPathRests(setup, env, now, sys, order, outcomes, i, b.relPath);
    }
    OnlyConflicts(inp, order, inp2, order2);
  }

  /**
   * However the actions went, planning again gives exactly the conflicts of the first plan and nothing else if and
   * only if every other action came to rest.
   */
  lemma {:induction false} ConvergenceWithFailures(setup: Setup, env: Transfers, now: Path -> Time, sys: System, order: seq<Path>,
                                                   outcomes: seq<Outcome>, order2: seq<Path>)
    requires Enumerates(order, InputsOf(setup, sys).Paths())
    requires LocallyScanned(sys.world.local, env)
    requires |FirstPlan(setup, sys, order)| == |outcomes| && Leftovers(FirstPlan(setup, sys, order), outcomes)
    requires Enumerates(order2, InputsOf(setup, Cycle(setup, env, now, sys, order, outcomes)).Paths())
    ensures OnlyRepeatsConflicts(FirstPlan(setup, Cycle(setup, env, now, sys, order, outcomes), order2), FirstPlan(setup, sys, order))
       <==> AllRest(setup, env, sys.world, FirstPlan(setup, sys, order), outcomes)
  {
    hide Decide, PlanOf, Cycle, Rests, OnlyRepeatsConflicts;
    var plan, after := FirstPlan(setup, sys, order), Cycle(setup, env, now, sys, order, outcomes);
    if AllRest(setup, env, sys.world, plan, outcomes) {
      QuietIfResting(setup, env, now, sys, order, outcomes, order2);
    }
    if OnlyRepeatsConflicts(FirstPlan(setup, after, order2), plan) {
      forall i | 0 <= i < |plan| && !plan[i].Conflict? ensures Rests(setup, env, sys.world, plan[i], outcomes[i]) {
        var p := Witness(plan[i]);
        OwnedPathRests(setup, env, now, sys, order, outcomes, i, p);
        QuietPath(InputsOf(setup, sys), order, InputsOf(setup, after), order2, plan[i], p);
      }
    }
  }

  // ---------------------------------------------------------------- Convergence after success

  /** The transfers of a plan arrive with the size and time they were sent with. */
  ghost predicate Faithful(env: Transfers, w: World, plan: seq<SyncAction>) {
    && (forall p, n :: Upload(p, p, n) in plan && p in w.local ==> Kept(w.local[p], env.uploaded(p, w.local[p])))
    && (forall a :: a in plan && a.Download? && a.remotePath in w.remote ==>
          Kept(w.remote[a.remotePath], env.downloaded(a.localPath, w.remote[a.remotePath])))
  }

  /** A successful action rests unless it is a move or a transfer that changed what the mode looks at. */
  lemma DoneRests(setup: Setup, env: Transfers, sys: System, order: seq<Path>, a: SyncAction)
    requires Enumerates(order, InputsOf(setup, sys).Paths())
    requires a in FirstPlan(setup, sys, order)
    ensures Rests(setup, env, sys.world, a, Done) <==>
      match a
      case Upload(p, r, _) => p == r && p in sys.world.local && (setup.mode == TwoWay ==> Kept(sys.world.local[p], env.uploaded(p, sys.world.local[p])))
      case Download(p, l, _, _, _) => p == l && p in sys.world.remote && Kept(sys.world.remote[p], env.downloaded(p, sys.world.remote[p]))
      case ServerSideMove(_, _) => false
      case _ => true
    ensures a.Upload? ==> a.localPath == a.remotePath && a.localPath in sys.world.local
    ensures a.Download? ==> a.localPath == a.remotePath && a.remotePath in sys.world.remote && setup.mode == TwoWay
  {
    hide PlanOf, Decide;
    OwnerFits(setup, sys, order, a, ClaimList(a)[0]);
  }

  lemma SuccessRests(setup: Setup, env: Transfers, sys: System, order: seq<Path>)
    requires Enumerates(order, InputsOf(setup, sys).Paths())
    ensures var plan := FirstPlan(setup, sys, order);
      AllRest(setup, env, sys.world, plan, AllDone(|plan|)) <==>
        !HasMove(plan) && (setup.mode == TwoWay ==> Faithful(env, sys.world, plan))
  {
    hide PlanOf, Decide, Rests;
    var plan := FirstPlan(setup, sys, order);
    forall a | a in plan ensures a.ServerSideMove? ==> !Rests(setup, env, sys.world, a, Done) {
      DoneRests(setup, env, sys, order, a);
    }
    if AllRest(setup, env, sys.world, plan, AllDone(|plan|)) {
      forall a | a in plan && !a.Conflict? ensures Rests(setup, env, sys.world, a, Done) {
        var i :| 0 <= i < |plan| && plan[i] == a;
      }
      forall a | a in plan && (a.Upload? || a.Download?) ensures Rests(setup, env, sys.world, a, Done) {}
      forall p, n | setup.mode == TwoWay && Upload(p, p, n) in plan && p in sys.world.local
        ensures Kept(sys.world.local[p], env.uploaded(p, sys.world.local[p]))
      {
        DoneRests(setup, env, sys, order, Upload(p, p, n));
      }
      forall a | setup.mode == TwoWay && a in plan && a.Download? && a.remotePath in sys.world.remote
        ensures Kept(sys.world.remote[a.remotePath], env.downloaded(a.localPath, sys.world.remote[a.remotePath]))
      {
        DoneRests(setup, env, sys, order, a);
      }
    } else {
      var i :| 0 <= i < |plan| && !plan[i].Conflict? && !Rests(setup, env, sys.world, plan[i], Done);
      DoneRests(setup, env, sys, order, plan[i]);
      assert plan[i] in plan;
      match plan[i] {
        case Upload(p, r, n) => assert Upload(p, p, n) in plan;
        case _ =>
      }
    }
  }

  lemma DoneLeaveNothing(plan: seq<SyncAction>)
    ensures Leftovers(plan, AllDone(|plan|))
  {}

  /** The comparison of the three trees asks for the local file to be sent, or for the remote file to be fetched. */
  predicate Sends(inp: Inputs, p: Path) {
    DecideAt(inp, p).Add? || (DecideAt(inp, p).Act? && DecideAt(inp, p).action.Upload?)
  }

  predicate Fetches(inp: Inputs, p: Path) {
    DecideAt(inp, p).Act? && DecideAt(inp, p).action.Download?
  }

  /** What is sent and fetched arrives with its size and time. */
  ghost predicate TransfersKeep(env: Transfers, inp: Inputs) {
    && (forall p :: Sends(inp, p) && p in inp.local ==> Kept(inp.local[p], env.uploaded(p, inp.local[p])))
    && (forall p :: Fetches(inp, p) && p in inp.remote ==> Kept(inp.remote[p], env.downloaded(p, inp.remote[p])))
  }

  lemma TransferDecided(setup: Setup, sys: System, order: seq<Path>, p: Path)
    requires Enumerates(order, InputsOf(setup, sys).Paths())
    requires !HasMove(FirstPlan(setup, sys, order))
    ensures Sends(InputsOf(setup, sys), p) <==> exists n :: Upload(p, p, n) in FirstPlan(setup, sys, order)
    ensures Fetches(InputsOf(setup, sys), p) <==> exists a :: a in FirstPlan(setup, sys, order) && a.Download? && a.localPath == p
  {
    hide Decide, PlanOf;
    var inp, plan := InputsOf(setup, sys), FirstPlan(setup, sys, order);
    assert DecideAt(inp, p) == DecideView(setup, p, ViewAt(sys, p));
    FirstDecision(setup, p, ViewAt(sys, p));
    if n :| Upload(p, p, n) in plan {
      OwnerRealises(inp, order, Upload(p, p, n), p);
    }
    if a :| a in plan && a.Download? && a.localPath == p {
      OwnerRealises(inp, order, a, p);
    }
    if Sends(inp, p) || Fetches(inp, p) {
      var a := PlanServes(inp, order, p);
      if a.Upload? {
        assert a == Upload(p, p, a.size);
      }
    }
  }

  lemma FaithfulIsKept(setup: Setup, env: Transfers, sys: System, order: seq<Path>)
    requires Enumerates(order, InputsOf(setup, sys).Paths())
    requires !HasMove(FirstPlan(setup, sys, order))
    ensures Faithful(env, sys.world, FirstPlan(setup, sys, order)) <==> TransfersKeep(env, InputsOf(setup, sys))
  {
    hide Decide, PlanOf, Sends, Fetches;
    var inp, plan := InputsOf(setup, sys), FirstPlan(setup, sys, order);
    forall p
      ensures Sends(inp, p) <==> exists n :: Upload(p, p, n) in plan
      ensures Fetches(inp, p) <==> exists a :: a in plan && a.Download? && a.localPath == p
    {
      TransferDecided(setup, sys, order, p);
    }
    forall a | a in plan && a.Download? ensures a.localPath == a.remotePath {
      DoneRests(setup, env, sys, order, a);
    }
  }

  /**
   * After a cycle in which every action succeeded, planning again gives exactly the conflicts of the first plan and
   * nothing else if and only if there was nothing to move on the server and, in a two-way mode, every file that the
   * three trees ask to be sent or fetched keeps its size and modification time on the way.
   */
  lemma {:induction false} Convergence(setup: Setup, env: Transfers, now: Path -> Time, sys: System, order: seq<Path>, order2: seq<Path>)
    requires Enumerates(order, InputsOf(setup, sys).Paths())
    requires Enumerates(order2, InputsOf(setup, After(setup, env, now, sys, order)).Paths())
    requires LocallyScanned(sys.world.local, env)
    ensures OnlyRepeatsConflicts(FirstPlan(setup, After(setup, env, now, sys, order), order2), FirstPlan(setup, sys, order))
       <==> !MovePossible(InputsOf(setup, sys)) && (setup.mode == TwoWay ==> TransfersKeep(env, InputsOf(setup, sys)))
  {
    hide Cycle, PlanOf, Decide, OnlyRepeatsConflicts, AllRest, Faithful, TransfersKeep, HasMove, MovePossible, Leftovers;
    var plan := FirstPlan(setup, sys, order);
    DoneLeaveNothing(plan);
    SuccessRests(setup, env, sys, order);
    ConvergenceWithFailures(setup, env, now, sys, order, AllDone(|plan|), order2);
    MovesExactly(InputsOf(setup, sys), order);
    if !HasMove(plan) {
      FaithfulIsKept(setup, env, sys, order);
    }
  }

  // ---------------------------------------------------------------- The second plan after success, moves included

  /** What the second plan consists of when transfers keep what the mode looks at. */
  ghost predicate Expected(setup: Setup, sys: System, plan: seq<SyncAction>, b: SyncAction) {
    || (b.Conflict? && b in plan)
    || (exists m :: m in plan && m.ServerSideMove? && m.to in sys.world.local && m.from in sys.world.remote
                    && b == ClashOf(setup, m.to, sys.world.local[m.to], sys.world.remote[m.from]))
  }

  lemma SuccessfulDecision(setup: Setup, env: Transfers, now: Path -> Time, sys: System, order: seq<Path>, a: SyncAction, p: Path)
    requires Enumerates(order, InputsOf(setup, sys).Paths())
    requires LocallyScanned(sys.world.local, env)
    requires setup.mode == TwoWay ==> Faithful(env, sys.world, FirstPlan(setup, sys, order))
    requires a in FirstPlan(setup, sys, order) && p in ClaimList(a)
    ensures DecideAt(InputsOf(setup, After(setup, env, now, sys, order)), p) ==
      if a.Conflict? then Act(a)
      else if a.ServerSideMove? && p == a.to && p in sys.world.local && a.from in sys.world.remote
      then Act(ClashOf(setup, p, sys.world.local[p], sys.world.remote[a.from]))
      else Nothing
    ensures a.ServerSideMove? && p == a.to ==> p in sys.world.local && a.from in sys.world.remote
  {
    hide PlanOf, Decide, Cycle;
    var plan := FirstPlan(setup, sys, order);
    var i :| 0 <= i < |plan| && plan[i] == a;
    OwnerFits(setup, sys, order, a, p);
    SecondDecision(setup, env, now, sys, order, AllDone(|plan|), i, p);
    if a.Upload? {
      assert a == Upload(p, p, a.size);
    }
  }

  lemma SecondDecisionExpected(setup: Setup, env: Transfers, now: Path -> Time, sys: System, order: seq<Path>, p: Path)
    requires Enumerates(order, InputsOf(setup, sys).Paths())
    requires LocallyScanned(sys.world.local, env)
    requires setup.mode == TwoWay ==> Faithful(env, sys.world, FirstPlan(setup, sys, order))
    ensures var d := DecideAt(InputsOf(setup, After(setup, env, now, sys, order)), p);
      d == Nothing || (d.Act? && Expected(setup, sys, FirstPlan(setup, sys, order), d.action))
  {
    hide PlanOf, Decide, Cycle, Faithful;
    var inp, plan := InputsOf(setup, sys), FirstPlan(setup, sys, order);
    if Active(inp, p) {
      var a := PlanServes(inp, order, p);
      SuccessfulDecision(setup, env, now, sys, order, a, p);
    } else {
      StaysInactive(setup, env, now, sys, order, AllDone(|plan|), p);
    }
  }

  lemma ExpectedIsDecided(setup: Setup, env: Transfers, now: Path -> Time, sys: System, order: seq<Path>, b: SyncAction)
    requires Enumerates(order, InputsOf(setup, sys).Paths())
    requires LocallyScanned(sys.world.local, env)
    requires setup.mode == TwoWay ==> Faithful(env, sys.world, FirstPlan(setup, sys, order))
    requires Expected(setup, sys, FirstPlan(setup, sys, order), b)
    ensures exists p :: DecideAt(InputsOf(setup, After(setup, env, now, sys, order)), p) == Act(b)
  {
    hide PlanOf, Decide, Cycle, Faithful;
    var plan := FirstPlan(setup, sys, order);
    if b.Conflict? && b in plan {
      SuccessfulDecision(setup, env, now, sys, order, b, b.relPath);
    } else {
      var m :| m in plan && m.ServerSideMove? && m.to in sys.world.local && m.from in sys.world.remote
               && b == ClashOf(setup, m.to, sys.world.local[m.to], sys.world.remote[m.from]);
      SuccessfulDecision(setup, env, now, sys, order, m, m.to);
    }
  }

  /**
   * The second plan holds exactly the conflicts of the first plan, plus one new conflict at the target of every
   * server-side move of the first plan; in a two-way mode, provided that the transfers kept size and time.
   */
  lemma SecondPlan(setup: Setup, env: Transfers, now: Path -> Time, sys: System, order: seq<Path>, order2: seq<Path>, b: SyncAction)
    requires Enumerates(order, InputsOf(setup, sys).Paths())
    requires Enumerates(order2, InputsOf(setup, After(setup, env, now, sys, order)).Paths())
    requires LocallyScanned(sys.world.local, env)
    requires setup.mode == TwoWay ==> Faithful(env, sys.world, FirstPlan(setup, sys, order))
    ensures b in FirstPlan(setup, After(setup, env, now, sys, order), order2) <==> Expected(setup, sys, FirstPlan(setup, sys, order), b)
  {
    hide PlanOf, Decide, Cycle, Expected, Faithful;
    var plan := FirstPlan(setup, sys, order);
    var inp2 := InputsOf(setup, After(setup, env, now, sys, order));
    forall p ensures DecideAt(inp2, p) == Nothing || DecideAt(inp2, p).Act? {
      SecondDecisionExpected(setup, env, now, sys, order, p);
    }
    DirectPlan(inp2, order2, b);
    if b in FirstPlan(setup, After(setup, env, now, sys, order), order2) {
      var p :| DecideAt(inp2, p) == Act(b);
      SecondDecisionExpected(setup, env, now, sys, order, p);
    }
    if Expected(setup, sys, plan, b) {
      ExpectedIsDecided(setup, env, now, sys, order, b);
    }
  }
}
