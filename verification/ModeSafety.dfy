/** What a sync mode can never do, over any number of cycles with edits, failures and lost catalogues in between. */
module ModeSafety {
  import opened Prelude
  import opened SyncTypes
  import opened RenameDetector
  import opened Planner
  import opened Ownership
  import opened Executor
  import opened Orchestrator
  import opened Commutation

  datatype Event =
    | LocalEdit(tree: Tree)
    | RemoteEdit(tree: Tree)
    | CatalogueLost
    | Synced(order: seq<Path>, outcomes: seq<Outcome>, luck: Luck)

  /** What the planner of a cycle sees: the trees, and the catalogue as it was loaded. */
  function Planned(sys: System, luck: Luck): System {
    sys.(catalogue := Read(sys.catalogue, luck.firstLoad))
  }

  ghost predicate Next(setup: Setup, env: Transfers, now: Path -> Time, before: System, e: Event, after: System) {
    match e
    case LocalEdit(t) => after == before.(world := before.world.(local := t))
    case RemoteEdit(t) => after == before.(world := before.world.(remote := t))
    case CatalogueLost => after == before.(catalogue := map[])
    case Synced(order, outcomes, luck) =>
      var planned := Planned(before, luck);
      if !luck.scans then after == before
      else
        && Enumerates(order, InputsOf(setup, planned).Paths())
        && |outcomes| == |PlanOf(InputsOf(setup, planned), order)|
        && var cycled := CycleFrom(setup, env, now, planned, Read(before.catalogue, luck.secondLoad), order, outcomes);
           after == if luck.save then cycled else before.(world := cycled.world)
  }

  ghost predicate IsRun(setup: Setup, env: Transfers, now: Path -> Time, states: seq<System>, events: seq<Event>) {
    && |states| == |events| + 1
    && forall i :: 0 <= i < |events| ==> Next(setup, env, now, states[i], events[i], states[i + 1])
  }

  // ---------------------------------------------------------------- Which actions a mode can plan

  lemma PlannedKinds(inp: Inputs, order: seq<Path>, a: SyncAction)
    requires a in PlanOf(inp, order)
    ensures inp.mode != TwoWay ==> !a.Download? && !a.DeleteLocal?
    ensures inp.mode == OneWayNoDeletions ==> !a.DeleteRemote? && !a.ServerSideMove?
    ensures inp.base == map[] ==> !a.DeleteLocal? && !a.DeleteRemote? && !a.ServerSideMove?
    ensures !a.ServerSideCopy?
  {
    var ds := Decisions(inp, order);
    var dels, adds := Deletions(ds), Additions(ds);
    var d := PairingOf(inp, dels, adds);
    if a in Direct(ds) {
      DirectMember(ds, a);
      var i :| 0 <= i < |ds| && ds[i] == Act(a);
      DirectKinds(inp, order[i]);
    } else if a in MoveActions(MovesOf(d.pairs)) {
      var k :| 0 <= k < |d.pairs| && MoveActions(MovesOf(d.pairs))[k] == a;
      PairingMember(inp, dels, adds);
      assert Firsts(d.pairs)[k] in dels;
      var p := DeletionOf(inp, order, Firsts(d.pairs)[k]);
      DeletionKinds(inp, p);
    } else if a in DeleteActions(d.restDel) {
      var k :| 0 <= k < |d.restDel| && DeleteActions(d.restDel)[k] == a;
      PairingMember(inp, dels, adds);
      assert d.restDel[k] in dels;
      var p := DeletionOf(inp, order, d.restDel[k]);
      DeletionKinds(inp, p);
    } else {
      assert a in UploadActions(inp.local, d.restAdd);
    }
  }

  lemma DirectKinds(inp: Inputs, p: Path)
    ensures DecideAt(inp, p).Act? ==>
      var a := DecideAt(inp, p).action;
      && (inp.mode != TwoWay ==> !a.Download? && !a.DeleteLocal?)
      && (inp.base == map[] ==> !a.DeleteLocal?)
      && !a.DeleteRemote? && !a.ServerSideMove? && !a.ServerSideCopy?
  {}

  lemma DeletionKinds(inp: Inputs, p: Path)
    requires DecideAt(inp, p).Delete?
    ensures inp.mode != OneWayNoDeletions && p in inp.base
  {}

  // ---------------------------------------------------------------- One-way modes and the local tree

  lemma {:induction false} LocalUntouched(env: Transfers, steps: seq<Step>, w: World)
    requires forall i :: 0 <= i < |steps| ==> !steps[i].action.Download? && !steps[i].action.DeleteLocal?
    ensures Exec(env, steps, w).local == w.local
  {
    if steps != [] {
      LocalUntouched(env, steps[..|steps| - 1], w);
    }
  }

  lemma OneWayCycle(setup: Setup, env: Transfers, now: Path -> Time, before: System, e: Event, after: System)
    requires setup.mode != TwoWay
    requires Next(setup, env, now, before, e, after) && !e.LocalEdit?
    ensures after.world.local == before.world.local
  {
    if e.Synced? && e.luck.scans {
      var inp := InputsOf(setup, Planned(before, e.luck));
      var plan := PlanOf(inp, e.order);
      var steps := StepsOf(plan, e.outcomes);
      forall i | 0 <= i < |steps| ensures !steps[i].action.Download? && !steps[i].action.DeleteLocal? {
        PlannedKinds(inp, e.order, plan[i]);
      }
      LocalUntouched(env, steps, before.world);
    }
  }

  /** The local tree as the user left it. */
  function LastEdit(start: Tree, events: seq<Event>): Tree {
    if events == [] then start
    else if events[|events| - 1].LocalEdit? then events[|events| - 1].tree
    else LastEdit(start, events[..|events| - 1])
  }

  /** In a one-way mode the local tree is, after any run, what the last local edit made it. */
  lemma {:induction false} OneWayNeverAltersLocal(setup: Setup, env: Transfers, now: Path -> Time, states: seq<System>, events: seq<Event>)
    requires setup.mode != TwoWay
    requires IsRun(setup, env, now, states, events)
    ensures states[|events|].world.local == LastEdit(states[0].world.local, events)
  {
    if events != [] {
      var n := |events| - 1;
      OneWayNeverAltersLocal(setup, env, now, states[..n + 1], events[..n]);
      assert Next(setup, env, now, states[n], events[n], states[n + 1]);
      if !events[n].LocalEdit? {
        OneWayCycle(setup, env, now, states[n], events[n], states[n + 1]);
      }
    }
  }

  // ---------------------------------------------------------------- Without deletions, the remote only grows

  lemma {:induction false} RemoteGrows(env: Transfers, steps: seq<Step>, w: World)
    requires forall i :: 0 <= i < |steps| ==> !steps[i].action.DeleteRemote? && !steps[i].action.ServerSideMove?
    ensures w.remote.Keys <= Exec(env, steps, w).remote.Keys
  {
    if steps != [] {
      var init, last := steps[..|steps| - 1], steps[|steps| - 1];
      RemoteGrows(env, init, w);
      assert Exec(env, init, w).remote.Keys <= Apply(env, last, Exec(env, init, w)).remote.Keys;
    }
  }

  lemma GrowingCycle(setup: Setup, env: Transfers, now: Path -> Time, before: System, e: Event, after: System)
    requires setup.mode == OneWayNoDeletions
    requires Next(setup, env, now, before, e, after) && !e.RemoteEdit?
    ensures before.world.remote.Keys <= after.world.remote.Keys
  {
    if e.Synced? && e.luck.scans {
      var inp := InputsOf(setup, Planned(before, e.luck));
      var plan := PlanOf(inp, e.order);
      var steps := StepsOf(plan, e.outcomes);
      forall i | 0 <= i < |steps| ensures !steps[i].action.DeleteRemote? && !steps[i].action.ServerSideMove? {
        PlannedKinds(inp, e.order, plan[i]);
      }
      RemoteGrows(env, steps, before.world);
    }
  }

  /** In the mode without deletions no path leaves the remote side unless somebody else removes it there. */
  lemma {:induction false} NoDeletionsNeverRemovesRemote(setup: Setup, env: Transfers, now: Path -> Time, states: seq<System>, events: seq<Event>)
    requires setup.mode == OneWayNoDeletions
    requires IsRun(setup, env, now, states, events)
    requires forall i :: 0 <= i < |events| ==> !events[i].RemoteEdit?
    ensures states[0].world.remote.Keys <= states[|events|].world.remote.Keys
  {
    if events != [] {
      var n := |events| - 1;
      NoDeletionsNeverRemovesRemote(setup, env, now, states[..n + 1], events[..n]);
      assert Next(setup, env, now, states[n], events[n], states[n + 1]);
      GrowingCycle(setup, env, now, states[n], events[n], states[n + 1]);
    }
  }

  // ---------------------------------------------------------------- The empty catalogue

  /** With an empty catalogue, an action only writes a path on the side that does not have it. */
  lemma EmptyCatalogueDecision(inp: Inputs, p: Path)
    requires inp.base == map[]
    ensures match DecideAt(inp, p)
      case Nothing => true
      case Act(a) => (a.Download? && a.localPath == p && p !in inp.local) || a.Conflict? || a.ConvergeState?
      case Delete(_) => false
      case Add(_) => p !in inp.remote
  {}

  lemma EmptyCatalogueKeepsPath(setup: Setup, env: Transfers, w: World, order: seq<Path>, outcomes: seq<Outcome>, p: Path)
    requires Enumerates(order, InputsOf(setup, System(w, map[])).Paths())
    requires |outcomes| == |PlanOf(InputsOf(setup, System(w, map[])), order)|
    ensures var after := Exec(env, StepsOf(PlanOf(InputsOf(setup, System(w, map[])), order), outcomes), w);
      && (p in w.local ==> p in after.local && after.local[p] == w.local[p])
      && (p in w.remote ==> p in after.remote && after.remote[p] == w.remote[p])
  {
    var inp := InputsOf(setup, System(w, map[]));
    var plan := PlanOf(inp, order);
    var steps := StepsOf(plan, outcomes);
    assert ActionsOf(steps) == plan;
    StepCounts(steps, p);
    PlanOwners(inp, order, p);
    var after := Exec(env, steps, w);
    if Active(inp, p) {
      var a := PlanServes(inp, order, p);
      PlannedKinds(inp, order, a);
      EmptyCatalogueDecision(inp, p);
      var i :| 0 <= i < |plan| && plan[i] == a;
      PlanIsExclusive(inp, order, steps);
      ExecAt(env, steps, w, i, p);
      assert steps[i].action == a;
    } else {
      ExecElsewhere(env, steps, w, p);
    }
    assert Lookup(after.local, p) == Lookup(w.local, p) || p !in w.local;
    assert Lookup(after.remote, p) == Lookup(w.remote, p) || p !in w.remote;
  }

  /**
   * A plan made from the empty catalogue, which is what a failed load falls back to, holds no deletion and no move;
   * carrying it out changes no file that exists on either side, even if transfers fail half way.
   */
  lemma EmptyCatalogueDestroysNothing(setup: Setup, env: Transfers, w: World, order: seq<Path>, outcomes: seq<Outcome>)
    requires Enumerates(order, InputsOf(setup, System(w, map[])).Paths())
    requires |outcomes| == |PlanOf(InputsOf(setup, System(w, map[])), order)|
    ensures var plan := PlanOf(InputsOf(setup, System(w, map[])), order);
      && (forall a :: a in plan ==> !a.DeleteLocal? && !a.DeleteRemote? && !a.ServerSideMove?)
      && var after := Exec(env, StepsOf(plan, outcomes), w);
         && (forall p :: p in w.local ==> p in after.local && after.local[p] == w.local[p])
         && (forall p :: p in w.remote ==> p in after.remote && after.remote[p] == w.remote[p])
  {
    var inp := InputsOf(setup, System(w, map[]));
    var plan := PlanOf(inp, order);
    forall a | a in plan ensures !a.DeleteLocal? && !a.DeleteRemote? && !a.ServerSideMove? {
      PlannedKinds(inp, order, a);
    }
    var after := Exec(env, StepsOf(plan, outcomes), w);
    forall p ensures (p in w.local ==> p in after.local && after.local[p] == w.local[p])
                  && (p in w.remote ==> p in after.remote && after.remote[p] == w.remote[p]) {
      EmptyCatalogueKeepsPath(setup, env, w, order, outcomes, p);
    }
  }

  /** A cycle whose first load fails changes no file that exists on either side, even if transfers fail half way. */
  lemma FailedLoadDestroysNothing(setup: Setup, env: Transfers, now: Path -> Time, before: System, e: Event, after: System)
    requires Next(setup, env, now, before, e, after)
    requires e.Synced? && !e.luck.firstLoad
    ensures forall p :: p in before.world.local ==> p in after.world.local && after.world.local[p] == before.world.local[p]
    ensures forall p :: p in before.world.remote ==> p in after.world.remote && after.world.remote[p] == before.world.remote[p]
  {
    if e.luck.scans {
      EmptyCatalogueDestroysNothing(setup, env, before.world, e.order, e.outcomes);
    }
  }

  /** With nothing failing around it, a cycle is planned from the stored catalogue, folded into it and saved. */
  lemma LuckyCycle(setup: Setup, env: Transfers, now: Path -> Time, before: System, order: seq<Path>, outcomes: seq<Outcome>, after: System)
    requires Next(setup, env, now, before, Synced(order, outcomes, Luck(true, true, true, true)), after)
    ensures |outcomes| == |PlanOf(InputsOf(setup, before), order)| && after == Cycle(setup, env, now, before, order, outcomes)
  {
    assert Planned(before, Luck(true, true, true, true)) == before;
  }
}
