/** Catalogue entries of paths that neither side has: nothing drops them, and they make new files disappear. */
module StaleEntries {
  import opened Prelude
  import opened SyncTypes
  import opened Planner
  import opened Ownership
  import opened Executor
  import opened Orchestrator
  import opened Followup
  import opened Convergence
  import opened Merge
  import opened ModeSafety

  lemma OneSideDecision(setup: Setup, p: Path, v: View)
    requires setup.mode.TwoWay? && (v.local.Some? <==> v.remote.None?)
    ensures var d := DecideView(setup, p, v); (d == Act(DeleteLocal(p)) || d.Delete?) <==> v.state.Some?
  {}

  /** In two-way mode a file that only one side has is removed there exactly if the catalogue knows its path. */
  lemma FileOnOneSide(setup: Setup, sys: System, order: seq<Path>, p: Path)
    requires setup.mode.TwoWay?
    requires Enumerates(order, InputsOf(setup, sys).Paths())
    requires OnOneSide(sys.world, p)
    ensures Removes(FirstPlan(setup, sys, order), p) <==> p in sys.catalogue
  {
    hide Decide, PlanOf;
    var inp := InputsOf(setup, sys);
    assert DecideAt(inp, p) == DecideView(setup, p, ViewAt(sys, p));
    OneSideDecision(setup, p, ViewAt(sys, p));
    RemovalIsDecided(inp, order, p);
  }

  predicate Absent(w: World, p: Path) { p !in w.local && p !in w.remote }

  /** Nobody creates the path or loses the catalogue for good. Failures of actions, scans, saves and first loads are allowed. */
  ghost predicate Uneventful(events: seq<Event>, p: Path) {
    forall i :: 0 <= i < |events| ==>
      match events[i]
      case LocalEdit(t) => p !in t
      case RemoteEdit(t) => p !in t
      case CatalogueLost => false
      case Synced(_, _, luck) => luck.secondLoad || !luck.save
  }

  lemma AbsentIsInactive(inp: Inputs, p: Path)
    requires p !in inp.local && p !in inp.remote
    ensures !Active(inp, p)
  {}

  lemma StaleStep(setup: Setup, env: Transfers, now: Path -> Time, before: System, e: Event, after: System, p: Path)
    requires Next(setup, env, now, before, e, after)
    requires Absent(before.world, p) && Uneventful([e], p)
    ensures ViewAt(after, p) == ViewAt(before, p)
  {
    hide Decide, PlanOf, CycleFrom;
    assert [e][0] == e;
    if e.Synced? && e.luck.scans {
      var planned := Planned(before, e.luck);
      AbsentIsInactive(InputsOf(setup, planned), p);
      UntouchedPath(setup, env, now, planned, Read(before.catalogue, e.luck.secondLoad), e.order, e.outcomes, p);
    }
  }

  /** Over any such run, a catalogue entry of a path that neither side has stays as it is. */
  lemma {:induction false} StaleEntryStays(setup: Setup, env: Transfers, now: Path -> Time, states: seq<System>, events: seq<Event>, p: Path)
    requires IsRun(setup, env, now, states, events)
    requires Absent(states[0].world, p) && Uneventful(events, p)
    ensures ViewAt(states[|events|], p) == ViewAt(states[0], p)
  {
    hide Next;
    if events != [] {
      var n := |events| - 1;
      StaleEntryStays(setup, env, now, states[..n + 1], events[..n], p);
      assert ViewAt(states[n], p) == ViewAt(states[0], p);
      assert Lookup(states[n].world.local, p) == None && Lookup(states[n].world.remote, p) == None;
      StaleStep(setup, env, now, states[n], events[n], states[n + 1], p);
    }
  }

  /**
   * A file that appears on one side, after any such run, at a path that neither side had at its start, is removed by
   * the next two-way plan exactly if the catalogue knew the path at the start.
   */
  lemma NewFileAtOldPath(setup: Setup, env: Transfers, now: Path -> Time, states: seq<System>, events: seq<Event>,
                         p: Path, edited: System, order: seq<Path>)
    requires setup.mode.TwoWay?
    requires IsRun(setup, env, now, states, events)
    requires Absent(states[0].world, p) && Uneventful(events, p)
    requires edited.catalogue == states[|events|].catalogue
    requires OnOneSide(edited.world, p)
    requires Enumerates(order, InputsOf(setup, edited).Paths())
    ensures Removes(FirstPlan(setup, edited, order), p) <==> p in states[0].catalogue
  {
    hide Decide, PlanOf, Next;
    StaleEntryStays(setup, env, now, states, events, p);
    assert Lookup(edited.catalogue, p) == Lookup(states[0].catalogue, p);
    FileOnOneSide(setup, edited, order, p);
  }

  /** A server-side move leaves such an entry: a file that appears later at the old path is removed by the next plan. */
  lemma MoveLeavesTrap(setup: Setup, env: Transfers, now: Path -> Time, sys: System, order: seq<Path>, m: SyncAction,
                       states: seq<System>, events: seq<Event>, edited: System, order2: seq<Path>)
    requires setup.mode.TwoWay?
    requires Enumerates(order, InputsOf(setup, sys).Paths())
    requires m in FirstPlan(setup, sys, order) && m.ServerSideMove?
    requires IsRun(setup, env, now, states, events) && states[0] == After(setup, env, now, sys, order)
    requires Uneventful(events, m.from)
    requires edited.catalogue == states[|events|].catalogue
    requires OnOneSide(edited.world, m.from)
    requires Enumerates(order2, InputsOf(setup, edited).Paths())
    ensures Removes(FirstPlan(setup, edited, order2), m.from)
  {
    hide Decide, PlanOf, Next, Cycle, Removes;
    CycleMovesFile(setup, env, now, sys, order, m);
    var v := ViewAt(states[0], m.from);
    assert v.local == None && v.remote == None && v.state.Some?;
    NewFileAtOldPath(setup, env, now, states, events, m.from, edited, order2);
  }
}
