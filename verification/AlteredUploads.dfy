/** What it costs that the catalogue takes the local size and time for those of the remote copy. */
module AlteredUploads {
  import opened Prelude
  import opened SyncTypes
  import opened Planner
  import opened Ownership
  import opened Executor
  import opened Orchestrator
  import opened Followup
  import opened Merge
  import opened ModeSafety
  import opened Failures

  // ---------------------------------------------------------------- The next edit

  lemma EditDecision(setup: Setup, p: Path, sent: ScannedItem, edit: ScannedItem, there: Option<ScannedItem>)
    requires edit.checksum == None && !Kept(sent, edit)
    ensures var v := View(Some(edit), there, Some(TransferState(sent.size, sent.modified, None, None)));
      var d := DecideView(setup, p, v);
      && (d == Act(Upload(p, p, edit.size)) <==> if there.None? then setup.mode != TwoWay else Kept(sent, there.value))
      && (there.Some? && !Kept(sent, there.value) && !SameContent(edit, there.value) ==> d == Act(ClashOf(setup, p, edit, there.value)))
      && !d.Add?
  {}

  lemma ActIsPlanned(inp: Inputs, order: seq<Path>, p: Path, a: SyncAction)
    requires Enumerates(order, inp.Paths())
    requires p in ClaimList(a) && !DecideAt(inp, p).Add? && !DecideAt(inp, p).Delete?
    ensures a in PlanOf(inp, order) <==> DecideAt(inp, p) == Act(a)
  {
    hide Decide, PlanOf;
    if a in PlanOf(inp, order) {
      OwnerRealises(inp, order, a, p);
    }
    if DecideAt(inp, p) == Act(a) {
      var b := PlanServes(inp, order, p);
    }
  }

  /**
   * A file is edited after its upload, while nobody else touches the remote copy. In every mode the next plan sends
   * the edited file if and only if the remote copy has the size and time that were sent; if it does not, and the two
   * differ, the edit becomes a conflict. Without a remote copy the edit is sent in the one-way modes only.
   */
  lemma EditAfterUpload(setup: Setup, env: Transfers, now: Path -> Time, sys: System, order: seq<Path>, outcomes: seq<Outcome>,
                        i: nat, p: Path, edited: System, order2: seq<Path>)
    requires Enumerates(order, InputsOf(setup, sys).Paths())
    requires i < |FirstPlan(setup, sys, order)| == |outcomes|
    requires FirstPlan(setup, sys, order)[i].Upload? && p in ClaimList(FirstPlan(setup, sys, order)[i])
    requires Lookup(edited.world.remote, p) == Lookup(Cycle(setup, env, now, sys, order, outcomes).world.remote, p)
    requires Lookup(edited.catalogue, p) == Lookup(Cycle(setup, env, now, sys, order, outcomes).catalogue, p)
    requires p in edited.world.local && edited.world.local[p].checksum == None
    requires p in sys.world.local ==> !Kept(sys.world.local[p], edited.world.local[p])
    requires Enumerates(order2, InputsOf(setup, edited).Paths())
    ensures p in sys.world.local
    ensures var sent, edit, plan := sys.world.local[p], edited.world.local[p], FirstPlan(setup, edited, order2);
      var there := Landed(outcomes[i], env.uploaded(p, sent), Lookup(sys.world.remote, p));
      && (Upload(p, p, edit.size) in plan <==> if there.None? then setup.mode != TwoWay else Kept(sent, there.value))
      && (there.Some? && !Kept(sent, there.value) && !SameContent(edit, there.value) ==> ClashOf(setup, p, edit, there.value) in plan)
  {
    hide Decide, PlanOf, Cycle;
    OwnerLeft(setup, env, now, sys, order, outcomes, i, p);
    var sent, edit := sys.world.local[p], edited.world.local[p];
    var there := Landed(outcomes[i], env.uploaded(p, sent), Lookup(sys.world.remote, p));
    EditDecision(setup, p, sent, edit, there);
    var inp := InputsOf(setup, edited);
    assert DecideAt(inp, p) == DecideView(setup, p, ViewAt(edited, p));
    FirstDecision(setup, p, ViewAt(edited, p));
    assert ViewAt(edited, p) == View(Some(edit), there, Some(TransferState(sent.size, sent.modified, None, None)));
    assert !DecideAt(inp, p).Delete?;
    ActIsPlanned(inp, order2, p, Upload(p, p, edit.size));
    if there.Some? {
      ActIsPlanned(inp, order2, p, ClashOf(setup, p, edit, there.value));
    }
  }

  // ---------------------------------------------------------------- One way, over any run

  /** The remote copy is not the one the catalogue describes, if the catalogue knows the path at all. */
  predicate Stuck(v: View, r: ScannedItem) {
    v.remote == Some(r) && (v.state.Some? ==> RemoteChanged(r, v.state.value))
  }

  predicate LocalFile(v: View) { v.local.Some? && v.local.value.checksum == None }

  lemma StuckDecision(setup: Setup, p: Path, v: View, r: ScannedItem)
    requires setup.mode != TwoWay && r.size > 0
    requires Stuck(v, r) && LocalFile(v)
    ensures DecideView(setup, p, v) ==
      if v.state.None? || LocalChanged(v.local.value, v.state.value) then Act(ClashOf(setup, p, v.local.value, r)) else Nothing
  {}

  /** The user keeps the file, and nobody else changes the remote side. Anything else may happen. */
  ghost predicate OnlyLocalEdits(events: seq<Event>, p: Path) {
    forall i :: 0 <= i < |events| ==>
      match events[i]
      case LocalEdit(t) => p in t && t[p].checksum == None
      case RemoteEdit(_) => false
      case CatalogueLost => true
      case Synced(_, _, _) => true
  }

  lemma QuietCycle(setup: Setup, env: Transfers, now: Path -> Time, planned: System, folded: Catalogue, order: seq<Path>,
                   outcomes: seq<Outcome>, p: Path, r: ScannedItem)
    requires setup.mode != TwoWay && r.size > 0
    requires Enumerates(order, InputsOf(setup, planned).Paths()) && |outcomes| == |FirstPlan(setup, planned, order)|
    requires Stuck(ViewAt(planned, p), r) && LocalFile(ViewAt(planned, p))
    ensures ViewAt(CycleFrom(setup, env, now, planned, folded, order, outcomes), p)
         == View(Lookup(planned.world.local, p), Lookup(planned.world.remote, p), Lookup(folded, p))
  {
    hide Decide, PlanOf, CycleFrom, LocalChanged, RemoteChanged;
    var inp, v, plan := InputsOf(setup, planned), ViewAt(planned, p), FirstPlan(setup, planned, order);
    assert DecideAt(inp, p) == DecideView(setup, p, v);
    StuckDecision(setup, p, v, r);
    if Active(inp, p) {
      var a := PlanServes(inp, order, p);
      var i :| 0 <= i < |plan| && plan[i] == a;
      OwnedPathFrom(setup, env, now, planned, folded, order, outcomes, i, p);
    } else {
      UntouchedPath(setup, env, now, planned, folded, order, outcomes, p);
    }
  }

  lemma StuckStep(setup: Setup, env: Transfers, now: Path -> Time, before: System, e: Event, after: System, p: Path, r: ScannedItem)
    requires setup.mode != TwoWay && r.size > 0
    requires Next(setup, env, now, before, e, after) && OnlyLocalEdits([e], p)
    requires Stuck(ViewAt(before, p), r) && LocalFile(ViewAt(before, p))
    ensures Stuck(ViewAt(after, p), r) && LocalFile(ViewAt(after, p))
  {
    hide Decide, PlanOf, CycleFrom, RemoteChanged;
    assert [e][0] == e;
    if e.Synced? && e.luck.scans {
      QuietCycle(setup, env, now, Planned(before, e.luck), Read(before.catalogue, e.luck.secondLoad), e.order, e.outcomes, p, r);
    }
  }

  lemma {:induction false} StuckRun(setup: Setup, env: Transfers, now: Path -> Time, states: seq<System>, events: seq<Event>, p: Path, r: ScannedItem)
    requires setup.mode != TwoWay && r.size > 0
    requires IsRun(setup, env, now, states, events) && OnlyLocalEdits(events, p)
    requires Stuck(ViewAt(states[0], p), r) && LocalFile(ViewAt(states[0], p))
    ensures Stuck(ViewAt(states[|events|], p), r) && LocalFile(ViewAt(states[|events|], p))
  {
    hide Next, Stuck, LocalFile;
    if events != [] {
      var n := |events| - 1;
      StuckRun(setup, env, now, states[..n + 1], events[..n], p, r);
      StuckStep(setup, env, now, states[n], events[n], states[n + 1], p, r);
    }
  }

  /**
   * In a one-way mode, if an upload leaves a nonempty remote copy whose size or time is not the one sent, then over
   * any run in which the user keeps the file and nobody else changes the remote side, that copy stays as it is: every
   * plan does nothing about the path, or, if the local file differs from the catalogue, reports the same conflict.
   */
  lemma AlteredUploadSticks(setup: Setup, env: Transfers, now: Path -> Time, sys: System, order: seq<Path>, outcomes: seq<Outcome>,
                            i: nat, p: Path, states: seq<System>, events: seq<Event>)
    requires setup.mode != TwoWay
    requires Enumerates(order, InputsOf(setup, sys).Paths())
    requires LocallyScanned(sys.world.local, env)
    requires i < |FirstPlan(setup, sys, order)| == |outcomes|
    requires FirstPlan(setup, sys, order)[i].Upload? && p in ClaimList(FirstPlan(setup, sys, order)[i])
    requires IsRun(setup, env, now, states, events) && OnlyLocalEdits(events, p)
    requires states[0] == Cycle(setup, env, now, sys, order, outcomes)
    ensures p in sys.world.local
    ensures var there := Landed(outcomes[i], env.uploaded(p, sys.world.local[p]), Lookup(sys.world.remote, p));
      there.Some? && there.value.size > 0 && !Kept(sys.world.local[p], there.value) ==>
        var v := ViewAt(states[|events|], p);
        && v.local.Some? && v.remote == there
        && DecideAt(InputsOf(setup, states[|events|]), p) ==
             if v.state.None? || LocalChanged(v.local.value, v.state.value) then Act(ClashOf(setup, p, v.local.value, there.value)) else Nothing
  {
    hide Decide, PlanOf, Cycle, LocalChanged, Next;
    OwnerLeft(setup, env, now, sys, order, outcomes, i, p);
    var there := Landed(outcomes[i], env.uploaded(p, sys.world.local[p]), Lookup(sys.world.remote, p));
    if there.Some? && there.value.size > 0 && !Kept(sys.world.local[p], there.value) {
      StuckRun(setup, env, now, states, events, p, there.value);
      var v := ViewAt(states[|events|], p);
      StuckDecision(setup, p, v, there.value);
      assert DecideAt(InputsOf(setup, states[|events|]), p) == DecideView(setup, p, v);
    }
  }

  // ---------------------------------------------------------------- The smallest case

  /** A backend that stamps files with a later time. */
  function Stamping(): Transfers {
    Transfers((_, item: ScannedItem) => item.(modified := item.modified + 1), (_, item: ScannedItem) => item.(checksum := None))
  }

  /** One new file is sent and then edited: the edit becomes a conflict and is never sent. */
  lemma OneEditedUpload(policy: ConflictPolicy, now: Path -> Time, p: Path, item: ScannedItem, edit: ScannedItem)
    requires item.checksum == None && edit.checksum == None && edit.size > 0 && !Kept(item, edit)
    ensures var setup := Setup(OneWay, policy, false);
      var sys := System(World(Single(p, item), map[]), map[]);
      && FirstPlan(setup, sys, [p]) == [Upload(p, p, item.size)]
      && var after := Cycle(setup, Stamping(), now, sys, [p], [Done]);
         FirstPlan(setup, after.(world := after.world.(local := Single(p, edit))), [p])
         == [ClashOf(setup, p, edit, item.(modified := item.modified + 1))]
  {
    hide PlanOf, Cycle;
    var setup := Setup(OneWay, policy, false);
    var sys := System(World(Single(p, item), map[]), map[]);
    SmallPlan(InputsOf(setup, sys), p);
    OneStep(setup, Stamping(), now, sys, p, Upload(p, p, item.size), Done);
    var after := Cycle(setup, Stamping(), now, sys, [p], [Done]);
    var edited := after.(world := after.world.(local := Single(p, edit)));
    var stamped := item.(modified := item.modified + 1);
    assert ViewAt(edited, p) == View(Some(edit), Some(stamped), Some(TransferState(item.size, item.modified, None, None)));
    EditDecision(setup, p, item, edit, Some(stamped));
    assert DecideAt(InputsOf(setup, edited), p) == DecideView(setup, p, ViewAt(edited, p));
    hide Decide;
    SmallPlan(InputsOf(setup, edited), p);
  }
}
