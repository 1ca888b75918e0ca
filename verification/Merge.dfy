/** A cycle, seen from one path: a three-way merge of base, local and remote. */
module Merge {
  import opened Prelude
  import opened SyncTypes
  import opened Planner
  import opened Ownership
  import opened Executor
  import opened Orchestrator
  import opened Followup
  import opened Convergence

  /** The local file is sent over. */
  function Sent(env: Transfers, p: Path, v: View): View
    requires v.local.Some?
  {
    var l := v.local.value;
    View(v.local, Some(env.uploaded(p, l)), Some(TransferState(l.size, l.modified, None, None)))
  }

  /** The remote file is fetched. */
  function Fetched(env: Transfers, p: Path, v: View): View
    requires v.remote.Some?
  {
    var r, item := v.remote.value, env.downloaded(p, v.remote.value);
    View(Some(item), v.remote, Some(TransferState(r.size, item.modified, r.checksum, r.permissions)))
  }

  const GONE: View := View(None, None, None)

  predicate LocalSame(v: View) {
    if v.state.None? then v.local.None? else v.local.Some? && !LocalChanged(v.local.value, v.state.value)
  }

  predicate RemoteSame(v: View) {
    if v.state.None? then v.remote.None? else v.remote.Some? && !RemoteChanged(v.remote.value, v.state.value)
  }

  /** Both sides hold a version of their own: they are recorded as equal if they are, and left alone otherwise. */
  function Clash(v: View): View
    requires v.local.Some? && v.remote.Some?
  {
    if SameContent(v.local.value, v.remote.value)
    then v.(state := Some(Converged(v.local.value, v.remote.value)))
    else v
  }

  /** Two ways: a removal on either side wins over everything; otherwise the only side that changed wins. */
  function MergedTwoWay(env: Transfers, p: Path, v: View): View {
    if v.local.None? && v.remote.None? then v
    else if v.state.Some? && (v.local.None? || v.remote.None?) then GONE
    else if LocalSame(v) && RemoteSame(v) then v
    else if RemoteSame(v) then Sent(env, p, v)
    else if LocalSame(v) then Fetched(env, p, v)
    else Clash(v)
  }

  /** One way: local files are sent if they are missing over there or have changed here only. */
  function MergedOneWay(env: Transfers, p: Path, v: View, deletions: bool): View {
    if v.local.None? then
      if v.remote.Some? && v.state.Some? && deletions then GONE else v
    else if v.remote.None? then Sent(env, p, v)
    else if LocalSame(v) then v
    else if RemoteSame(v) then Sent(env, p, v)
    else Clash(v)
  }

  function Merged(mode: SyncMode, env: Transfers, p: Path, v: View): View {
    if mode == TwoWay then MergedTwoWay(env, p, v) else MergedOneWay(env, p, v, mode != OneWayNoDeletions)
  }

  ghost predicate TouchedByMove(plan: seq<SyncAction>, p: Path) {
    exists m :: m in plan && m.ServerSideMove? && (m.from == p || m.to == p)
  }

  lemma InactiveMerge(setup: Setup, env: Transfers, p: Path, v: View)
    requires DecideView(setup, p, v) == Nothing
    ensures Merged(setup.mode, env, p, v) == v
  {}

  lemma DirectMerge(setup: Setup, env: Transfers, now: Path -> Time, w: World, p: Path, a: SyncAction, v: View)
    requires DecideView(setup, p, v) == Act(a) && Fits(w, p, a, v)
    ensures LeftBy(env, now, w, p, a, Done, v) == Merged(setup.mode, env, p, v)
  {}

  lemma CandidateMerge(setup: Setup, env: Transfers, now: Path -> Time, w: World, p: Path, a: SyncAction, v: View)
    requires match DecideView(setup, p, v)
      case Delete(_) => a == DeleteRemote(p)
      case Add(c) => a == Upload(p, p, c.size)
      case _ => false
    requires Fits(w, p, a, v)
    ensures LeftBy(env, now, w, p, a, Done, v) == Merged(setup.mode, env, p, v)
  {}

  /** However the other actions went, the owner of a path leaves there what its own outcome says. */
  lemma OwnerLeft(setup: Setup, env: Transfers, now: Path -> Time, sys: System, order: seq<Path>, outcomes: seq<Outcome>, i: nat, p: Path)
    requires Enumerates(order, InputsOf(setup, sys).Paths())
    requires i < |FirstPlan(setup, sys, order)| == |outcomes| && p in ClaimList(FirstPlan(setup, sys, order)[i])
    ensures Fits(sys.world, p, FirstPlan(setup, sys, order)[i], ViewAt(sys, p))
    ensures ViewAt(Cycle(setup, env, now, sys, order, outcomes), p)
         == LeftBy(env, now, sys.world, p, FirstPlan(setup, sys, order)[i], outcomes[i], ViewAt(sys, p))
  {
    hide PlanOf, Decide, Cycle, Fits, LeftBy;
    var a := FirstPlan(setup, sys, order)[i];
    OwnerFits(setup, sys, order, a, p);
    OwnedPath(setup, env, now, sys, order, outcomes, i, p);
    OwnerLeaves(env, now, sys, Cycle(setup, env, now, sys, order, outcomes), a, outcomes[i], p);
  }

  /** What the owner of a path leaves there when it succeeds. */
  lemma OwnerDone(setup: Setup, env: Transfers, now: Path -> Time, sys: System, order: seq<Path>, a: SyncAction, p: Path)
    requires Enumerates(order, InputsOf(setup, sys).Paths())
    requires a in FirstPlan(setup, sys, order) && p in ClaimList(a)
    ensures Fits(sys.world, p, a, ViewAt(sys, p))
    ensures ViewAt(After(setup, env, now, sys, order), p) == LeftBy(env, now, sys.world, p, a, Done, ViewAt(sys, p))
  {
    hide PlanOf, Decide, Cycle, Fits, LeftBy;
    var plan := FirstPlan(setup, sys, order);
    var i :| 0 <= i < |plan| && plan[i] == a;
    OwnerLeft(setup, env, now, sys, order, AllDone(|plan|), i, p);
  }

  /** The action on the path, if there is one, succeeded and is not a move. */
  ghost predicate PlainSuccess(plan: seq<SyncAction>, outcomes: seq<Outcome>, p: Path)
    requires |plan| == |outcomes|
  {
    forall i :: 0 <= i < |plan| && p in ClaimList(plan[i]) ==> outcomes[i].Done? && !plan[i].ServerSideMove?
  }

  /**
   * Scanning, planning, executing and updating the catalogue amount to a three-way merge of every path on its own:
   * each path whose own action succeeded and was not a move is merged, however the other actions went.
   */
  lemma CycleMergesPath(setup: Setup, env: Transfers, now: Path -> Time, sys: System, order: seq<Path>, outcomes: seq<Outcome>, p: Path)
    requires Enumerates(order, InputsOf(setup, sys).Paths())
    requires |FirstPlan(setup, sys, order)| == |outcomes| && PlainSuccess(FirstPlan(setup, sys, order), outcomes, p)
    ensures ViewAt(Cycle(setup, env, now, sys, order, outcomes), p) == Merged(setup.mode, env, p, ViewAt(sys, p))
  {
    hide Decide, Merged, LeftBy, Fits, PlanOf, Cycle;
    var inp, v, plan := InputsOf(setup, sys), ViewAt(sys, p), FirstPlan(setup, sys, order);
    assert DecideAt(inp, p) == DecideView(setup, p, v);
    if Active(inp, p) {
      var a := PlanServes(inp, order, p);
      var i :| 0 <= i < |plan| && plan[i] == a;
      OwnerLeft(setup, env, now, sys, order, outcomes, i, p);
      if DecideAt(inp, p).Act? {
        DirectMerge(setup, env, now, sys.world, p, a, v);
      } else {
        CandidateMerge(setup, env, now, sys.world, p, a, v);
      }
    } else {
      UnownedPath(setup, env, now, sys, order, outcomes, p);
      InactiveMerge(setup, env, p, v);
    }
  }

  /** After a cycle in which every action succeeded, each path that no server-side move touched is merged. */
  lemma CycleMergesEveryPath(setup: Setup, env: Transfers, now: Path -> Time, sys: System, order: seq<Path>, p: Path)
    requires Enumerates(order, InputsOf(setup, sys).Paths())
    requires !TouchedByMove(FirstPlan(setup, sys, order), p)
    ensures ViewAt(After(setup, env, now, sys, order), p) == Merged(setup.mode, env, p, ViewAt(sys, p))
  {
    hide Decide, Merged, PlanOf, Cycle;
    var plan := FirstPlan(setup, sys, order);
    forall i | 0 <= i < |plan| && p in ClaimList(plan[i]) ensures !plan[i].ServerSideMove? {
      assert plan[i] in plan;
    }
    CycleMergesPath(setup, env, now, sys, order, AllDone(|plan|), p);
  }

  /**
   * A server-side move takes the remote file to its new path; the catalogue learns of neither path. The local file
   * there has the size the catalogue gives for the old path, so the two sides have equal sizes at the new path exactly
   * if the remote file still had the catalogued size.
   */
  lemma CycleMovesFile(setup: Setup, env: Transfers, now: Path -> Time, sys: System, order: seq<Path>, m: SyncAction)
    requires Enumerates(order, InputsOf(setup, sys).Paths())
    requires m in FirstPlan(setup, sys, order) && m.ServerSideMove?
    ensures m.from in sys.world.remote && m.to in sys.world.local && m.from in sys.catalogue
    ensures var after := After(setup, env, now, sys, order);
      && ViewAt(after, m.from) == View(None, None, Some(sys.catalogue[m.from]))
      && ViewAt(after, m.to) == View(Some(sys.world.local[m.to]), Some(sys.world.remote[m.from]), None)
    ensures sys.world.local[m.to].size == sys.catalogue[m.from].size
    ensures sys.world.local[m.to].size == sys.world.remote[m.from].size <==> sys.world.remote[m.from].size == sys.catalogue[m.from].size
  {
    hide PlanOf, Cycle;
    MoveJoins(InputsOf(setup, sys), order, m);
    MoveEnds(setup, sys, m);
    OwnerDone(setup, env, now, sys, order, m, m.from);
    OwnerDone(setup, env, now, sys, order, m, m.to);
  }

  /** In a one-way mode the local file is sent: it is missing over there, or it changed here and did not change there. */
  predicate Outdated(v: View) {
    v.local.Some? && (v.remote.None? || (!LocalSame(v) && RemoteSame(v)))
  }

  lemma MergedOneWayRemote(env: Transfers, p: Path, v: View, deletions: bool)
    ensures var r := MergedOneWay(env, p, v, deletions).remote;
      if Outdated(v) then r == Some(env.uploaded(p, v.local.value))
      else if v.local.None? && v.remote.Some? && v.state.Some? && deletions then r == None
      else r == v.remote
  {}

  /**
   * In a one-way mode every local file ends up on the remote side, and a path that is not local survives there
   * exactly if deletions are off or the catalogue does not know it. Away from moves, the content over there is the
   * local file as sent if it was missing there or changed here only, and otherwise what was there before; at the
   * target of a move it is the file that was moved.
   */
  lemma OneWayMirrors(setup: Setup, env: Transfers, now: Path -> Time, sys: System, order: seq<Path>, p: Path)
    requires setup.mode != TwoWay
    requires Enumerates(order, InputsOf(setup, sys).Paths())
    ensures var after := After(setup, env, now, sys, order);
      && (p in sys.world.local ==> p in after.world.remote)
      && (p !in sys.world.local ==>
            (p in after.world.remote <==> p in sys.world.remote && (p !in sys.catalogue || setup.mode == OneWayNoDeletions)))
    ensures var after, plan := After(setup, env, now, sys, order), FirstPlan(setup, sys, order);
      p in sys.world.local && !TouchedByMove(plan, p) ==>
        Lookup(after.world.remote, p) ==
          if Outdated(ViewAt(sys, p)) then Some(env.uploaded(p, sys.world.local[p])) else Lookup(sys.world.remote, p)
    ensures var after, plan := After(setup, env, now, sys, order), FirstPlan(setup, sys, order);
      forall q :: ServerSideMove(q, p) in plan ==> Lookup(after.world.remote, p) == Lookup(sys.world.remote, q)
  {
    hide PlanOf, Cycle, MergedOneWay, Outdated, LocalSame, RemoteSame;
    var after := After(setup, env, now, sys, order);
    var plan := FirstPlan(setup, sys, order);
    if TouchedByMove(plan, p) {
      var m :| m in plan && m.ServerSideMove? && (m.from == p || m.to == p);
      CycleMovesFile(setup, env, now, sys, order, m);
      MoveJoins(InputsOf(setup, sys), order, m);
      MoveEnds(setup, sys, m);
    } else {
      CycleMergesEveryPath(setup, env, now, sys, order, p);
      MergedOneWayRemote(env, p, ViewAt(sys, p), setup.mode != OneWayNoDeletions);
      OutdatedIsLocal(ViewAt(sys, p));
    }
    forall q | ServerSideMove(q, p) in plan ensures Lookup(after.world.remote, p) == Lookup(sys.world.remote, q) {
      CycleMovesFile(setup, env, now, sys, order, ServerSideMove(q, p));
      assert ViewAt(after, p).remote == Some(sys.world.remote[q]);
    }
    var v := ViewAt(after, p);
    assert v.remote == Lookup(after.world.remote, p);
    assert p in after.world.remote <==> v.remote.Some?;
  }

  lemma OutdatedIsLocal(v: View)
    ensures Outdated(v) ==> v.local.Some?
    ensures v.local.Some? && v.remote.None? ==> Outdated(v)
  {}

  lemma MoveEnds(setup: Setup, sys: System, m: SyncAction)
    requires m.ServerSideMove?
    requires DecideAt(InputsOf(setup, sys), m.from).Delete? && DecideAt(InputsOf(setup, sys), m.to).Add?
    ensures setup.mode != OneWayNoDeletions && m.from !in sys.world.local && m.from in sys.catalogue
    ensures m.to in sys.world.local
    ensures DecideAt(InputsOf(setup, sys), m.from).item.size == sys.catalogue[m.from].size
    ensures DecideAt(InputsOf(setup, sys), m.to).item.size == sys.world.local[m.to].size
  {}
}
