/** What a cycle leaves at each path, however its actions went, and what the next plan decides about it. */
module Followup {
  import opened Prelude
  import opened SyncTypes
  import opened RenameDetector
  import opened Planner
  import opened Ownership
  import opened Executor
  import opened Orchestrator
  import opened Commutation

  function FirstPlan(setup: Setup, sys: System, order: seq<Path>): seq<SyncAction> {
    PlanOf(InputsOf(setup, sys), order)
  }

  predicate Kept(before: ScannedItem, after: ScannedItem) {
    before.size == after.size && before.modified == after.modified
  }

  /** The local scan never computes checksums, neither of files that arrived whole nor of torn ones. */
  ghost predicate LocallyScanned(local: Tree, env: Transfers) {
    && (forall p :: p in local ==> local[p].checksum == None)
    && (forall p, item :: env.downloaded(p, item).checksum == None)
  }

  predicate LocalLeftover(a: SyncAction, o: Outcome) {
    a.Download? && o.Failed? && o.leftover.Some? ==> o.leftover.value.checksum == None
  }

  datatype View = View(local: Option<ScannedItem>, remote: Option<ScannedItem>, state: Option<FileState>)

  function ViewAt(sys: System, p: Path): View {
    View(Lookup(sys.world.local, p), Lookup(sys.world.remote, p), Lookup(sys.catalogue, p))
  }

  function DecideView(setup: Setup, p: Path, v: View): Decision {
    Decide(p, v.local, v.remote, v.state, setup.mode, setup.policy)
  }

  /** The path is on one side only. */
  predicate OnOneSide(w: World, p: Path) {
    p in w.local <==> p !in w.remote
  }

  // ---------------------------------------------------------------- The state of one path after the cycle

  /** Whatever catalogue the plan is folded into, a cycle leaves alone the paths it had nothing to do about. */
  lemma UntouchedPath(setup: Setup, env: Transfers, now: Path -> Time, sys: System, folded: Catalogue, order: seq<Path>, outcomes: seq<Outcome>, p: Path)
    requires Enumerates(order, InputsOf(setup, sys).Paths())
    requires |outcomes| == |FirstPlan(setup, sys, order)|
    requires !Active(InputsOf(setup, sys), p)
    ensures var after := CycleFrom(setup, env, now, sys, folded, order, outcomes);
      ViewAt(after, p) == View(Lookup(sys.world.local, p), Lookup(sys.world.remote, p), Lookup(folded, p))
  {
    var plan := FirstPlan(setup, sys, order);
    var steps := StepsOf(plan, outcomes);
    PlanOwners(InputsOf(setup, sys), order, p);
    assert ActionsOf(steps) == plan;
    StepCounts(steps, p);
    ExecElsewhere(env, steps, sys.world, p);
    RecordElsewhere(plan, Exec(env, steps, sys.world).local, now, folded, p);
  }

  lemma UnownedPath(setup: Setup, env: Transfers, now: Path -> Time, sys: System, order: seq<Path>, outcomes: seq<Outcome>, p: Path)
    requires Enumerates(order, InputsOf(setup, sys).Paths())
    requires |outcomes| == |FirstPlan(setup, sys, order)|
    requires !Active(InputsOf(setup, sys), p)
    ensures ViewAt(Cycle(setup, env, now, sys, order, outcomes), p) == ViewAt(sys, p)
  {
    UntouchedPath(setup, env, now, sys, sys.catalogue, order, outcomes, p);
  }

  /** However the other actions went, an owned path ends up as its owner alone would have left it. */
  lemma OwnedPathFrom(setup: Setup, env: Transfers, now: Path -> Time, sys: System, folded: Catalogue, order: seq<Path>, outcomes: seq<Outcome>, i: nat, p: Path)
    requires Enumerates(order, InputsOf(setup, sys).Paths())
    requires i < |FirstPlan(setup, sys, order)| == |outcomes| && p in ClaimList(FirstPlan(setup, sys, order)[i])
    ensures var after, a := CycleFrom(setup, env, now, sys, folded, order, outcomes), FirstPlan(setup, sys, order)[i];
      && SameAt(after.world, Apply(env, Step(a, outcomes[i]), sys.world), p)
      && Lookup(after.catalogue, p) == Lookup(Note(a, after.world.local, now, folded), p)
  {
    var plan := FirstPlan(setup, sys, order);
    var steps := StepsOf(plan, outcomes);
    assert ActionsOf(steps) == plan;
    PlanIsExclusive(InputsOf(setup, sys), order, steps);
    PlanOwners(InputsOf(setup, sys), order, p);
    assert steps[i] == Step(plan[i], outcomes[i]);
    ExecAt(env, steps, sys.world, i, p);
    RecordAt(plan, Exec(env, steps, sys.world).local, now, folded, i, p);
  }

  lemma OwnedPath(setup: Setup, env: Transfers, now: Path -> Time, sys: System, order: seq<Path>, outcomes: seq<Outcome>, i: nat, p: Path)
    requires Enumerates(order, InputsOf(setup, sys).Paths())
    requires i < |FirstPlan(setup, sys, order)| == |outcomes| && p in ClaimList(FirstPlan(setup, sys, order)[i])
    ensures var after, a := Cycle(setup, env, now, sys, order, outcomes), FirstPlan(setup, sys, order)[i];
      && SameAt(after.world, Apply(env, Step(a, outcomes[i]), sys.world), p)
      && Lookup(after.catalogue, p) == Lookup(Note(a, after.world.local, now, sys.catalogue), p)
  {
    OwnedPathFrom(setup, env, now, sys, sys.catalogue, order, outcomes, i, p);
  }

  function TransferState(size: nat, time: Time, checksum: Option<string>, permissions: Option<nat>): FileState {
    FileState(size, time, time, Some(false), checksum, permissions)
  }

  /** What is at the target of a transfer afterwards: what was sent, something torn, or what was there before. */
  function Landed(o: Outcome, sent: ScannedItem, before: Option<ScannedItem>): Option<ScannedItem> {
    match o
    case Done => Some(sent)
    case Failed(leftover) => OrElse(leftover, before)
  }

  /** The planner gave the path this action for what it saw there. */
  predicate Fits(w: World, p: Path, a: SyncAction, v: View) {
    match a
    case Upload(l, r, n) => l == r == p && v.local.Some? && n == v.local.value.size
    case Download(r, l, n, checksum, permissions) =>
      l == r == p && v.remote.Some? && n == v.remote.value.size && checksum == v.remote.value.checksum && permissions == v.remote.value.permissions
    case DeleteLocal(l) => l == p && v.local.Some? && v.remote.None?
    case DeleteRemote(r) => r == p && v.local.None? && v.remote.Some?
    case Conflict(l, _) => l == p && v.local.Some? && v.remote.Some?
    case ConvergeState(l, s) =>
      l == p && v.local.Some? && v.remote.Some? && SameContent(v.local.value, v.remote.value) && s == Converged(v.local.value, v.remote.value)
    case ServerSideMove(from, to) =>
      && from != to && from in w.remote && p in [from, to]
      && (p == to ==> v.local.Some? && v.local.value.size > 0 && v.remote.None? && v.state.None?)
      && (p == from ==> v.local.None? && v.remote.Some? && v.state.Some?)
    case _ => false
  }

  /** What the owner of a path leaves there. The catalogue is told that the action was carried out in any case. */
  function LeftBy(env: Transfers, now: Path -> Time, w: World, p: Path, a: SyncAction, o: Outcome, v: View): View
    requires Fits(w, p, a, v)
  {
    match a
    case Upload(_, _, n) =>
      View(v.local, Landed(o, env.uploaded(p, v.local.value), v.remote), Some(TransferState(n, v.local.value.modified, None, None)))
    case Download(_, _, n, checksum, permissions) =>
      var local := Landed(o, env.downloaded(p, v.remote.value), v.local);
      View(local, v.remote, Some(TransferState(n, if local.Some? then local.value.modified else now(p), checksum, permissions)))
    case DeleteLocal(_) => View(if o.Done? then None else v.local, v.remote, None)
    case DeleteRemote(_) => View(v.local, if o.Done? then None else v.remote, None)
    case ConvergeState(_, s) => v.(state := Some(s))
    case ServerSideMove(from, to) =>
      if o.Failed? then v else v.(remote := if p == to then Some(w.remote[from]) else None)
    case _ => v
  }

  lemma OwnerLeaves(env: Transfers, now: Path -> Time, sys: System, after: System, a: SyncAction, o: Outcome, p: Path)
    requires Fits(sys.world, p, a, ViewAt(sys, p))
    requires SameAt(after.world, Apply(env, Step(a, o), sys.world), p)
    requires Lookup(after.catalogue, p) == Lookup(Note(a, after.world.local, now, sys.catalogue), p)
    ensures ViewAt(after, p) == LeftBy(env, now, sys.world, p, a, o, ViewAt(sys, p))
  {
    match a {
      case Upload(_, _, _) =>
      case Download(_, _, _, _, _) =>
      case _ =>
    }
  }

  // ---------------------------------------------------------------- Why an action was planned

  /** What can be decided about a path, read off the view of that path. */
  lemma FirstDecision(setup: Setup, p: Path, v: View)
    ensures match DecideView(setup, p, v)
      case Nothing => true
      case Act(Upload(l, r, n)) => l == r == p && v.local.Some? && n == v.local.value.size
      case Act(Download(r, l, n, checksum, permissions)) =>
        && r == l == p && setup.mode == TwoWay && v.remote.Some? && n == v.remote.value.size
        && checksum == v.remote.value.checksum && permissions == v.remote.value.permissions
      case Act(DeleteLocal(l)) => l == p && v.local.Some? && v.remote == None
      case Act(Conflict(l, _)) => l == p && v.local.Some? && v.remote.Some?
      case Act(ConvergeState(l, s)) =>
        l == p && v.local.Some? && v.remote.Some? && SameContent(v.local.value, v.remote.value) && s == Converged(v.local.value, v.remote.value)
      case Act(_) => false
      case Delete(c) => v.local == None && v.remote.Some? && v.state.Some? && c.relPath == p
      case Add(c) => v.local.Some? && v.remote == None && v.state == None && c == CandidateItem(p, v.local.value.size, v.local.value.checksum)
  {}

  lemma OwnerFits(setup: Setup, sys: System, order: seq<Path>, a: SyncAction, p: Path)
    requires Enumerates(order, InputsOf(setup, sys).Paths())
    requires a in FirstPlan(setup, sys, order) && p in ClaimList(a)
    ensures Active(InputsOf(setup, sys), p)
    ensures Fits(sys.world, p, a, ViewAt(sys, p))
    ensures a.Download? ==> setup.mode == TwoWay
  {
    hide Decide, PlanOf;
    var inp := InputsOf(setup, sys);
    assert forall q :: DecideAt(inp, q) == DecideView(setup, q, ViewAt(sys, q));
    OwnerRealises(inp, order, a, p);
    FirstDecision(setup, p, ViewAt(sys, p));
    if a.ServerSideMove? {
      MoveJoins(inp, order, a);
      FirstDecision(setup, a.from, ViewAt(sys, a.from));
      FirstDecision(setup, a.to, ViewAt(sys, a.to));
    }
  }

  // ---------------------------------------------------------------- The next decision about one path

  function ClashOf(setup: Setup, p: Path, local: ScannedItem, remote: ScannedItem): SyncAction {
    Conflict(p, Resolve(setup.policy, p, local.modified, remote.modified))
  }

  /** After the local file was to be uploaded, by what is on the remote side now. */
  function AfterUpload(setup: Setup, p: Path, local: ScannedItem, remote: Option<ScannedItem>): Decision {
    if remote.None? then Act(if setup.mode == TwoWay then DeleteLocal(p) else Upload(p, p, local.size))
    else if setup.mode == TwoWay && !Kept(local, remote.value) then Act(DownloadOf(p, remote.value))
    else Nothing
  }

  /** After the remote file was to be downloaded, by what is on the local side now. */
  function AfterDownload(setup: Setup, p: Path, local: Option<ScannedItem>, remote: ScannedItem): Decision {
    if local.None? then Delete(CandidateItem(p, remote.size, remote.checksum))
    else if Kept(remote, local.value) then Nothing
    else if local.value.size == remote.size then Act(DownloadOf(p, remote))
    else if local.value.modified == remote.modified then Act(Upload(p, p, local.value.size))
    else Act(ClashOf(setup, p, local.value, remote))
  }

  function NextDecision(setup: Setup, env: Transfers, w: World, p: Path, a: SyncAction, o: Outcome, v: View): Decision
    requires Fits(w, p, a, v)
  {
    match a
    case Upload(_, _, _) => AfterUpload(setup, p, v.local.value, Landed(o, env.uploaded(p, v.local.value), v.remote))
    case Download(_, _, _, _, _) => AfterDownload(setup, p, Landed(o, env.downloaded(p, v.remote.value), v.local), v.remote.value)
    case DeleteLocal(_) => if o.Done? then Nothing else Add(CandidateItem(p, v.local.value.size, v.local.value.checksum))
    case DeleteRemote(_) => if o.Done? || setup.mode != TwoWay then Nothing else Act(DownloadOf(p, v.remote.value))
    case Conflict(_, _) => Act(a)
    case ServerSideMove(from, to) =>
      if o.Failed? then DecideView(setup, p, v)
      else if p == to then Act(ClashOf(setup, p, v.local.value, w.remote[from]))
      else Nothing
    case _ => Nothing
  }

  lemma NextUpload(setup: Setup, p: Path, local: ScannedItem, remote: Option<ScannedItem>)
    requires local.checksum == None
    ensures DecideView(setup, p, View(Some(local), remote, Some(TransferState(local.size, local.modified, None, None))))
         == AfterUpload(setup, p, local, remote)
  {}

  lemma NextDownload(setup: Setup, p: Path, local: Option<ScannedItem>, remote: ScannedItem, time: Time)
    requires setup.mode == TwoWay
    requires local.Some? ==> local.value.checksum == None && time == local.value.modified
    ensures DecideView(setup, p, View(local, Some(remote), Some(TransferState(remote.size, time, remote.checksum, remote.permissions))))
         == AfterDownload(setup, p, local, remote)
  {}

  lemma NextConverge(setup: Setup, p: Path, local: ScannedItem, remote: ScannedItem)
    requires local.checksum == None && SameContent(local, remote)
    ensures DecideView(setup, p, View(Some(local), Some(remote), Some(Converged(local, remote)))) == Nothing
  {}

  lemma OwnedDecision(setup: Setup, env: Transfers, now: Path -> Time, w: World, p: Path, a: SyncAction, o: Outcome, v: View)
    requires Fits(w, p, a, v)
    requires v.local.Some? ==> v.local.value.checksum == None
    requires forall item :: env.downloaded(p, item).checksum == None
    requires LocalLeftover(a, o)
    requires a.Download? ==> setup.mode == TwoWay
    requires a.Conflict? ==> DecideView(setup, p, v) == Act(a)
    ensures DecideView(setup, p, LeftBy(env, now, w, p, a, o, v)) == NextDecision(setup, env, w, p, a, o, v)
  {
    match a {
      case Upload(_, _, _) =>
        hide Decide, AfterUpload;
        NextUpload(setup, p, v.local.value, Landed(o, env.uploaded(p, v.local.value), v.remote));
      case Download(_, _, _, _, _) =>
        var local := Landed(o, env.downloaded(p, v.remote.value), v.local);
        hide Decide, AfterDownload;
        NextDownload(setup, p, local, v.remote.value, if local.Some? then local.value.modified else now(p));
      case ConvergeState(_, _) =>
        hide Decide;
        NextConverge(setup, p, v.local.value, v.remote.value);
      case _ =>
    }
  }

  /**
   * The decision of the next plan about a path that this plan acted on, whatever the outcomes were: a function of
   * what the planner saw there and of the outcome of the one action that owned it.
   */
  lemma SecondDecision(setup: Setup, env: Transfers, now: Path -> Time, sys: System, order: seq<Path>, outcomes: seq<Outcome>, i: nat, p: Path)
    requires Enumerates(order, InputsOf(setup, sys).Paths())
    requires LocallyScanned(sys.world.local, env)
    requires i < |FirstPlan(setup, sys, order)| == |outcomes| && p in ClaimList(FirstPlan(setup, sys, order)[i])
    requires LocalLeftover(FirstPlan(setup, sys, order)[i], outcomes[i])
    ensures var a := FirstPlan(setup, sys, order)[i];
      && Fits(sys.world, p, a, ViewAt(sys, p))
      && DecideAt(InputsOf(setup, Cycle(setup, env, now, sys, order, outcomes)), p)
           == NextDecision(setup, env, sys.world, p, a, outcomes[i], ViewAt(sys, p))
  {
    hide Decide, PlanOf, Cycle, Fits, LeftBy, NextDecision;
    var inp, after := InputsOf(setup, sys), Cycle(setup, env, now, sys, order, outcomes);
    var a, v := FirstPlan(setup, sys, order)[i], ViewAt(sys, p);
    assert a in PlanOf(inp, order);
    OwnerFits(setup, sys, order, a, p);
    OwnerRealises(inp, order, a, p);
    OwnedPath(setup, env, now, sys, order, outcomes, i, p);
    OwnerLeaves(env, now, sys, after, a, outcomes[i], p);
    assert DecideAt(inp, p) == DecideView(setup, p, v);
    assert a.Conflict? ==> DecideView(setup, p, v) == Act(a);
    OwnedDecision(setup, env, now, sys.world, p, a, outcomes[i], v);
    assert DecideAt(InputsOf(setup, after), p) == DecideView(setup, p, ViewAt(after, p));
  }

  /** A path the plan did not act on is not acted on by the next plan either. */
  lemma StaysInactive(setup: Setup, env: Transfers, now: Path -> Time, sys: System, order: seq<Path>, outcomes: seq<Outcome>, p: Path)
    requires Enumerates(order, InputsOf(setup, sys).Paths())
    requires |outcomes| == |FirstPlan(setup, sys, order)|
    requires !Active(InputsOf(setup, sys), p)
    ensures !Active(InputsOf(setup, Cycle(setup, env, now, sys, order, outcomes)), p)
  {
    hide Decide, Cycle;
    UnownedPath(setup, env, now, sys, order, outcomes, p);
    var after := Cycle(setup, env, now, sys, order, outcomes);
    assert DecideAt(InputsOf(setup, after), p) == DecideView(setup, p, ViewAt(after, p));
    assert DecideAt(InputsOf(setup, sys), p) == DecideView(setup, p, ViewAt(sys, p));
  }
}
