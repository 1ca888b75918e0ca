/** One synchronisation cycle: scan, plan, execute, then fold the plan back into the catalogue. */
module Orchestrator {
  import opened Prelude
  import opened SyncTypes
  import opened Planner
  import opened Executor

  /** The catalogue entry written after a transfer; the time is read from the local file, or the clock if it is gone. */
  function Entry(p: Path, local: Tree, now: Path -> Time, size: nat, checksum: Option<string>, permissions: Option<nat>): FileState {
    var mtime := if p in local then local[p].modified else now(p);
    FileState(size, mtime, mtime, Some(false), checksum, permissions)
  }

  function Note(a: SyncAction, local: Tree, now: Path -> Time, c: Catalogue): Catalogue {
    match a
    case ConvergeState(p, s) => c[p := s]
    case DeleteLocal(p) => c - {p}
    case DeleteRemote(p) => c - {p}
    case Upload(l, r, size) => c[r := Entry(l, local, now, size, None, None)]
    case Download(r, l, size, checksum, permissions) => c[r := Entry(l, local, now, size, checksum, permissions)]
    case _ => c
  }

  function Record(actions: seq<SyncAction>, local: Tree, now: Path -> Time, c: Catalogue): Catalogue {
    if actions == [] then c
    else Note(actions[|actions| - 1], local, now, Record(actions[..|actions| - 1], local, now, c))
  }

  /** What stays the same from cycle to cycle. */
  datatype Setup = Setup(mode: SyncMode, policy: ConflictPolicy, canMove: bool)

  datatype System = System(world: World, catalogue: Catalogue)

  function InputsOf(setup: Setup, sys: System): Inputs {
    Inputs(sys.world.local, sys.world.remote, sys.catalogue, setup.mode, setup.policy, setup.canMove)
  }

  /** What a load gives: the stored catalogue, or the empty one if the load fails. */
  function Read(stored: Catalogue, works: bool): Catalogue {
    if works then stored else map[]
  }

  /**
   * A cycle, given the catalogue it is planned from, the catalogue the plan is folded into, the order in which the
   * planner met the paths and how each call went.
   */
  function CycleFrom(setup: Setup, env: Transfers, now: Path -> Time, sys: System, folded: Catalogue, order: seq<Path>, outcomes: seq<Outcome>): System
    requires |outcomes| == |PlanOf(InputsOf(setup, sys), order)|
  {
    var plan := PlanOf(InputsOf(setup, sys), order);
    var world := Exec(env, StepsOf(plan, outcomes), sys.world);
    System(world, Record(plan, world.local, now, folded))
  }

  /** A cycle whose loads both give the stored catalogue. */
  function Cycle(setup: Setup, env: Transfers, now: Path -> Time, sys: System, order: seq<Path>, outcomes: seq<Outcome>): System
    requires |outcomes| == |PlanOf(InputsOf(setup, sys), order)|
  {
    CycleFrom(setup, env, now, sys, sys.catalogue, order, outcomes)
  }

  method UpdateCatalogue(actions: seq<SyncAction>, local: Tree, now: Path -> Time, loaded: Catalogue) returns (files: Catalogue)
    ensures files == Record(actions, local, now, loaded)
  {
    files := loaded;
    for i := 0 to |actions|
      invariant files == Record(actions[..i], local, now, loaded)
    {
      assert actions[..i + 1][..i] == actions[..i];
      match actions[i] {
        case ConvergeState(p, s) => files := files[p := s];
        case DeleteLocal(p) => files := files - {p};
        case DeleteRemote(p) => files := files - {p};
        case Upload(l, r, size) => files := files[r := Entry(l, local, now, size, None, None)];
        case Download(r, l, size, checksum, permissions) => files := files[r := Entry(l, local, now, size, checksum, permissions)];
        case _ =>
      }
    }
    assert actions[..|actions|] == actions;
  }

  /** How the parts of one call other than the actions go. The catalogue is loaded twice, before and after the actions. */
  datatype Luck = Luck(scans: bool, firstLoad: bool, secondLoad: bool, save: bool)

  /**
   * A failing scan ends the call. Failures of single actions do not stop the cycle; a failed load counts as an empty
   * catalogue; a failed save leaves the stored catalogue as it was.
   */
  method SyncBidirectional(replica: Replica, setup: Setup, env: Transfers, now: Path -> Time, oracle: nat -> Outcome,
                           dryRun: bool, luck: Luck)
    returns (ok: bool, ghost order: seq<Path>)
    modifies replica
    ensures ok == luck.scans
    ensures !ok || dryRun ==> replica.Trees() == old(replica.Trees()) && replica.catalogue == old(replica.catalogue)
    ensures ok ==>
      Enumerates(order, InputsOf(setup, System(old(replica.Trees()), Read(old(replica.catalogue), luck.firstLoad))).Paths())
    ensures ok && !dryRun ==>
      var sys := System(old(replica.Trees()), Read(old(replica.catalogue), luck.firstLoad));
      var plan := PlanOf(InputsOf(setup, sys), order);
      var after := CycleFrom(setup, env, now, sys, Read(old(replica.catalogue), luck.secondLoad), order, seq(|plan|, oracle));
      && replica.Trees() == after.world
      && replica.catalogue == if luck.save then after.catalogue else old(replica.catalogue)
  {
    hide PlanOf, Exec, Record;
    order := [];
    var base := Read(replica.catalogue, luck.firstLoad);
    if !luck.scans {
      return false, order;
    }
    var plan;
    plan, order := Plan(InputsOf(setup, System(replica.Trees(), base)));
    var actions := plan.actions;
    var outcomes := seq(|actions|, oracle);
    var _ := replica.Execute(env, actions, outcomes, dryRun);
    if !dryRun {
      var state := Read(replica.catalogue, luck.secondLoad);
      state := UpdateCatalogue(actions, replica.local, now, state);
      if luck.save {
        replica.catalogue := state;
      }
    }
    ok := true;
  }
}
