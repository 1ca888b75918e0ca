/** Carrying out a plan: what each action does to the local tree and to the remote tree. */
module Executor {
  import opened Prelude
  import opened SyncTypes

  datatype World = World(local: Tree, remote: Tree)

  /** How a call went. A failed transfer may leave something torn at its target. */
  datatype Outcome = Done | Failed(leftover: Option<ScannedItem>)

  datatype Step = Step(action: SyncAction, outcome: Outcome)

  /** What the other side will list once a file has been transferred. */
  datatype Transfers = Transfers(uploaded: (Path, ScannedItem) -> ScannedItem, downloaded: (Path, ScannedItem) -> ScannedItem)

  datatype ExecutionResult = ExecutionResult(
    executedActions: nat, failedActions: nat, bytesUploaded: nat, bytesDownloaded: nat)

  function Put(m: Tree, p: Path, outcome: Outcome, item: Option<ScannedItem>): Tree {
    match outcome
    case Done => if item.Some? then m[p := item.value] else m
    case Failed(leftover) => if leftover.Some? then m[p := leftover.value] else m
  }

  function Apply(env: Transfers, step: Step, w: World): World {
    match step.action
    case Upload(l, r, _) =>
      w.(remote := Put(w.remote, r, step.outcome, if l in w.local then Some(env.uploaded(r, w.local[l])) else None))
    case Download(r, l, _, _, _) =>
      w.(local := Put(w.local, l, step.outcome, if r in w.remote then Some(env.downloaded(l, w.remote[r])) else None))
    case ServerSideMove(from, to) =>
      if step.outcome.Done? && from in w.remote then w.(remote := (w.remote - {from})[to := w.remote[from]]) else w
    case ServerSideCopy(from, to) =>
      if step.outcome.Done? && from in w.remote then w.(remote := w.remote[to := w.remote[from]]) else w
    case DeleteLocal(p) => if step.outcome.Done? then w.(local := w.local - {p}) else w
    case DeleteRemote(p) => if step.outcome.Done? then w.(remote := w.remote - {p}) else w
    case ArchiveToTrash(_, _) => w
    case Conflict(_, _) => w
    case ConvergeState(_, _) => w
  }

  /** Whether the executor counts the action as executed. Errors of local deletions are not looked at. */
  predicate Counted(step: Step, w: World) {
    match step.action
    case Upload(l, _, _) => step.outcome.Done? && l in w.local
    case Download(r, _, _, _, _) => step.outcome.Done? && r in w.remote
    case ServerSideMove(from, _) => step.outcome.Done? && from in w.remote
    case ServerSideCopy(from, _) => step.outcome.Done? && from in w.remote
    case DeleteRemote(_) => step.outcome.Done?
    case _ => true
  }

  /** A file that is copied on the server stays where it was; one that is moved does not. */
  lemma CopyAndMove(env: Transfers, w: World, from: Path, to: Path)
    requires from in w.remote && from != to
    ensures var copied := Apply(env, Step(ServerSideCopy(from, to), Done), w).remote;
      Lookup(copied, from) == Lookup(copied, to) == Some(w.remote[from])
    ensures var moved := Apply(env, Step(ServerSideMove(from, to), Done), w).remote;
      Lookup(moved, from) == None && Lookup(moved, to) == Some(w.remote[from])
  {}

  function Exec(env: Transfers, steps: seq<Step>, w: World): World {
    if steps == [] then w
    else Apply(env, steps[|steps| - 1], Exec(env, steps[..|steps| - 1], w))
  }

  /** Byte counters are unsigned 64-bit numbers that wrap around. */
  function Wrapped(a: nat, b: nat): nat { (a + b) % (U64_MAX + 1) }

  function Tally(env: Transfers, steps: seq<Step>, w: World): ExecutionResult {
    if steps == [] then ExecutionResult(0, 0, 0, 0)
    else
      var init, last := steps[..|steps| - 1], steps[|steps| - 1];
      var t := Tally(env, init, w);
      if !Counted(last, Exec(env, init, w)) then t.(failedActions := t.failedActions + 1)
      else
        t.(executedActions := t.executedActions + 1,
           bytesUploaded := if last.action.Upload? then Wrapped(t.bytesUploaded, last.action.size) else t.bytesUploaded,
           bytesDownloaded := if last.action.Download? then Wrapped(t.bytesDownloaded, last.action.size) else t.bytesDownloaded)
  }

  function StepsOf(actions: seq<SyncAction>, outcomes: seq<Outcome>): (steps: seq<Step>)
    requires |actions| == |outcomes|
    ensures |steps| == |actions|
  {
    seq(|actions|, i requires 0 <= i < |actions| => Step(actions[i], outcomes[i]))
  }

  /** The watched directory, the backend and the stored catalogue. */
  class Replica {
    var local: Tree
    var remote: Tree
    var catalogue: Catalogue

    constructor (l: Tree, r: Tree, c: Catalogue)
      ensures local == l && remote == r && catalogue == c
    {
      local, remote, catalogue := l, r, c;
    }

    function Trees(): World
      reads this
    {
      World(local, remote)
    }

    method Perform(env: Transfers, step: Step) returns (counted: bool)
      modifies this`local, this`remote
      ensures Trees() == Apply(env, step, old(Trees()))
      ensures counted == Counted(step, old(Trees()))
    {
      counted := true;
      match step.action {
        case Upload(l, r, _) =>
          counted := step.outcome.Done? && l in local;
          if counted {
            remote := remote[r := env.uploaded(r, local[l])];
          } else if step.outcome.Failed? && step.outcome.leftover.Some? {
            remote := remote[r := step.outcome.leftover.value];
          }
        case Download(r, l, _, _, _) =>
          counted := step.outcome.Done? && r in remote;
          if counted {
            local := local[l := env.downloaded(l, remote[r])];
          } else if step.outcome.Failed? && step.outcome.leftover.Some? {
            local := local[l := step.outcome.leftover.value];
          }
        case ServerSideMove(from, to) =>
          counted := step.outcome.Done? && from in remote;
          if counted {
            remote := (remote - {from})[to := remote[from]];
          }
        case ServerSideCopy(from, to) =>
          counted := step.outcome.Done? && from in remote;
          if counted {
            remote := remote[to := remote[from]];
          }
        case DeleteLocal(p) =>
          if step.outcome.Done? {
            local := local - {p};
          }
        case DeleteRemote(p) =>
          counted := step.outcome.Done?;
          if counted {
            remote := remote - {p};
          }
        case ArchiveToTrash(_, _) =>
        case Conflict(_, _) =>
        case ConvergeState(_, _) =>
      }
    }

    method Execute(env: Transfers, actions: seq<SyncAction>, outcomes: seq<Outcome>, dryRun: bool)
      returns (result: ExecutionResult)
      requires |outcomes| == |actions|
      modifies this`local, this`remote
      ensures !dryRun ==> Trees() == Exec(env, StepsOf(actions, outcomes), old(Trees()))
      ensures !dryRun ==> result == Tally(env, StepsOf(actions, outcomes), old(Trees()))
      ensures dryRun ==> Trees() == old(Trees()) && result == ExecutionResult(|actions|, 0, 0, 0)
      ensures result.executedActions + result.failedActions == |actions|
    {
      var executed, failed, up, down := 0, 0, 0, 0;
      ghost var steps := StepsOf(actions, outcomes);
      for i := 0 to |actions|
        invariant !dryRun ==> Trees() == Exec(env, steps[..i], old(Trees()))
        invariant !dryRun ==> ExecutionResult(executed, failed, up, down) == Tally(env, steps[..i], old(Trees()))
        invariant dryRun ==> Trees() == old(Trees()) && failed == up == down == 0
        invariant executed + failed == i
      {
        assert steps[..i + 1][..i] == steps[..i];
        if dryRun {
          executed := executed + 1;
        } else {
          var step := Step(actions[i], outcomes[i]);
          var counted := Perform(env, step);
          if counted {
            executed := executed + 1;
            if step.action.Upload? {
              up := Wrapped(up, step.action.size);
            } else if step.action.Download? {
              down := Wrapped(down, step.action.size);
            }
          } else {
            failed := failed + 1;
          }
        }
      }
      assert steps[..|actions|] == steps;
      result := ExecutionResult(executed, failed, up, down);
    }
  }
}
