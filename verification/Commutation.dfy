/** A plan's actions touch different paths, so the result of a cycle does not depend on the order they run in. */
module Commutation {
  import opened Prelude
  import opened SyncTypes
  import opened Planner
  import opened Ownership
  import opened Executor
  import opened Orchestrator

  ghost predicate SameAt(v: World, w: World, p: Path) {
    Lookup(v.local, p) == Lookup(w.local, p) && Lookup(v.remote, p) == Lookup(w.remote, p)
  }

  function StepTouches(p: Path): Step -> bool { (s: Step) => p in ClaimList(s.action) }

  lemma ApplyElsewhere(env: Transfers, step: Step, w: World, p: Path)
    requires p !in ClaimList(step.action)
    ensures SameAt(Apply(env, step, w), w, p)
  {}

  lemma TransferIsLocal(env: Transfers, step: Step, v: World, w: World, from: Path, to: Path, p: Path)
    requires (step.action.Upload? && step.action.localPath == from && step.action.remotePath == to)
          || (step.action.Download? && step.action.remotePath == from && step.action.localPath == to)
    requires SameAt(v, w, from) && SameAt(v, w, to) && p in [from, to]
    ensures SameAt(Apply(env, step, v), Apply(env, step, w), p)
  {}

  lemma MoveIsLocal(env: Transfers, step: Step, v: World, w: World, from: Path, to: Path, p: Path)
    requires step.action == ServerSideMove(from, to) || step.action == ServerSideCopy(from, to)
    requires SameAt(v, w, from) && SameAt(v, w, to) && p in [from, to]
    ensures SameAt(Apply(env, step, v), Apply(env, step, w), p)
  {}

  lemma DeletionIsLocal(env: Transfers, step: Step, v: World, w: World, p: Path)
    requires !step.action.Upload? && !step.action.Download? && !step.action.ServerSideMove? && !step.action.ServerSideCopy?
    requires SameAt(v, w, p)
    ensures SameAt(Apply(env, step, v), Apply(env, step, w), p)
  {}

  /** What an action does to its own paths depends on those paths only. */
  lemma ApplyIsLocal(env: Transfers, step: Step, v: World, w: World, p: Path)
    requires p in ClaimList(step.action)
    requires forall q :: q in ClaimList(step.action) ==> SameAt(v, w, q)
    ensures SameAt(Apply(env, step, v), Apply(env, step, w), p)
  {
    hide Apply, SameAt;
    match step.action {
      case Upload(l, r, _) => TransferIsLocal(env, step, v, w, l, r, p);
      case Download(r, l, _, _, _) => TransferIsLocal(env, step, v, w, r, l, p);
      case ServerSideMove(from, to) => MoveIsLocal(env, step, v, w, from, to, p);
      case ServerSideCopy(from, to) => MoveIsLocal(env, step, v, w, from, to, p);
      case _ => DeletionIsLocal(env, step, v, w, p);
    }
  }

  lemma {:induction false} ExecElsewhere(env: Transfers, steps: seq<Step>, w: World, p: Path)
    requires CountIf(StepTouches(p), steps) == 0
    ensures SameAt(Exec(env, steps, w), w, p)
  {
    if steps != [] {
      var init, last := steps[..|steps| - 1], steps[|steps| - 1];
      ExecElsewhere(env, init, w, p);
      ApplyElsewhere(env, last, Exec(env, init, w), p);
    }
  }

  /** A step that shares its paths with no other step has the effect it would have had alone. */
  lemma {:induction false} ExecAt(env: Transfers, steps: seq<Step>, w: World, i: nat, p: Path)
    requires i < |steps| && p in ClaimList(steps[i].action)
    requires forall q :: q in ClaimList(steps[i].action) ==> CountIf(StepTouches(q), steps) <= 1
    ensures SameAt(Exec(env, steps, w), Apply(env, steps[i], w), p)
  {
    var init, last := steps[..|steps| - 1], steps[|steps| - 1];
    if i == |steps| - 1 {
      forall q | q in ClaimList(last.action) ensures SameAt(Exec(env, init, w), w, q) {
        assert CountIf(StepTouches(q), steps) <= 1;
        ExecElsewhere(env, init, w, q);
      }
      ApplyIsLocal(env, last, Exec(env, init, w), w, p);
    } else {
      if p in ClaimList(last.action) {
        CountIfTwo(StepTouches(p), steps, i, |steps| - 1);
      }
      forall q | q in ClaimList(steps[i].action) ensures CountIf(StepTouches(q), init) <= 1 {
        assert CountIf(StepTouches(q), steps) <= 1;
      }
      ExecAt(env, init, w, i, p);
      ApplyElsewhere(env, last, Exec(env, init, w), p);
    }
  }

  ghost predicate Exclusive(steps: seq<Step>) {
    forall p :: CountIf(StepTouches(p), steps) <= 1
  }

  lemma ExecPermutedAt(env: Transfers, s: seq<Step>, t: seq<Step>, w: World, p: Path)
    requires Exclusive(s) && multiset(s) == multiset(t)
    ensures SameAt(Exec(env, s, w), Exec(env, t, w), p)
  {
    CountIfPermuted(StepTouches(p), s, t);
    CountIfPositive(StepTouches(p), s);
    if CountIf(StepTouches(p), s) == 0 {
      ExecElsewhere(env, s, w, p);
      ExecElsewhere(env, t, w, p);
    } else {
      var i :| 0 <= i < |s| && StepTouches(p)(s[i]);
      assert s[i] in multiset(t);
      var j :| 0 <= j < |t| && t[j] == s[i];
      ExecAt(env, s, w, i, p);
      forall q | q in ClaimList(t[j].action) ensures CountIf(StepTouches(q), t) <= 1 {
        CountIfPermuted(StepTouches(q), s, t);
      }
      ExecAt(env, t, w, j, p);
    }
  }

  /** Steps on different paths can be performed in any order, whichever of them fail. */
  lemma ExecPermuted(env: Transfers, s: seq<Step>, t: seq<Step>, w: World)
    requires Exclusive(s) && multiset(s) == multiset(t)
    ensures Exec(env, s, w) == Exec(env, t, w)
  {
    var v1, v2 := Exec(env, s, w), Exec(env, t, w);
    forall p ensures Lookup(v1.local, p) == Lookup(v2.local, p) && Lookup(v1.remote, p) == Lookup(v2.remote, p) {
      ExecPermutedAt(env, s, t, w, p);
    }
    MapsEqual(v1.local, v2.local);
    MapsEqual(v1.remote, v2.remote);
  }

  // ---------------------------------------------------------------- The catalogue

  lemma NoteElsewhere(a: SyncAction, local: Tree, now: Path -> Time, c: Catalogue, p: Path)
    requires p !in ClaimList(a)
    ensures Lookup(Note(a, local, now, c), p) == Lookup(c, p)
  {}

  lemma NoteIsLocal(a: SyncAction, local: Tree, now: Path -> Time, c: Catalogue, d: Catalogue, p: Path)
    requires p in ClaimList(a) && Lookup(c, p) == Lookup(d, p)
    ensures Lookup(Note(a, local, now, c), p) == Lookup(Note(a, local, now, d), p)
  {}

  lemma {:induction false} RecordElsewhere(actions: seq<SyncAction>, local: Tree, now: Path -> Time, c: Catalogue, p: Path)
    requires CountIf(Touches(p), actions) == 0
    ensures Lookup(Record(actions, local, now, c), p) == Lookup(c, p)
  {
    if actions != [] {
      var init, last := actions[..|actions| - 1], actions[|actions| - 1];
      RecordElsewhere(init, local, now, c, p);
      NoteElsewhere(last, local, now, Record(init, local, now, c), p);
    }
  }

  lemma {:induction false} RecordAt(actions: seq<SyncAction>, local: Tree, now: Path -> Time, c: Catalogue, i: nat, p: Path)
    requires i < |actions| && p in ClaimList(actions[i])
    requires CountIf(Touches(p), actions) <= 1
    ensures Lookup(Record(actions, local, now, c), p) == Lookup(Note(actions[i], local, now, c), p)
  {
    var init, last := actions[..|actions| - 1], actions[|actions| - 1];
    if i == |actions| - 1 {
      RecordElsewhere(init, local, now, c, p);
      NoteIsLocal(last, local, now, Record(init, local, now, c), c, p);
    } else {
      if p in ClaimList(last) {
        CountIfTwo(Touches(p), actions, i, |actions| - 1);
      }
      RecordAt(init, local, now, c, i, p);
      NoteElsewhere(last, local, now, Record(init, local, now, c), p);
    }
  }

  function ActionsOf(steps: seq<Step>): (actions: seq<SyncAction>)
    ensures |actions| == |steps|
  {
    seq(|steps|, i requires 0 <= i < |steps| => steps[i].action)
  }

  lemma {:induction false} StepCounts(steps: seq<Step>, p: Path)
    ensures CountIf(StepTouches(p), steps) == CountIf(Touches(p), ActionsOf(steps))
  {
    if steps != [] {
      StepCounts(steps[..|steps| - 1], p);
      assert ActionsOf(steps)[..|steps| - 1] == ActionsOf(steps[..|steps| - 1]);
    }
  }

  lemma RecordPermutedAt(s: seq<Step>, t: seq<Step>, local: Tree, now: Path -> Time, c: Catalogue, p: Path)
    requires Exclusive(s) && multiset(s) == multiset(t)
    ensures Lookup(Record(ActionsOf(s), local, now, c), p) == Lookup(Record(ActionsOf(t), local, now, c), p)
  {
    CountIfPermuted(StepTouches(p), s, t);
    CountIfPositive(StepTouches(p), s);
    StepCounts(s, p);
    StepCounts(t, p);
    if CountIf(StepTouches(p), s) == 0 {
      RecordElsewhere(ActionsOf(s), local, now, c, p);
      RecordElsewhere(ActionsOf(t), local, now, c, p);
    } else {
      var i :| 0 <= i < |s| && StepTouches(p)(s[i]);
      assert s[i] in multiset(t);
      var j :| 0 <= j < |t| && t[j] == s[i];
      RecordAt(ActionsOf(s), local, now, c, i, p);
      RecordAt(ActionsOf(t), local, now, c, j, p);
    }
  }

  /** The catalogue entries of steps on different paths can be written in any order. */
  lemma RecordPermuted(s: seq<Step>, t: seq<Step>, local: Tree, now: Path -> Time, c: Catalogue)
    requires Exclusive(s) && multiset(s) == multiset(t)
    ensures Record(ActionsOf(s), local, now, c) == Record(ActionsOf(t), local, now, c)
  {
    forall p ensures Lookup(Record(ActionsOf(s), local, now, c), p) == Lookup(Record(ActionsOf(t), local, now, c), p) {
      RecordPermutedAt(s, t, local, now, c, p);
    }
    MapsEqual(Record(ActionsOf(s), local, now, c), Record(ActionsOf(t), local, now, c));
  }

  lemma PlanIsExclusive(inp: Inputs, order: seq<Path>, steps: seq<Step>)
    requires Enumerates(order, inp.Paths())
    requires ActionsOf(steps) == PlanOf(inp, order)
    ensures Exclusive(steps)
  {
    forall p ensures CountIf(StepTouches(p), steps) <= 1 {
      StepCounts(steps, p);
      PlanOwners(inp, order, p);
    }
  }

  /**
   * Performing the steps of a plan in any order, and whatever their outcomes, gives the same local tree, the same
   * remote tree and the same catalogue.
   */
  lemma {:induction false} AnyOrderGivesTheSameResult(setup: Setup, env: Transfers, now: Path -> Time, sys: System, order: seq<Path>,
                                   steps: seq<Step>, shuffled: seq<Step>)
    requires Enumerates(order, InputsOf(setup, sys).Paths())
    requires ActionsOf(steps) == PlanOf(InputsOf(setup, sys), order)
    requires multiset(shuffled) == multiset(steps)
    ensures var world := Exec(env, steps, sys.world);
      && Exec(env, shuffled, sys.world) == world
      && Record(ActionsOf(shuffled), world.local, now, sys.catalogue) == Record(ActionsOf(steps), world.local, now, sys.catalogue)
  {
    PlanIsExclusive(InputsOf(setup, sys), order, steps);
    ExecPermuted(env, steps, shuffled, sys.world);
    RecordPermuted(steps, shuffled, Exec(env, steps, sys.world).local, now, sys.catalogue);
  }
}
