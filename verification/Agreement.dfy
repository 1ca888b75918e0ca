/** What the two sides have in common after a two-way cycle in which every action succeeded. */
module Agreement {
  import opened Prelude
  import opened SyncTypes
  import opened Planner
  import opened Ownership
  import opened Executor
  import opened Orchestrator
  import opened Followup
  import opened Convergence
  import opened Merge

  lemma MergedPresence(env: Transfers, p: Path, v: View)
    ensures var v' := MergedTwoWay(env, p, v); v'.local.Some? <==> v'.remote.Some?
  {}

  /** Both sides hold the same paths after the cycle, conflicts and server-side moves included. */
  lemma SamePaths(setup: Setup, env: Transfers, now: Path -> Time, sys: System, order: seq<Path>)
    requires setup.mode.TwoWay?
    requires Enumerates(order, InputsOf(setup, sys).Paths())
    ensures var after := After(setup, env, now, sys, order); after.world.local.Keys == after.world.remote.Keys
  {
    hide After, MergedTwoWay;
    var after := After(setup, env, now, sys, order);
    var plan := FirstPlan(setup, sys, order);
    forall p ensures p in after.world.local.Keys <==> p in after.world.remote.Keys {
      if TouchedByMove(plan, p) {
        var m :| m in plan && m.ServerSideMove? && (m.from == p || m.to == p);
        CycleMovesFile(setup, env, now, sys, order, m);
      } else {
        CycleMergesEveryPath(setup, env, now, sys, order, p);
        MergedPresence(env, p, ViewAt(sys, p));
      }
      assert p in after.world.local.Keys <==> ViewAt(after, p).local.Some?;
      assert p in after.world.remote.Keys <==> ViewAt(after, p).remote.Some?;
    }
  }

  ghost predicate KeepsSizes(env: Transfers) {
    && (forall p, item :: env.uploaded(p, item).size == item.size)
    && (forall p, item :: env.downloaded(p, item).size == item.size)
  }

  /** Both sides have the file, with one size, and the catalogue knows it. */
  predicate AgreeView(v: View) {
    v.local.Some? && v.remote.Some? && v.state.Some? && v.local.value.size == v.remote.value.size
  }

  predicate AgreeAt(sys: System, p: Path) { AgreeView(ViewAt(sys, p)) }

  ghost predicate ConflictAt(plan: seq<SyncAction>, p: Path) {
    exists a :: a in plan && a.Conflict? && a.relPath == p
  }

  lemma MergedAgreement(setup: Setup, env: Transfers, p: Path, v: View)
    requires setup.mode.TwoWay? && KeepsSizes(env)
    requires v.local.Some? ==> v.local.value.checksum == None
    ensures var v' := Merged(setup.mode, env, p, v);
      var d := DecideView(setup, p, v);
      v'.local.Some? || v'.remote.Some? ==> (AgreeView(v') <==> !(d.Act? && d.action.Conflict?) || AgreeView(v))
  {}

  lemma ConflictIsDecided(setup: Setup, sys: System, order: seq<Path>, p: Path)
    requires Enumerates(order, InputsOf(setup, sys).Paths())
    ensures var d := DecideView(setup, p, ViewAt(sys, p));
      ConflictAt(FirstPlan(setup, sys, order), p) <==> d.Act? && d.action.Conflict?
  {
    var plan := FirstPlan(setup, sys, order);
    var d := DecideView(setup, p, ViewAt(sys, p));
    assert d == DecideAt(InputsOf(setup, sys), p);
    FirstDecision(setup, p, ViewAt(sys, p));
    hide Decide;
    if b :| b in plan && b.Conflict? && b.relPath == p {
      OwnerRealises(InputsOf(setup, sys), order, b, p);
    }
    if d.Act? && d.action.Conflict? {
      var a := PlanServes(InputsOf(setup, sys), order, p);
    }
  }

  ghost predicate IsMoveTarget(plan: seq<SyncAction>, p: Path) {
    exists q :: ServerSideMove(q, p) in plan
  }

  /**
   * After a two-way cycle whose transfers keep sizes, the two sides agree at every path one of them holds, except
   * exactly at the targets of server-side moves and at the conflicts where they did not agree before.
   */
  lemma TwoWayAgreement(setup: Setup, env: Transfers, now: Path -> Time, sys: System, order: seq<Path>, p: Path)
    requires setup.mode.TwoWay?
    requires Enumerates(order, InputsOf(setup, sys).Paths())
    requires LocallyScanned(sys.world.local, env) && KeepsSizes(env)
    ensures var after, plan := After(setup, env, now, sys, order), FirstPlan(setup, sys, order);
      p in after.world.local || p in after.world.remote ==>
        (AgreeAt(after, p) <==> !IsMoveTarget(plan, p) && (!ConflictAt(plan, p) || AgreeAt(sys, p)))
  {
    hide After, FirstPlan, DecideView, Merged;
    var plan := FirstPlan(setup, sys, order);
    if q :| ServerSideMove(q, p) in plan {
      CycleMovesFile(setup, env, now, sys, order, ServerSideMove(q, p));
    } else if TouchedByMove(plan, p) {
      var m :| m in plan && m.ServerSideMove? && (m.from == p || m.to == p);
      assert m == ServerSideMove(m.from, m.to);
      CycleMovesFile(setup, env, now, sys, order, m);
      assert ViewAt(After(setup, env, now, sys, order), p).local == None;
    } else {
      hide AgreeView;
      CycleMergesEveryPath(setup, env, now, sys, order, p);
      MergedAgreement(setup, env, p, ViewAt(sys, p));
      ConflictIsDecided(setup, sys, order, p);
    }
  }

  // ---------------------------------------------------------------- Whatever the outcomes

  /** Whether the action makes the two sides agree, by its outcome and what it found. */
  predicate BringsAgreement(env: Transfers, p: Path, a: SyncAction, o: Outcome, v: View) {
    match a
    case Upload(_, _, n) =>
      var remote := if v.local.None? then None else Landed(o, env.uploaded(p, v.local.value), v.remote);
      remote.Some? && remote.value.size == n
    case Download(_, _, n, _, _) =>
      var local := if v.remote.None? then None else Landed(o, env.downloaded(p, v.remote.value), v.local);
      local.Some? && local.value.size == n
    case Conflict(_, _) => AgreeView(v)
    case ConvergeState(_, _) => true
    case _ => false
  }

  lemma LeftInAgreement(env: Transfers, now: Path -> Time, w: World, p: Path, a: SyncAction, o: Outcome, v: View)
    requires Fits(w, p, a, v)
    requires v.local.Some? ==> v.local.value.checksum == None
    ensures AgreeView(LeftBy(env, now, w, p, a, o, v)) <==> BringsAgreement(env, p, a, o, v)
  {}

  /**
   * In every mode and whatever the outcomes, the two sides agree at a path afterwards exactly if they did before, for
   * a path that was not acted on, and otherwise exactly if its own action brought it about.
   */
  lemma AgreementByOutcome(setup: Setup, env: Transfers, now: Path -> Time, sys: System, order: seq<Path>, outcomes: seq<Outcome>, p: Path)
    requires Enumerates(order, InputsOf(setup, sys).Paths())
    requires LocallyScanned(sys.world.local, env)
    requires |FirstPlan(setup, sys, order)| == |outcomes|
    ensures var after, plan := Cycle(setup, env, now, sys, order, outcomes), FirstPlan(setup, sys, order);
      && (!Active(InputsOf(setup, sys), p) ==> (AgreeAt(after, p) <==> AgreeAt(sys, p)))
      && (forall i :: 0 <= i < |plan| && p in ClaimList(plan[i]) ==>
            (AgreeAt(after, p) <==> BringsAgreement(env, p, plan[i], outcomes[i], ViewAt(sys, p))))
  {
    hide PlanOf, Cycle, Decide, Fits, LeftBy, AgreeView, BringsAgreement;
    var plan := FirstPlan(setup, sys, order);
    if !Active(InputsOf(setup, sys), p) {
      UnownedPath(setup, env, now, sys, order, outcomes, p);
    }
    forall i | 0 <= i < |plan| && p in ClaimList(plan[i])
      ensures AgreeAt(Cycle(setup, env, now, sys, order, outcomes), p) <==> BringsAgreement(env, p, plan[i], outcomes[i], ViewAt(sys, p))
    {
      OwnerLeft(setup, env, now, sys, order, outcomes, i, p);
      LeftInAgreement(env, now, sys.world, p, plan[i], outcomes[i], ViewAt(sys, p));
    }
  }
}
