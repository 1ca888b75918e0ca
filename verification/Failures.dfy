/** What failed actions cost: the catalogue is told that they succeeded, and the next plan believes it. */
module Failures {
  import opened Prelude
  import opened SyncTypes
  import opened RenameDetector
  import opened Planner
  import opened Ownership
  import opened PlanContents
  import opened Executor
  import opened Orchestrator
  import opened Followup
  import opened Convergence
  import opened Merge

  lemma OwnerOf(inp: Inputs, order: seq<Path>, p: Path) returns (i: nat)
    requires Enumerates(order, inp.Paths()) && Active(inp, p)
    ensures i < |PlanOf(inp, order)| && p in ClaimList(PlanOf(inp, order)[i]) && Realises(inp, p, PlanOf(inp, order)[i])
  {
    hide Decide, PlanOf;
    var a := PlanServes(inp, order, p);
    i :| 0 <= i < |PlanOf(inp, order)| && PlanOf(inp, order)[i] == a;
  }

  lemma NewOnOneSide(setup: Setup, p: Path, v: View)
    requires setup.mode.TwoWay? && v.state == None && (v.local.Some? <==> v.remote.None?)
    ensures DecideView(setup, p, v) ==
      if v.local.Some? then Add(CandidateItem(p, v.local.value.size, v.local.value.checksum)) else Act(DownloadOf(p, v.remote.value))
  {}

  /** The next decision about a file that only one side had, by how the action that was to carry it over went. */
  lemma NewFileDecision(setup: Setup, env: Transfers, w: World, p: Path, a: SyncAction, o: Outcome, v: View)
    requires setup.mode.TwoWay? && v.state == None && (v.local.Some? <==> v.remote.None?)
    requires Fits(w, p, a, v)
    requires a.Upload? || a.Download? || a.ServerSideMove?
    ensures var d := NextDecision(setup, env, w, p, a, o, v);
      (d == Act(DeleteLocal(p)) || d.Delete?) <==> !a.ServerSideMove? && o == Failed(None)
  {}

  /**
   * In two-way mode a file that one side has and the catalogue does not know is removed by the next plan exactly if
   * its transfer failed and left nothing behind.
   */
  lemma FailedTransferRemovesFile(setup: Setup, env: Transfers, now: Path -> Time, sys: System, order: seq<Path>,
                                  outcomes: seq<Outcome>, order2: seq<Path>, p: Path) returns (i: nat)
    requires setup.mode.TwoWay?
    requires Enumerates(order, InputsOf(setup, sys).Paths())
    requires LocallyScanned(sys.world.local, env)
    requires |FirstPlan(setup, sys, order)| == |outcomes| && Leftovers(FirstPlan(setup, sys, order), outcomes)
    requires Enumerates(order2, InputsOf(setup, Cycle(setup, env, now, sys, order, outcomes)).Paths())
    requires OnOneSide(sys.world, p) && p !in sys.catalogue
    ensures i < |outcomes| && p in ClaimList(FirstPlan(setup, sys, order)[i])
    ensures Removes(FirstPlan(setup, Cycle(setup, env, now, sys, order, outcomes), order2), p)
       <==> !FirstPlan(setup, sys, order)[i].ServerSideMove? && outcomes[i] == Failed(None)
  {
    hide Decide, PlanOf, Cycle, NextDecision, Fits, Removes;
    var inp, v := InputsOf(setup, sys), ViewAt(sys, p);
    NewOnOneSide(setup, p, v);
    assert DecideAt(inp, p) == DecideView(setup, p, v);
    i := OwnerOf(inp, order, p);
    SecondDecision(setup, env, now, sys, order, outcomes, i, p);
    NewFileDecision(setup, env, sys.world, p, FirstPlan(setup, sys, order)[i], outcomes[i], v);
    RemovalIsDecided(InputsOf(setup, Cycle(setup, env, now, sys, order, outcomes)), order2, p);
  }

  /** Once a cycle whose plan removes a path has succeeded, neither side has anything there. */
  lemma RemovedIsGone(setup: Setup, env: Transfers, now: Path -> Time, sys: System, order: seq<Path>, p: Path)
    requires Enumerates(order, InputsOf(setup, sys).Paths())
    requires Removes(FirstPlan(setup, sys, order), p)
    ensures p !in After(setup, env, now, sys, order).world.local
    ensures p !in After(setup, env, now, sys, order).world.remote
  {
    hide Decide, PlanOf, Cycle;
    var a :| a in FirstPlan(setup, sys, order) && (a == DeleteLocal(p) || a == DeleteRemote(p) || (a.ServerSideMove? && a.from == p));
    OwnerDone(setup, env, now, sys, order, a, p);
    var v := ViewAt(After(setup, env, now, sys, order), p);
    assert v.local == None && v.remote == None;
  }

  function Single(p: Path, item: ScannedItem): Tree { map[p := item] }

  lemma OneDecision(d: Decision)
    ensures Direct([d]) == if d.Act? then [d.action] else []
    ensures Deletions([d]) == if d.Delete? then [d.item] else []
    ensures Additions([d]) == if d.Add? then [d.item] else []
  {
    var ds := [d];
    var none: seq<Decision> := [];
    assert ds[..|ds| - 1] == none;
    assert Direct(none) == [] && Deletions(none) == [] && Additions(none) == [];
  }

  lemma SmallPlan(inp: Inputs, p: Path)
    requires !inp.canMove
    ensures match DecideAt(inp, p)
      case Nothing => true
      case Act(a) => PlanOf(inp, [p]) == [a]
      case Delete(c) => PlanOf(inp, [p]) == [DeleteRemote(c.relPath)]
      case Add(c) => PlanOf(inp, [p]) == [UploadOf(inp.local, c)]
  {
    hide Decide, Direct, Deletions, Additions;
    var ds := Decisions(inp, [p]);
    assert ds == [DecideAt(inp, p)];
    OneDecision(DecideAt(inp, p));
  }

  lemma OneStep(setup: Setup, env: Transfers, now: Path -> Time, sys: System, p: Path, a: SyncAction, o: Outcome)
    requires FirstPlan(setup, sys, [p]) == [a]
    ensures var after := Cycle(setup, env, now, sys, [p], [o]);
      && after.world == Apply(env, Step(a, o), sys.world)
      && after.catalogue == Note(a, after.world.local, now, sys.catalogue)
  {
    hide PlanOf, Apply, Note;
    var steps := StepsOf([a], [o]);
    assert steps == [Step(a, o)] && steps[..0] == [] && [a][..0] == [];
    assert Exec(env, steps[..0], sys.world) == sys.world;
    var local := Apply(env, Step(a, o), sys.world).local;
    assert Record([a][..0], local, now, sys.catalogue) == sys.catalogue;
  }

  /** The smallest case: one new local file, whose upload fails. The next plan deletes it. */
  lemma OneFailedUpload(policy: ConflictPolicy, env: Transfers, now: Path -> Time, p: Path, item: ScannedItem)
    requires item.checksum == None
    ensures var setup := Setup(TwoWay, policy, false);
      var sys := System(World(Single(p, item), map[]), map[]);
      && FirstPlan(setup, sys, [p]) == [Upload(p, p, item.size)]
      && FirstPlan(setup, Cycle(setup, env, now, sys, [p], [Failed(None)]), [p]) == [DeleteLocal(p)]
  {
    hide PlanOf, Cycle;
    var setup := Setup(TwoWay, policy, false);
    var sys := System(World(Single(p, item), map[]), map[]);
    SmallPlan(InputsOf(setup, sys), p);
    OneStep(setup, env, now, sys, p, Upload(p, p, item.size), Failed(None));
    SmallPlan(InputsOf(setup, Cycle(setup, env, now, sys, [p], [Failed(None)])), p);
  }

  /** The smallest case the other way: one new remote file, whose download fails. The next plan deletes it. */
  lemma OneFailedDownload(policy: ConflictPolicy, env: Transfers, now: Path -> Time, p: Path, item: ScannedItem)
    ensures var setup := Setup(TwoWay, policy, false);
      var sys := System(World(map[], Single(p, item)), map[]);
      && FirstPlan(setup, sys, [p]) == [DownloadOf(p, item)]
      && FirstPlan(setup, Cycle(setup, env, now, sys, [p], [Failed(None)]), [p]) == [DeleteRemote(p)]
  {
    hide PlanOf, Cycle;
    var setup := Setup(TwoWay, policy, false);
    var sys := System(World(map[], Single(p, item)), map[]);
    SmallPlan(InputsOf(setup, sys), p);
    OneStep(setup, env, now, sys, p, DownloadOf(p, item), Failed(None));
    SmallPlan(InputsOf(setup, Cycle(setup, env, now, sys, [p], [Failed(None)])), p);
  }

  // ---------------------------------------------------------------- Other failures

  /**
   * In two-way mode the next plan overwrites the local file of an upload exactly if something is on the remote side,
   * be it torn, older or altered on the way, that differs in size or time.
   */
  lemma UploadOverwritten(setup: Setup, env: Transfers, now: Path -> Time, sys: System, order: seq<Path>,
                          outcomes: seq<Outcome>, order2: seq<Path>, i: nat, p: Path)
    requires setup.mode.TwoWay?
    requires Enumerates(order, InputsOf(setup, sys).Paths())
    requires LocallyScanned(sys.world.local, env)
    requires |FirstPlan(setup, sys, order)| == |outcomes| && Leftovers(FirstPlan(setup, sys, order), outcomes)
    requires Enumerates(order2, InputsOf(setup, Cycle(setup, env, now, sys, order, outcomes)).Paths())
    requires i < |outcomes| && FirstPlan(setup, sys, order)[i].Upload? && p in ClaimList(FirstPlan(setup, sys, order)[i])
    ensures p in sys.world.local
    ensures var there := Landed(outcomes[i], env.uploaded(p, sys.world.local[p]), Lookup(sys.world.remote, p));
      Downloads(FirstPlan(setup, Cycle(setup, env, now, sys, order, outcomes), order2), p)
      <==> there.Some? && !Kept(sys.world.local[p], there.value)
  {
    hide Decide, PlanOf, Cycle;
    SecondDecision(setup, env, now, sys, order, outcomes, i, p);
    ActByDecision(InputsOf(setup, Cycle(setup, env, now, sys, order, outcomes)), order2, p);
  }

  /** In two-way mode the next plan fetches a remotely deleted file again exactly if the deletion failed. */
  lemma FailedDeletionComesBack(setup: Setup, env: Transfers, now: Path -> Time, sys: System, order: seq<Path>,
                                outcomes: seq<Outcome>, order2: seq<Path>, i: nat, p: Path)
    requires setup.mode.TwoWay?
    requires Enumerates(order, InputsOf(setup, sys).Paths())
    requires LocallyScanned(sys.world.local, env)
    requires |FirstPlan(setup, sys, order)| == |outcomes| && Leftovers(FirstPlan(setup, sys, order), outcomes)
    requires Enumerates(order2, InputsOf(setup, Cycle(setup, env, now, sys, order, outcomes)).Paths())
    requires i < |outcomes| && FirstPlan(setup, sys, order)[i] == DeleteRemote(p)
    ensures Downloads(FirstPlan(setup, Cycle(setup, env, now, sys, order, outcomes), order2), p) <==> outcomes[i].Failed?
  {
    hide Decide, PlanOf, Cycle;
    SecondDecision(setup, env, now, sys, order, outcomes, i, p);
    ActByDecision(InputsOf(setup, Cycle(setup, env, now, sys, order, outcomes)), order2, p);
  }

  /** The smallest torn upload: the next plan fetches the torn file over the intact one. */
  lemma OneTornUpload(policy: ConflictPolicy, env: Transfers, now: Path -> Time, p: Path, item: ScannedItem, torn: ScannedItem)
    requires item.checksum == None && !Kept(item, torn)
    ensures var setup := Setup(TwoWay, policy, false);
      var sys := System(World(Single(p, item), map[]), map[]);
      && FirstPlan(setup, sys, [p]) == [Upload(p, p, item.size)]
      && FirstPlan(setup, Cycle(setup, env, now, sys, [p], [Failed(Some(torn))]), [p]) == [DownloadOf(p, torn)]
  {
    hide PlanOf, Cycle;
    var setup := Setup(TwoWay, policy, false);
    var sys := System(World(Single(p, item), map[]), map[]);
    SmallPlan(InputsOf(setup, sys), p);
    OneStep(setup, env, now, sys, p, Upload(p, p, item.size), Failed(Some(torn)));
    SmallPlan(InputsOf(setup, Cycle(setup, env, now, sys, [p], [Failed(Some(torn))])), p);
  }

  /** The smallest failed deletion: the next plan fetches the file that was deleted locally. */
  lemma OneFailedDeletion(policy: ConflictPolicy, env: Transfers, now: Path -> Time, p: Path, item: ScannedItem, known: FileState)
    ensures var setup := Setup(TwoWay, policy, false);
      var sys := System(World(map[], Single(p, item)), map[p := known]);
      && FirstPlan(setup, sys, [p]) == [DeleteRemote(p)]
      && FirstPlan(setup, Cycle(setup, env, now, sys, [p], [Failed(None)]), [p]) == [DownloadOf(p, item)]
  {
    hide PlanOf, Cycle;
    var setup := Setup(TwoWay, policy, false);
    var sys := System(World(map[], Single(p, item)), map[p := known]);
    SmallPlan(InputsOf(setup, sys), p);
    OneStep(setup, env, now, sys, p, DeleteRemote(p), Failed(None));
    SmallPlan(InputsOf(setup, Cycle(setup, env, now, sys, [p], [Failed(None)])), p);
  }
}
