/** Which paths an action touches, and why no two actions of a plan touch the same one. */
module Ownership {
  import opened Prelude
  import opened SyncTypes
  import opened RenameDetector
  import opened Planner

  /** The paths an action reads or writes, on whichever side. */
  function ClaimList(a: SyncAction): seq<Path> {
    match a
    case Upload(l, r, _) => if l == r then [r] else [l, r]
    case Download(r, l, _, _, _) => if l == r then [r] else [l, r]
    case ServerSideMove(from, to) => [from, to]
    case ServerSideCopy(from, to) => [from, to]
    case DeleteLocal(p) => [p]
    case DeleteRemote(p) => [p]
    case ArchiveToTrash(p, _) => [p]
    case Conflict(p, _) => [p]
    case ConvergeState(p, _) => [p]
  }

  function Touches(p: Path): SyncAction -> bool { (a: SyncAction) => p in ClaimList(a) }

  function Names(p: Path): CandidateItem -> bool { (c: CandidateItem) => c.relPath == p }

  predicate Active(inp: Inputs, p: Path) { DecideAt(inp, p) != Nothing }

  /** A decision about a path names that path and no other. */
  predicate About(p: Path, d: Decision) {
    match d
    case Nothing => true
    case Act(a) => ClaimList(a) == [p]
    case Delete(c) => c.relPath == p
    case Add(c) => c.relPath == p
  }

  lemma DecisionAbout(inp: Inputs, p: Path)
    ensures About(p, DecideAt(inp, p))
  {}

  /** Direct actions and candidates together name each active path as often as the walk meets it. */
  lemma {:induction false} LoopOwners(order: seq<Path>, ds: seq<Decision>, p: Path, active: bool)
    requires |order| == |ds|
    requires forall i :: 0 <= i < |order| ==> About(order[i], ds[i])
    requires forall i :: 0 <= i < |order| && order[i] == p ==> (ds[i] != Nothing <==> active)
    ensures CountIf(Touches(p), Direct(ds)) + CountIf(Names(p), Deletions(ds)) + CountIf(Names(p), Additions(ds))
         == if active then CountIf(Is(p), order) else 0
  {
    if order != [] {
      var n := |order| - 1;
      LoopOwners(order[..n], ds[..n], p, active);
      assert About(order[n], ds[n]);
      match ds[n] {
        case Act(a) => CountIfSnoc(Touches(p), Direct(ds[..n]), a);
        case Delete(c) => CountIfSnoc(Names(p), Deletions(ds[..n]), c);
        case Add(c) => CountIfSnoc(Names(p), Additions(ds[..n]), c);
        case Nothing =>
      }
    }
  }

  lemma MoveActionsSnoc(init: seq<(CandidateItem, CandidateItem)>, last: (CandidateItem, CandidateItem))
    ensures MoveActions(MovesOf(init + [last])) == MoveActions(MovesOf(init)) + [ServerSideMove(last.0.relPath, last.1.relPath)]
  {}

  lemma {:induction false} MoveOwners(pairs: seq<(CandidateItem, CandidateItem)>, p: Path)
    requires forall k :: 0 <= k < |pairs| ==> pairs[k].0.relPath != pairs[k].1.relPath
    ensures CountIf(Touches(p), MoveActions(MovesOf(pairs))) == CountIf(Names(p), Firsts(pairs)) + CountIf(Names(p), Seconds(pairs))
  {
    if pairs != [] {
      var init, last := pairs[..|pairs| - 1], pairs[|pairs| - 1];
      var move := ServerSideMove(last.0.relPath, last.1.relPath);
      MoveOwners(init, p);
      assert pairs == init + [(last.0, last.1)];
      FirstsSnoc(init, last.0, last.1);
      CountIfSnoc(Names(p), Firsts(init), last.0);
      CountIfSnoc(Names(p), Seconds(init), last.1);
      MoveActionsSnoc(init, last);
      CountIfSnoc(Touches(p), MoveActions(MovesOf(init)), move);
    }
  }

  lemma DeleteActionsSnoc(init: seq<CandidateItem>, last: CandidateItem)
    ensures DeleteActions(init + [last]) == DeleteActions(init) + [DeleteRemote(last.relPath)]
  {}

  lemma UploadActionsSnoc(local: Tree, init: seq<CandidateItem>, last: CandidateItem)
    ensures UploadActions(local, init + [last]) == UploadActions(local, init) + [UploadOf(local, last)]
  {}

  lemma {:induction false} DeleteOwners(dels: seq<CandidateItem>, p: Path)
    ensures CountIf(Touches(p), DeleteActions(dels)) == CountIf(Names(p), dels)
  {
    if dels != [] {
      hide DeleteActions;
      var init, last := dels[..|dels| - 1], dels[|dels| - 1];
      DeleteOwners(init, p);
      assert dels == init + [last];
      DeleteActionsSnoc(init, last);
      CountIfSnoc(Touches(p), DeleteActions(init), DeleteRemote(last.relPath));
    }
  }

  lemma {:induction false} UploadOwners(local: Tree, adds: seq<CandidateItem>, p: Path)
    ensures CountIf(Touches(p), UploadActions(local, adds)) == CountIf(Names(p), adds)
  {
    if adds != [] {
      hide UploadActions;
      var init, last := adds[..|adds| - 1], adds[|adds| - 1];
      UploadOwners(local, init, p);
      assert adds == init + [last];
      UploadActionsSnoc(local, init, last);
      CountIfSnoc(Touches(p), UploadActions(local, init), UploadOf(local, last));
    }
  }

  lemma {:induction false} LastPhaseOwners(inp: Inputs, dels: seq<CandidateItem>, adds: seq<CandidateItem>, p: Path)
    requires forall c, d :: c in dels && d in adds ==> c.relPath != d.relPath
    ensures CountIf(Touches(p), LastPhase(inp, dels, adds)) == CountIf(Names(p), dels) + CountIf(Names(p), adds)
  {
    var d := PairingOf(inp, dels, adds);
    var moves, deletes, uploads := MoveActions(MovesOf(d.pairs)), DeleteActions(d.restDel), UploadActions(inp.local, d.restAdd);
    CountIfAppend(Touches(p), moves + deletes, uploads);
    CountIfAppend(Touches(p), moves, deletes);
    PairingMember(inp, dels, adds);
    forall k | 0 <= k < |d.pairs| ensures d.pairs[k].0.relPath != d.pairs[k].1.relPath {
      assert Firsts(d.pairs)[k] in dels && Seconds(d.pairs)[k] in adds;
    }
    MoveOwners(d.pairs, p);
    DeleteOwners(d.restDel, p);
    UploadOwners(inp.local, d.restAdd, p);
    Conserved(Names(p), dels, adds);
  }

  lemma CandidatesApart(inp: Inputs, order: seq<Path>)
    ensures var ds := Decisions(inp, order);
      forall c, d :: c in Deletions(ds) && d in Additions(ds) ==> c.relPath != d.relPath
  {
    var ds := Decisions(inp, order);
    forall c, d | c in Deletions(ds) && d in Additions(ds) ensures c.relPath != d.relPath {
      var p := DeletionOf(inp, order, c);
      var q := AdditionOf(inp, order, d);
    }
  }

  /** Every active path is claimed by exactly one action of the plan, every other path by none. */
  lemma PlanOwners(inp: Inputs, order: seq<Path>, p: Path)
    requires Enumerates(order, inp.Paths())
    ensures CountIf(Touches(p), PlanOf(inp, order)) == if Active(inp, p) then 1 else 0
  {
    var ds := Decisions(inp, order);
    CountIfAppend(Touches(p), Direct(ds), LastPhase(inp, Deletions(ds), Additions(ds)));
    forall i | 0 <= i < |order| ensures About(order[i], ds[i]) {
      DecisionAbout(inp, order[i]);
    }
    LoopOwners(order, ds, p, Active(inp, p));
    CandidatesApart(inp, order);
    LastPhaseOwners(inp, Deletions(ds), Additions(ds), p);
    DistinctCounts(order, p);
    if Active(inp, p) {
      ActiveIsListed(inp, p);
    }
  }

  lemma ActiveIsListed(inp: Inputs, p: Path)
    requires Active(inp, p)
    ensures p in inp.Paths()
  {}

  ghost predicate Disjoint(a: SyncAction, b: SyncAction) {
    forall p :: p in ClaimList(a) ==> p !in ClaimList(b)
  }

  ghost predicate PairwiseDisjoint(actions: seq<SyncAction>) {
    forall i, j :: 0 <= i < j < |actions| ==> Disjoint(actions[i], actions[j])
  }

  /**
   * Each path is claimed by at most one action of a plan, and by one exactly when the comparison of the three trees
   * found something to do there. A move claims two different paths, and no other action claims either of them.
   */
  lemma EachPathHasOneOwner(inp: Inputs, order: seq<Path>)
    requires Enumerates(order, inp.Paths())
    ensures var plan := PlanOf(inp, order);
      && PairwiseDisjoint(plan)
      && (forall a :: a in plan && a.ServerSideMove? ==> a.from != a.to)
      && (forall p :: Active(inp, p) <==> exists i :: 0 <= i < |plan| && p in ClaimList(plan[i]))
  {
    var plan := PlanOf(inp, order);
    forall i, j | 0 <= i < j < |plan| ensures Disjoint(plan[i], plan[j]) {
      forall p | p in ClaimList(plan[i]) ensures p !in ClaimList(plan[j]) {
        PlanOwners(inp, order, p);
        if p in ClaimList(plan[j]) {
          CountIfTwo(Touches(p), plan, i, j);
        }
      }
    }
    forall a | a in plan && a.ServerSideMove? ensures a.from != a.to {
      MoveJoins(inp, order, a);
    }
    forall p ensures Active(inp, p) <==> exists i :: 0 <= i < |plan| && p in ClaimList(plan[i]) {
      PlanOwners(inp, order, p);
      CountIfPositive(Touches(p), plan);
      assert forall i :: 0 <= i < |plan| ==> (Touches(p)(plan[i]) <==> p in ClaimList(plan[i]));
    }
  }

  /** No action occurs twice in a plan. */
  lemma PlanCounts(inp: Inputs, order: seq<Path>, b: SyncAction)
    requires Enumerates(order, inp.Paths())
    ensures CountIf(Is(b), PlanOf(inp, order)) == if b in PlanOf(inp, order) then 1 else 0
  {
    var plan := PlanOf(inp, order);
    forall i, j | 0 <= i < j < |plan| ensures plan[i] != plan[j] {
      if plan[i] == plan[j] {
        var p := ClaimList(plan[i])[0];
        PlanOwners(inp, order, p);
        CountIfTwo(Touches(p), plan, i, j);
      }
    }
    DistinctCounts(plan, b);
  }

  // ---------------------------------------------------------------- What the plan does at one path

  lemma {:induction false} DirectMember(ds: seq<Decision>, a: SyncAction)
    ensures a in Direct(ds) <==> Act(a) in ds
  {
    if ds != [] {
      var init, last := ds[..|ds| - 1], ds[|ds| - 1];
      DirectMember(init, a);
      assert ds == init + [last];
    }
  }

  lemma {:induction false} DeletionMember(ds: seq<Decision>, c: CandidateItem)
    ensures c in Deletions(ds) <==> Delete(c) in ds
  {
    if ds != [] {
      var init, last := ds[..|ds| - 1], ds[|ds| - 1];
      DeletionMember(init, c);
      assert ds == init + [last];
    }
  }

  lemma {:induction false} AdditionMember(ds: seq<Decision>, c: CandidateItem)
    ensures c in Additions(ds) <==> Add(c) in ds
  {
    if ds != [] {
      var init, last := ds[..|ds| - 1], ds[|ds| - 1];
      AdditionMember(init, c);
      assert ds == init + [last];
    }
  }

  lemma DeletionOf(inp: Inputs, order: seq<Path>, c: CandidateItem) returns (p: Path)
    requires c in Deletions(Decisions(inp, order))
    ensures p in order && DecideAt(inp, p) == Delete(c) && c.relPath == p
  {
    var ds := Decisions(inp, order);
    DeletionMember(ds, c);
    var i :| 0 <= i < |ds| && ds[i] == Delete(c);
    p := order[i];
    DecisionAbout(inp, p);
  }

  lemma AdditionOf(inp: Inputs, order: seq<Path>, c: CandidateItem) returns (p: Path)
    requires c in Additions(Decisions(inp, order))
    ensures p in order && DecideAt(inp, p) == Add(c) && c.relPath == p
  {
    var ds := Decisions(inp, order);
    AdditionMember(ds, c);
    var i :| 0 <= i < |ds| && ds[i] == Add(c);
    p := order[i];
    DecisionAbout(inp, p);
  }

  /** Which action a decision leads to: the action itself, or its role in the move phase. */
  predicate Realises(inp: Inputs, p: Path, a: SyncAction) {
    match DecideAt(inp, p)
    case Nothing => false
    case Act(b) => a == b
    case Delete(_) => a == DeleteRemote(p) || (a.ServerSideMove? && a.from == p)
    case Add(c) => a == Upload(p, p, c.size) || (a.ServerSideMove? && a.to == p)
  }

  lemma PairingMember(inp: Inputs, dels: seq<CandidateItem>, adds: seq<CandidateItem>)
    ensures var d := PairingOf(inp, dels, adds);
      && (forall c :: c in dels <==> c in d.restDel || c in Firsts(d.pairs))
      && (forall c :: c in adds <==> c in d.restAdd || c in Seconds(d.pairs))
      && (forall k :: 0 <= k < |d.pairs| ==> Matches(d.pairs[k].0, d.pairs[k].1))
  {
    var d := PairingOf(inp, dels, adds);
    MatchingQuality(dels, adds, []);
    if d == Detect(dels, adds) {
      forall c ensures c in dels <==> c in d.restDel || c in Firsts(d.pairs) {
        assert c in dels <==> c in multiset(dels);
      }
      forall c ensures c in adds <==> c in d.restAdd || c in Seconds(d.pairs) {
        assert c in adds <==> c in multiset(adds);
      }
    }
  }

  lemma DeletionServed(inp: Inputs, dels: seq<CandidateItem>, adds: seq<CandidateItem>, c: CandidateItem) returns (a: SyncAction)
    requires c in dels
    ensures a in LastPhase(inp, dels, adds)
    ensures a == DeleteRemote(c.relPath) || (a.ServerSideMove? && a.from == c.relPath)
  {
    var d := PairingOf(inp, dels, adds);
    PairingMember(inp, dels, adds);
    if c in d.restDel {
      var k :| 0 <= k < |d.restDel| && d.restDel[k] == c;
      a := DeleteActions(d.restDel)[k];
    } else {
      var k :| 0 <= k < |d.pairs| && Firsts(d.pairs)[k] == c;
      a := MoveActions(MovesOf(d.pairs))[k];
    }
  }

  lemma AdditionServed(inp: Inputs, dels: seq<CandidateItem>, adds: seq<CandidateItem>, c: CandidateItem) returns (a: SyncAction)
    requires c in adds
    ensures a in LastPhase(inp, dels, adds)
    ensures a == UploadOf(inp.local, c) || (a.ServerSideMove? && a.to == c.relPath)
  {
    var d := PairingOf(inp, dels, adds);
    PairingMember(inp, dels, adds);
    if c in d.restAdd {
      var k :| 0 <= k < |d.restAdd| && d.restAdd[k] == c;
      a := UploadActions(inp.local, d.restAdd)[k];
    } else {
      var k :| 0 <= k < |d.pairs| && Seconds(d.pairs)[k] == c;
      a := MoveActions(MovesOf(d.pairs))[k];
    }
  }

  lemma PlanParts(inp: Inputs, order: seq<Path>, a: SyncAction)
    ensures var ds := Decisions(inp, order);
      a in PlanOf(inp, order) <==> a in Direct(ds) || a in LastPhase(inp, Deletions(ds), Additions(ds))
  {
    hide Decide, LastPhase, Direct, Deletions, Additions;
  }

  /** Every active path is served by an action that carries out its decision. */
  lemma PlanServes(inp: Inputs, order: seq<Path>, p: Path) returns (a: SyncAction)
    requires Enumerates(order, inp.Paths())
    requires Active(inp, p)
    ensures a in PlanOf(inp, order) && p in ClaimList(a) && Realises(inp, p, a)
  {
    ActiveIsListed(inp, p);
    hide Decide, PlanOf, LastPhase, Direct, Deletions, Additions, UploadOf;
    var ds := Decisions(inp, order);
    var dels, adds := Deletions(ds), Additions(ds);
    var i :| 0 <= i < |order| && order[i] == p;
    assert ds[i] == DecideAt(inp, p);
    DecisionAbout(inp, p);
    match ds[i] {
      case Act(b) =>
        DirectMember(ds, b);
        a := b;
      case Delete(c) =>
        DeletionMember(ds, c);
        a := DeletionServed(inp, dels, adds, c);
      case Add(c) =>
        AdditionMember(ds, c);
        a := AdditionServed(inp, dels, adds, c);
        AdditionIsLocal(inp, p, c);
    }
    PlanParts(inp, order, a);
  }

  lemma AdditionIsLocal(inp: Inputs, p: Path, c: CandidateItem)
    requires DecideAt(inp, p) == Add(c)
    ensures UploadOf(inp.local, c) == Upload(p, p, c.size)
  {}

  /** A planned move goes from a path decided deleted to a path decided added that matches it. */
  lemma MoveJoins(inp: Inputs, order: seq<Path>, a: SyncAction)
    requires a in PlanOf(inp, order) && a.ServerSideMove?
    ensures inp.canMove && a.from != a.to
    ensures DecideAt(inp, a.from).Delete? && DecideAt(inp, a.to).Add?
    ensures Matches(DecideAt(inp, a.from).item, DecideAt(inp, a.to).item)
    ensures DecideAt(inp, a.from).item.size == DecideAt(inp, a.to).item.size > 0
  {
    var ds := Decisions(inp, order);
    var dels, adds := Deletions(ds), Additions(ds);
    var d := PairingOf(inp, dels, adds);
    if a in Direct(ds) {
      DirectMember(ds, a);
      var i :| 0 <= i < |ds| && ds[i] == Act(a);
      NoDirectMove(inp, order[i]);
    }
    assert a in MoveActions(MovesOf(d.pairs));
    var k :| 0 <= k < |d.pairs| && MoveActions(MovesOf(d.pairs))[k] == a;
    PairingMember(inp, dels, adds);
    assert Firsts(d.pairs)[k] == d.pairs[k].0 && Seconds(d.pairs)[k] == d.pairs[k].1;
    var p := DeletionOf(inp, order, d.pairs[k].0);
    var q := AdditionOf(inp, order, d.pairs[k].1);
  }

  lemma NoDirectMove(inp: Inputs, p: Path)
    ensures DecideAt(inp, p).Act? ==> !DecideAt(inp, p).action.ServerSideMove?
  {}

  /** No two actions of a plan claim the same path. */
  lemma OneOwner(inp: Inputs, order: seq<Path>, a: SyncAction, b: SyncAction, p: Path)
    requires Enumerates(order, inp.Paths())
    requires a in PlanOf(inp, order) && b in PlanOf(inp, order)
    requires p in ClaimList(a) && p in ClaimList(b)
    ensures a == b
  {
    var plan := PlanOf(inp, order);
    var i :| 0 <= i < |plan| && plan[i] == a;
    var j :| 0 <= j < |plan| && plan[j] == b;
    PlanOwners(inp, order, p);
    if i != j {
      CountIfTwo(Touches(p), plan, if i < j then i else j, if i < j then j else i);
    }
  }

  /** The action that owns a path carries out what was decided about it. */
  lemma OwnerRealises(inp: Inputs, order: seq<Path>, a: SyncAction, p: Path)
    requires Enumerates(order, inp.Paths())
    requires a in PlanOf(inp, order) && p in ClaimList(a)
    ensures Active(inp, p)
    ensures Realises(inp, p, a)
  {
    var plan := PlanOf(inp, order);
    var i :| 0 <= i < |plan| && plan[i] == a;
    PlanOwners(inp, order, p);
    CountIfPositive(Touches(p), plan);
    assert Touches(p)(plan[i]);
    var b := PlanServes(inp, order, p);
    OneOwner(inp, order, a, b, p);
  }

  /** A download or a local deletion is planned exactly if it was decided. */
  lemma DecidedIsPlanned(inp: Inputs, order: seq<Path>, p: Path, a: SyncAction)
    requires Enumerates(order, inp.Paths())
    requires a.Download? || a.DeleteLocal?
    requires ClaimList(a) == [p]
    ensures a in PlanOf(inp, order) <==> DecideAt(inp, p) == Act(a)
  {
    hide Decide, PlanOf;
    if a in PlanOf(inp, order) {
      OwnerRealises(inp, order, a, p);
    }
    if DecideAt(inp, p) == Act(a) {
      var b := PlanServes(inp, order, p);
    }
  }

  /** The path is deleted, or its remote file is moved away. */
  ghost predicate Removes(plan: seq<SyncAction>, p: Path) {
    exists a :: a in plan && (a == DeleteLocal(p) || a == DeleteRemote(p) || (a.ServerSideMove? && a.from == p))
  }

  lemma DirectDeletion(inp: Inputs, p: Path)
    ensures DecideAt(inp, p).Act? ==> !DecideAt(inp, p).action.DeleteRemote? && !DecideAt(inp, p).action.ServerSideMove?
  {}

  lemma RemovalIsDecided(inp: Inputs, order: seq<Path>, p: Path)
    requires Enumerates(order, inp.Paths())
    ensures Removes(PlanOf(inp, order), p) <==> DecideAt(inp, p) == Act(DeleteLocal(p)) || DecideAt(inp, p).Delete?
  {
    hide Decide, PlanOf;
    var plan := PlanOf(inp, order);
    if a :| a in plan && (a == DeleteLocal(p) || a == DeleteRemote(p) || (a.ServerSideMove? && a.from == p)) {
      assert p in ClaimList(a);
      OwnerRealises(inp, order, a, p);
      DirectDeletion(inp, p);
      if a.ServerSideMove? {
        MoveJoins(inp, order, a);
      }
    }
    if DecideAt(inp, p) == Act(DeleteLocal(p)) || DecideAt(inp, p).Delete? {
      var a := PlanServes(inp, order, p);
    }
  }

  lemma PlainDirect(ds: seq<Decision>, inp: Inputs, order: seq<Path>, a: SyncAction)
    requires ds == Decisions(inp, order) && a in Direct(ds)
    ensures !a.ServerSideMove? && !a.DeleteRemote?
  {
    DirectMember(ds, a);
    var i :| 0 <= i < |ds| && ds[i] == Act(a);
    DirectDeletion(inp, order[i]);
  }

  /** What the move phase leaves over does not match: no planned deletion could have been paired with a planned upload. */
  lemma LeftoversDoNotMatch(inp: Inputs, order: seq<Path>, p: Path, q: Path)
    requires Enumerates(order, inp.Paths()) && inp.canMove
    requires DecideAt(inp, p).Delete? && DecideAt(inp, q).Add?
    requires DeleteRemote(p) in PlanOf(inp, order)
    requires exists u :: u in PlanOf(inp, order) && u.Upload? && q in ClaimList(u)
    ensures !Matches(DecideAt(inp, p).item, DecideAt(inp, q).item)
  {
    hide Decide, Matches, Detect;
    var ds := Decisions(inp, order);
    var dels, adds := Deletions(ds), Additions(ds);
    var d := PairingOf(inp, dels, adds);
    var c := LeftDeletion(inp, order, p);
    var e := LeftAddition(inp, order, q);
    Greedy(dels, adds);
  }

  lemma LeftDeletion(inp: Inputs, order: seq<Path>, p: Path) returns (c: CandidateItem)
    requires Enumerates(order, inp.Paths())
    requires DecideAt(inp, p).Delete? && DeleteRemote(p) in PlanOf(inp, order)
    ensures c == DecideAt(inp, p).item
    ensures c in Deletions(Decisions(inp, order))
    ensures c in PairingOf(inp, Deletions(Decisions(inp, order)), Additions(Decisions(inp, order))).restDel
  {
    hide Decide, Matches, Detect;
    var ds := Decisions(inp, order);
    var dels, adds := Deletions(ds), Additions(ds);
    var d := PairingOf(inp, dels, adds);
    c := DecideAt(inp, p).item;
    DecisionAbout(inp, p);
    if DeleteRemote(p) in Direct(ds) {
      PlainDirect(ds, inp, order, DeleteRemote(p));
    }
    assert DeleteRemote(p) in DeleteActions(d.restDel);
    var k :| 0 <= k < |d.restDel| && DeleteActions(d.restDel)[k] == DeleteRemote(p);
    PairingMember(inp, dels, adds);
    var r := DeletionOf(inp, order, d.restDel[k]);
  }

  lemma PlannedUpload(inp: Inputs, order: seq<Path>, u: SyncAction)
    requires u in PlanOf(inp, order) && u.Upload?
    ensures var ds := Decisions(inp, order);
      u in Direct(ds) || u in UploadActions(inp.local, PairingOf(inp, Deletions(ds), Additions(ds)).restAdd)
  {
    hide Decide, Matches, Detect, Direct, Deletions, Additions;
  }

  lemma DirectUpload(inp: Inputs, order: seq<Path>, u: SyncAction, q: Path)
    requires u in Direct(Decisions(inp, order)) && q in ClaimList(u)
    ensures DecideAt(inp, q).Act?
  {
    hide Decide;
    var ds := Decisions(inp, order);
    DirectMember(ds, u);
    var i :| 0 <= i < |ds| && ds[i] == Act(u);
    DecisionAbout(inp, order[i]);
  }

  lemma LeftAddition(inp: Inputs, order: seq<Path>, q: Path) returns (c: CandidateItem)
    requires Enumerates(order, inp.Paths())
    requires DecideAt(inp, q).Add? && exists u :: u in PlanOf(inp, order) && u.Upload? && q in ClaimList(u)
    ensures c == DecideAt(inp, q).item
    ensures c in Additions(Decisions(inp, order))
    ensures c in PairingOf(inp, Deletions(Decisions(inp, order)), Additions(Decisions(inp, order))).restAdd
  {
    hide Decide, Matches, Detect, PlanOf, Direct, Deletions, Additions, PairingOf;
    var ds := Decisions(inp, order);
    var dels, adds := Deletions(ds), Additions(ds);
    var d := PairingOf(inp, dels, adds);
    c := DecideAt(inp, q).item;
    DecisionAbout(inp, q);
    var u :| u in PlanOf(inp, order) && u.Upload? && q in ClaimList(u);
    PlannedUpload(inp, order, u);
    if u in Direct(ds) {
      DirectUpload(inp, order, u, q);
    }
    var k :| 0 <= k < |d.restAdd| && UploadActions(inp.local, d.restAdd)[k] == u;
    PairingMember(inp, dels, adds);
    var r := AdditionOf(inp, order, d.restAdd[k]);
  }
}
