/** How many files a plan moves, when it moves any, and what of this depends on the order of the walk. */
module Moves {
  import opened Prelude
  import opened SyncTypes
  import opened RenameDetector
  import opened Optimality
  import opened Planner
  import opened Ownership

  /** One path disappeared locally, the other is new there, and they look like the same file. */
  predicate CanPair(inp: Inputs, p: Path, q: Path) {
    && DecideAt(inp, p).Delete?
    && DecideAt(inp, q).Add?
    && Matches(DecideAt(inp, p).item, DecideAt(inp, q).item)
  }

  ghost predicate MovePossible(inp: Inputs) {
    inp.canMove && exists p, q :: CanPair(inp, p, q)
  }

  ghost predicate HasMove(plan: seq<SyncAction>) {
    exists m :: m in plan && m.ServerSideMove?
  }

  function IsMove(): SyncAction -> bool { (a: SyncAction) => a.ServerSideMove? }

  function MoveCount(plan: seq<SyncAction>): nat { CountIf(IsMove(), plan) }

  function DelsOf(inp: Inputs, order: seq<Path>): seq<CandidateItem> { Deletions(Decisions(inp, order)) }

  function AddsOf(inp: Inputs, order: seq<Path>): seq<CandidateItem> { Additions(Decisions(inp, order)) }

  // ---------------------------------------------------------------- Candidates are the same for every walk

  lemma CandidateMembers(inp: Inputs, order: seq<Path>, c: CandidateItem)
    requires Enumerates(order, inp.Paths())
    ensures c in DelsOf(inp, order) <==> DecideAt(inp, c.relPath) == Delete(c)
    ensures c in AddsOf(inp, order) <==> DecideAt(inp, c.relPath) == Add(c)
  {
    hide Decide;
    var ds := Decisions(inp, order);
    DeletionMember(ds, c);
    AdditionMember(ds, c);
    if c in Deletions(ds) {
      var p := DeletionOf(inp, order, c);
    }
    if c in Additions(ds) {
      var p := AdditionOf(inp, order, c);
    }
    if Active(inp, c.relPath) {
      ActiveIsListed(inp, c.relPath);
      var i :| 0 <= i < |order| && order[i] == c.relPath;
      assert ds[i] == DecideAt(inp, c.relPath);
    }
  }

  lemma OncePerPath(inp: Inputs, order: seq<Path>, p: Path)
    requires Enumerates(order, inp.Paths())
    ensures CountIf(Names(p), DelsOf(inp, order)) <= 1 && CountIf(Names(p), AddsOf(inp, order)) <= 1
  {
    hide Decide;
    var ds := Decisions(inp, order);
    forall i | 0 <= i < |order| ensures About(order[i], ds[i]) {
      DecisionAbout(inp, order[i]);
    }
    LoopOwners(order, ds, p, Active(inp, p));
    DistinctCounts(order, p);
  }

  lemma CandidatesDistinct(inp: Inputs, order: seq<Path>)
    requires Enumerates(order, inp.Paths())
    ensures Distinct(DelsOf(inp, order)) && Distinct(AddsOf(inp, order))
  {
    hide Decide, Deletions, Additions;
    var dels, adds := DelsOf(inp, order), AddsOf(inp, order);
    forall c ensures CountIf(Is(c), dels) <= 1 && CountIf(Is(c), adds) <= 1 {
      OncePerPath(inp, order, c.relPath);
      CountIfPointwise(Is(c), dels, Names(c.relPath), dels);
      CountIfPointwise(Is(c), adds, Names(c.relPath), adds);
    }
    CountsDistinct(dels);
    CountsDistinct(adds);
  }

  lemma SameCandidates(inp: Inputs, order1: seq<Path>, order2: seq<Path>)
    requires Enumerates(order1, inp.Paths()) && Enumerates(order2, inp.Paths())
    ensures multiset(DelsOf(inp, order1)) == multiset(DelsOf(inp, order2))
    ensures multiset(AddsOf(inp, order1)) == multiset(AddsOf(inp, order2))
  {
    hide Decide, DelsOf, AddsOf;
    forall c ensures (c in DelsOf(inp, order1) <==> c in DelsOf(inp, order2)) && (c in AddsOf(inp, order1) <==> c in AddsOf(inp, order2)) {
      CandidateMembers(inp, order1, c);
      CandidateMembers(inp, order2, c);
    }
    CandidatesDistinct(inp, order1);
    CandidatesDistinct(inp, order2);
    SameElements(DelsOf(inp, order1), DelsOf(inp, order2));
    SameElements(AddsOf(inp, order1), AddsOf(inp, order2));
  }

  // ---------------------------------------------------------------- How many moves a plan holds

  lemma {:induction false} AllMoves(moves: seq<DetectedMove>)
    ensures MoveCount(MoveActions(moves)) == |moves|
  {
    if moves != [] {
      var init, last := moves[..|moves| - 1], moves[|moves| - 1];
      AllMoves(init);
      assert MoveActions(moves) == MoveActions(init) + [ServerSideMove(last.from, last.to)];
      CountIfSnoc(IsMove(), MoveActions(init), ServerSideMove(last.from, last.to));
    }
  }

  lemma NoMoves(actions: seq<SyncAction>)
    requires forall a :: a in actions ==> !a.ServerSideMove?
    ensures MoveCount(actions) == 0
  {
    CountIfNone(IsMove(), actions);
  }

  lemma PlanMoves(inp: Inputs, order: seq<Path>)
    ensures MoveCount(PlanOf(inp, order)) == |PairingOf(inp, DelsOf(inp, order), AddsOf(inp, order)).pairs|
  {
    hide Decide, Detect;
    var ds := Decisions(inp, order);
    var d := PairingOf(inp, Deletions(ds), Additions(ds));
    var moves, deletes, uploads := MoveActions(MovesOf(d.pairs)), DeleteActions(d.restDel), UploadActions(inp.local, d.restAdd);
    CountIfAppend(IsMove(), Direct(ds), moves + deletes + uploads);
    CountIfAppend(IsMove(), moves + deletes, uploads);
    CountIfAppend(IsMove(), moves, deletes);
    forall a | a in Direct(ds) ensures !a.ServerSideMove? {
      PlainDirect(ds, inp, order, a);
    }
    NoMoves(Direct(ds));
    NoMoves(deletes);
    NoMoves(uploads);
    AllMoves(MovesOf(d.pairs));
  }

  lemma NothingToPair(dels: seq<CandidateItem>, adds: seq<CandidateItem>, q: Pairs)
    requires IsMatching(q, dels, adds) && (dels == [] || adds == [])
    ensures q == []
  {
    hide Matches;
    assert |multiset(Firsts(q))| + |multiset(dels) - multiset(Firsts(q))| == |multiset(dels)|;
    assert |multiset(Seconds(q))| + |multiset(adds) - multiset(Seconds(q))| == |multiset(adds)|;
  }

  lemma PairedWalk(inp: Inputs, order: seq<Path>, q: Pairs)
    requires inp.canMove && Optimal(DelsOf(inp, order), AddsOf(inp, order))
    requires IsMatching(q, DelsOf(inp, order), AddsOf(inp, order))
    ensures |q| <= MoveCount(PlanOf(inp, order))
  {
    hide DelsOf, AddsOf, PlanOf, IsMatching, Detect;
    PlanMoves(inp, order);
    if DelsOf(inp, order) == [] || AddsOf(inp, order) == [] {
      NothingToPair(DelsOf(inp, order), AddsOf(inp, order), q);
    }
  }

  lemma LocalAdditions(inp: Inputs, order: seq<Path>)
    requires Enumerates(order, inp.Paths())
    requires forall p :: p in inp.local ==> inp.local[p].checksum == None
    ensures forall c :: c in AddsOf(inp, order) ==> c.checksum == None
  {
    hide Decide;
    forall c | c in AddsOf(inp, order) ensures c.checksum == None {
      CandidateMembers(inp, order, c);
      AdditionHasLocalChecksum(inp, c.relPath);
    }
  }

  lemma AdditionHasLocalChecksum(inp: Inputs, p: Path)
    ensures DecideAt(inp, p).Add? ==> p in inp.local && DecideAt(inp, p).item.checksum == inp.local[p].checksum
  {}

  /**
   * If the local scan computes no checksums and the backend can move files, the plan of any walk holds as many moves
   * as any one-to-one pairing of the disappeared and the new paths that meets the match test.
   */
  lemma PlanHasMostMoves(inp: Inputs, order: seq<Path>, order2: seq<Path>, q: Pairs)
    requires inp.canMove && forall p :: p in inp.local ==> inp.local[p].checksum == None
    requires Enumerates(order, inp.Paths()) && Enumerates(order2, inp.Paths())
    requires IsMatching(q, DelsOf(inp, order2), AddsOf(inp, order2))
    ensures |q| <= MoveCount(PlanOf(inp, order))
  {
    hide DelsOf, AddsOf, PlanOf, Detect, Decide;
    SameCandidates(inp, order, order2);
    LocalAdditions(inp, order);
    OptimalWithoutChecksums(DelsOf(inp, order), AddsOf(inp, order));
    PairedWalk(inp, order, q);
  }

  /** The plans of all walks then hold equally many moves. */
  lemma SameNumberOfMoves(inp: Inputs, order1: seq<Path>, order2: seq<Path>)
    requires forall p :: p in inp.local ==> inp.local[p].checksum == None
    requires Enumerates(order1, inp.Paths()) && Enumerates(order2, inp.Paths())
    ensures MoveCount(PlanOf(inp, order1)) == MoveCount(PlanOf(inp, order2))
  {
    hide DelsOf, AddsOf, PlanOf, Detect, Decide;
    PlanMoves(inp, order1);
    PlanMoves(inp, order2);
    if inp.canMove {
      var d1 := PairingOf(inp, DelsOf(inp, order1), AddsOf(inp, order1));
      var d2 := PairingOf(inp, DelsOf(inp, order2), AddsOf(inp, order2));
      PairingIsMatching(inp, DelsOf(inp, order1), AddsOf(inp, order1));
      PairingIsMatching(inp, DelsOf(inp, order2), AddsOf(inp, order2));
      PlanHasMostMoves(inp, order1, order2, d2.pairs);
      PlanHasMostMoves(inp, order2, order1, d1.pairs);
    }
  }

  lemma PairingIsMatching(inp: Inputs, dels: seq<CandidateItem>, adds: seq<CandidateItem>)
    ensures IsMatching(PairingOf(inp, dels, adds).pairs, dels, adds)
  {
    hide Matches;
    MatchingQuality(dels, adds, []);
  }

  // ---------------------------------------------------------------- When a plan moves a file

  lemma SomePair(inp: Inputs, order: seq<Path>, p: Path, q: Path)
    requires Enumerates(order, inp.Paths())
    requires inp.canMove && CanPair(inp, p, q)
    ensures HasMove(PlanOf(inp, order))
  {
    hide Decide, Matches, PlanOf;
    var a := PlanServes(inp, order, p);
    var b := PlanServes(inp, order, q);
    if !a.ServerSideMove? && !b.ServerSideMove? {
      LeftoversDoNotMatch(inp, order, p, q);
    }
  }

  /** A plan moves a file exactly if the backend can and some disappeared path matches some new one. */
  lemma MovesExactly(inp: Inputs, order: seq<Path>)
    requires Enumerates(order, inp.Paths())
    ensures HasMove(PlanOf(inp, order)) <==> MovePossible(inp)
  {
    hide Decide, Matches, PlanOf;
    if m :| m in PlanOf(inp, order) && m.ServerSideMove? {
      MoveJoins(inp, order, m);
      assert CanPair(inp, m.from, m.to);
    }
    if MovePossible(inp) {
      var p, q :| CanPair(inp, p, q);
      SomePair(inp, order, p, q);
    }
  }

  // ---------------------------------------------------------------- Whether the walk matters

  /** Each disappeared path matches one new path at most, and the other way round. */
  ghost predicate NoChoice(inp: Inputs) {
    && (forall p, q, r :: CanPair(inp, p, q) && CanPair(inp, p, r) ==> q == r)
    && (forall p, q, r :: CanPair(inp, p, r) && CanPair(inp, q, r) ==> p == q)
  }

  ghost predicate SamePlan(plan1: seq<SyncAction>, plan2: seq<SyncAction>) {
    multiset(plan1) == multiset(plan2)
  }

  /** The plans of all walks are permutations of each other. */
  ghost predicate WalkDoesNotMatter(inp: Inputs) {
    forall order1, order2 :: Enumerates(order1, inp.Paths()) && Enumerates(order2, inp.Paths()) ==>
      SamePlan(PlanOf(inp, order1), PlanOf(inp, order2))
  }

  lemma MoveInBoth(inp: Inputs, order1: seq<Path>, order2: seq<Path>, m: SyncAction)
    requires Enumerates(order1, inp.Paths()) && Enumerates(order2, inp.Paths())
    requires NoChoice(inp)
    requires m in PlanOf(inp, order1) && m.ServerSideMove?
    ensures m in PlanOf(inp, order2)
  {
    hide Decide, Matches, PlanOf;
    MoveJoins(inp, order1, m);
    assert CanPair(inp, m.from, m.to);
    var a := PlanServes(inp, order2, m.from);
    var b := PlanServes(inp, order2, m.to);
    if a.ServerSideMove? {
      MoveJoins(inp, order2, a);
      assert CanPair(inp, a.from, a.to);
      assert a == ServerSideMove(a.from, a.to);
    } else if b.ServerSideMove? {
      MoveJoins(inp, order2, b);
      assert CanPair(inp, b.from, b.to);
      assert b == ServerSideMove(b.from, b.to);
    } else {
      LeftoversDoNotMatch(inp, order2, m.from, m.to);
    }
  }

  lemma ActionInBoth(inp: Inputs, order1: seq<Path>, order2: seq<Path>, a: SyncAction)
    requires Enumerates(order1, inp.Paths()) && Enumerates(order2, inp.Paths())
    requires !inp.canMove || NoChoice(inp)
    requires a in PlanOf(inp, order1)
    ensures a in PlanOf(inp, order2)
  {
    hide Decide, Matches, PlanOf, NoChoice;
    if a.ServerSideMove? {
      MoveJoins(inp, order1, a);
      MoveInBoth(inp, order1, order2, a);
    } else {
      var p := ClaimList(a)[0];
      OwnerRealises(inp, order1, a, p);
      var b := PlanServes(inp, order2, p);
      if b.ServerSideMove? {
        MoveJoins(inp, order2, b);
        MoveInBoth(inp, order2, order1, b);
        OneOwner(inp, order1, a, b, p);
      }
    }
  }

  lemma SamePlans(inp: Inputs, order1: seq<Path>, order2: seq<Path>)
    requires Enumerates(order1, inp.Paths()) && Enumerates(order2, inp.Paths())
    requires !inp.canMove || NoChoice(inp)
    ensures SamePlan(PlanOf(inp, order1), PlanOf(inp, order2))
  {
    hide Decide, Matches, PlanOf, NoChoice;
    var plan1, plan2 := PlanOf(inp, order1), PlanOf(inp, order2);
    forall a ensures multiset(plan1)[a] == multiset(plan2)[a] {
      PlanCounts(inp, order1, a);
      PlanCounts(inp, order2, a);
      CountIsMultiplicity(plan1, a);
      CountIsMultiplicity(plan2, a);
      if a in plan1 { ActionInBoth(inp, order1, order2, a); }
      if a in plan2 { ActionInBoth(inp, order2, order1, a); }
    }
  }

  /** A walk can begin with any two paths. */
  lemma WalkFrom(s: set<Path>, p: Path, q: Path) returns (order: seq<Path>)
    requires p in s && q in s && p != q
    ensures Enumerates(order, s) && |order| >= 2 && order[0] == p && order[1] == q
  {
    var rest := SomeWalk(s - {p, q});
    order := [p, q] + rest;
    forall i, j | 0 <= i < j < |order| ensures order[i] != order[j] {
      if j >= 2 {
        assert order[j] == rest[j - 2];
        if i >= 2 {
          assert order[i] == rest[i - 2];
        }
      }
    }
    forall x | x in s ensures x in order {
      if x != p && x != q {
        assert x in rest;
      }
    }
  }

  lemma SomeWalk(s: set<Path>) returns (order: seq<Path>)
    ensures Enumerates(order, s)
  {
    if s == {} {
      order := [];
    } else {
      var x :| x in s;
      var rest := SomeWalk(s - {x});
      EnumeratesSnoc(rest, s - {x}, x);
      assert s - {x} + {x} == s;
      order := rest + [x];
    }
  }

  lemma {:induction false} FirstCandidates(ds: seq<Decision>)
    requires |ds| >= 2 && ds[0].Delete? && ds[1].Add?
    ensures Deletions(ds) != [] && Deletions(ds)[0] == ds[0].item
    ensures Additions(ds) != [] && Additions(ds)[0] == ds[1].item
  {
    var init := ds[..|ds| - 1];
    if |ds| == 2 {
      assert init == [ds[0]] && init[..0] == [];
      assert Deletions(init) == Deletions(init[..0]) + [ds[0].item];
      assert Additions(init) == Additions(init[..0]) == [];
    } else {
      FirstCandidates(init);
    }
  }

  lemma {:induction false} FirstPair(dels: seq<CandidateItem>, adds: seq<CandidateItem>)
    requires dels != [] && adds != [] && Matches(dels[0], adds[0])
    ensures var d := Detect(dels, adds); d.pairs != [] && d.pairs[0] == (dels[0], adds[0])
  {
    hide Matches;
    if |dels| == 1 {
      assert dels == [] + [dels[0]];
      DetectSnoc([], dels[0], adds);
    } else {
      FirstPair(dels[..|dels| - 1], adds);
    }
  }

  /** If two matching paths come first in the walk, one is moved to the other. */
  lemma FirstTwoMove(inp: Inputs, order: seq<Path>, p: Path, q: Path)
    requires inp.canMove && CanPair(inp, p, q)
    requires |order| >= 2 && order[0] == p && order[1] == q
    ensures ServerSideMove(p, q) in PlanOf(inp, order)
  {
    hide Decide, Matches, Detect, Deletions, Additions;
    var ds := Decisions(inp, order);
    assert ds[0] == DecideAt(inp, p) && ds[1] == DecideAt(inp, q);
    DecisionAbout(inp, p);
    DecisionAbout(inp, q);
    FirstCandidates(ds);
    FirstPair(Deletions(ds), Additions(ds));
    var d := PairingOf(inp, Deletions(ds), Additions(ds));
    assert MoveActions(MovesOf(d.pairs))[0] == ServerSideMove(p, q);
  }

  /** Two pairs that share a path lead to plans that differ. */
  lemma ChoiceMatters(inp: Inputs, p1: Path, q1: Path, p2: Path, q2: Path)
    requires inp.canMove && CanPair(inp, p1, q1) && CanPair(inp, p2, q2)
    requires (p1 == p2 && q1 != q2) || (p1 != p2 && q1 == q2)
    ensures !WalkDoesNotMatter(inp)
  {
    hide Decide, Matches, PlanOf;
    ActiveIsListed(inp, p1); ActiveIsListed(inp, q1); ActiveIsListed(inp, p2); ActiveIsListed(inp, q2);
    var order1 := WalkFrom(inp.Paths(), p1, q1);
    var order2 := WalkFrom(inp.Paths(), p2, q2);
    FirstTwoMove(inp, order1, p1, q1);
    FirstTwoMove(inp, order2, p2, q2);
    if SamePlan(PlanOf(inp, order1), PlanOf(inp, order2)) {
      var m1, m2 := ServerSideMove(p1, q1), ServerSideMove(p2, q2);
      assert m2 in multiset(PlanOf(inp, order2));
      assert m2 in multiset(PlanOf(inp, order1));
      OneOwner(inp, order1, m1, m2, if p1 == p2 then p1 else q1);
    }
  }

  /**
   * The plan does not depend on the order in which the paths are walked if and only if the backend cannot move files
   * or no candidate matches two others.
   */
  lemma {:induction false} WalkMatters(inp: Inputs)
    ensures WalkDoesNotMatter(inp) <==> !inp.canMove || NoChoice(inp)
  {
    hide Decide, CanPair, PlanOf, SamePlan;
    if !inp.canMove || NoChoice(inp) {
      forall order1, order2 | Enumerates(order1, inp.Paths()) && Enumerates(order2, inp.Paths())
        ensures SamePlan(PlanOf(inp, order1), PlanOf(inp, order2))
      {
        SamePlans(inp, order1, order2);
      }
    } else if p, q, r :| CanPair(inp, p, q) && CanPair(inp, p, r) && q != r {
      ChoiceMatters(inp, p, q, p, r);
    } else {
      var p, q, r :| CanPair(inp, p, r) && CanPair(inp, q, r) && p != q;
      ChoiceMatters(inp, p, r, q, r);
    }
  }

  // ---------------------------------------------------------------- The smallest case

  function OneByte(): ScannedItem { ScannedItem(1, 0, false, None, None) }

  function Known(): FileState { FileState(1, 0, 0, Some(false), None, None) }

  const AX: Path := ['a', '/', 'x']
  const BX: Path := ['b', '/', 'x']
  const CX: Path := ['c', '/', 'x']

  /** Two files of one name and size have disappeared locally, a third one is new. */
  function TwoGoneOneNew(mode: SyncMode, policy: ConflictPolicy): Inputs {
    Inputs(map[CX := OneByte()], map[AX := OneByte(), BX := OneByte()], map[AX := Known(), BX := Known()], mode, policy, true)
  }

  lemma DifferentPaths()
    ensures AX != BX && AX != CX && BX != CX
  {
    assert AX[0] == 'a' && BX[0] == 'b' && CX[0] == 'c';
  }

  lemma SameNames()
    ensures Matches(CandidateItem(AX, 1, None), CandidateItem(CX, 1, None))
    ensures Matches(CandidateItem(BX, 1, None), CandidateItem(CX, 1, None))
  {
    NameInFolder('a', 'x'); NameInFolder('b', 'x'); NameInFolder('c', 'x');
    hide FileName;
  }

  lemma GoneDecision(inp: Inputs, p: Path)
    requires inp.mode != OneWayNoDeletions && p !in inp.local && p in inp.remote && p in inp.base && inp.base[p] == Known()
    ensures DecideAt(inp, p) == Delete(CandidateItem(p, 1, None))
  {}

  lemma NewDecision(inp: Inputs, p: Path)
    requires p in inp.local && inp.local[p] == OneByte() && p !in inp.remote && p !in inp.base
    ensures DecideAt(inp, p) == Add(CandidateItem(p, 1, None))
  {}

  lemma ThreeCandidates(mode: SyncMode, policy: ConflictPolicy)
    requires mode != OneWayNoDeletions
    ensures var inp := TwoGoneOneNew(mode, policy);
      && CanPair(inp, AX, CX) && CanPair(inp, BX, CX)
      && inp.Paths() == {AX, BX, CX}
  {
    hide Decide, Matches;
    var inp := TwoGoneOneNew(mode, policy);
    DifferentPaths();
    SameNames();
    hide AX, BX, CX;
    GoneDecision(inp, AX);
    GoneDecision(inp, BX);
    NewDecision(inp, CX);
  }

  lemma OneMore(ds: seq<Decision>, d: Decision)
    ensures Direct(ds + [d]) == if d.Act? then Direct(ds) + [d.action] else Direct(ds)
    ensures Deletions(ds + [d]) == if d.Delete? then Deletions(ds) + [d.item] else Deletions(ds)
    ensures Additions(ds + [d]) == if d.Add? then Additions(ds) + [d.item] else Additions(ds)
  {
    assert (ds + [d])[..|ds|] == ds;
  }

  lemma ThreeDecisions(d0: Decision, d1: Decision, d2: Decision)
    requires d0.Delete? && d1.Delete? && d2.Add?
    ensures Direct([d0, d1, d2]) == []
    ensures Deletions([d0, d1, d2]) == [d0.item, d1.item] && Additions([d0, d1, d2]) == [d2.item]
  {
    var none: seq<Decision> := [];
    assert Direct(none) == [] && Deletions(none) == [] && Additions(none) == [];
    hide Direct, Deletions, Additions;
    assert [d0] == none + [d0] && [d0, d1] == [d0] + [d1] && [d0, d1, d2] == [d0, d1] + [d2];
    OneMore(none, d0);
    OneMore([d0], d1);
    OneMore([d0, d1], d2);
  }

  lemma FirstOfTwo(d0: CandidateItem, d1: CandidateItem, a: CandidateItem)
    requires Matches(d0, a)
    ensures Detect([d0, d1], [a]) == Pairing([(d0, a)], [d1], [])
  {
    hide Matches;
    assert [d0] == [] + [d0] && [d0, d1] == [d0] + [d1];
    DetectSnoc([], d0, [a]);
    assert RemoveAt([a], 0) == [];
    DetectSnoc([d0], d1, [a]);
  }

  /** In either order of the first two paths the first one is moved and the other one deleted. */
  lemma FirstIsMoved(inp: Inputs, p: Path, q: Path, r: Path)
    requires inp.canMove && CanPair(inp, p, r) && DecideAt(inp, q).Delete?
    ensures PlanOf(inp, [p, q, r]) == [ServerSideMove(p, r), DeleteRemote(q)]
  {
    DecisionAbout(inp, p); DecisionAbout(inp, q); DecisionAbout(inp, r);
    hide Decide, Matches, Direct, Deletions, Additions, Detect;
    var d0, d1, d2 := DecideAt(inp, p), DecideAt(inp, q), DecideAt(inp, r);
    assert Decisions(inp, [p, q, r]) == [d0, d1, d2];
    ThreeDecisions(d0, d1, d2);
    FirstOfTwo(d0.item, d1.item, d2.item);
    var moves := MovesOf([(d0.item, d2.item)]);
    assert MoveActions(moves) == [ServerSideMove(p, r)];
    assert DeleteActions([d1.item]) == [DeleteRemote(q)];
    assert UploadActions(inp.local, []) == [];
  }

  /** Which of the two files is moved and which is deleted depends on the order of the walk alone. */
  lemma TwoWalks(mode: SyncMode, policy: ConflictPolicy)
    requires mode != OneWayNoDeletions
    ensures var inp := TwoGoneOneNew(mode, policy);
      && inp.Paths() == {AX, BX, CX}
      && PlanOf(inp, [AX, BX, CX]) == [ServerSideMove(AX, CX), DeleteRemote(BX)]
      && PlanOf(inp, [BX, AX, CX]) == [ServerSideMove(BX, CX), DeleteRemote(AX)]
  {
    ThreeCandidates(mode, policy);
    hide Decide, Matches, PlanOf;
    var inp := TwoGoneOneNew(mode, policy);
    FirstIsMoved(inp, AX, BX, CX);
    FirstIsMoved(inp, BX, AX, CX);
  }
}
