/** Three-way planning: base, local and remote are compared path by path, then deletions and additions are paired. */
module Planner {
  import opened Prelude
  import opened SyncTypes
  import opened RenameDetector

  datatype Inputs = Inputs(
    local: Tree, remote: Tree, base: Catalogue, mode: SyncMode, policy: ConflictPolicy, canMove: bool)
  {
    function Paths(): set<Path> { local.Keys + remote.Keys + base.Keys }
  }

  /** What the path loop does with one path: plan an action now, or keep it as a candidate for the move phase. */
  datatype Decision = Nothing | Act(action: SyncAction) | Delete(item: CandidateItem) | Add(item: CandidateItem)

  predicate LocalChanged(l: ScannedItem, s: FileState) {
    || l.size != s.size
    || l.modified != s.localModified
    || (l.checksum.Some? && s.checksum.Some? && l.checksum != s.checksum)
  }

  predicate RemoteChanged(r: ScannedItem, s: FileState) {
    || r.size != s.size
    || r.modified != s.remoteModified
    || (r.checksum.Some? && s.checksum.Some? && r.checksum != s.checksum)
  }

  predicate SameContent(l: ScannedItem, r: ScannedItem) {
    if l.checksum.Some? && r.checksum.Some? then l.checksum == r.checksum
    else l.size == r.size && l.size == 0
  }

  function Converged(l: ScannedItem, r: ScannedItem): FileState {
    FileState(l.size, l.modified, r.modified, Some(l.isDir), OrElse(l.checksum, r.checksum), OrElse(l.permissions, r.permissions))
  }

  function BothDiffer(p: Path, l: ScannedItem, r: ScannedItem, policy: ConflictPolicy): SyncAction {
    if SameContent(l, r) then ConvergeState(p, Converged(l, r))
    else Conflict(p, Resolve(policy, p, l.modified, r.modified))
  }

  function DownloadOf(p: Path, r: ScannedItem): SyncAction {
    Download(p, p, r.size, r.checksum, r.permissions)
  }

  function Decide(p: Path, local: Option<ScannedItem>, remote: Option<ScannedItem>, state: Option<FileState>,
                  mode: SyncMode, policy: ConflictPolicy): Decision
  {
    match (local, remote, state)
    case (Some(l), Some(r), Some(s)) =>
      if LocalChanged(l, s) && RemoteChanged(r, s) then Act(BothDiffer(p, l, r, policy))
      else if LocalChanged(l, s) then Act(Upload(p, p, l.size))
      else if RemoteChanged(r, s) && mode.SyncBoth() then Act(DownloadOf(p, r))
      else Nothing
    case (Some(l), None, None) => Add(CandidateItem(p, l.size, l.checksum))
    case (None, Some(r), None) => if mode.SyncBoth() then Act(DownloadOf(p, r)) else Nothing
    case (None, Some(_), Some(s)) =>
      if mode.SyncDeletions() then Delete(CandidateItem(p, s.size, s.checksum)) else Nothing
    case (Some(l), None, Some(_)) =>
      if mode.SyncBoth() && mode.SyncDeletions() then Act(DeleteLocal(p))
      else if !mode.SyncBoth() then Act(Upload(p, p, l.size))
      else Nothing
    case (Some(l), Some(r), None) => Act(BothDiffer(p, l, r, policy))
    case (None, None, _) => Nothing
  }

  function DecideAt(inp: Inputs, p: Path): Decision {
    Decide(p, Lookup(inp.local, p), Lookup(inp.remote, p), Lookup(inp.base, p), inp.mode, inp.policy)
  }

  function Decisions(inp: Inputs, order: seq<Path>): seq<Decision> {
    seq(|order|, i requires 0 <= i < |order| => DecideAt(inp, order[i]))
  }

  function Direct(ds: seq<Decision>): seq<SyncAction> {
    if ds == [] then []
    else
      var before := Direct(ds[..|ds| - 1]);
      match ds[|ds| - 1]
      case Act(a) => before + [a]
      case _ => before
  }

  function Deletions(ds: seq<Decision>): seq<CandidateItem> {
    if ds == [] then []
    else
      var before := Deletions(ds[..|ds| - 1]);
      match ds[|ds| - 1]
      case Delete(c) => before + [c]
      case _ => before
  }

  function Additions(ds: seq<Decision>): seq<CandidateItem> {
    if ds == [] then []
    else
      var before := Additions(ds[..|ds| - 1]);
      match ds[|ds| - 1]
      case Add(c) => before + [c]
      case _ => before
  }

  function MoveActions(moves: seq<DetectedMove>): seq<SyncAction> {
    seq(|moves|, i requires 0 <= i < |moves| => ServerSideMove(moves[i].from, moves[i].to))
  }

  function DeleteActions(dels: seq<CandidateItem>): seq<SyncAction> {
    seq(|dels|, i requires 0 <= i < |dels| => DeleteRemote(dels[i].relPath))
  }

  function UploadOf(local: Tree, c: CandidateItem): SyncAction {
    Upload(c.relPath, c.relPath, if c.relPath in local then local[c.relPath].size else c.size)
  }

  function UploadActions(local: Tree, adds: seq<CandidateItem>): seq<SyncAction> {
    seq(|adds|, i requires 0 <= i < |adds| => UploadOf(local, adds[i]))
  }

  /** The pairing the move phase uses: none without server-side moves. */
  function PairingOf(inp: Inputs, dels: seq<CandidateItem>, adds: seq<CandidateItem>): Pairing {
    if inp.canMove && dels != [] && adds != [] then Detect(dels, adds) else Pairing([], dels, adds)
  }

  function LastPhase(inp: Inputs, dels: seq<CandidateItem>, adds: seq<CandidateItem>): seq<SyncAction> {
    var d := PairingOf(inp, dels, adds);
    MoveActions(MovesOf(d.pairs)) + DeleteActions(d.restDel) + UploadActions(inp.local, d.restAdd)
  }

  /** The plan, given the order in which the path set is walked. */
  function PlanOf(inp: Inputs, order: seq<Path>): seq<SyncAction> {
    var ds := Decisions(inp, order);
    Direct(ds) + LastPhase(inp, Deletions(ds), Additions(ds))
  }

  method AddAll(plan: SyncPlan, more: seq<SyncAction>)
    requires plan.Valid()
    modifies plan
    ensures plan.Valid() && plan.actions == old(plan.actions) + more
  {
    for i := 0 to |more|
      invariant plan.Valid() && plan.actions == old(plan.actions) + more[..i]
    {
      plan.AddAction(more[i]);
    }
  }

  /** Rename detection, if the backend can move files, and what it leaves over. */
  method AddLastPhase(plan: SyncPlan, inp: Inputs, dels: seq<CandidateItem>, adds: seq<CandidateItem>)
    requires plan.Valid()
    modifies plan
    ensures plan.Valid() && plan.actions == old(plan.actions) + LastPhase(inp, dels, adds)
  {
    var restDel, restAdd := dels, adds;
    ghost var before := plan.actions;
    ghost var d := PairingOf(inp, dels, adds);
    if inp.canMove && dels != [] && adds != [] {
      var moves;
      moves, restDel, restAdd := DetectMoves(dels, adds);
      AddAll(plan, MoveActions(moves));
    }
    assert plan.actions == before + MoveActions(MovesOf(d.pairs));
    AddAll(plan, DeleteActions(restDel));
    ConcatAssociates(before, MoveActions(MovesOf(d.pairs)), DeleteActions(d.restDel));
    AddAll(plan, UploadActions(inp.local, restAdd));
    ConcatAssociates(before, MoveActions(MovesOf(d.pairs)) + DeleteActions(d.restDel), UploadActions(inp.local, d.restAdd));
  }

  method Plan(inp: Inputs) returns (plan: SyncPlan, ghost walked: seq<Path>)
    ensures fresh(plan) && plan.Valid()
    ensures Enumerates(walked, inp.Paths())
    ensures plan.actions == PlanOf(inp, walked)
  {
    hide Decide, LastPhase;
    plan := new SyncPlan();
    var order := Walk(inp.Paths());
    ghost var ds := Decisions(inp, order);
    var candidateDeletions, candidateAdditions := [], [];
    for i := 0 to |order|
      invariant fresh(plan) && plan.Valid()
      invariant plan.actions == Direct(ds[..i])
      invariant candidateDeletions == Deletions(ds[..i])
      invariant candidateAdditions == Additions(ds[..i])
    {
      assert ds[..i + 1][..i] == ds[..i];
      var d := DecideAt(inp, order[i]);
      assert d == ds[i];
      match d {
        case Act(a) => plan.AddAction(a);
        case Delete(c) => candidateDeletions := candidateDeletions + [c];
        case Add(c) => candidateAdditions := candidateAdditions + [c];
        case Nothing =>
      }
    }
    assert ds[..|ds|] == ds;
    walked := order;
    AddLastPhase(plan, inp, candidateDeletions, candidateAdditions);
  }
}
