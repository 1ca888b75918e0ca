/** What a plan holds, read off the mode and the three trees. */
module PlanContents {
  import opened Prelude
  import opened SyncTypes
  import opened Planner
  import opened Ownership

  /** Two optional checksums that do not contradict each other. */
  predicate Compatible(a: Option<string>, b: Option<string>) {
    a == None || b == None || a == b
  }

  /** The local file is as the catalogue has it. */
  predicate AsCatalogued(l: ScannedItem, s: FileState) {
    (l.size, l.modified) == (s.size, s.localModified) && Compatible(l.checksum, s.checksum)
  }

  /** The remote file is as the catalogue has it. */
  predicate AsLastSeen(r: ScannedItem, s: FileState) {
    (r.size, r.modified) == (s.size, s.remoteModified) && Compatible(r.checksum, s.checksum)
  }

  /** Known to be equal: by checksum if both have one, otherwise only if both are empty. */
  predicate KnownEqual(l: ScannedItem, r: ScannedItem) {
    || (l.checksum.Some? && r.checksum == l.checksum)
    || (!(l.checksum.Some? && r.checksum.Some?) && l.size == 0 == r.size)
  }

  /** The local file is sent to the remote side, or the remote side is to get it by a move. */
  ghost predicate Delivers(plan: seq<SyncAction>, p: Path) {
    exists a :: a in plan && ((a.Upload? && a.remotePath == p) || (a.ServerSideMove? && a.to == p))
  }

  ghost predicate Downloads(plan: seq<SyncAction>, p: Path) {
    exists a :: a in plan && a.Download? && a.localPath == p
  }

  ghost predicate Conflicts(plan: seq<SyncAction>, p: Path) {
    exists a :: a in plan && a.Conflict? && a.relPath == p
  }

  ghost predicate Converges(plan: seq<SyncAction>, p: Path) {
    exists a :: a in plan && a.ConvergeState? && a.relPath == p
  }

  /** An action that claims the path carries out the decision about it, and is not a move to where it comes from. */
  ghost predicate FollowsDecision(inp: Inputs, p: Path, a: SyncAction) {
    && Realises(inp, p, a)
    && (a.ServerSideMove? ==> DecideAt(inp, a.from).Delete? && DecideAt(inp, a.to).Add?)
    && (a.Upload? || a.Download? ==> a.localPath == a.remotePath)
  }

  lemma OwnersFollow(inp: Inputs, order: seq<Path>, p: Path)
    requires Enumerates(order, inp.Paths())
    ensures forall a :: a in PlanOf(inp, order) && p in ClaimList(a) ==> FollowsDecision(inp, p, a)
    ensures DecideAt(inp, p) != Nothing ==> exists a :: a in PlanOf(inp, order) && p in ClaimList(a)
  {
    hide Decide, PlanOf, ClaimList, Realises;
    PathsClaimed(inp, order);
    forall a | a in PlanOf(inp, order) && p in ClaimList(a) ensures FollowsDecision(inp, p, a) {
      OwnerRealises(inp, order, a, p);
      if a.ServerSideMove? {
        MoveJoins(inp, order, a);
      }
    }
    if DecideAt(inp, p) != Nothing {
      var a := PlanServes(inp, order, p);
    }
  }

  lemma DeliversByDecision(inp: Inputs, order: seq<Path>, p: Path)
    requires Enumerates(order, inp.Paths())
    ensures var d := DecideAt(inp, p); Delivers(PlanOf(inp, order), p) <==> d.Add? || (d.Act? && d.action.Upload?)
  {
    DecisionAbout(inp, p);
    hide Decide, PlanOf;
    OwnersFollow(inp, order, p);
    if a :| a in PlanOf(inp, order) && ((a.Upload? && a.remotePath == p) || (a.ServerSideMove? && a.to == p)) {
      PathsClaimed(inp, order);
      assert p in ClaimList(a);
    }
  }

  lemma ActByDecision(inp: Inputs, order: seq<Path>, p: Path)
    requires Enumerates(order, inp.Paths())
    ensures var plan, d := PlanOf(inp, order), DecideAt(inp, p);
      && (Downloads(plan, p) <==> d.Act? && d.action.Download?)
      && (Conflicts(plan, p) <==> d.Act? && d.action.Conflict?)
      && (Converges(plan, p) <==> d.Act? && d.action.ConvergeState?)
  {
    DecisionAbout(inp, p);
    hide Decide, PlanOf;
    OwnersFollow(inp, order, p);
    PathsClaimed(inp, order);
    assert forall a :: a in PlanOf(inp, order) && a.Download? && a.localPath == p ==> p in ClaimList(a);
  }

  /** Every planned transfer, conflict and state names one path, on both sides. */
  lemma PathsClaimed(inp: Inputs, order: seq<Path>)
    ensures forall a :: a in PlanOf(inp, order) && (a.Upload? || a.Download?) ==> a.localPath == a.remotePath
  {
    forall a | a in PlanOf(inp, order) && (a.Upload? || a.Download?) ensures a.localPath == a.remotePath {
      var ds := Decisions(inp, order);
      if a in Direct(ds) {
        DirectMember(ds, a);
        var i :| 0 <= i < |ds| && ds[i] == Act(a);
        OnePath(inp, order[i]);
      }
    }
  }

  lemma OnePath(inp: Inputs, p: Path)
    ensures DecideAt(inp, p).Act? && (DecideAt(inp, p).action.Upload? || DecideAt(inp, p).action.Download?) ==>
      DecideAt(inp, p).action.localPath == p == DecideAt(inp, p).action.remotePath
  {}

  // ---------------------------------------------------------------- Which actions

  /** Removals: none without deletions; one way, what is gone locally; two ways, what is gone on either side. */
  lemma PlannedRemovals(inp: Inputs, order: seq<Path>, p: Path)
    requires Enumerates(order, inp.Paths())
    ensures inp.mode == OneWayNoDeletions ==> !Removes(PlanOf(inp, order), p)
    ensures inp.mode == OneWay ==> (Removes(PlanOf(inp, order), p) <==> p !in inp.local && p in inp.remote && p in inp.base)
    ensures inp.mode == TwoWay ==> (Removes(PlanOf(inp, order), p) <==> p in inp.base && (p in inp.local <==> p !in inp.remote))
  {
    RemovalIsDecided(inp, order, p);
    RemovalDecision(inp, p);
    hide PlanOf, Removes, Decide;
  }

  lemma RemovalDecision(inp: Inputs, p: Path)
    ensures var d := DecideAt(inp, p);
      d.Delete? || d == Act(DeleteLocal(p)) <==>
        match inp.mode
        case OneWayNoDeletions => false
        case OneWay => p !in inp.local && p in inp.remote && p in inp.base
        case TwoWay => p in inp.base && (p in inp.local <==> p !in inp.remote)
  {}

  /** Downloads, in two-way mode only: what is new remotely, and what changed there and not here. */
  lemma PlannedDownloads(inp: Inputs, order: seq<Path>, p: Path)
    requires Enumerates(order, inp.Paths())
    ensures Downloads(PlanOf(inp, order), p) <==>
      inp.mode == TwoWay && p in inp.remote &&
      if p !in inp.base then p !in inp.local
      else p in inp.local && AsCatalogued(inp.local[p], inp.base[p]) && !AsLastSeen(inp.remote[p], inp.base[p])
  {
    ActByDecision(inp, order, p);
    DownloadDecision(inp, p);
    hide PlanOf, Decide;
  }

  lemma DownloadDecision(inp: Inputs, p: Path)
    ensures var d := DecideAt(inp, p);
      d.Act? && d.action.Download? <==>
        inp.mode == TwoWay && p in inp.remote &&
        if p !in inp.base then p !in inp.local
        else p in inp.local && AsCatalogued(inp.local[p], inp.base[p]) && !AsLastSeen(inp.remote[p], inp.base[p])
  {}

  /** Deliveries: what is new locally, what changed here and not there, and, one way, what is gone remotely. */
  lemma PlannedDeliveries(inp: Inputs, order: seq<Path>, p: Path)
    requires Enumerates(order, inp.Paths())
    ensures Delivers(PlanOf(inp, order), p) <==>
      p in inp.local &&
      if p in inp.remote then p in inp.base && !AsCatalogued(inp.local[p], inp.base[p]) && AsLastSeen(inp.remote[p], inp.base[p])
      else inp.mode != TwoWay || p !in inp.base
  {
    DeliversByDecision(inp, order, p);
    DeliveryDecision(inp, p);
    hide PlanOf, Decide;
  }

  lemma DeliveryDecision(inp: Inputs, p: Path)
    ensures var d := DecideAt(inp, p);
      d.Add? || (d.Act? && d.action.Upload?) <==>
        p in inp.local &&
        if p in inp.remote then p in inp.base && !AsCatalogued(inp.local[p], inp.base[p]) && AsLastSeen(inp.remote[p], inp.base[p])
        else inp.mode != TwoWay || p !in inp.base
  {}

  /** Both sides hold a version of their own. */
  predicate Diverged(inp: Inputs, p: Path) {
    && p in inp.local && p in inp.remote
    && (p in inp.base ==> !AsCatalogued(inp.local[p], inp.base[p]) && !AsLastSeen(inp.remote[p], inp.base[p]))
  }

  /** Where both sides hold a version of their own, the two are recorded as equal if they are known to be, in every mode. */
  lemma PlannedConflicts(inp: Inputs, order: seq<Path>, p: Path)
    requires Enumerates(order, inp.Paths())
    ensures Conflicts(PlanOf(inp, order), p) <==> Diverged(inp, p) && !KnownEqual(inp.local[p], inp.remote[p])
    ensures Converges(PlanOf(inp, order), p) <==> Diverged(inp, p) && KnownEqual(inp.local[p], inp.remote[p])
  {
    ActByDecision(inp, order, p);
    DivergedDecision(inp, p);
    hide PlanOf, Decide;
  }

  lemma DivergedDecision(inp: Inputs, p: Path)
    ensures var d := DecideAt(inp, p);
      && (d.Act? && d.action.Conflict? <==> Diverged(inp, p) && !KnownEqual(inp.local[p], inp.remote[p]))
      && (d.Act? && d.action.ConvergeState? <==> Diverged(inp, p) && KnownEqual(inp.local[p], inp.remote[p]))
  {}

  // ---------------------------------------------------------------- What the actions carry

  /** Whether an optional value comes from the first that is known. */
  predicate FirstKnown<T(==)>(value: Option<T>, a: Option<T>, b: Option<T>) {
    (a.Some? ==> value == a) && (a.None? ==> value == b)
  }

  /** How a policy wants a conflict settled. */
  predicate Settles(policy: ConflictPolicy, p: Path, local: Time, remote: Time, how: Resolution) {
    && (policy == KeepLocal || (policy == KeepNewer && local > remote) ==> how == UploadLocal)
    && (policy == KeepRemote || (policy == KeepNewer && local <= remote) ==> how == DownloadRemote)
    && (policy == RenameLocal ==> how.RenameLocalAndDownloadRemote? && how.newLocal == p + ".local-conflict")
    && (policy == RenameRemote ==> how.RenameRemoteAndUploadLocal? && how.newRemote == p + ".remote-conflict")
    && (policy == Manual ==> how == Skip)
  }

  /** The action describes the files it is about. */
  predicate Describes(inp: Inputs, a: SyncAction) {
    match a
    case Upload(l, r, size) => l == r && l in inp.local && size == inp.local[l].size
    case Download(r, l, size, checksum, permissions) =>
      && l == r && r in inp.remote
      && (size, checksum, permissions) == (inp.remote[r].size, inp.remote[r].checksum, inp.remote[r].permissions)
    case Conflict(p, how) =>
      p in inp.local && p in inp.remote && Settles(inp.policy, p, inp.local[p].modified, inp.remote[p].modified, how)
    case ConvergeState(p, s) =>
      && p in inp.local && p in inp.remote
      && s.size == inp.local[p].size
      && s.localModified == inp.local[p].modified && s.remoteModified == inp.remote[p].modified
      && s.isDir == Some(inp.local[p].isDir)
      && FirstKnown(s.checksum, inp.local[p].checksum, inp.remote[p].checksum)
      && FirstKnown(s.permissions, inp.local[p].permissions, inp.remote[p].permissions)
    case ServerSideMove(from, to) => from in inp.remote && from in inp.base && to in inp.local && inp.canMove
    case DeleteLocal(p) => p in inp.local
    case DeleteRemote(p) => p in inp.remote
    case _ => false
  }

  lemma DecisionDescribes(inp: Inputs, p: Path)
    ensures match DecideAt(inp, p)
      case Nothing => true
      case Act(a) => Describes(inp, a)
      case Delete(c) => c.relPath == p && p in inp.remote && p in inp.base && c.size == inp.base[p].size && c.checksum == inp.base[p].checksum
      case Add(c) => c.relPath == p && p in inp.local && c.size == inp.local[p].size && c.checksum == inp.local[p].checksum
  {}

  lemma HeadClaimed(a: SyncAction)
    ensures ClaimList(a)[0] in ClaimList(a)
  {}

  /** Every action of a plan carries the sizes, times, checksums and permissions of the files it is about. */
  lemma PlanDescribes(inp: Inputs, order: seq<Path>, a: SyncAction)
    requires Enumerates(order, inp.Paths())
    requires a in PlanOf(inp, order)
    ensures Describes(inp, a)
  {
    hide Decide, PlanOf, Settles;
    var p := ClaimList(a)[0];
    HeadClaimed(a);
    OwnerRealises(inp, order, a, p);
    DecisionDescribes(inp, p);
    if a.ServerSideMove? {
      MoveJoins(inp, order, a);
      DecisionDescribes(inp, a.to);
    }
  }
}
