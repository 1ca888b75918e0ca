/** A directory that cannot be found scans as an empty one, and the planner takes its files for deleted. */
module VanishedTrees {
  import opened Prelude
  import opened SyncTypes
  import opened Filter
  import opened Scanner
  import opened Planner
  import opened Ownership
  import opened Executor
  import opened Orchestrator
  import opened Followup
  import opened StaleEntries

  /** The path lies somewhere below the directory; everything lies below the root. */
  predicate Below(d: Path, p: Path) {
    p != "" && (d == "" || IsAncestor(d, p))
  }

  /** Nothing below a directory whose listing fails is returned. */
  lemma {:induction false} NothingBelow(store: Store, f: FileFilter, d: Path, p: Path)
    requires d in store.faults && Below(d, p)
    ensures !Visible(store, f, p)
    decreases |p|
  {
    AncestorsOfParent(d, p);
    var parent := Parent(p);
    if parent != d && parent != "" {
      NothingBelow(store, f, d, parent);
    }
  }

  lemma LocalRemoval(setup: Setup, sys: System, order: seq<Path>, p: Path)
    requires setup.mode.TwoWay? && Enumerates(order, InputsOf(setup, sys).Paths())
    requires p in sys.world.local && p !in sys.world.remote
    ensures DeleteLocal(p) in FirstPlan(setup, sys, order) <==> p in sys.catalogue
  {
    hide Decide, PlanOf;
    assert DecideAt(InputsOf(setup, sys), p) == DecideView(setup, p, ViewAt(sys, p));
    OneSideDecision(setup, p, ViewAt(sys, p));
    FirstDecision(setup, p, ViewAt(sys, p));
    DecidedIsPlanned(InputsOf(setup, sys), order, p, DeleteLocal(p));
  }

  /**
   * In two-way mode a local file that the remote scan does not return is deleted exactly if the catalogue knows it.
   * The scan returns nothing below a directory that the backend reports as not found, be it the root.
   */
  lemma MissingListing(setup: Setup, sys: System, order: seq<Path>, store: Store, f: FileFilter, d: Path, p: Path)
    requires setup.mode.TwoWay? && Enumerates(order, InputsOf(setup, sys).Paths())
    requires sys.world.remote == ScanOf(store, f)
    requires Lookup(store.faults, d) == Some(Missing) && Below(d, p)
    requires p in sys.world.local
    ensures DeleteLocal(p) in FirstPlan(setup, sys, order) <==> p in sys.catalogue
  {
    hide Decide, PlanOf, Visible;
    NothingBelow(store, f, d, p);
    LocalRemoval(setup, sys, order, p);
  }

  /** The whole way from the scan of the store to the plan. */
  method ScanAndPlan(setup: Setup, store: Store, f: FileFilter, local: Tree, catalogue: Catalogue, ghost d: Path)
    returns (r: Result<SyncPlan, string>)
    requires "" !in store.entries && setup.mode.TwoWay?
    ensures r.Ok? && Lookup(store.faults, d) == Some(Missing) ==>
      forall p :: p in local && p in catalogue && Below(d, p) ==> DeleteLocal(p) in r.value.actions
  {
    hide Visible, PlanOf, Below;
    var scanned := ScanRemote(store, f);
    if scanned.Err? {
      return Err(scanned.error);
    }
    var sys := System(World(local, scanned.value), catalogue);
    var plan, order := Plan(InputsOf(setup, sys));
    if Lookup(store.faults, d) == Some(Missing) {
      forall p | p in local && p in catalogue && Below(d, p) ensures DeleteLocal(p) in plan.actions {
        MissingListing(setup, sys, order, store, f, d, p);
      }
    }
    r := Ok(plan);
  }

  lemma EmptyLocalDecision(inp: Inputs, p: Path)
    requires inp.local == map[] && inp.mode != OneWayNoDeletions
    ensures DecideAt(inp, p).Delete? <==> p in inp.remote && p in inp.base
    ensures !DecideAt(inp, p).Add?
    ensures DecideAt(inp, p) != Act(DeleteLocal(p))
  {}

  /**
   * A watched directory that does not exist scans as an empty tree. Every mode with deletions then deletes the remote
   * file of exactly the catalogued paths.
   */
  lemma MissingWatchDirectory(setup: Setup, sys: System, order: seq<Path>, p: Path)
    requires setup.mode != OneWayNoDeletions && Enumerates(order, InputsOf(setup, sys).Paths())
    requires sys.world.local == map[]
    ensures DeleteRemote(p) in FirstPlan(setup, sys, order) <==> p in sys.world.remote && p in sys.catalogue
  {
    var inp := InputsOf(setup, sys);
    EmptyLocalDecision(inp, p);
    hide PlanOf, Decide;
    if DeleteRemote(p) in FirstPlan(setup, sys, order) {
      OwnerRealises(inp, order, DeleteRemote(p), p);
      DirectDeletion(inp, p);
    }
    if DecideAt(inp, p).Delete? {
      var a := PlanServes(inp, order, p);
      if a.ServerSideMove? {
        MoveJoins(inp, order, a);
        EmptyLocalDecision(inp, a.to);
        assert false;
      }
    }
  }
}
