/** Scanning a store directory by directory, not descending where the filter says no. */
module Scanner {
  import opened Prelude
  import opened SyncTypes
  import opened Filter

  datatype Fault = Missing | Broken(message: string)

  /** The entries below the root, and the directories whose listing fails. The root, "", is not an entry. */
  datatype Store = Store(entries: Tree, faults: map<Path, Fault>)

  function Parent(p: Path): (d: Path)
    requires p != ""
    ensures |d| < |p|
  {
    if LastSlash(p) < 0 then "" else p[..LastSlash(p)]
  }

  predicate HasParent(p: Path, d: Path) {
    p != "" && Parent(p) == d
  }

  /** The entry itself passes every test the scan makes. */
  predicate Keeps(store: Store, f: FileFilter, p: Path) {
    && p in store.entries
    && f.Passes(p, store.entries[p].isDir)
    && (store.entries[p].isDir || f.IsSizeAllowed(store.entries[p].size))
  }

  /** The entry passes, and so does every directory on the way to it; all of them can be listed. */
  predicate Visible(store: Store, f: FileFilter, p: Path)
    decreases |p|
  {
    && p != "" && Keeps(store, f, p)
    && Parent(p) !in store.faults
    && (Parent(p) == "" || (Visible(store, f, Parent(p)) && store.entries[Parent(p)].isDir))
  }

  /** The directories the scan asks the backend to list. */
  predicate Reached(store: Store, f: FileFilter, d: Path) {
    d == "" || (Visible(store, f, d) && store.entries[d].isDir)
  }

  function Scanned(item: ScannedItem): ScannedItem {
    if item.isDir then ScannedItem(0, item.modified, true, None, item.permissions) else item
  }

  function ScanOf(store: Store, f: FileFilter): Tree {
    map p | p in store.entries && Visible(store, f, p) :: Scanned(store.entries[p])
  }

  /** What the backend answers: the entries directly in a directory, in some order. */
  method List(store: Store, d: Path) returns (items: seq<Path>)
    ensures Distinct(items)
    ensures forall p :: p in items <==> p in store.entries && HasParent(p, d)
  {
    items := Walk(set p | p in store.entries && HasParent(p, d));
  }

  function AddKept(store: Store, f: FileFilter, items: seq<Path>, files: Tree): Tree
    requires forall p :: p in items ==> p in store.entries
  {
    if items == [] then files
    else
      var before, p := AddKept(store, f, items[..|items| - 1], files), items[|items| - 1];
      if Keeps(store, f, p) then before[p := Scanned(store.entries[p])] else before
  }

  function QueueKept(store: Store, f: FileFilter, items: seq<Path>, queue: seq<Path>): seq<Path>
    requires forall p :: p in items ==> p in store.entries
  {
    if items == [] then queue
    else
      var before, p := QueueKept(store, f, items[..|items| - 1], queue), items[|items| - 1];
      if Keeps(store, f, p) && store.entries[p].isDir then before + [p] else before
  }

  /** The entries of one directory: kept ones are recorded, kept directories are queued. */
  method ScanDirectory(store: Store, f: FileFilter, items: seq<Path>, files0: Tree, queue0: seq<Path>)
    returns (files: Tree, queue: seq<Path>)
    requires forall p :: p in items ==> p in store.entries
    ensures files == AddKept(store, f, items, files0)
    ensures queue == QueueKept(store, f, items, queue0)
  {
    files, queue := files0, queue0;
    for i := 0 to |items|
      invariant files == AddKept(store, f, items[..i], files0)
      invariant queue == QueueKept(store, f, items[..i], queue0)
    {
      var p := items[i];
      var item := store.entries[p];
      assert items[..i + 1][..i] == items[..i];
      if IsUnsafePath(p) || IsStateFile(p) {
        continue;
      }
      if f.ignored(p, item.isDir) {
        continue;
      }
      if !f.IsPathSelected(p) {
        continue;
      }
      if item.isDir {
        queue := queue + [p];
        files := files[p := ScannedItem(0, item.modified, true, None, item.permissions)];
      } else {
        if !f.IsSizeAllowed(item.size) {
          continue;
        }
        files := files[p := ScannedItem(item.size, item.modified, false, item.checksum, item.permissions)];
      }
    }
    assert items[..|items|] == items;
  }

  lemma {:induction false} AddKeptAt(store: Store, f: FileFilter, items: seq<Path>, files: Tree, p: Path)
    requires forall q :: q in items ==> q in store.entries
    ensures Lookup(AddKept(store, f, items, files), p)
         == if p in items && Keeps(store, f, p) then Some(Scanned(store.entries[p])) else Lookup(files, p)
  {
    if items != [] {
      var init, last := items[..|items| - 1], items[|items| - 1];
      assert items == init + [last];
      AddKeptAt(store, f, init, files, p);
    }
  }

  lemma {:induction false} QueueKeptHolds(store: Store, f: FileFilter, items: seq<Path>, queue: seq<Path>, p: Path)
    requires forall q :: q in items ==> q in store.entries
    ensures p in QueueKept(store, f, items, queue) <==> p in queue || (p in items && Keeps(store, f, p) && store.entries[p].isDir)
  {
    if items != [] {
      var init, last := items[..|items| - 1], items[|items| - 1];
      assert items == init + [last];
      QueueKeptHolds(store, f, init, queue, p);
    }
  }

  lemma {:induction false} QueueKeptDistinct(store: Store, f: FileFilter, items: seq<Path>, queue: seq<Path>)
    requires forall q :: q in items ==> q in store.entries && q !in queue
    requires Distinct(items) && Distinct(queue)
    ensures Distinct(QueueKept(store, f, items, queue))
  {
    if items != [] {
      var init, last := items[..|items| - 1], items[|items| - 1];
      assert items == init + [last];
      assert last !in init;
      QueueKeptDistinct(store, f, init, queue);
      QueueKeptHolds(store, f, init, queue, last);
    }
  }

  // ---------------------------------------------------------------- The work list

  /** An entry below a directory that has been listed. */
  predicate Found(store: Store, f: FileFilter, listed: set<Path>, p: Path) {
    Visible(store, f, p) && Parent(p) in listed
  }

  function Recorded(store: Store, f: FileFilter, listed: set<Path>, p: Path): Option<ScannedItem> {
    if Found(store, f, listed, p) then Some(Scanned(store.entries[p])) else None
  }

  /** Between two listings: what has been listed, what waits, and what has been recorded. */
  ghost predicate Progress(store: Store, f: FileFilter, listed: set<Path>, queue: seq<Path>, files: Tree) {
    && Distinct(queue)
    && (forall d :: d in queue ==> d !in listed)
    && (forall d :: d in listed || d in queue <==> d == "" || (Found(store, f, listed, d) && store.entries[d].isDir))
    && (forall p :: Lookup(files, p) == Recorded(store, f, listed, p))
  }

  /** A directory that is gone contributes nothing. */
  lemma MissingStep(store: Store, f: FileFilter, listed: set<Path>, queue: seq<Path>, files: Tree)
    requires queue != [] && Progress(store, f, listed, queue, files)
    requires queue[|queue| - 1] in store.faults
    ensures Progress(store, f, listed + {queue[|queue| - 1]}, queue[..|queue| - 1], files)
  {
    var d, rest := queue[|queue| - 1], queue[..|queue| - 1];
    assert queue == rest + [d];
    forall p ensures Found(store, f, listed + {d}, p) <==> Found(store, f, listed, p) {
      if p != "" && Parent(p) == d {
        assert !Visible(store, f, p);
      }
    }
  }

  lemma FoundBelow(store: Store, f: FileFilter, listed: set<Path>, d: Path, items: seq<Path>, p: Path)
    requires Reached(store, f, d) && d !in store.faults && d !in listed
    requires forall q :: q in items <==> q in store.entries && HasParent(q, d)
    ensures Found(store, f, listed + {d}, p) <==> Found(store, f, listed, p) || (p in items && Keeps(store, f, p))
    ensures Recorded(store, f, listed + {d}, p)
         == if p in items && Keeps(store, f, p) then Some(Scanned(store.entries[p])) else Recorded(store, f, listed, p)
  {}

  lemma ListedStep(store: Store, f: FileFilter, listed: set<Path>, queue: seq<Path>, files: Tree, items: seq<Path>)
    requires "" !in store.entries
    requires queue != [] && Progress(store, f, listed, queue, files)
    requires queue[|queue| - 1] !in store.faults
    requires Distinct(items)
    requires forall p :: p in items <==> p in store.entries && HasParent(p, queue[|queue| - 1])
    ensures var d, rest := queue[|queue| - 1], queue[..|queue| - 1];
      Progress(store, f, listed + {d}, QueueKept(store, f, items, rest), AddKept(store, f, items, files))
  {
    hide Visible, Keeps, Found, Recorded, Scanned, Reached, HasParent, QueueKept, AddKept;
    var d, rest := queue[|queue| - 1], queue[..|queue| - 1];
    var queue', files', listed' := QueueKept(store, f, items, rest), AddKept(store, f, items, files), listed + {d};
    assert queue == rest + [d];
    QueuedIsNew(store, f, listed, queue, files);
    forall p | p in items ensures p !in queue && p !in listed && p != d {
      FreshItem(store, f, listed, queue, files, d, p);
    }
    QueueKeptDistinct(store, f, items, rest);
    forall e ensures e in queue' <==> e in rest || (e in items && Keeps(store, f, e) && store.entries[e].isDir) {
      QueueKeptHolds(store, f, items, rest, e);
    }
    forall p ensures Found(store, f, listed', p) <==> Found(store, f, listed, p) || (p in items && Keeps(store, f, p)) {
      FoundBelow(store, f, listed, d, items, p);
    }
    forall p ensures Lookup(files', p) == Recorded(store, f, listed', p) {
      AddKeptAt(store, f, items, files, p);
      FoundBelow(store, f, listed, d, items, p);
    }
  }

  lemma FreshItem(store: Store, f: FileFilter, listed: set<Path>, queue: seq<Path>, files: Tree, d: Path, p: Path)
    requires Progress(store, f, listed, queue, files)
    requires d in queue && HasParent(p, d)
    ensures p !in queue && p !in listed && p != d
  {
    assert d !in listed;
    assert !Found(store, f, listed, p);
  }

  /** Once every reached directory has been listed, every visible entry has been found. */
  lemma {:induction false} NothingMissed(store: Store, f: FileFilter, listed: set<Path>, p: Path)
    requires "" in listed
    requires forall d :: Found(store, f, listed, d) && store.entries[d].isDir ==> d in listed
    requires Visible(store, f, p)
    ensures Found(store, f, listed, p)
    decreases |p|
  {
    if Parent(p) != "" {
      NothingMissed(store, f, listed, Parent(p));
    }
  }

  function Directories(store: Store): set<Path> { {""} + store.entries.Keys }

  /** What holds between two listings: no directory listed so far was broken, and all were directories of the store. */
  ghost predicate Working(store: Store, f: FileFilter, listed: set<Path>, queue: seq<Path>, files: Tree) {
    && Progress(store, f, listed, queue, files)
    && (forall d :: d in listed && d in store.faults ==> store.faults[d] == Missing)
    && listed <= Directories(store)
  }

  lemma StartWorking(store: Store, f: FileFilter)
    ensures Working(store, f, {}, [""], map[])
  {}

  lemma FewerLeft<T>(all: set<T>, seen: set<T>, x: T)
    requires x in all && x !in seen
    ensures |all - (seen + {x})| < |all - seen|
  {
    assert all - (seen + {x}) == all - seen - {x};
  }

  /** The next directory is reached for the first time, so that the number of unlisted ones goes down. */
  lemma NextDirectory(store: Store, f: FileFilter, listed: set<Path>, queue: seq<Path>, files: Tree)
    requires queue != [] && Working(store, f, listed, queue, files)
    ensures var d := queue[|queue| - 1];
      && Reached(store, f, d)
      && |Directories(store) - (listed + {d})| < |Directories(store) - listed|
  {
    QueuedIsNew(store, f, listed, queue, files);
    hide Progress, Reached, Directories;
    FewerLeft(Directories(store), listed, queue[|queue| - 1]);
  }

  lemma WorkMissing(store: Store, f: FileFilter, listed: set<Path>, queue: seq<Path>, files: Tree)
    requires queue != [] && Working(store, f, listed, queue, files)
    requires Lookup(store.faults, queue[|queue| - 1]) == Some(Missing)
    ensures Working(store, f, listed + {queue[|queue| - 1]}, queue[..|queue| - 1], files)
  {
    hide Visible, Progress;
    MissingStep(store, f, listed, queue, files);
    QueuedIsNew(store, f, listed, queue, files);
  }

  lemma QueuedIsNew(store: Store, f: FileFilter, listed: set<Path>, queue: seq<Path>, files: Tree)
    requires queue != [] && Progress(store, f, listed, queue, files)
    ensures var d := queue[|queue| - 1]; d in Directories(store) && d !in listed && Reached(store, f, d)
  {
    assert queue[|queue| - 1] in queue;
  }

  lemma WorkListed(store: Store, f: FileFilter, listed: set<Path>, queue: seq<Path>, files: Tree, items: seq<Path>)
    requires "" !in store.entries
    requires queue != [] && Working(store, f, listed, queue, files)
    requires queue[|queue| - 1] !in store.faults
    requires Distinct(items)
    requires forall p :: p in items <==> p in store.entries && HasParent(p, queue[|queue| - 1])
    ensures var d, rest := queue[|queue| - 1], queue[..|queue| - 1];
      Working(store, f, listed + {d}, QueueKept(store, f, items, rest), AddKept(store, f, items, files))
  {
    hide Visible, Progress, QueueKept, AddKept;
    ListedStep(store, f, listed, queue, files, items);
    QueuedIsNew(store, f, listed, queue, files);
  }

  lemma ScanFinished(store: Store, f: FileFilter, listed: set<Path>, files: Tree)
    requires Working(store, f, listed, [], files)
    ensures files == ScanOf(store, f)
    ensures forall d :: Reached(store, f, d) && d in store.faults ==> store.faults[d] == Missing
  {
    forall p ensures Found(store, f, listed, p) <==> Visible(store, f, p) {
      assert "" in listed || "" in [];
      if Visible(store, f, p) {
        NothingMissed(store, f, listed, p);
      }
    }
    forall p ensures Lookup(files, p) == Lookup(ScanOf(store, f), p) {
      assert Found(store, f, listed, p) <==> Visible(store, f, p);
    }
    MapsEqual(files, ScanOf(store, f));
  }

  /**
   * The scan terminates on every finite store. It fails exactly when a directory it reaches cannot be listed for
   * another reason than being gone; otherwise it returns exactly the visible entries.
   */
  method ScanRemote(store: Store, f: FileFilter) returns (r: Result<Tree, string>)
    requires "" !in store.entries
    ensures r.Err? <==> exists d :: Reached(store, f, d) && d in store.faults && store.faults[d].Broken?
    ensures r.Ok? ==> r.value == ScanOf(store, f)
  {
    hide Reached, Keeps, Visible, QueueKept, AddKept, Progress, Working, ScanOf, HasParent, Directories;
    var files: Tree := map[];
    var queue := [""];
    ghost var listed: set<Path> := {};
    StartWorking(store, f);
    while queue != []
      invariant Working(store, f, listed, queue, files)
      decreases |Directories(store) - listed|
    {
      var current := queue[|queue| - 1];
      NextDirectory(store, f, listed, queue, files);
      if current in store.faults {
        if store.faults[current].Broken? {
          return Err(store.faults[current].message);
        }
        WorkMissing(store, f, listed, queue, files);
        queue := queue[..|queue| - 1];
      } else {
        var items := List(store, current);
        WorkListed(store, f, listed, queue, files, items);
        files, queue := ScanDirectory(store, f, items, files, queue[..|queue| - 1]);
      }
      listed := listed + {current};
    }
    ScanFinished(store, f, listed, files);
    r := Ok(files);
  }

  // ---------------------------------------------------------------- What pruning loses

  /** Every entry lies in a listable directory of the store. */
  ghost predicate TreeShaped(store: Store) {
    && "" !in store.entries
    && store.faults == map[]
    && forall p :: p in store.entries ==> Parent(p) == "" || (Parent(p) in store.entries && store.entries[Parent(p)].isDir)
  }

  lemma SlashAfter(q: Path, p: Path)
    requires IsAncestor(q, p)
    ensures |q| <= LastSlash(p)
  {
    assert p[|q|] == (q + "/")[|q|] == '/';
  }

  lemma AncestorsOfParent(q: Path, p: Path)
    requires p != ""
    ensures IsAncestor(q, p) <==> q != "" && (q == Parent(p) || IsAncestor(q, Parent(p)))
  {
    var i := LastSlash(p);
    if IsAncestor(q, p) {
      SlashAfter(q, p);
    }
    if i >= 0 {
      assert p[..i] + "/" == p[..i + 1];
      if IsAncestor(q, p) {
        if |q| < i {
          assert p[..i][..|q| + 1] == p[..|q| + 1] == q + "/";
        } else {
          assert q == p[..|q|];
        }
      }
      if q != "" && q == p[..i] {
        assert q + "/" <= p;
      }
      if IsAncestor(q, p[..i]) {
        assert p[..|q| + 1] == p[..i][..|q| + 1] == q + "/";
      }
    }
  }

  /** Neither the entry nor a directory on the way to it is a state file or ignored. */
  ghost predicate NowhereDropped(store: Store, f: FileFilter, p: Path) {
    forall q :: (q == p || IsAncestor(q, p)) && q in store.entries ==>
      !IsStateFile(q) && !f.ignored(q, store.entries[q].isDir)
  }

  /**
   * On a tree, the scan returns an entry exactly when it is safe, selected and of an allowed size and nothing on the
   * way to it is ignored or a state file: the path safety and selection tests lose nothing to pruning.
   */
  lemma {:induction false} PruningIsComplete(store: Store, f: FileFilter, p: Path)
    requires TreeShaped(store) && p in store.entries
    ensures p in ScanOf(store, f) <==>
      && !IsUnsafePath(p) && f.IsPathSelected(p)
      && (store.entries[p].isDir || f.IsSizeAllowed(store.entries[p].size))
      && NowhereDropped(store, f, p)
    decreases |p|
  {
    var d := Parent(p);
    forall q ensures IsAncestor(q, p) <==> q != "" && (q == d || IsAncestor(q, d)) {
      AncestorsOfParent(q, p);
    }
    if d != "" {
      PruningIsComplete(store, f, d);
      assert IsAncestor(d, p);
      if !IsUnsafePath(p) && f.IsPathSelected(p) {
        SelectedAbove(f, d, p);
      }
      if IsUnsafePath(d) {
        UnsafeBelow(d, p);
      }
      assert NowhereDropped(store, f, p) ==> NowhereDropped(store, f, d);
    }
  }
}
