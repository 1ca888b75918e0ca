/** What the scan filters mean, segment by segment. */
module FilterMeaning {
  import opened Prelude
  import opened SyncTypes
  import opened Segments
  import opened Filter
  import opened Scanner

  // ---------------------------------------------------------------- Safe paths

  lemma AtBoth(a: string, b: string, part: string, i: nat)
    ensures i + |part| <= |a| ==> (OccursAt(a + "/" + b, i, part) <==> OccursAt(a, i, part))
    ensures OccursAt(a + "/" + b, |a| + 1 + i, part) <==> OccursAt(b, i, part)
  {
    var p := a + "/" + b;
    if i + |part| <= |a| {
      assert p[i..i + |part|] == a[i..i + |part|];
    }
    if i + |part| <= |b| {
      assert p[|a| + 1 + i..|a| + 1 + i + |part|] == b[i..i + |part|];
    }
  }

  /** Two dots lie within one segment. */
  lemma DotsAcross(a: string, b: string)
    ensures Contains(a + "/" + b, "..") <==> Contains(a, "..") || Contains(b, "..")
  {
    var p := a + "/" + b;
    if i :| 0 <= i <= |p| && OccursAt(p, i, "..") {
      assert p[i] == p[i..i + 2][0] && p[i + 1] == p[i..i + 2][1];
      assert p[|a|] == '/';
      if i < |a| {
        AtBoth(a, b, "..", i);
        assert OccursAt(a, i, "..");
      } else {
        AtBoth(a, b, "..", i - |a| - 1);
        assert OccursAt(b, i - |a| - 1, "..");
      }
    }
    if i :| 0 <= i <= |a| && OccursAt(a, i, "..") {
      AtBoth(a, b, "..", i);
      assert OccursAt(p, i, "..");
    }
    if i :| 0 <= i <= |b| && OccursAt(b, i, "..") {
      AtBoth(a, b, "..", i);
      assert OccursAt(p, |a| + 1 + i, "..");
    }
  }

  lemma DotSlashFound(a: string, b: string, i: nat)
    requires '/' !in a && OccursAt(a + "/" + b, i, "./")
    ensures EndsWith(a, ".") || Contains(b, "./")
  {
    var p := a + "/" + b;
    assert p[i] == p[i..i + 2][0] && p[i + 1] == p[i..i + 2][1];
    assert forall k :: 0 <= k < |a| ==> p[k] == a[k] && a[k] != '/';
    assert p[|a|] == '/';
    if i + 1 == |a| {
      assert a[|a| - 1..] == [p[i]];
    } else if i > |a| {
      AtBoth(a, b, "./", i - |a| - 1);
      assert OccursAt(b, i - |a| - 1, "./");
    }
  }

  lemma DotSlashMade(a: string, b: string)
    ensures EndsWith(a, ".") || Contains(b, "./") ==> Contains(a + "/" + b, "./")
  {
    var p := a + "/" + b;
    if EndsWith(a, ".") {
      var i := |a| - 1;
      assert p[i] == a[i] == a[|a| - 1..][0] && p[i + 1] == '/';
      assert p[i..i + 2] == "./";
      assert OccursAt(p, i, "./");
    }
    if i :| 0 <= i <= |b| && OccursAt(b, i, "./") {
      AtBoth(a, b, "./", i);
      assert OccursAt(p, |a| + 1 + i, "./");
    }
  }

  /** A dot and a slash mean a segment that ends in a dot, other than the last. */
  lemma DotSlashAcross(a: string, b: string)
    requires '/' !in a
    ensures Contains(a + "/" + b, "./") <==> EndsWith(a, ".") || Contains(b, "./")
  {
    DotSlashMade(a, b);
    hide OccursAt, EndsWith;
    if i :| 0 <= i <= |a + "/" + b| && OccursAt(a + "/" + b, i, "./") {
      DotSlashFound(a, b, i);
    }
  }

  /** A segment of the path names the parent directory or something like it, or a directory whose name ends in a dot. */
  predicate BadSegments(segments: seq<string>) {
    exists i :: 0 <= i < |segments| && (Contains(segments[i], "..") || (i < |segments| - 1 && EndsWith(segments[i], ".")))
  }

  lemma BadCons(first: string, rest: seq<string>)
    requires rest != []
    ensures BadSegments([first] + rest) <==> Contains(first, "..") || EndsWith(first, ".") || BadSegments(rest)
  {
    hide Contains, EndsWith;
    var all := [first] + rest;
    if i :| 0 <= i < |rest| && (Contains(rest[i], "..") || (i < |rest| - 1 && EndsWith(rest[i], "."))) {
      assert all[i + 1] == rest[i];
    }
    if i :| 0 <= i < |all| && (Contains(all[i], "..") || (i < |all| - 1 && EndsWith(all[i], "."))) {
      if i > 0 {
        assert rest[i - 1] == all[i];
      }
    }
    assert all[0] == first;
  }

  lemma NoDotSlash(s: string)
    requires '/' !in s
    ensures !Contains(s, "./")
  {
    forall i | 0 <= i && i + 2 <= |s| ensures !OccursAt(s, i, "./") {
      assert s[i..i + 2][1] == s[i + 1];
    }
  }

  lemma {:induction false} TraversalBySegment(p: string)
    ensures Contains(p, "..") || Contains(p, "./") <==> BadSegments(Split(p, '/'))
    decreases |p|
  {
    var i := Position(p, '/');
    if i == |p| {
      NoDotSlash(p);
      assert Split(p, '/') == [p];
      assert BadSegments([p]) <==> Contains([p][0], "..");
    } else {
      var first, rest := p[..i], p[i + 1..];
      assert p == first + "/" + rest;
      TraversalBySegment(rest);
      DotsAcross(first, rest);
      DotSlashAcross(first, rest);
      BadCons(first, Split(rest, '/'));
    }
  }

  /**
   * A path is safe exactly if it does not start at the root, no segment of it holds two dots in a row and none but
   * the last ends in a dot.
   */
  lemma SafeBySegment(p: Path)
    ensures !IsUnsafePath(p) <==>
      && (p == "" || p[0] != '/')
      && forall i :: 0 <= i < |Split(p, '/')| ==>
           !Contains(Split(p, '/')[i], "..") && (i < |Split(p, '/')| - 1 ==> !EndsWith(Split(p, '/')[i], "."))
  {
    hide Contains, EndsWith, Split;
    TraversalBySegment(p);
  }

  /** The parent directory as a segment makes a path unsafe, wherever it stands. */
  lemma ParentIsUnsafe(before: string, after: string)
    ensures IsUnsafePath("..") && IsUnsafePath(before + "/" + "..") && IsUnsafePath(".." + "/" + after)
    ensures IsUnsafePath(before + "/" + (".." + "/" + after))
  {
    assert OccursAt("..", 0, "..");
    DotsAcross(before, "..");
    DotsAcross("..", after);
    DotsAcross(before, ".." + "/" + after);
  }

  // ---------------------------------------------------------------- Selection

  /** One path lies on the way to the other, or they are the same, segment by segment. */
  predicate SameBranch(x: string, y: string) {
    Split(x, '/') <= Split(y, '/') || Split(y, '/') <= Split(x, '/')
  }

  lemma CoversBySegment(x: string, y: string)
    ensures Covers(x, y) <==> SameBranch(x, y)
  {
    PartsBegin(x, y, '/');
    PartsBegin(y, x, '/');
  }

  /**
   * Without a selection every path is selected; with one, exactly those that lie on one branch with a selected
   * prefix, leading slashes aside.
   */
  lemma SelectedBySegment(f: FileFilter, p: Path)
    ensures f.selective == None || f.selective == Some([]) ==> f.IsPathSelected(p)
    ensures f.selective.Some? && f.selective.value != [] ==>
      (f.IsPathSelected(p) <==> exists prefix :: prefix in f.selective.value && SameBranch(TrimStart(prefix), TrimStart(p)))
  {
    hide Covers, SameBranch;
    if f.selective.Some? {
      forall prefix | prefix in f.selective.value ensures Covers(TrimStart(prefix), TrimStart(p)) <==> SameBranch(TrimStart(prefix), TrimStart(p)) {
        CoversBySegment(TrimStart(prefix), TrimStart(p));
      }
    }
  }

  // ---------------------------------------------------------------- State files and sizes

  lemma Between(p: string, head: string, tail: string)
    requires |p| >= |head| + |tail|
    ensures StartsWith(p, head) && EndsWith(p, tail) <==> exists x: string :: p == head + x + tail
  {
    if StartsWith(p, head) && EndsWith(p, tail) {
      var x := p[|head|..|p| - |tail|];
      assert p == head + x + tail;
    }
  }

  lemma NoOverlap(p: string, tail: string)
    requires tail == ".json" || tail == ".bin"
    ensures StartsWith(p, ".sync_state_") && EndsWith(p, tail) ==> |p| >= 12 + |tail|
  {
    if StartsWith(p, ".sync_state_") && |tail| <= |p| < 12 + |tail| {
      var k := 11 - (|p| - |tail|);
      assert p[11] == ".sync_state_"[11] == '_';
      assert p[|p| - |tail|..][k] == p[11];
      assert tail[k] != '_';
    }
  }

  /** The files the engine keeps for itself: three names, and every ".sync_state_" with something and ".json" or ".bin". */
  lemma StateFileNames(p: Path)
    ensures IsStateFile(p) <==>
      || p in [".sync_state.json", ".sync_state.bin", ".syncignore"]
      || (exists x: string :: p == ".sync_state_" + x + ".json")
      || (exists x: string :: p == ".sync_state_" + x + ".bin")
  {
    NoOverlap(p, ".json");
    NoOverlap(p, ".bin");
    if |p| >= 17 { Between(p, ".sync_state_", ".json"); }
    if |p| >= 16 { Between(p, ".sync_state_", ".bin"); }
  }

  /** A size is allowed from the smallest to the largest, both included; a bound that is not given does not count. */
  lemma SizeWindow(f: FileFilter, lo: nat, hi: nat, size: nat)
    ensures f.minSize == Some(lo) && f.maxSize == Some(hi) ==> (f.IsSizeAllowed(size) <==> lo <= size <= hi)
    ensures f.minSize == Some(lo) && f.maxSize == None ==> (f.IsSizeAllowed(size) <==> lo <= size)
    ensures f.minSize == None && f.maxSize == Some(hi) ==> (f.IsSizeAllowed(size) <==> size <= hi)
    ensures f.minSize == None && f.maxSize == None ==> f.IsSizeAllowed(size)
  {}

  // ---------------------------------------------------------------- The scan

  /** Files are returned as they were listed, directories without size and checksum. */
  lemma ScannedAs(store: Store, f: FileFilter, p: Path)
    requires p in ScanOf(store, f)
    ensures p in store.entries && ScanOf(store, f)[p].isDir == store.entries[p].isDir
    ensures !store.entries[p].isDir ==> ScanOf(store, f)[p] == store.entries[p]
    ensures store.entries[p].isDir ==>
      var item := ScanOf(store, f)[p];
      && item.size == 0 && item.checksum == None
      && item.modified == store.entries[p].modified && item.permissions == store.entries[p].permissions
  {
    hide Visible;
  }
}
