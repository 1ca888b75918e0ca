/** Which scanned paths take part in synchronisation. */
module Filter {
  import opened Prelude
  import opened SyncTypes

  predicate OccursAt(s: string, i: nat, part: string) {
    i + |part| <= |s| && s[i..i + |part|] == part
  }

  predicate Contains(s: string, part: string) {
    exists i :: 0 <= i <= |s| && OccursAt(s, i, part)
  }

  predicate StartsWith(s: string, prefix: string) {
    prefix <= s
  }

  predicate EndsWith(s: string, suffix: string) {
    |suffix| <= |s| && s[|s| - |suffix|..] == suffix
  }

  predicate IsUnsafePath(p: Path) {
    Contains(p, "..") || Contains(p, "./") || StartsWith(p, "/")
  }

  predicate IsStateFile(p: Path) {
    || p == ".sync_state.json"
    || p == ".sync_state.bin"
    || p == ".syncignore"
    || (StartsWith(p, ".sync_state_") && (EndsWith(p, ".json") || EndsWith(p, ".bin")))
  }

  predicate Covers(prefix: string, path: string) {
    || path == prefix
    || StartsWith(path, prefix + "/")
    || StartsWith(prefix, path + "/")
  }

  /** The ignore rules are those of the gitignore library, taken as they are. */
  datatype FileFilter = FileFilter(
    ignored: (Path, bool) -> bool, selective: Option<seq<string>>, minSize: Option<nat>, maxSize: Option<nat>)
  {
    predicate IsSizeAllowed(size: nat) {
      (minSize.Some? ==> minSize.value <= size) && (maxSize.Some? ==> size <= maxSize.value)
    }

    predicate IsPathSelected(p: Path) {
      selective.Some? && selective.value != [] ==>
        exists i :: 0 <= i < |selective.value| && Covers(TrimStart(selective.value[i]), TrimStart(p))
    }

    /** The tests that keep an entry, and everything below it if it is a directory, out of the scan. */
    predicate Passes(p: Path, isDir: bool) {
      !IsUnsafePath(p) && !IsStateFile(p) && !ignored(p, isDir) && IsPathSelected(p)
    }
  }

  /** `a` is a directory on the way to `p`. */
  predicate IsAncestor(a: Path, p: Path) {
    a != "" && StartsWith(p, a + "/")
  }

  lemma ContainsInLonger(a: string, p: string, part: string)
    requires a <= p && Contains(a, part)
    ensures Contains(p, part)
  {
    var i :| 0 <= i <= |a| && OccursAt(a, i, part);
    assert p[i..i + |part|] == a[i..i + |part|];
    assert OccursAt(p, i, part);
  }

  /** Everything below an unsafe directory is unsafe. */
  lemma UnsafeBelow(a: Path, p: Path)
    requires IsAncestor(a, p) && IsUnsafePath(a)
    ensures IsUnsafePath(p)
  {
    assert a <= p;
    if Contains(a, "..") { ContainsInLonger(a, p, ".."); }
    if Contains(a, "./") { ContainsInLonger(a, p, "./"); }
  }

  lemma CoversAncestor(prefix: string, a: string, p: string)
    requires Covers(prefix, p) && a + "/" <= p
    ensures Covers(prefix, a)
  {
    if prefix + "/" <= p {
      if |a| < |prefix| {
        assert prefix[..|a| + 1] == p[..|a| + 1] == a + "/";
      } else if |a| == |prefix| {
        assert a == p[..|a|] == prefix;
      } else {
        assert a[..|prefix| + 1] == p[..|prefix| + 1] == prefix + "/";
      }
    } else if p + "/" <= prefix {
      assert prefix[..|a| + 1] == p[..|a| + 1] == a + "/";
    }
  }

  /** Every directory on the way to a selected path is selected. */
  lemma SelectedAbove(f: FileFilter, a: Path, p: Path)
    requires IsAncestor(a, p) && !StartsWith(p, "/")
    requires f.IsPathSelected(p)
    ensures f.IsPathSelected(a)
  {
    assert a[0] == p[0];
    assert TrimStart(a) == a && TrimStart(p) == p;
    if f.selective.Some? && f.selective.value != [] {
      var i :| 0 <= i < |f.selective.value| && Covers(TrimStart(f.selective.value[i]), TrimStart(p));
      CoversAncestor(TrimStart(f.selective.value[i]), a, p);
      assert Covers(TrimStart(f.selective.value[i]), TrimStart(a));
    }
  }
}
