/** What counts as the name of a file, and which names rename detection takes for the same. */
module FileNames {
  import opened Prelude
  import opened SyncTypes
  import opened RenameDetector
  import opened Planner
  import opened Ownership
  import opened Moves

  /** A component of a path that names something. */
  predicate IsName(name: string) {
    name != "" && '/' !in name && name != "." && name != ".."
  }

  /** What comes after the last slash. */
  function Tail(p: Path): string { p[LastSlash(p) + 1..] }

  lemma LastSlashIs(p: string, i: nat)
    requires i < |p| && p[i] == '/' && forall k :: i < k < |p| ==> p[k] != '/'
    ensures LastSlash(p) == i
  {
    hide LastSlash;
  }

  lemma ThreeParts<T>(a: seq<T>, x: T, b: seq<T>)
    ensures var p := a + [x] + b;
      && |p| == |a| + 1 + |b| && p[|a|] == x && p[..|a|] == a && p[|a| + 1..] == b
      && forall k :: |a| < k < |p| ==> p[k] in b
  {}

  lemma LastSlashAt(folder: string, rest: string)
    requires '/' !in rest
    ensures LastSlash(folder + "/" + rest) == |folder|
    ensures Tail(folder + "/" + rest) == rest && (folder + "/" + rest)[..|folder|] == folder
  {
    hide LastSlash;
    ThreeParts(folder, '/', rest);
    LastSlashIs(folder + "/" + rest, |folder|);
  }

  lemma NoSlash(name: string)
    requires '/' !in name
    ensures LastSlash(name) == -1 && Tail(name) == name
  {}

  lemma LastComponent(folder: string, rest: string)
    requires '/' !in rest
    ensures FileName(folder + "/" + rest) ==
      if rest == "" || rest == "." then FileName(folder) else if rest == ".." then None else Some(rest)
  {
    LastSlashAt(folder, rest);
    hide LastSlash;
  }

  lemma OnlyComponent(rest: string)
    requires '/' !in rest
    ensures FileName(rest) == if rest == "" || rest == "." || rest == ".." then None else Some(rest)
  {
    NoSlash(rest);
    hide LastSlash;
  }

  /** A file is named by its last component, whatever the folder and however long either is. */
  lemma NamedFile(folder: string, name: string)
    requires IsName(name)
    ensures FileName(folder + "/" + name) == Some(name)
    ensures FileName(name) == Some(name)
  {
    LastComponent(folder, name);
    OnlyComponent(name);
  }

  /** Slashes and dots at the end do not count, and ".." names nothing. */
  lemma TrailingParts(p: string)
    ensures FileName(p + "/" + "") == FileName(p)
    ensures FileName(p + "/" + ".") == FileName(p)
    ensures FileName(p + "/" + "..") == None
    ensures FileName("") == None && FileName(".") == None && FileName("..") == None
  {
    LastComponent(p, "");
    LastComponent(p, ".");
    LastComponent(p, "..");
    OnlyComponent("");
    OnlyComponent(".");
    OnlyComponent("..");
    hide FileName;
  }

  lemma TailName(p: Path)
    requires IsName(Tail(p))
    ensures FileName(p) == Some(Tail(p))
  {}

  lemma NamesDecide(del: CandidateItem, add: CandidateItem)
    requires FileName(del.relPath).Some? && FileName(add.relPath).Some?
    requires del.checksum == None || add.checksum == None
    ensures Matches(del, add) <==> del.size == add.size > 0 && FileName(del.relPath) == FileName(add.relPath)
  {
    hide FileName;
  }

  /** Without a checksum on one side, two files of one positive size match exactly if the whole names are equal. */
  lemma MatchesByName(del: CandidateItem, add: CandidateItem)
    requires IsName(Tail(del.relPath)) && IsName(Tail(add.relPath))
    requires del.checksum == None || add.checksum == None
    ensures Matches(del, add) <==> del.size == add.size > 0 && Tail(del.relPath) == Tail(add.relPath)
  {
    TailName(del.relPath);
    TailName(add.relPath);
    hide FileName, Tail, Matches, IsName;
    NamesDecide(del, add);
  }

  /** A move planned without local checksums, between paths that end in a name, keeps the name. */
  lemma MoveKeepsName(inp: Inputs, order: seq<Path>, m: SyncAction)
    requires forall p :: p in inp.local ==> inp.local[p].checksum == None
    requires m in PlanOf(inp, order) && m.ServerSideMove?
    requires IsName(Tail(m.from)) && IsName(Tail(m.to))
    ensures Tail(m.from) == Tail(m.to)
  {
    MoveJoins(inp, order, m);
    AdditionHasLocalChecksum(inp, m.to);
    DecisionAbout(inp, m.from);
    DecisionAbout(inp, m.to);
    hide Decide, PlanOf, Matches;
    MatchesByName(DecideAt(inp, m.from).item, DecideAt(inp, m.to).item);
  }

  lemma OneByOne(d: CandidateItem, a: CandidateItem)
    ensures Detect([d], [a]) == if Matches(d, a) then Pairing([(d, a)], [], []) else Pairing([], [d], [a])
  {
    hide Matches;
    var none: seq<CandidateItem> := [];
    assert Detect(none, [a]) == Pairing([], [], [a]);
    assert FirstMatch(d, [a]) == if Matches(d, a) then 0 else 1;
    hide Detect, FirstMatch;
    DetectSnoc(none, d, [a]);
    AppendToNone(d);
    AppendToNone((d, a));
    assert RemoveAt([a], 0) == none;
  }

  /** Two files of one size, the first gone and the second new, are paired exactly if they have one name. */
  lemma OneCandidateEach(folder1: string, name1: string, folder2: string, name2: string, size: nat)
    requires IsName(name1) && IsName(name2) && size > 0
    ensures var d, a := CandidateItem(folder1 + "/" + name1, size, None), CandidateItem(folder2 + "/" + name2, size, None);
      Detect([d], [a]) == if name1 == name2 then Pairing([(d, a)], [], []) else Pairing([], [d], [a])
  {
    var path1, path2 := folder1 + "/" + name1, folder2 + "/" + name2;
    NamedFile(folder1, name1);
    NamedFile(folder2, name2);
    hide Matches, FileName, IsName, Detect;
    var d, a := CandidateItem(path1, size, None), CandidateItem(path2, size, None);
    NamesDecide(d, a);
    OneByOne(d, a);
  }
}
