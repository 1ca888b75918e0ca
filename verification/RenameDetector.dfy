/** Greedy rename detection: deletions are paired with additions that look like the same file. */
module RenameDetector {
  import opened Prelude
  import opened SyncTypes

  datatype CandidateItem = CandidateItem(relPath: Path, size: nat, checksum: Option<string>)

  datatype DetectedMove = DetectedMove(from: Path, to: Path, size: nat)

  datatype Pairing = Pairing(
    pairs: seq<(CandidateItem, CandidateItem)>, restDel: seq<CandidateItem>, restAdd: seq<CandidateItem>)

  /** The last component of a path; trailing slashes and "." components do not count, and ".." has no name. */
  function FileName(p: Path): Option<string> {
    var i := LastSlash(p);
    var segment := p[i + 1..];
    if segment == "" || segment == "." then
      if i < 0 then None else FileName(p[..i])
    else if segment == ".." then None
    else Some(segment)
  }

  predicate Matches(del: CandidateItem, add: CandidateItem) {
    && del.size == add.size && del.size > 0
    && (|| (del.checksum.Some? && del.checksum == add.checksum)
        || (FileName(del.relPath).Some? && FileName(del.relPath) == FileName(add.relPath)))
  }

  /** The position of the first addition that matches, or the length of the list. */
  function FirstMatch(del: CandidateItem, adds: seq<CandidateItem>): (i: nat)
    ensures i <= |adds|
    ensures i < |adds| ==> Matches(del, adds[i])
    ensures forall k :: 0 <= k < i ==> !Matches(del, adds[k])
  {
    if adds == [] then 0
    else if Matches(del, adds[0]) then 0
    else 1 + FirstMatch(del, adds[1..])
  }

  /** What is paired and what is left over once the deletions have been looked at from first to last. */
  function Detect(dels: seq<CandidateItem>, adds: seq<CandidateItem>): Pairing {
    if dels == [] then Pairing([], [], adds)
    else
      var before := Detect(dels[..|dels| - 1], adds);
      var del := dels[|dels| - 1];
      var i := FirstMatch(del, before.restAdd);
      if i < |before.restAdd| then
        Pairing(before.pairs + [(del, before.restAdd[i])], before.restDel, RemoveAt(before.restAdd, i))
      else
        before.(restDel := before.restDel + [del])
  }

  function MovesOf(pairs: seq<(CandidateItem, CandidateItem)>): (moves: seq<DetectedMove>)
    ensures |moves| == |pairs|
  {
    seq(|pairs|, i requires 0 <= i < |pairs| =>
      DetectedMove(pairs[i].0.relPath, pairs[i].1.relPath, pairs[i].0.size))
  }

  method DetectMoves(deletions: seq<CandidateItem>, additions: seq<CandidateItem>)
    returns (moves: seq<DetectedMove>, unmatchedDeletions: seq<CandidateItem>, unmatchedAdditions: seq<CandidateItem>)
    ensures moves == MovesOf(Detect(deletions, additions).pairs)
    ensures unmatchedDeletions == Detect(deletions, additions).restDel
    ensures unmatchedAdditions == Detect(deletions, additions).restAdd
  {
    moves, unmatchedDeletions, unmatchedAdditions := [], [], additions;
    for d := 0 to |deletions|
      invariant Pairing(Detect(deletions[..d], additions).pairs, unmatchedDeletions, unmatchedAdditions)
             == Detect(deletions[..d], additions)
      invariant moves == MovesOf(Detect(deletions[..d], additions).pairs)
    {
      var del := deletions[d];
      assert deletions[..d + 1][..d] == deletions[..d];
      var idx := 0;
      while idx < |unmatchedAdditions| && !Matches(del, unmatchedAdditions[idx])
        invariant idx <= |unmatchedAdditions|
        invariant forall k :: 0 <= k < idx ==> !Matches(del, unmatchedAdditions[k])
      {
        idx := idx + 1;
      }
      assert idx == FirstMatch(del, unmatchedAdditions);
      if idx < |unmatchedAdditions| {
        var add := unmatchedAdditions[idx];
        unmatchedAdditions := RemoveAt(unmatchedAdditions, idx);
        moves := moves + [DetectedMove(del.relPath, add.relPath, del.size)];
      } else {
        unmatchedDeletions := unmatchedDeletions + [del];
      }
    }
    assert deletions[..|deletions|] == deletions;
  }

  // ---------------------------------------------------------------- Conservation

  function Firsts(q: seq<(CandidateItem, CandidateItem)>): (s: seq<CandidateItem>)
    ensures |s| == |q|
    ensures forall k :: 0 <= k < |q| ==> s[k] == q[k].0
  {
    seq(|q|, i requires 0 <= i < |q| => q[i].0)
  }

  function Seconds(q: seq<(CandidateItem, CandidateItem)>): (s: seq<CandidateItem>)
    ensures |s| == |q|
    ensures forall k :: 0 <= k < |q| ==> s[k] == q[k].1
  {
    seq(|q|, i requires 0 <= i < |q| => q[i].1)
  }

  lemma FirstsSnoc(q: seq<(CandidateItem, CandidateItem)>, del: CandidateItem, add: CandidateItem)
    ensures Firsts(q + [(del, add)]) == Firsts(q) + [del]
    ensures Seconds(q + [(del, add)]) == Seconds(q) + [add]
  {}

  /** Whatever the candidates are counted by (identity, path), none is lost, invented or used twice. */
  lemma {:induction false} Conserved(f: CandidateItem -> bool, dels: seq<CandidateItem>, adds: seq<CandidateItem>)
    ensures var d := Detect(dels, adds);
      && CountIf(f, Firsts(d.pairs)) + CountIf(f, d.restDel) == CountIf(f, dels)
      && CountIf(f, Seconds(d.pairs)) + CountIf(f, d.restAdd) == CountIf(f, adds)
  {
    if dels != [] {
      var init, del := dels[..|dels| - 1], dels[|dels| - 1];
      Conserved(f, init, adds);
      var before := Detect(init, adds);
      var i := FirstMatch(del, before.restAdd);
      if i < |before.restAdd| {
        var add := before.restAdd[i];
        FirstsSnoc(before.pairs, del, add);
        CountIfSnoc(f, Firsts(before.pairs), del);
        CountIfSnoc(f, Seconds(before.pairs), add);
        CountRemoveAt(f, before.restAdd, i);
      } else {
        CountIfSnoc(f, before.restDel, del);
      }
    }
  }

  // ---------------------------------------------------------------- Quality

  /** A one-to-one pairing of some deletions with some additions in which every pair passes the match test. */
  ghost predicate IsMatching(q: seq<(CandidateItem, CandidateItem)>, dels: seq<CandidateItem>, adds: seq<CandidateItem>) {
    && (forall k :: 0 <= k < |q| ==> Matches(q[k].0, q[k].1))
    && multiset(Firsts(q)) <= multiset(dels)
    && multiset(Seconds(q)) <= multiset(adds)
  }

  lemma {:induction false} Greedy(dels: seq<CandidateItem>, adds: seq<CandidateItem>)
    ensures var d := Detect(dels, adds);
      && (forall k :: 0 <= k < |d.pairs| ==> Matches(d.pairs[k].0, d.pairs[k].1))
      && (forall a, b :: a in d.restDel && b in d.restAdd ==> !Matches(a, b))
  {
    if dels != [] {
      Greedy(dels[..|dels| - 1], adds);
    }
  }

  function Outside(s: seq<CandidateItem>, rest: seq<CandidateItem>): seq<CandidateItem> {
    if s == [] then []
    else (if s[0] in rest then [] else [s[0]]) + Outside(s[1..], rest)
  }

  lemma {:induction false} OutsideCounts(s: seq<CandidateItem>, rest: seq<CandidateItem>, x: CandidateItem)
    ensures multiset(Outside(s, rest))[x] == if x in rest then 0 else multiset(s)[x]
  {
    if s != [] {
      MultisetHead(s);
      OutsideCounts(s[1..], rest, x);
    }
  }

  lemma OutsideBound(s: seq<CandidateItem>, used: seq<CandidateItem>, rest: seq<CandidateItem>)
    requires multiset(s) <= multiset(used) + multiset(rest)
    ensures |Outside(s, rest)| <= |used|
  {
    var o := multiset(Outside(s, rest));
    forall x ensures o[x] <= multiset(used)[x] {
      OutsideCounts(s, rest, x);
    }
    assert multiset(used) == o + (multiset(used) - o);
  }

  lemma {:induction false} EveryPairTouches(q: seq<(CandidateItem, CandidateItem)>, restDel: seq<CandidateItem>, restAdd: seq<CandidateItem>)
    requires forall k :: 0 <= k < |q| ==> !(q[k].0 in restDel && q[k].1 in restAdd)
    ensures |q| <= |Outside(Firsts(q), restDel)| + |Outside(Seconds(q), restAdd)|
  {
    if q != [] {
      EveryPairTouches(q[1..], restDel, restAdd);
      assert Firsts(q)[1..] == Firsts(q[1..]) && Seconds(q)[1..] == Seconds(q[1..]);
      assert !(q[0].0 in restDel && q[0].1 in restAdd);
    }
  }

  lemma {:induction false} SplitsExactly(dels: seq<CandidateItem>, adds: seq<CandidateItem>)
    ensures var d := Detect(dels, adds);
      && multiset(Firsts(d.pairs)) + multiset(d.restDel) == multiset(dels)
      && multiset(Seconds(d.pairs)) + multiset(d.restAdd) == multiset(adds)
  {
    var d := Detect(dels, adds);
    forall x: CandidateItem
      ensures multiset(Firsts(d.pairs))[x] + multiset(d.restDel)[x] == multiset(dels)[x]
      ensures multiset(Seconds(d.pairs))[x] + multiset(d.restAdd)[x] == multiset(adds)[x]
    {
      Conserved(Is(x), dels, adds);
      CountIsMultiplicity(Firsts(d.pairs), x); CountIsMultiplicity(d.restDel, x); CountIsMultiplicity(dels, x);
      CountIsMultiplicity(Seconds(d.pairs), x); CountIsMultiplicity(d.restAdd, x); CountIsMultiplicity(adds, x);
    }
  }

  /**
   * The detector returns a matching, splits both lists exactly into moved and left-over items, leaves no matchable
   * pair behind, and finds at least half as many moves as any matching whatever.
   */
  lemma {:induction false} MatchingQuality(dels: seq<CandidateItem>, adds: seq<CandidateItem>, q: seq<(CandidateItem, CandidateItem)>)
    ensures var d := Detect(dels, adds);
      && multiset(Firsts(d.pairs)) + multiset(d.restDel) == multiset(dels)
      && multiset(Seconds(d.pairs)) + multiset(d.restAdd) == multiset(adds)
      && IsMatching(d.pairs, dels, adds)
      && (forall a, b :: a in d.restDel && b in d.restAdd ==> !Matches(a, b))
      && (IsMatching(q, dels, adds) ==> |q| <= 2 * |d.pairs|)
  {
    var d := Detect(dels, adds);
    Greedy(dels, adds);
    SplitsExactly(dels, adds);
    if IsMatching(q, dels, adds) {
      EveryPairTouches(q, d.restDel, d.restAdd);
      OutsideBound(Firsts(q), Firsts(d.pairs), d.restDel);
      OutsideBound(Seconds(q), Seconds(d.pairs), d.restAdd);
    }
  }

  lemma NameInFolder(folder: char, name: char)
    requires name != '/' && name != '.'
    ensures FileName([folder, '/', name]) == Some([name])
  {
    var p := [folder, '/', name];
    assert p[..2] == [folder, '/'];
    assert LastSlash(p) == 1;
    assert p[2..] == [name];
  }

  lemma DetectSnoc(dels: seq<CandidateItem>, del: CandidateItem, adds: seq<CandidateItem>)
    ensures var before := Detect(dels, adds);
      var i := FirstMatch(del, before.restAdd);
      Detect(dels + [del], adds) ==
        if i < |before.restAdd| then
          Pairing(before.pairs + [(del, before.restAdd[i])], before.restDel, RemoveAt(before.restAdd, i))
        else
          before.(restDel := before.restDel + [del])
  {
    assert (dels + [del])[..|dels|] == dels;
  }

  lemma FirstTakes(d0: CandidateItem, a0: CandidateItem, a1: CandidateItem)
    requires Matches(d0, a0)
    ensures Detect([d0], [a0, a1]) == Pairing([(d0, a0)], [], [a1])
  {
    DetectSnoc([], d0, [a0, a1]);
    AppendToNone(d0);
    AppendToNone((d0, a0));
    RemoveFirst(a0, a1);
  }

  /** Where the second deletion could only have used the addition the first one took, a move is missed. */
  lemma OneMoveMissed(d0: CandidateItem, d1: CandidateItem, a0: CandidateItem, a1: CandidateItem)
    requires Matches(d0, a0) && !Matches(d1, a1)
    ensures |Detect([d0] + [d1], [a0, a1]).pairs| == 1
  {
    FirstTakes(d0, a0, a1);
    DetectSnoc([d0], d1, [a0, a1]);
  }

  lemma CrossMatching(d0: CandidateItem, d1: CandidateItem, a0: CandidateItem, a1: CandidateItem)
    requires Matches(d0, a1) && Matches(d1, a0)
    ensures IsMatching([(d0, a1), (d1, a0)], [d0] + [d1], [a0, a1])
  {
    assert Firsts([(d0, a1), (d1, a0)]) == [d0] + [d1];
    assert Seconds([(d0, a1), (d1, a0)]) == [a1, a0];
    SwappedPair(a0, a1);
  }

  /** The factor two in MatchingQuality is attained. */
  lemma HalfIsTight()
    returns (dels: seq<CandidateItem>, adds: seq<CandidateItem>, q: seq<(CandidateItem, CandidateItem)>)
    ensures IsMatching(q, dels, adds) && |Detect(dels, adds).pairs| == 1 && |q| == 2
  {
    NameInFolder('a', 'x'); NameInFolder('b', 'x'); NameInFolder('e', 'x'); NameInFolder('e', 'y');
    var d0, d1 := CandidateItem(['a', '/', 'x'], 1, Some("c")), CandidateItem(['b', '/', 'x'], 1, None);
    var a0, a1 := CandidateItem(['e', '/', 'x'], 1, None), CandidateItem(['e', '/', 'y'], 1, Some("c"));
    assert ['x'][0] != ['y'][0];
    OneMoveMissed(d0, d1, a0, a1);
    CrossMatching(d0, d1, a0, a1);
    dels, adds, q := [d0] + [d1], [a0, a1], [(d0, a1), (d1, a0)];
  }
}
