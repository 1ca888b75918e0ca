/** When greedy rename detection finds as many moves as possible. */
module Optimality {
  import opened Prelude
  import opened RenameDetector

  type Pairs = seq<(CandidateItem, CandidateItem)>

  /** No one-to-one pairing that meets the match test has more pairs than the detector finds. */
  ghost predicate Optimal(dels: seq<CandidateItem>, adds: seq<CandidateItem>) {
    forall q :: IsMatching(q, dels, adds) ==> |q| <= |Detect(dels, adds).pairs|
  }

  /** All that the match test looks at in an addition. */
  datatype Key = Key(size: nat, checksum: Option<string>, name: Option<string>)

  function KeyOf(c: CandidateItem): Key { Key(c.size, c.checksum, FileName(c.relPath)) }

  predicate MatchesKey(del: CandidateItem, k: Key) {
    && del.size == k.size && del.size > 0
    && (|| (del.checksum.Some? && del.checksum == k.checksum)
        || (FileName(del.relPath).Some? && FileName(del.relPath) == k.name))
  }

  /** Some deletion of this size would match both. */
  predicate Confusable(a: Key, b: Key) {
    || (a.checksum.Some? && (a.checksum == b.checksum || b.name.Some?))
    || (a.name.Some? && (a.name == b.name || b.checksum.Some?))
  }

  /** Two additions that the same deletions match, or that no deletion matches both. */
  predicate Unambiguous(a: CandidateItem, b: CandidateItem) {
    a.size == b.size > 0 ==> KeyOf(a) == KeyOf(b) || !Confusable(KeyOf(a), KeyOf(b))
  }

  ghost predicate AllUnambiguous(adds: seq<CandidateItem>) {
    forall a, b :: a in adds && b in adds ==> Unambiguous(a, b)
  }

  lemma OneKeyPerDeletion(d: CandidateItem, a: CandidateItem, b: CandidateItem)
    requires Matches(d, a) && Matches(d, b) && Unambiguous(a, b)
    ensures KeyOf(a) == KeyOf(b)
  {
    hide FileName;
  }

  // ---------------------------------------------------------------- Unambiguous additions are enough

  function HasKey(k: Key): CandidateItem -> bool { (c: CandidateItem) => KeyOf(c) == k }

  function MatchedBy(k: Key): CandidateItem -> bool { (c: CandidateItem) => MatchesKey(c, k) }

  /** A matching uses no more additions with a key than there are, and no more than deletions that match it. */
  lemma KeyBound(q: Pairs, dels: seq<CandidateItem>, adds: seq<CandidateItem>, k: Key)
    requires IsMatching(q, dels, adds)
    ensures CountIf(HasKey(k), Seconds(q)) <= CountIf(HasKey(k), adds)
    ensures CountIf(HasKey(k), Seconds(q)) <= CountIf(MatchedBy(k), dels)
  {
    hide FileName;
    CountIfIncluded(HasKey(k), Seconds(q), adds);
    CountIfPointwise(HasKey(k), Seconds(q), MatchedBy(k), Firsts(q));
    CountIfIncluded(MatchedBy(k), Firsts(q), dels);
  }

  lemma MatchesByKey(d: CandidateItem, a: CandidateItem)
    ensures Matches(d, a) <==> MatchesKey(d, KeyOf(a))
  {
    hide FileName;
  }

  /** If an addition with the key is left over, no deletion that matches the key is. */
  lemma NoneLeft(dels: seq<CandidateItem>, adds: seq<CandidateItem>, a: CandidateItem)
    requires a in Detect(dels, adds).restAdd
    ensures CountIf(MatchedBy(KeyOf(a)), Detect(dels, adds).restDel) == 0
  {
    hide Detect, KeyOf, MatchesKey, Matches;
    var d := Detect(dels, adds);
    Greedy(dels, adds);
    forall i | 0 <= i < |d.restDel| ensures !MatchesKey(d.restDel[i], KeyOf(a)) {
      assert d.restDel[i] in d.restDel && !Matches(d.restDel[i], a);
      MatchesByKey(d.restDel[i], a);
    }
    CountIfNone(MatchedBy(KeyOf(a)), d.restDel);
  }

  /** Then the deletions that match the key have all gone to additions with the key. */
  lemma SameKeyPairs(dels: seq<CandidateItem>, adds: seq<CandidateItem>, a: CandidateItem)
    requires AllUnambiguous(adds) && a in adds
    ensures var d := Detect(dels, adds);
      CountIf(MatchedBy(KeyOf(a)), Firsts(d.pairs)) <= CountIf(HasKey(KeyOf(a)), Seconds(d.pairs))
  {
    hide Detect, KeyOf, MatchesKey, Matches, Unambiguous;
    var d := Detect(dels, adds);
    Greedy(dels, adds);
    SplitsExactly(dels, adds);
    forall i | 0 <= i < |d.pairs| && MatchesKey(Firsts(d.pairs)[i], KeyOf(a)) ensures KeyOf(Seconds(d.pairs)[i]) == KeyOf(a) {
      var b := Seconds(d.pairs)[i];
      assert b in multiset(Seconds(d.pairs));
      assert b in multiset(adds);
      MatchesByKey(Firsts(d.pairs)[i], a);
      OneKeyPerDeletion(Firsts(d.pairs)[i], a, b);
    }
    CountIfPointwise(MatchedBy(KeyOf(a)), Firsts(d.pairs), HasKey(KeyOf(a)), Seconds(d.pairs));
  }

  /** The detector uses all additions with a key or all deletions that match it. */
  lemma KeyUsedUp(dels: seq<CandidateItem>, adds: seq<CandidateItem>, k: Key)
    requires AllUnambiguous(adds)
    ensures var used := CountIf(HasKey(k), Seconds(Detect(dels, adds).pairs));
      used >= CountIf(HasKey(k), adds) || used >= CountIf(MatchedBy(k), dels)
  {
    hide Detect, KeyOf, AllUnambiguous;
    var d := Detect(dels, adds);
    Conserved(HasKey(k), dels, adds);
    Conserved(MatchedBy(k), dels, adds);
    if a :| a in d.restAdd && KeyOf(a) == k {
      SplitsExactly(dels, adds);
      assert a in multiset(d.restAdd);
      assert a in multiset(adds);
      NoneLeft(dels, adds, a);
      SameKeyPairs(dels, adds, a);
    } else {
      CountIfNone(HasKey(k), d.restAdd);
    }
  }

  function Keys(s: seq<CandidateItem>): (keys: seq<Key>)
    ensures |keys| == |s|
  {
    seq(|s|, i requires 0 <= i < |s| => KeyOf(s[i]))
  }

  lemma KeyCount(s: seq<CandidateItem>, k: Key)
    ensures multiset(Keys(s))[k] == CountIf(HasKey(k), s)
  {
    hide FileName;
    CountIfPointwise(HasKey(k), s, Is(k), Keys(s));
    CountIfPointwise(Is(k), Keys(s), HasKey(k), s);
    CountIsMultiplicity(Keys(s), k);
  }

  lemma UnambiguousIsOptimal(dels: seq<CandidateItem>, adds: seq<CandidateItem>)
    requires AllUnambiguous(adds)
    ensures Optimal(dels, adds)
  {
    hide Detect, AllUnambiguous;
    forall q | IsMatching(q, dels, adds) ensures |q| <= |Detect(dels, adds).pairs| {
      var mine, theirs := multiset(Keys(Seconds(Detect(dels, adds).pairs))), multiset(Keys(Seconds(q)));
      forall k ensures theirs[k] <= mine[k] {
        KeyBound(q, dels, adds, k);
        KeyUsedUp(dels, adds, k);
        KeyCount(Seconds(q), k);
        KeyCount(Seconds(Detect(dels, adds).pairs), k);
      }
      assert mine == theirs + (mine - theirs);
    }
  }

  lemma WithoutChecksums(adds: seq<CandidateItem>)
    requires forall a :: a in adds ==> a.checksum == None
    ensures AllUnambiguous(adds)
  {
    hide FileName;
  }

  /** Additions without checksums, which is all a local scan yields, are paired optimally. */
  lemma OptimalWithoutChecksums(dels: seq<CandidateItem>, adds: seq<CandidateItem>)
    requires forall a :: a in adds ==> a.checksum == None
    ensures Optimal(dels, adds)
  {
    WithoutChecksums(adds);
    UnambiguousIsOptimal(dels, adds);
  }

  // ---------------------------------------------------------------- Unambiguous additions are necessary

  lemma NamelessPath()
    ensures FileName("") == None
  {}

  /** A deletion that matches both of two confusable additions. */
  lemma CommonDeletion(a: CandidateItem, b: CandidateItem) returns (d: CandidateItem)
    requires a.size == b.size > 0 && Confusable(KeyOf(a), KeyOf(b))
    ensures Matches(d, a) && Matches(d, b)
  {
    NamelessPath();
    hide FileName;
    if a.checksum.Some? {
      d := CandidateItem(if a.checksum == b.checksum then "" else b.relPath, a.size, a.checksum);
      if a.checksum != b.checksum && FileName(b.relPath).None? {
        d := CandidateItem(a.relPath, a.size, b.checksum);
      }
    } else {
      d := CandidateItem(a.relPath, a.size, b.checksum);
    }
  }

  /** A deletion that matches one of two additions with different keys, and which one. */
  lemma TellingDeletion(a: CandidateItem, b: CandidateItem) returns (d: CandidateItem, first: bool)
    requires a.size == b.size > 0 && KeyOf(a) != KeyOf(b)
    ensures Matches(d, a) <==> first
    ensures Matches(d, b) <==> !first
  {
    NamelessPath();
    hide FileName;
    if a.checksum != b.checksum {
      first := a.checksum.Some?;
      d := CandidateItem("", a.size, if first then a.checksum else b.checksum);
    } else {
      first := FileName(a.relPath).Some?;
      d := CandidateItem(if first then a.relPath else b.relPath, a.size, None);
    }
  }

  function Copies(d: CandidateItem, n: nat): (s: seq<CandidateItem>)
    ensures |s| == n
  {
    seq(n, _ => d)
  }

  function MatchedWith(d: CandidateItem): CandidateItem -> bool { (a: CandidateItem) => Matches(d, a) }

  function Filtered(d: CandidateItem, adds: seq<CandidateItem>): (s: seq<CandidateItem>)
    ensures forall i :: 0 <= i < |s| ==> Matches(d, s[i])
  {
    if adds == [] then []
    else
      var before, last := Filtered(d, adds[..|adds| - 1]), adds[|adds| - 1];
      if Matches(d, last) then before + [last] else before
  }

  lemma {:induction false} FilteredCounts(d: CandidateItem, adds: seq<CandidateItem>, x: CandidateItem)
    ensures |Filtered(d, adds)| == CountIf(MatchedWith(d), adds)
    ensures CountIf(Is(x), Filtered(d, adds)) == if Matches(d, x) then CountIf(Is(x), adds) else 0
  {
    hide Matches;
    if adds != [] {
      var init, last := adds[..|adds| - 1], adds[|adds| - 1];
      FilteredCounts(d, init, x);
      CountIfSnoc(Is(x), Filtered(d, init), last);
    }
  }

  /** After the first deletion has taken the first addition, all pairs use additions that the other one matches. */
  lemma {:induction false} TakenBadly(d0: CandidateItem, d1: CandidateItem, a: CandidateItem, rest: seq<CandidateItem>, n: nat)
    requires Matches(d0, a) && Matches(d1, a)
    ensures forall x :: x in Seconds(Detect([d0] + Copies(d1, n), [a] + rest).pairs) ==> Matches(d1, x)
  {
    hide Matches;
    if n == 0 {
      assert [d0] + Copies(d1, 0) == [] + [d0];
      DetectSnoc([], d0, [a] + rest);
      assert FirstMatch(d0, [a] + rest) == 0;
    } else {
      TakenBadly(d0, d1, a, rest, n - 1);
      assert [d0] + Copies(d1, n) == ([d0] + Copies(d1, n - 1)) + [d1];
      DetectSnoc([d0] + Copies(d1, n - 1), d1, [a] + rest);
    }
  }

  lemma FoundAtMost(d0: CandidateItem, d1: CandidateItem, a: CandidateItem, rest: seq<CandidateItem>, n: nat)
    requires Matches(d0, a) && Matches(d1, a)
    ensures |Detect([d0] + Copies(d1, n), [a] + rest).pairs| <= CountIf(MatchedWith(d1), [a] + rest)
  {
    hide Detect, FileName;
    var dels, adds := [d0] + Copies(d1, n), [a] + rest;
    var found := Detect(dels, adds).pairs;
    TakenBadly(d0, d1, a, rest, n);
    assert forall i :: 0 <= i < |found| ==> Seconds(found)[i] in Seconds(found);
    CountIfPointwise(Always(), found, MatchedWith(d1), Seconds(found));
    AlwaysCounts(found);
    Conserved(MatchedWith(d1), dels, adds);
  }

  /** The other way round, every addition that the second deletion matches is used, and one more. */
  function Better(d0: CandidateItem, d1: CandidateItem, b: CandidateItem, taken: seq<CandidateItem>): Pairs {
    [(d0, b)] + seq(|taken|, i requires 0 <= i < |taken| => (d1, taken[i]))
  }

  lemma BetterParts(d0: CandidateItem, d1: CandidateItem, b: CandidateItem, taken: seq<CandidateItem>)
    ensures Firsts(Better(d0, d1, b, taken)) == [d0] + Copies(d1, |taken|)
    ensures Seconds(Better(d0, d1, b, taken)) == [b] + taken
  {}

  lemma BetterFits(d1: CandidateItem, b: CandidateItem, adds: seq<CandidateItem>)
    requires b in adds && !Matches(d1, b)
    ensures multiset([b] + Filtered(d1, adds)) <= multiset(adds)
  {
    hide Matches, Filtered;
    var taken := Filtered(d1, adds);
    forall x ensures multiset([b] + taken)[x] <= multiset(adds)[x] {
      FilteredCounts(d1, adds, x);
      CountIsMultiplicity(taken, x);
      CountIsMultiplicity(adds, x);
    }
  }

  lemma BetterMatches(d0: CandidateItem, d1: CandidateItem, b: CandidateItem, adds: seq<CandidateItem>)
    requires Matches(d0, b) && !Matches(d1, b) && b in adds
    ensures var taken := Filtered(d1, adds); IsMatching(Better(d0, d1, b, taken), [d0] + Copies(d1, |taken|), adds)
  {
    hide Matches;
    var taken := Filtered(d1, adds);
    BetterParts(d0, d1, b, taken);
    BetterFits(d1, b, adds);
  }

  /** The first deletion takes what the others need, although it could have taken something else. */
  lemma GreedyFails(d0: CandidateItem, d1: CandidateItem, a: CandidateItem, b: CandidateItem, rest: seq<CandidateItem>)
    requires Matches(d0, a) && Matches(d0, b) && Matches(d1, a) && !Matches(d1, b) && b in rest
    ensures !Optimal([d0] + Copies(d1, CountIf(MatchedWith(d1), [a] + rest)), [a] + rest)
  {
    hide Matches, Detect, IsMatching;
    var adds := [a] + rest;
    var taken := Filtered(d1, adds);
    FilteredCounts(d1, adds, b);
    BetterMatches(d0, d1, b, adds);
    FoundAtMost(d0, d1, a, rest, |taken|);
  }

  function Always(): ((CandidateItem, CandidateItem)) -> bool { _ => true }

  lemma {:induction false} AlwaysCounts(s: Pairs)
    ensures CountIf(Always(), s) == |s|
  {
    if s != [] {
      AlwaysCounts(s[..|s| - 1]);
    }
  }

  lemma BringToFront(adds: seq<CandidateItem>, a: CandidateItem, b: CandidateItem) returns (rest: seq<CandidateItem>)
    requires a in adds && b in adds && a != b
    ensures multiset([a] + rest) == multiset(adds) && b in rest
  {
    var i :| 0 <= i < |adds| && adds[i] == a;
    rest := RemoveAt(adds, i);
    RemoveAtMultiset(adds, i);
    assert multiset([a] + rest) == multiset{a} + multiset(rest);
    assert b in multiset(adds);
    assert b in multiset(rest);
  }

  /** The detector is optimal on these additions, whatever the deletions and however both lists are ordered. */
  ghost predicate AlwaysOptimal(adds: seq<CandidateItem>) {
    forall dels, shuffled :: multiset(shuffled) == multiset(adds) ==> Optimal(dels, shuffled)
  }

  lemma AmbiguousFails(adds: seq<CandidateItem>, a: CandidateItem, b: CandidateItem)
    requires a in adds && b in adds && !Unambiguous(a, b)
    ensures !AlwaysOptimal(adds)
  {
    hide Matches, KeyOf, Optimal;
    var d0 := CommonDeletion(a, b);
    var d1, first := TellingDeletion(a, b);
    var x, y := if first then a else b, if first then b else a;
    var rest := BringToFront(adds, x, y);
    GreedyFails(d0, d1, x, y, rest);
  }

  /**
   * The detector finds as many moves as possible, for every list of deletions and every order of both lists, if and
   * only if no two additions of one size are confusable and yet differ in checksum or name.
   */
  lemma GreedyIsOptimal(adds: seq<CandidateItem>)
    ensures AlwaysOptimal(adds) <==> AllUnambiguous(adds)
  {
    hide Unambiguous, Optimal;
    if AllUnambiguous(adds) {
      forall dels, shuffled | multiset(shuffled) == multiset(adds) ensures Optimal(dels, shuffled) {
        forall a, b | a in shuffled && b in shuffled ensures Unambiguous(a, b) {
          assert a in multiset(adds) && b in multiset(adds);
        }
        UnambiguousIsOptimal(dels, shuffled);
      }
    } else {
      var a, b :| a in adds && b in adds && !Unambiguous(a, b);
      AmbiguousFails(adds, a, b);
    }
  }
}
