/** Splitting a sequence at a separator, and joining the parts again. */
module Segments {

  function Position<T(==)>(s: seq<T>, sep: T): (i: nat)
    ensures i <= |s|
    ensures i < |s| ==> s[i] == sep
    ensures forall k :: 0 <= k < i ==> s[k] != sep
  {
    if s == [] || s[0] == sep then 0 else 1 + Position(s[1..], sep)
  }

  function Split<T(==)>(s: seq<T>, sep: T): (parts: seq<seq<T>>)
    ensures parts != []
    decreases |s|
  {
    var i := Position(s, sep);
    if i == |s| then [s] else [s[..i]] + Split(s[i + 1..], sep)
  }

  function Join<T>(parts: seq<seq<T>>, sep: T): seq<T> {
    if parts == [] then []
    else if |parts| == 1 then parts[0]
    else parts[0] + [sep] + Join(parts[1..], sep)
  }

  lemma PositionUnique<T>(s: seq<T>, sep: T, i: nat)
    requires i <= |s|
    requires i < |s| ==> s[i] == sep
    requires forall k :: 0 <= k < i ==> s[k] != sep
    ensures Position(s, sep) == i
  {}

  /** Splitting a concatenation at a separator splits both halves. */
  lemma {:induction false} SplitAcross<T>(a: seq<T>, b: seq<T>, sep: T)
    ensures Split(a + [sep] + b, sep) == Split(a, sep) + Split(b, sep)
    decreases |a|
  {
    var i := Position(a, sep);
    var s := a + [sep] + b;
    PositionUnique(s, sep, i);
    if i == |a| {
      assert s[..i] == a && s[i + 1..] == b;
    } else {
      assert s[..i] == a[..i];
      assert s[i + 1..] == a[i + 1..] + [sep] + b;
      SplitAcross(a[i + 1..], b, sep);
      assert [a[..i]] + (Split(a[i + 1..], sep) + Split(b, sep)) == [a[..i]] + Split(a[i + 1..], sep) + Split(b, sep);
    }
  }

  lemma JoinCons<T>(first: seq<T>, parts: seq<seq<T>>, sep: T)
    requires parts != []
    ensures Join([first] + parts, sep) == first + [sep] + Join(parts, sep)
  {}

  /** The parts hold no separator and make up the whole again. */
  lemma {:induction false} SplitParts<T>(s: seq<T>, sep: T)
    ensures Join(Split(s, sep), sep) == s
    ensures forall part :: part in Split(s, sep) ==> sep !in part
    decreases |s|
  {
    var i := Position(s, sep);
    if i < |s| {
      SplitParts(s[i + 1..], sep);
      JoinCons(s[..i], Split(s[i + 1..], sep), sep);
      assert s == s[..i] + [sep] + s[i + 1..];
    }
  }

  lemma {:induction false} JoinAppend<T>(a: seq<seq<T>>, b: seq<seq<T>>, sep: T)
    requires a != [] && b != []
    ensures Join(a + b, sep) == Join(a, sep) + [sep] + Join(b, sep)
  {
    if |a| == 1 {
      assert a + b == [a[0]] + b;
      JoinCons(a[0], b, sep);
    } else {
      assert a + b == [a[0]] + (a[1..] + b);
      JoinAppend(a[1..], b, sep);
      JoinCons(a[0], a[1..] + b, sep);
      JoinCons(a[0], a[1..], sep);
      assert a == [a[0]] + a[1..];
      Regroup(a[0], sep, Join(a[1..], sep), Join(b, sep));
    }
  }

  lemma Regroup<T>(x: seq<T>, sep: T, y: seq<T>, z: seq<T>)
    ensures x + [sep] + (y + [sep] + z) == x + [sep] + y + [sep] + z
  {}

  /** A string without the separator is its own only part. */
  lemma OnePart<T>(s: seq<T>, sep: T)
    requires sep !in s
    ensures Split(s, sep) == [s]
  {}

  lemma PartsGoOn<T>(x: seq<T>, y: seq<T>, sep: T)
    requires Split(x, sep) <= Split(y, sep)
    ensures x == y || x + [sep] <= y
  {
    SplitParts(x, sep);
    SplitParts(y, sep);
    var a, b := Split(x, sep), Split(y, sep);
    hide Split, Join;
    var more := b[|a|..];
    assert b == a + more;
    if more != [] {
      JoinAppend(a, more, sep);
    } else {
      assert a == b;
    }
  }

  /** The parts of one string begin the parts of another exactly if the two are equal or it goes on at a separator. */
  lemma PartsBegin<T>(x: seq<T>, y: seq<T>, sep: T)
    ensures Split(x, sep) <= Split(y, sep) <==> x == y || x + [sep] <= y
  {
    hide Split;
    if Split(x, sep) <= Split(y, sep) {
      PartsGoOn(x, y, sep);
    }
    if x + [sep] <= y {
      var rest := y[|x| + 1..];
      assert y == x + [sep] + rest;
      SplitAcross(x, rest, sep);
    }
  }
}
