/** Option, Result and the facts about sequences, multisets and set sizes that several modules share. */
module Prelude {

  datatype Option<+T> = None | Some(value: T)

  datatype Result<+T, +E> = Ok(value: T) | Err(error: E)

  const U32_MAX: nat := 0xFFFF_FFFF
  const U64_MAX: nat := 0xFFFF_FFFF_FFFF_FFFF

  function Min(a: int, b: int): int {
    if a <= b then a else b
  }

  function Max(a: int, b: int): int {
    if a >= b then a else b
  }

  function Pow2(n: nat): (p: nat)
    ensures p >= 1
  {
    if n == 0 then 1 else 2 * Pow2(n - 1)
  }

  /** The string without its leading slashes. */
  function TrimStart(s: string): (t: string)
    ensures |t| <= |s| && t == s[|s| - |t|..]
    ensures t == "" || t[0] != '/'
    ensures forall k :: 0 <= k < |s| - |t| ==> s[k] == '/'
  {
    if s != "" && s[0] == '/' then TrimStart(s[1..]) else s
  }

  function Lookup<K, V>(m: map<K, V>, k: K): Option<V> {
    if k in m then Some(m[k]) else None
  }

  function OrElse<T>(a: Option<T>, b: Option<T>): Option<T> {
    if a.Some? then a else b
  }

  ghost predicate Distinct<T>(s: seq<T>) {
    forall i, j :: 0 <= i < j < |s| ==> s[i] != s[j]
  }

  /** The order in which a hash set or hash map happens to be walked. */
  ghost predicate Enumerates<T>(order: seq<T>, s: set<T>) {
    Distinct(order) && (forall x <- order :: x in s) && (forall x <- s :: x in order)
  }

  lemma MapsEqual<K, V>(m: map<K, V>, n: map<K, V>)
    requires forall k :: Lookup(m, k) == Lookup(n, k)
    ensures m == n
  {
    forall k ensures k in m <==> k in n {
      assert Lookup(m, k) == Lookup(n, k);
    }
    forall k | k in m ensures m[k] == n[k] {
      assert Lookup(m, k) == Lookup(n, k);
    }
  }

  lemma ConcatAssociates<T>(a: seq<T>, b: seq<T>, c: seq<T>)
    ensures a + b + c == a + (b + c)
  {}

  lemma EnumeratesSnoc<T>(order: seq<T>, s: set<T>, x: T)
    requires Enumerates(order, s) && x !in s
    ensures Enumerates(order + [x], s + {x})
  {}

  /** A hash set hands out its elements in some order. */
  method Walk<T(==)>(elements: set<T>) returns (order: seq<T>)
    ensures Enumerates(order, elements)
  {
    order := [];
    var unseen := elements;
    while unseen != {}
      invariant unseen <= elements
      invariant Enumerates(order, elements - unseen)
      decreases |unseen|
    {
      var x :| x in unseen;
      EnumeratesSnoc(order, elements - unseen, x);
      assert elements - (unseen - {x}) == elements - unseen + {x};
      order := order + [x];
      unseen := unseen - {x};
    }
    assert elements - unseen == elements;
  }

  lemma AppendToNone<T>(x: T)
    ensures [] + [x] == [x]
  {}

  lemma SwappedPair<T>(x: T, y: T)
    ensures multiset([x, y]) == multiset([y, x])
  {
    assert multiset([x, y]) == multiset{x, y};
  }

  // ---------------------------------------------------------------- Counting

  function CountIf<T>(f: T -> bool, s: seq<T>): nat {
    if s == [] then 0
    else CountIf(f, s[..|s| - 1]) + if f(s[|s| - 1]) then 1 else 0
  }

  function Is<T(==)>(x: T): T -> bool { y => y == x }

  lemma CountIfSnoc<T>(f: T -> bool, s: seq<T>, x: T)
    ensures CountIf(f, s + [x]) == CountIf(f, s) + if f(x) then 1 else 0
  {
    assert (s + [x])[..|s|] == s;
  }

  lemma {:induction false} CountIfAppend<T>(f: T -> bool, s: seq<T>, t: seq<T>)
    ensures CountIf(f, s + t) == CountIf(f, s) + CountIf(f, t)
  {
    if t == [] {
      assert s + t == s;
    } else {
      var init, last := t[..|t| - 1], t[|t| - 1];
      CountIfAppend(f, s, init);
      assert s + t == (s + init) + [last];
      CountIfSnoc(f, s + init, last);
    }
  }

  function RemoveAt<T>(s: seq<T>, i: nat): seq<T>
    requires i < |s|
  {
    s[..i] + s[i + 1..]
  }

  lemma CutAt<T>(s: seq<T>, i: nat)
    requires i < |s|
    ensures s == s[..i] + [s[i]] + s[i + 1..]
  {}

  lemma CountRemoveAt<T>(f: T -> bool, s: seq<T>, i: nat)
    requires i < |s|
    ensures CountIf(f, s) == CountIf(f, RemoveAt(s, i)) + if f(s[i]) then 1 else 0
  {
    var front, x, back := s[..i], s[i], s[i + 1..];
    CutAt(s, i);
    CountIfAppend(f, front + [x], back);
    CountIfSnoc(f, front, x);
    CountIfAppend(f, front, back);
  }

  lemma RemoveFirst<T>(x: T, y: T)
    ensures RemoveAt([x, y], 0) == [y]
  {}

  lemma RemoveAtMultiset<T>(t: seq<T>, i: nat)
    requires i < |t|
    ensures multiset(RemoveAt(t, i)) == multiset(t) - multiset{t[i]}
  {
    CutAt(t, i);
  }

  lemma {:induction false} CountIfPermuted<T>(f: T -> bool, s: seq<T>, t: seq<T>)
    requires multiset(s) == multiset(t)
    ensures CountIf(f, s) == CountIf(f, t)
  {
    if s == [] {
      assert |multiset(t)| == 0;
    } else {
      var init, last := s[..|s| - 1], s[|s| - 1];
      assert s == init + [last];
      assert last in multiset(t);
      var i :| 0 <= i < |t| && t[i] == last;
      RemoveAtMultiset(t, i);
      assert multiset(init) == multiset(s) - multiset{last};
      CountIfPermuted(f, init, RemoveAt(t, i));
      CountRemoveAt(f, t, i);
    }
  }

  lemma {:induction false} CountIfPositive<T>(f: T -> bool, s: seq<T>)
    ensures CountIf(f, s) > 0 <==> exists i :: 0 <= i < |s| && f(s[i])
  {
    if s != [] {
      var init := s[..|s| - 1];
      CountIfPositive(f, init);
      assert forall i :: 0 <= i < |init| ==> init[i] == s[i];
    }
  }

  lemma CountIfTwo<T>(f: T -> bool, s: seq<T>, i: nat, j: nat)
    requires i < j < |s| && f(s[i]) && f(s[j])
    ensures CountIf(f, s) >= 2
  {
    assert s == s[..j] + s[j..];
    CountIfAppend(f, s[..j], s[j..]);
    CountIfPositive(f, s[..j]);
    CountIfPositive(f, s[j..]);
    assert s[..j][i] == s[i] && s[j..][0] == s[j];
  }

  lemma {:induction false} CountIsMultiplicity<T>(s: seq<T>, x: T)
    ensures CountIf(Is(x), s) == multiset(s)[x]
  {
    if s != [] {
      var init, last := s[..|s| - 1], s[|s| - 1];
      CountIsMultiplicity(init, x);
      assert s == init + [last];
    }
  }

  lemma DistinctCounts<T>(s: seq<T>, x: T)
    requires Distinct(s)
    ensures CountIf(Is(x), s) == if x in s then 1 else 0
    decreases |s|
  {
    if s != [] {
      var init, last := s[..|s| - 1], s[|s| - 1];
      DistinctCounts(init, x);
      assert s == init + [last];
    }
  }

  lemma CountsDistinct<T>(s: seq<T>)
    requires forall x :: CountIf(Is(x), s) <= 1
    ensures Distinct(s)
  {
    forall i, j | 0 <= i < j < |s| ensures s[i] != s[j] {
      if s[i] == s[j] {
        CountIfTwo(Is(s[i]), s, i, j);
      }
    }
  }

  /** Two sequences without repetition and with the same elements are permutations of each other. */
  lemma SameElements<T>(s: seq<T>, t: seq<T>)
    requires Distinct(s) && Distinct(t)
    requires forall x :: x in s <==> x in t
    ensures multiset(s) == multiset(t)
  {
    forall x ensures multiset(s)[x] == multiset(t)[x] {
      DistinctCounts(s, x);
      DistinctCounts(t, x);
      CountIsMultiplicity(s, x);
      CountIsMultiplicity(t, x);
    }
  }

  lemma {:induction false} CountIfPointwise<S, T>(f: S -> bool, s: seq<S>, g: T -> bool, t: seq<T>)
    requires |s| == |t| && forall i :: 0 <= i < |s| && f(s[i]) ==> g(t[i])
    ensures CountIf(f, s) <= CountIf(g, t)
  {
    if s != [] {
      CountIfPointwise(f, s[..|s| - 1], g, t[..|t| - 1]);
    }
  }

  lemma {:induction false} CountIfIncluded<T>(f: T -> bool, s: seq<T>, t: seq<T>)
    requires multiset(s) <= multiset(t)
    ensures CountIf(f, s) <= CountIf(f, t)
  {
    if s != [] {
      var init, last := s[..|s| - 1], s[|s| - 1];
      assert s == init + [last];
      assert last in multiset(t);
      var i :| 0 <= i < |t| && t[i] == last;
      RemoveAtMultiset(t, i);
      CountIfIncluded(f, init, RemoveAt(t, i));
      CountRemoveAt(f, t, i);
    }
  }

  lemma CountIfNone<T>(f: T -> bool, s: seq<T>)
    requires forall i :: 0 <= i < |s| ==> !f(s[i])
    ensures CountIf(f, s) == 0
  {
    CountIfPositive(f, s);
  }

  lemma MultisetHead<T>(s: seq<T>)
    requires s != []
    ensures multiset(s) == multiset{s[0]} + multiset(s[1..])
  {
    assert s == [s[0]] + s[1..];
  }
}
