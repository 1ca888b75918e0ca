/** Percent-encoding of path and query text. */
module UrlEncoding {
  import opened Prelude
  import opened Bytes
  import opened Segments

  const SLASH: byte := 0x2F
  const PERCENT: byte := 0x25

  /** The unreserved characters of RFC 3986, section 2.3. */
  predicate IsUnreserved(b: byte) {
    || 0x41 <= b <= 0x5A || 0x61 <= b <= 0x7A || 0x30 <= b <= 0x39
    || b == 0x2D || b == 0x5F || b == 0x2E || b == 0x7E
  }

  function HexDigit(n: nat): (d: byte)
    requires n < 16
  {
    if n < 10 then 0x30 + n else 0x41 + n - 10
  }

  function HexValue(d: byte): Option<nat> {
    if 0x30 <= d <= 0x39 then Some((d - 0x30) as nat)
    else if 0x41 <= d <= 0x46 then Some((d - 0x41 + 10) as nat)
    else if 0x61 <= d <= 0x66 then Some((d - 0x61 + 10) as nat)
    else None
  }

  /** One byte as it is, or as a percent sign and two upper-case digits. */
  function EncodedByte(keepSlash: bool, b: byte): Bytes {
    if IsUnreserved(b) || (keepSlash && b == SLASH) then [b] else [PERCENT, HexDigit(b / 16), HexDigit(b % 16)]
  }

  function Encoded(keepSlash: bool, input: Bytes): Bytes {
    if input == [] then [] else EncodedByte(keepSlash, input[0]) + Encoded(keepSlash, input[1..])
  }

  method UrlEncode(input: Bytes) returns (encoded: Bytes)
    ensures encoded == Encoded(false, input)
  {
    encoded := EncodeLoop(false, input);
  }

  method UrlEncodePath(input: Bytes) returns (encoded: Bytes)
    ensures encoded == Encoded(true, input)
  {
    encoded := EncodeLoop(true, input);
  }

  method EncodeLoop(keepSlash: bool, input: Bytes) returns (encoded: Bytes)
    ensures encoded == Encoded(keepSlash, input)
  {
    encoded := [];
    for i := 0 to |input|
      invariant Encoded(keepSlash, input) == encoded + Encoded(keepSlash, input[i..])
    {
      var b := input[i];
      assert input[i..][1..] == input[i + 1..];
      ConcatAssociates(encoded, EncodedByte(keepSlash, b), Encoded(keepSlash, input[i + 1..]));
      if IsUnreserved(b) || (keepSlash && b == SLASH) {
        encoded := encoded + [b];
      } else {
        encoded := encoded + [PERCENT, HexDigit(b / 16), HexDigit(b % 16)];
      }
    }
  }

  /** Percent-decoding, RFC 3986, section 2.1. */
  function Decoded(s: Bytes): Option<Bytes> {
    if s == [] then Some([])
    else if s[0] != PERCENT then
      var rest := Decoded(s[1..]);
      if rest.None? then None else Some([s[0]] + rest.value)
    else if |s| < 3 || HexValue(s[1]).None? || HexValue(s[2]).None? then None
    else
      var rest := Decoded(s[3..]);
      if rest.None? then None else Some([Low(HexValue(s[1]).value * 16 + HexValue(s[2]).value)] + rest.value)
  }

  lemma DecodedByte(keepSlash: bool, b: byte, tail: Bytes)
    requires Decoded(tail).Some?
    ensures Decoded(EncodedByte(keepSlash, b) + tail) == Some([b] + Decoded(tail).value)
  {
    var s := EncodedByte(keepSlash, b) + tail;
    if IsUnreserved(b) || (keepSlash && b == SLASH) {
      assert s[1..] == tail;
    } else {
      assert s[3..] == tail;
      HexRoundTrip(b / 16);
      HexRoundTrip(b % 16);
      hide HexDigit, HexValue;
      assert Low(b / 16 * 16 + b % 16) == b;
    }
  }

  lemma HexRoundTrip(n: nat)
    requires n < 16
    ensures HexValue(HexDigit(n)) == Some(n)
  {}

  /** Decoding recovers every input, so no two inputs share an encoding. */
  lemma {:induction false} DecodingRecovers(keepSlash: bool, input: Bytes)
    ensures Decoded(Encoded(keepSlash, input)) == Some(input)
  {
    if input != [] {
      DecodingRecovers(keepSlash, input[1..]);
      DecodedByte(keepSlash, input[0], Encoded(keepSlash, input[1..]));
      assert [input[0]] + input[1..] == input;
    }
  }

  lemma {:induction false} EncodedAppend(keepSlash: bool, s: Bytes, t: Bytes)
    ensures Encoded(keepSlash, s + t) == Encoded(keepSlash, s) + Encoded(keepSlash, t)
  {
    if s == [] {
      assert s + t == t;
    } else {
      EncodedAppend(keepSlash, s[1..], t);
      assert (s + t)[1..] == s[1..] + t;
      ConcatAssociates(EncodedByte(keepSlash, s[0]), Encoded(keepSlash, s[1..]), Encoded(keepSlash, t));
    }
  }

  lemma {:induction false} NoSlashToKeep(s: Bytes)
    requires forall i :: 0 <= i < |s| ==> s[i] != SLASH
    ensures Encoded(true, s) == Encoded(false, s)
  {
    if s != [] {
      NoSlashToKeep(s[1..]);
    }
  }

  function EncodedParts(parts: seq<Bytes>): (encoded: seq<Bytes>)
    ensures |encoded| == |parts|
  {
    seq(|parts|, i requires 0 <= i < |parts| => Encoded(false, parts[i]))
  }

  lemma EncodedAtSlash(a: Bytes, rest: Bytes)
    ensures Encoded(true, a + [SLASH] + rest) == Encoded(true, a) + [SLASH] + Encoded(true, rest)
  {
    EncodedAppend(true, a + [SLASH], rest);
    EncodedAppend(true, a, [SLASH]);
    assert [SLASH][1..] == [];
    assert Encoded(true, [SLASH]) == [SLASH];
  }

  lemma PartsCons(first: Bytes, parts: seq<Bytes>)
    ensures EncodedParts([first] + parts) == [Encoded(false, first)] + EncodedParts(parts)
  {
    hide Encoded;
  }

  /** Encoding a path is encoding each segment between slashes on its own. */
  lemma {:induction false} PathEncodingBySegment(input: Bytes)
    ensures Encoded(true, input) == Join(EncodedParts(Split(input, SLASH)), SLASH)
    decreases |input|
  {
    hide Encoded;
    var i := Position(input, SLASH);
    NoSlashToKeep(input[..i]);
    if i == |input| {
      assert input[..i] == input;
    } else {
      var rest := input[i + 1..];
      PathEncodingBySegment(rest);
      assert input == input[..i] + [SLASH] + rest;
      EncodedAtSlash(input[..i], rest);
      PartsCons(input[..i], Split(rest, SLASH));
      JoinCons(Encoded(false, input[..i]), EncodedParts(Split(rest, SLASH)), SLASH);
    }
  }

  // ---------------------------------------------------------------- Which bytes come out

  /** The unreserved bytes are the letters, the digits and the four marks of RFC 3986, section 2.3. */
  lemma UnreservedCharacters(b: byte)
    ensures var c := b as int as char;
      IsUnreserved(b) <==> 'A' <= c <= 'Z' || 'a' <= c <= 'z' || '0' <= c <= '9' || c in "-._~"
  {
    var c := b as int as char;
    var marks := "-._~";
    assert marks[0] == '-' && marks[1] == '.' && marks[2] == '_' && marks[3] == '~';
  }

  /** Text of unreserved characters is its own encoding. */
  lemma {:induction false} UnreservedKept(keepSlash: bool, input: Bytes)
    requires forall i :: 0 <= i < |input| ==> IsUnreserved(input[i])
    ensures Encoded(keepSlash, input) == input
  {
    hide IsUnreserved;
    if input != [] {
      UnreservedKept(keepSlash, input[1..]);
      assert [input[0]] + input[1..] == input;
    }
  }

  /** A byte that may stand in an encoding. */
  predicate Harmless(keepSlash: bool, b: byte) {
    IsUnreserved(b) || b == PERCENT || (keepSlash && b == SLASH)
  }

  /** Every other byte comes out as a percent sign and two digits, capital letters above nine; nothing else comes out. */
  lemma ReservedByte(keepSlash: bool, b: byte)
    requires !IsUnreserved(b) && !(keepSlash && b == SLASH)
    ensures var e := EncodedByte(keepSlash, b);
      && |e| == 3 && e[0] == 0x25
      && (0x30 <= e[1] <= 0x39 || 0x41 <= e[1] <= 0x46) && (0x30 <= e[2] <= 0x39 || 0x41 <= e[2] <= 0x46)
  {}

  lemma {:induction false} OnlyHarmlessBytes(keepSlash: bool, input: Bytes)
    ensures forall i :: 0 <= i < |Encoded(keepSlash, input)| ==> Harmless(keepSlash, Encoded(keepSlash, input)[i])
  {
    if input != [] {
      OnlyHarmlessBytes(keepSlash, input[1..]);
      if !IsUnreserved(input[0]) && !(keepSlash && input[0] == SLASH) {
        ReservedByte(keepSlash, input[0]);
      }
    }
  }
}
