/** The FNV-1a checksum of a catalogue file. */
module Fnv {
  import opened Bytes

  const OFFSET_BASIS: nat := 0xcbf2_9ce4_8422_2325
  const PRIME: nat := 0x100_0000_01b3
  const TWO_64: nat := 0x1_0000_0000_0000_0000

  /** A byte only meets the lowest byte of the hash. */
  function XorLow(hash: nat, b: byte): nat {
    hash / 0x100 * 0x100 + Xor(hash % 0x100, b) as nat
  }

  function Step(hash: nat, b: byte): (next: nat)
    ensures next < TWO_64
  {
    XorLow(hash, b) * PRIME % TWO_64
  }

  function Checksum(bytes: Bytes): (hash: nat)
    ensures hash < TWO_64
  {
    if bytes == [] then OFFSET_BASIS else Step(Checksum(bytes[..|bytes| - 1]), bytes[|bytes| - 1])
  }

  method ComputeChecksum(bytes: Bytes) returns (hash: nat)
    ensures hash == Checksum(bytes)
  {
    hash := OFFSET_BASIS;
    for i := 0 to |bytes|
      invariant hash == Checksum(bytes[..i])
    {
      assert bytes[..i + 1][..i] == bytes[..i];
      hash := XorLow(hash, bytes[i]);
      hash := hash * PRIME % TWO_64;
    }
    assert bytes[..|bytes|] == bytes;
  }

  // ---------------------------------------------------------------- Every single-byte change shows

  /** The inverse of the multiplier, which is odd. */
  const INVERSE: nat := 0xce96_5057_aff6_957b
  const CARRY: nat := 0xce_9650_590f

  lemma InverseWorks()
    ensures PRIME * INVERSE == 1 + CARRY * TWO_64
  {}

  lemma MultiplierUndone(x: nat)
    requires x < TWO_64
    ensures x * PRIME % TWO_64 * INVERSE % TWO_64 == x
  {
    var q := x * PRIME / TWO_64;
    InverseWorks();
    assert x * PRIME % TWO_64 * INVERSE == x + TWO_64 * (x * CARRY - q * INVERSE);
  }

  lemma StepInjective(g: nat, h: nat, a: byte, b: byte)
    requires g < TWO_64 && h < TWO_64
    requires (g != h && a == b) || (g == h && a != b)
    ensures Step(g, a) != Step(h, b)
  {
    XorLowInjective(g, h, a, b);
    XorLowRange(g, a);
    XorLowRange(h, b);
    MultiplierUndone(XorLow(g, a));
    MultiplierUndone(XorLow(h, b));
  }

  lemma XorLowRange(h: nat, b: byte)
    requires h < TWO_64
    ensures XorLow(h, b) < TWO_64
  {
    hide Xor;
  }

  lemma XorLowInjective(g: nat, h: nat, a: byte, b: byte)
    requires (g != h && a == b) || (g == h && a != b)
    ensures XorLow(g, a) != XorLow(h, b)
  {
    hide Xor;
    if g == h {
      XorInjective(a, b, g % 0x100);
    } else {
      XorInjective(g % 0x100, h % 0x100, a);
    }
  }

  /** Two byte strings of one length that differ at exactly one place. */
  ghost predicate DifferAt(s: Bytes, t: Bytes, i: nat) {
    && |s| == |t| && i < |s| && s[i] != t[i]
    && forall k :: 0 <= k < |s| && k != i ==> s[k] == t[k]
  }

  /** Changing any one byte of a payload of any length changes its checksum. */
  lemma {:induction false} SingleByteChangeShows(s: Bytes, t: Bytes, i: nat)
    requires DifferAt(s, t, i)
    ensures Checksum(s) != Checksum(t)
  {
    hide Step;
    var n := |s| - 1;
    if i == n {
      assert s[..n] == t[..n];
      StepInjective(Checksum(s[..n]), Checksum(t[..n]), s[n], t[n]);
    } else {
      SingleByteChangeShows(s[..n], t[..n], i);
      StepInjective(Checksum(s[..n]), Checksum(t[..n]), s[n], t[n]);
    }
  }

  // ---------------------------------------------------------------- Published values

  lemma ChecksumSnoc(bytes: Bytes, b: byte)
    ensures Checksum(bytes + [b]) == Step(Checksum(bytes), b)
  {
    assert (bytes + [b])[..|bytes|] == bytes;
  }

  lemma FirstByte(b: byte, mixed: byte)
    requires Xor(0x25, b) == mixed
    ensures Checksum([b]) == (0xcbf2_9ce4_8422_2300 + mixed as nat) * 0x100_0000_01b3 % 0x1_0000_0000_0000_0000
  {
    hide Xor;
    ChecksumSnoc([], b);
    assert [] + [b] == [b];
  }

  lemma LowA()
    ensures Xor(0x25, 0x61) == 0x44
  {
    assert BitXor(0, 0, 1) == 0;
    assert BitXor(0, 1, 2) == 1;
    assert BitXor(1, 3, 3) == 2;
    assert BitXor(2, 6, 4) == 4;
    assert BitXor(4, 12, 5) == 8;
    assert BitXor(9, 24, 6) == 17;
    assert BitXor(18, 48, 7) == 34;
  }

  lemma LowB()
    ensures Xor(0x25, 0x62) == 0x47
  {
    assert BitXor(0, 0, 1) == 0;
    assert BitXor(0, 1, 2) == 1;
    assert BitXor(1, 3, 3) == 2;
    assert BitXor(2, 6, 4) == 4;
    assert BitXor(4, 12, 5) == 8;
    assert BitXor(9, 24, 6) == 17;
    assert BitXor(18, 49, 7) == 35;
  }

  lemma ProductA()
    ensures 0xcbf2_9ce4_8422_2344 * 0x100_0000_01b3 % 0x1_0000_0000_0000_0000 == 0xaf63_dc4c_8601_ec8c
  {}

  lemma ProductB()
    ensures 0xcbf2_9ce4_8422_2347 * 0x100_0000_01b3 % 0x1_0000_0000_0000_0000 == 0xaf63_df4c_8601_f1a5
  {}

  lemma NoBytes()
    ensures Checksum([]) == 0xcbf2_9ce4_8422_2325
  {}

  /** The exclusive or with the low byte comes before the multiplication, as the published values of FNV-1a show. */
  lemma PublishedValues()
    ensures Checksum([]) == 0xcbf2_9ce4_8422_2325
    ensures Checksum([0x61]) == 0xaf63_dc4c_8601_ec8c
    ensures Checksum([0x62]) == 0xaf63_df4c_8601_f1a5
  {
    hide Checksum, Xor;
    NoBytes();
    LowA();
    LowB();
    FirstByte(0x61, 0x44);
    FirstByte(0x62, 0x47);
    ProductA();
    ProductB();
  }
}
