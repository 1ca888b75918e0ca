/** Bytes, big-endian numbers and the exclusive or of bytes. */
module Bytes {
  import opened Prelude

  type byte = x: int | 0 <= x < 0x100

  type Bytes = seq<byte>

  const TWO_32: nat := 0x1_0000_0000

  function Low(n: nat): byte { n % 0x100 }

  /** Any number, most significant byte first. */
  function NatOf(s: Bytes): nat {
    if s == [] then 0 else NatOf(s[..|s| - 1]) * 0x100 + s[|s| - 1] as nat
  }

  function BytesOf(n: nat, length: nat): (s: Bytes)
    ensures |s| == length
  {
    if length == 0 then [] else BytesOf(n / 0x100, length - 1) + [Low(n)]
  }

  /** What `length` bytes can tell apart. */
  function Range(length: nat): (r: nat)
    ensures r > 0
  {
    if length == 0 then 1 else 0x100 * Range(length - 1)
  }

  lemma {:induction false} BytesOfRoundTrip(n: nat, length: nat)
    requires n < Range(length)
    ensures NatOf(BytesOf(n, length)) == n
  {
    if length > 0 {
      BytesOfRoundTrip(n / 0x100, length - 1);
      var s := BytesOf(n / 0x100, length - 1) + [Low(n)];
      assert s[..|s| - 1] == BytesOf(n / 0x100, length - 1);
    }
  }

  lemma {:induction false} NatOfBytesOf(n: nat, length: nat)
    ensures NatOf(BytesOf(n, length)) == n % Range(length)
  {
    if length > 0 {
      NatOfBytesOf(n / 0x100, length - 1);
      var s := BytesOf(n / 0x100, length - 1) + [Low(n)];
      assert s[..|s| - 1] == BytesOf(n / 0x100, length - 1);
      DigitSplit(n, Range(length - 1));
    }
  }

  lemma DigitSplit(n: nat, range: nat)
    requires range > 0
    ensures n / 0x100 % range * 0x100 + n % 0x100 == n % (0x100 * range)
  {
    var q, r := n / 0x100 / range, n / 0x100 % range;
    assert n == 0x100 * range * q + (r * 0x100 + n % 0x100);
    RemainderIs(n, 0x100 * range, q, r * 0x100 + n % 0x100);
  }

  lemma MultiplesApart(d: nat, a: nat, b: nat)
    requires a < b
    ensures d * b >= d * a + d
  {
    assert d * b == d * a + d * (b - a);
    assert d * (b - a) == d + d * (b - a - 1);
  }

  lemma RemainderIs(n: nat, d: nat, q: nat, r: nat)
    requires d > 0 && r < d && n == d * q + r
    ensures n % d == r
  {
    var q2, r2 := n / d, n % d;
    assert n == d * q2 + r2;
    if q < q2 {
      MultiplesApart(d, q, q2);
    } else if q2 < q {
      MultiplesApart(d, q2, q);
    }
  }

  lemma {:induction false} BytesOfNatOf(s: Bytes)
    ensures BytesOf(NatOf(s), |s|) == s
  {
    if s != [] {
      BytesOfNatOf(s[..|s| - 1]);
      assert s == s[..|s| - 1] + [s[|s| - 1]];
    }
  }

  lemma {:induction false} NatOfInjective(s: Bytes, t: Bytes)
    requires |s| == |t| && NatOf(s) == NatOf(t)
    ensures s == t
  {
    if s != [] {
      var n := |s| - 1;
      assert s == s[..n] + [s[n]] && t == t[..n] + [t[n]];
      NatOfInjective(s[..n], t[..n]);
    }
  }

  /** A 32-bit number, most significant byte first. */
  function Be32(n: nat): (s: Bytes)
    requires n < TWO_32
    ensures |s| == 4
  {
    var a: nat := n / 0x100;
    var b: nat := a / 0x100;
    [Low(b / 0x100), Low(b), Low(a), Low(n)]
  }

  function FromBe32(s: Bytes): (n: nat)
    requires |s| == 4
    ensures n < TWO_32
  {
    (((s[0] as int) * 0x100 + s[1] as int) * 0x100 + s[2] as int) * 0x100 + s[3] as int
  }

  lemma Be32RoundTrip(n: nat)
    requires n < TWO_32
    ensures FromBe32(Be32(n)) == n
  {}

  function BitXor(a: nat, b: nat, bits: nat): (r: nat) {
    if bits == 0 then 0 else (a % 2 + b % 2) % 2 + 2 * BitXor(a / 2, b / 2, bits - 1)
  }

  lemma {:induction false} BitXorRange(a: nat, b: nat, bits: nat)
    ensures BitXor(a, b, bits) < Pow2(bits)
  {
    if bits > 0 {
      BitXorRange(a / 2, b / 2, bits - 1);
    }
  }

  lemma HighBit(a: nat, bits: nat)
    requires bits > 0 && a < Pow2(bits)
    ensures a / 2 < Pow2(bits - 1)
  {}

  lemma SumBits(x: nat, y: nat)
    ensures ((x % 2 + y % 2) % 2 + y % 2) % 2 == x % 2
  {}

  lemma LowBit(bit: nat, r: nat)
    requires bit < 2
    ensures (bit + 2 * r) % 2 == bit && (bit + 2 * r) / 2 == r
  {}

  lemma {:induction false} BitXorUndoes(a: nat, b: nat, bits: nat)
    requires a < Pow2(bits)
    ensures BitXor(BitXor(a, b, bits), b, bits) == a
  {
    if bits > 0 {
      HighBit(a, bits);
      BitXorUndoes(a / 2, b / 2, bits - 1);
      var r, bit := BitXor(a / 2, b / 2, bits - 1), (a % 2 + b % 2) % 2;
      LowBit(bit, r);
      SumBits(a, b);
    }
  }

  function BitOf(n: nat, k: nat): nat {
    if k == 0 then n % 2 else BitOf(n / 2, k - 1)
  }

  /** Bit by bit, the exclusive or is one exactly where the two differ. */
  lemma {:induction false} BitXorBits(a: nat, b: nat, bits: nat, k: nat)
    requires k < bits
    ensures BitOf(BitXor(a, b, bits), k) == if BitOf(a, k) == BitOf(b, k) then 0 else 1
  {
    LowBit((a % 2 + b % 2) % 2, BitXor(a / 2, b / 2, bits - 1));
    if k > 0 {
      BitXorBits(a / 2, b / 2, bits - 1, k - 1);
    }
  }

  lemma Pow2Of8()
    ensures Pow2(8) == 0x100
  {
    assert Pow2(4) == 16;
  }

  /** The exclusive or of two bytes. */
  function Xor(a: byte, b: byte): byte {
    BitXorRange(a, b, 8);
    Pow2Of8();
    BitXor(a, b, 8)
  }

  lemma XorBits(a: byte, b: byte, k: nat)
    requires k < 8
    ensures BitOf(Xor(a, b), k) == if BitOf(a, k) == BitOf(b, k) then 0 else 1
  {
    BitXorBits(a, b, 8, k);
  }

  lemma XorUndoes(a: byte, b: byte)
    ensures Xor(Xor(a, b), b) == a
  {
    Pow2Of8();
    BitXorUndoes(a, b, 8);
  }

  lemma {:induction false} BitXorCommutes(a: nat, b: nat, bits: nat)
    ensures BitXor(a, b, bits) == BitXor(b, a, bits)
  {
    if bits > 0 {
      BitXorCommutes(a / 2, b / 2, bits - 1);
    }
  }

  /** Each argument can be recovered from the result and the other argument. */
  lemma XorInjective(a: byte, b: byte, c: byte)
    ensures Xor(a, c) == Xor(b, c) ==> a == b
    ensures Xor(c, a) == Xor(c, b) ==> a == b
  {
    XorUndoes(a, c);
    XorUndoes(b, c);
    BitXorCommutes(a, c, 8);
    BitXorCommutes(b, c, 8);
  }

  function XorAll(s: Bytes, t: Bytes): (r: Bytes)
    requires |s| == |t|
    ensures |r| == |s|
    ensures forall i :: 0 <= i < |s| ==> r[i] == Xor(s[i], t[i])
  {
    seq(|s|, i requires 0 <= i < |s| => Xor(s[i], t[i]))
  }

  lemma XorAllUndoes(s: Bytes, t: Bytes)
    requires |s| == |t|
    ensures XorAll(XorAll(s, t), t) == s
  {
    forall i | 0 <= i < |s| ensures Xor(Xor(s[i], t[i]), t[i]) == s[i] {
      XorUndoes(s[i], t[i]);
    }
  }

  function Zeros(n: nat): (z: Bytes)
    ensures |z| == n
  {
    seq(n, _ => 0)
  }
}
