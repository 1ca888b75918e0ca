/** MEGA file transfer: a counter-mode stream, a chunk-wise CBC-MAC and the packing of the file key. */
module Mega {
  import opened Prelude
  import opened Bytes

  type Block = b: Bytes | |b| == 16 witness Zeros(16)

  /** The block cipher: key and block to block, and back. */
  datatype Aes = Aes(enc: (Block, Block) -> Block, dec: (Block, Block) -> Block) {
    ghost predicate Valid() { forall k, b :: dec(k, enc(k, b)) == b }

    function Encrypting(k: Block): Block -> Block { b => enc(k, b) }

    function Decrypting(k: Block): Block -> Block { b => dec(k, b) }
  }

  const FIRST_CHUNK: nat := 131_072
  const LARGEST_CHUNK: nat := 1_048_576

  // ---------------------------------------------------------------- Counter mode

  /** The i-th counter block: a 128-bit big-endian number that wraps around. */
  function Counter(iv: Block, i: nat): Block {
    BytesOf(NatOf(iv) + i, 16)
  }

  function KeyByte(aes: Aes, key: Block, iv: Block, pos: nat): byte {
    aes.enc(key, Counter(iv, pos / 16))[pos % 16]
  }

  /** The data combined with the key stream from byte position `pos` on. */
  function Stream(aes: Aes, key: Block, iv: Block, data: Bytes, pos: nat): (out: Bytes)
    ensures |out| == |data|
  {
    seq(|data|, i requires 0 <= i < |data| => Xor(data[i], KeyByte(aes, key, iv, pos + i)))
  }

  class Ctr {
    const aes: Aes
    const key: Block
    const iv: Block
    var pos: nat

    constructor (aes: Aes, key: Block, iv: Block)
      ensures this.aes == aes && this.key == key && this.iv == iv && pos == 0
    {
      this.aes, this.key, this.iv, pos := aes, key, iv, 0;
    }

    /** The position in the key stream carries over from call to call. */
    method ApplyKeystream(buffer: array<byte>)
      modifies this, buffer
      ensures buffer[..] == Stream(aes, key, iv, old(buffer[..]), old(pos))
      ensures pos == old(pos) + buffer.Length
    {
      hide Xor, KeyByte;
      ghost var before := buffer[..];
      for i := 0 to buffer.Length
        invariant pos == old(pos) + i
        invariant forall j :: 0 <= j < i ==> buffer[j] == Stream(aes, key, iv, before, old(pos))[j]
        invariant forall j :: i <= j < buffer.Length ==> buffer[j] == before[j]
      {
        buffer[i] := Xor(buffer[i], KeyByte(aes, key, iv, pos));
        pos := pos + 1;
      }
    }
  }

  // ---------------------------------------------------------------- Message authentication

  class CbcEncryptor {
    const aes: Aes
    const key: Block
    var chain: Block

    constructor (aes: Aes, key: Block, iv: Block)
      ensures this.aes == aes && this.key == key && chain == iv
    {
      this.aes, this.key, chain := aes, key, iv;
    }

    method Encrypt(block: Block) returns (out: Block)
      modifies this
      ensures out == chain == aes.enc(key, XorAll(block, old(chain)))
    {
      out := aes.enc(key, XorAll(block, chain));
      chain := out;
    }
  }

  function Padded(data: Bytes): Block
    requires |data| <= 16
  {
    data + Zeros(16 - |data|)
  }

  /** The last output block of CBC over the data, the last partial block padded with zeros. */
  function CbcMac(aes: Aes, key: Block, chain: Block, data: Bytes): Block
    decreases |data|
  {
    if data == [] then chain
    else if |data| < 16 then aes.enc(key, XorAll(Padded(data), chain))
    else CbcMac(aes, key, aes.enc(key, XorAll(data[..16], chain)), data[16..])
  }

  method ChunkMac(aes: Aes, key: Block, fileIv: Block, buffer: Bytes, previous: Block) returns (curMac: Block)
    requires buffer != []
    ensures curMac == CbcMac(aes, key, fileIv, buffer)
  {
    curMac := previous;
    var mac := new CbcEncryptor(aes, key, fileIv);
    var whole := |buffer| - |buffer| % 16;
    var i := 0;
    while i < whole
      invariant 0 <= i <= whole && i % 16 == 0
      invariant mac.aes == aes && mac.key == key
      invariant CbcMac(aes, key, fileIv, buffer) == CbcMac(aes, key, mac.chain, buffer[i..])
      invariant i > 0 ==> curMac == mac.chain
    {
      assert buffer[i..][..16] == buffer[i..i + 16] && buffer[i..][16..] == buffer[i + 16..];
      curMac := mac.Encrypt(buffer[i..i + 16]);
      i := i + 16;
    }
    var leftover := buffer[whole..];
    if leftover != [] {
      curMac := mac.Encrypt(Padded(leftover));
    }
  }

  function NextChunk(size: nat): nat {
    if size < LARGEST_CHUNK then size + FIRST_CHUNK else size
  }

  /** CBC over the MACs of the chunks, the chunks growing until they reach the largest size. */
  function FinalMac(aes: Aes, key: Block, fileIv: Block, data: Bytes, size: nat, acc: Block): Block
    requires size > 0
    decreases |data|
  {
    if data == [] then acc
    else
      var n := Min(size, |data|);
      FinalMac(aes, key, fileIv, data[n..], NextChunk(size), aes.enc(key, XorAll(CbcMac(aes, key, fileIv, data[..n]), acc)))
  }

  /** The sixteen bytes of the MAC are folded to eight. */
  function Folded(m: Block): (f: Bytes)
    ensures |f| == 8
  {
    seq(8, i requires 0 <= i < 8 => if i < 4 then Xor(m[i], m[i + 4]) else Xor(m[i + 4], m[i + 8]))
  }

  /** The MAC after i rounds of folding. */
  function FoldStage(m: Block, i: nat): (s: Bytes)
    requires i <= 4
    ensures |s| == 16
  {
    seq(16, j requires 0 <= j < 16 =>
      if j < i then Xor(m[j], m[j + 4]) else if 4 <= j < 4 + i then Xor(m[j + 4], m[j + 8]) else m[j])
  }

  method FoldMac(m: array<byte>)
    requires m.Length == 16
    modifies m
    ensures m[..8] == Folded(old(m[..]))
  {
    hide Xor;
    ghost var before: Block := m[..];
    for i := 0 to 4
      invariant forall j :: 0 <= j < 16 ==> m[j] == FoldStage(before, i)[j]
    {
      m[i] := Xor(m[i], m[i + 4]);
      m[i + 4] := Xor(m[i + 8], m[i + 12]);
    }
    assert m[..8] == FoldStage(before, 4)[..8] == Folded(before);
  }

  function MacOf(aes: Aes, key: Block, seed: Bytes, data: Bytes): (mac: Bytes)
    requires |seed| == 8
    ensures |mac| == 8
  {
    Folded(FinalMac(aes, key, seed + seed, data, FIRST_CHUNK, Zeros(16)))
  }

  function StreamOf(aes: Aes, key: Block, seed: Bytes, data: Bytes): Bytes
    requires |seed| == 8
  {
    Stream(aes, key, seed + Zeros(8), data, 0)
  }

  // ---------------------------------------------------------------- Keys

  /** The first sixteen bytes combined with those that follow; the rest is left alone. */
  function Merged(key: Bytes): (m: Bytes)
    requires |key| >= 16
    ensures |m| == |key|
  {
    seq(|key|, i requires 0 <= i < |key| => if i < 16 && 16 + i < |key| then Xor(key[i], key[16 + i]) else key[i])
  }

  /** The same loop serves to merge and to unmerge. */
  method MergeKeyMac(key: array<byte>)
    requires key.Length >= 16
    modifies key
    ensures key[..] == Merged(old(key[..]))
  {
    hide Xor;
    ghost var before := key[..];
    var n := Min(16, key.Length - 16);
    for i := 0 to n
      invariant forall j :: 0 <= j < i ==> key[j] == Xor(before[j], before[16 + j])
      invariant forall j :: i <= j < key.Length ==> key[j] == before[j]
    {
      key[i] := Xor(key[i], key[16 + i]);
    }
  }

  /** Every block on its own. */
  function Ecb(f: Block -> Block, data: Bytes): (out: Bytes)
    requires |data| % 16 == 0
    ensures |out| == |data|
    decreases |data|
  {
    if data == [] then [] else f(data[..16]) + Ecb(f, data[16..])
  }

  method EcbInPlace(f: Block -> Block, data: array<byte>)
    requires data.Length % 16 == 0
    modifies data
    ensures data[..] == Ecb(f, old(data[..]))
  {
    ghost var before := data[..];
    var i := 0;
    assert data[..0] + Ecb(f, before[0..]) == Ecb(f, before);
    while i < data.Length
      invariant 0 <= i <= data.Length && i % 16 == 0
      invariant Ecb(f, before) == data[..i] + Ecb(f, before[i..])
      invariant data[i..] == before[i..]
    {
      EcbBlock(f, data, i, before);
      i := i + 16;
    }
    EcbDone(f, before, data[..]);
  }

  method EcbBlock(f: Block -> Block, data: array<byte>, i: nat, ghost before: Bytes)
    requires i + 16 <= data.Length == |before| && i % 16 == 0 && |before| % 16 == 0
    requires data[i..] == before[i..]
    modifies data
    ensures data[..i + 16] + Ecb(f, before[i + 16..]) == old(data[..i]) + Ecb(f, before[i..])
    ensures data[i + 16..] == before[i + 16..]
  {
    hide Ecb;
    EcbStep(f, before, i, data[..i]);
    assert data[i..i + 16] == before[i..i + 16] && data[i + 16..] == before[i + 16..] by {
      SameTail(data[..], before, i);
    }
    var out := f(data[i..i + 16]);
    WriteBlock(data, i, out);
  }

  lemma SameTail(s: Bytes, t: Bytes, i: nat)
    requires |s| == |t| && i + 16 <= |s| && s[i..] == t[i..]
    ensures s[i..i + 16] == t[i..i + 16] && s[i + 16..] == t[i + 16..]
  {
    assert s[i..i + 16] == s[i..][..16] && t[i..i + 16] == t[i..][..16];
    assert s[i + 16..] == s[i..][16..] && t[i + 16..] == t[i..][16..];
  }

  lemma EcbDone(f: Block -> Block, before: Bytes, after: Bytes)
    requires |before| % 16 == 0 && |before| == |after|
    requires Ecb(f, before) == after[..|after|] + Ecb(f, before[|before|..])
    ensures Ecb(f, before) == after
  {}

  lemma EcbStep(f: Block -> Block, data: Bytes, i: nat, done: Bytes)
    requires i + 16 <= |data| && i % 16 == 0 && |data| % 16 == 0
    ensures done + Ecb(f, data[i..]) == done + f(data[i..i + 16]) + Ecb(f, data[i + 16..])
  {
    assert data[i..][..16] == data[i..i + 16] && data[i..][16..] == data[i + 16..];
    ConcatAssociates(done, f(data[i..i + 16]), Ecb(f, data[i + 16..]));
  }

  method WriteBlock(data: array<byte>, i: nat, block: Block)
    requires i + 16 <= data.Length
    modifies data
    ensures data[..i + 16] == old(data[..i]) + block
    ensures data[i + 16..] == old(data[i + 16..])
  {
    for j := 0 to 16
      invariant data[..i] == old(data[..i])
      invariant data[i..i + j] == block[..j]
      invariant data[i + 16..] == old(data[i + 16..])
    {
      data[i + j] := block[j];
    }
    assert data[..i + 16] == data[..i] + data[i..i + 16];
  }

  function KeyBlob(aes: Aes, session: Block, key: Block, seed: Bytes, mac: Bytes): Bytes
    requires |seed| == 8 && |mac| == 8
  {
    Ecb(aes.Encrypting(session), Merged(key + seed + mac))
  }
}
