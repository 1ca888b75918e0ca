/** What a MEGA transfer sends, authenticates and stores, block by block. */
module MegaBlocks {
  import opened Prelude
  import opened Bytes
  import opened Mega
  import opened MegaTransfer
  import opened MegaAttributes

  // ---------------------------------------------------------------- Counter mode

  /** One more, with a carry from the last byte to the first, and none out of it. */
  function Incremented(s: Bytes): (t: Bytes)
    ensures |t| == |s|
  {
    if s == [] then []
    else
      var n := |s| - 1;
      if s[n] == 0xFF then Incremented(s[..n]) + [0] else s[..n] + [s[n] + 1]
  }

  /** The counter blocks of a file: its seed and eight zero bytes, then one more each time. */
  function CounterBlock(seed: Bytes, i: nat): Block
    requires |seed| == 8
  {
    if i == 0 then seed + [0, 0, 0, 0, 0, 0, 0, 0] else Incremented(CounterBlock(seed, i - 1))
  }

  lemma {:induction false} NextNumber(n: nat, length: nat)
    ensures BytesOf(n + 1, length) == Incremented(BytesOf(n, length))
  {
    if length > 0 {
      NextNumber(n / 0x100, length - 1);
      var s := BytesOf(n, length);
      assert s[..length - 1] == BytesOf(n / 0x100, length - 1) && s[length - 1] == n % 0x100;
      if n % 0x100 == 0xFF {
        assert (n + 1) / 0x100 == n / 0x100 + 1 && (n + 1) % 0x100 == 0;
      } else {
        assert (n + 1) / 0x100 == n / 0x100 && (n + 1) % 0x100 == n % 0x100 + 1;
      }
    }
  }

  lemma {:induction false} CountsUp(seed: Bytes, i: nat)
    requires |seed| == 8
    ensures Counter(seed + Zeros(8), i) == CounterBlock(seed, i)
  {
    hide BytesOf, NatOf;
    var iv: Block := seed + Zeros(8);
    if i == 0 {
      BytesOfNatOf(iv);
      assert iv == seed + [0, 0, 0, 0, 0, 0, 0, 0];
    } else {
      CountsUp(seed, i - 1);
      NextNumber(NatOf(iv) + (i - 1), 16);
    }
  }

  function BlockOf(data: Bytes, i: nat): Bytes
    requires 16 * i <= |data|
  {
    data[16 * i..Min(16 * i + 16, |data|)]
  }

  /**
   * What is sent for the i-th block of a file differs from the block by the encrypted i-th counter block, cut to the
   * length of the last block.
   */
  lemma SentByBlock(aes: Aes, key: Block, seed: Bytes, data: Bytes, i: nat)
    requires |seed| == 8 && 16 * i < |data|
    ensures |StreamOf(aes, key, seed, data)| == |data|
    ensures var pad := aes.enc(key, CounterBlock(seed, i));
      var n := |BlockOf(data, i)|;
      && BlockOf(StreamOf(aes, key, seed, data), i) == XorAll(BlockOf(data, i), pad[..n])
      && XorAll(BlockOf(StreamOf(aes, key, seed, data), i), BlockOf(data, i)) == pad[..n]
  {
    hide Xor, Counter, CounterBlock;
    CountsUp(seed, i);
    var pad := aes.enc(key, CounterBlock(seed, i));
    var sent, block := BlockOf(StreamOf(aes, key, seed, data), i), BlockOf(data, i);
    forall j | 0 <= j < |block|
      ensures sent[j] == Xor(block[j], pad[j]) && Xor(sent[j], block[j]) == pad[j]
    {
      assert (16 * i + j) / 16 == i && (16 * i + j) % 16 == j;
      XorUndoes(pad[j], block[j]);
      XorCommutes(pad[j], block[j]);
    }
  }

  lemma XorCommutes(a: byte, b: byte)
    ensures Xor(a, b) == Xor(b, a)
  {
    BitXorCommutes(a, b, 8);
  }

  const TWO_128: nat := 0x1_0000_0000_0000_0000_0000_0000_0000_0000

  lemma RangeOf16()
    ensures Range(16) == TWO_128
  {
    assert Range(4) == 0x1_0000_0000;
    assert Range(8) == 0x1_0000_0000_0000_0000;
    assert Range(12) == 0x1_0000_0000_0000_0000_0000_0000;
  }

  lemma SameRemainder(a: nat, i: nat, j: nat)
    requires i < j < i + 0x1_0000_0000_0000_0000_0000_0000_0000_0000
    ensures (a + i) % 0x1_0000_0000_0000_0000_0000_0000_0000_0000 != (a + j) % 0x1_0000_0000_0000_0000_0000_0000_0000_0000
  {}

  lemma OnceAround(a: nat)
    ensures (a + 0x1_0000_0000_0000_0000_0000_0000_0000_0000) % 0x1_0000_0000_0000_0000_0000_0000_0000_0000
         == a % 0x1_0000_0000_0000_0000_0000_0000_0000_0000
  {}

  lemma CounterNumber(seed: Bytes, i: nat)
    requires |seed| == 8
    ensures NatOf(CounterBlock(seed, i)) == (NatOf(seed + Zeros(8)) + i) % 0x1_0000_0000_0000_0000_0000_0000_0000_0000
  {
    CountsUp(seed, i);
    NatOfBytesOf(NatOf(seed + Zeros(8)) + i, 16);
    RangeOf16();
    hide NatOf, BytesOf, Range, CounterBlock;
  }

  lemma CountersDiffer(seed: Bytes, i: nat, j: nat)
    requires |seed| == 8 && i < j < i + TWO_128
    ensures CounterBlock(seed, i) != CounterBlock(seed, j)
  {
    hide NatOf, CounterBlock;
    CounterNumber(seed, i);
    CounterNumber(seed, j);
    SameRemainder(NatOf(seed + Zeros(8)), i, j);
  }

  lemma CountersRepeat(seed: Bytes)
    requires |seed| == 8
    ensures CounterBlock(seed, 0) == CounterBlock(seed, TWO_128)
  {
    hide NatOf, CounterBlock;
    CounterNumber(seed, 0);
    CounterNumber(seed, TWO_128);
    OnceAround(NatOf(seed + Zeros(8)));
    NatOfInjective(CounterBlock(seed, 0), CounterBlock(seed, TWO_128));
  }

  /** The first n counter blocks of a file are pairwise distinct if and only if n is at most two to the 128. */
  lemma CountersDistinct(seed: Bytes, n: nat)
    requires |seed| == 8
    ensures (forall i: nat, j: nat :: i < j < n ==> CounterBlock(seed, i) != CounterBlock(seed, j)) <==> n <= TWO_128
  {
    hide CounterBlock;
    if n <= TWO_128 {
      forall i: nat, j: nat | i < j < n ensures CounterBlock(seed, i) != CounterBlock(seed, j) {
        CountersDiffer(seed, i, j);
      }
    } else {
      CountersRepeat(seed);
    }
  }

  // ---------------------------------------------------------------- Cipher block chaining

  /** The block before the i-th, the first one being preceded by the initial vector. */
  function Before(chain: Block, data: Bytes, i: nat): Bytes
    requires 16 * i <= |data|
  {
    if i == 0 then chain else data[16 * i - 16..16 * i]
  }

  lemma DropBlock(first: Bytes, rest: Bytes, i: nat)
    requires |first| == 16 && 16 * i + 16 <= |rest|
    ensures (first + rest)[16 * (i + 1)..16 * (i + 1) + 16] == rest[16 * i..16 * i + 16]
    ensures i > 0 ==> (first + rest)[16 * i..16 * i + 16] == rest[16 * i - 16..16 * i]
  {}

  lemma FirstBlock(first: Bytes, rest: Bytes)
    requires |first| == 16
    ensures (first + rest)[..16] == first && (first + rest)[0..16] == first
  {}

  lemma SliceOfTail(s: Bytes, k: nat, lo: nat, hi: nat)
    requires lo <= hi && k + hi <= |s|
    ensures s[k..][lo..hi] == s[k + lo..k + hi]
  {}

  lemma TailBlock(data: Bytes, i: nat)
    requires i > 0 && 16 * i + 16 <= |data|
    ensures data[16..][16 * (i - 1)..16 * (i - 1) + 16] == data[16 * i..16 * i + 16]
    ensures i > 1 ==> data[16..][16 * (i - 1) - 16..16 * (i - 1)] == data[16 * i - 16..16 * i]
  {
    SliceOfTail(data, 16, 16 * (i - 1), 16 * (i - 1) + 16);
    if i > 1 {
      SliceOfTail(data, 16, 16 * (i - 1) - 16, 16 * (i - 1));
    }
  }

  lemma BlocksLeft(data: Bytes, i: nat)
    requires |data| % 16 == 0 && 16 * i < |data|
    ensures 16 * i + 16 <= |data| && (i > 0 ==> 16 * (i - 1) < |data[16..]|)
  {
    var k := |data| / 16;
    assert |data| == 16 * k && i < k;
    assert |data[16..]| == 16 * k - 16;
  }

  /** Each block is combined with the cipher block before it and encrypted. */
  lemma {:induction false} EncryptedByBlock(aes: Aes, key: Block, chain: Block, data: Bytes, i: nat)
    requires |data| % 16 == 0 && 16 * i < |data|
    ensures var out := CbcEncrypted(aes, key, chain, data);
      out[16 * i..16 * i + 16] == aes.enc(key, XorAll(data[16 * i..16 * i + 16], Before(chain, out, i)))
    decreases |data|
  {
    BlocksLeft(data, i);
    var c: Block := aes.enc(key, XorAll(data[..16], chain));
    var rest: Bytes := CbcEncrypted(aes, key, c, data[16..]);
    assert CbcEncrypted(aes, key, chain, data) == c + rest;
    FirstBlock(c, rest);
    hide XorAll, CbcEncrypted;
    if i > 0 {
      TailBlock(data, i);
      EncryptedByBlock(aes, key, c, data[16..], i - 1);
      DropBlock(c, rest, i - 1);
      assert Before(chain, c + rest, i) == Before(c, rest, i - 1);
    }
  }

  /** Each block is decrypted and combined with the cipher block before it. */
  lemma {:induction false} DecryptedByBlock(aes: Aes, key: Block, chain: Block, data: Bytes, i: nat)
    requires |data| % 16 == 0 && 16 * i < |data|
    ensures CbcDecrypted(aes, key, chain, data)[16 * i..16 * i + 16]
         == XorAll(aes.dec(key, data[16 * i..16 * i + 16]), Before(chain, data, i))
    decreases |data|
  {
    BlocksLeft(data, i);
    var c: Block := data[..16];
    var first: Bytes, rest: Bytes := XorAll(aes.dec(key, c), chain), CbcDecrypted(aes, key, c, data[16..]);
    assert CbcDecrypted(aes, key, chain, data) == first + rest;
    FirstBlock(first, rest);
    hide XorAll, CbcDecrypted;
    if i > 0 {
      TailBlock(data, i);
      DecryptedByBlock(aes, key, c, data[16..], i - 1);
      DropBlock(first, rest, i - 1);
      assert Before(chain, data, i) == Before(c, data[16..], i - 1);
    }
  }

  function ZeroPadded(data: Bytes): (p: Bytes)
    ensures |p| % 16 == 0
  {
    data + Zeros(PaddingLength(|data|))
  }

  function LastBlock(chain: Block, data: Bytes): Block
    requires |data| % 16 == 0
  {
    if data == [] then chain else data[|data| - 16..]
  }

  lemma PaddedRest(data: Bytes)
    requires |data| >= 16
    ensures ZeroPadded(data) != [] && ZeroPadded(data)[..16] == data[..16] && ZeroPadded(data)[16..] == ZeroPadded(data[16..])
  {}

  lemma LastOfTwo(chain: Block, c: Block, rest: Bytes)
    requires |rest| % 16 == 0
    ensures LastBlock(chain, c + rest) == LastBlock(c, rest)
  {}

  /** The MAC of a chunk is the last block of the chunk, padded with zeros, in cipher block chaining mode. */
  lemma {:induction false} MacIsLastBlock(aes: Aes, key: Block, chain: Block, data: Bytes)
    ensures CbcMac(aes, key, chain, data) == LastBlock(chain, CbcEncrypted(aes, key, chain, ZeroPadded(data)))
    decreases |data|
  {
    hide XorAll;
    var padded := ZeroPadded(data);
    if data == [] {
      assert padded == [];
    } else if |data| < 16 {
      assert padded == Padded(data) && padded[..16] == padded && padded[16..] == [];
      var c := aes.enc(key, XorAll(padded, chain));
      assert CbcEncrypted(aes, key, c, []) == [] && CbcEncrypted(aes, key, chain, padded) == c + [];
    } else {
      PaddedRest(data);
      var c := aes.enc(key, XorAll(data[..16], chain));
      MacIsLastBlock(aes, key, c, data[16..]);
      var rest := CbcEncrypted(aes, key, c, ZeroPadded(data[16..]));
      assert CbcEncrypted(aes, key, chain, padded) == c + rest;
      hide CbcEncrypted;
      LastOfTwo(chain, c, rest);
    }
  }

  /** The MACs of the chunks, one after the other. */
  function ChunkMacs(aes: Aes, key: Block, fileIv: Block, data: Bytes, size: nat): (macs: Bytes)
    requires size > 0
    ensures |macs| % 16 == 0
    decreases |data|
  {
    if data == [] then []
    else
      var n := Min(size, |data|);
      CbcMac(aes, key, fileIv, data[..n]) + ChunkMacs(aes, key, fileIv, data[n..], NextChunk(size))
  }

  /** The MAC of a file is the MAC of its chunk MACs. */
  lemma {:induction false} MacOfMacs(aes: Aes, key: Block, fileIv: Block, data: Bytes, size: nat, acc: Block)
    requires size > 0
    ensures FinalMac(aes, key, fileIv, data, size, acc) == CbcMac(aes, key, acc, ChunkMacs(aes, key, fileIv, data, size))
    decreases |data|
  {
    if data != [] {
      var n := Min(size, |data|);
      var mac := CbcMac(aes, key, fileIv, data[..n]);
      var rest := ChunkMacs(aes, key, fileIv, data[n..], NextChunk(size));
      hide XorAll;
      MacOfMacs(aes, key, fileIv, data[n..], NextChunk(size), aes.enc(key, XorAll(mac, acc)));
      FirstMac(aes, key, acc, mac, rest);
    }
  }

  lemma FirstMac(aes: Aes, key: Block, acc: Block, mac: Block, rest: Bytes)
    requires |rest| % 16 == 0
    ensures CbcMac(aes, key, acc, mac + rest) == CbcMac(aes, key, aes.enc(key, XorAll(mac, acc)), rest)
  {
    hide XorAll;
    assert (mac + rest)[..16] == mac && (mac + rest)[16..] == rest;
  }

  /** Of the four words of the MAC, the first two are combined and the last two. */
  lemma FoldedWords(m: Block)
    ensures Folded(m) == XorAll(m[..4], m[4..8]) + XorAll(m[8..12], m[12..])
  {
    hide Xor;
  }

  /** The MAC that a file is sent with. */
  lemma MacMeaning(aes: Aes, key: Block, seed: Bytes, data: Bytes)
    requires |seed| == 8
    ensures var chunkMacs := ChunkMacs(aes, key, seed + seed, data, 131_072);
      var m := LastBlock(Zeros(16), CbcEncrypted(aes, key, Zeros(16), chunkMacs));
      MacOf(aes, key, seed, data) == XorAll(m[..4], m[4..8]) + XorAll(m[8..12], m[12..])
  {
    hide FinalMac, CbcMac, ChunkMacs, CbcEncrypted, XorAll, Folded;
    var chunkMacs := ChunkMacs(aes, key, seed + seed, data, 131_072);
    MacOfMacs(aes, key, seed + seed, data, 131_072, Zeros(16));
    MacIsLastBlock(aes, key, Zeros(16), chunkMacs);
    assert ZeroPadded(chunkMacs) == chunkMacs;
    FoldedWords(FinalMac(aes, key, seed + seed, data, 131_072, Zeros(16)));
  }

  // ---------------------------------------------------------------- The packed key

  /** Each block on its own. */
  lemma {:induction false} EcbByBlock(f: Block -> Block, data: Bytes, i: nat)
    requires |data| % 16 == 0 && 16 * i < |data|
    ensures Ecb(f, data)[16 * i..16 * i + 16] == f(data[16 * i..16 * i + 16])
    decreases |data|
  {
    BlocksLeft(data, i);
    var first: Bytes, rest: Bytes := f(data[..16]), Ecb(f, data[16..]);
    assert Ecb(f, data) == first + rest;
    FirstBlock(first, rest);
    hide Ecb;
    if i > 0 {
      TailBlock(data, i);
      EcbByBlock(f, data[16..], i - 1);
      DropBlock(first, rest, i - 1);
    }
  }

  lemma MergedParts(key: Bytes)
    requires |key| >= 32
    ensures Merged(key) == XorAll(key[..16], key[16..32]) + key[16..]
  {
    hide Xor;
  }

  /** The two blocks of a packed key: the file key combined with seed and MAC, and seed and MAC. */
  lemma PackedKeyBlocks(aes: Aes, session: Block, key: Block, seed: Bytes, mac: Bytes)
    requires |seed| == 8 && |mac| == 8
    ensures var tail: Block := seed + mac;
      KeyBlob(aes, session, key, seed, mac) == aes.enc(session, XorAll(key, tail)) + aes.enc(session, tail)
  {
    hide XorAll, Merged, Ecb;
    var tail: Block := seed + mac;
    var plain := key + seed + mac;
    assert plain == key + tail && plain[..16] == key && plain[16..32] == tail && plain[16..] == tail;
    MergedParts(plain);
    var merged, first := Merged(plain), XorAll(key, tail);
    assert merged == first + tail && |merged| == 32;
    assert merged[0..16] == first && merged[16..32] == tail;
    var blob := Ecb(aes.Encrypting(session), merged);
    EcbByBlock(aes.Encrypting(session), merged, 0);
    EcbByBlock(aes.Encrypting(session), merged, 1);
    assert blob == blob[0..16] + blob[16..32];
  }

  /** The file key of a node, read from the two halves of its unwrapped key. */
  lemma FileKeyMeaning(nodeKey: Bytes)
    requires |nodeKey| == 32
    ensures FileKeyOf(nodeKey) == XorAll(nodeKey[..16], nodeKey[16..32])
  {
    hide XorAll;
    MergedParts(nodeKey);
    assert (XorAll(nodeKey[..16], nodeKey[16..32]) + nodeKey[16..])[..16] == XorAll(nodeKey[..16], nodeKey[16..32]);
  }

  // ---------------------------------------------------------------- Attributes

  /** The plain text of packed attributes: "MEGA", the text and zeros to the next multiple of sixteen bytes. */
  lemma AttributeText(aes: Aes, key: Block, json: Bytes)
    requires aes.Valid()
    ensures var plain := CbcDecrypted(aes, key, Zeros(16), PackedAttributes(aes, key, json));
      && plain[..4] == [0x4D, 0x45, 0x47, 0x41]
      && plain[4..4 + |json|] == json
      && (forall k :: 4 + |json| <= k < |plain| ==> plain[k] == 0)
      && |plain| % 16 == 0 && 4 + |json| <= |plain| < 4 + |json| + 16
  {
    hide CbcDecrypted, CbcEncrypted;
    CbcUndoes(aes, key, Zeros(16), MEGA + json + Zeros(PaddingLength(|MEGA + json|)));
  }
}
