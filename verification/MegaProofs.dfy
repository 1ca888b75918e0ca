/** Downloading undoes uploading: the stream, the packed key and the file attributes. */
module MegaProofs {
  import opened Prelude
  import opened Bytes
  import opened Mega
  import opened MegaTransfer

  lemma StreamUndoes(aes: Aes, key: Block, iv: Block, data: Bytes, pos: nat)
    ensures Stream(aes, key, iv, Stream(aes, key, iv, data, pos), pos) == data
  {
    hide Xor, KeyByte;
    var out := Stream(aes, key, iv, data, pos);
    forall i | 0 <= i < |data| ensures Stream(aes, key, iv, out, pos)[i] == data[i] {
      XorUndoes(data[i], KeyByte(aes, key, iv, pos + i));
    }
  }

  lemma {:induction false} EcbUndoes(aes: Aes, k: Block, data: Bytes)
    requires aes.Valid() && |data| % 16 == 0
    ensures Ecb(aes.Decrypting(k), Ecb(aes.Encrypting(k), data)) == data
    decreases |data|
  {
    if data != [] {
      var block: Block := data[..16];
      var first: Bytes, rest: Bytes := aes.enc(k, block), Ecb(aes.Encrypting(k), data[16..]);
      assert (first + rest)[..16] == first && (first + rest)[16..] == rest;
      EcbUndoes(aes, k, data[16..]);
      assert block + data[16..] == data;
    }
  }

  lemma MergedUndoes(key: Bytes)
    requires |key| >= 16
    ensures Merged(Merged(key)) == key
  {
    hide Xor;
    forall i | 0 <= i < 16 && 16 + i < |key| ensures Xor(Xor(key[i], key[16 + i]), key[16 + i]) == key[i] {
      XorUndoes(key[i], key[16 + i]);
    }
  }

  /** The size of the k-th chunk, counting from one: they grow by 128 KiB up to 1 MiB. */
  function ChunkSize(k: nat): (size: nat)
    requires k >= 1
    ensures size > 0
  {
    Min(k, 8) * 131_072
  }

  /** How many bytes come before the k-th chunk. */
  function ChunkStart(k: nat): nat
    requires k >= 1
  {
    if k <= 9 then 65_536 * k * (k - 1) else 4_718_592 + (k - 9) * 1_048_576
  }

  lemma ChunkEnd(k: nat)
    requires k >= 1
    ensures ChunkStart(k + 1) == ChunkStart(k) + ChunkSize(k)
  {}

  /** CBC over the MACs of the chunks from the k-th on, each cut out of the file by its number. */
  function MacByNumber(aes: Aes, key: Block, fileIv: Block, data: Bytes, k: nat, acc: Block): Block
    requires k >= 1
    decreases Max(0, |data| - ChunkStart(k))
  {
    if ChunkStart(k) >= |data| then acc
    else
      ChunkEnd(k);
      var chunk := data[ChunkStart(k)..Min(ChunkStart(k + 1), |data|)];
      MacByNumber(aes, key, fileIv, data, k + 1, aes.enc(key, XorAll(CbcMac(aes, key, fileIv, chunk), acc)))
  }

  lemma {:induction false} ChunksFrom(aes: Aes, key: Block, fileIv: Block, data: Bytes, k: nat, acc: Block)
    requires k >= 1
    ensures FinalMac(aes, key, fileIv, data[Min(ChunkStart(k), |data|)..], ChunkSize(k), acc) == MacByNumber(aes, key, fileIv, data, k, acc)
    decreases Max(0, |data| - ChunkStart(k))
  {
    hide CbcMac, XorAll, FinalMac;
    var pos := Min(ChunkStart(k), |data|);
    if pos == |data| {
      FinalMacEnd(aes, key, fileIv, data[pos..], ChunkSize(k), acc);
    } else {
      ChunkEnd(k);
      FinalMacStep(aes, key, fileIv, data, pos, ChunkSize(k), acc);
      var chunk := data[pos..Min(ChunkStart(k + 1), |data|)];
      assert NextChunk(ChunkSize(k)) == ChunkSize(k + 1);
      ChunksFrom(aes, key, fileIv, data, k + 1, aes.enc(key, XorAll(CbcMac(aes, key, fileIv, chunk), acc)));
    }
  }

  /** The MAC of a file is taken over chunks of which the k-th holds min(k, 8) times 128 KiB, the last one what is left. */
  lemma ChunkSchedule(aes: Aes, key: Block, fileIv: Block, data: Bytes, acc: Block)
    ensures FinalMac(aes, key, fileIv, data, FIRST_CHUNK, acc) == MacByNumber(aes, key, fileIv, data, 1, acc)
  {
    hide CbcMac, XorAll, FinalMac;
    ChunksFrom(aes, key, fileIv, data, 1, acc);
    assert data[0..] == data;
  }

  /** The packed key unpacks to the parts it was made from. */
  lemma KeyRoundTrip(aes: Aes, session: Block, key: Block, seed: Bytes, mac: Bytes)
    requires aes.Valid() && |seed| == 8 && |mac| == 8
    ensures var nodeKey := Ecb(aes.Decrypting(session), KeyBlob(aes, session, key, seed, mac));
      && |nodeKey| == 32
      && FileKeyOf(nodeKey) == key && nodeKey[16..24] == seed && nodeKey[24..32] == mac
  {
    hide Xor;
    var plain := key + seed + mac;
    EcbUndoes(aes, session, Merged(plain));
    MergedUndoes(plain);
    assert plain[..16] == key && plain[16..24] == seed && plain[24..32] == mac;
    assert Merged(plain)[16..24] == plain[16..24] && Merged(plain)[24..32] == plain[24..32];
  }

  /**
   * For every file, size limit, file key and seed: what an upload sends and packs makes a download write the same
   * bytes and accept the MAC.
   */
  lemma MegaRoundTrip(aes: Aes, session: Block, key: Block, seed: Bytes, size: nat, content: Bytes)
    requires aes.Valid() && |seed| == 8
    ensures var data := Taken(content, size);
      var served := StreamOf(aes, key, seed, data);
      var nodeKey := Ecb(aes.Decrypting(session), KeyBlob(aes, session, key, seed, MacOf(aes, key, seed, data)));
      && |nodeKey| == 32
      && var written := StreamOf(aes, FileKeyOf(nodeKey), nodeKey[16..24], Taken(served, size));
         && written == data
         && MacOf(aes, FileKeyOf(nodeKey), nodeKey[16..24], written) == nodeKey[24..32]
  {
    hide Stream, KeyBlob, Ecb, MacOf, FileKeyOf;
    var data := Taken(content, size);
    KeyRoundTrip(aes, session, key, seed, MacOf(aes, key, seed, data));
    var served := StreamOf(aes, key, seed, data);
    assert Taken(served, size) == served;
    StreamUndoes(aes, key, seed + Zeros(8), data, 0);
  }

  /** The two transfers and the key packing, run one after the other. */
  method SendAndFetch(aes: Aes, session: Block, key: Block, seed: Bytes, size: nat, content: Bytes)
    returns (written: Bytes, verdict: Verdict)
    requires aes.Valid() && |seed| == 8
    ensures written == Taken(content, size) && verdict == Accepted
  {
    hide Stream, KeyBlob, Ecb, MacOf, FileKeyOf, Taken;
    MegaRoundTrip(aes, session, key, seed, size, content);
    var served, packed := UploadNode(aes, session, key, seed, size, content);
    var nodeKey := UnpackKey(aes, session, packed);
    written, verdict := DownloadNode(aes, nodeKey, size, served);
  }
}
