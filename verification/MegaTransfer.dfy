/** Uploading and downloading a MEGA file, and why the second undoes the first. */
module MegaTransfer {
  import opened Prelude
  import opened Bytes
  import opened Mega

  /** The beginning of the bytes: as many as asked for, or all if there are fewer. */
  function Taken(s: Bytes, size: nat): (t: Bytes)
    ensures t <= s && |t| <= size
    ensures |t| == size || t == s
  {
    s[..Min(size, |s|)]
  }

  lemma StreamAppend(aes: Aes, key: Block, iv: Block, data: Bytes, pos: nat, n: nat)
    requires pos + n <= |data|
    ensures Stream(aes, key, iv, data[..pos], 0) + Stream(aes, key, iv, data[pos..pos + n], pos)
         == Stream(aes, key, iv, data[..pos + n], 0)
  {
    hide Xor, KeyByte;
  }

  lemma StreamSlice(aes: Aes, key: Block, iv: Block, data: Bytes, pos: nat, n: nat)
    requires pos + n <= |data|
    ensures Stream(aes, key, iv, data[pos..pos + n], pos) == Stream(aes, key, iv, data, 0)[pos..pos + n]
  {
    hide Xor, KeyByte;
  }

  lemma FinalMacStep(aes: Aes, key: Block, fileIv: Block, data: Bytes, pos: nat, size: nat, acc: Block)
    requires size > 0 && pos < |data|
    ensures var n := Min(size, |data| - pos);
      FinalMac(aes, key, fileIv, data[pos..], size, acc)
        == FinalMac(aes, key, fileIv, data[pos + n..], NextChunk(size),
                    aes.enc(key, XorAll(CbcMac(aes, key, fileIv, data[pos..pos + n]), acc)))
  {
    hide CbcMac;
    var n := Min(size, |data| - pos);
    assert data[pos..][..n] == data[pos..pos + n] && data[pos..][n..] == data[pos + n..];
  }

  /** Streams the first `size` bytes of the file and returns what was sent and the packed key. */
  method UploadNode(aes: Aes, session: Block, fileKey: Block, seed: Bytes, size: nat, content: Bytes)
    returns (sent: Bytes, packedKey: Bytes)
    requires |seed| == 8
    ensures sent == StreamOf(aes, fileKey, seed, Taken(content, size))
    ensures packedKey == KeyBlob(aes, session, fileKey, seed, MacOf(aes, fileKey, seed, Taken(content, size)))
  {
    hide FinalMac, CbcMac, Stream, Merged, Folded, XorAll, Ecb;
    var fileIv: Block := seed + seed;
    var iv: Block := seed + Zeros(8);
    var ctr := new Ctr(aes, fileKey, iv);
    var data := Taken(content, size);
    var chunkSize: nat, curMac: Block, finalMacData: Block := FIRST_CHUNK, Zeros(16), Zeros(16);
    var finalMac := new CbcEncryptor(aes, fileKey, finalMacData);
    sent := [];
    var pos: nat := 0;
    StreamEmpty(aes, fileKey, iv, data);
    assert data[0..] == data;
    while pos < |data|
      invariant pos <= |data| && chunkSize > 0
      invariant ctr.aes == aes && ctr.key == fileKey && ctr.iv == iv && ctr.pos == pos
      invariant finalMac.aes == aes && finalMac.key == fileKey && finalMac.chain == finalMacData
      invariant sent == Stream(aes, fileKey, iv, data[..pos], 0)
      invariant FinalMac(aes, fileKey, fileIv, data, FIRST_CHUNK, Zeros(16))
             == FinalMac(aes, fileKey, fileIv, data[pos..], chunkSize, finalMacData)
    {
      var n := Min(chunkSize, |data| - pos);
      var chunk := data[pos..pos + n];
      FinalMacStep(aes, fileKey, fileIv, data, pos, chunkSize, finalMacData);
      curMac := ChunkMac(aes, fileKey, fileIv, chunk, curMac);
      finalMacData := finalMac.Encrypt(curMac);
      var buffer := new byte[n](i requires 0 <= i < n => chunk[i]);
      assert buffer[..] == chunk;
      ctr.ApplyKeystream(buffer);
      StreamAppend(aes, fileKey, iv, data, pos, n);
      sent := sent + buffer[..];
      pos := pos + n;
      if chunkSize < LARGEST_CHUNK {
        chunkSize := chunkSize + FIRST_CHUNK;
      }
    }
    assert data[..pos] == data;
    FinalMacEnd(aes, fileKey, fileIv, data[pos..], chunkSize, finalMacData);
    var folded := new byte[16](i requires 0 <= i < 16 => finalMacData[i]);
    assert folded[..] == finalMacData;
    FoldMac(folded);
    packedKey := PackKey(aes, session, fileKey, seed, folded[..8]);
  }

  lemma StreamEmpty(aes: Aes, key: Block, iv: Block, data: Bytes)
    ensures Stream(aes, key, iv, data[..0], 0) == []
  {}

  lemma FinalMacEnd(aes: Aes, key: Block, fileIv: Block, data: Bytes, size: nat, acc: Block)
    requires size > 0 && data == []
    ensures FinalMac(aes, key, fileIv, data, size, acc) == acc
  {}

  method PackKey(aes: Aes, session: Block, fileKey: Block, seed: Bytes, mac: Bytes) returns (packed: Bytes)
    requires |seed| == 8 && |mac| == 8
    ensures packed == KeyBlob(aes, session, fileKey, seed, mac)
  {
    hide Merged, Ecb;
    var plain := fileKey + seed + mac;
    var key := new byte[32](i requires 0 <= i < 32 => plain[i]);
    assert key[..] == plain;
    MergeKeyMac(key);
    EcbInPlace(aes.Encrypting(session), key);
    packed := key[..];
  }

  datatype Verdict = Accepted | MacMismatch

  function FileKeyOf(nodeKey: Bytes): Block
    requires |nodeKey| == 32
  {
    Merged(nodeKey)[..16]
  }

  /** Decrypts what the server sends and writes it, then checks the MAC that the node key carries. */
  method DownloadNode(aes: Aes, nodeKey: Bytes, size: nat, served: Bytes) returns (written: Bytes, verdict: Verdict)
    requires |nodeKey| == 32
    ensures written == StreamOf(aes, FileKeyOf(nodeKey), nodeKey[16..24], Taken(served, size))
    ensures verdict.Accepted? <==> MacOf(aes, FileKeyOf(nodeKey), nodeKey[16..24], written) == nodeKey[24..32]
  {
    hide FinalMac, CbcMac, Stream, Merged, Folded, XorAll;
    var keyBytes := new byte[32](i requires 0 <= i < 32 => nodeKey[i]);
    assert keyBytes[..] == nodeKey;
    MergeKeyMac(keyBytes);
    var fileKey: Block := keyBytes[..16];
    assert fileKey == FileKeyOf(nodeKey) by { assert keyBytes[..16] == keyBytes[..][..16]; }
    var seed := nodeKey[16..24];
    var fileIv: Block := seed + seed;
    var iv: Block := seed + Zeros(8);
    var ctr := new Ctr(aes, fileKey, iv);
    var data := Taken(served, size);
    ghost var plain := Stream(aes, fileKey, iv, data, 0);
    var chunkSize: nat, curMac: Block, finalMacData: Block := FIRST_CHUNK, Zeros(16), Zeros(16);
    var finalMac := new CbcEncryptor(aes, fileKey, finalMacData);
    written := [];
    var pos: nat := 0;
    assert plain[0..] == plain;
    while pos < |data|
      invariant pos <= |data| && chunkSize > 0
      invariant ctr.aes == aes && ctr.key == fileKey && ctr.iv == iv && ctr.pos == pos
      invariant finalMac.aes == aes && finalMac.key == fileKey && finalMac.chain == finalMacData
      invariant written == plain[..pos]
      invariant FinalMac(aes, fileKey, fileIv, plain, FIRST_CHUNK, Zeros(16))
             == FinalMac(aes, fileKey, fileIv, plain[pos..], chunkSize, finalMacData)
    {
      var n := Min(chunkSize, |data| - pos);
      var chunk := data[pos..pos + n];
      FinalMacStep(aes, fileKey, fileIv, plain, pos, chunkSize, finalMacData);
      StreamSlice(aes, fileKey, iv, data, pos, n);
      var buffer := new byte[n](i requires 0 <= i < n => chunk[i]);
      assert buffer[..] == chunk;
      ctr.ApplyKeystream(buffer);
      assert buffer[..] == plain[pos..pos + n];
      written := written + buffer[..];
      curMac := ChunkMac(aes, fileKey, fileIv, buffer[..], curMac);
      finalMacData := finalMac.Encrypt(curMac);
      pos := pos + n;
      if chunkSize < LARGEST_CHUNK {
        chunkSize := chunkSize + FIRST_CHUNK;
      }
    }
    FinalMacEnd(aes, fileKey, fileIv, plain[pos..], chunkSize, finalMacData);
    var folded := new byte[16](i requires 0 <= i < 16 => finalMacData[i]);
    assert folded[..] == finalMacData;
    FoldMac(folded);
    if folded[..8] != nodeKey[24..32] {
      return written, MacMismatch;
    }
    verdict := Accepted;
  }

  /** How a node's key is read back from its packed form. */
  method UnpackKey(aes: Aes, session: Block, packed: Bytes) returns (nodeKey: Bytes)
    requires |packed| % 16 == 0
    ensures nodeKey == Ecb(aes.Decrypting(session), packed)
  {
    hide Ecb;
    var key := new byte[|packed|](i requires 0 <= i < |packed| => packed[i]);
    assert key[..] == packed;
    EcbInPlace(aes.Decrypting(session), key);
    nodeKey := key[..];
  }
}
