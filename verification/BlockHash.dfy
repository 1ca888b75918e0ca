/** The content hash of Dropbox: the hash of the hashes of the 4 MiB blocks of a file. */
module BlockHash {
  import opened Prelude
  import opened Bytes

  const BLOCK_SIZE: nat := 0x40_0000
  const BUFFER_SIZE: nat := 0x1_0000

  /** A read returns at least one byte if there is one, and at most what the buffer slice takes. */
  function ReadSize(want: nat, limit: nat, left: nat): (n: nat)
    ensures n <= left && n <= limit
    ensures n == 0 <==> left == 0 || limit == 0
  {
    if left == 0 || limit == 0 then 0 else if want == 0 then 1 else Min(want, Min(limit, left))
  }

  function BlockHashes(hash: Bytes -> Bytes, content: Bytes): Bytes
    decreases |content|
  {
    if content == [] then []
    else var n := Min(BLOCK_SIZE, |content|); hash(content[..n]) + BlockHashes(hash, content[n..])
  }

  /** One block, read piece by piece; `read` counts the reads made so far. */
  method ReadBlock(content: Bytes, pos: nat, wants: nat -> nat, read: nat) returns (block: Bytes, readsAfter: nat)
    requires pos <= |content|
    ensures block == content[pos..pos + Min(BLOCK_SIZE, |content| - pos)]
  {
    block := [];
    readsAfter := read;
    var bytesRead := 0;
    while bytesRead < BLOCK_SIZE
      invariant bytesRead <= BLOCK_SIZE && pos + bytesRead <= |content|
      invariant block == content[pos..pos + bytesRead]
      decreases |content| - pos - bytesRead
    {
      var limit := Min(BUFFER_SIZE, BLOCK_SIZE - bytesRead);
      var n := ReadSize(wants(readsAfter), limit, |content| - pos - bytesRead);
      readsAfter := readsAfter + 1;
      if n == 0 {
        break;
      }
      block := block + content[pos + bytesRead..pos + bytesRead + n];
      bytesRead := bytesRead + n;
    }
  }

  /** However short the reads are, the digest is the hash of the concatenated block hashes. */
  method ComputeDropboxHash(hash: Bytes -> Bytes, content: Bytes, wants: nat -> nat) returns (digest: Bytes)
    ensures digest == hash(BlockHashes(hash, content))
  {
    var blockHashes: Bytes := [];
    var pos: nat, read: nat := 0, 0;
    assert content[0..] == content;
    while true
      invariant pos <= |content|
      invariant BlockHashes(hash, content) == blockHashes + BlockHashes(hash, content[pos..])
      decreases |content| - pos
    {
      var block;
      block, read := ReadBlock(content, pos, wants, read);
      if |block| == 0 {
        assert blockHashes + [] == blockHashes;
        return hash(blockHashes);
      }
      NextBlock(hash, content, pos, block, blockHashes);
      blockHashes := blockHashes + hash(block);
      pos := pos + |block|;
    }
  }

  lemma NextBlock(hash: Bytes -> Bytes, content: Bytes, pos: nat, block: Bytes, done: Bytes)
    requires pos < |content| && block == content[pos..pos + Min(BLOCK_SIZE, |content| - pos)]
    ensures done + BlockHashes(hash, content[pos..]) == done + hash(block) + BlockHashes(hash, content[pos + |block|..])
  {
    var tail := content[pos..];
    assert tail[..|block|] == block && tail[|block|..] == content[pos + |block|..];
    ConcatAssociates(done, hash(block), BlockHashes(hash, content[pos + |block|..]));
  }

  // ---------------------------------------------------------------- Blocks by number

  function BlockCount(n: nat): nat { (n + BLOCK_SIZE - 1) / BLOCK_SIZE }

  function BlockAt(content: Bytes, i: nat): Bytes
    requires i < BlockCount(|content|)
  {
    content[i * BLOCK_SIZE..Min((i + 1) * BLOCK_SIZE, |content|)]
  }

  function Joined(parts: seq<Bytes>): Bytes {
    if parts == [] then [] else parts[0] + Joined(parts[1..])
  }

  function HashesByNumber(hash: Bytes -> Bytes, content: Bytes): (hs: seq<Bytes>)
    ensures |hs| == BlockCount(|content|)
  {
    seq(BlockCount(|content|), i requires 0 <= i < BlockCount(|content|) => hash(BlockAt(content, i)))
  }

  lemma BlocksShift(hash: Bytes -> Bytes, content: Bytes)
    requires |content| > BLOCK_SIZE
    ensures HashesByNumber(hash, content)[1..] == HashesByNumber(hash, content[BLOCK_SIZE..])
  {
    var rest := content[BLOCK_SIZE..];
    assert BlockCount(|content|) == BlockCount(|rest|) + 1;
    forall i | 0 <= i < BlockCount(|rest|) ensures BlockAt(content, i + 1) == BlockAt(rest, i) {
      assert (i + 1) * BLOCK_SIZE == i * BLOCK_SIZE + BLOCK_SIZE;
    }
  }

  /** The hashed blocks are the consecutive full blocks of the file and a shorter one if something is left; none is empty. */
  lemma {:induction false} BlocksByNumber(hash: Bytes -> Bytes, content: Bytes)
    ensures BlockHashes(hash, content) == Joined(HashesByNumber(hash, content))
    ensures forall i :: 0 <= i < BlockCount(|content|) ==> BlockAt(content, i) != []
    decreases |content|
  {
    if content != [] {
      var first := content[..Min(BLOCK_SIZE, |content|)];
      assert BlockAt(content, 0) == first;
      if |content| > BLOCK_SIZE {
        BlocksByNumber(hash, content[BLOCK_SIZE..]);
        BlocksShift(hash, content);
      } else {
        assert HashesByNumber(hash, content) == [hash(first)];
        assert [hash(first)][1..] == [];
        assert content[|content|..] == [];
      }
    }
  }

  function Blocks(content: Bytes): (blocks: seq<Bytes>)
    ensures |blocks| == BlockCount(|content|)
  {
    seq(BlockCount(|content|), i requires 0 <= i < BlockCount(|content|) => BlockAt(content, i))
  }

  lemma BlocksTail(content: Bytes)
    requires |content| > BLOCK_SIZE
    ensures Blocks(content)[1..] == Blocks(content[BLOCK_SIZE..])
  {
    var rest := content[BLOCK_SIZE..];
    assert BlockCount(|content|) == BlockCount(|rest|) + 1;
    forall i | 0 <= i < BlockCount(|rest|) ensures BlockAt(content, i + 1) == BlockAt(rest, i) {
      assert (i + 1) * BLOCK_SIZE == i * BLOCK_SIZE + BLOCK_SIZE;
    }
  }

  /** The blocks make up the file; each but the last holds 4 MiB, and the last one no more. */
  lemma {:induction false} BlocksMakeFile(content: Bytes)
    ensures Joined(Blocks(content)) == content
    ensures forall i :: 0 <= i < |Blocks(content)| - 1 ==> |Blocks(content)[i]| == 4_194_304
    ensures forall i :: 0 <= i < |Blocks(content)| ==> 0 < |Blocks(content)[i]| <= 4_194_304
    decreases |content|
  {
    if |content| > BLOCK_SIZE {
      var rest := content[BLOCK_SIZE..];
      BlocksMakeFile(rest);
      BlocksTail(content);
      assert Blocks(content)[0] == content[..BLOCK_SIZE];
      assert content == content[..BLOCK_SIZE] + rest;
      forall i | 0 < i < |Blocks(content)| ensures Blocks(content)[i] == Blocks(rest)[i - 1] {
        assert Blocks(content)[i] == Blocks(content)[1..][i - 1];
      }
    } else if content != [] {
      assert BlockCount(|content|) == 1 && BlockAt(content, 0) == content;
      assert Blocks(content) == [content];
      assert [content][1..] == [] && content + [] == content;
    }
  }
}
