/** The encrypted vault format: a header, then chunks sealed under nonces that count up. */
module Vault {
  import opened Prelude
  import opened Bytes

  const MAGIC: Bytes := [0x43, 0x53, 0x59, 0x43]
  const VERSION: byte := 1
  const CHUNK_SIZE: nat := 0x1_0000
  const TAG_SIZE: nat := 16
  const HEADER_SIZE: nat := 29

  /** Authenticated encryption under one file key: seal(nonce, data, plaintext), open(nonce, data, ciphertext). */
  datatype Aead = Aead(seal: (Bytes, Bytes, Bytes) -> Bytes, open: (Bytes, Bytes, Bytes) -> Option<Bytes>)

  /** Chunk numbers are 32-bit and saturate. */
  function ChunkIndex(i: nat): (n: nat)
    ensures n < TWO_32
  {
    Min(i, U32_MAX)
  }

  function Nonce(base: Bytes, i: nat): Bytes { base + Be32(ChunkIndex(i)) }

  function Aad(i: nat, isLast: byte): Bytes { Be32(ChunkIndex(i)) + [isLast] }

  function Seal(aead: Aead, base: Bytes, i: nat, isLast: byte, piece: Bytes): Bytes {
    aead.seal(Nonce(base, i), Aad(i, isLast), piece)
  }

  function Frame(aead: Aead, base: Bytes, i: nat, isLast: byte, piece: Bytes): Bytes {
    var ct := Seal(aead, base, i, isLast, piece);
    Be32(|ct| % TWO_32) + [isLast] + ct
  }

  function FlagAt(pieces: seq<Bytes>, i: nat): byte { if i + 1 == |pieces| then 1 else 0 }

  /** The frames of the pieces from the i-th on. */
  function Frames(aead: Aead, base: Bytes, pieces: seq<Bytes>, i: nat): Bytes
    requires i <= |pieces|
    decreases |pieces| - i
  {
    if i == |pieces| then [] else Frame(aead, base, i, FlagAt(pieces, i), pieces[i]) + Frames(aead, base, pieces, i + 1)
  }

  function Header(salt: Bytes, base: Bytes): Bytes { MAGIC + [VERSION] + salt + base }

  function Concat(pieces: seq<Bytes>): Bytes {
    if pieces == [] then [] else pieces[0] + Concat(pieces[1..])
  }

  // ---------------------------------------------------------------- Writing

  /** How much a read returns: something if anything is left, never more than a chunk. */
  function ReadSize(want: nat, left: nat): (n: nat)
    ensures n <= left && n <= CHUNK_SIZE
    ensures n == 0 <==> left == 0
  {
    if left == 0 then 0 else if want == 0 then 1 else Min(want, Min(CHUNK_SIZE, left))
  }

  /** The pieces read from position `pos`, the k-th read wanting wants(k) bytes. */
  function Pieces(content: Bytes, pos: nat, wants: nat -> nat, k: nat): (pieces: seq<Bytes>)
    requires pos <= |content|
    ensures pieces != []
    decreases |content| - pos
  {
    var n := ReadSize(wants(k), |content| - pos);
    if pos + n >= |content| then [content[pos..pos + n]]
    else [content[pos..pos + n]] + Pieces(content, pos + n, wants, k + 1)
  }

  method WriteChunk(aead: Aead, base: Bytes, chunkIndex: nat, isLast: byte, buf: Bytes, file: Bytes, ghost i: nat) returns (extended: Bytes)
    requires chunkIndex == ChunkIndex(i)
    ensures extended == file + Frame(aead, base, i, isLast, buf)
  {
    var nonce := base + Be32(chunkIndex);
    var aad := Be32(chunkIndex) + [isLast];
    var ciphertext := aead.seal(nonce, aad, buf);
    extended := file + (Be32(|ciphertext| % TWO_32) + [isLast] + ciphertext);
  }

  /** What the writing loop appends from read `k` on. */
  function Body(aead: Aead, base: Bytes, content: Bytes, pos: nat, wants: nat -> nat, k: nat): Bytes
    requires pos <= |content|
    decreases |content| - pos
  {
    var n := ReadSize(wants(k), |content| - pos);
    var piece := content[pos..pos + n];
    if pos + n >= |content| then Frame(aead, base, k, 1, piece)
    else Frame(aead, base, k, 0, piece) + Body(aead, base, content, pos + n, wants, k + 1)
  }

  lemma BodyStep(aead: Aead, base: Bytes, content: Bytes, pos: nat, wants: nat -> nat, k: nat, file: Bytes)
    requires pos <= |content|
    ensures var n := ReadSize(wants(k), |content| - pos);
      && (pos + n >= |content| ==>
          file + Body(aead, base, content, pos, wants, k) == file + Frame(aead, base, k, 1, content[pos..pos + n]))
      && (pos + n < |content| ==>
          file + Body(aead, base, content, pos, wants, k)
            == file + Frame(aead, base, k, 0, content[pos..pos + n]) + Body(aead, base, content, pos + n, wants, k + 1))
  {
    var n := ReadSize(wants(k), |content| - pos);
    if pos + n < |content| {
      ConcatAssociates(file, Frame(aead, base, k, 0, content[pos..pos + n]), Body(aead, base, content, pos + n, wants, k + 1));
    }
  }

  method Upload(kdf: Bytes -> Aead, salt: Bytes, base: Bytes, content: Bytes, wants: nat -> nat) returns (vault: Bytes)
    ensures vault == Header(salt, base) + Frames(kdf(salt), base, Pieces(content, 0, wants, 0), 0)
  {
    hide Be32, Frame, Body, Frames, Pieces, Header;
    var aead := kdf(salt);
    vault := Header(salt, base);
    ghost var whole := vault + Body(aead, base, content, 0, wants, 0);
    var chunkIndex: nat, totalRead: nat, isLast: byte := 0, 0, 0;
    var k: nat := 0;
    while isLast == 0
      invariant totalRead <= |content|
      invariant chunkIndex == ChunkIndex(k)
      invariant isLast <= 1
      invariant isLast == 0 ==> whole == vault + Body(aead, base, content, totalRead, wants, k)
      invariant isLast == 1 ==> whole == vault
      decreases |content| - totalRead, 1 - isLast
    {
      var n := ReadSize(wants(k), |content| - totalRead);
      var buf := content[totalRead..totalRead + n];
      BodyStep(aead, base, content, totalRead, wants, k, vault);
      totalRead := totalRead + n;
      isLast := if totalRead >= |content| then 1 else 0;
      vault := WriteChunk(aead, base, chunkIndex, isLast, buf, vault, k);
      chunkIndex := Min(chunkIndex + 1, U32_MAX);
      k := k + 1;
    }
    BodyIsFrames(aead, base, content, 0, wants, 0, Pieces(content, 0, wants, 0));
  }

  lemma {:induction false} BodyIsFrames(aead: Aead, base: Bytes, content: Bytes, pos: nat, wants: nat -> nat, k: nat, pieces: seq<Bytes>)
    requires pos <= |content| && k < |pieces|
    requires pieces[k..] == Pieces(content, pos, wants, k)
    ensures Body(aead, base, content, pos, wants, k) == Frames(aead, base, pieces, k)
    decreases |content| - pos
  {
    var n := ReadSize(wants(k), |content| - pos);
    PiecesStep(content, pos, wants, k, pieces);
    if pos + n < |content| {
      BodyIsFrames(aead, base, content, pos + n, wants, k + 1, pieces);
    } else {
      var frame := Frame(aead, base, k, 1, pieces[k]);
      assert Frames(aead, base, pieces, k) == frame + [] == frame;
    }
  }

  lemma PiecesStep(content: Bytes, pos: nat, wants: nat -> nat, k: nat, pieces: seq<Bytes>)
    requires pos <= |content| && k < |pieces|
    requires pieces[k..] == Pieces(content, pos, wants, k)
    ensures var n := ReadSize(wants(k), |content| - pos);
      && pieces[k] == content[pos..pos + n]
      && FlagAt(pieces, k) == (if pos + n >= |content| then 1 else 0)
      && (pos + n < |content| ==> k + 1 < |pieces| && pieces[k + 1..] == Pieces(content, pos + n, wants, k + 1))
  {
    assert pieces[k] == pieces[k..][0];
    assert pieces[k + 1..] == pieces[k..][1..];
    assert |pieces| == k + |pieces[k..]|;
  }

  // ---------------------------------------------------------------- Reading

  /** Why the reader stopped. It reports success for the first two. */
  datatype End = LastFlag | EndOfInput | CutInFrame | BadTag

  datatype Report = Report(written: Bytes, end: End) {
    predicate Success() { end.LastFlag? || end.EndOfInput? }
  }

  /** What reading frames from the i-th on writes to the destination file. */
  function Decode(aead: Aead, base: Bytes, s: Bytes, i: nat): Report
    decreases |s|
  {
    if |s| < 4 then Report([], EndOfInput)
    else if |s| < 5 || |s| < 5 + FromBe32(s[..4]) then Report([], CutInFrame)
    else
      var n := FromBe32(s[..4]);
      var isLast := s[4];
      var plain := aead.open(Nonce(base, i), Aad(i, isLast), s[5..5 + n]);
      if plain.None? then Report([], BadTag)
      else if isLast == 1 then Report(plain.value, LastFlag)
      else
        var rest := Decode(aead, base, s[5 + n..], i + 1);
        Report(plain.value + rest.written, rest.end)
  }

  function Prepend(written: Bytes, r: Report): Report { r.(written := written + r.written) }

  lemma DecodeStep(aead: Aead, base: Bytes, s: Bytes, pos: nat, i: nat, written: Bytes)
    requires pos <= |s|
    ensures Prepend(written, Decode(aead, base, s[pos..], i)) ==
      if |s| - pos < 4 then Report(written, EndOfInput)
      else if |s| - pos < 5 || |s| - pos < 5 + FromBe32(s[pos..pos + 4]) then Report(written, CutInFrame)
      else
        var n := FromBe32(s[pos..pos + 4]);
        var plain := aead.open(Nonce(base, i), Aad(i, s[pos + 4]), s[pos + 5..pos + 5 + n]);
        if plain.None? then Report(written, BadTag)
        else if s[pos + 4] == 1 then Report(written + plain.value, LastFlag)
        else Prepend(written + plain.value, Decode(aead, base, s[pos + 5 + n..], i + 1))
  {
    var tail := s[pos..];
    if |tail| >= 5 {
      assert tail[..4] == s[pos..pos + 4];
      var n := FromBe32(tail[..4]);
      if |tail| >= 5 + n {
        assert tail[5..5 + n] == s[pos + 5..pos + 5 + n];
        assert tail[5 + n..] == s[pos + 5 + n..];
        var plain := aead.open(Nonce(base, i), Aad(i, tail[4]), tail[5..5 + n]);
        if plain.Some? && tail[4] != 1 {
          ConcatAssociates(written, plain.value, Decode(aead, base, tail[5 + n..], i + 1).written);
        }
      }
    } else if |tail| == 4 {
      assert tail[..4] == s[pos..pos + 4];
    }
  }

  method DecodeStream(aead: Aead, base: Bytes, s: Bytes) returns (report: Report)
    ensures report == Decode(aead, base, s, 0)
  {
    hide Be32, FromBe32, Decode;
    var written: Bytes := [];
    var pos: nat, chunkIndex: nat := 0, 0;
    ghost var i: nat := 0;
    while true
      invariant pos <= |s| && chunkIndex == ChunkIndex(i)
      invariant Decode(aead, base, s, 0) == Prepend(written, Decode(aead, base, s[pos..], i))
      decreases |s| - pos
    {
      DecodeStep(aead, base, s, pos, i, written);
      if |s| - pos < 4 {
        return Report(written, EndOfInput);
      }
      if |s| - pos < 5 {
        return Report(written, CutInFrame);
      }
      var chunkLen := FromBe32(s[pos..pos + 4]);
      var isLast := s[pos + 4];
      if |s| - pos < 5 + chunkLen {
        return Report(written, CutInFrame);
      }
      var nonce := base + Be32(chunkIndex);
      var aad := Be32(chunkIndex) + [isLast];
      var plain := aead.open(nonce, aad, s[pos + 5..pos + 5 + chunkLen]);
      if plain.None? {
        return Report(written, BadTag);
      }
      written := written + plain.value;
      if isLast == 1 {
        return Report(written, LastFlag);
      }
      pos := pos + 5 + chunkLen;
      chunkIndex := Min(chunkIndex + 1, U32_MAX);
      i := i + 1;
    }
  }

  /** Files without the magic bytes go to the legacy decoder, which is not modelled further. */
  datatype Download = Streamed(report: Report) | UnsupportedVersion(version: byte) | Legacy

  function DownloadOf(kdf: Bytes -> Aead, vault: Bytes): Download {
    if |vault| < HEADER_SIZE || vault[..4] != MAGIC then Legacy
    else if vault[4] != VERSION then UnsupportedVersion(vault[4])
    else Streamed(Decode(kdf(vault[5..21]), vault[21..29], vault[29..], 0))
  }

  method DownloadFile(kdf: Bytes -> Aead, vault: Bytes) returns (d: Download)
    ensures d == DownloadOf(kdf, vault)
  {
    if |vault| >= HEADER_SIZE {
      var magic := vault[..4];
      if magic == MAGIC {
        var version := vault[4];
        if version != VERSION {
          return UnsupportedVersion(version);
        }
        var salt, base := vault[5..21], vault[21..29];
        var report := DecodeStream(kdf(salt), base, vault[29..]);
        return Streamed(report);
      }
    }
    d := Legacy;
  }

  /** The size a listing shows for a stored file. */
  function ListedSize(size: nat): nat {
    if size >= 29 then
      var body := size - 29;
      var numChunks := (body + 65556) / 65557;
      var overhead := 29 + numChunks * 21;
      if size >= overhead then size - overhead else 0
    else if size >= 28 then size - 28 else 0
  }
}
