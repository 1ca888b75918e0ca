/** What the vault format guarantees: distinct nonces, authenticity, round trips and listed sizes. */
module VaultProofs {
  import opened Prelude
  import opened Bytes
  import opened Vault

  /** How a file was cut into pieces: at least one, none longer than a chunk, none empty unless the file is. */
  ghost predicate IsChunking(pieces: seq<Bytes>, content: Bytes) {
    && pieces != []
    && Concat(pieces) == content
    && (forall j :: 0 <= j < |pieces| ==> |pieces[j]| <= CHUNK_SIZE)
    && (content != [] ==> forall j :: 0 <= j < |pieces| ==> pieces[j] != [])
    && (content == [] ==> |pieces| == 1)
  }

  /** However short the reads are, the writer cuts the file into such pieces. */
  lemma {:induction false} PiecesChunk(content: Bytes, pos: nat, wants: nat -> nat, k: nat)
    requires pos < |content| || pos == 0 == |content|
    ensures IsChunking(Pieces(content, pos, wants, k), content[pos..])
    decreases |content| - pos
  {
    var n := ReadSize(wants(k), |content| - pos);
    var piece := content[pos..pos + n];
    if pos + n < |content| {
      PiecesChunk(content, pos + n, wants, k + 1);
      var rest := Pieces(content, pos + n, wants, k + 1);
      assert ([piece] + rest)[1..] == rest;
      assert content[pos..] == piece + content[pos + n..];
    } else {
      var none: seq<Bytes> := []; assert [piece][1..] == none;
      assert content[pos..] == piece && piece + Concat(none) == piece;
    }
  }

  // ---------------------------------------------------------------- Nonces

  lemma NonceIndex(base: Bytes, i: nat, j: nat)
    ensures Nonce(base, i) == Nonce(base, j) <==> ChunkIndex(i) == ChunkIndex(j)
  {
    Be32RoundTrip(ChunkIndex(i));
    Be32RoundTrip(ChunkIndex(j));
    assert Nonce(base, i)[|base|..] == Be32(ChunkIndex(i));
    assert Nonce(base, j)[|base|..] == Be32(ChunkIndex(j));
  }

  /** No two of the first n chunks share a nonce if and only if n is at most two to the thirty-two. */
  lemma NoncesDistinct(base: Bytes, n: nat)
    ensures (forall i: nat, j: nat :: i < j < n ==> Nonce(base, i) != Nonce(base, j)) <==> n <= TWO_32
  {
    if n <= TWO_32 {
      forall i: nat, j: nat | i < j < n ensures Nonce(base, i) != Nonce(base, j) {
        NonceIndex(base, i, j);
      }
    } else {
      NonceIndex(base, U32_MAX, TWO_32);
    }
  }

  // ---------------------------------------------------------------- Authenticity

  /** The ideal: under this key, nothing opens but what the writer sealed. */
  ghost predicate OnlySealedOpens(aead: Aead, base: Bytes, pieces: seq<Bytes>) {
    forall n, d, c :: aead.open(n, d, c).Some? ==>
      exists j :: 0 <= j < |pieces| && n == Nonce(base, j) && d == Aad(j, FlagAt(pieces, j)) && aead.open(n, d, c).value == pieces[j]
  }

  lemma ConcatCons(pieces: seq<Bytes>, i: nat, k: nat)
    requires i < k <= |pieces|
    ensures Concat(pieces[i..k]) == pieces[i] + Concat(pieces[i + 1..k])
  {
    assert pieces[i..k][1..] == pieces[i + 1..k];
  }

  /** Whatever chunk is accepted as the i-th one is the i-th one, with the flag it was sealed under. */
  lemma AcceptedChunk(aead: Aead, base: Bytes, pieces: seq<Bytes>, i: nat, isLast: byte, ct: Bytes)
    requires OnlySealedOpens(aead, base, pieces)
    requires i < |pieces| <= TWO_32
    requires aead.open(Nonce(base, i), Aad(i, isLast), ct).Some?
    ensures aead.open(Nonce(base, i), Aad(i, isLast), ct).value == pieces[i]
    ensures isLast == FlagAt(pieces, i)
  {
    hide Nonce, Be32;
    var j :| 0 <= j < |pieces| && Nonce(base, i) == Nonce(base, j) && Aad(i, isLast) == Aad(j, FlagAt(pieces, j))
             && aead.open(Nonce(base, i), Aad(i, isLast), ct).value == pieces[j];
    NonceIndex(base, i, j);
    assert i == j;
    assert Aad(i, isLast)[4] == isLast;
    assert Aad(j, FlagAt(pieces, j))[4] == FlagAt(pieces, j);
  }

  lemma {:induction false} DecodeAuthentic(aead: Aead, base: Bytes, pieces: seq<Bytes>, s: Bytes, i: nat) returns (k: nat)
    requires OnlySealedOpens(aead, base, pieces)
    requires i < |pieces| <= TWO_32
    ensures i <= k <= |pieces|
    ensures Decode(aead, base, s, i).written == Concat(pieces[i..k])
    ensures Decode(aead, base, s, i).end == LastFlag <==> k == |pieces|
    decreases |s|
  {
    hide Nonce, Aad, Be32, FromBe32, OnlySealedOpens;
    k := i;
    if |s| >= 5 && |s| >= 5 + FromBe32(s[..4]) {
      var n, isLast := FromBe32(s[..4]), s[4];
      var plain := aead.open(Nonce(base, i), Aad(i, isLast), s[5..5 + n]);
      if plain.Some? {
        AcceptedChunk(aead, base, pieces, i, isLast, s[5..5 + n]);
        if isLast == 1 {
          k := i + 1;
        } else {
          k := DecodeAuthentic(aead, base, pieces, s[5 + n..], i + 1);
        }
        ConcatCons(pieces, i, k);
        assert pieces[i + 1..i + 1] == [];
        assert pieces[i] + [] == pieces[i];
      }
    }
  }

  lemma HeaderParts(salt: Bytes, base: Bytes, body: Bytes)
    requires |salt| == 16 && |base| == 8
    ensures var v := Header(salt, base) + body;
      && |v| >= HEADER_SIZE && v[..4] == MAGIC && v[4] == VERSION
      && v[5..21] == salt && v[21..29] == base && v[29..] == body
  {
    var h := Header(salt, base);
    var v := h + body;
    assert h[..4] == MAGIC && h[5..21] == salt && h[21..29] == base;
    assert v[..4] == h[..4] && v[5..21] == h[5..21] && v[21..29] == h[21..29];
  }

  /**
   * Whatever follows the header of an uploaded file, reading it writes some of its first pieces, whole and in
   * order; all of them exactly when the reader stops on the last flag.
   */
  lemma VaultAuthenticity(kdf: Bytes -> Aead, salt: Bytes, base: Bytes, pieces: seq<Bytes>, body: Bytes) returns (k: nat)
    requires |salt| == 16 && |base| == 8
    requires 0 < |pieces| <= TWO_32 && OnlySealedOpens(kdf(salt), base, pieces)
    ensures k <= |pieces|
    ensures var d := DownloadOf(kdf, Header(salt, base) + body);
      && d.Streamed?
      && d.report.written == Concat(pieces[..k])
      && (d.report.end == LastFlag <==> k == |pieces|)
  {
    hide Decode, Header, OnlySealedOpens;
    HeaderParts(salt, base, body);
    k := DecodeAuthentic(kdf(salt), base, pieces, body, 0);
    assert pieces[0..k] == pieces[..k];
  }

  // ---------------------------------------------------------------- Round trip and truncation

  /** What the writer seals opens again, and is longer by the tag. */
  ghost predicate SealedOpens(aead: Aead, base: Bytes, pieces: seq<Bytes>) {
    forall j :: 0 <= j < |pieces| ==>
      var ct := Seal(aead, base, j, FlagAt(pieces, j), pieces[j]);
      aead.open(Nonce(base, j), Aad(j, FlagAt(pieces, j)), ct) == Some(pieces[j]) && |ct| == |pieces[j]| + TAG_SIZE
  }

  lemma FrameParts(aead: Aead, base: Bytes, i: nat, isLast: byte, piece: Bytes, rest: Bytes)
    requires |Seal(aead, base, i, isLast, piece)| < TWO_32
    ensures var ct := Seal(aead, base, i, isLast, piece);
      var s := Frame(aead, base, i, isLast, piece) + rest;
      && |s| >= 5 + |ct| && FromBe32(s[..4]) == |ct| && s[4] == isLast && s[5..5 + |ct|] == ct && s[5 + |ct|..] == rest
  {
    hide Seal, Be32, FromBe32;
    var ct := Seal(aead, base, i, isLast, piece);
    var f := Frame(aead, base, i, isLast, piece);
    var s := f + rest;
    Be32RoundTrip(|ct|);
    assert f[..4] == Be32(|ct|) && f[5..] == ct;
    assert s[..4] == f[..4] && s[5..5 + |ct|] == f[5..] && s[5 + |ct|..] == rest;
  }

  /** The first k frames of an uploaded file. */
  function FramesUpTo(aead: Aead, base: Bytes, pieces: seq<Bytes>, i: nat, k: nat): Bytes
    requires i <= k <= |pieces|
    decreases k - i
  {
    if i == k then [] else Frame(aead, base, i, FlagAt(pieces, i), pieces[i]) + FramesUpTo(aead, base, pieces, i + 1, k)
  }

  lemma {:induction false} AllFrames(aead: Aead, base: Bytes, pieces: seq<Bytes>, i: nat)
    requires i <= |pieces|
    ensures Frames(aead, base, pieces, i) == FramesUpTo(aead, base, pieces, i, |pieces|)
    decreases |pieces| - i
  {
    if i < |pieces| {
      AllFrames(aead, base, pieces, i + 1);
    }
  }

  lemma {:induction false} DecodeFrames(aead: Aead, base: Bytes, pieces: seq<Bytes>, i: nat, k: nat)
    requires i <= k <= |pieces|
    requires SealedOpens(aead, base, pieces)
    requires forall j :: 0 <= j < |pieces| ==> |pieces[j]| <= CHUNK_SIZE
    ensures Decode(aead, base, FramesUpTo(aead, base, pieces, i, k), i)
         == Report(Concat(pieces[i..k]), if k == |pieces| && i < k then LastFlag else EndOfInput)
    decreases k - i
  {
    hide Seal, Be32, FromBe32, Frame, Nonce, Aad;
    if i < k {
      var rest := FramesUpTo(aead, base, pieces, i + 1, k);
      FrameParts(aead, base, i, FlagAt(pieces, i), pieces[i], rest);
      DecodeFrames(aead, base, pieces, i + 1, k);
      ConcatCons(pieces, i, k);
      if i + 1 == |pieces| {
        assert pieces[i + 1..k] == [];
        assert pieces[i] + [] == pieces[i];
      }
    }
  }

  /**
   * A file cut off after k whole frames is read without an error. What is written is the first k pieces, so success
   * alone does not mean that the file is whole; stopping on the last flag does.
   */
  lemma TruncatedAtFrame(kdf: Bytes -> Aead, salt: Bytes, base: Bytes, pieces: seq<Bytes>, k: nat)
    requires |salt| == 16 && |base| == 8 && k <= |pieces|
    requires SealedOpens(kdf(salt), base, pieces)
    requires forall j :: 0 <= j < |pieces| ==> |pieces[j]| <= CHUNK_SIZE
    ensures DownloadOf(kdf, Header(salt, base) + FramesUpTo(kdf(salt), base, pieces, 0, k))
         == Streamed(Report(Concat(pieces[..k]), if k == |pieces| && k > 0 then LastFlag else EndOfInput))
  {
    hide Decode, Header, FramesUpTo;
    HeaderParts(salt, base, FramesUpTo(kdf(salt), base, pieces, 0, k));
    DecodeFrames(kdf(salt), base, pieces, 0, k);
    assert pieces[0..k] == pieces[..k];
  }

  /** Downloading an uploaded file gives the file back, whatever the lengths of the reads were. */
  lemma VaultRoundTrip(kdf: Bytes -> Aead, salt: Bytes, base: Bytes, content: Bytes, wants: nat -> nat)
    requires |salt| == 16 && |base| == 8
    requires SealedOpens(kdf(salt), base, Pieces(content, 0, wants, 0))
    ensures DownloadOf(kdf, Header(salt, base) + Frames(kdf(salt), base, Pieces(content, 0, wants, 0), 0))
         == Streamed(Report(content, LastFlag))
  {
    hide SealedOpens, Header, Frames, FramesUpTo, Pieces, DownloadOf;
    var pieces := Pieces(content, 0, wants, 0);
    PiecesChunk(content, 0, wants, 0);
    AllFrames(kdf(salt), base, pieces, 0);
    TruncatedAtFrame(kdf, salt, base, pieces, |pieces|);
    assert pieces[..|pieces|] == pieces;
    assert content[0..] == content;
  }

  // ---------------------------------------------------------------- Sizes

  lemma {:induction false} FramesSize(aead: Aead, base: Bytes, pieces: seq<Bytes>, i: nat)
    requires i <= |pieces| && SealedOpens(aead, base, pieces)
    ensures |Frames(aead, base, pieces, i)| == 21 * (|pieces| - i) + |Concat(pieces[i..])|
    decreases |pieces| - i
  {
    hide Seal, Be32;
    if i < |pieces| {
      FramesSize(aead, base, pieces, i + 1);
      assert pieces[i..][1..] == pieces[i + 1..];
    }
  }

  lemma ShownSize(n: nat, length: nat)
    requires 0 < n && length <= 65536 * n
    ensures ListedSize(29 + 21 * n + length) == length <==> length + 21 > 65536 * (n - 1)
  {
    var body := 21 * n + length;
    var q := (body + 65556) / 65557;
    assert q <= n;
    assert q == n <==> body > 65557 * (n - 1);
  }

  /**
   * The listed size of an uploaded file is the length of the file exactly when the file was not cut into more
   * pieces than the size formula expects.
   */
  lemma ListedSizeIsLength(aead: Aead, salt: Bytes, base: Bytes, pieces: seq<Bytes>, content: Bytes)
    requires |salt| == 16 && |base| == 8
    requires IsChunking(pieces, content) && SealedOpens(aead, base, pieces)
    ensures var vault := Header(salt, base) + Frames(aead, base, pieces, 0);
      ListedSize(|vault|) == |content| <==> |content| + 21 > CHUNK_SIZE * (|pieces| - 1)
  {
    hide Frames, ListedSize, SealedOpens;
    FramesSize(aead, base, pieces, 0);
    assert pieces[0..] == pieces;
    ConcatBound(pieces);
    ShownSize(|pieces|, |content|);
  }

  lemma {:induction false} ConcatBound(pieces: seq<Bytes>)
    requires forall j :: 0 <= j < |pieces| ==> |pieces[j]| <= CHUNK_SIZE
    ensures |Concat(pieces)| <= CHUNK_SIZE * |pieces|
  {
    if pieces != [] {
      ConcatBound(pieces[1..]);
    }
  }

  lemma {:induction false} FullReads(content: Bytes, pos: nat, wants: nat -> nat, k: nat)
    requires pos < |content| || pos == 0 == |content|
    requires forall j: nat :: wants(j) >= CHUNK_SIZE
    ensures var left := |content| - pos;
      |Pieces(content, pos, wants, k)| == if left == 0 then 1 else (left + CHUNK_SIZE - 1) / CHUNK_SIZE
    decreases |content| - pos
  {
    var n := ReadSize(wants(k), |content| - pos);
    if pos + n < |content| {
      assert n == CHUNK_SIZE;
      FullReads(content, pos + n, wants, k + 1);
    }
  }

  /** With full reads the listed size is the length of the file, the empty file and whole chunks included. */
  lemma ListedSizeOfFullReads(aead: Aead, salt: Bytes, base: Bytes, content: Bytes, wants: nat -> nat)
    requires |salt| == 16 && |base| == 8
    requires forall j: nat :: wants(j) >= CHUNK_SIZE
    requires SealedOpens(aead, base, Pieces(content, 0, wants, 0))
    ensures ListedSize(|Header(salt, base) + Frames(aead, base, Pieces(content, 0, wants, 0), 0)|) == |content|
  {
    hide Frames, Header, ListedSize, SealedOpens, Pieces;
    var pieces := Pieces(content, 0, wants, 0);
    PiecesChunk(content, 0, wants, 0);
    assert content[0..] == content;
    FullReads(content, 0, wants, 0);
    ListedSizeIsLength(aead, salt, base, pieces, content);
  }
}
