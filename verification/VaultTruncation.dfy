/** What becomes of an uploaded vault file that is cut off somewhere, and of one written with short reads. */
module VaultTruncation {
  import opened Bytes
  import opened Vault
  import opened VaultProofs

  /** How the pieces are stored: they can be opened again, and none is longer than a chunk. */
  ghost predicate Stored(aead: Aead, base: Bytes, pieces: seq<Bytes>) {
    SealedOpens(aead, base, pieces) && forall j :: 0 <= j < |pieces| ==> |pieces[j]| <= CHUNK_SIZE
  }

  function Vaulted(kdf: Bytes -> Aead, salt: Bytes, base: Bytes, pieces: seq<Bytes>): Bytes {
    Header(salt, base) + Frames(kdf(salt), base, pieces, 0)
  }

  /** Where the first k frames of the file end. */
  function Boundary(aead: Aead, base: Bytes, pieces: seq<Bytes>, k: nat): nat
    requires k <= |pieces|
  {
    HEADER_SIZE + |FramesUpTo(aead, base, pieces, 0, k)|
  }

  lemma SealedSize(aead: Aead, base: Bytes, pieces: seq<Bytes>, i: nat)
    requires i < |pieces| && Stored(aead, base, pieces)
    ensures 16 <= |Seal(aead, base, i, FlagAt(pieces, i), pieces[i])| < TWO_32
  {}

  /** Part of a frame: nothing is written, and the reader complains unless it misses the end of a length field. */
  lemma PartOfFrame(aead: Aead, base: Bytes, pieces: seq<Bytes>, i: nat, m: nat)
    requires i < |pieces| && Stored(aead, base, pieces)
    requires m < |Frame(aead, base, i, FlagAt(pieces, i), pieces[i])|
    ensures Decode(aead, base, Frame(aead, base, i, FlagAt(pieces, i), pieces[i])[..m], i)
         == Report([], if m < 4 then EndOfInput else CutInFrame)
  {
    hide Seal, Be32, FromBe32, Nonce, Aad;
    SealedSize(aead, base, pieces, i);
    var f := Frame(aead, base, i, FlagAt(pieces, i), pieces[i]);
    FrameParts(aead, base, i, FlagAt(pieces, i), pieces[i], []);
    assert f + [] == f;
    if m >= 5 {
      assert f[..m][..4] == f[..4];
    }
  }

  /** A whole frame in front of whatever follows. */
  lemma WholeFrame(aead: Aead, base: Bytes, pieces: seq<Bytes>, i: nat, rest: Bytes)
    requires i + 1 < |pieces| && Stored(aead, base, pieces)
    ensures Decode(aead, base, Frame(aead, base, i, FlagAt(pieces, i), pieces[i]) + rest, i)
         == Prepend(pieces[i], Decode(aead, base, rest, i + 1))
  {
    hide Seal, Be32, FromBe32, Frame, Nonce, Aad;
    SealedSize(aead, base, pieces, i);
    FrameParts(aead, base, i, FlagAt(pieces, i), pieces[i], rest);
  }

  lemma PrefixOfSum(a: Bytes, b: Bytes, m: nat)
    requires m < |a + b|
    ensures m < |a| ==> (a + b)[..m] == a[..m]
    ensures m >= |a| ==> (a + b)[..m] == a + b[..m - |a|]
  {}

  /** Reading the first m bytes of the frames from the i-th on. */
  lemma {:induction false} DecodeCut(aead: Aead, base: Bytes, pieces: seq<Bytes>, i: nat, m: nat) returns (k: nat)
    requires i <= |pieces| && Stored(aead, base, pieces)
    requires m < |Frames(aead, base, pieces, i)|
    ensures i <= k < |pieces|
    ensures |FramesUpTo(aead, base, pieces, i, k)| <= m < |FramesUpTo(aead, base, pieces, i, k + 1)|
    ensures Decode(aead, base, Frames(aead, base, pieces, i)[..m], i)
         == Report(Concat(pieces[i..k]), if m < |FramesUpTo(aead, base, pieces, i, k)| + 4 then EndOfInput else CutInFrame)
    decreases |pieces| - i
  {
    hide Frame, Decode, Stored;
    var f, rest := Frame(aead, base, i, FlagAt(pieces, i), pieces[i]), Frames(aead, base, pieces, i + 1);
    PrefixOfSum(f, rest, m);
    if m < |f| {
      k := i;
      PartOfFrame(aead, base, pieces, i, m);
      assert pieces[i..i] == [];
    } else {
      k := DecodeCut(aead, base, pieces, i + 1, m - |f|);
      WholeFrame(aead, base, pieces, i, rest[..m - |f|]);
      ConcatCons(pieces, i, k);
    }
  }

  lemma {:induction false} FramesGrow(aead: Aead, base: Bytes, pieces: seq<Bytes>, i: nat, k: nat)
    requires i <= k < |pieces| && Stored(aead, base, pieces)
    ensures |FramesUpTo(aead, base, pieces, i, k)| + 21 <= |FramesUpTo(aead, base, pieces, i, k + 1)|
    decreases k - i
  {
    hide Stored, Seal;
    if i < k {
      FramesGrow(aead, base, pieces, i + 1, k);
    } else {
      SealedSize(aead, base, pieces, k);
    }
  }

  lemma {:induction false} BoundariesGrow(aead: Aead, base: Bytes, pieces: seq<Bytes>, j: nat, k: nat)
    requires j < k <= |pieces| && Stored(aead, base, pieces)
    ensures Boundary(aead, base, pieces, j) + 21 <= Boundary(aead, base, pieces, k)
    decreases k - j
  {
    hide Stored, FramesUpTo;
    FramesGrow(aead, base, pieces, 0, k - 1);
    if j < k - 1 {
      BoundariesGrow(aead, base, pieces, j, k - 1);
    }
  }

  lemma CutBehindHeader(kdf: Bytes -> Aead, salt: Bytes, base: Bytes, pieces: seq<Bytes>, n: nat) returns (k: nat)
    requires |salt| == 16 && |base| == 8 && Stored(kdf(salt), base, pieces)
    requires HEADER_SIZE <= n < |Vaulted(kdf, salt, base, pieces)|
    ensures k < |pieces| && Boundary(kdf(salt), base, pieces, k) <= n < Boundary(kdf(salt), base, pieces, k + 1)
    ensures DownloadOf(kdf, Vaulted(kdf, salt, base, pieces)[..n])
         == Streamed(Report(Concat(pieces[..k]), if n < Boundary(kdf(salt), base, pieces, k) + 4 then EndOfInput else CutInFrame))
  {
    hide Frames, FramesUpTo, Decode, Stored, Header;
    var h, body := Header(salt, base), Frames(kdf(salt), base, pieces, 0);
    HeaderSize(salt, base);
    HeaderParts(salt, base, body[..n - HEADER_SIZE]);
    PrefixOfSum(h, body, n);
    k := DecodeCut(kdf(salt), base, pieces, 0, n - HEADER_SIZE);
    assert pieces[0..k] == pieces[..k];
  }

  lemma HeaderSize(salt: Bytes, base: Bytes)
    requires |salt| == 16 && |base| == 8
    ensures |Header(salt, base)| == HEADER_SIZE
  {}

  /**
   * A proper prefix of an uploaded file is read without error if and only if it ends less than four bytes behind the
   * end of the header or of a frame. What is written then are the pieces before that point; any other cut behind the
   * header is reported, and one inside the header goes to the legacy decoder.
   */
  lemma TruncationExact(kdf: Bytes -> Aead, salt: Bytes, base: Bytes, pieces: seq<Bytes>, n: nat)
    requires |salt| == 16 && |base| == 8 && Stored(kdf(salt), base, pieces)
    requires n < |Vaulted(kdf, salt, base, pieces)|
    ensures var d, aead := DownloadOf(kdf, Vaulted(kdf, salt, base, pieces)[..n]), kdf(salt);
      if n < HEADER_SIZE then d == Legacy
      else
        && d.Streamed?
        && (d.report.Success() <==> exists k :: 0 <= k < |pieces| && Boundary(aead, base, pieces, k) <= n < Boundary(aead, base, pieces, k) + 4)
        && (forall k :: 0 <= k < |pieces| && Boundary(aead, base, pieces, k) <= n < Boundary(aead, base, pieces, k) + 4 ==>
              d.report.written == Concat(pieces[..k]))
        && (!d.report.Success() ==> d.report.end == CutInFrame)
  {
    hide Boundary, Vaulted, Concat, Stored;
    if n >= HEADER_SIZE {
      hide DownloadOf;
      var aead := kdf(salt);
      var c := CutBehindHeader(kdf, salt, base, pieces, n);
      forall k | 0 <= k < |pieces| && Boundary(aead, base, pieces, k) <= n < Boundary(aead, base, pieces, k) + 4 ensures k == c {
        if k < c { BoundariesGrow(aead, base, pieces, k, c); }
        if c < k { BoundariesGrow(aead, base, pieces, c, k); if c + 1 < k { BoundariesGrow(aead, base, pieces, c + 1, k); } }
      }
    }
  }

  // ---------------------------------------------------------------- Files

  lemma ConcatAppend(a: seq<Bytes>, b: seq<Bytes>)
    ensures Concat(a + b) == Concat(a) + Concat(b)
    decreases |a|
  {
    if a == [] {
      assert a + b == b;
    } else {
      ConcatAppend(a[1..], b);
      assert (a + b)[1..] == a[1..] + b;
    }
  }

  /**
   * Whatever follows the header of an uploaded file, what is written is a prefix of the file; if the reader stops on
   * the last flag it is the whole file, and, unless the file is empty, only then.
   */
  lemma FileAuthenticity(kdf: Bytes -> Aead, salt: Bytes, base: Bytes, content: Bytes, wants: nat -> nat, body: Bytes)
    requires |salt| == 16 && |base| == 8
    requires |Pieces(content, 0, wants, 0)| <= TWO_32 && OnlySealedOpens(kdf(salt), base, Pieces(content, 0, wants, 0))
    ensures var d := DownloadOf(kdf, Header(salt, base) + body);
      && d.Streamed?
      && d.report.written <= content
      && (d.report.end == LastFlag ==> d.report.written == content)
      && (content != [] && d.report.written == content ==> d.report.end == LastFlag)
  {
    hide Pieces, DownloadOf, OnlySealedOpens, Header;
    var pieces := Pieces(content, 0, wants, 0);
    PiecesChunk(content, 0, wants, 0);
    assert content[0..] == content;
    var k := VaultAuthenticity(kdf, salt, base, pieces, body);
    assert pieces == pieces[..k] + pieces[k..];
    ConcatAppend(pieces[..k], pieces[k..]);
    if k < |pieces| {
      assert Concat(pieces[k..]) == pieces[k] + Concat(pieces[k..][1..]);
    } else {
      assert pieces[..k] == pieces && pieces[k..] == [];
    }
  }

  lemma PairSize(aead: Aead, salt: Bytes, base: Bytes, x: byte, y: byte)
    requires |salt| == 16 && |base| == 8 && SealedOpens(aead, base, [[x], [y]])
    ensures |Header(salt, base) + Frames(aead, base, [[x], [y]], 0)| == 73
  {
    hide Frames, Header, SealedOpens;
    HeaderSize(salt, base);
    FramesSize(aead, base, [[x], [y]], 0);
    var none: seq<Bytes>, both: seq<Bytes> := [], [[x], [y]];
    assert both[0..] == both && both[1..] == [[y]] && [[y]][1..] == none;
    assert |Concat(none)| == 0;
    assert |Concat([[y]])| == 1;
    assert |Concat(both)| == 2;
  }

  /** A file of two bytes that is read byte by byte is listed with a size of 23. */
  lemma ShortReadsMislead(aead: Aead, salt: Bytes, base: Bytes, x: byte, y: byte)
    requires |salt| == 16 && |base| == 8 && SealedOpens(aead, base, Pieces([x, y], 0, _ => 1, 0))
    ensures ListedSize(|Header(salt, base) + Frames(aead, base, Pieces([x, y], 0, _ => 1, 0), 0)|) == 23
  {
    hide Frames, Header, SealedOpens;
    var one: nat -> nat := _ => 1;
    var content: Bytes := [x, y];
    assert content[0..1] == [x] && content[1..2] == [y];
    assert Pieces(content, 1, one, 1) == [[y]];
    assert Pieces(content, 0, one, 0) == [[x]] + [[y]] == [[x], [y]];
    PairSize(aead, salt, base, x, y);
  }
}
