/** The bytes of a vault file, and what a download makes of bytes that are not as they were written. */
module VaultLayout {
  import opened Prelude
  import opened Bytes
  import opened Vault
  import opened VaultProofs
  import opened VaultTruncation

  /** Four bytes that spell the number, the highest first. */
  predicate Spells(b: Bytes, n: nat) {
    |b| == 4 && b[0] as nat * 0x100_0000 + b[1] as nat * 0x1_0000 + b[2] as nat * 0x100 + b[3] as nat == n
  }

  lemma Spelled(n: nat)
    requires n < TWO_32
    ensures Spells(Be32(n), n)
  {
    Be32RoundTrip(n);
    hide Be32;
  }

  lemma SpelledOnce(b: Bytes, n: nat)
    requires n < TWO_32 && Spells(b, n)
    ensures b == Be32(n)
  {
    Spelled(n);
    var c := Be32(n);
    hide Be32;
    SameDigits(b[0] as nat, b[1] as nat, b[2] as nat, b[3] as nat, c[0] as nat, c[1] as nat, c[2] as nat, c[3] as nat);
  }

  lemma SameDigits(a0: nat, a1: nat, a2: nat, a3: nat, b0: nat, b1: nat, b2: nat, b3: nat)
    requires a0 < 0x100 && a1 < 0x100 && a2 < 0x100 && a3 < 0x100 && b0 < 0x100 && b1 < 0x100 && b2 < 0x100 && b3 < 0x100
    requires a0 * 0x100_0000 + a1 * 0x1_0000 + a2 * 0x100 + a3 == b0 * 0x100_0000 + b1 * 0x1_0000 + b2 * 0x100 + b3
    ensures a0 == b0 && a1 == b1 && a2 == b2 && a3 == b3
  {}

  lemma {:induction false} FramesFrom(aead: Aead, base: Bytes, pieces: seq<Bytes>, i: nat, k: nat)
    requires i <= k <= |pieces|
    ensures Frames(aead, base, pieces, i) == FramesUpTo(aead, base, pieces, i, k) + Frames(aead, base, pieces, k)
    decreases k - i
  {
    hide Frame;
    if i < k {
      FramesFrom(aead, base, pieces, i + 1, k);
      ConcatAssociates(Frame(aead, base, i, FlagAt(pieces, i), pieces[i]), FramesUpTo(aead, base, pieces, i + 1, k), Frames(aead, base, pieces, k));
    }
  }

  lemma Inside<T>(a: seq<T>, b: seq<T>, c: seq<T>, lo: nat, hi: nat)
    requires lo <= hi <= |b + c|
    ensures (a + (b + c))[|a| + lo..|a| + hi] == (b + c)[lo..hi]
  {}

  /** The first 29 bytes: the word "CSYC", a version byte, the salt of the key and the base of the nonces. */
  lemma HeaderLayout(kdf: Bytes -> Aead, salt: Bytes, base: Bytes, pieces: seq<Bytes>)
    requires |salt| == 16 && |base| == 8
    ensures var v := Vaulted(kdf, salt, base, pieces);
      && |v| >= 29 && v[..4] == [0x43, 0x53, 0x59, 0x43] && v[4] == 1 && v[5..21] == salt && v[21..29] == base
      && v[29..] == Frames(kdf(salt), base, pieces, 0)
  {
    hide Header, Frames;
    HeaderParts(salt, base, Frames(kdf(salt), base, pieces, 0));
  }

  lemma FrameAt(aead: Aead, base: Bytes, pieces: seq<Bytes>, k: nat)
    requires k < |pieces| && |Seal(aead, base, k, FlagAt(pieces, k), pieces[k])| < TWO_32
    ensures var s, o := Frames(aead, base, pieces, 0), |FramesUpTo(aead, base, pieces, 0, k)|;
      var ct := Seal(aead, base, k, FlagAt(pieces, k), pieces[k]);
      && |s| >= o + 5 + |ct|
      && s[o..o + 4] == Be32(|ct|) && s[o + 4..o + 5] == [FlagAt(pieces, k)] && s[o + 5..o + 5 + |ct|] == ct
      && |FramesUpTo(aead, base, pieces, 0, k + 1)| == o + 5 + |ct|
  {
    hide Be32, Seal;
    var flag := FlagAt(pieces, k);
    var ct := Seal(aead, base, k, flag, pieces[k]);
    var before, f := FramesUpTo(aead, base, pieces, 0, k), Frame(aead, base, k, flag, pieces[k]);
    var rest := Frames(aead, base, pieces, k + 1);
    FramesFrom(aead, base, pieces, 0, k);
    FrameBytes(aead, base, k, flag, pieces[k], rest);
    UpToNext(aead, base, pieces, 0, k);
    assert Frames(aead, base, pieces, k) == f + rest;
    hide Frames, Frame, FramesUpTo;
    Inside(before, f, rest, 0, 4);
    Inside(before, f, rest, 4, 5);
    Inside(before, f, rest, 5, 5 + |ct|);
  }

  /**
   * The k-th frame: the length of the ciphertext in four bytes, a byte that is 1 for the last piece and 0 otherwise,
   * and the piece sealed with the base and the four bytes of k as nonce, the four bytes of k and the flag bound to it.
   */
  lemma FrameLayout(aead: Aead, base: Bytes, pieces: seq<Bytes>, k: nat, index: Bytes)
    requires k < |pieces| <= TWO_32 && Spells(index, k) && Stored(aead, base, pieces)
    ensures var s, o := Frames(aead, base, pieces, 0), |FramesUpTo(aead, base, pieces, 0, k)|;
      var flag: byte := if k == |pieces| - 1 then 1 else 0;
      var ct := aead.seal(base + index, index + [flag], pieces[k]);
      && |s| >= o + 5 + |ct|
      && Spells(s[o..o + 4], |ct|) && s[o + 4] == flag && s[o + 5..o + 5 + |ct|] == ct
      && |FramesUpTo(aead, base, pieces, 0, k + 1)| == o + 5 + |ct|
  {
    SpelledOnce(index, k);
    SealedSize(aead, base, pieces, k);
    var flag := FlagAt(pieces, k);
    var ct := Seal(aead, base, k, flag, pieces[k]);
    assert ct == aead.seal(base + index, index + [flag], pieces[k]);
    hide Be32, Seal, Stored, Nonce, Aad, Frames, FramesUpTo, Spells;
    Spelled(|ct|);
    FrameAt(aead, base, pieces, k);
    var s, o := Frames(aead, base, pieces, 0), |FramesUpTo(aead, base, pieces, 0, k)|;
    assert s[o + 4] == s[o + 4..o + 5][0];
  }

  lemma FrameBytes(aead: Aead, base: Bytes, i: nat, flag: byte, piece: Bytes, rest: Bytes)
    requires |Seal(aead, base, i, flag, piece)| < TWO_32
    ensures var ct := Seal(aead, base, i, flag, piece);
      var s := Frame(aead, base, i, flag, piece) + rest;
      && |Frame(aead, base, i, flag, piece)| == 5 + |ct|
      && s[0..4] == Be32(|ct|) && s[4..5] == [flag] && s[5..5 + |ct|] == ct
  {
    hide Seal, Be32;
  }

  lemma {:induction false} UpToNext(aead: Aead, base: Bytes, pieces: seq<Bytes>, i: nat, k: nat)
    requires i <= k < |pieces|
    ensures |FramesUpTo(aead, base, pieces, i, k + 1)| == |FramesUpTo(aead, base, pieces, i, k)| + |Frame(aead, base, k, FlagAt(pieces, k), pieces[k])|
    decreases k - i
  {
    hide Frame;
    if i < k {
      UpToNext(aead, base, pieces, i + 1, k);
    }
  }

  // ---------------------------------------------------------------- Other bytes

  /** What becomes of a file is told by its length, its first four bytes and its version byte. */
  lemma Dispatch(kdf: Bytes -> Aead, v: Bytes)
    ensures DownloadOf(kdf, v).Legacy? <==> |v| < 29 || v[..4] != [0x43, 0x53, 0x59, 0x43]
    ensures forall x :: DownloadOf(kdf, v) == UnsupportedVersion(x) <==> !DownloadOf(kdf, v).Legacy? && v[4] == x != 1
  {}

  lemma {:induction false} DecodeBehind(aead: Aead, base: Bytes, pieces: seq<Bytes>, i: nat, k: nat, tail: Bytes)
    requires i <= k < |pieces| && Stored(aead, base, pieces)
    ensures Decode(aead, base, FramesUpTo(aead, base, pieces, i, k) + tail, i)
         == Prepend(Concat(pieces[i..k]), Decode(aead, base, tail, k))
    decreases k - i
  {
    hide Decode, Frame, Stored;
    if i == k {
      assert [] + tail == tail && pieces[i..k] == [];
      assert [] + Decode(aead, base, tail, k).written == Decode(aead, base, tail, k).written;
    } else {
      var f, rest := Frame(aead, base, i, FlagAt(pieces, i), pieces[i]), FramesUpTo(aead, base, pieces, i + 1, k);
      ConcatAssociates(f, rest, tail);
      WholeFrame(aead, base, pieces, i, rest + tail);
      DecodeBehind(aead, base, pieces, i + 1, k, tail);
      ConcatCons(pieces, i, k);
      ConcatAssociates(pieces[i], Concat(pieces[i + 1..k]), Decode(aead, base, tail, k).written);
    }
  }

  lemma RejectedFrame(aead: Aead, base: Bytes, k: nat, flag: byte, ct: Bytes, rest: Bytes)
    requires |ct| < TWO_32 && aead.open(Nonce(base, k), Aad(k, flag), ct) == None
    ensures Decode(aead, base, Be32(|ct|) + [flag] + ct + rest, k) == Report([], BadTag)
  {
    Be32RoundTrip(|ct|);
    hide Be32, FromBe32, Nonce, Aad;
    var s := Be32(|ct|) + [flag] + ct + rest;
    assert s[..4] == Be32(|ct|) && s[4] == flag && s[5..5 + |ct|] == ct;
  }

  /**
   * A chunk that does not open ends the download with an error, whatever its flag and whatever follows; the pieces
   * before it have been written.
   */
  lemma ForgeryIsReported(kdf: Bytes -> Aead, salt: Bytes, base: Bytes, pieces: seq<Bytes>, k: nat, flag: byte, ct: Bytes, rest: Bytes)
    requires |salt| == 16 && |base| == 8 && k < |pieces| && Stored(kdf(salt), base, pieces)
    requires |ct| < TWO_32 && kdf(salt).open(Nonce(base, k), Aad(k, flag), ct) == None
    ensures var body := FramesUpTo(kdf(salt), base, pieces, 0, k) + (Be32(|ct|) + [flag] + ct + rest);
      var d := DownloadOf(kdf, Header(salt, base) + body);
      d == Streamed(Report(Concat(pieces[..k]), BadTag)) && !d.report.Success()
  {
    hide Decode, Header, FramesUpTo, Stored, Nonce, Aad, Be32;
    var bad := Be32(|ct|) + [flag] + ct + rest;
    HeaderParts(salt, base, FramesUpTo(kdf(salt), base, pieces, 0, k) + bad);
    DecodeBehind(kdf(salt), base, pieces, 0, k, bad);
    RejectedFrame(kdf(salt), base, k, flag, ct, rest);
    assert pieces[0..k] == pieces[..k];
    assert Concat(pieces[..k]) + [] == Concat(pieces[..k]);
  }

  /** Files shorter than 29 bytes are listed as empty. */
  lemma ShortFilesListedEmpty(size: nat)
    requires size < 29
    ensures ListedSize(size) == 0
  {}
}
