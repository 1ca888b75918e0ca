/** The attributes of a MEGA file: JSON text, padded and encrypted in CBC mode under the file key. */
module MegaAttributes {
  import opened Prelude
  import opened Bytes
  import opened Mega

  const MEGA: Bytes := [0x4D, 0x45, 0x47, 0x41]

  function CbcEncrypted(aes: Aes, key: Block, chain: Block, data: Bytes): (out: Bytes)
    requires |data| % 16 == 0
    ensures |out| == |data|
    decreases |data|
  {
    if data == [] then []
    else
      var c := aes.enc(key, XorAll(data[..16], chain));
      c + CbcEncrypted(aes, key, c, data[16..])
  }

  function CbcDecrypted(aes: Aes, key: Block, chain: Block, data: Bytes): (out: Bytes)
    requires |data| % 16 == 0
    ensures |out| == |data|
    decreases |data|
  {
    if data == [] then []
    else
      var c: Block := data[..16];
      XorAll(aes.dec(key, c), chain) + CbcDecrypted(aes, key, c, data[16..])
  }

  lemma {:induction false} CbcUndoes(aes: Aes, key: Block, chain: Block, data: Bytes)
    requires aes.Valid() && |data| % 16 == 0
    ensures CbcDecrypted(aes, key, chain, CbcEncrypted(aes, key, chain, data)) == data
    decreases |data|
  {
    hide Xor;
    if data != [] {
      var block: Block := data[..16];
      var c := aes.enc(key, XorAll(block, chain));
      var first: Bytes, rest: Bytes := c, CbcEncrypted(aes, key, c, data[16..]);
      assert (first + rest)[..16] == c && (first + rest)[16..] == rest;
      XorAllUndoes(block, chain);
      CbcUndoes(aes, key, c, data[16..]);
      assert block + data[16..] == data;
    }
  }

  function PaddingLength(n: nat): (p: nat)
    ensures (n + p) % 16 == 0 && p < 16
  {
    (16 - n % 16) % 16
  }

  /** The attributes, as JSON text, behind a magic word and padded with zeros. */
  function PackedAttributes(aes: Aes, key: Block, json: Bytes): (buffer: Bytes)
    ensures |buffer| % 16 == 0
  {
    var text := MEGA + json;
    CbcEncrypted(aes, key, Zeros(16), text + Zeros(PaddingLength(|text|)))
  }

  /** How many bytes come before the first zero. */
  function BeforeZero(s: Bytes): (n: nat)
    ensures n <= |s|
    ensures forall k :: 0 <= k < n ==> s[k] != 0
    ensures n < |s| ==> s[n] == 0
  {
    if s == [] || s[0] == 0 then 0 else 1 + BeforeZero(s[1..])
  }

  /** The text that is left to parse, or the end of the program. */
  datatype Unpacked = Json(text: Bytes) | Panicked

  /** The JSON text behind the magic word, up to the first zero. */
  function JsonOf(plain: Bytes): Unpacked {
    if |plain| < 4 || plain[..4] != MEGA then Panicked
    else
      assert plain[0] == MEGA[0] && plain[1] == MEGA[1] && plain[2] == MEGA[2] && plain[3] == MEGA[3];
      Json(plain[4..BeforeZero(plain)])
  }

  /** The plain text of a buffer. Bytes after the last whole block are taken as they are. */
  function PlainOf(aes: Aes, key: Block, buffer: Bytes): Bytes {
    var whole := |buffer| - |buffer| % 16;
    CbcDecrypted(aes, key, Zeros(16), buffer[..whole]) + buffer[whole..]
  }

  /** What is read back from an attribute buffer. */
  function UnpackedAttributes(aes: Aes, key: Block, buffer: Bytes): Unpacked {
    JsonOf(PlainOf(aes, key, buffer))
  }

  lemma StartWithNone(s: Bytes)
    ensures [] + s == s
  {}

  lemma EncryptNone(aes: Aes, key: Block, chain: Block)
    ensures CbcEncrypted(aes, key, chain, []) == []
  {}

  lemma DecryptNone(aes: Aes, key: Block, chain: Block)
    ensures CbcDecrypted(aes, key, chain, []) == []
  {}

  lemma EncryptStep(aes: Aes, key: Block, chain: Block, text: Bytes, i: nat, done: Bytes)
    requires i + 16 <= |text| && (|text| - i) % 16 == 0
    ensures var c := aes.enc(key, XorAll(text[i..i + 16], chain));
      done + CbcEncrypted(aes, key, chain, text[i..]) == done + c + CbcEncrypted(aes, key, c, text[i + 16..])
  {
    hide XorAll;
    assert text[i..][..16] == text[i..i + 16] && text[i..][16..] == text[i + 16..];
    var c := aes.enc(key, XorAll(text[i..i + 16], chain));
    ConcatAssociates(done, c, CbcEncrypted(aes, key, c, text[i + 16..]));
  }

  lemma DecryptStep(aes: Aes, key: Block, chain: Block, data: Bytes, i: nat, done: Bytes)
    requires i + 16 <= |data| && (|data| - i) % 16 == 0
    ensures var c: Block := data[i..i + 16];
      done + CbcDecrypted(aes, key, chain, data[i..])
        == done + XorAll(aes.dec(key, c), chain) + CbcDecrypted(aes, key, c, data[i + 16..])
  {
    hide XorAll;
    assert data[i..][..16] == data[i..i + 16] && data[i..][16..] == data[i + 16..];
    var c: Block := data[i..i + 16];
    ConcatAssociates(done, XorAll(aes.dec(key, c), chain), CbcDecrypted(aes, key, c, data[i + 16..]));
  }

  method EncryptCbc(aes: Aes, key: Block, text: Bytes) returns (buffer: Bytes)
    requires |text| % 16 == 0
    ensures buffer == CbcEncrypted(aes, key, Zeros(16), text)
  {
    hide XorAll, CbcEncrypted;
    var cbc := new CbcEncryptor(aes, key, Zeros(16));
    buffer := [];
    var i := 0;
    assert text[0..] == text;
    StartWithNone(CbcEncrypted(aes, key, Zeros(16), text));
    while i < |text|
      invariant 0 <= i <= |text| && i % 16 == 0
      invariant cbc.aes == aes && cbc.key == key
      invariant CbcEncrypted(aes, key, Zeros(16), text) == buffer + CbcEncrypted(aes, key, cbc.chain, text[i..])
    {
      EncryptStep(aes, key, cbc.chain, text, i, buffer);
      var c := cbc.Encrypt(text[i..i + 16]);
      buffer := buffer + c;
      i := i + 16;
    }
    assert text[i..] == [] && buffer + [] == buffer;
    EncryptNone(aes, key, cbc.chain);
  }

  method DecryptCbc(aes: Aes, key: Block, buffer: Bytes) returns (plain: Bytes)
    requires |buffer| % 16 == 0
    ensures plain == CbcDecrypted(aes, key, Zeros(16), buffer)
  {
    hide XorAll, CbcDecrypted;
    plain := [];
    var chain: Block := Zeros(16);
    var i := 0;
    assert buffer[0..] == buffer;
    StartWithNone(CbcDecrypted(aes, key, chain, buffer));
    while i < |buffer|
      invariant 0 <= i <= |buffer| && i % 16 == 0
      invariant CbcDecrypted(aes, key, Zeros(16), buffer) == plain + CbcDecrypted(aes, key, chain, buffer[i..])
    {
      DecryptStep(aes, key, chain, buffer, i, plain);
      var c: Block := buffer[i..i + 16];
      plain := plain + XorAll(aes.dec(key, c), chain);
      chain := c;
      i := i + 16;
    }
    assert buffer[i..] == [] && plain + [] == plain;
    DecryptNone(aes, key, chain);
  }

  method PackAndEncrypt(aes: Aes, key: Block, json: Bytes) returns (buffer: Bytes)
    ensures buffer == PackedAttributes(aes, key, json)
  {
    var text := MEGA + json;
    text := text + Zeros(PaddingLength(|text|));
    buffer := EncryptCbc(aes, key, text);
  }

  /** A buffer without the magic word makes the program panic; the text ends at the first zero byte. */
  method DecryptAndUnpack(aes: Aes, key: Block, buffer: Bytes) returns (json: Unpacked)
    ensures json == UnpackedAttributes(aes, key, buffer)
  {
    var whole := |buffer| - |buffer| % 16;
    var plain := DecryptCbc(aes, key, buffer[..whole]);
    json := JsonIn(plain + buffer[whole..]);
  }

  method JsonIn(plain: Bytes) returns (json: Unpacked)
    ensures json == JsonOf(plain)
  {
    if |plain| < 4 || plain[..4] != MEGA {
      return Panicked;
    }
    var n := 0;
    while n < |plain| && plain[n] != 0
      invariant n <= |plain|
      invariant forall k :: 0 <= k < n ==> plain[k] != 0
    {
      n := n + 1;
    }
    FirstZero(plain, n);
    assert plain[0] == MEGA[0] && plain[1] == MEGA[1] && plain[2] == MEGA[2] && plain[3] == MEGA[3];
    json := Json(plain[4..n]);
  }

  lemma FirstZero(s: Bytes, n: nat)
    requires n <= |s| && (n < |s| ==> s[n] == 0)
    requires forall k :: 0 <= k < n ==> s[k] != 0
    ensures BeforeZero(s) == n
  {}

  lemma UnpackedIsCut(aes: Aes, key: Block, json: Bytes)
    requires aes.Valid()
    ensures UnpackedAttributes(aes, key, PackedAttributes(aes, key, json)) == JsonOf(MEGA + json + Zeros(PaddingLength(|MEGA + json|)))
  {
    hide CbcEncrypted, CbcDecrypted, JsonOf;
    var padded := MEGA + json + Zeros(PaddingLength(|MEGA + json|));
    var buffer := PackedAttributes(aes, key, json);
    CbcUndoes(aes, key, Zeros(16), padded);
    assert buffer[..|buffer|] == buffer;
    assert padded + buffer[|buffer|..] == padded;
  }

  /** Attributes survive packing exactly when their text holds no zero byte. */
  lemma AttributesRoundTrip(aes: Aes, key: Block, json: Bytes)
    requires aes.Valid()
    ensures UnpackedAttributes(aes, key, PackedAttributes(aes, key, json)) == Json(json) <==> 0 !in json
  {
    hide UnpackedAttributes, PackedAttributes;
    UnpackedIsCut(aes, key, json);
    var text := MEGA + json;
    var padded := text + Zeros(PaddingLength(|text|));
    assert padded[..4] == MEGA;
    if 0 !in json {
      forall k | 0 <= k < |text| ensures padded[k] != 0 {
        if k >= 4 {
          assert padded[k] == json[k - 4];
        }
      }
      FirstZero(padded, |text|);
      assert padded[4..|text|] == json;
    } else {
      var k :| 0 <= k < |json| && json[k] == 0;
      assert padded[4 + k] == 0;
      assert |padded[4..BeforeZero(padded)]| < |json|;
    }
  }
}
