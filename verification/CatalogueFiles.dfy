/** The catalogue on disk: the bytes of a frame, the names of the files, and every way a load can go. */
module CatalogueFiles {
  import opened Prelude
  import opened Bytes
  import opened Fnv
  import opened StateStore

  // ---------------------------------------------------------------- Bytes

  /** A frame is the word "CSTX", a version byte, eight checksum bytes, the highest first, and the payload. */
  lemma FrameLayout(payload: Bytes)
    ensures var f := Framed(payload);
      && |f| == 13 + |payload| && f[13..] == payload
      && f[0] == 0x43 && f[1] == 0x53 && f[2] == 0x54 && f[3] == 0x58 && f[4] == 1
      && f[5] as nat * 0x100_0000_0000_0000 + f[6] as nat * 0x1_0000_0000_0000 + f[7] as nat * 0x100_0000_0000
         + f[8] as nat * 0x1_0000_0000 + f[9] as nat * 0x100_0000 + f[10] as nat * 0x1_0000 + f[11] as nat * 0x100 + f[12] as nat
         == Checksum(payload)
  {
    FrameParts(payload);
    var f := Framed(payload);
    hide Framed, Checksum, BytesOf;
    assert f[0] == f[..4][0] && f[1] == f[..4][1] && f[2] == f[..4][2] && f[3] == f[..4][3];
    EightDigits(f[5..13]);
  }

  lemma TwoDigits(s: Bytes)
    requires |s| >= 2
    ensures NatOf(s) == NatOf(s[..|s| - 2]) * 0x1_0000 + s[|s| - 2] as nat * 0x100 + s[|s| - 1] as nat
  {
    var init := s[..|s| - 1];
    assert init[..|init| - 1] == s[..|s| - 2] && init[|init| - 1] == s[|s| - 2];
  }

  lemma FourDigits(s: Bytes)
    requires |s| == 4
    ensures NatOf(s) == s[0] as nat * 0x100_0000 + s[1] as nat * 0x1_0000 + s[2] as nat * 0x100 + s[3] as nat
  {
    TwoDigits(s);
    TwoDigits(s[..2]);
    assert s[..2][..0] == [];
  }

  lemma EightDigits(s: Bytes)
    requires |s| == 8
    ensures NatOf(s) == s[0] as nat * 0x100_0000_0000_0000 + s[1] as nat * 0x1_0000_0000_0000 + s[2] as nat * 0x100_0000_0000
                        + s[3] as nat * 0x1_0000_0000 + s[4] as nat * 0x100_0000 + s[5] as nat * 0x1_0000 + s[6] as nat * 0x100 + s[7] as nat
  {
    TwoDigits(s);
    TwoDigits(s[..6]);
    assert s[..6][..4] == s[..4];
    FourDigits(s[..4]);
    hide NatOf;
  }

  // ---------------------------------------------------------------- Names

  lemma DotIs(name: string, i: nat)
    requires i < |name| && name[i] == '.' && forall k :: i < k < |name| ==> name[k] != '.'
    ensures LastDot(name) == i
  {
    hide LastDot;
  }

  lemma NoDot(name: string)
    requires '.' !in name
    ensures LastDot(name) == -1
  {
    hide LastDot;
  }

  lemma Dotted(a: string, b: string)
    ensures var p := a + ['.'] + b;
      && |p| == |a| + 1 + |b| && p[|a|] == '.' && p[..|a|] == a
      && forall k :: |a| < k < |p| ==> p[k] in b
  {}

  /**
   * The backup has the name of the catalogue file with the last extension replaced, an extension being what follows
   * the last dot unless the name begins with it.
   */
  lemma BackupName(stem: string, extension: string)
    requires '.' !in extension
    ensures stem != "" ==> BakName(stem + ['.'] + extension) == stem + ".bak"
    ensures BakName(extension) == extension + ".bak"
    ensures BakName(['.'] + extension) == ['.'] + extension + ".bak"
  {
    Dotted(stem, extension);
    DotIs(stem + ['.'] + extension, |stem|);
    NoDot(extension);
    Dotted([], extension);
    assert [] + ['.'] + extension == ['.'] + extension;
    DotIs(['.'] + extension, 0);
    hide LastDot;
  }

  // ---------------------------------------------------------------- Loading

  /** A file without a checksummed frame is left to the old binary decoder, and to the JSON decoder if that fails. */
  lemma OldFormats<S(!new)>(codec: Codec<S>, bytes: Bytes)
    requires |bytes| < 13 || bytes[..4] != [0x43, 0x53, 0x54, 0x58] || bytes[4] != 1
             || NatOf(bytes[5..13]) != Checksum(bytes[13..]) || codec.decode(bytes[13..]) == None
    ensures codec.decode(bytes).Some? ==> RawOf(codec, bytes) == codec.decode(bytes)
    ensures codec.decode(bytes).None? ==> RawOf(codec, bytes) == codec.fromJson(bytes)
  {
    hide Checksum, NatOf;
  }

  /** Nothing makes sense of the bytes. */
  predicate Unreadable<S(!new)>(codec: Codec<S>, bytes: Bytes) {
    && codec.decode(bytes) == None && codec.fromJson(bytes) == None
    && (|bytes| >= 13 && bytes[..4] == [0x43, 0x53, 0x54, 0x58] ==>
          bytes[4] != 1 || NatOf(bytes[5..13]) != Checksum(bytes[13..]) || codec.decode(bytes[13..]) == None)
  }

  lemma RawFails<S(!new)>(codec: Codec<S>, bytes: Bytes)
    ensures RawOf(codec, bytes) == None <==> Unreadable(codec, bytes)
  {
    hide Checksum, NatOf;
  }

  /**
   * Without a catalogue file, a backup that is a whole frame of a state loads as that state; without a backup, or if
   * nothing makes sense of it, loading gives the initial state.
   */
  lemma LoadWithoutCatalogue<S(!new)>(codec: Codec<S>, files: Files, name: string, s: S)
    requires codec.Valid() && name !in files
    ensures BakName(name) in files && codec.encode(s).Some? && files[BakName(name)] == Framed(codec.encode(s).value) ==>
      Loaded(codec, files, name) == Some(s)
    ensures BakName(name) !in files || Unreadable(codec, files[BakName(name)]) ==> Loaded(codec, files, name) == Some(codec.initial)
  {
    hide BakName, Framed, RawOf, Unreadable;
    if BakName(name) in files {
      RawFails(codec, files[BakName(name)]);
    }
    if codec.encode(s).Some? {
      FrameLoads(codec, s, codec.encode(s).value);
    }
  }

  /** With a catalogue file, loading is an error exactly if neither it nor a backup can be read. */
  lemma LoadFails<S(!new)>(codec: Codec<S>, files: Files, name: string)
    ensures Loaded(codec, files, name) == None <==>
      && name in files && Unreadable(codec, files[name])
      && (BakName(name) in files ==> Unreadable(codec, files[BakName(name)]))
  {
    hide BakName, RawOf, Unreadable;
    if name in files { RawFails(codec, files[name]); }
    if BakName(name) in files { RawFails(codec, files[BakName(name)]); }
  }

  /** A catalogue file that can be read is what is loaded, whatever the backup holds. */
  lemma LoadPrefersCatalogue<S(!new)>(codec: Codec<S>, files: Files, name: string)
    requires name in files && !Unreadable(codec, files[name])
    ensures Loaded(codec, files, name).Some? && Loaded(codec, files, name) == RawOf(codec, files[name])
  {
    hide BakName, RawOf, Unreadable;
    RawFails(codec, files[name]);
  }

  /**
   * After any sequence of interrupted saves, then one that takes effect with a complete copy to the backup, losing the
   * catalogue file makes loading give the state of the last effective save before it.
   */
  lemma LostCatalogueRecovers<S(!new)>(codec: Codec<S>, files: Files, name: string, events: seq<SaveEvent<S>>, s1: S, s2: S, stamp: string, copied: nat)
    requires codec.Valid() && !HasBakExtension(name)
    requires name !in files && BakName(name) !in files
    requires LastSaved(codec, events) == Some(s1) && codec.encode(s2).Some?
    ensures codec.encode(s1).Some?
    ensures copied >= |Framed(codec.encode(s1).value)| ==>
      Loaded(codec, AfterSaves(codec, files, name, events + [SaveEvent(s2, stamp, NotCut(Copied(copied)))]) - {name}, name) == Some(s1)
  {
    SavesHold(codec, files, name, events);
    var last := SaveEvent(s2, stamp, NotCut(Copied(copied)));
    assert (events + [last])[..|events|] == events;
    var before := AfterSaves(codec, files, name, events);
    var saved := AfterSaves(codec, files, name, events + [last]);
    assert saved == AfterSave(codec, before, name, last);
    hide AfterSaves, Framed, BakName, HasBakExtension, TempName, LastSaved, Loaded;
    BackupIsSeparate(name);
    TempIsSeparate(name, stamp);
    assert before[name][..|before[name]|] == before[name];
    LoadWithoutCatalogue(codec, saved - {name}, name, s1);
  }
}
