/** Saving and loading the catalogue: a checksummed frame, a backup copy and an atomic rename. */
module StateStore {
  import opened Prelude
  import opened Bytes
  import opened Fnv

  /** The binary encoding of a catalogue, its decoder, and the decoder for the old JSON format. */
  datatype Codec<!S(!new)> = Codec(encode: S -> Option<Bytes>, decode: Bytes -> Option<S>, fromJson: Bytes -> Option<S>, initial: S) {
    ghost predicate Valid() { forall s :: encode(s).Some? ==> decode(encode(s).value) == Some(s) }
  }

  const CSTX_MAGIC: Bytes := [0x43, 0x53, 0x54, 0x58]
  const CSTX_VERSION: byte := 1

  function Framed(payload: Bytes): Bytes {
    CSTX_MAGIC + [CSTX_VERSION] + BytesOf(Checksum(payload), 8) + payload
  }

  // ---------------------------------------------------------------- File names

  function LastDot(name: string): (i: int)
    ensures -1 <= i < |name|
    ensures i >= 0 ==> name[i] == '.'
    ensures forall k :: i < k < |name| ==> name[k] != '.'
  {
    if name == "" then -1
    else if name[|name| - 1] == '.' then |name| - 1
    else LastDot(name[..|name| - 1])
  }

  /** The name with its extension replaced by "bak"; a leading dot does not start an extension. */
  function BakName(name: string): string {
    (if LastDot(name) > 0 then name[..LastDot(name)] else name) + ".bak"
  }

  predicate HasBakExtension(name: string) {
    LastDot(name) > 0 && name[LastDot(name)..] == ".bak"
  }

  function TempName(name: string, stamp: string): string { "." + name + "_" + stamp + ".tmp" }

  /** The backup is a file of its own unless the catalogue file itself ends in ".bak". */
  lemma BackupIsSeparate(name: string)
    ensures BakName(name) == name <==> HasBakExtension(name)
  {
    var i := LastDot(name);
    if i > 0 {
      assert name == name[..i] + name[i..];
      if BakName(name) == name {
        assert name[i..] == BakName(name)[i..] == ".bak";
      }
    }
  }

  lemma TempIsSeparate(name: string, stamp: string)
    ensures TempName(name, stamp) != name && TempName(name, stamp) != BakName(name)
  {
    var t, b := TempName(name, stamp), BakName(name);
    assert |t| > |name|;
    assert t[|t| - 1] == 'p' && b[|b| - 1] == 'k';
  }

  // ---------------------------------------------------------------- Loading

  type Files = map<string, Bytes>

  /** What the checksummed branch of the loader makes of a file. */
  function FromFrame<S(!new)>(codec: Codec<S>, bytes: Bytes): Option<S> {
    if |bytes| >= 13 && bytes[..4] == CSTX_MAGIC && bytes[4] == CSTX_VERSION
       && NatOf(bytes[5..13]) == Checksum(bytes[13..])
    then codec.decode(bytes[13..]) else None
  }

  function RawOf<S(!new)>(codec: Codec<S>, bytes: Bytes): Option<S> {
    OrElse(FromFrame(codec, bytes), OrElse(codec.decode(bytes), codec.fromJson(bytes)))
  }

  function Loaded<S(!new)>(codec: Codec<S>, files: Files, name: string): Option<S> {
    var backup := if BakName(name) in files then RawOf(codec, files[BakName(name)]) else None;
    if name !in files then OrElse(backup, Some(codec.initial))
    else OrElse(RawOf(codec, files[name]), backup)
  }

  method LoadRaw<S(!new)>(codec: Codec<S>, bytes: Bytes) returns (r: Option<S>)
    ensures r == RawOf(codec, bytes)
  {
    if |bytes| >= 13 && bytes[..4] == CSTX_MAGIC {
      var version := bytes[4];
      if version == CSTX_VERSION {
        var expected := NatOf(bytes[5..13]);
        var payload := bytes[13..];
        var actual := ComputeChecksum(payload);
        if expected == actual {
          var state := codec.decode(payload);
          if state.Some? {
            return state;
          }
        }
      }
    }
    var legacy := codec.decode(bytes);
    if legacy.Some? {
      return legacy;
    }
    r := codec.fromJson(bytes);
  }

  // ---------------------------------------------------------------- Saving

  /** How far the copy to the backup got. Errors of the copy are ignored. */
  datatype Copying = NotOpened | Copied(bytes: nat)

  /** Where a save is cut off, if it is; a failing step counts as a cut before it. */
  datatype Cut =
    | BeforeCreate
    | WhileWriting(written: nat)
    | BeforeRename(copying: Copying)
    | NotCut(copying: Copying)

  /** The files after the copy to the backup. Copying a file onto itself empties it first. */
  function BackedUp(files: Files, name: string, copying: Copying): Files {
    if name !in files || copying.NotOpened? then files
    else if BakName(name) == name then files[name := []]
    else files[BakName(name) := files[name][..Min(copying.bytes, |files[name]|)]]
  }

  /** The files after a save of the framed bytes that went as far as `cut` says. */
  function SavedAs(files: Files, name: string, stamp: string, framed: Bytes, cut: Cut): Files {
    var temp := TempName(name, stamp);
    match cut
    case BeforeCreate => files
    case WhileWriting(n) => files[temp := framed[..Min(n, |framed|)]]
    case BeforeRename(copying) => BackedUp(files[temp := framed], name, copying)
    case NotCut(copying) => (BackedUp(files[temp := framed], name, copying) - {temp})[name := framed]
  }

  class Disk {
    var files: Files

    constructor (start: Files)
      ensures files == start
    {
      files := start;
    }

    method WriteTemp(temp: string, bytes: Bytes)
      modifies this
      ensures files == old(files)[temp := bytes]
    {
      files := files[temp := []];
      for i := 0 to |bytes|
        invariant files == old(files)[temp := bytes[..i]]
      {
        assert bytes[..i + 1] == bytes[..i] + [bytes[i]];
        files := files[temp := files[temp] + [bytes[i]]];
      }
      assert bytes[..|bytes|] == bytes;
    }

    /** Returns whether the rename took effect. */
    method Save<S(!new)>(codec: Codec<S>, name: string, stamp: string, state: S, cut: Cut) returns (renamed: bool)
      modifies this
      ensures renamed <==> codec.encode(state).Some? && cut.NotCut?
      ensures files == if codec.encode(state).None? then old(files)
                       else SavedAs(old(files), name, stamp, Framed(codec.encode(state).value), cut)
    {
      var encoded := codec.encode(state);
      if encoded.None? || cut.BeforeCreate? {
        return false;
      }
      var payload := encoded.value;
      var checksum := ComputeChecksum(payload);
      var framed := CSTX_MAGIC + [CSTX_VERSION];
      framed := framed + BytesOf(checksum, 8);
      framed := framed + payload;
      var temp := TempName(name, stamp);
      TempIsSeparate(name, stamp);
      if cut.WhileWriting? {
        WriteTemp(temp, framed[..Min(cut.written, |framed|)]);
        return false;
      }
      WriteTemp(temp, framed);
      if name in files && cut.copying.Copied? {
        files := if BakName(name) == name then files[name := []]
                 else files[BakName(name) := files[name][..Min(cut.copying.bytes, |files[name]|)]];
      }
      if !cut.NotCut? {
        return false;
      }
      files := (files - {temp})[name := files[temp]];
      renamed := true;
    }

    method Load<S(!new)>(codec: Codec<S>, name: string) returns (r: Option<S>)
      ensures r == Loaded(codec, files, name)
    {
      if name !in files {
        if BakName(name) in files {
          var recovered := LoadRaw(codec, files[BakName(name)]);
          if recovered.Some? {
            return recovered;
          }
        }
        return Some(codec.initial);
      }
      r := LoadRaw(codec, files[name]);
      if r.None? {
        if BakName(name) in files {
          r := LoadRaw(codec, files[BakName(name)]);
        }
      }
    }
  }

  // ---------------------------------------------------------------- The frame

  lemma FrameParts(payload: Bytes)
    ensures var f := Framed(payload);
      && |f| == 13 + |payload|
      && f[..4] == CSTX_MAGIC && f[4] == CSTX_VERSION
      && f[5..13] == BytesOf(Checksum(payload), 8) && f[13..] == payload
      && NatOf(f[5..13]) == Checksum(payload)
  {
    hide Checksum, BytesOf, NatOf;
    var sum := BytesOf(Checksum(payload), 8);
    var f := Framed(payload);
    assert f[5..13] == sum && f[13..] == payload && f[..4] == CSTX_MAGIC;
    RangeOf8();
    BytesOfRoundTrip(Checksum(payload), 8);
  }

  lemma RangeOf8()
    ensures Range(8) == TWO_64
  {
    assert Range(4) == 0x1_0000_0000;
  }

  /** A complete frame loads as the state it was made from. */
  lemma FrameLoads<S(!new)>(codec: Codec<S>, s: S, payload: Bytes)
    requires codec.Valid() && codec.encode(s) == Some(payload)
    ensures RawOf(codec, Framed(payload)) == Some(s)
  {
    hide Framed, Checksum, NatOf;
    FrameParts(payload);
  }

  /** Changing any one byte of a stored frame, wherever it is, makes the checksummed branch reject it. */
  lemma SingleByteChangeRejected<S(!new)>(codec: Codec<S>, payload: Bytes, changed: Bytes, i: nat)
    requires DifferAt(Framed(payload), changed, i)
    ensures FromFrame(codec, changed) == None
  {
    hide Framed, Checksum, NatOf;
    FrameParts(payload);
    var f := Framed(payload);
    if i < 4 {
      assert changed[..4][i] != f[..4][i];
    } else if i == 4 {
      assert changed[4] != CSTX_VERSION;
    } else if i < 13 {
      assert changed[13..] == payload by { assert f[13..] == payload; }
      assert changed[5..13][i - 5] != f[5..13][i - 5];
      if NatOf(changed[5..13]) == NatOf(f[5..13]) {
        NatOfInjective(changed[5..13], f[5..13]);
      }
    } else {
      assert changed[5..13] == f[5..13];
      assert DifferAt(f[13..], changed[13..], i - 13);
      SingleByteChangeShows(f[13..], changed[13..], i - 13);
    }
  }

  // ---------------------------------------------------------------- Crashes

  datatype SaveEvent<S(!new)> = SaveEvent(state: S, stamp: string, cut: Cut)

  function AfterSave<S(!new)>(codec: Codec<S>, files: Files, name: string, e: SaveEvent<S>): Files {
    var encoded := codec.encode(e.state);
    if encoded.None? then files else SavedAs(files, name, e.stamp, Framed(encoded.value), e.cut)
  }

  function AfterSaves<S(!new)>(codec: Codec<S>, files: Files, name: string, events: seq<SaveEvent<S>>): Files {
    if events == [] then files
    else AfterSave(codec, AfterSaves(codec, files, name, events[..|events| - 1]), name, events[|events| - 1])
  }

  predicate TookEffect<S(!new)>(codec: Codec<S>, e: SaveEvent<S>) {
    codec.encode(e.state).Some? && e.cut.NotCut?
  }

  /** The state of the last save whose rename took effect. */
  function LastSaved<S(!new)>(codec: Codec<S>, events: seq<SaveEvent<S>>): Option<S> {
    if events == [] then None
    else if TookEffect(codec, events[|events| - 1]) then Some(events[|events| - 1].state)
    else LastSaved(codec, events[..|events| - 1])
  }

  /** The catalogue file is the frame of the last effective save; without one there is neither file nor backup. */
  ghost predicate Holds<S(!new)>(codec: Codec<S>, files: Files, name: string, last: Option<S>) {
    match last
    case None => name !in files && BakName(name) !in files
    case Some(s) => name in files && codec.encode(s).Some? && files[name] == Framed(codec.encode(s).value)
  }

  lemma SaveHolds<S(!new)>(codec: Codec<S>, files: Files, name: string, last: Option<S>, e: SaveEvent<S>)
    requires !HasBakExtension(name)
    requires Holds(codec, files, name, last)
    ensures Holds(codec, AfterSave(codec, files, name, e), name, if TookEffect(codec, e) then Some(e.state) else last)
  {
    hide Framed, TempName, BakName, HasBakExtension;
    BackupIsSeparate(name);
    TempIsSeparate(name, e.stamp);
  }

  lemma {:induction false} SavesHold<S(!new)>(codec: Codec<S>, files: Files, name: string, events: seq<SaveEvent<S>>)
    requires !HasBakExtension(name)
    requires name !in files && BakName(name) !in files
    ensures Holds(codec, AfterSaves(codec, files, name, events), name, LastSaved(codec, events))
  {
    if events != [] {
      var init := events[..|events| - 1];
      SavesHold(codec, files, name, init);
      SaveHolds(codec, AfterSaves(codec, files, name, init), name, LastSaved(codec, init), events[|events| - 1]);
    }
  }

  /**
   * After any sequence of saves, each cut off anywhere or not at all, loading gives the state of the last save whose
   * rename took effect, or the initial state if there was none.
   */
  lemma {:induction false} CrashSafety<S(!new)>(codec: Codec<S>, files: Files, name: string, events: seq<SaveEvent<S>>)
    requires codec.Valid() && !HasBakExtension(name)
    requires name !in files && BakName(name) !in files
    ensures Loaded(codec, AfterSaves(codec, files, name, events), name)
         == OrElse(LastSaved(codec, events), Some(codec.initial))
  {
    hide RawOf, Framed, BakName, AfterSaves;
    SavesHold(codec, files, name, events);
    var last := LastSaved(codec, events);
    if last.Some? {
      FrameLoads(codec, last.value, codec.encode(last.value).value);
    }
  }

  /**
   * A catalogue file that itself ends in ".bak" is not safe: the backup copy empties it, so a save cut off before the
   * rename leaves nothing to load.
   */
  lemma BakExtensionLosesCatalogue<S(!new)>(codec: Codec<S>, files: Files, name: string, s: S, stamp: string)
    requires HasBakExtension(name) && codec.encode(s).Some?
    requires codec.decode([]) == None && codec.fromJson([]) == None
    ensures var events := [SaveEvent(s, stamp, NotCut(NotOpened)), SaveEvent(s, stamp, BeforeRename(Copied(0)))];
      && LastSaved(codec, events) == Some(s)
      && Loaded(codec, AfterSaves(codec, files, name, events), name) == None
  {
    hide Framed, TempName, BakName, HasBakExtension;
    BackupIsSeparate(name);
    TempIsSeparate(name, stamp);
    var e1, e2 := SaveEvent(s, stamp, NotCut(NotOpened)), SaveEvent(s, stamp, BeforeRename(Copied(0)));
    var events := [e1, e2];
    assert events[..1] == [e1] && [e1][..0] == [];
    var first := AfterSaves(codec, files, name, [e1]);
    assert name in first;
    var second := AfterSaves(codec, files, name, events);
    assert second == AfterSave(codec, first, name, e2);
    assert second[name] == [];
  }

  /** Every sequence of interrupted saves is safe exactly if the backup is a file of its own. */
  lemma CrashSafetyExact<S(!new)>(codec: Codec<S>, files: Files, name: string, s: S)
    requires codec.Valid() && codec.encode(s).Some?
    requires codec.decode([]) == None && codec.fromJson([]) == None
    requires name !in files && BakName(name) !in files
    ensures (forall events: seq<SaveEvent<S>> ::
               Loaded(codec, AfterSaves(codec, files, name, events), name) == OrElse(LastSaved(codec, events), Some(codec.initial)))
       <==> !HasBakExtension(name)
  {
    hide HasBakExtension, Loaded, AfterSaves, LastSaved;
    if HasBakExtension(name) {
      BakExtensionLosesCatalogue(codec, files, name, s, "");
    } else {
      forall events: seq<SaveEvent<S>>
        ensures Loaded(codec, AfterSaves(codec, files, name, events), name) == OrElse(LastSaved(codec, events), Some(codec.initial))
      {
        CrashSafety(codec, files, name, events);
      }
    }
  }

  /** What loading makes of the backup after a save whose copy went as far as `copying` says. */
  function FromBackup<S(!new)>(codec: Codec<S>, files: Files, name: string, copying: Copying): Option<S>
    requires name in files
  {
    match copying
    case Copied(n) => RawOf(codec, files[name][..Min(n, |files[name]|)])
    case NotOpened => if BakName(name) in files then RawOf(codec, files[BakName(name)]) else None
  }

  /**
   * If one byte of the stored catalogue is damaged and the old decoders do not take it for something else, loading
   * falls back to the backup: to as much of the catalogue saved before it as was copied, which is that very catalogue
   * if the copy was complete, and to the older backup, if there is one, when the copy never opened the file.
   */
  lemma DamagedCatalogueRecovers<S(!new)>(codec: Codec<S>, files: Files, name: string, s1: S, s2: S, stamp: string,
                                    copying: Copying, damaged: Bytes, i: nat)
    requires codec.Valid() && !HasBakExtension(name)
    requires Holds(codec, files, name, Some(s1)) && codec.encode(s2).Some?
    requires DifferAt(Framed(codec.encode(s2).value), damaged, i)
    requires codec.decode(damaged) == None && codec.fromJson(damaged) == None
    ensures var saved := AfterSave(codec, files, name, SaveEvent(s2, stamp, NotCut(copying)));
      && Loaded(codec, saved[name := damaged], name) == FromBackup(codec, files, name, copying)
      && (copying.Copied? && copying.bytes >= |files[name]| ==> Loaded(codec, saved[name := damaged], name) == Some(s1))
  {
    hide Framed, TempName, BakName, HasBakExtension, FromFrame;
    BackupIsSeparate(name);
    TempIsSeparate(name, stamp);
    SingleByteChangeRejected(codec, codec.encode(s2).value, damaged, i);
    FrameLoads(codec, s1, codec.encode(s1).value);
    assert files[name][..|files[name]|] == files[name];
  }
}
