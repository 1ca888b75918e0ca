/** Normalised remote paths over ASCII: forward slashes, no leading slash, no unsafe segment. */
module NormalizedPath {
  import opened Prelude
  import opened Segments

  datatype PathError = NullByte | Traversal | ColonInName | DosDeviceName

  function Slashed(s: string): (t: string)
    ensures |t| == |s|
    ensures forall i :: 0 <= i < |s| ==> t[i] == if s[i] == '\\' then '/' else s[i]
  {
    seq(|s|, i requires 0 <= i < |s| => if s[i] == '\\' then '/' else s[i])
  }

  function TrimEnd(s: string): (t: string)
    ensures t <= s
    ensures t == "" || t[|t| - 1] != '/'
    ensures forall k :: |t| <= k < |s| ==> s[k] == '/'
  {
    if s != "" && s[|s| - 1] == '/' then TrimEnd(s[..|s| - 1]) else s
  }

  function Upper(c: char): char { if 'a' <= c <= 'z' then ((c as int) - 32) as char else c }

  predicate SameIgnoringCase(s: string, t: string) {
    |s| == |t| && forall i :: 0 <= i < |s| ==> Upper(s[i]) == Upper(t[i])
  }

  predicate IsReservedDosName(name: string) {
    var stem := name[..Position(name, '.')];
    || SameIgnoringCase(stem, "CON") || SameIgnoringCase(stem, "PRN")
    || SameIgnoringCase(stem, "AUX") || SameIgnoringCase(stem, "NUL")
    || (|stem| == 4 && (SameIgnoringCase(stem[..3], "COM") || SameIgnoringCase(stem[..3], "LPT")) && '1' <= stem[3] <= '9')
  }

  function SegmentError(segment: string): Option<PathError> {
    if segment == "." || segment == ".." then Some(Traversal)
    else if ':' in segment then Some(ColonInName)
    else if IsReservedDosName(segment) then Some(DosDeviceName)
    else None
  }

  /** The first complaint about any segment. */
  function FirstError(segments: seq<string>): Option<PathError> {
    if segments == [] then None
    else if SegmentError(segments[0]).Some? then SegmentError(segments[0])
    else FirstError(segments[1..])
  }

  function New(path: string): Result<string, PathError> {
    if '\0' in path then Err(NullByte)
    else
      var trimmed := TrimStart(Slashed(path));
      if trimmed == "" then Ok("")
      else
        match FirstError(Split(trimmed, '/'))
        case Some(e) => Err(e)
        case None => Ok(trimmed)
  }

  function NewUnchecked(path: string): string { TrimStart(Slashed(path)) }

  function JoinPath(path: string, child: string): string {
    if path == "" then NewUnchecked(child)
    else path + "/" + TrimEnd(TrimStart(Slashed(child)))
  }

  // ---------------------------------------------------------------- Which paths are accepted

  ghost predicate Clean(s: string) {
    forall segment :: segment in Split(s, '/') ==> SegmentError(segment) == None
  }

  lemma {:induction false} FirstErrorNone(segments: seq<string>)
    ensures FirstError(segments) == None <==> forall segment :: segment in segments ==> SegmentError(segment) == None
  {
    hide SegmentError;
    if segments != [] {
      FirstErrorNone(segments[1..]);
      assert segments == [segments[0]] + segments[1..];
    }
  }

  lemma NewAccepts(path: string)
    ensures New(path).Ok? <==> '\0' !in path && Clean(NewUnchecked(path))
    ensures New(path).Ok? ==> New(path).value == NewUnchecked(path)
  {
    hide SegmentError, FirstError;
    var trimmed := NewUnchecked(path);
    FirstErrorNone(Split(trimmed, '/'));
    if trimmed == "" {
      EmptySegment();
    }
  }

  lemma EmptySegment()
    ensures SegmentError("") == None && Split("", '/') == [""]
  {}

  lemma CleanAcross(a: string, b: string)
    ensures Clean(a + "/" + b) <==> Clean(a) && Clean(b)
  {
    hide SegmentError, Split;
    SplitAcross(a, b, '/');
  }

  /** Slashes at the end only add empty segments. */
  lemma {:induction false} CleanTrimEnd(s: string)
    ensures Clean(TrimEnd(s)) <==> Clean(s)
  {
    hide SegmentError, Split, Clean;
    if s != "" && s[|s| - 1] == '/' {
      var init := s[..|s| - 1];
      assert s == init + "/" + "";
      CleanTrimEnd(init);
      CleanAcross(init, "");
      CleanEmpty();
    }
  }

  lemma CleanEmpty()
    ensures Clean("")
  {
    EmptySegment();
  }

  /** What normalising leaves alone. */
  predicate Settled(s: string) {
    '\\' !in s && (s == "" || s[0] != '/')
  }

  lemma SlashedKeepsNull(s: string)
    ensures '\0' in Slashed(s) <==> '\0' in s
  {
    if i :| 0 <= i < |s| && s[i] == '\0' {
      assert Slashed(s)[i] == '\0';
    }
  }

  lemma TrimKeepsNull(s: string)
    ensures '\0' in TrimStart(s) <==> '\0' in s
  {
    var t := TrimStart(s);
    hide TrimStart;
    if i :| 0 <= i < |s| && s[i] == '\0' {
      assert t[i - (|s| - |t|)] == '\0';
    }
    if j :| 0 <= j < |t| && t[j] == '\0' {
      assert s[j + |s| - |t|] == '\0';
    }
  }

  lemma NoBackslash(s: string)
    ensures '\\' !in Slashed(s)
  {}

  lemma TrimKeepsOut(s: string, c: char)
    requires c !in s
    ensures c !in TrimStart(s)
  {
    var t := TrimStart(s);
    hide TrimStart;
    assert forall j :: 0 <= j < |t| ==> t[j] == s[j + |s| - |t|];
  }

  lemma NormalIsSettled(path: string)
    ensures Settled(NewUnchecked(path))
    ensures '\0' in NewUnchecked(path) <==> '\0' in path
  {
    SlashedKeepsNull(path);
    TrimKeepsNull(Slashed(path));
    NoBackslash(path);
    TrimKeepsOut(Slashed(path), '\\');
    hide TrimStart, Slashed;
  }

  lemma SettledIsFixed(s: string)
    requires Settled(s)
    ensures NewUnchecked(s) == s
  {
    assert Slashed(s) == s;
  }

  /** Normalising an accepted path again changes nothing. */
  lemma NewIsIdempotent(path: string)
    requires New(path).Ok?
    ensures New(New(path).value) == New(path)
  {
    hide New, NewUnchecked, Settled, Clean;
    NewAccepts(path);
    NormalIsSettled(path);
    SettledIsFixed(NewUnchecked(path));
    NewAccepts(NewUnchecked(path));
  }

  lemma TrimmedChild(child: string)
    ensures var c := TrimEnd(NewUnchecked(child));
      && Settled(c) && ('\0' in c <==> '\0' in child)
      && (Clean(c) <==> Clean(NewUnchecked(child)))
  {
    hide Clean, NewUnchecked;
    var full := NewUnchecked(child);
    NormalIsSettled(child);
    CleanTrimEnd(full);
    TrimEndKeeps(full);
  }

  lemma {:induction false} TrimEndKeeps(s: string)
    ensures '\0' in TrimEnd(s) <==> '\0' in s
    ensures Settled(s) ==> Settled(TrimEnd(s))
  {
    if s != "" && s[|s| - 1] == '/' {
      TrimEndKeeps(s[..|s| - 1]);
      assert s == s[..|s| - 1] + "/";
    }
  }

  /**
   * Joining a child to an accepted path gives a path that normalising accepts exactly when it accepts the child, and
   * then leaves unchanged. Joining by itself checks nothing: an unsafe child makes an unsafe path.
   */
  lemma JoinSafety(path: string, child: string)
    requires New(path) == Ok(path)
    ensures New(JoinPath(path, child)).Ok? <==> New(child).Ok?
    ensures New(child).Ok? ==> New(JoinPath(path, child)) == Ok(JoinPath(path, child))
  {
    hide New, Clean, NewUnchecked;
    NewAccepts(path);
    NewAccepts(child);
    NormalIsSettled(path);
    NormalIsSettled(child);
    var joined := JoinPath(path, child);
    if path == "" {
      SettledIsFixed(joined);
    } else {
      var c := TrimEnd(NewUnchecked(child));
      TrimmedChild(child);
      assert joined == path + "/" + c by { JoinsWith(path, child); }
      CleanAcross(path, c);
      assert Settled(joined) by { assert joined[0] == path[0]; }
      SettledIsFixed(joined);
    }
    NewAccepts(joined);
  }

  lemma JoinsWith(path: string, child: string)
    requires path != ""
    ensures JoinPath(path, child) == path + "/" + TrimEnd(NewUnchecked(child))
  {}

  lemma ParentIsRefused()
    ensures New("..") == Err(Traversal)
  {
    assert Slashed("..") == "..";
    assert Split("..", '/') == [".."];
  }

  /** Such a child is "..": joined to any accepted path it gives a path that normalising refuses. */
  lemma UnsafeJoin(path: string)
    requires New(path) == Ok(path)
    ensures New(JoinPath(path, "..")).Err?
  {
    hide New, JoinPath;
    ParentIsRefused();
    JoinSafety(path, "..");
  }

  /** Joining two accepted paths gives a path that normalising returns unchanged. */
  lemma {:induction false} JoinOfAccepted(p: string, q: string)
    requires New(p).Ok? && New(q).Ok?
    ensures var joined := JoinPath(New(p).value, New(q).value); New(joined) == Ok(joined)
  {
    hide New, JoinPath;
    NewIsIdempotent(p);
    NewIsIdempotent(q);
    JoinSafety(New(p).value, New(q).value);
  }

  // ---------------------------------------------------------------- What is refused

  /** The letter itself, or its small form. */
  predicate SameLetter(c: char, capital: char) {
    c == capital || ('A' <= capital <= 'Z' && c as int == capital as int + 32)
  }

  predicate Spells(s: string, device: string) {
    |s| == |device| && forall i :: 0 <= i < |s| ==> SameLetter(s[i], device[i])
  }

  lemma SpelledIgnoringCase(s: string, device: string)
    requires forall i :: 0 <= i < |device| ==> 'A' <= device[i] <= 'Z'
    ensures SameIgnoringCase(s, device) <==> Spells(s, device)
  {}

  lemma SpellsNumbered(stem: string, prefix: string, digit: char)
    requires |prefix| == 3 && '1' <= digit <= '9'
    ensures Spells(stem, prefix + [digit]) <==> |stem| == 4 && Spells(stem[..3], prefix) && stem[3] == digit
  {
    var device := prefix + [digit];
    assert device[0] == prefix[0] && device[1] == prefix[1] && device[2] == prefix[2] && device[3] == digit;
  }

  /** The devices: four names, and two that take a digit from 1 to 9. */
  predicate SpellsDevice(stem: string) {
    || Spells(stem, "CON") || Spells(stem, "PRN") || Spells(stem, "AUX") || Spells(stem, "NUL")
    || (exists digit: char :: '1' <= digit <= '9' && Spells(stem, "COM" + [digit]))
    || (exists digit: char :: '1' <= digit <= '9' && Spells(stem, "LPT" + [digit]))
  }

  lemma NumberedDevice(stem: string, prefix: string)
    requires |prefix| == 3
    ensures (exists digit: char :: '1' <= digit <= '9' && Spells(stem, prefix + [digit])) <==>
      |stem| == 4 && Spells(stem[..3], prefix) && '1' <= stem[3] <= '9'
  {
    forall digit: char | '1' <= digit <= '9'
      ensures Spells(stem, prefix + [digit]) <==> |stem| == 4 && Spells(stem[..3], prefix) && stem[3] == digit
    {
      SpellsNumbered(stem, prefix, digit);
    }
    hide Spells;
    if |stem| == 4 && Spells(stem[..3], prefix) && '1' <= stem[3] <= '9' {
      assert Spells(stem, prefix + [stem[3]]);
    }
  }

  /** A name is reserved exactly if what comes before its first dot spells a device, in whatever case. */
  lemma ReservedNames(name: string)
    ensures IsReservedDosName(name) <==> SpellsDevice(name[..Position(name, '.')])
  {
    var stem := name[..Position(name, '.')];
    SpelledIgnoringCase(stem, "CON"); SpelledIgnoringCase(stem, "PRN"); SpelledIgnoringCase(stem, "AUX"); SpelledIgnoringCase(stem, "NUL");
    if |stem| == 4 {
      SpelledIgnoringCase(stem[..3], "COM");
      SpelledIgnoringCase(stem[..3], "LPT");
    }
    NumberedDevice(stem, "COM");
    NumberedDevice(stem, "LPT");
    hide Spells, SameIgnoringCase;
  }

  /** A segment that names the directory or its parent, holds a colon, or names a device. */
  predicate Harmful(segment: string) {
    || segment in [".", ".."]
    || (exists i :: 0 <= i < |segment| && segment[i] == ':')
    || SpellsDevice(segment[..Position(segment, '.')])
  }

  lemma HarmfulIsRefused(segment: string)
    ensures SegmentError(segment) == None <==> !Harmful(segment)
    ensures SegmentError(segment) == Some(Traversal) <==> segment == "." || segment == ".."
    ensures SegmentError(segment) == Some(ColonInName) <==> segment != "." && segment != ".." && ':' in segment
  {
    ReservedNames(segment);
    hide IsReservedDosName, SpellsDevice;
  }

  /** A path is accepted exactly if it holds no null byte and, slashes turned and leading ones dropped, no harmful segment. */
  lemma AcceptedExactly(path: string)
    ensures New(path).Ok? <==> '\0' !in path && forall segment :: segment in Split(NewUnchecked(path), '/') ==> !Harmful(segment)
    ensures New(path) == Err(NullByte) <==> '\0' in path
  {
    NewAccepts(path);
    forall segment ensures SegmentError(segment) == None <==> !Harmful(segment) {
      HarmfulIsRefused(segment);
    }
    hide Harmful, SegmentError, Split, NewUnchecked;
    FirstErrorKind(Split(NewUnchecked(path), '/'));
  }

  lemma {:induction false} FirstErrorKind(segments: seq<string>)
    ensures FirstError(segments) != Some(NullByte)
  {
    if segments != [] {
      SegmentErrorKind(segments[0]);
      FirstErrorKind(segments[1..]);
    }
  }

  lemma SegmentErrorKind(segment: string)
    ensures SegmentError(segment) != Some(NullByte)
  {}

  /** The error of a path is that of its first harmful segment. */
  lemma {:induction false} FirstHarmful(before: seq<string>, segment: string, after: seq<string>)
    requires Harmful(segment) && forall s :: s in before ==> !Harmful(s)
    ensures FirstError(before + [segment] + after) == SegmentError(segment)
  {
    hide Harmful, SegmentError;
    HarmfulIsRefused(segment);
    if before == [] {
      assert before + [segment] + after == [segment] + after;
    } else {
      HarmfulIsRefused(before[0]);
      assert before + [segment] + after == [before[0]] + (before[1..] + [segment] + after);
      FirstHarmful(before[1..], segment, after);
    }
  }
}
