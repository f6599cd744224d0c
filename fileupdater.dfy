/** `RCFileUpdater`, the older narrow-character updater: it finds `VERSIONINFO` with the line
    matcher, then rewrites four named items after it (`FILEVERSION`, `PRODUCTVERSION` and the
    `FileVersion` and `ProductVersion` string values), each with its own reader of the four
    numbers, its own override rule and its own `Replace`. The buffer is the updater's array;
    logging is left out. */
module FileUpdater {
  import opened Wrappers
  import opened CString
  import opened Decimal
  import opened Trim
  import opened Buffer
  import opened VersionRewriter
  import opened ItemFinder

  // ---------------------------------------------------------------------------
  // Reading the four numbers
  // ---------------------------------------------------------------------------

  /** `count` numbers read with `strtol` from `q` on: each after the first must come past at least
      one of the separators `" .,\t"` and start with a digit; `next` is the end of the last digit
      run. */
  function ReadComponents(s: seq<char>, q: nat, count: nat): (r: Option<Fields>)
    requires q <= |s| && 0 < count
    ensures r.Some? ==> |r.value.values| == count && q < r.value.next <= End(s, q)
    decreases count
  {
    match ReadNumber(s, q, [])
    case None => None
    case Some(n) =>
      if count == 1 then Some(Fields([n.value], n.next))
      else
        var front := LTrimPos(s, n.next, VersionChaff);
        EndShift(s, q, n.next);
        EndShift(s, n.next, front);
        if front == n.next then None
        else
          match ReadComponents(s, front, count - 1)
          case None => None
          case Some(f) => Some(Fields([n.value] + f.values, f.next))
  }

  /** One number, then the remaining ones past the separators */
  lemma ReadComponentsStep(s: seq<char>, q: nat, count: nat)
    requires q <= |s| && 1 < count
    ensures ReadNumber(s, q, []).None? ==> ReadComponents(s, q, count).None?
    ensures ReadNumber(s, q, []).Some? ==>
      var n := ReadNumber(s, q, []).value;
      var front := LTrimPos(s, n.next, VersionChaff);
      ReadComponents(s, q, count) ==
        if front == n.next || ReadComponents(s, front, count - 1).None? then None
        else Some(Fields([n.value] + ReadComponents(s, front, count - 1).value.values,
                         ReadComponents(s, front, count - 1).value.next))
  {
  }

  /** The four numbers of `UpdateVersionNumber` after leading space/tab; `tail` is the end of the
      revision digits. */
  function ReadVersionNumber(s: seq<char>, version: nat): (r: Option<Parsed>)
    requires version <= |s|
    ensures r.Some? ==> version < r.value.tail <= End(s, version)
  {
    var front := LTrimPos(s, version, SpaceTab);
    EndShift(s, version, front);
    match ReadComponents(s, front, 4)
    case None => None
    case Some(f) => Some(Parsed(Version(f.values[0], f.values[1], f.values[2], f.values[3]), f.next))
  }

  /** Demanding a separator between the numbers changes nothing: a digit run always ends on a
      non-digit, so the digit test after it fails whenever the separators are missing. The older
      reader therefore accepts exactly what `parse` accepts, with the same values and end. */
  lemma {:induction false} ComponentsAreFields(s: seq<char>, q: nat, count: nat)
    requires q <= |s| && 0 < count
    ensures ReadComponents(s, q, count) == ReadFields(s, q, count)
    decreases count
  {
    if IsDigit(At(s, q)) && 1 < count {
      ReadComponentsStep(s, q, count);
      ReadFieldsStep(s, q, count);
      var e := DigitRunEnd(s, q);
      var front := LTrimPos(s, e, VersionChaff);
      EndShift(s, q, e);
      if front != e {
        ComponentsAreFields(s, front, count - 1);
      }
    }
  }

  lemma ReadVersionNumberIsParse(s: seq<char>, version: nat)
    requires version <= |s|
    ensures ReadVersionNumber(s, version) == ParseVersion(s, version)
  {
    EndShift(s, version, LTrimPos(s, version, SpaceTab));
    ComponentsAreFields(s, LTrimPos(s, version, SpaceTab), 4);
  }

  /** The unrolled reads of `UpdateVersionNumber`, up to the end of the revision digits */
  method ReadVersionText(s: seq<char>, version: nat) returns (r: Option<Parsed>)
    requires version <= |s|
    ensures r == ReadVersionNumber(s, version)
  {
    var front := LTrim(s, version, SpaceTab);
    if !IsDigit(At(s, front)) {
      return None;
    }
    ReadComponentsStep(s, front, 4);
    var major := Str2Int(s, front, []);
    var tail := major.value.next;
    ghost var q2 := tail;
    front := LTrim(s, tail, VersionChaff);
    if front == tail || !IsDigit(At(s, front)) {
      return None;
    }
    ghost var f2 := front;
    var minor := Str2Int(s, front, []);
    tail := minor.value.next;
    front := LTrim(s, tail, VersionChaff);
    if front == tail || !IsDigit(At(s, front)) {
      ReadComponentsStep(s, f2, 3);
      return None;
    }
    ghost var f3 := front;
    var build := Str2Int(s, front, []);
    tail := build.value.next;
    front := LTrim(s, tail, VersionChaff);
    ReadComponentsStep(s, f3, 2);
    ReadComponentsStep(s, f2, 3);
    if front == tail || !IsDigit(At(s, front)) {
      return None;
    }
    var revision := Str2Int(s, front, []);
    tail := revision.value.next;
    var v := Version(major.value.value, minor.value.value, build.value.value, revision.value.value);
    return Some(Parsed(v, tail));
  }

  // ---------------------------------------------------------------------------
  // The override rule of UpdateVersionNumber
  // ---------------------------------------------------------------------------

  /** `increment`: no override is given at all */
  predicate NoOverrides(xs: Overrides)
  {
    xs.major < 0 && xs.minor < 0 && xs.build < 0 && xs.revision < 0
  }

  /** Each negative override keeps the parsed value and each other one replaces it; the build is
      then incremented only when no override was given at all. */
  function FileOverridden(parsed: Version, xs: Overrides): Version
  {
    Version(
      if xs.major < 0 then parsed.major else xs.major,
      if xs.minor < 0 then parsed.minor else xs.minor,
      (if xs.build < 0 then parsed.build else xs.build) + (if NoOverrides(xs) then 1 else 0),
      if xs.revision < 0 then parsed.revision else xs.revision)
  }

  lemma FileOverriddenRule(parsed: Version, xs: Overrides)
    ensures var v := FileOverridden(parsed, xs);
      (v.major == if xs.major < 0 then parsed.major else xs.major) &&
      (v.minor == if xs.minor < 0 then parsed.minor else xs.minor) &&
      (v.revision == if xs.revision < 0 then parsed.revision else xs.revision)
    ensures NoOverrides(xs) <==> FileOverridden(parsed, xs).build == parsed.build + 1 && xs.build < 0
    ensures xs.build >= 0 ==> FileOverridden(parsed, xs).build == xs.build
    ensures xs.build < 0 && !NoOverrides(xs) ==> FileOverridden(parsed, xs).build == parsed.build
  {
  }

  /** The two updaters agree when no override or a build override is given; with a negative build
      override beside some other override the older one keeps the build where the newer one
      increments it. */
  lemma OverridePoliciesCompared(parsed: Version, xs: Overrides)
    ensures NoOverrides(xs) || xs.build >= 0 ==> FileOverridden(parsed, xs) == Overridden(parsed, xs)
    ensures xs.build < 0 && !NoOverrides(xs) ==>
      FileOverridden(parsed, xs).build + 1 == Overridden(parsed, xs).build &&
      FileOverridden(parsed, xs).(build := 0) == Overridden(parsed, xs).(build := 0)
  {
  }

  /** `_snprintf_s(newVersion, _TRUNCATE, "%d, %d, %d, %d", ...)` into 64 characters: the text,
      cut to 63 characters when it would not fit with its terminator */
  function NewVersionText(v: Version): seq<char>
  {
    var full := FormatText(v);
    if |full| < 64 then full else full[..63]
  }

  /** The new version is a C string that fits the 64-character scratch text, and it is the whole
      formatted version whenever that fits. */
  lemma NewVersionTextShape(v: Version)
    ensures NoNul(NewVersionText(v)) && |NewVersionText(v)| < 64
    ensures |FormatText(v)| < 64 ==> NewVersionText(v) == FormatText(v)
  {
    FormatTextShape(v);
    var full := FormatText(v);
    if 64 <= |full| {
      forall k | 0 <= k < 63 ensures NewVersionText(v)[k] != NUL {
        assert NewVersionText(v)[k] == full[k];
      }
    }
  }

  /** Parts that fit a 32-bit `int` are never cut. */
  lemma NewVersionTextFits(v: Version)
    requires v.major < 0x8000_0000 && v.minor < 0x8000_0000
    requires v.build < 0x8000_0000 && v.revision < 0x8000_0000
    ensures NewVersionText(v) == FormatText(v)
  {
    FormatFits(v);
  }

  // ---------------------------------------------------------------------------
  // Replace
  // ---------------------------------------------------------------------------

  /** The text a possibly null `newText` stands for */
  function TextOf(text: Option<seq<char>>): seq<char>
  {
    if text.Some? then text.value else []
  }

  /** What `Replace(oldText, oldLength, newText, bufferLength)` is handed: `bufferLength`
      characters from `oldText` inside the buffer, and the old text inside the string there */
  predicate FileReplaceArgs(s: seq<char>, oldText: nat, oldLength: nat, bufferLength: nat)
  {
    oldText + bufferLength <= |s| && oldLength <= Strlen(s, oldText)
  }

  /** `Replace`: refused when the string after the old text, with its terminator, does not fit in
      `bufferLength` behind the old text or behind the new text; otherwise the splice of the new
      text for the old. */
  function FileReplaced(s: seq<char>, oldText: nat, oldLength: nat, newText: Option<seq<char>>, bufferLength: nat): Option<seq<char>>
    requires FileReplaceArgs(s, oldText, oldLength, bufferLength) && TextArg(newText)
  {
    EndShift(s, oldText, oldText + oldLength);
    var tailLength := Strlen(s, oldText + oldLength);
    var text := TextOf(newText);
    if bufferLength <= oldLength + tailLength then None
    else if bufferLength <= |text| + tailLength then None
    else Some(Spliced(s, oldText, oldLength, Strlen(s, oldText) - oldLength, text))
  }

  /** After a successful `Replace` the string at `oldText` is the new text followed by the old
      tail, and nothing before `oldText` changed. */
  lemma FileReplacedString(s: seq<char>, oldText: nat, oldLength: nat, newText: Option<seq<char>>, bufferLength: nat)
    requires FileReplaceArgs(s, oldText, oldLength, bufferLength) && TextArg(newText)
    requires FileReplaced(s, oldText, oldLength, newText, bufferLength).Some?
    ensures var r := FileReplaced(s, oldText, oldLength, newText, bufferLength).value;
      |r| == |s| && Str(r, oldText) == TextOf(newText) + s[oldText + oldLength..End(s, oldText)] &&
      SamePrefix(r, s, oldText)
  {
    EndShift(s, oldText, oldText + oldLength);
    var r := FileReplaced(s, oldText, oldLength, newText, bufferLength).value;
    SplicedString(s, oldText, oldLength, TextOf(newText));
    assert SamePrefix(r, s, oldText) by {
      forall k | 0 <= k < oldText ensures r[k] == s[k] {
        assert r[..oldText][k] == s[..oldText][k];
      }
    }
  }

  /** The failure conditions of `Replace`: exactly when the old string, or the new text with the
      old tail, would not leave room for the terminator */
  lemma FileReplacedFails(s: seq<char>, oldText: nat, oldLength: nat, newText: Option<seq<char>>, bufferLength: nat)
    requires FileReplaceArgs(s, oldText, oldLength, bufferLength) && TextArg(newText)
    ensures FileReplaced(s, oldText, oldLength, newText, bufferLength).None? <==>
      bufferLength <= Strlen(s, oldText) ||
      bufferLength <= |TextOf(newText)| + Strlen(s, oldText) - oldLength
  {
    EndShift(s, oldText, oldText + oldLength);
  }

  /** On the arguments the newer `replace` accepts, the two replacements do the same: the extra
      check of the older one only refuses a string that already overruns its room. */
  lemma ReplacesAgree(s: seq<char>, base: nat, total: nat, oldChars: nat, text: seq<char>)
    requires ReplaceArgs(s, base, total, oldChars) && NoNul(text)
    ensures FileReplaceArgs(s, base, oldChars, total)
    ensures FileReplaced(s, base, oldChars, Some(text), total) == Replaced(s, base, total, oldChars, text)
  {
    EndShift(s, base, base + oldChars);
  }

  // ---------------------------------------------------------------------------
  // UpdateVersionNumber, Update and UpdateVersions, on values
  // ---------------------------------------------------------------------------

  /** Where the old version text ends (past the revision and the space/tab after it), and the new
      one */
  datatype Rewrite = Rewrite(tail: nat, text: seq<char>)

  /** The rewrite `UpdateVersionNumber` works out at `version` */
  function NumberRewrite(s: seq<char>, version: nat, xs: Overrides): Option<Rewrite>
    requires version <= |s|
  {
    match ReadVersionNumber(s, version)
    case None => None
    case Some(p) => Some(Rewrite(LTrimPos(s, p.tail, SpaceTab), NewVersionText(FileOverridden(p.version, xs))))
  }

  /** The old version text ends inside the string, after the version; the new one is a C string. */
  lemma NumberRewriteWithin(s: seq<char>, version: nat, xs: Overrides)
    requires version <= |s|
    ensures RewriteWithin(s, version, NumberRewrite(s, version, xs))
  {
    match ReadVersionNumber(s, version)
    case None =>
    case Some(p) =>
      EndShift(s, version, p.tail);
      NewVersionTextShape(FileOverridden(p.version, xs));
  }

  /** `UpdateVersionNumber(version, availableChars, ...)`: the buffer after the version there is
      replaced, or nothing when it does not read as four numbers or `Replace` refuses */
  function UpdatedNumber(s: seq<char>, version: nat, availableChars: nat, xs: Overrides): Option<seq<char>>
    requires version + availableChars <= |s|
  {
    NumberRewriteWithin(s, version, xs);
    ReplacedBy(s, version, availableChars, NumberRewrite(s, version, xs))
  }

  /** A rewrite that replaces part of the string at `version` with a C string */
  predicate RewriteWithin(s: seq<char>, version: nat, w: Option<Rewrite>)
  {
    version <= |s| && (w.Some? ==> version < w.value.tail <= End(s, version) && NoNul(w.value.text))
  }

  /** `Replace` of the old version text by the new one, once both are known */
  function ReplacedBy(s: seq<char>, version: nat, availableChars: nat, w: Option<Rewrite>): Option<seq<char>>
    requires version + availableChars <= |s| && RewriteWithin(s, version, w)
  {
    match w
    case None => None
    case Some(w) =>
      EndShift(s, version, w.tail);
      FileReplaced(s, version, w.tail - version, Some(w.text), availableChars)
  }

  /** The reads and the formatting of `UpdateVersionNumber`, before it writes */
  method ReadRewrite(s: seq<char>, version: nat, xs: Overrides) returns (r: Option<Rewrite>)
    requires version <= |s|
    ensures r == NumberRewrite(s, version, xs)
  {
    var parsed := ReadVersionText(s, version);
    if parsed.None? {
      return None;
    }
    EndShift(s, version, parsed.value.tail);
    var tail := LTrim(s, parsed.value.tail, SpaceTab);
    var newVersion := NewVersionText(FileOverridden(parsed.value.version, xs));
    assert parsed == ReadVersionNumber(s, version);
    return Some(Rewrite(tail, newVersion));
  }

  /** A rewritten version is the new text followed by what came after the old one, the buffer
      keeps its size and nothing before the version changes. */
  lemma UpdatedNumberText(s: seq<char>, version: nat, availableChars: nat, xs: Overrides)
    requires version + availableChars <= |s| && UpdatedNumber(s, version, availableChars, xs).Some?
    ensures RewriteWithin(s, version, NumberRewrite(s, version, xs)) && NumberRewrite(s, version, xs).Some?
    ensures var r := UpdatedNumber(s, version, availableChars, xs).value;
      var w := NumberRewrite(s, version, xs).value;
      |r| == |s| && SamePrefix(r, s, version) && Str(r, version) == w.text + s[w.tail..End(s, version)]
  {
    NumberRewriteWithin(s, version, xs);
    ReplacedByText(s, version, availableChars, NumberRewrite(s, version, xs).value);
  }

  lemma ReplacedByText(s: seq<char>, version: nat, availableChars: nat, w: Rewrite)
    requires version + availableChars <= |s| && RewriteWithin(s, version, Some(w))
    requires ReplacedBy(s, version, availableChars, Some(w)).Some?
    ensures var r := ReplacedBy(s, version, availableChars, Some(w)).value;
      |r| == |s| && SamePrefix(r, s, version) && Str(r, version) == w.text + s[w.tail..End(s, version)]
  {
    EndShift(s, version, w.tail);
    FileReplacedString(s, version, w.tail - version, Some(w.text), availableChars);
  }

  /** `UpdateVersionNumber` accepts exactly the version texts `parse` accepts; it refuses anything
      else before it writes. */
  lemma UpdatedNumberNeedsVersion(s: seq<char>, version: nat, availableChars: nat, xs: Overrides)
    requires version + availableChars <= |s|
    ensures ParseVersion(s, version).None? ==> UpdatedNumber(s, version, availableChars, xs).None?
    ensures NumberRewrite(s, version, xs).Some? <==> ParseVersion(s, version).Some?
  {
    ReadVersionNumberIsParse(s, version);
  }

  /** At the terminator nothing reads as a version. */
  lemma NothingAtEnd(s: seq<char>, version: nat, availableChars: nat, xs: Overrides)
    requires version + availableChars <= |s| && At(s, version) == NUL
    ensures UpdatedNumber(s, version, availableChars, xs).None?
  {
  }

  /** How `UpdateVersionNumber` as written ends: the secure `strncpy_s` aborts the program, or
      the update returns 0, or it returns 1 with the rewritten buffer */
  datatype NumberOutcome = Aborted | Refused | Written(text: seq<char>)

  /** `UpdateVersionNumber` as written: `strncpy_s(oldVersion, version, tail - version)` into
      `char oldVersion[64]`, without `_TRUNCATE`, hands the invalid-parameter handler, which ends
      the program, any old text that does not fit with its terminator. Otherwise the copy only
      feeds the message, and the update ends as `UpdatedNumber` says. */
  function UpdatedNumberAsWritten(s: seq<char>, version: nat, availableChars: nat, xs: Overrides): NumberOutcome
    requires version + availableChars <= |s|
  {
    var w := NumberRewrite(s, version, xs);
    if w.Some? && version + 64 <= w.value.tail then Aborted
    else match UpdatedNumber(s, version, availableChars, xs)
      case None => Refused
      case Some(r) => Written(r)
  }

  /** The update as written aborts exactly when a version reads at `version` and its old text,
      through the spaces and tabs after the revision, is 64 characters or more. Wherever it does
      not abort, it ends as the corrected update does. */
  lemma AsWrittenAbortsOnLongText(s: seq<char>, version: nat, availableChars: nat, xs: Overrides)
    requires version + availableChars <= |s|
    ensures UpdatedNumberAsWritten(s, version, availableChars, xs).Aborted? <==>
      ParseVersion(s, version).Some? && version + 64 <= LTrimPos(s, ParseVersion(s, version).value.tail, SpaceTab)
    ensures !UpdatedNumberAsWritten(s, version, availableChars, xs).Aborted? ==>
      (UpdatedNumberAsWritten(s, version, availableChars, xs).Written? <==> UpdatedNumber(s, version, availableChars, xs).Some?)
    ensures UpdatedNumberAsWritten(s, version, availableChars, xs).Written? ==>
      UpdatedNumber(s, version, availableChars, xs) == Some(UpdatedNumberAsWritten(s, version, availableChars, xs).text)
  {
    ReadVersionNumberIsParse(s, version);
  }

  /** A version that reads at `version` as `p`, followed by spaces up to a line feed at `t` */
  predicate PaddedVersion(s: seq<char>, version: nat, p: Parsed, t: nat)
  {
    version <= |s| && ParseVersion(s, version) == Some(p) && Padding(s, p.tail, t)
  }

  /** Spaces from `q` up to a line feed at `t` */
  predicate Padding(s: seq<char>, q: nat, t: nat)
  {
    q <= t < |s| && SpaceRun(s, q, t - q) && s[t] == '\n'
  }

  /** `k` spaces from `t` on */
  predicate SpaceRun(s: seq<char>, t: nat, k: nat)
    requires t + k <= |s|
    decreases k
  {
    k == 0 || (s[t] == ' ' && SpaceRun(s, t + 1, k - 1))
  }

  lemma {:induction false} SpaceRunOf(s: seq<char>, t: nat, k: nat)
    requires t + k <= |s| && forall i :: t <= i < t + k ==> s[i] == ' '
    ensures SpaceRun(s, t, k)
    decreases k
  {
    if k > 0 {
      SpaceRunOf(s, t + 1, k - 1);
    }
  }

  /** A run of spaces that ends on a line feed is trimmed to the line feed. */
  lemma {:induction false} SpacesTrimmed(s: seq<char>, t: nat, k: nat)
    requires t + k < |s| && s[t + k] == '\n' && SpaceRun(s, t, k)
    ensures LTrimPos(s, t, SpaceTab) == t + k
    decreases k
  {
    if k > 0 {
      assert At(s, t) == SpaceTab[0];
      SpacesTrimmed(s, t + 1, k - 1);
    } else {
      assert At(s, t) == '\n';
    }
  }

  /** There the old text runs through the spaces, up to the line feed. */
  lemma PaddedVersionRewrite(s: seq<char>, version: nat, p: Parsed, t: nat, xs: Overrides)
    requires PaddedVersion(s, version, p, t)
    ensures NumberRewrite(s, version, xs).Some? && NumberRewrite(s, version, xs).value.tail == t
  {
    ReadVersionNumberIsParse(s, version);
    PaddingTrimmed(s, p.tail, t);
    TailOfParse(s, version, xs, p);
  }

  /** Padding is trimmed up to its line feed. */
  lemma PaddingTrimmed(s: seq<char>, q: nat, t: nat)
    requires Padding(s, q, t)
    ensures LTrimPos(s, q, SpaceTab) == t
  {
    SpacesTrimmed(s, q, t - q);
  }

  /** The old text of a version that reads as `p` ends past the spaces and tabs after it. */
  lemma TailOfParse(s: seq<char>, version: nat, xs: Overrides, p: Parsed)
    requires version <= |s| && ReadVersionNumber(s, version) == Some(p)
    ensures NumberRewrite(s, version, xs).Some?
    ensures NumberRewrite(s, version, xs).value.tail == LTrimPos(s, p.tail, SpaceTab)
  {
  }

  /** The new text of a version that reads as `p` is the override rule applied to it. */
  lemma RewriteOfParse(s: seq<char>, version: nat, xs: Overrides, p: Parsed)
    requires version <= |s| && ParseVersion(s, version) == Some(p)
    ensures NumberRewrite(s, version, xs).Some?
    ensures NumberRewrite(s, version, xs).value.text == NewVersionText(FileOverridden(p.version, xs))
  {
    ReadVersionNumberIsParse(s, version);
  }

  /** As written, a version whose text with the spaces after it is 64 characters or more ends
      the program, whatever room the buffer has. */
  lemma LongOldVersionAborts(s: seq<char>, version: nat, availableChars: nat, p: Parsed, t: nat, xs: Overrides)
    requires version + availableChars <= |s|
    requires PaddedVersion(s, version, p, t) && version + 64 <= t
    ensures UpdatedNumberAsWritten(s, version, availableChars, xs).Aborted?
  {
    PaddedVersionRewrite(s, version, p, t, xs);
  }

  /** With the copy cut as `_TRUNCATE` cuts it, the same version, on a line that ends the string
      in a buffer with room for it, is rewritten to its new text and the line feed. */
  lemma LongOldVersionRewritten(s: seq<char>, version: nat, availableChars: nat, p: Parsed, t: nat, xs: Overrides)
    requires version + availableChars <= |s|
    requires PaddedVersion(s, version, p, t) && version + 64 <= t
    requires At(s, t + 1) == NUL && t + 1 < version + availableChars
    ensures UpdatedNumber(s, version, availableChars, xs).Some? && NumberRewrite(s, version, xs).Some?
    ensures Str(UpdatedNumber(s, version, availableChars, xs).value, version) ==
      NumberRewrite(s, version, xs).value.text + "\n"
  {
    PaddedVersionRewrite(s, version, p, t, xs);
    RewriteToLineFeed(s, version, availableChars, xs, t);
  }

  /** A rewrite whose old text ends on a line feed just before the terminator, 64 characters or
      more past the version, in a buffer with room for that line, is its new text followed by
      the line feed. */
  lemma RewriteToLineFeed(s: seq<char>, version: nat, availableChars: nat, xs: Overrides, t: nat)
    requires version + availableChars <= |s| && version + 64 <= t < |s|
    requires NumberRewrite(s, version, xs).Some? && NumberRewrite(s, version, xs).value.tail == t
    requires s[t] == '\n' && At(s, t + 1) == NUL && t + 1 < version + availableChars
    ensures UpdatedNumber(s, version, availableChars, xs).Some?
    ensures Str(UpdatedNumber(s, version, availableChars, xs).value, version) ==
      NumberRewrite(s, version, xs).value.text + "\n"
  {
    NumberRewriteWithin(s, version, xs);
    var w := NumberRewrite(s, version, xs).value;
    EndShift(s, version, t);
    LineFeedEnds(s, version, t);
    ReplacedByRoom(s, version, availableChars, w);
    UpdatedNumberText(s, version, availableChars, xs);
  }

  /** A line feed just before the terminator is the last character of the string. */
  lemma LineFeedEnds(s: seq<char>, version: nat, t: nat)
    requires version <= t < |s| && s[t] == '\n' && At(s, t + 1) == NUL
    ensures Strlen(s, t) == 1 && s[t..t + Strlen(s, t)] == "\n"
  {
    assert Strlen(s, t + 1) == 0;
  }

  /** A rewrite with room for the old text and the new one, each with the terminator, is not
      refused. */
  lemma ReplacedByRoom(s: seq<char>, version: nat, availableChars: nat, w: Rewrite)
    requires version + availableChars <= |s| && RewriteWithin(s, version, Some(w))
    requires w.tail + Strlen(s, w.tail) < version + availableChars
    requires version + |w.text| + Strlen(s, w.tail) < version + availableChars
    ensures ReplacedBy(s, version, availableChars, Some(w)).Some?
  {
    EndShift(s, version, w.tail);
  }

  /** The buffer of `1, 2, 3, 4` followed by 54 spaces and a line feed, 66 characters with the
      terminator */
  function LongVersionLine(): (s: seq<char>)
    ensures |s| == 66
  {
    "1, 2, 3, 4" + seq(54, _ => ' ') + "\n\0"
  }

  /** On that buffer the update as written ends the program, and the corrected one rewrites
      the line to `1, 2, 4, 4`, the build incremented. */
  lemma LongVersionLineExample(s: seq<char>, xs: Overrides)
    requires s == LongVersionLine() && xs == Overrides(-1, -1, -1, -1)
    ensures UpdatedNumberAsWritten(s, 0, 66, xs).Aborted?
    ensures UpdatedNumber(s, 0, 66, xs).Some? && Str(UpdatedNumber(s, 0, 66, xs).value, 0) == "1, 2, 4, 4\n"
  {
    var p := Parsed(Version(1, 2, 3, 4), 10);
    LongLinePadded(s, p);
    LongOldVersionAborts(s, 0, 66, p, 64, xs);
    LongLineRewritten(s, xs);
    LongLineNewText(s, xs);
  }

  /** On that buffer the corrected update writes the new text over the whole padded old text,
      and the line feed and terminator follow. */
  lemma LongLineRewritten(s: seq<char>, xs: Overrides)
    requires s == LongVersionLine()
    ensures UpdatedNumber(s, 0, 66, xs).Some? && NumberRewrite(s, 0, xs).Some?
    ensures Str(UpdatedNumber(s, 0, 66, xs).value, 0) == NumberRewrite(s, 0, xs).value.text + "\n"
  {
    var p := Parsed(Version(1, 2, 3, 4), 10);
    LongLinePadded(s, p);
    LongOldVersionRewritten(s, 0, 66, p, 64, xs);
  }

  /** With no override the new text for that buffer is `1, 2, 4, 4`. */
  lemma LongLineNewText(s: seq<char>, xs: Overrides)
    requires s == LongVersionLine() && xs == Overrides(-1, -1, -1, -1)
    ensures NumberRewrite(s, 0, xs).Some? && NumberRewrite(s, 0, xs).value.text + "\n" == "1, 2, 4, 4\n"
  {
    var u := Version(1, 2, 3, 4);
    LongLineParses(s, u);
    RewriteOfParse(s, 0, xs, Parsed(u, 10));
    BuildBumped(u, xs);
  }

  /** With no override the new text of `1, 2, 3, 4` is `1, 2, 4, 4`. */
  lemma BuildBumped(u: Version, xs: Overrides)
    requires u == Version(1, 2, 3, 4) && xs == Overrides(-1, -1, -1, -1)
    ensures NewVersionText(FileOverridden(u, xs)) + "\n" == "1, 2, 4, 4\n"
  {
    assert FileOverridden(u, xs) == Version(1, 2, 4, 4);
    FormatSmall(Version(1, 2, 4, 4));
  }

  /** That buffer is a padded version line that ends the string. */
  lemma LongLinePadded(s: seq<char>, p: Parsed)
    requires s == LongVersionLine() && p == Parsed(Version(1, 2, 3, 4), 10)
    ensures PaddedVersion(s, 0, p, 64) && At(s, 65) == NUL
  {
    LongLineParses(s, p.version);
    LongLineSpaces(s);
    SpaceRunOf(s, 10, 54);
  }

  /** That buffer holds spaces from position 10 to 63, then the line feed and the terminator. */
  lemma LongLineSpaces(s: seq<char>)
    requires s == LongVersionLine()
    ensures forall i :: 10 <= i < 64 ==> s[i] == ' '
    ensures s[64] == '\n' && s[65] == NUL
  {
    var spaces: seq<char> := seq(54, _ => ' ');
    assert s == "1, 2, 3, 4" + spaces + "\n\0";
    forall i | 10 <= i < 64
      ensures s[i] == ' '
    {
      assert s[i] == spaces[i - 10];
    }
  }

  /** The version at the start of that buffer reads as `1, 2, 3, 4`. */
  lemma LongLineParses(s: seq<char>, u: Version)
    requires s == LongVersionLine() && u == Version(1, 2, 3, 4)
    ensures ParseVersion(s, 0) == Some(Parsed(u, 10))
  {
    FormatSmall(u);
    assert s[0..10] == FormatText(u);
    ParseFormatted(s, 0, u);
  }

  /** A version of one-digit parts formats as the digits with `", "` between them. */
  lemma FormatSmall(v: Version)
    requires v.major < 10 && v.minor < 10 && v.build < 10 && v.revision < 10
    ensures FormatText(v) ==
      [DigitChar(v.major), ',', ' ', DigitChar(v.minor), ',', ' ', DigitChar(v.build), ',', ' ', DigitChar(v.revision)]
  {
  }

  /** The buffer and the count an update leaves */
  datatype Change = Change(text: seq<char>, count: int)

  /** The test after `FindVersionItem` in `Update` */
  datatype Guard = NullDereference | GiveUp | Proceed(at: nat)

  /** `if (!version && !*version) return 0;` as written: a null result is dereferenced, and a
      result at the terminator goes on. */
  function ItemGuardAsWritten(s: seq<char>, found: Option<nat>): Guard
  {
    if found.None? then NullDereference else Proceed(found.value)
  }

  /** `if (!version || !*version) return 0;`: give up when the item is missing or at the
      terminator */
  function ItemGuard(s: seq<char>, found: Option<nat>): (g: Guard)
    ensures g != NullDereference
    ensures g.Proceed? <==> found.Some? && At(s, found.value) != NUL
  {
    if found.None? || At(s, found.value) == NUL then GiveUp else Proceed(found.value)
  }

  /** Past one leading quote */
  function Unquoted(s: seq<char>, v: nat): nat
  {
    if At(s, v) == '"' then v + 1 else v
  }

  /** `Update(text, chars, name, value, title)` once a guard has let it go on at `v`: past one
      leading quote, `UpdateVersionNumber` with what is left of `chars` */
  function UpdatedAt(s: seq<char>, text: nat, chars: nat, v: nat, xs: Overrides): Change
    requires text + chars == |s| && text <= v <= |s|
  {
    var u := Unquoted(s, v);
    var r := UpdatedNumber(s, u, chars - (u - text), xs);
    if r.Some? then Change(r.value, 1) else Change(s, 0)
  }

  /** What `UpdateVersionNumber` is asked to do past the quote */
  lemma UpdatedAtCases(s: seq<char>, text: nat, chars: nat, v: nat, xs: Overrides)
    requires text + chars == |s| && text <= v <= |s|
    ensures var u := Unquoted(s, v);
      var r := UpdatedNumber(s, u, chars - (u - text), xs);
      UpdatedAt(s, text, chars, v, xs).text == (if r.Some? then r.value else s) &&
      UpdatedAt(s, text, chars, v, xs).count == (if r.Some? then 1 else 0)
  {
  }

  /** One rewrite at most; the buffer keeps its size, and nothing before `text` changes. */
  lemma UpdatedAtShape(s: seq<char>, text: nat, chars: nat, v: nat, xs: Overrides)
    requires text + chars == |s| && text <= v <= |s|
    ensures var c := UpdatedAt(s, text, chars, v, xs);
      |c.text| == |s| && (c.count == 0 || c.count == 1) && (c.count == 0 ==> c.text == s) &&
      SamePrefix(c.text, s, text)
  {
    var u := Unquoted(s, v);
    var r := UpdatedNumber(s, u, chars - (u - text), xs);
    if r.Some? {
      UpdatedNumberText(s, u, chars - (u - text), xs);
      assert SamePrefix(r.value, s, u);
    } else {
      assert SamePrefix(s, s, text);
    }
  }

  /** `Update` with the guard corrected */
  function ItemUpdated(s: seq<char>, text: nat, chars: nat, name: Option<seq<char>>, value: Option<seq<char>>, xs: Overrides): Change
    requires text + chars == |s| && TextArg(name) && TextArg(value)
  {
    var g := ItemGuard(s, FoundItem(s, text, name, value));
    if g.Proceed? then UpdatedAt(s, text, chars, g.at, xs) else Change(s, 0)
  }

  /** The two outcomes of the guard */
  lemma ItemUpdatedCases(s: seq<char>, text: nat, chars: nat, name: Option<seq<char>>, value: Option<seq<char>>, xs: Overrides)
    requires text + chars == |s| && TextArg(name) && TextArg(value)
    ensures var found := FoundItem(s, text, name, value);
      var c := ItemUpdated(s, text, chars, name, value, xs);
      if found.None? || At(s, found.value) == NUL then c.text == s && c.count == 0
      else
        c.text == UpdatedAt(s, text, chars, found.value, xs).text &&
        c.count == UpdatedAt(s, text, chars, found.value, xs).count
  {
  }

  /** `Update` as written: nothing when it dereferences null */
  function ItemUpdatedAsWritten(s: seq<char>, text: nat, chars: nat, name: Option<seq<char>>, value: Option<seq<char>>, xs: Overrides): Option<Change>
    requires text + chars == |s| && TextArg(name) && TextArg(value)
  {
    var g := ItemGuardAsWritten(s, FoundItem(s, text, name, value));
    if g.Proceed? then Some(UpdatedAt(s, text, chars, g.at, xs)) else None
  }

  /** The guard as written dereferences null whenever the item is missing, and it is missing
      whenever its name occurs nowhere. */
  lemma AsWrittenDereferencesNull(s: seq<char>, text: nat, chars: nat, name: seq<char>, value: Option<seq<char>>, xs: Overrides)
    requires text + chars == |s| && NoNul(name) && 0 < |name| && TextArg(value)
    requires forall k :: 0 <= k <= |s| ==> !MatchesNoCase(s, k, name)
    ensures ItemGuardAsWritten(s, FoundItem(s, text, Some(name), value)) == NullDereference
    ensures ItemUpdatedAsWritten(s, text, chars, Some(name), value, xs).None?
    ensures ItemUpdated(s, text, chars, Some(name), value, xs) == Change(s, 0)
  {
    MissingNameNotFound(s, text, name, value);
  }

  /** No character of `s` from `i` on is `c` once lowered */
  predicate NoneLowersTo(s: seq<char>, c: char, i: nat)
    requires i <= |s|
    decreases |s| - i
  {
    i == |s| || (ToLower(s[i]) != c && NoneLowersTo(s, c, i + 1))
  }

  lemma {:induction false} NoneLowersToAt(s: seq<char>, c: char, i: nat, k: nat)
    requires i <= k < |s| && NoneLowersTo(s, c, i)
    ensures ToLower(s[k]) != c
    decreases k - i
  {
    if i < k {
      NoneLowersToAt(s, c, i + 1, k);
    }
  }

  /** A script with a version block that holds no version item */
  const ScriptWithoutVersions: seq<char> := "1 VERSIONINFO\n" + "BEGIN\nEND\n\0"

  /** `FILEVERSION` occurs nowhere in that script, in any case: the only `f` is followed by `o`. */
  lemma ScriptLacksFileVersion()
    ensures forall k :: 0 <= k <= |ScriptWithoutVersions| ==> !MatchesNoCase(ScriptWithoutVersions, k, "FILEVERSION")
  {
    var a, b := "1 VERSIONIN", "BEGIN\nEND\n\0";
    var s, name := ScriptWithoutVersions, "FILEVERSION";
    assert s == a + "FO\n" + b;
    assert NoneLowersTo(a, 'f', 0) && NoneLowersTo(b, 'f', 0);
    forall k | 0 <= k <= |s| ensures !MatchesNoCase(s, k, name) {
      if k + |name| <= |s| {
        if k < |a| {
          NoneLowersToAt(a, 'f', 0, k);
          assert ToLower(s[k + 0]) != ToLower(name[0]);
        } else if k == |a| {
          assert ToLower(s[k + 1]) != ToLower(name[1]);
        } else if k < |a| + 3 {
          assert ToLower(s[k + 0]) != ToLower(name[0]);
        } else {
          NoneLowersToAt(b, 'f', 0, k - |a| - 3);
          assert ToLower(s[k + 0]) != ToLower(name[0]);
        }
      }
    }
  }

  /** The first line of that script: an identifier, a space, then `VERSIONINFO` and a line feed */
  lemma ScriptFirstLine(s: seq<char>)
    requires s == ScriptWithoutVersions
    ensures |s| == 25 && s[0] == '1' && s[1] == ' ' && s[13] == '\n'
    ensures MatchesNoCase(s, 2, VersionInfoName)
  {
    forall k | 0 <= k < |VersionInfoName| ensures ToLower(s[2 + k]) == ToLower(VersionInfoName[k]) {
      assert s[2 + k] == VersionInfoName[k];
    }
  }

  /** `UpdateVersions` finds the version block of that script on its first line, and passes its
      guard there. */
  lemma ScriptVersionStart(s: seq<char>)
    requires s == ScriptWithoutVersions
    ensures VersionItemStart(s) == Some(13)
  {
    ScriptFirstLine(s);
    assert LTrimPos(s, 0, WhiteSpace) == 0;
    assert LSkipToPos(s, 1, WhiteSpace) == 1;
    assert LSkipToPos(s, 0, WhiteSpace) == 1;
    assert SkipTextItemPos(s, 0) == 1;
    assert LTrimPos(s, 1, SpaceTab) == 2;
    assert LTrimPos(s, 13, CommaChaff) == 13;
    assert LineAttempt(s, 0, Some([]), Some(VersionInfoName)) == Found(13);
    FoundItemStep(s, 0, Some([]), Some(VersionInfoName));
  }

  /** On that script `UpdateVersions` passes its guard, and its first `Update`, for
      `FILEVERSION`, dereferences null. */
  lemma AsWrittenExample(s: seq<char>, xs: Overrides)
    requires s == ScriptWithoutVersions
    ensures VersionItemStart(s) == Some(13)
    ensures ItemUpdatedAsWritten(s, 13, |s| - 13, Some(VersionItems()[0].name), VersionItems()[0].value, xs).None?
  {
    ScriptVersionStart(s);
    ScriptLacksFileVersion();
    var item := VersionItems()[0];
    assert item == Item("FILEVERSION", None);
    AsWrittenDereferencesNull(s, 13, |s| - 13, item.name, item.value, xs);
  }

  /** Wherever the guard as written does not dereference null, the corrected guard does the
      same: an item at the terminator does not read as a version. */
  lemma CorrectedGuardAgrees(s: seq<char>, text: nat, chars: nat, name: Option<seq<char>>, value: Option<seq<char>>, xs: Overrides)
    requires text + chars == |s| && TextArg(name) && TextArg(value)
    requires ItemUpdatedAsWritten(s, text, chars, name, value, xs).Some?
    ensures ItemUpdatedAsWritten(s, text, chars, name, value, xs) == Some(ItemUpdated(s, text, chars, name, value, xs))
  {
    var found := FoundItem(s, text, name, value);
    if At(s, found.value) == NUL {
      NothingAtEnd(s, found.value, chars - (found.value - text), xs);
    }
  }

  /** An item `Update` looks for: the name, and the value that must follow it on its line */
  datatype Item = Item(name: seq<char>, value: Option<seq<char>>)

  predicate ItemArgs(items: seq<Item>)
  {
    forall i :: 0 <= i < |items| ==> NoNul(items[i].name) && TextArg(items[i].value)
  }

  /** The four items `UpdateVersions` rewrites, in order */
  const VersionItemList: seq<Item> := [
    Item("FILEVERSION", None),
    Item("PRODUCTVERSION", None),
    Item("VALUE", Some("\"FileVersion\"")),
    Item("VALUE", Some("\"ProductVersion\""))]

  const VersionInfoName: seq<char> := "VERSIONINFO"

  lemma VersionItemsArgs()
    ensures ItemArgs(VersionItemList) && |VersionItemList| == 4
  {
    forall i | 0 <= i < |VersionItemList| ensures NoNul(VersionItemList[i].name) && TextArg(VersionItemList[i].value) {
      var t := VersionItemList[i].name;
      assert forall k :: 0 <= k < |t| ==> t[k] != NUL;
    }
  }

  /** The four items, with what `Update` demands of each */
  function VersionItems(): (r: seq<Item>)
    ensures |r| == 4 && ItemArgs(r)
  {
    VersionItemsArgs();
    VersionItemList
  }

  /** Where the four `Update` calls start: past the `VERSIONINFO` item, when it is found away from
      the terminator */
  function VersionItemStart(s: seq<char>): (r: Option<nat>)
    ensures r.Some? ==> r.value < |s| && At(s, r.value) != NUL
  {
    var found := FoundItem(s, 0, Some([]), Some(VersionInfoName));
    if found.None? || At(s, found.value) == NUL then None else found
  }

  /** The updates of `items[i..]` one after the other, each from `at` with the room left behind
      it, with the number of items rewritten; nothing before `at` changes */
  function ItemsUpdated(s: seq<char>, at: nat, items: seq<Item>, i: nat, xs: Overrides): (c: Change)
    requires at <= |s| && ItemArgs(items) && i <= |items|
    ensures |c.text| == |s| && 0 <= c.count <= |items| - i && SamePrefix(c.text, s, at)
    decreases |items| - i
  {
    if i == |items| then
      assert SamePrefix(s, s, at);
      Change(s, 0)
    else
      var c := ItemUpdated(s, at, |s| - at, Some(items[i].name), items[i].value, xs);
      ItemUpdatedShape(s, at, |s| - at, Some(items[i].name), items[i].value, xs);
      var rest := ItemsUpdated(c.text, at, items, i + 1, xs);
      SamePrefixTrans(rest.text, c.text, s, at);
      Change(rest.text, c.count + rest.count)
  }

  /** Update `i`, then the others on the buffer it leaves */
  lemma ItemsUpdatedStep(s: seq<char>, t: seq<char>, at: nat, items: seq<Item>, i: nat, n: int, xs: Overrides)
    requires at <= |s| && ItemArgs(items) && i < |items|
    requires t == ItemUpdated(s, at, |s| - at, Some(items[i].name), items[i].value, xs).text
    requires n == ItemUpdated(s, at, |s| - at, Some(items[i].name), items[i].value, xs).count
    ensures ItemsUpdated(s, at, items, i, xs).text == ItemsUpdated(t, at, items, i + 1, xs).text
    ensures ItemsUpdated(s, at, items, i, xs).count == n + ItemsUpdated(t, at, items, i + 1, xs).count
  {
  }

  /** Past the last item nothing changes. */
  lemma ItemsUpdatedDone(s: seq<char>, at: nat, items: seq<Item>, xs: Overrides)
    requires at <= |s| && ItemArgs(items)
    ensures ItemsUpdated(s, at, items, |items|, xs).text == s
    ensures ItemsUpdated(s, at, items, |items|, xs).count == 0
  {
  }

  /** An update rewrites one item at most, keeps the size of the buffer and changes nothing before
      the position it searches from. */
  lemma ItemUpdatedShape(s: seq<char>, text: nat, chars: nat, name: Option<seq<char>>, value: Option<seq<char>>, xs: Overrides)
    requires text + chars == |s| && TextArg(name) && TextArg(value)
    ensures var c := ItemUpdated(s, text, chars, name, value, xs);
      |c.text| == |s| && (c.count == 0 || c.count == 1) && (c.count == 0 ==> c.text == s) &&
      SamePrefix(c.text, s, text)
  {
    var g := ItemGuard(s, FoundItem(s, text, name, value));
    if g.Proceed? {
      UpdatedAtShape(s, text, chars, g.at, xs);
    } else {
      assert SamePrefix(s, s, text);
    }
  }

  /** `UpdateVersions` on a buffer holding `chars` loaded characters: -1 for an empty buffer, 0
      without a version block, otherwise the four updates from the start of the block */
  function VersionsUpdated(s: seq<char>, chars: nat, xs: Overrides): (c: Change)
    ensures |c.text| == |s|
  {
    if chars == 0 then Change(s, -1)
    else
      var start := VersionItemStart(s);
      if start.None? then Change(s, 0)
      else
        ItemsUpdated(s, start.value, VersionItems(), 0, xs)
  }

  /** The three outcomes of `UpdateVersions` on a buffer */
  lemma VersionsUpdatedCases(s: seq<char>, chars: nat, xs: Overrides)
    requires 0 < chars
    ensures var found := FoundItem(s, 0, Some([]), Some(VersionInfoName));
      var c := VersionsUpdated(s, chars, xs);
      if found.None? || At(s, found.value) == NUL then c.text == s && c.count == 0
      else
        found.value <= |s| &&
        c.text == ItemsUpdated(s, found.value, VersionItems(), 0, xs).text &&
        c.count == ItemsUpdated(s, found.value, VersionItems(), 0, xs).count
  {
  }

  /** The result is -1 exactly for an empty buffer, 0 without a version block, and otherwise the
      number of items rewritten, at most four; nothing before the version block changes. */
  lemma VersionsUpdatedCount(s: seq<char>, chars: nat, xs: Overrides)
    ensures VersionsUpdated(s, chars, xs).count == -1 <==> chars == 0
    ensures 0 < chars && VersionItemStart(s).None? ==> VersionsUpdated(s, chars, xs) == Change(s, 0)
    ensures -1 <= VersionsUpdated(s, chars, xs).count <= 4
    ensures VersionItemStart(s).Some? ==> SamePrefix(VersionsUpdated(s, chars, xs).text, s, VersionItemStart(s).value)
  {
    if VersionItemStart(s).Some? {
      if chars == 0 {
        assert SamePrefix(s, s, VersionItemStart(s).value);
      }
    }
  }

  /** `Replace` on the buffer `a` */
  method Replace(a: array<char>, oldText: nat, oldLength: nat, newText: Option<seq<char>>, bufferLength: nat)
    returns (ok: bool)
    requires FileReplaceArgs(a[..], oldText, oldLength, bufferLength) && TextArg(newText)
    modifies a
    ensures ok == FileReplaced(old(a[..]), oldText, oldLength, newText, bufferLength).Some?
    ensures ok ==> a[..] == FileReplaced(old(a[..]), oldText, oldLength, newText, bufferLength).value
    ensures !ok ==> a[..] == old(a[..])
  {
    ghost var s := a[..];
    EndShift(s, oldText, oldText + oldLength);
    var tailLength := Length(a, oldText + oldLength);
    if bufferLength <= oldLength + tailLength {
      return false;
    }
    var newLength := if newText.Some? then |newText.value| else 0;
    if bufferLength <= newLength + tailLength {
      return false;
    }
    Splice(a, oldText, oldLength, TextOf(newText), tailLength);
    ok := true;
  }

  /** `UpdateVersionNumber`, with the copy into `oldVersion` cut to fit (`_TRUNCATE`, as the
      copy at RCFileUpdater.cpp:154 does); `UpdatedNumberAsWritten` models the copy as written. */
  method UpdateVersionNumber(a: array<char>, version: nat, availableChars: nat, xs: Overrides) returns (n: int)
    requires version + availableChars <= a.Length
    modifies a
    ensures n == if UpdatedNumber(old(a[..]), version, availableChars, xs).Some? then 1 else 0
    ensures a[..] == if n == 1 then UpdatedNumber(old(a[..]), version, availableChars, xs).value
                              else old(a[..])
  {
    ghost var s := a[..];
    var w := ReadRewrite(a[..], version, xs);
    NumberRewriteWithin(s, version, xs);
    assert UpdatedNumber(s, version, availableChars, xs) == ReplacedBy(s, version, availableChars, w);
    if w.None? {
      return 0;
    }
    var ok := ReplaceNumber(a, version, availableChars, w.value);
    n := if ok then 1 else 0;
  }

  /** The `Replace` call of `UpdateVersionNumber` */
  method ReplaceNumber(a: array<char>, version: nat, availableChars: nat, w: Rewrite) returns (ok: bool)
    requires version + availableChars <= a.Length
    requires RewriteWithin(a[..], version, Some(w))
    modifies a
    ensures ok == ReplacedBy(old(a[..]), version, availableChars, Some(w)).Some?
    ensures ok ==> a[..] == ReplacedBy(old(a[..]), version, availableChars, Some(w)).value
    ensures !ok ==> a[..] == old(a[..])
  {
    ghost var s := a[..];
    EndShift(s, version, w.tail);
    ghost var r := FileReplaced(s, version, w.tail - version, Some(w.text), availableChars);
    assert ReplacedBy(s, version, availableChars, Some(w)) == r;
    ok := Replace(a, version, w.tail - version, Some(w.text), availableChars);
    assert ok == r.Some?;
  }

  // ---------------------------------------------------------------------------
  // The updater
  // ---------------------------------------------------------------------------

  class RCFileUpdater {
    var bufferData: array?<char>
    var bufferSize: nat
    var bufferChars: nat
    var majorVersion: int
    var minorVersion: int
    var buildNumber: int
    var revision: int
    var verbose: bool

    /** The buffer, when there is one, holds `bufferSize` characters. */
    ghost predicate Valid()
      reads this
    {
      bufferData != null ==> bufferData.Length == bufferSize
    }

    /** The overrides the updater was given */
    function Requested(): Overrides
      reads this
    {
      Overrides(majorVersion, minorVersion, buildNumber, revision)
    }

    constructor()
      ensures Valid() && bufferData == null && bufferSize == 0 && bufferChars == 0
      ensures majorVersion == 0 && minorVersion == 0 && buildNumber == 0 && revision == 0 && !verbose
    {
      bufferData := null;
      bufferSize := 0;
      bufferChars := 0;
      majorVersion, minorVersion, buildNumber, revision := 0, 0, 0, 0;
      verbose := false;
    }

    /** `Update` with the guard corrected */
    method Update(text: nat, chars: nat, name: Option<seq<char>>, value: Option<seq<char>>) returns (n: int)
      requires bufferData != null && text + chars == bufferData.Length && TextArg(name) && TextArg(value)
      modifies bufferData
      ensures bufferData[..] == ItemUpdated(old(bufferData[..]), text, chars, name, value, old(Requested())).text
      ensures n == ItemUpdated(old(bufferData[..]), text, chars, name, value, old(Requested())).count
    {
      ghost var s := bufferData[..];
      var found := FindVersionItem(bufferData[..], text, name, value);
      ItemUpdatedCases(s, text, chars, name, value, Requested());
      if found.None? || At(bufferData[..], found.value) == NUL {
        return 0;
      }
      n := UpdateAt(text, chars, found.value);
    }

    /** The part of `Update` after the guard: past one leading quote, `UpdateVersionNumber` */
    method UpdateAt(text: nat, chars: nat, v: nat) returns (n: int)
      requires bufferData != null && text + chars == bufferData.Length && text <= v <= bufferData.Length
      modifies bufferData
      ensures bufferData[..] == UpdatedAt(old(bufferData[..]), text, chars, v, old(Requested())).text
      ensures n == UpdatedAt(old(bufferData[..]), text, chars, v, old(Requested())).count
    {
      ghost var s := bufferData[..];
      var version := v;
      if At(bufferData[..], version) == '"' {
        version := version + 1;
      }
      assert version == Unquoted(s, v);
      UpdatedAtCases(s, text, chars, v, Requested());
      n := UpdateVersionNumber(bufferData, version, chars - (version - text), Requested());
    }

    method UpdateVersions() returns (count: int)
      requires Valid()
      modifies bufferData
      ensures bufferData == null ==> count == -1
      ensures bufferData != null ==> bufferData[..] == VersionsUpdated(old(bufferData[..]), bufferChars, Requested()).text
      ensures bufferData != null ==> count == VersionsUpdated(old(bufferData[..]), bufferChars, Requested()).count
    {
      if bufferData == null || bufferChars == 0 {
        return -1;
      }
      ghost var s := bufferData[..];
      var start := FindVersionItem(bufferData[..], 0, Some(""), Some("VERSIONINFO"));
      VersionsUpdatedCases(s, bufferChars, Requested());
      if start.None? || At(bufferData[..], start.value) == NUL {
        return 0;
      }
      count := UpdateItems(start.value, bufferSize - start.value, VersionItems(), 0);
    }

    /** The four `Update` calls of `UpdateVersions` for `items[i..]`, each from `at` with the
        `room` behind it */
    method UpdateItems(at: nat, room: nat, items: seq<Item>, i: nat) returns (count: int)
      requires bufferData != null && at + room == bufferData.Length && ItemArgs(items) && i + 4 == |items|
      modifies bufferData
      ensures bufferData[..] == ItemsUpdated(old(bufferData[..]), at, items, i, Requested()).text
      ensures count == ItemsUpdated(old(bufferData[..]), at, items, i, Requested()).count
    {
      var c1 := UpdateItem(at, room, items, i);
      var c2 := UpdateItem(at, room, items, i + 1);
      var c3 := UpdateItem(at, room, items, i + 2);
      var c4 := UpdateItem(at, room, items, i + 3);
      ItemsUpdatedDone(bufferData[..], at, items, Requested());
      count := c1 + c2 + c3 + c4;
    }

    /** The `Update` call for `items[i]`, followed by the updates of the items after it */
    method UpdateItem(at: nat, room: nat, items: seq<Item>, i: nat) returns (n: int)
      requires bufferData != null && at + room == bufferData.Length && ItemArgs(items) && i < |items|
      modifies bufferData
      ensures ItemsUpdated(old(bufferData[..]), at, items, i, Requested()).text ==
        ItemsUpdated(bufferData[..], at, items, i + 1, Requested()).text
      ensures ItemsUpdated(old(bufferData[..]), at, items, i, Requested()).count ==
        n + ItemsUpdated(bufferData[..], at, items, i + 1, Requested()).count
    {
      ghost var s := bufferData[..];
      ghost var xs := Requested();
      n := Update(at, room, Some(items[i].name), items[i].value);
      ghost var t := bufferData[..];
      assert Requested() == xs && room == |s| - at;
      ItemsUpdatedStep(s, t, at, items, i, n, xs);
    }
  }
}
