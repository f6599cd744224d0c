/** The line matcher of the older updater (`RCFileUpdater::MatchSkip` and
    `RCFileUpdater::FindVersionItem`): a resource line is a name, then a value, each matched
    without regard to case. Neither writes the buffer; each is specified by a function on
    positions and implemented by the pointer walk the source has. A text argument that may be
    null is an `Option`. */
module ItemFinder {
  import opened Wrappers
  import opened CString
  import opened Trim

  /** The separators `MatchSkip` skips after a value when a comma is allowed */
  const CommaChaff: seq<char> := " ,\t"

  /** A C string argument: null, or a text without terminator inside it */
  predicate TextArg(text: Option<seq<char>>)
  {
    text.Some? ==> NoNul(text.value)
  }

  /** Whether `MatchSkip` matched, and where it left the cursor */
  datatype Skip = Skip(matched: bool, line: nat)

  /** `MatchSkip(line, text, allowComma)`: the cursor first skips space/tab for good; a null text
      matches there; an empty text matches any quoted string or word and skips it with the
      space/tab after it; any other text must occur there without regard to case and be followed
      by white space (or a comma when allowed), which is then skipped. */
  function MatchSkipped(s: seq<char>, line: nat, text: Option<seq<char>>, allowComma: bool): (r: Skip)
    requires line <= |s| && TextArg(text)
    ensures LTrimPos(s, line, SpaceTab) <= r.line <= End(s, line)
    ensures !r.matched ==> r.line == LTrimPos(s, line, SpaceTab)
  {
    var l := LTrimPos(s, line, SpaceTab);
    EndShift(s, line, l);
    if text.None? then Skip(true, l)
    else if |text.value| == 0 then
      var w := SkipTextItemPos(s, l);
      EndShift(s, l, w);
      Skip(true, LTrimPos(s, w, SpaceTab))
    else if !MatchesNoCase(s, l, text.value) then Skip(false, l)
    else
      var ptr := l + |text.value|;
      MatchNoCaseInsideString(s, l, text.value);
      EndShift(s, l, ptr);
      if !IsSpace(At(s, ptr)) && (!allowComma || At(s, ptr) != ',') then Skip(false, l)
      else Skip(true, LTrimPos(s, ptr, if allowComma then CommaChaff else SpaceTab))
  }

  method MatchSkip(s: seq<char>, line: nat, text: Option<seq<char>>, allowComma: bool)
    returns (matched: bool, newLine: nat)
    requires line <= |s| && TextArg(text)
    ensures Skip(matched, newLine) == MatchSkipped(s, line, text, allowComma)
  {
    newLine := LTrim(s, line, SpaceTab);
    if text.None? {
      return true, newLine;
    }
    var length := |text.value|;
    if length == 0 {
      var w := SkipTextItem(s, newLine);
      newLine := LTrim(s, w, SpaceTab);
      return true, newLine;
    }
    if !MatchesNoCase(s, newLine, text.value) {
      return false, newLine;
    }
    var ptr := newLine + length;
    MatchNoCaseInsideString(s, newLine, text.value);
    if !IsSpace(At(s, ptr)) && (!allowComma || At(s, ptr) != ',') {
      return false, newLine;
    }
    if allowComma {
      newLine := LTrim(s, ptr, CommaChaff);
    } else {
      newLine := LTrim(s, ptr, SpaceTab);
    }
    matched := true;
  }

  // ---------------------------------------------------------------------------
  // What MatchSkip promises
  // ---------------------------------------------------------------------------

  /** A null text is no check: it matches wherever the cursor is, after space/tab. */
  lemma MatchSkipNull(s: seq<char>, line: nat, allowComma: bool)
    requires line <= |s|
    ensures MatchSkipped(s, line, None, allowComma) == Skip(true, LTrimPos(s, line, SpaceTab))
  {
  }

  /** An empty text matches anything and passes over one text item and the space/tab after it. */
  lemma MatchSkipEmpty(s: seq<char>, line: nat, allowComma: bool)
    requires line <= |s|
    ensures var l := LTrimPos(s, line, SpaceTab);
      MatchSkipped(s, line, Some([]), allowComma) == Skip(true, LTrimPos(s, SkipTextItemPos(s, l), SpaceTab))
  {
  }

  /** A non-empty text matches exactly when it occurs at the trimmed cursor, without regard to
      case, followed by white space or an allowed comma; the match then leaves the cursor past the
      text and past separators only. */
  lemma MatchSkipNonEmpty(s: seq<char>, line: nat, text: seq<char>, allowComma: bool)
    requires line <= |s| && NoNul(text) && 0 < |text|
    ensures var l := LTrimPos(s, line, SpaceTab);
      var r := MatchSkipped(s, line, Some(text), allowComma);
      r.matched <==> MatchesNoCase(s, l, text) &&
                     (IsSpace(At(s, l + |text|)) || (allowComma && At(s, l + |text|) == ','))
    ensures var l := LTrimPos(s, line, SpaceTab);
      var r := MatchSkipped(s, line, Some(text), allowComma);
      r.matched ==> (l + |text| <= r.line &&
        forall k :: l + |text| <= k < r.line ==> s[k] in (if allowComma then CommaChaff else SpaceTab))
  {
    var l := LTrimPos(s, line, SpaceTab);
    if MatchesNoCase(s, l, text) {
      MatchNoCaseInsideString(s, l, text);
      LTrimSkipsChaff(s, l + |text|, if allowComma then CommaChaff else SpaceTab);
    }
  }

  /** Case does not matter: texts that agree after `tolower` match alike. */
  lemma MatchSkipIgnoresCase(s: seq<char>, line: nat, t1: seq<char>, t2: seq<char>, allowComma: bool)
    requires line <= |s| && NoNul(t1) && NoNul(t2) && |t1| == |t2|
    requires forall k :: 0 <= k < |t1| ==> ToLower(t1[k]) == ToLower(t2[k])
    ensures MatchSkipped(s, line, Some(t1), allowComma) == MatchSkipped(s, line, Some(t2), allowComma)
  {
    var l := LTrimPos(s, line, SpaceTab);
    assert MatchesNoCase(s, l, t1) == MatchesNoCase(s, l, t2);
  }

  // ---------------------------------------------------------------------------
  // FindVersionItem
  // ---------------------------------------------------------------------------

  /** A `//` line, tested at the trimmed cursor */
  predicate SlashComment(s: seq<char>, l: nat)
  {
    At(s, l) == '/' && At(s, l + 1) == '/'
  }

  /** One pass of the line loop of `FindVersionItem`: the position past name and value when both
      match, or the cursor the loop goes on from with `NextLine` */
  datatype Attempt = Found(at: nat) | Missed(from: nat)

  /** One pass on the line at `line`: trim white space (line ends included), pass over `//`
      lines, then match the name and the value; a failed match leaves the cursor where the
      matcher left it. */
  function LineAttempt(s: seq<char>, line: nat, name: Option<seq<char>>, value: Option<seq<char>>): (r: Attempt)
    requires line <= |s| && TextArg(name) && TextArg(value)
    ensures r.Found? ==> LTrimPos(s, line, WhiteSpace) <= r.at <= End(s, line)
    ensures r.Missed? ==> LTrimPos(s, line, WhiteSpace) <= r.from <= End(s, line)
  {
    var l := LTrimPos(s, line, WhiteSpace);
    EndShift(s, line, l);
    if SlashComment(s, l) then Missed(l)
    else
      var m1 := MatchSkipped(s, l, name, false);
      EndShift(s, l, m1.line);
      if !m1.matched then Missed(m1.line)
      else
        var m2 := MatchSkipped(s, m1.line, value, true);
        if !m2.matched then Missed(m2.line) else Found(m2.line)
  }

  /** The loop goes on at the next line, which lies past the one it started on. */
  lemma NextLineAdvances(s: seq<char>, line: nat, p: nat)
    requires line <= |s| && At(s, line) != NUL && line <= p <= End(s, line)
    requires p == line ==> At(s, p) != NUL
    ensures line < NextLinePos(s, p)
  {
  }

  /** `FindVersionItem(line, name, value)`: the position just past name and value on the first
      line, from `line` on, where both match; nothing when no line does. */
  function FoundItem(s: seq<char>, line: nat, name: Option<seq<char>>, value: Option<seq<char>>): (r: Option<nat>)
    requires line <= |s| && TextArg(name) && TextArg(value)
    ensures r.Some? ==> line <= r.value <= End(s, line)
    decreases |s| - line
  {
    if At(s, line) == NUL then None
    else
      var a := LineAttempt(s, line, name, value);
      if a.Found? then Some(a.at)
      else
        var next := NextLinePos(s, a.from);
        LTrimSkipsChaff(s, line, WhiteSpace);
        NextLineAdvances(s, line, a.from);
        EndShift(s, line, a.from);
        EndShift(s, a.from, next);
        FoundItem(s, next, name, value)
  }

  /** One pass of the line loop, unfolded */
  lemma FoundItemStep(s: seq<char>, line: nat, name: Option<seq<char>>, value: Option<seq<char>>)
    requires line <= |s| && TextArg(name) && TextArg(value) && At(s, line) != NUL
    ensures LineAttempt(s, line, name, value).Found? ==>
      FoundItem(s, line, name, value) == Some(LineAttempt(s, line, name, value).at)
    ensures LineAttempt(s, line, name, value).Missed? ==>
      line < NextLinePos(s, LineAttempt(s, line, name, value).from) &&
      FoundItem(s, line, name, value) == FoundItem(s, NextLinePos(s, LineAttempt(s, line, name, value).from), name, value)
  {
    var a := LineAttempt(s, line, name, value);
    if a.Missed? {
      NextLineAdvances(s, line, a.from);
    }
  }

  method FindVersionItem(s: seq<char>, start: nat, name: Option<seq<char>>, value: Option<seq<char>>)
    returns (r: Option<nat>)
    requires start <= |s| && TextArg(name) && TextArg(value)
    ensures r == FoundItem(s, start, name, value)
  {
    var line: nat := start;
    while At(s, line) != NUL
      invariant line <= |s|
      invariant FoundItem(s, line, name, value) == FoundItem(s, start, name, value)
      decreases |s| - line
    {
      FoundItemStep(s, line, name, value);
      var a := TryLine(s, line, name, value);
      if a.Found? {
        return Some(a.at);
      }
      line := NextLine(s, a.from);
    }
    return None;
  }

  /** The body of the line loop of `FindVersionItem`, up to its `continue` or `return` */
  method TryLine(s: seq<char>, start: nat, name: Option<seq<char>>, value: Option<seq<char>>)
    returns (a: Attempt)
    requires start <= |s| && TextArg(name) && TextArg(value)
    ensures a == LineAttempt(s, start, name, value)
  {
    var line := LTrimSpace(s, start);
    if '/' == At(s, line) && '/' == At(s, line + 1) {
      return Missed(line);
    }
    var ok;
    ok, line := MatchSkip(s, line, name, false);
    if !ok {
      return Missed(line);
    }
    ok, line := MatchSkip(s, line, value, true);
    if !ok {
      return Missed(line);
    }
    return Found(line);
  }

  // ---------------------------------------------------------------------------
  // What FindVersionItem promises
  // ---------------------------------------------------------------------------

  /** A found item was found on some line the loop reached, by the name and value matches
      there. */
  lemma {:induction false} FoundOnALine(s: seq<char>, line: nat, name: Option<seq<char>>, value: Option<seq<char>>)
    returns (q: nat)
    requires line <= |s| && TextArg(name) && TextArg(value)
    requires FoundItem(s, line, name, value).Some?
    ensures line <= q <= |s| && At(s, q) != NUL
    ensures LineAttempt(s, q, name, value) == Found(FoundItem(s, line, name, value).value)
    decreases |s| - line
  {
    var a := LineAttempt(s, line, name, value);
    if a.Found? {
      q := line;
    } else {
      LTrimSkipsChaff(s, line, WhiteSpace);
      NextLineAdvances(s, line, a.from);
      EndShift(s, line, a.from);
      q := FoundOnALine(s, NextLinePos(s, a.from), name, value);
    }
  }

  /** A name that occurs nowhere, in any case, is never found. */
  lemma {:induction false} MissingNameNotFound(s: seq<char>, line: nat, name: seq<char>, value: Option<seq<char>>)
    requires line <= |s| && NoNul(name) && 0 < |name| && TextArg(value)
    requires forall k :: 0 <= k <= |s| ==> !MatchesNoCase(s, k, name)
    ensures FoundItem(s, line, Some(name), value).None?
    decreases |s| - line
  {
    if At(s, line) != NUL {
      var a := LineAttempt(s, line, Some(name), value);
      var l := LTrimPos(s, line, WhiteSpace);
      var l2 := LTrimPos(s, l, SpaceTab);
      assert !MatchesNoCase(s, l2, name);
      assert a.Missed?;
      LTrimSkipsChaff(s, line, WhiteSpace);
      NextLineAdvances(s, line, a.from);
      EndShift(s, line, a.from);
      MissingNameNotFound(s, NextLinePos(s, a.from), name, value);
    }
  }
}
