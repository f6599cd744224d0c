/** Where `RCUpdater` finds the version fields of a resource script: `FindStartOfVersion` looks for
    the line that declares `VERSIONINFO`, and `FindVersionStrings` walks the lines after it against
    the keyword table, collecting the offset of every version field in document order. */
module VersionLocator {
  import opened Wrappers
  import opened CString
  import opened Trim

  const VersionInfo: seq<char> := "VERSIONINFO"

  /** The keyword table of `GetKeywordTable`. The first character of an entry is its code:
      `'-'` a fixed-info keyword the version follows, `'+'` a keyword a value name follows,
      `' '` a keyword that carries no version, `'"'` a value name (the entry is the quoted name). */
  const KeywordTable: seq<seq<char>> := [
    "-PRODUCTVERSION",
    "-FILEVERSION",
    " FILEFLAGSMASK",
    " FILEFLAGS",
    " FILEOS",
    " FILETYPE",
    " FILESUBTYPE",
    " BEGIN",
    " BLOCK",
    " END",
    "+VALUE",
    "\"FileVersion\"",
    "\"ProductVersion\""
  ]

  /** The separators FindVersionStrings skips after a value name */
  const NameChaff: seq<char> := [',', ' ', '\t']

  /** Every entry carries a code and no terminator. */
  predicate WellFormedTable(table: seq<seq<char>>)
  {
    forall i :: 0 <= i < |table| ==> 0 < |table[i]| && NoNul(table[i])
  }

  lemma KeywordTableWellFormed()
    ensures WellFormedTable(KeywordTable)
  {
    forall i | 0 <= i < |KeywordTable| ensures 0 < |KeywordTable[i]| && NoNul(KeywordTable[i]) {
      var e := KeywordTable[i];
      forall k | 0 <= k < |e| ensures e[k] != NUL {
      }
    }
  }

  // ---------------------------------------------------------------------------
  // FindStartOfVersion
  // ---------------------------------------------------------------------------

  /** The cursor FindStartOfVersion tests on the line at `p`: past space/tab, on to the next space
      or tab (a run that may pass line feeds), and past space/tab again */
  function KeywordPos(s: seq<char>, p: nat): (r: nat)
    requires p <= |s|
    ensures p <= r <= End(s, p)
  {
    var a := LTrimPos(s, p, SpaceTab);
    EndShift(s, p, a);
    var b := LSkipToPos(s, a, SpaceTab);
    EndShift(s, a, b);
    LTrimPos(s, b, SpaceTab)
  }

  /** `VERSIONINFO` at `w`, followed by a character whose low byte is at most a space */
  predicate VersionInfoAt(s: seq<char>, w: nat)
  {
    Matches(s, w, VersionInfo) && LowByte(At(s, w + |VersionInfo|)) <= 32
  }

  /** The offset of the line after the first tested cursor, from `line` on, that is on
      `VERSIONINFO`; 0 when there is none */
  function StartOfVersion(s: seq<char>, line: nat): (r: nat)
    requires line <= |s|
    ensures r == 0 || line < r <= End(s, line)
    decreases |s| - line
  {
    if At(s, line) == NUL then 0
    else
      var w := KeywordPos(s, line);
      var next := NextLinePos(s, w);
      EndShift(s, line, w);
      EndShift(s, line, next);
      if VersionInfoAt(s, w) then next else StartOfVersion(s, next)
  }

  method FindStartOfVersion(s: seq<char>) returns (r: nat)
    ensures r == StartOfVersion(s, 0)
  {
    var line := 0;
    while At(s, line) != NUL
      invariant line <= |s|
      invariant StartOfVersion(s, line) == StartOfVersion(s, 0)
      decreases |s| - line
    {
      var found, next := TestLine(s, line);
      if found {
        return next;
      }
      line := next;
    }
    return 0;
  }

  /** One pass of FindStartOfVersion's loop: whether the line at `line` declares `VERSIONINFO`,
      and where the next line starts */
  method TestLine(s: seq<char>, line: nat) returns (found: bool, next: nat)
    requires line <= |s|
    ensures found == VersionInfoAt(s, KeywordPos(s, line))
    ensures next == NextLinePos(s, KeywordPos(s, line))
  {
    var length := |VersionInfo|;
    var cur := LTrim(s, line, SpaceTab);
    cur := LSkipTo(s, cur, SpaceTab);
    cur := LTrim(s, cur, SpaceTab);
    found := Matches(s, cur, VersionInfo);
    found := found && LowByte(At(s, cur + length)) <= 32;
    next := NextLine(s, cur);
  }

  /** Without `VERSIONINFO` anywhere in the text there is no version block. */
  lemma {:induction false} NoVersionInfoNoStart(s: seq<char>, line: nat)
    requires line <= |s|
    requires forall k :: line <= k <= |s| ==> !Matches(s, k, VersionInfo)
    ensures StartOfVersion(s, line) == 0
    decreases |s| - line
  {
    if At(s, line) != NUL {
      var w := KeywordPos(s, line);
      var next := NextLinePos(s, w);
      if !VersionInfoAt(s, w) {
        NoVersionInfoNoStart(s, next);
      }
    }
  }

  /** A keyword without line feeds found at `w` lies on the line of `w`. */
  lemma MatchOnLine(s: seq<char>, w: nat, keyword: seq<char>)
    requires w <= |s| && Matches(s, w, keyword)
    requires NoNul(keyword) && forall k :: 0 <= k < |keyword| ==> keyword[k] != '\n'
    ensures w + |keyword| <= End(s, w) && w + |keyword| <= LSkipToPos(s, w, "\n")
  {
    MatchInsideString(s, w, keyword);
    LSkipToStops(s, w, "\n");
    forall k | w <= k < w + |keyword| ensures s[k] != NUL && s[k] != '\n' {
      assert s[w + (k - w)] == keyword[k - w];
    }
  }

  /** A found start is the line after one whose keyword position holds `VERSIONINFO`: it is
      `NextLinePos` of the match, past the whole keyword. */
  lemma {:induction false} StartFollowsVersionInfo(s: seq<char>, line: nat) returns (w: nat)
    requires line <= |s| && StartOfVersion(s, line) != 0
    ensures line <= w && w + |VersionInfo| <= StartOfVersion(s, line)
    ensures Matches(s, w, VersionInfo) && StartOfVersion(s, line) == NextLinePos(s, w)
    decreases |s| - line
  {
    var k := KeywordPos(s, line);
    var next := NextLinePos(s, k);
    EndShift(s, line, k);
    if VersionInfoAt(s, k) {
      assert StartOfVersion(s, line) == next;
      MatchOnLine(s, k, VersionInfo);
      w := k;
    } else {
      assert StartOfVersion(s, line) == StartOfVersion(s, next);
      EndShift(s, line, next);
      w := StartFollowsVersionInfo(s, next);
    }
  }

  // ---------------------------------------------------------------------------
  // FindVersionStrings
  // ---------------------------------------------------------------------------

  /** The outcome of the keyword loop on one line: whether a keyword was found (the scan stops
      otherwise), where the cursor stands, and the offset recorded, if any */
  datatype LineScan = LineScan(found: bool, line: nat, offset: Option<nat>)

  /** The value-name loop after `VALUE`, from table entry `vx` on. A name that matches but is
      followed by nothing above a space moves the cursor past it and its separators anyway. */
  function NameScan(table: seq<seq<char>>, s: seq<char>, line: nat, vx: nat): (r: LineScan)
    requires WellFormedTable(table) && line <= |s| && vx <= |table|
    ensures r.found && line <= r.line <= End(s, line)
    ensures r.offset.Some? ==> r.offset.value == r.line
    decreases |table| - vx
  {
    if vx == |table| then LineScan(true, line, None)
    else
      var name := table[vx];
      if name[0] != '"' || !Matches(s, line, name) then NameScan(table, s, line, vx + 1)
      else
        MatchInsideString(s, line, name);
        EndShift(s, line, line + |name|);
        var l := LTrimPos(s, line + |name|, NameChaff);
        EndShift(s, line, l);
        if At(s, l) <= ' ' then NameScan(table, s, l, vx + 1)
        else
          var q := if At(s, l) == '"' then l + 1 else l;
          EndShift(s, line, q);
          var o := LTrimPos(s, q, SpaceTab);
          LineScan(true, o, Some(o))
  }

  /** The keyword loop on a trimmed line, from table entry `ndx` on */
  function KeywordScan(table: seq<seq<char>>, s: seq<char>, line: nat, ndx: nat): (r: LineScan)
    requires WellFormedTable(table) && line <= |s| && ndx <= |table|
    requires LTrimPos(s, line, SpaceTab) == line
    ensures line <= r.line <= End(s, line)
    ensures r.offset.Some? ==> r.found && r.offset.value == r.line
    decreases |table| - ndx
  {
    if ndx == |table| then LineScan(false, line, None)
    else
      var code, keyword := table[ndx][0], table[ndx][1..];
      if code == '"' || !Matches(s, line, keyword) || ' ' < At(s, line + |keyword|) then
        KeywordScan(table, s, line, ndx + 1)
      else
        // the line is trimmed already, so `l` is `line`
        var l := LTrimPos(s, line, SpaceTab);
        assert NoNul(keyword) by {
          assert forall k :: 0 <= k < |keyword| ==> keyword[k] == table[ndx][k + 1];
        }
        MatchInsideString(s, l, keyword);
        EndShift(s, line, l + |keyword|);
        if code == '-' then
          var o := LTrimPos(s, l + |keyword|, SpaceTab);
          LineScan(true, o, Some(o))
        else if code == '+' then
          var a := LSkipToPos(s, l, SpaceTab);
          EndShift(s, line, a);
          var w := LTrimPos(s, a, SpaceTab);
          EndShift(s, line, w);
          NameScan(table, s, w, 0)
        else if code == ' ' then LineScan(true, l, None)
        else KeywordScan(table, s, l, ndx + 1)
  }

  /** A `//` or `#` line, tested at the trimmed cursor */
  predicate CommentAt(s: seq<char>, l: nat)
  {
    At(s, l) == '#' || (At(s, l) == '/' && At(s, l + 1) == '/')
  }

  /** The outcome of one pass of the line loop: whether the scan goes on, the offset recorded,
      and the line it goes on with */
  datatype LineStep = LineStep(found: bool, offset: Option<nat>, next: nat)

  /** One pass of FindVersionStrings' line loop on the line at `line`: comment lines are passed
      over; otherwise the keyword loop runs on the trimmed line and the scan goes on past the line
      feed after where it stopped. */
  function ScanLine(table: seq<seq<char>>, s: seq<char>, line: nat): (r: LineStep)
    requires WellFormedTable(table) && line <= |s| && At(s, line) != NUL
    ensures line < r.next <= End(s, line)
    ensures r.offset.Some? ==> r.found && line <= r.offset.value <= End(s, line)
    ensures r.offset.Some? ==> r.next == NextLinePos(s, r.offset.value)
  {
    var l := LTrimPos(s, line, SpaceTab);
    LTrimIdempotent(s, line, SpaceTab);
    EndShift(s, line, l);
    if CommentAt(s, l) then LineStep(true, None, NextLinePos(s, l))
    else
      var k := KeywordScan(table, s, l, 0);
      EndShift(s, line, k.line);
      LineStep(k.found, k.offset, NextLinePos(s, k.line))
  }

  /** FindVersionStrings from `line` on: the offsets of the version fields, in document order */
  function VersionOffsets(table: seq<seq<char>>, s: seq<char>, line: nat): seq<nat>
    requires WellFormedTable(table) && line <= |s|
    decreases |s| - line
  {
    if At(s, line) == NUL then []
    else
      var r := ScanLine(table, s, line);
      if !r.found then []
      else
        EndShift(s, line, r.next);
        Recorded(r) + VersionOffsets(table, s, r.next)
  }

  /** The offset a pass of the line loop appends, if any */
  function Recorded(r: LineStep): (offs: seq<nat>)
    ensures |offs| <= 1 && (r.offset.Some? <==> |offs| == 1)
    ensures r.offset.Some? ==> offs[0] == r.offset.value
  {
    if r.offset.Some? then [r.offset.value] else []
  }

  /** One pass of the line loop, unfolded */
  lemma VersionOffsetsStep(table: seq<seq<char>>, s: seq<char>, line: nat)
    requires WellFormedTable(table) && line <= |s| && At(s, line) != NUL
    ensures var r := ScanLine(table, s, line);
      VersionOffsets(table, s, line) == if r.found then Recorded(r) + VersionOffsets(table, s, r.next) else []
  {
  }

  // ---------------------------------------------------------------------------
  // What one line contributes
  // ---------------------------------------------------------------------------

  /** Entry `i` does not claim the trimmed line at `l`: a value name, a keyword that does not
      match, or one glued to a character above a space */
  predicate PassedOver(table: seq<seq<char>>, s: seq<char>, l: nat, i: nat)
    requires i < |table| && 0 < |table[i]|
  {
    table[i][0] == '"' || !Matches(s, l, table[i][1..]) || ' ' < At(s, l + |table[i][1..]|)
  }

  /** Entries that all pass over the line leave the keyword loop where it was. */
  lemma {:induction false} KeywordScanPasses(table: seq<seq<char>>, s: seq<char>, l: nat, ndx: nat, m: nat)
    requires WellFormedTable(table) && l <= |s| && LTrimPos(s, l, SpaceTab) == l && ndx <= m <= |table|
    requires forall i :: ndx <= i < m ==> PassedOver(table, s, l, i)
    ensures KeywordScan(table, s, l, ndx) == KeywordScan(table, s, l, m)
    decreases m - ndx
  {
    if ndx < m {
      assert PassedOver(table, s, l, ndx);
      KeywordScanPasses(table, s, l, ndx + 1, m);
    }
  }

  /** A trimmed line that no entry claims is no keyword line: the loop reports nothing found. */
  lemma NoKeywordNotFound(table: seq<seq<char>>, s: seq<char>, l: nat)
    requires WellFormedTable(table) && l <= |s| && LTrimPos(s, l, SpaceTab) == l
    requires forall i :: 0 <= i < |table| ==> PassedOver(table, s, l, i)
    ensures KeywordScan(table, s, l, 0) == LineScan(false, l, None)
  {
    KeywordScanPasses(table, s, l, 0, |table|);
  }

  /** The trimmed start of the line at `line` */
  function Trimmed(s: seq<char>, line: nat): (l: nat)
    requires line <= |s|
    ensures line <= l <= End(s, line) && LTrimPos(s, l, SpaceTab) == l
  {
    LTrimIdempotent(s, line, SpaceTab);
    LTrimPos(s, line, SpaceTab)
  }

  /** A `#` or `//` line adds no offset, and the scan goes on with the next line. */
  lemma CommentLinePassed(table: seq<seq<char>>, s: seq<char>, line: nat)
    requires WellFormedTable(table) && line <= |s| && At(s, line) != NUL && CommentAt(s, Trimmed(s, line))
    ensures var next := NextLinePos(s, Trimmed(s, line));
      line < next <= |s| && VersionOffsets(table, s, line) == VersionOffsets(table, s, next)
  {
    var r := ScanLine(table, s, line);
    assert r == LineStep(true, None, NextLinePos(s, Trimmed(s, line)));
    assert Recorded(r) == [];
  }

  /** A line that is not a comment and whose first word is no keyword of the table ends the scan:
      nothing on it or after it is recorded. */
  lemma KeywordlessLineEnds(table: seq<seq<char>>, s: seq<char>, line: nat)
    requires WellFormedTable(table) && line <= |s| && At(s, line) != NUL
    requires !CommentAt(s, Trimmed(s, line))
    requires forall i :: 0 <= i < |table| ==> PassedOver(table, s, Trimmed(s, line), i)
    ensures VersionOffsets(table, s, line) == []
  {
    NoKeywordNotFound(table, s, Trimmed(s, line));
  }

  /** An entry of `GetKeywordTable` whose `k`th character is not the line's passes over it. */
  lemma LetterPasses(s: seq<char>, l: nat, j: nat, k: nat)
    requires j < |KeywordTable| && 0 < k < |KeywordTable[j]| && At(s, l + k - 1) != KeywordTable[j][k]
    ensures PassedOver(KeywordTable, s, l, j)
  {
    assert KeywordTable[j][1..][k - 1] == KeywordTable[j][k];
  }

  /** With the table of `GetKeywordTable`, a line whose first character after spaces and tabs is
      no capital letter and starts no comment — a blank line among them — ends the scan. */
  lemma BlankLineEnds(s: seq<char>, line: nat)
    requires line <= |s| && At(s, line) != NUL
    requires !CommentAt(s, Trimmed(s, line)) && !('A' <= At(s, Trimmed(s, line)) <= 'Z')
    ensures (KeywordTableWellFormed(); VersionOffsets(KeywordTable, s, line) == [])
  {
    KeywordTableWellFormed();
    var l := Trimmed(s, line);
    forall j | 0 <= j < |KeywordTable| ensures PassedOver(KeywordTable, s, l, j) {
      if j < 11 {
        LetterPasses(s, l, j, 1);
      }
    }
    KeywordlessLineEnds(KeywordTable, s, line);
  }

  /** `PRODUCTVERSION` (entry 0) or `FILEVERSION` (entry 1) at the start of a trimmed line and
      followed by a character no greater than a space records the position after it and the
      spaces and tabs that follow. */
  lemma FixedKeywordOffset(s: seq<char>, l: nat, i: nat)
    requires l <= |s| && LTrimPos(s, l, SpaceTab) == l && i < 2
    requires Matches(s, l, KeywordTable[i][1..]) && At(s, l + |KeywordTable[i][1..]|) <= ' '
    ensures (KeywordTableWellFormed(); var o := LTrimPos(s, l + |KeywordTable[i][1..]|, SpaceTab);
      KeywordScan(KeywordTable, s, l, 0) == LineScan(true, o, Some(o)))
  {
    KeywordTableWellFormed();
    if i == 1 {
      assert KeywordTable[1][1..][0] == 'F';
      LetterPasses(s, l, 0, 1);
    }
  }

  /** Where `PRODUCTVERSION` or `FILEVERSION` starts a trimmed line, no other keyword of
      `GetKeywordTable` does: the first letters differ, and for the `FILE` keywords the fifth. */
  lemma OthersPassOver(s: seq<char>, l: nat, i: nat)
    requires i < 2 && Matches(s, l, KeywordTable[i][1..])
    ensures forall j :: 0 <= j < |KeywordTable| && j != i ==> PassedOver(KeywordTable, s, l, j)
  {
    assert KeywordTable[i][1..][0] == KeywordTable[i][1] && KeywordTable[i][1..][4] == KeywordTable[i][5];
    forall j | 0 <= j < |KeywordTable| && j != i ensures PassedOver(KeywordTable, s, l, j) {
      if 11 <= j {
      } else if i == 1 && 2 <= j <= 6 {
        LetterPasses(s, l, j, 5);
      } else {
        LetterPasses(s, l, j, 1);
      }
    }
  }

  /** The same keyword glued to what follows it (`FILEVERSIONX`) is no keyword: the scan ends on
      that line with nothing recorded. */
  lemma GluedKeywordEnds(s: seq<char>, line: nat, i: nat)
    requires line <= |s| && At(s, line) != NUL && i < 2
    requires Matches(s, Trimmed(s, line), KeywordTable[i][1..])
    requires ' ' < At(s, Trimmed(s, line) + |KeywordTable[i][1..]|)
    ensures (KeywordTableWellFormed(); VersionOffsets(KeywordTable, s, line) == [])
  {
    KeywordTableWellFormed();
    var l := Trimmed(s, line);
    OthersPassOver(s, l, i);
    assert PassedOver(KeywordTable, s, l, i);
    assert KeywordTable[i][1..][0] == KeywordTable[i][1];
    KeywordlessLineEnds(KeywordTable, s, line);
  }

  /** Entries that are not value names leave the value-name loop where it was. */
  lemma {:induction false} NameScanPasses(table: seq<seq<char>>, s: seq<char>, w: nat, vx: nat, m: nat)
    requires WellFormedTable(table) && w <= |s| && vx <= m <= |table|
    requires forall i :: vx <= i < m ==> table[i][0] != '"'
    ensures NameScan(table, s, w, vx) == NameScan(table, s, w, m)
    decreases m - vx
  {
    if vx < m {
      NameScanPasses(table, s, w, vx + 1, m);
    }
  }

  /** `VALUE` at the start of a trimmed line, followed by a character no greater than a space,
      runs the value-name loop at the next word: the cursor first goes to the next space or tab
      — past line feeds if need be — and then past spaces and tabs. */
  lemma ValueKeywordNames(s: seq<char>, l: nat)
    requires l <= |s| && LTrimPos(s, l, SpaceTab) == l
    requires Matches(s, l, "VALUE") && At(s, l + 5) <= ' '
    ensures (KeywordTableWellFormed(); var w := LTrimPos(s, LSkipToPos(s, l, SpaceTab), SpaceTab);
      w <= |s| && KeywordScan(KeywordTable, s, l, 0) == NameScan(KeywordTable, s, w, 0))
  {
    KeywordTableWellFormed();
    assert "VALUE"[0] == 'V';
    forall j | 0 <= j < 10 ensures PassedOver(KeywordTable, s, l, j) {
      LetterPasses(s, l, j, 1);
    }
    KeywordScanPasses(KeywordTable, s, l, 0, 10);
    assert KeywordTable[10][1..] == "VALUE";
  }

  /** A value name of the table at the cursor, followed by separators and then something above a
      space, records the position after the separators, an optional opening quote and the spaces
      and tabs after it. */
  lemma NameOffset(table: seq<seq<char>>, s: seq<char>, w: nat, vx: nat, n: nat)
    requires WellFormedTable(table) && w <= |s| && vx < |table| && table[vx][0] == '"'
    requires Matches(s, w, table[vx]) && n == LTrimPos(s, w + |table[vx]|, NameChaff) && ' ' < At(s, n)
    ensures var o := LTrimPos(s, if At(s, n) == '"' then n + 1 else n, SpaceTab);
      w + |table[vx]| <= n <= o && (At(s, n) == '"' ==> n < o) &&
      NameScan(table, s, w, vx) == LineScan(true, o, Some(o))
  {
  }

  /** The first eleven entries of `GetKeywordTable` are keywords, the last two value names. */
  lemma KeywordsBeforeNames()
    ensures forall i :: 0 <= i < 11 ==> KeywordTable[i][0] != '"'
    ensures forall i :: 11 <= i < |KeywordTable| ==> KeywordTable[i][0] == '"'
  {
  }

  /** After `VALUE`, the name `"FileVersion"` (entry 11) or `"ProductVersion"` (entry 12) at the
      cursor, followed by separators and then something above a space, records the position after
      the name, the separators, an optional opening quote and the spaces and tabs after it. */
  lemma ValueNameOffset(s: seq<char>, w: nat, j: nat, n: nat)
    requires w <= |s| && 11 <= j < 13 && Matches(s, w, KeywordTable[j])
    requires n == LTrimPos(s, w + |KeywordTable[j]|, NameChaff) && ' ' < At(s, n)
    ensures (KeywordTableWellFormed(); var o := LTrimPos(s, if At(s, n) == '"' then n + 1 else n, SpaceTab);
      w + |KeywordTable[j]| <= n <= o && (At(s, n) == '"' ==> n < o) &&
      NameScan(KeywordTable, s, w, 0) == LineScan(true, o, Some(o)))
  {
    KeywordTableWellFormed();
    KeywordsBeforeNames();
    NamesFromStart(s, w, j);
    NameOffset(KeywordTable, s, w, j, n);
  }

  /** The value-name loop reaches the entry that matches at the cursor. */
  lemma NamesFromStart(s: seq<char>, w: nat, j: nat)
    requires w <= |s| && 11 <= j < 13 && Matches(s, w, KeywordTable[j])
    ensures (KeywordTableWellFormed(); NameScan(KeywordTable, s, w, 0) == NameScan(KeywordTable, s, w, j))
  {
    KeywordTableWellFormed();
    KeywordsBeforeNames();
    NameScanPasses(KeywordTable, s, w, 0, 11);
    if j == 12 {
      assert s[w + 1] == KeywordTable[12][1] && KeywordTable[11][1] == 'F';
      assert NameScan(KeywordTable, s, w, 11) == NameScan(KeywordTable, s, w, 12);
    }
  }

  /** Every offset lies between `lo` and `hi` */
  predicate Within(offs: seq<nat>, lo: nat, hi: nat)
  {
    forall i :: 0 <= i < |offs| ==> lo <= offs[i] <= hi
  }

  /** Consecutive offsets lie on different lines */
  predicate OnSeparateLines(s: seq<char>, offs: seq<nat>)
  {
    forall i :: 0 <= i < |offs| - 1 ==> offs[i] <= |s| && LinesApart(s, offs[i], offs[i + 1])
  }

  /** Every offset lies inside the text scanned, before its terminator. */
  lemma {:induction false} VersionOffsetsWithin(table: seq<seq<char>>, s: seq<char>, line: nat)
    requires WellFormedTable(table) && line <= |s|
    ensures Within(VersionOffsets(table, s, line), line, End(s, line))
    decreases |s| - line
  {
    if At(s, line) != NUL {
      var r := ScanLine(table, s, line);
      VersionOffsetsStep(table, s, line);
      if r.found {
        EndShift(s, line, r.next);
        VersionOffsetsWithin(table, s, r.next);
        var h, rest := Recorded(r), VersionOffsets(table, s, r.next);
        forall i | 0 <= i < |h + rest| ensures line <= (h + rest)[i] <= End(s, line) {
          if i >= |h| {
            assert (h + rest)[i] == rest[i - |h|];
          }
        }
      }
    }
  }

  /** `a` and `b` lie on different lines: the line feed that ends the line of `a` comes before `b` */
  predicate LinesApart(s: seq<char>, a: nat, b: nat)
    requires a <= |s|
  {
    a < NextLinePos(s, a) <= b && s[NextLinePos(s, a) - 1] == '\n'
  }

  /** Offsets start a scan of a line that begins at or after `n`: none when the text ends at `n`. */
  lemma VersionOffsetsAtEnd(table: seq<seq<char>>, s: seq<char>, n: nat)
    requires WellFormedTable(table) && n <= |s| && At(s, n) == NUL
    ensures VersionOffsets(table, s, n) == []
  {
  }

  /** Consecutive offsets lie on different lines, so they are strictly increasing and at most one
      comes from each line. */
  lemma {:induction false} VersionOffsetsApart(table: seq<seq<char>>, s: seq<char>, line: nat)
    requires WellFormedTable(table) && line <= |s|
    ensures OnSeparateLines(s, VersionOffsets(table, s, line))
    decreases |s| - line
  {
    if At(s, line) != NUL {
      var r := ScanLine(table, s, line);
      VersionOffsetsStep(table, s, line);
      if r.found {
        VersionOffsetsApart(table, s, r.next);
        VersionOffsetsWithin(table, s, r.next);
        var h, rest := Recorded(r), VersionOffsets(table, s, r.next);
        if r.offset.Some? && 0 < |rest| {
          var o := r.offset.value;
          NextLineEnds(s, o);
          EndShift(s, line, o);
          EndShift(s, line, r.next);
          if r.next == End(s, o) {
            VersionOffsetsAtEnd(table, s, r.next);
          }
          assert LinesApart(s, o, rest[0]);
        }
        ApartCons(s, h, rest);
      }
    }
  }

  /** At most one offset in front of offsets on separate lines, on a line before the first of them */
  lemma ApartCons(s: seq<char>, h: seq<nat>, rest: seq<nat>)
    requires |h| <= 1 && OnSeparateLines(s, rest)
    requires |h| == 1 && 0 < |rest| ==> h[0] <= |s| && LinesApart(s, h[0], rest[0])
    ensures OnSeparateLines(s, h + rest)
  {
    forall i | 0 <= i < |h + rest| - 1
      ensures (h + rest)[i] <= |s| && LinesApart(s, (h + rest)[i], (h + rest)[i + 1])
    {
      if i >= |h| {
        assert (h + rest)[i] == rest[i - |h|] && (h + rest)[i + 1] == rest[i + 1 - |h|];
      } else {
        assert (h + rest)[i + 1] == rest[0];
      }
    }
  }

  method ScanNames(table: seq<seq<char>>, s: seq<char>, line: nat) returns (r: LineScan)
    requires WellFormedTable(table) && line <= |s|
    ensures r == NameScan(table, s, line, 0)
  {
    var cur: nat := line;
    var vx: nat := 0;
    while vx < |table|
      invariant vx <= |table| && cur <= |s|
      invariant NameScan(table, s, cur, vx) == NameScan(table, s, line, 0)
      decreases |table| - vx
    {
      var name := table[vx];
      var chars: nat := |name|;
      if name[0] != '"' || !Matches(s, cur, name) {
        vx := vx + 1;
        continue;
      }
      cur := LTrim(s, cur + chars, NameChaff);
      if At(s, cur) <= ' ' {
        vx := vx + 1;
        continue;
      }
      if At(s, cur) == '"' {
        cur := cur + 1;
      }
      cur := LTrim(s, cur, SpaceTab);
      return LineScan(true, cur, Some(cur));
    }
    return LineScan(true, cur, None);
  }

  method ScanKeywords(table: seq<seq<char>>, s: seq<char>, line: nat) returns (r: LineScan)
    requires WellFormedTable(table) && line <= |s| && LTrimPos(s, line, SpaceTab) == line
    ensures r == KeywordScan(table, s, line, 0)
  {
    var cur: nat := line;
    var ndx: nat := 0;
    while ndx < |table|
      invariant ndx <= |table| && cur == line
      invariant KeywordScan(table, s, cur, ndx) == KeywordScan(table, s, line, 0)
      decreases |table| - ndx
    {
      var code, keyword := table[ndx][0], table[ndx][1..];
      var length: nat := |keyword|;
      if code == '"' || !Matches(s, cur, keyword) || ' ' < At(s, cur + length) {
        ndx := ndx + 1;
        continue;
      }
      cur := LTrim(s, cur, SpaceTab);
      if code == '-' {
        var o := LTrim(s, cur + length, SpaceTab);
        return LineScan(true, o, Some(o));
      }
      if code == '+' {
        cur := LSkipTo(s, cur, SpaceTab);
        cur := LTrim(s, cur, SpaceTab);
        r := ScanNames(table, s, cur);
        return;
      }
      if code == ' ' {
        return LineScan(true, cur, None);
      }
      ndx := ndx + 1;
    }
    return LineScan(false, cur, None);
  }

  /** `FindVersionStrings(buffer, start, offsets)` with `offsets` empty on entry; `keywords` is the
      table `GetKeywordTable` returns */
  method FindVersionStrings(keywords: seq<seq<char>>, s: seq<char>, start: nat) returns (offsets: seq<nat>)
    requires WellFormedTable(keywords) && start <= |s|
    ensures offsets == VersionOffsets(keywords, s, start)
  {
    offsets := [];
    var line := start;
    while At(s, line) != NUL
      invariant line <= |s|
      invariant offsets + VersionOffsets(keywords, s, line) == VersionOffsets(keywords, s, start)
      decreases |s| - line
    {
      var r := ScanOneLine(keywords, s, line);
      VersionOffsetsStep(keywords, s, line);
      if !r.found {
        break;
      }
      ghost var rest := VersionOffsets(keywords, s, r.next);
      if r.offset.Some? {
        assert VersionOffsets(keywords, s, line) == [r.offset.value] + rest;
        assert offsets + ([r.offset.value] + rest) == offsets + [r.offset.value] + rest;
        offsets := offsets + [r.offset.value];
      } else {
        assert VersionOffsets(keywords, s, line) == [] + rest == rest;
      }
      line := r.next;
    }
  }

  /** One pass of FindVersionStrings' line loop */
  method ScanOneLine(keywords: seq<seq<char>>, s: seq<char>, line: nat) returns (r: LineStep)
    requires WellFormedTable(keywords) && line <= |s| && At(s, line) != NUL
    ensures r == ScanLine(keywords, s, line)
  {
    var cur := LTrim(s, line, SpaceTab);
    LTrimIdempotent(s, line, SpaceTab);
    if CommentAt(s, cur) {
      cur := NextLine(s, cur);
      return LineStep(true, None, cur);
    }
    var k := ScanKeywords(keywords, s, cur);
    cur := NextLine(s, k.line);
    return LineStep(k.found, k.offset, cur);
  }
}
