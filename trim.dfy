/** The cursor helpers of trim.h (shared by RCUpdater.h, which carries the same LTrim and
    NextLine): each walks a position forward over a zero-terminated buffer and never
    writes it. Each is specified by a function on positions and implemented by the loop
    the source has. */
module Trim {
  import opened CString

  /** The space/tab chaff set the scanners use */
  const SpaceTab: seq<char> := " \t"

  /** The characters `isspace` accepts, written as a chaff set */
  const WhiteSpace: seq<char> := [' ', '\t', '\n', 11 as char, 12 as char, '\r']

  lemma WhiteSpaceIsSpace(c: char)
    ensures c in WhiteSpace <==> IsSpace(c)
  {
  }

  // ---------------------------------------------------------------------------
  // Specification functions
  // ---------------------------------------------------------------------------

  /** The first position at or after `p` whose character is not in `chaff` (or the terminator) */
  function LTrimPos(s: seq<char>, p: nat, chaff: seq<char>): (r: nat)
    requires p <= |s|
    ensures p <= r <= End(s, p)
    decreases |s| - p
  {
    if At(s, p) != NUL && At(s, p) in chaff then LTrimPos(s, p + 1, chaff) else p
  }

  /** The first position at or after `p` whose character is in `stops` (or the terminator) */
  function LSkipToPos(s: seq<char>, p: nat, stops: seq<char>): (r: nat)
    requires p <= |s|
    ensures p <= r <= End(s, p)
    decreases |s| - p
  {
    if At(s, p) == NUL || At(s, p) in stops then p else LSkipToPos(s, p + 1, stops)
  }

  /** Just past the first line feed at or after `p`, or the terminator */
  function NextLinePos(s: seq<char>, p: nat): (r: nat)
    requires p <= |s|
    ensures p <= r <= End(s, p)
    ensures At(s, p) != NUL ==> p < r
  {
    var q := LSkipToPos(s, p, "\n");
    if At(s, q) != NUL then q + 1 else q
  }

  /** Past a quoted string: unchanged when not at a quote, past the closing quote, or the terminator */
  function SkipStringPos(s: seq<char>, p: nat): (r: nat)
    requires p <= |s|
    ensures p <= r <= End(s, p)
  {
    if At(s, p) != '"' then p
    else
      var q := LSkipToPos(s, p + 1, "\"");
      if At(s, q) == '"' then q + 1 else q
  }

  /** The first whitespace character at or after `p`, or the terminator */
  function SkipWordPos(s: seq<char>, p: nat): (r: nat)
    requires p <= |s|
    ensures p <= r <= End(s, p)
  {
    LSkipToPos(s, p, WhiteSpace)
  }

  function SkipTextItemPos(s: seq<char>, p: nat): (r: nat)
    requires p <= |s|
    ensures p <= r <= End(s, p)
  {
    if At(s, p) == '"' then SkipStringPos(s, p) else SkipWordPos(s, p)
  }

  // ---------------------------------------------------------------------------
  // What the specification functions mean
  // ---------------------------------------------------------------------------

  /** LTrim skips only chaff and stops at the first non-chaff character or the terminator. */
  lemma {:induction false} LTrimSkipsChaff(s: seq<char>, p: nat, chaff: seq<char>)
    requires p <= |s|
    ensures var r := LTrimPos(s, p, chaff);
      (forall k :: p <= k < r ==> s[k] != NUL && s[k] in chaff) &&
      (At(s, r) == NUL || At(s, r) !in chaff)
    decreases |s| - p
  {
    if At(s, p) != NUL && At(s, p) in chaff {
      LTrimSkipsChaff(s, p + 1, chaff);
    }
  }

  /** Trimming twice is trimming once. */
  lemma LTrimIdempotent(s: seq<char>, p: nat, chaff: seq<char>)
    requires p <= |s|
    ensures LTrimPos(s, LTrimPos(s, p, chaff), chaff) == LTrimPos(s, p, chaff)
  {
    LTrimSkipsChaff(s, p, chaff);
  }

  /** An empty chaff set leaves the position where it is. */
  lemma LTrimEmptyChaff(s: seq<char>, p: nat)
    requires p <= |s|
    ensures LTrimPos(s, p, []) == p
  {
  }

  /** LSkipTo passes only characters outside `stops` and stops at one inside it or at the terminator. */
  lemma {:induction false} LSkipToStops(s: seq<char>, p: nat, stops: seq<char>)
    requires p <= |s|
    ensures var r := LSkipToPos(s, p, stops);
      (forall k :: p <= k < r ==> s[k] != NUL && s[k] !in stops) &&
      (At(s, r) == NUL || At(s, r) in stops)
    decreases |s| - p
  {
    if At(s, p) != NUL && At(s, p) !in stops {
      LSkipToStops(s, p + 1, stops);
    }
  }

  /** The first character at or after `p` outside `chaff` decides LTrim: any position between
      `p` and it trims to it. */
  lemma {:induction false} LTrimFrom(s: seq<char>, p: nat, q: nat, chaff: seq<char>)
    requires p <= |s| && p <= q <= LTrimPos(s, p, chaff)
    ensures LTrimPos(s, q, chaff) == LTrimPos(s, p, chaff)
    decreases q - p
  {
    if p < q {
      LTrimFrom(s, p + 1, q, chaff);
    }
  }

  /** NextLine lands just past the first line feed, or on the terminator when there is none. */
  lemma NextLineAfterLineFeed(s: seq<char>, p: nat)
    requires p <= |s|
    ensures var r := NextLinePos(s, p);
      (r == End(s, p) && forall k :: p <= k < r ==> s[k] != '\n') ||
      (p < r <= End(s, p) && s[r - 1] == '\n' && forall k :: p <= k < r - 1 ==> s[k] != '\n')
  {
    LSkipToStops(s, p, "\n");
    var q := LSkipToPos(s, p, "\n");
    if At(s, q) == NUL {
      StrlenIs(s, p, q - p);
    }
  }

  /** A line ends at a line feed or at the terminator. */
  lemma NextLineEnds(s: seq<char>, p: nat)
    requires p <= |s|
    ensures NextLinePos(s, p) == End(s, p) || s[NextLinePos(s, p) - 1] == '\n'
  {
    NextLineAfterLineFeed(s, p);
  }

  /** SkipString: unchanged off a quote, past the closing quote, or to the terminator when unterminated. */
  lemma SkipStringCases(s: seq<char>, p: nat)
    requires p <= |s|
    ensures At(s, p) != '"' ==> SkipStringPos(s, p) == p
    ensures At(s, p) == '"' ==> var r := SkipStringPos(s, p);
      (p + 1 < r && s[r - 1] == '"' && forall k :: p < k < r - 1 ==> s[k] != '"') ||
      (r == End(s, p) && forall k :: p < k < r ==> s[k] != '"')
  {
    if At(s, p) == '"' {
      LSkipToStops(s, p + 1, "\"");
      var q := LSkipToPos(s, p + 1, "\"");
      if At(s, q) == NUL {
        StrlenIs(s, p, q - p);
      }
    }
  }

  /** SkipWord stops at the first whitespace character or the terminator. */
  lemma SkipWordStops(s: seq<char>, p: nat)
    requires p <= |s|
    ensures var r := SkipWordPos(s, p);
      (forall k :: p <= k < r ==> s[k] != NUL && !IsSpace(s[k])) &&
      (At(s, r) == NUL || IsSpace(At(s, r)))
  {
    LSkipToStops(s, p, WhiteSpace);
    forall c: char ensures c in WhiteSpace <==> IsSpace(c) {
      WhiteSpaceIsSpace(c);
    }
  }

  // ---------------------------------------------------------------------------
  // The loops
  // ---------------------------------------------------------------------------

  /** `LTrim(psz, chaff)`: skip characters that occur in `chaff` */
  method LTrim(s: seq<char>, p: nat, chaff: seq<char>) returns (r: nat)
    requires p <= |s|
    ensures r == LTrimPos(s, p, chaff)
  {
    r := p;
    while At(s, r) != NUL
      invariant p <= r <= |s|
      invariant LTrimPos(s, r, chaff) == LTrimPos(s, p, chaff)
      decreases |s| - r
    {
      if At(s, r) !in chaff {
        break;
      }
      r := r + 1;
    }
  }

  /** `LTrim(text)`: skip characters `isspace` accepts, line ends included */
  method LTrimSpace(s: seq<char>, p: nat) returns (r: nat)
    requires p <= |s|
    ensures r == LTrimPos(s, p, WhiteSpace)
  {
    r := p;
    while At(s, r) != NUL && IsSpace(At(s, r))
      invariant p <= r <= |s|
      invariant LTrimPos(s, r, WhiteSpace) == LTrimPos(s, p, WhiteSpace)
      decreases |s| - r
    {
      WhiteSpaceIsSpace(At(s, r));
      r := r + 1;
    }
    WhiteSpaceIsSpace(At(s, r));
  }

  /** `LSkipTo(psz, chaff)` of RCUpdater.h: stop at the first character that occurs in `stops` */
  method LSkipTo(s: seq<char>, p: nat, stops: seq<char>) returns (r: nat)
    requires p <= |s|
    ensures r == LSkipToPos(s, p, stops)
  {
    r := p;
    while At(s, r) != NUL
      invariant p <= r <= |s|
      invariant LSkipToPos(s, r, stops) == LSkipToPos(s, p, stops)
      decreases |s| - r
    {
      if At(s, r) in stops {
        return;
      }
      r := r + 1;
    }
  }

  method NextLine(s: seq<char>, p: nat) returns (r: nat)
    requires p <= |s|
    ensures r == NextLinePos(s, p)
  {
    r := p;
    while At(s, r) != NUL && At(s, r) != '\n'
      invariant p <= r <= |s|
      invariant LSkipToPos(s, r, "\n") == LSkipToPos(s, p, "\n")
      decreases |s| - r
    {
      r := r + 1;
    }
    if At(s, r) != NUL {
      r := r + 1;
    }
  }

  method SkipString(s: seq<char>, p: nat) returns (r: nat)
    requires p <= |s|
    ensures r == SkipStringPos(s, p)
  {
    r := p;
    if At(s, r) != '"' {
      return;
    }
    r := r + 1;
    while At(s, r) != NUL && At(s, r) != '"'
      invariant p < r <= |s|
      invariant LSkipToPos(s, r, "\"") == LSkipToPos(s, p + 1, "\"")
      decreases |s| - r
    {
      r := r + 1;
    }
    if At(s, r) == '"' {
      r := r + 1;
    }
  }

  method SkipWord(s: seq<char>, p: nat) returns (r: nat)
    requires p <= |s|
    ensures r == SkipWordPos(s, p)
  {
    r := p;
    while At(s, r) != NUL && !IsSpace(At(s, r))
      invariant p <= r <= |s|
      invariant LSkipToPos(s, r, WhiteSpace) == LSkipToPos(s, p, WhiteSpace)
      decreases |s| - r
    {
      WhiteSpaceIsSpace(At(s, r));
      r := r + 1;
    }
    WhiteSpaceIsSpace(At(s, r));
  }

  method SkipTextItem(s: seq<char>, p: nat) returns (r: nat)
    requires p <= |s|
    ensures r == SkipTextItemPos(s, p)
  {
    if At(s, p) == '"' {
      r := SkipString(s, p);
    } else {
      r := SkipWord(s, p);
    }
  }
}
