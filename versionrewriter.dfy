/** The version tuple of a resource script as `RCUpdater` reads, rewrites and writes it back:
    `str2int`, `parse`, `format`, `replace` and the override rule of `UpdateVersion`. */
module VersionRewriter {
  import opened Wrappers
  import opened CString
  import opened Decimal
  import opened Trim
  import opened Buffer

  /** A four-part version `major, minor, build, revision` */
  datatype Version = Version(major: nat, minor: nat, build: nat, revision: nat)

  /** A number read by `str2int`, with the cursor after it (and after the chaff it skips) */
  datatype Number = Number(value: nat, next: nat)

  /** A tuple read by `parse`, with `tail` just past the last revision digit */
  datatype Parsed = Parsed(version: Version, tail: nat)

  /** The overrides the caller passes; a negative one means "keep" (or, for the build, "increment") */
  datatype Overrides = Overrides(major: int, minor: int, build: int, revision: int)

  /** The separators `parse` skips after each of the first three numbers */
  const VersionChaff: seq<char> := ['.', ',', ' ', '\t']

  /** What `format` puts between two numbers */
  const Separator: seq<char> := ", "

  /** The capacity of the scratch text `UpdateVersion` formats into */
  const VersionChars: nat := 256

  // ---------------------------------------------------------------------------
  // str2int
  // ---------------------------------------------------------------------------

  /** The end of the run of decimal digits at `p` */
  function DigitRunEnd(s: seq<char>, p: nat): (r: nat)
    requires p <= |s|
    ensures p <= r <= End(s, p)
    ensures !IsDigit(At(s, r))
    decreases |s| - p
  {
    if IsDigit(At(s, p)) then DigitRunEnd(s, p + 1) else p
  }

  /** The run holds digits only. */
  lemma {:induction false} DigitRunDigits(s: seq<char>, p: nat)
    requires p <= |s|
    ensures forall k :: p <= k < DigitRunEnd(s, p) ==> IsDigit(s[k])
    decreases |s| - p
  {
    if IsDigit(At(s, p)) {
      DigitRunDigits(s, p + 1);
    }
  }

  /** `str2int`: nothing unless the cursor is on a digit; otherwise the value of the maximal digit
      run, with the cursor past it and past any following `chaff` (skipped only if `chaff` is
      non-empty). */
  function ReadNumber(s: seq<char>, p: nat, chaff: seq<char>): (r: Option<Number>)
    requires p <= |s|
    ensures r.Some? <==> IsDigit(At(s, p))
    ensures r.Some? ==> p < r.value.next <= End(s, p)
  {
    if !IsDigit(At(s, p)) then None
    else
      var e := DigitRunEnd(s, p);
      EndShift(s, p, e);
      DigitRunDigits(s, p);
      Some(Number(DigitsValue(s, p, e), if |chaff| > 0 then LTrimPos(s, e, chaff) else e))
  }

  /** The base-10 value of the digits from `p` to `e`, most significant first */
  function DigitsValue(s: seq<char>, p: nat, e: nat): nat
    requires p <= e <= |s| && forall k :: p <= k < e ==> IsDigit(s[k])
    decreases e - p
  {
    if e == p then 0 else DigitsValue(s, p, e - 1) * 10 + DigitValue(s[e - 1])
  }

  /** The digits of `d` found at `p` have the value of `d`. */
  lemma {:induction false} DigitsValueOf(s: seq<char>, p: nat, d: seq<char>)
    requires AllDigits(d) && Matches(s, p, d)
    ensures forall k :: p <= k < p + |d| ==> IsDigit(s[k])
    ensures DigitsValue(s, p, p + |d|) == DecimalValue(d)
    decreases |d|
  {
    forall k | p <= k < p + |d| ensures IsDigit(s[k]) {
      assert s[p + (k - p)] == d[k - p];
    }
    if 0 < |d| {
      var d' := d[..|d| - 1];
      assert Matches(s, p, d') by {
        forall k | 0 <= k < |d'| ensures s[p + k] == d'[k] {
          assert d'[k] == d[k];
        }
      }
      DigitsValueOf(s, p, d');
      assert s[p + (|d| - 1)] == d[|d| - 1];
    }
  }

  lemma {:induction false} DigitRunEndIs(s: seq<char>, p: nat, n: nat)
    requires p + n <= |s|
    requires forall k :: p <= k < p + n ==> IsDigit(s[k])
    requires !IsDigit(At(s, p + n))
    ensures DigitRunEnd(s, p) == p + n
    decreases n
  {
    if n > 0 {
      DigitRunEndIs(s, p + 1, n - 1);
    }
  }

  /** A digit run followed by a non-digit reads as its decimal value. */
  lemma ReadsDigits(s: seq<char>, p: nat, d: seq<char>, chaff: seq<char>)
    requires 0 < |d| && AllDigits(d) && Matches(s, p, d)
    requires !IsDigit(At(s, p + |d|))
    ensures ReadNumber(s, p, chaff) ==
      Some(Number(DecimalValue(d), if |chaff| > 0 then LTrimPos(s, p + |d|, chaff) else p + |d|))
  {
    DigitsValueOf(s, p, d);
    assert s[p + 0] == d[0];
    DigitRunEndIs(s, p, |d|);
  }

  /** The decimal text of `n` followed by a non-digit reads back as `n`. */
  lemma ReadsDecimal(s: seq<char>, p: nat, n: nat, chaff: seq<char>)
    requires p + |DecimalText(n)| <= |s|
    requires s[p..p + |DecimalText(n)|] == DecimalText(n)
    requires !IsDigit(At(s, p + |DecimalText(n)|))
    ensures ReadNumber(s, p, chaff) ==
      Some(Number(n, if |chaff| > 0 then LTrimPos(s, p + |DecimalText(n)|, chaff) else p + |DecimalText(n)|))
  {
    var d := DecimalText(n);
    forall k | 0 <= k < |d| ensures s[p + k] == d[k] {
      assert s[p + k] == s[p..p + |d|][k];
    }
    ReadsDigits(s, p, d, chaff);
    DecimalRoundTrip(n);
  }

  method Str2Int(s: seq<char>, p: nat, chaff: seq<char>) returns (r: Option<Number>)
    requires p <= |s|
    ensures r == ReadNumber(s, p, chaff)
  {
    if !IsDigit(At(s, p)) {
      return None;
    }
    var q := p;
    var value := 0;
    DigitRunDigits(s, p);
    while IsDigit(At(s, q))
      invariant p <= q <= DigitRunEnd(s, p)
      invariant DigitRunEnd(s, q) == DigitRunEnd(s, p)
      invariant value == DigitsValue(s, p, q)
      decreases |s| - q
    {
      value := value * 10 + DigitValue(s[q]);
      q := q + 1;
    }
    if |chaff| > 0 {
      q := LTrim(s, q, chaff);
    }
    return Some(Number(value, q));
  }

  // ---------------------------------------------------------------------------
  // parse
  // ---------------------------------------------------------------------------

  /** The values `count` successive reads produced, and the cursor after the last */
  datatype Fields = Fields(values: seq<nat>, next: nat)

  /** `count` successive `str2int` reads: each but the last skips the separators after its
      number, the last skips nothing */
  function ReadFields(s: seq<char>, q: nat, count: nat): (r: Option<Fields>)
    requires q <= |s| && 0 < count
    ensures r.Some? ==> |r.value.values| == count && q < r.value.next <= End(s, q)
    decreases count
  {
    match ReadNumber(s, q, if count == 1 then [] else VersionChaff)
    case None => None
    case Some(n) =>
      if count == 1 then Some(Fields([n.value], n.next))
      else
        EndShift(s, q, n.next);
        match ReadFields(s, n.next, count - 1)
        case None => None
        case Some(f) => Some(Fields([n.value] + f.values, f.next))
  }

  /** One read, then the remaining ones from where it stopped */
  lemma ReadFieldsStep(s: seq<char>, q: nat, count: nat)
    requires q <= |s| && 1 < count
    ensures ReadNumber(s, q, VersionChaff).None? ==> ReadFields(s, q, count).None?
    ensures ReadNumber(s, q, VersionChaff).Some? ==>
      var n := ReadNumber(s, q, VersionChaff).value;
      ReadFields(s, q, count) ==
        if ReadFields(s, n.next, count - 1).None? then None
        else Some(Fields([n.value] + ReadFields(s, n.next, count - 1).value.values,
                         ReadFields(s, n.next, count - 1).value.next))
  {
  }

  /** Where a successful read of several fields stops: where the reads after the first stop */
  lemma ReadFieldsNext(s: seq<char>, q: nat, count: nat)
    requires q <= |s| && 1 < count && ReadFields(s, q, count).Some?
    ensures ReadNumber(s, q, VersionChaff).Some?
    ensures var q' := ReadNumber(s, q, VersionChaff).value.next;
      ReadFields(s, q', count - 1).Some? &&
      ReadFields(s, q, count).value.next == ReadFields(s, q', count - 1).value.next
  {
  }

  /** `parse`: leading space/tab, then major, minor and build each followed by separators, then
      the revision; `tail` is the cursor after the revision. */
  function ParseVersion(s: seq<char>, p: nat): (r: Option<Parsed>)
    requires p <= |s|
    ensures r.Some? ==> p < r.value.tail <= End(s, p)
  {
    var q := LTrimPos(s, p, SpaceTab);
    EndShift(s, p, q);
    match ReadFields(s, q, 4)
    case None => None
    case Some(f) => Some(Parsed(Version(f.values[0], f.values[1], f.values[2], f.values[3]), f.next))
  }

  method Parse(s: seq<char>, p: nat) returns (r: Option<Parsed>)
    requires p <= |s|
    ensures r == ParseVersion(s, p)
  {
    var tail := LTrim(s, p, SpaceTab);
    var major := Str2Int(s, tail, VersionChaff);
    if major.None? {
      return None;
    }
    var q2 := major.value.next;
    var minor := Str2Int(s, q2, VersionChaff);
    if minor.None? {
      return None;
    }
    var q3 := minor.value.next;
    var build := Str2Int(s, q3, VersionChaff);
    if build.None? {
      ReadFieldsStep(s, q2, 3);
      return None;
    }
    var q4 := build.value.next;
    var revision := Str2Int(s, q4, []);
    ReadFieldsStep(s, q3, 2);
    ReadFieldsStep(s, q2, 3);
    if revision.None? {
      return None;
    }
    var e := revision.value.next;
    var v := Version(major.value.value, minor.value.value, build.value.value, revision.value.value);
    return Some(Parsed(v, e));
  }

  /** The characters a parsed version is written with */
  predicate VersionChar(c: char)
  {
    IsDigit(c) || c in VersionChaff
  }

  /** Only version characters from `q` up to `e` */
  predicate VersionRun(s: seq<char>, q: nat, e: nat)
    requires q <= e <= |s|
  {
    forall k {:trigger VersionChar(s[k])} :: q <= k < e ==> VersionChar(s[k])
  }

  /** What one read of a version field passed over: a digit first, then digits and, unless it is
      the last field, separators; the last field ends on a digit and stops at a non-digit. */
  lemma ReadNumberShape(s: seq<char>, q: nat, last: bool)
    requires q <= |s| && ReadNumber(s, q, if last then [] else VersionChaff).Some?
    ensures var e := ReadNumber(s, q, if last then [] else VersionChaff).value.next;
      IsDigit(s[q]) && VersionRun(s, q, e) && (last ==> IsDigit(s[e - 1]) && !IsDigit(At(s, e)))
  {
    var chaff := if last then [] else VersionChaff;
    var d := DigitRunEnd(s, q);
    var e := ReadNumber(s, q, chaff).value.next;
    DigitRunDigits(s, q);
    LTrimSkipsChaff(s, d, chaff);
    forall k | q <= k < e ensures VersionChar(s[k]) {
      if k < d {
        assert IsDigit(s[k]);
      } else {
        assert s[k] in chaff;
      }
    }
  }

  /** What a successful parse passed over: digits and separators only, ending with a digit; the
      character it stopped at is no digit. */
  lemma {:induction false} ReadFieldsShape(s: seq<char>, q: nat, count: nat)
    requires q <= |s| && 0 < count && ReadFields(s, q, count).Some?
    ensures var e := ReadFields(s, q, count).value.next;
      IsDigit(s[q]) && IsDigit(s[e - 1]) && !IsDigit(At(s, e)) && VersionRun(s, q, e)
    decreases count
  {
    if count == 1 {
      ReadNumberShape(s, q, true);
    } else {
      var q' := ReadNumber(s, q, VersionChaff).value.next;
      ReadFieldsNext(s, q, count);
      ReadNumberShape(s, q, false);
      ReadFieldsShape(s, q', count - 1);
    }
  }

  lemma ParseShape(s: seq<char>, p: nat)
    requires p <= |s| && ParseVersion(s, p).Some?
    ensures var q, e := LTrimPos(s, p, SpaceTab), ParseVersion(s, p).value.tail;
      IsDigit(s[q]) && IsDigit(s[e - 1]) && !IsDigit(At(s, e)) && VersionRun(s, q, e)
  {
    var q := LTrimPos(s, p, SpaceTab);
    ParsedFields(s, p);
    ReadFieldsShape(s, q, 4);
  }

  /** A parse that succeeds is the four reads from the first non-blank, ending where they end. */
  lemma ParsedFields(s: seq<char>, p: nat)
    requires p <= |s| && ParseVersion(s, p).Some?
    ensures var q := LTrimPos(s, p, SpaceTab);
      q <= |s| && ReadFields(s, q, 4).Some? && ParseVersion(s, p).value.tail == ReadFields(s, q, 4).value.next
  {
  }

  // ---------------------------------------------------------------------------
  // format
  // ---------------------------------------------------------------------------

  /** `"%d, %d, %d, %d"` of a version */
  function FormatText(v: Version): seq<char>
  {
    DecimalText(v.major) + Separator + DecimalText(v.minor) + Separator +
    DecimalText(v.build) + Separator + DecimalText(v.revision)
  }

  /** `format` into `chars` characters: the text when it fits with its terminator, nothing when
      `_TRUNCATE` would have cut it */
  function Format(v: Version, chars: nat): (r: Option<seq<char>>)
    ensures r.Some? <==> |FormatText(v)| < chars
    ensures r.Some? ==> r.value == FormatText(v)
  {
    var t := FormatText(v);
    if |t| < chars then Some(t) else None
  }

  /** A formatted version is a C string starting and ending with a digit, with no line feed. */
  lemma FormatTextShape(v: Version)
    ensures var t := FormatText(v);
      NoNul(t) && 0 < |t| && IsDigit(t[0]) && IsDigit(t[|t| - 1]) &&
      forall k :: 0 <= k < |t| ==> t[k] != '\n'
  {
    var t := FormatText(v);
    var d1, d4 := DecimalText(v.major), DecimalText(v.revision);
    assert t[0] == d1[0];
    assert t[|t| - 1] == d4[|d4| - 1];
  }

  /** Every version whose parts fit a 32-bit `int` formats into the 256-character scratch text. */
  lemma FormatFits(v: Version)
    requires v.major < 0x8000_0000 && v.minor < 0x8000_0000
    requires v.build < 0x8000_0000 && v.revision < 0x8000_0000
    ensures Format(v, VersionChars) == Some(FormatText(v))
    ensures |FormatText(v)| <= 46
  {
    assert Pow10(10) == 10_000_000_000;
    DecimalTextWidth(v.major, 10, Pow10(10));
    DecimalTextWidth(v.minor, 10, Pow10(10));
    DecimalTextWidth(v.build, 10, Pow10(10));
    DecimalTextWidth(v.revision, 10, Pow10(10));
  }

  // ---------------------------------------------------------------------------
  // parse after format
  // ---------------------------------------------------------------------------

  /** The decimal texts of `ns` joined by `", "` */
  function FieldsText(ns: seq<nat>): (t: seq<char>)
    requires 0 < |ns|
    ensures 0 < |t| && IsDigit(t[0])
    decreases |ns|
  {
    if |ns| == 1 then DecimalText(ns[0]) else DecimalText(ns[0]) + Separator + FieldsText(ns[1..])
  }

  lemma FormatTextFields(v: Version)
    ensures FormatText(v) == FieldsText([v.major, v.minor, v.build, v.revision])
  {
    var a, b, c, d := DecimalText(v.major), DecimalText(v.minor), DecimalText(v.build), DecimalText(v.revision);
    var ns := [v.major, v.minor, v.build, v.revision];
    assert ns[1..][1..][1..] == [v.revision];
    assert ns[1..][1..] == [v.build, v.revision];
    assert ns[1..] == [v.minor, v.build, v.revision];
    assert FieldsText([v.revision]) == d;
    assert FieldsText([v.build, v.revision]) == c + Separator + d;
    assert FieldsText([v.minor, v.build, v.revision]) == b + Separator + (c + Separator + d);
    assert FieldsText(ns) == a + Separator + (b + Separator + (c + Separator + d));
  }

  /** `", "` followed by a digit is skipped as chaff. */
  lemma SkipsSeparator(s: seq<char>, q: nat)
    requires Matches(s, q, Separator) && q + 2 < |s| && IsDigit(s[q + 2])
    ensures LTrimPos(s, q, VersionChaff) == q + 2
  {
    assert s[q + 0] == Separator[0] && s[q + 1] == Separator[1];
    assert LTrimPos(s, q + 2, VersionChaff) == q + 2;
    assert LTrimPos(s, q + 1, VersionChaff) == q + 2;
  }

  /** A digit run, `", "` and a digit: the run is read and the cursor lands on that digit. */
  lemma ReadsField(s: seq<char>, q: nat, d: seq<char>, c: char)
    requires 0 < |d| && AllDigits(d) && Matches(s, q, d) && Matches(s, q + |d|, Separator)
    requires q + |d| + 2 < |s| && s[q + |d| + 2] == c && IsDigit(c)
    ensures ReadNumber(s, q, VersionChaff) == Some(Number(DecimalValue(d), q + |d| + 2))
  {
    assert s[q + |d| + 0] == Separator[0];
    SkipsSeparator(s, q + |d|);
    ReadsDigits(s, q, d, VersionChaff);
  }

  /** The pieces of a joined text found in a buffer */
  lemma FieldsMatches(s: seq<char>, q: nat, ns: seq<nat>)
    requires 1 < |ns| && Matches(s, q, FieldsText(ns))
    ensures var d, rest := DecimalText(ns[0]), FieldsText(ns[1..]);
      |FieldsText(ns)| == |d| + 2 + |rest| &&
      Matches(s, q, d) && Matches(s, q + |d|, Separator) && Matches(s, q + |d| + 2, rest) &&
      s[q + |d| + 2] == rest[0]
  {
    var d, rest := DecimalText(ns[0]), FieldsText(ns[1..]);
    var t := FieldsText(ns);
    assert t == d + Separator + rest;
    assert Matches(s, q, d) by {
      forall k | 0 <= k < |d| ensures s[q + k] == d[k] {
        assert t[k] == d[k];
      }
    }
    assert Matches(s, q + |d|, Separator) by {
      forall k | 0 <= k < |Separator| ensures s[q + |d| + k] == Separator[k] {
        assert t[|d| + k] == Separator[k];
      }
    }
    assert Matches(s, q + |d| + 2, rest) by {
      forall k | 0 <= k < |rest| ensures s[q + |d| + 2 + k] == rest[k] {
        assert t[|d| + 2 + k] == rest[k];
      }
    }
    assert s[q + |d| + 2 + 0] == rest[0];
  }

  /** The last field: a decimal text followed by a non-digit */
  lemma ReadsLastField(s: seq<char>, q: nat, n: nat)
    requires Matches(s, q, FieldsText([n])) && !IsDigit(At(s, q + |FieldsText([n])|))
    ensures ReadFields(s, q, 1) == Some(Fields([n], q + |FieldsText([n])|))
  {
    DecimalRoundTrip(n);
    ReadsDigits(s, q, DecimalText(n), []);
  }

  /** A read that succeeds followed by reads that succeed */
  lemma ReadsThenFields(s: seq<char>, q: nat, ns: seq<nat>, q': nat, e: nat)
    requires q <= |s| && 1 < |ns| && q' <= |s|
    requires ReadNumber(s, q, VersionChaff) == Some(Number(ns[0], q'))
    requires ReadFields(s, q', |ns| - 1) == Some(Fields(ns[1..], e))
    ensures ReadFields(s, q, |ns|) == Some(Fields(ns, e))
  {
    ReadFieldsStep(s, q, |ns|);
    assert [ns[0]] + ns[1..] == ns;
  }

  /** Decimal texts joined by `", "` and followed by a non-digit read back as their values. */
  lemma {:induction false} ReadsFields(s: seq<char>, q: nat, ns: seq<nat>)
    requires 0 < |ns| && Matches(s, q, FieldsText(ns)) && !IsDigit(At(s, q + |FieldsText(ns)|))
    ensures ReadFields(s, q, |ns|) == Some(Fields(ns, q + |FieldsText(ns)|))
    decreases |ns|
  {
    if |ns| == 1 {
      assert ns == [ns[0]];
      ReadsLastField(s, q, ns[0]);
    } else {
      var d, rest := DecimalText(ns[0]), FieldsText(ns[1..]);
      FieldsMatches(s, q, ns);
      DecimalRoundTrip(ns[0]);
      ReadsField(s, q, d, rest[0]);
      ReadsFields(s, q + |d| + 2, ns[1..]);
      ReadsThenFields(s, q, ns, q + |d| + 2, q + |FieldsText(ns)|);
    }
  }

  /** Parsing a formatted version reads that version back and stops right after it. */
  lemma ParseFormatted(s: seq<char>, p: nat, v: Version)
    requires p + |FormatText(v)| <= |s|
    requires s[p..p + |FormatText(v)|] == FormatText(v)
    requires !IsDigit(At(s, p + |FormatText(v)|))
    ensures ParseVersion(s, p) == Some(Parsed(v, p + |FormatText(v)|))
  {
    var ns := [v.major, v.minor, v.build, v.revision];
    var t := FormatText(v);
    FormatTextFields(v);
    assert Matches(s, p, FieldsText(ns)) by {
      forall k | 0 <= k < |t| ensures s[p + k] == t[k] {
        assert s[p + k] == s[p..p + |t|][k];
      }
    }
    assert LTrimPos(s, p, SpaceTab) == p by {
      assert s[p + 0] == t[0];
    }
    ReadsFields(s, p, ns);
  }

  // ---------------------------------------------------------------------------
  // parse stays inside its line
  // ---------------------------------------------------------------------------

  /** `s` and `t` agree from `p` through `m` */
  predicate AgreeThrough(s: seq<char>, t: seq<char>, p: nat, m: nat)
  {
    m < |s| && m < |t| && forall k :: p <= k <= m ==> s[k] == t[k]
  }

  lemma {:induction false} LTrimPosLocal(s: seq<char>, t: seq<char>, p: nat, m: nat, chaff: seq<char>)
    requires p <= m && AgreeThrough(s, t, p, m) && s[m] == '\n' && '\n' !in chaff
    ensures LTrimPos(s, p, chaff) == LTrimPos(t, p, chaff) <= m
    decreases m - p
  {
    if p < m && At(s, p) != NUL && At(s, p) in chaff {
      LTrimPosLocal(s, t, p + 1, m, chaff);
    }
  }

  lemma {:induction false} DigitRunEndLocal(s: seq<char>, t: seq<char>, p: nat, m: nat)
    requires p <= m && AgreeThrough(s, t, p, m) && s[m] == '\n'
    ensures DigitRunEnd(s, p) == DigitRunEnd(t, p) <= m
    decreases m - p
  {
    if p < m && IsDigit(At(s, p)) {
      DigitRunEndLocal(s, t, p + 1, m);
    }
  }

  lemma {:induction false} DigitsValueLocal(s: seq<char>, t: seq<char>, p: nat, e: nat)
    requires p <= e <= |s| && e <= |t|
    requires forall k :: p <= k < e ==> IsDigit(s[k]) && s[k] == t[k]
    ensures forall k :: p <= k < e ==> IsDigit(t[k])
    ensures DigitsValue(s, p, e) == DigitsValue(t, p, e)
    decreases e - p
  {
    if p < e {
      DigitsValueLocal(s, t, p, e - 1);
    }
  }

  lemma ReadNumberLocal(s: seq<char>, t: seq<char>, p: nat, m: nat, chaff: seq<char>)
    requires p <= m && AgreeThrough(s, t, p, m) && s[m] == '\n' && '\n' !in chaff
    ensures ReadNumber(s, p, chaff) == ReadNumber(t, p, chaff)
    ensures ReadNumber(s, p, chaff).Some? ==> ReadNumber(s, p, chaff).value.next <= m
  {
    if IsDigit(At(s, p)) {
      DigitRunEndLocal(s, t, p, m);
      var e := DigitRunEnd(s, p);
      DigitRunDigits(s, p);
      DigitsValueLocal(s, t, p, e);
      LTrimPosLocal(s, t, e, m, chaff);
    }
  }

  lemma {:induction false} ReadFieldsLocal(s: seq<char>, t: seq<char>, q: nat, m: nat, count: nat)
    requires q <= m && AgreeThrough(s, t, q, m) && s[m] == '\n' && 0 < count
    ensures ReadFields(s, q, count) == ReadFields(t, q, count)
    ensures ReadFields(s, q, count).Some? ==> ReadFields(s, q, count).value.next <= m
    decreases count
  {
    var chaff := if count == 1 then [] else VersionChaff;
    ReadNumberLocal(s, t, q, m, chaff);
    if count > 1 && ReadNumber(s, q, chaff).Some? {
      var n := ReadNumber(s, q, chaff).value;
      if n.next <= m {
        ReadFieldsLocal(s, t, n.next, m, count - 1);
      }
    }
  }

  /** Two texts that agree from `p` through a line feed parse alike at `p`, and a successful parse
      ends before that line feed. */
  lemma ParseLocal(s: seq<char>, t: seq<char>, p: nat, m: nat)
    requires p <= m && AgreeThrough(s, t, p, m) && s[m] == '\n'
    ensures ParseVersion(s, p) == ParseVersion(t, p)
    ensures ParseVersion(s, p).Some? ==> ParseVersion(s, p).value.tail <= m
  {
    LTrimPosLocal(s, t, p, m, SpaceTab);
    ReadFieldsLocal(s, t, LTrimPos(s, p, SpaceTab), m, 4);
  }

  // ---------------------------------------------------------------------------
  // The override rule of UpdateVersion
  // ---------------------------------------------------------------------------

  /** Major, minor and revision keep the parsed value under a negative override; the build is the
      parsed build plus one under a negative override, whatever the other overrides are. */
  function Overridden(parsed: Version, xs: Overrides): (v: Version)
    ensures xs.major < 0 ==> v.major == parsed.major
    ensures xs.major >= 0 ==> v.major == xs.major
    ensures xs.minor < 0 ==> v.minor == parsed.minor
    ensures xs.minor >= 0 ==> v.minor == xs.minor
    ensures xs.build < 0 ==> v.build == parsed.build + 1
    ensures xs.build >= 0 ==> v.build == xs.build
    ensures xs.revision < 0 ==> v.revision == parsed.revision
    ensures xs.revision >= 0 ==> v.revision == xs.revision
  {
    Version(
      if xs.major < 0 then parsed.major else xs.major,
      if xs.minor < 0 then parsed.minor else xs.minor,
      if xs.build < 0 then parsed.build + 1 else xs.build,
      if xs.revision < 0 then parsed.revision else xs.revision)
  }

  /** With every override given, the result no longer depends on the parsed version. */
  lemma OverriddenAllGiven(p1: Version, p2: Version, xs: Overrides)
    requires xs.major >= 0 && xs.minor >= 0 && xs.build >= 0 && xs.revision >= 0
    ensures Overridden(p1, xs) == Overridden(p2, xs) == Version(xs.major, xs.minor, xs.build, xs.revision)
  {
  }

  // ---------------------------------------------------------------------------
  // replace
  // ---------------------------------------------------------------------------

  /** What `replace(buffer + base, total, oldChars, text)` is handed: the string at `base` with its
      terminator inside the `total` characters it may use, and `oldChars` inside that string */
  predicate ReplaceArgs(s: seq<char>, base: nat, total: nat, oldChars: nat)
  {
    base + total <= |s| && oldChars <= Strlen(s, base) && Strlen(s, base) < total
  }

  /** `replace`: refused only when the text grows and the old tail plus the new text would not
      leave room for the terminator in `total`; otherwise the splice of `text` for `oldChars`. */
  function Replaced(s: seq<char>, base: nat, total: nat, oldChars: nat, text: seq<char>): (r: Option<seq<char>>)
    requires ReplaceArgs(s, base, total, oldChars)
    ensures r.None? <==> oldChars < |text| && total <= Strlen(s, base) - oldChars + |text|
  {
    var tail := Strlen(s, base) - oldChars;
    if oldChars < |text| && total <= tail + |text| then None
    else Some(Spliced(s, base, oldChars, tail, text))
  }

  /** After a successful replace the string at `base` reads the new text followed by the old tail,
      and nothing before `base` changed. */
  lemma ReplacedString(s: seq<char>, base: nat, total: nat, oldChars: nat, text: seq<char>)
    requires ReplaceArgs(s, base, total, oldChars) && NoNul(text)
    requires Replaced(s, base, total, oldChars, text).Some?
    ensures var r := Replaced(s, base, total, oldChars, text).value;
      |r| == |s| && Str(r, base) == text + s[base + oldChars..End(s, base)] && r[..base] == s[..base]
  {
    SplicedString(s, base, oldChars, text);
  }

  /** After a successful replace inside the string at 0, that string still ends inside `total`
      characters from `base`, runs at least up to `base`, and nothing before `base` changed. */
  lemma ReplacedInText(s: seq<char>, base: nat, total: nat, oldChars: nat, text: seq<char>)
    requires ReplaceArgs(s, base, total, oldChars) && NoNul(text) && base <= End(s, 0)
    requires Replaced(s, base, total, oldChars, text).Some?
    ensures |Replaced(s, base, total, oldChars, text).value| == |s|
    ensures base <= End(Replaced(s, base, total, oldChars, text).value, 0) < base + total
    ensures SamePrefix(Replaced(s, base, total, oldChars, text).value, s, base)
  {
    SplicedText(s, base, oldChars, text);
  }

  /** Shrinking or keeping the length never fails. */
  lemma ReplaceNotGrowing(s: seq<char>, base: nat, total: nat, oldChars: nat, text: seq<char>)
    requires ReplaceArgs(s, base, total, oldChars) && |text| <= oldChars
    ensures Replaced(s, base, total, oldChars, text).Some?
  {
  }

  method Replace(a: array<char>, base: nat, total: nat, oldChars: nat, newString: seq<char>) returns (ok: bool)
    requires ReplaceArgs(a[..], base, total, oldChars) && NoNul(newString)
    modifies a
    ensures ok == Replaced(old(a[..]), base, total, oldChars, newString).Some?
    ensures a[..] == if ok then Replaced(old(a[..]), base, total, oldChars, newString).value else old(a[..])
  {
    ghost var s := a[..];
    EndShift(s, base, base + oldChars);
    var newChars := |newString|;
    if oldChars < newChars {
      var oldTail := Length(a, base + oldChars);
      if total <= oldTail + newChars {
        return false;
      }
      Splice(a, base, oldChars, newString, oldTail);
    } else if newChars < oldChars {
      var oldTail := Length(a, base + oldChars);
      Splice(a, base, oldChars, newString, oldTail);
    } else {
      CopyChars(a, base, newString);
      CopiedOver(s, base, Strlen(s, base) - oldChars, newString);
    }
    ok := true;
  }
}
