/** The command line of the tool: the options object with its defaults, the numeric and path
    values of an option, the loop over the arguments and the final validation.

    `Error` prints through a callback; here every message becomes an entry of `reports`, so what
    the tool tells its user is part of the state. `ExpandEnvironmentStrings` and
    `GetFileAttributes` are calls into the system: they are parameters (`expand`, `accessible`). */
module Options {
  import opened Wrappers
  import opened CString
  import opened Decimal

  // ---------------------------------------------------------------------------
  // wcstoul(value, &tail, 10)
  // ---------------------------------------------------------------------------

  /** `ULONG_MAX`: `unsigned long` is 32 bits wide on the platform */
  const ULongMax: nat := 0xFFFF_FFFF

  /** The first position at or after `p` that holds no white space */
  function SpaceEnd(s: string, p: nat): (r: nat)
    requires p <= |s|
    ensures p <= r <= |s| && !IsSpace(At(s, r))
    ensures forall k :: p <= k < r ==> IsSpace(s[k])
    decreases |s| - p
  {
    if IsSpace(At(s, p)) then SpaceEnd(s, p + 1) else p
  }

  /** The end of the run of digits at `p` */
  function DigitEnd(s: string, p: nat): (r: nat)
    requires p <= |s|
    ensures p <= r <= |s| && !IsDigit(At(s, r))
    ensures forall k :: p <= k < r ==> IsDigit(s[k])
    decreases |s| - p
  {
    if IsDigit(At(s, p)) then DigitEnd(s, p + 1) else p
  }

  /** What `wcstoul` returns and where it leaves `tail` */
  datatype Conversion = Conversion(value: nat, tail: nat)

  /** `wcstoul` in base 10: white space, an optional sign, then digits. Without digits the value
      is 0 and `tail` is the start of the string. A magnitude beyond `ULONG_MAX` gives
      `ULONG_MAX`; a minus sign negates the magnitude modulo 2^32. */
  function WcsToUl(s: string): (r: Conversion)
    ensures r.value <= ULongMax && r.tail <= |s|
  {
    var q := SpaceEnd(s, 0);
    var d := if At(s, q) == '+' || At(s, q) == '-' then q + 1 else q;
    var e := DigitEnd(s, d);
    if e == d then Conversion(0, 0)
    else
      assert AllDigits(s[d..e]) by {
        forall k | 0 <= k < e - d ensures IsDigit(s[d..e][k]) {
          assert s[d..e][k] == s[d + k];
        }
      }
      var m := DecimalValue(s[d..e]);
      if m > ULongMax then Conversion(ULongMax, e)
      else if At(s, q) == '-' && m != 0 then Conversion(ULongMax + 1 - m, e)
      else Conversion(m, e)
  }

  /** `int(v)` of an `unsigned long`: the 32-bit two's complement reading */
  function ToInt(v: nat): (n: int)
    requires v <= ULongMax
    ensures -0x8000_0000 <= n < 0x8000_0000
    ensures (v - n) % (ULongMax + 1) == 0
  {
    if v < 0x8000_0000 then v else v - (ULongMax + 1)
  }

  // ---------------------------------------------------------------------------
  // NumericOption and PathOption
  // ---------------------------------------------------------------------------

  /** `NumericOption` without its report: the converted number when nothing follows it, and
      nothing otherwise */
  function NumericValue(value: string): Option<int>
  {
    var c := WcsToUl(value);
    if At(value, c.tail) == NUL then Some(ToInt(c.value)) else None
  }

  /** The number `NumericOption` returns: -1 for an invalid value */
  function NumericResult(value: string): int
  {
    match NumericValue(value)
    case Some(n) => n
    case None => -1
  }

  /** A run of digits is read as its decimal value, leading zeros included. */
  lemma NumericOfDigits(t: string)
    requires 0 < |t| && AllDigits(t) && DecimalValue(t) < 0x8000_0000
    ensures NumericValue(t) == Some(DecimalValue(t))
  {
    DigitsConverted(t);
  }

  /** A run of digits converts as a whole, saturating beyond `ULONG_MAX`. */
  lemma DigitsConverted(t: string)
    requires 0 < |t| && AllDigits(t)
    ensures WcsToUl(t) == Conversion(if DecimalValue(t) > ULongMax then ULongMax else DecimalValue(t), |t|)
  {
    assert SpaceEnd(t, 0) == 0;
    DigitsRead(t, 0);
    assert t[0..|t|] == t;
  }

  /** The digits of a run from `p` to its end are read to the end of the run. */
  lemma {:induction false} DigitsRead(t: string, p: nat)
    requires p <= |t| && forall k :: p <= k < |t| ==> IsDigit(t[k])
    ensures DigitEnd(t, p) == |t|
    decreases |t| - p
  {
    if p < |t| {
      DigitsRead(t, p + 1);
    }
  }

  /** The value any number prints as under `%d` reads back as that number. */
  lemma NumericRoundTrip(n: nat)
    requires n < 0x8000_0000
    ensures NumericValue(DecimalText(n)) == Some(n)
  {
    DecimalRoundTrip(n);
    NumericOfDigits(DecimalText(n));
  }

  /** Leading white space is skipped. */
  lemma NumericAfterSpace(t: string)
    requires 0 < |t| && AllDigits(t) && DecimalValue(t) < 0x8000_0000
    ensures NumericValue(" " + t) == Some(DecimalValue(t))
  {
    var s := " " + t;
    assert SpaceEnd(s, 1) == 1;
    assert s[1..] == t;
    DigitsRead(s, 1);
    assert s[1..DigitEnd(s, 1)] == t;
  }

  /** A character other than the terminator after the digits makes the value invalid: trailing
      space, a hexadecimal `x`, letters. */
  lemma NumericRejectsTrailing(t: string, c: char, rest: string)
    requires 0 < |t| && AllDigits(t) && c != NUL && !IsDigit(c)
    ensures NumericValue(t + [c] + rest).None?
  {
    var s := t + [c] + rest;
    assert s[0] == t[0];
    DigitsRead(s[..|t|], 0);
    DigitEndOfPrefix(s, |t|, 0);
  }

  /** The digit run of a string is that of its prefix when the prefix ends on a non-digit. */
  lemma {:induction false} DigitEndOfPrefix(s: string, n: nat, p: nat)
    requires p <= n < |s| && !IsDigit(s[n])
    requires forall k :: p <= k < n ==> IsDigit(s[k])
    ensures DigitEnd(s, p) == n
    decreases n - p
  {
    if p < n {
      DigitEndOfPrefix(s, n, p + 1);
    }
  }

  /** A value with no digits is invalid unless it is empty; the empty value reads as 0. */
  lemma NumericWithoutDigits(value: string)
    requires At(value, 0) != NUL && !IsSpace(At(value, 0)) && !IsDigit(At(value, 0))
    requires At(value, 0) != '+' && At(value, 0) != '-'
    ensures NumericValue(value).None?
    ensures NumericValue([]) == Some(0)
  {
  }

  /** A minus sign negates: `-123` is -123, and `-1` is -1 without a report. */
  lemma NumericNegative(t: string)
    requires 0 < |t| && AllDigits(t) && DecimalValue(t) <= 0x8000_0000
    ensures NumericValue("-" + t) == Some(-(DecimalValue(t) as int))
  {
    var s, m := "-" + t, DecimalValue(t);
    assert SpaceEnd(s, 0) == 0;
    assert s[1..] == t;
    DigitsRead(s, 1);
    assert s[1..DigitEnd(s, 1)] == t;
    var v := if m == 0 then 0 else ULongMax + 1 - m;
    assert WcsToUl(s) == Conversion(v, |s|);
    assert ToInt(v) == -(m as int);
  }

  /** Values from 2^31 to `ULONG_MAX` wrap to negative numbers. */
  lemma NumericWraps(t: string)
    requires 0 < |t| && AllDigits(t) && 0x8000_0000 <= DecimalValue(t) <= ULongMax
    ensures NumericValue(t) == Some(DecimalValue(t) - (ULongMax + 1))
  {
    DigitsConverted(t);
  }

  /** Values beyond `ULONG_MAX` saturate, and therefore read as -1, without a report. */
  lemma NumericSaturates(t: string)
    requires 0 < |t| && AllDigits(t) && ULongMax < DecimalValue(t)
    ensures NumericValue(t) == Some(-1)
  {
    DigitsConverted(t);
  }

  /** `PathOption`: empty for an empty value, otherwise the expansion of the environment
      variables in it, or the value itself where the expansion fails */
  function PathOption(value: string, expand: string -> Option<string>): (r: string)
    ensures At(value, 0) == NUL ==> r == []
    ensures At(value, 0) != NUL && expand(value).None? ==> r == value
  {
    if At(value, 0) == NUL then []
    else
      match expand(value)
      case None => value
      case Some(path) => path
  }

  // ---------------------------------------------------------------------------
  // One argument
  // ---------------------------------------------------------------------------

  /** What `Error` reports, with the text the message quotes */
  datatype Report =
    | InvalidValue(value: string)
    | InvalidFormat(arg: string)
    | UnknownOption(arg: string)
    | InputRepeated(arg: string)
    | MissingInput
    | CannotAccess(path: string)

  /** The fields of `RCVersionOptions`, with the reports printed so far */
  datatype Settings = Settings(
    errorDetected: bool,
    majorVersion: int, minorVersion: int, buildNumber: int, revision: int,
    verbose: bool,
    inputFile: string, outputFile: string,
    reports: seq<Report>)

  /** `Error`: the flag is set and the message printed */
  function Reported(st: Settings, r: Report): (t: Settings)
    ensures t.errorDetected && t.reports == st.reports + [r]
  {
    st.(errorDetected := true, reports := st.reports + [r])
  }

  /** The report `NumericOption` makes for an invalid value */
  function NumericChecked(st: Settings, value: string): Settings
  {
    if NumericValue(value).Some? then st else Reported(st, InvalidValue(value))
  }

  /** An option starts with `/` or `-`. */
  predicate IsOption(arg: string)
  {
    At(arg, 0) == '/' || At(arg, 0) == '-'
  }

  /** The option letter, in lower case */
  function OptionCode(arg: string): char
  {
    ToLower(At(arg, 1))
  }

  /** A letter followed by a colon: the value starts after the colon */
  predicate HasValue(arg: string)
  {
    OptionCode(arg) != NUL && At(arg, 2) == ':'
  }

  function OptionValue(arg: string): string
    requires HasValue(arg)
  {
    arg[3..]
  }

  /** The codes of the four version numbers */
  const NumericCodes: seq<char> := "mnbr"

  /** The version number a code sets */
  function NumericField(st: Settings, code: char): int
  {
    if code == 'm' then st.majorVersion
    else if code == 'n' then st.minorVersion
    else if code == 'b' then st.buildNumber
    else st.revision
  }

  /** `st` with the version number of `code` set to `n` */
  function WithNumericField(st: Settings, code: char, n: int): (t: Settings)
    ensures NumericField(t, code) == n
  {
    if code == 'm' then st.(majorVersion := n)
    else if code == 'n' then st.(minorVersion := n)
    else if code == 'b' then st.(buildNumber := n)
    else st.(revision := n)
  }

  /** One pass of the loop of `Parse`: an empty argument is skipped; an option without a colon
      is reported; `m`, `n`, `b` and `r` set their number when the value is not empty; `o` sets
      the output path; `v` sets verbosity from the number, empty value included; any other
      letter is reported. A plain argument is the input file when none is set yet, and is
      reported otherwise. */
  function ArgApplied(st: Settings, arg: string, expand: string -> Option<string>): Settings
  {
    if At(arg, 0) == NUL then st
    else if IsOption(arg) then
      if !HasValue(arg) then Reported(st, InvalidFormat(arg))
      else
        var code, value := OptionCode(arg), OptionValue(arg);
        if code in NumericCodes then
          if At(value, 0) != NUL then WithNumericField(NumericChecked(st, value), code, NumericResult(value))
          else st
        else if code == 'o' then st.(outputFile := PathOption(value, expand))
        else if code == 'v' then NumericChecked(st, value).(verbose := NumericResult(value) != 0)
        else Reported(st, UnknownOption(arg))
    else if |st.inputFile| == 0 then st.(inputFile := PathOption(arg, expand))
    else Reported(st, InputRepeated(arg))
  }

  /** The arguments in order, left to right */
  function ArgsApplied(st: Settings, args: seq<string>, expand: string -> Option<string>): Settings
    decreases |args|
  {
    if |args| == 0 then st
    else ArgApplied(ArgsApplied(st, args[..|args| - 1], expand), args[|args| - 1], expand)
  }

  /** The arguments `Parse` looks at: all but the program name */
  function Arguments(argv: seq<string>): (args: seq<string>)
    ensures |argv| == 0 ==> args == []
    ensures 0 < |argv| ==> args == argv[1..]
  {
    if |argv| == 0 then [] else argv[1..]
  }

  // ---------------------------------------------------------------------------
  // What Parse promises
  // ---------------------------------------------------------------------------

  /** The message an argument prints, if any: an option without a letter and colon, an unknown
      letter, an invalid number (an empty one only for `v`), or a second plain argument */
  function ArgReport(st: Settings, arg: string): (r: seq<Report>)
    ensures |r| <= 1
  {
    if At(arg, 0) == NUL then []
    else if IsOption(arg) then
      if !HasValue(arg) then [InvalidFormat(arg)]
      else
        var code, value := OptionCode(arg), OptionValue(arg);
        if code == 'o' || (code in NumericCodes && At(value, 0) == NUL) then []
        else if code in NumericCodes || code == 'v' then
          if NumericValue(value).None? then [InvalidValue(value)] else []
        else [UnknownOption(arg)]
    else if |st.inputFile| == 0 then []
    else [InputRepeated(arg)]
  }

  /** An argument prints exactly the message `ArgReport` names; printing sets the flag, and the
      flag is never cleared. */
  lemma ArgReports(st: Settings, arg: string, expand: string -> Option<string>)
    ensures ArgApplied(st, arg, expand).reports == st.reports + ArgReport(st, arg)
    ensures ArgApplied(st, arg, expand).errorDetected <==> st.errorDetected || 0 < |ArgReport(st, arg)|
  {
    if At(arg, 0) != NUL && IsOption(arg) && HasValue(arg) {
      var code, value := OptionCode(arg), OptionValue(arg);
      if code in NumericCodes && At(value, 0) != NUL {
        var c := NumericChecked(st, value);
        assert ArgApplied(st, arg, expand) == WithNumericField(c, code, NumericResult(value));
        assert c.reports == st.reports + ArgReport(st, arg);
      }
    }
  }

  /** Over all arguments: earlier reports are kept, and the flag is set exactly when it was set
      before or some argument printed a message. */
  lemma {:induction false} ArgsReports(st: Settings, args: seq<string>, expand: string -> Option<string>)
    ensures var t := ArgsApplied(st, args, expand);
      |st.reports| <= |t.reports| && t.reports[..|st.reports|] == st.reports &&
      (t.errorDetected <==> st.errorDetected || |st.reports| < |t.reports|)
    decreases |args|
  {
    if |args| > 0 {
      var prev := ArgsApplied(st, args[..|args| - 1], expand);
      ArgsReports(st, args[..|args| - 1], expand);
      ArgReports(prev, args[|args| - 1], expand);
      var t := ArgsApplied(st, args, expand);
      assert t.reports[..|st.reports|] == t.reports[..|prev.reports|][..|st.reports|];
    }
  }

  /** The value of the last option among `args` that sets the version number of `code`: an
      option with that letter, a colon and a non-empty value */
  function LastNumeric(args: seq<string>, code: char): Option<string>
    decreases |args|
  {
    if |args| == 0 then None
    else
      var a := args[|args| - 1];
      if At(a, 0) != NUL && IsOption(a) && HasValue(a) && OptionCode(a) == code && At(OptionValue(a), 0) != NUL
      then Some(OptionValue(a))
      else LastNumeric(args[..|args| - 1], code)
  }

  /** An argument that is not an option setting the number of `code` leaves that number alone. */
  lemma ArgKeepsNumeric(st: Settings, arg: string, code: char, expand: string -> Option<string>)
    requires code in NumericCodes
    requires !(At(arg, 0) != NUL && IsOption(arg) && HasValue(arg) && OptionCode(arg) == code && At(OptionValue(arg), 0) != NUL)
    ensures NumericField(ArgApplied(st, arg, expand), code) == NumericField(st, code)
  {
  }

  /** The last value wins: each version number ends as the last non-empty value given for it,
      converted by `NumericOption`, or as it was when no argument sets it. */
  lemma {:induction false} LastNumericWins(st: Settings, args: seq<string>, code: char, expand: string -> Option<string>)
    requires code in NumericCodes
    ensures NumericField(ArgsApplied(st, args, expand), code) ==
      match LastNumeric(args, code)
      case None => NumericField(st, code)
      case Some(v) => NumericResult(v)
    decreases |args|
  {
    if |args| > 0 {
      var prev := ArgsApplied(st, args[..|args| - 1], expand);
      var a := args[|args| - 1];
      if At(a, 0) != NUL && IsOption(a) && HasValue(a) && OptionCode(a) == code && At(OptionValue(a), 0) != NUL {
        assert NumericField(ArgApplied(prev, a, expand), code) == NumericResult(OptionValue(a));
      } else {
        ArgKeepsNumeric(prev, a, code, expand);
        LastNumericWins(st, args[..|args| - 1], code, expand);
      }
    }
  }

  /** The value of the last option among `args` with the letter `code` and a colon, empty or not */
  function LastOption(args: seq<string>, code: char): Option<string>
    decreases |args|
  {
    if |args| == 0 then None
    else
      var a := args[|args| - 1];
      if At(a, 0) != NUL && IsOption(a) && HasValue(a) && OptionCode(a) == code then Some(OptionValue(a))
      else LastOption(args[..|args| - 1], code)
  }

  /** Verbosity ends as set by the last `v` option, even an empty one (which reads as 0 and turns
      it off), or as it was. */
  lemma {:induction false} LastVerboseWins(st: Settings, args: seq<string>, expand: string -> Option<string>)
    ensures ArgsApplied(st, args, expand).verbose ==
      match LastOption(args, 'v')
      case None => st.verbose
      case Some(v) => NumericResult(v) != 0
    decreases |args|
  {
    if |args| > 0 {
      var a := args[|args| - 1];
      if !(At(a, 0) != NUL && IsOption(a) && HasValue(a) && OptionCode(a) == 'v') {
        LastVerboseWins(st, args[..|args| - 1], expand);
      }
    }
  }

  /** The output path ends as set by the last `o` option, an empty value clearing it, or as it
      was. */
  lemma {:induction false} LastOutputWins(st: Settings, args: seq<string>, expand: string -> Option<string>)
    ensures ArgsApplied(st, args, expand).outputFile ==
      match LastOption(args, 'o')
      case None => st.outputFile
      case Some(v) => PathOption(v, expand)
    decreases |args|
  {
    if |args| > 0 {
      var a := args[|args| - 1];
      if !(At(a, 0) != NUL && IsOption(a) && HasValue(a) && OptionCode(a) == 'o') {
        LastOutputWins(st, args[..|args| - 1], expand);
      }
    }
  }

  /** Once the input file is set, no argument changes it. */
  lemma {:induction false} InputKept(st: Settings, args: seq<string>, expand: string -> Option<string>)
    requires 0 < |st.inputFile|
    ensures ArgsApplied(st, args, expand).inputFile == st.inputFile
    decreases |args|
  {
    if |args| > 0 {
      InputKept(st, args[..|args| - 1], expand);
    }
  }

  /** Applying `a + b` is applying `a`, then `b`. */
  lemma {:induction false} ArgsAppliedSplit(st: Settings, a: seq<string>, b: seq<string>, expand: string -> Option<string>)
    ensures ArgsApplied(st, a + b, expand) == ArgsApplied(ArgsApplied(st, a, expand), b, expand)
    decreases |b|
  {
    if |b| == 0 {
      assert a + b == a;
    } else {
      assert (a + b)[..|a + b| - 1] == a + b[..|b| - 1];
      ArgsAppliedSplit(st, a, b[..|b| - 1], expand);
    }
  }

  /** Empty arguments and options never touch the input file. */
  lemma {:induction false} OptionsKeepInput(st: Settings, args: seq<string>, expand: string -> Option<string>)
    requires forall j :: 0 <= j < |args| ==> At(args[j], 0) == NUL || IsOption(args[j])
    ensures ArgsApplied(st, args, expand).inputFile == st.inputFile
    decreases |args|
  {
    if |args| > 0 {
      OptionsKeepInput(st, args[..|args| - 1], expand);
    }
  }

  /** With no input file yet, the first plain argument names it, and later plain arguments are
      only reported; this needs its path to be non-empty, since an expansion to the empty string
      leaves the input file unset for the next plain argument. */
  lemma FirstInputWins(st: Settings, args: seq<string>, k: nat, expand: string -> Option<string>)
    requires |st.inputFile| == 0 && k < |args|
    requires At(args[k], 0) != NUL && !IsOption(args[k])
    requires forall j :: 0 <= j < k ==> At(args[j], 0) == NUL || IsOption(args[j])
    requires 0 < |PathOption(args[k], expand)|
    ensures ArgsApplied(st, args, expand).inputFile == PathOption(args[k], expand)
  {
    var before := args[..k];
    assert args == args[..k + 1] + args[k + 1..];
    assert args[..k + 1][..k] == before;
    OptionsKeepInput(st, before, expand);
    ArgsAppliedSplit(st, args[..k + 1], args[k + 1..], expand);
    InputKept(ArgsApplied(st, args[..k + 1], expand), args[k + 1..], expand);
  }

  /** An empty argument is skipped: it changes nothing. */
  lemma EmptyArgIgnored(st: Settings, arg: string, expand: string -> Option<string>)
    requires At(arg, 0) == NUL
    ensures ArgApplied(st, arg, expand) == st
  {
  }

  /** With an input file set, a further plain argument is reported and changes nothing else. */
  lemma InputRepeatedReported(st: Settings, arg: string, expand: string -> Option<string>)
    requires 0 < |st.inputFile| && At(arg, 0) != NUL && !IsOption(arg)
    ensures ArgApplied(st, arg, expand) == Reported(st, InputRepeated(arg))
  {
  }

  /** An option letter other than the six is reported, and changes nothing else. */
  lemma UnknownReported(st: Settings, arg: string, expand: string -> Option<string>)
    requires IsOption(arg) && HasValue(arg) && OptionCode(arg) !in "mnbrov"
    ensures ArgApplied(st, arg, expand) == Reported(st, UnknownOption(arg))
  {
  }

  /** An option without a letter followed by a colon is reported, and changes nothing else. */
  lemma FormatReported(st: Settings, arg: string, expand: string -> Option<string>)
    requires IsOption(arg) && !HasValue(arg)
    ensures ArgApplied(st, arg, expand) == Reported(st, InvalidFormat(arg))
  {
  }

  /** `/` and `-` introduce the same options, and the letter may be in either case. */
  lemma OptionSpellings(st: Settings, lead: char, letter: char, value: string, expand: string -> Option<string>)
    requires (lead == '/' || lead == '-') && ToLower(letter) in "mnbrov"
    ensures ArgApplied(st, [lead, letter, ':'] + value, expand) == ArgApplied(st, ['/', ToLower(letter), ':'] + value, expand)
  {
    var a, b := [lead, letter, ':'] + value, ['/', ToLower(letter), ':'] + value;
    assert OptionCode(a) == OptionCode(b);
    assert OptionValue(a) == value == OptionValue(b);
  }

  /** An empty value leaves a version number unchanged. */
  lemma EmptyNumericIgnored(st: Settings, lead: char, letter: char, expand: string -> Option<string>)
    requires (lead == '/' || lead == '-') && ToLower(letter) in NumericCodes
    ensures ArgApplied(st, [lead, letter, ':'], expand) == st
  {
    var a := [lead, letter, ':'];
    assert OptionValue(a) == [];
  }

  // ---------------------------------------------------------------------------
  // Validate
  // ---------------------------------------------------------------------------

  /** `Validate`: a missing input file is reported; the output path defaults to the input path;
      the input file is checked for access only when nothing was reported before. */
  function Validated(st: Settings, accessible: string -> bool): Settings
  {
    var a := if |st.inputFile| == 0 then Reported(st, MissingInput) else st;
    var b := if |a.outputFile| == 0 then a.(outputFile := a.inputFile) else a;
    if b.errorDetected || accessible(b.inputFile) then b else Reported(b, CannotAccess(b.inputFile))
  }

  /** After validation the flag is clear exactly when it was clear before, an input file is set
      and it can be accessed, and then both paths are set; nothing but the flag, the reports and
      the output path changes. */
  lemma ValidatedOutcome(st: Settings, accessible: string -> bool)
    ensures var t := Validated(st, accessible);
      (!t.errorDetected <==> !st.errorDetected && 0 < |st.inputFile| && accessible(st.inputFile)) &&
      (!t.errorDetected ==> 0 < |t.inputFile| && 0 < |t.outputFile|) &&
      t.outputFile == (if |st.outputFile| == 0 then st.inputFile else st.outputFile) &&
      t.inputFile == st.inputFile && t.verbose == st.verbose &&
      t.majorVersion == st.majorVersion && t.minorVersion == st.minorVersion &&
      t.buildNumber == st.buildNumber && t.revision == st.revision &&
      |st.reports| <= |t.reports| <= |st.reports| + 1 && t.reports[..|st.reports|] == st.reports
  {
  }

  // ---------------------------------------------------------------------------

  class RCVersionOptions {
    var errorDetected: bool
    var majorVersion: int
    var minorVersion: int
    var buildNumber: int
    var revision: int
    var verbose: bool
    var inputFile: string
    var outputFile: string
    /** The messages printed through `Error`, oldest first */
    var reports: seq<Report>

    function State(): Settings
      reads this
    {
      Settings(errorDetected, majorVersion, minorVersion, buildNumber, revision, verbose,
        inputFile, outputFile, reports)
    }

    /** No error, every version number -1 (keep or apply the default), verbose, no paths */
    constructor()
      ensures State() == Settings(false, -1, -1, -1, -1, true, [], [], [])
    {
      errorDetected := false;
      majorVersion, minorVersion, buildNumber, revision := -1, -1, -1, -1;
      verbose := true;
      inputFile, outputFile := [], [];
      reports := [];
    }

    method Error(r: Report)
      modifies this
      ensures State() == Reported(old(State()), r)
    {
      errorDetected := true;
      reports := reports + [r];
    }

    method NumericOption(value: string) returns (n: int)
      modifies this
      ensures n == NumericResult(value)
      ensures State() == NumericChecked(old(State()), value)
    {
      var c := WcsToUl(value);
      if At(value, c.tail) == NUL {
        return ToInt(c.value);
      }
      Error(InvalidValue(value));
      return -1;
    }

    /** The arguments after the program name, left to right, with the flag cleared first; the
        result says whether no message was printed. */
    method Parse(argv: seq<string>, expand: string -> Option<string>) returns (ok: bool)
      modifies this
      ensures State() == ArgsApplied(old(State()).(errorDetected := false), Arguments(argv), expand)
      ensures ok == !errorDetected
      ensures ok <==> reports == old(reports)
    {
      errorDetected := false;
      ghost var start := State();
      var nArg := 1;
      while nArg < |argv|
        invariant 1 <= nArg <= |Arguments(argv)| + 1
        invariant State() == ArgsApplied(start, Arguments(argv)[..nArg - 1], expand)
      {
        ParseArgument(argv[nArg], expand);
        assert Arguments(argv)[..nArg][..nArg - 1] == Arguments(argv)[..nArg - 1];
        nArg := nArg + 1;
      }
      assert Arguments(argv)[..nArg - 1] == Arguments(argv);
      ArgsReports(start, Arguments(argv), expand);
      ok := !errorDetected;
    }

    /** The body of the loop of `Parse` for one argument */
    method ParseArgument(arg: string, expand: string -> Option<string>)
      modifies this
      ensures State() == ArgApplied(old(State()), arg, expand)
    {
      if At(arg, 0) == NUL {
        return;
      }
      if At(arg, 0) == '/' || At(arg, 0) == '-' {
        var code := ToLower(At(arg, 1));
        var colon := code != NUL && At(arg, 2) == ':';
        if !colon {
          Error(InvalidFormat(arg));
          return;
        }
        var value := arg[3..];
        if code == 'm' {
          if At(value, 0) != NUL {
            majorVersion := NumericOption(value);
          }
        } else if code == 'n' {
          if At(value, 0) != NUL {
            minorVersion := NumericOption(value);
          }
        } else if code == 'b' {
          if At(value, 0) != NUL {
            buildNumber := NumericOption(value);
          }
        } else if code == 'r' {
          if At(value, 0) != NUL {
            revision := NumericOption(value);
          }
        } else if code == 'o' {
          outputFile := PathOption(value, expand);
        } else if code == 'v' {
          var n := NumericOption(value);
          verbose := n != 0;
        } else {
          Error(UnknownOption(arg));
        }
      } else if |inputFile| == 0 {
        inputFile := PathOption(arg, expand);
      } else {
        Error(InputRepeated(arg));
      }
    }

    /** `accessible` is whether `GetFileAttributes` succeeds on a path. */
    method Validate(accessible: string -> bool) returns (ok: bool)
      modifies this
      ensures State() == Validated(old(State()), accessible)
      ensures ok == !errorDetected
    {
      if |inputFile| == 0 {
        Error(MissingInput);
      }
      if |outputFile| == 0 {
        outputFile := inputFile;
      }
      if errorDetected {
        return false;
      }
      if !accessible(inputFile) {
        Error(CannotAccess(inputFile));
      }
      return !errorDetected;
    }
  }
}
