/** `RCUpdater::UpdateVersion`: find the version block, collect the offsets of its version fields,
    then rewrite the fields from the last to the first, each with the override rule, so that an
    edit never moves a field that is still to be read. The count is reported only when every
    field was rewritten; a failed field leaves the edits already made in place. */
module VersionUpdate {
  import opened Wrappers
  import opened CString
  import opened Trim
  import opened Buffer
  import opened VersionRewriter
  import opened VersionLocator

  /** The string and its terminator lie inside the first `chars` characters of the buffer. */
  predicate Fits(s: seq<char>, chars: nat)
  {
    chars <= |s| && End(s, 0) < chars
  }

  /** The replacement a field calls for: where the old version text ends, and the new text */
  datatype Edit = Edit(tail: nat, text: seq<char>)

  /** The edit for the field at `offset`, worked out on `s`: `parse`, the overrides, then
      `format` into a 256-character buffer */
  function FieldEdit(s: seq<char>, offset: nat, xs: Overrides): (r: Option<Edit>)
    requires offset <= |s|
    ensures r.Some? ==> offset < r.value.tail <= End(s, offset) && NoNul(r.value.text)
    ensures r.Some? ==> ParseVersion(s, offset).Some? && r.value.tail == ParseVersion(s, offset).value.tail
  {
    match ParseVersion(s, offset)
    case None => None
    case Some(p) =>
      var v := Overridden(p.version, xs);
      match Format(v, VersionChars)
      case None => None
      case Some(text) =>
        FormatTextShape(v);
        Some(Edit(p.tail, text))
  }

  /** An edit that replaces part of the string at `offset` by text without a terminator */
  predicate EditWithin(s: seq<char>, offset: nat, e: Option<Edit>)
  {
    offset <= |s| && (e.Some? ==> offset < e.value.tail <= End(s, offset) && NoNul(e.value.text))
  }

  lemma FieldEditWithin(s: seq<char>, offset: nat, xs: Overrides)
    requires offset <= |s|
    ensures EditWithin(s, offset, FieldEdit(s, offset, xs))
  {
  }

  /** `replace` of the old version text by the new one, or nothing when there is no edit */
  function Applied(s: seq<char>, chars: nat, offset: nat, e: Option<Edit>): Option<seq<char>>
    requires Fits(s, chars) && offset <= End(s, 0) && EditWithin(s, offset, e)
  {
    EndShift(s, 0, offset);
    match e
    case None => None
    case Some(e) => Replaced(s, offset, chars - offset, e.tail - offset, e.text)
  }

  /** The buffer after an edit, whether it was applied or not */
  function AfterEdit(s: seq<char>, chars: nat, offset: nat, e: Option<Edit>): seq<char>
    requires Fits(s, chars) && offset <= End(s, 0) && EditWithin(s, offset, e)
  {
    var r := Applied(s, chars, offset, e);
    if r.Some? then r.value else s
  }

  /** An edit keeps the string inside `chars`, keeps everything before `offset`, and leaves the
      string running at least up to `offset`. */
  lemma AfterEditFits(s: seq<char>, chars: nat, offset: nat, e: Option<Edit>)
    requires Fits(s, chars) && offset <= End(s, 0) && EditWithin(s, offset, e)
    ensures Fits(AfterEdit(s, chars, offset, e), chars) && |AfterEdit(s, chars, offset, e)| == |s|
    ensures offset <= End(AfterEdit(s, chars, offset, e), 0)
    ensures SamePrefix(AfterEdit(s, chars, offset, e), s, offset)
  {
    EndShift(s, 0, offset);
    if Applied(s, chars, offset, e).Some? {
      ReplacedInText(s, offset, chars - offset, e.value.tail - offset, e.value.text);
    }
  }

  /** One pass of the offset loop: the buffer after the field at `offset` is rewritten, or
      nothing when parse, format or replace fails */
  function RewriteAt(s: seq<char>, chars: nat, offset: nat, xs: Overrides): Option<seq<char>>
    requires Fits(s, chars) && offset <= End(s, 0)
  {
    FieldEditWithin(s, offset, xs);
    Applied(s, chars, offset, FieldEdit(s, offset, xs))
  }

  /** The buffer after one pass of the offset loop, whether it succeeded or not */
  function After(s: seq<char>, chars: nat, offset: nat, xs: Overrides): seq<char>
    requires Fits(s, chars) && offset <= End(s, 0)
  {
    FieldEditWithin(s, offset, xs);
    AfterEdit(s, chars, offset, FieldEdit(s, offset, xs))
  }

  /** A pass keeps the string inside `chars`, keeps everything before `offset`, and leaves
      the string running at least up to `offset`. */
  lemma RewriteAtFits(s: seq<char>, chars: nat, offset: nat, xs: Overrides)
    requires Fits(s, chars) && offset <= End(s, 0)
    ensures Fits(After(s, chars, offset, xs), chars) && |After(s, chars, offset, xs)| == |s|
    ensures offset <= End(After(s, chars, offset, xs), 0)
    ensures SamePrefix(After(s, chars, offset, xs), s, offset)
  {
    FieldEditWithin(s, offset, xs);
    AfterEditFits(s, chars, offset, FieldEdit(s, offset, xs));
  }

  /** Offsets in strictly increasing order */
  predicate Increasing(offs: seq<nat>)
  {
    forall i :: 0 <= i < |offs| - 1 ==> offs[i] < offs[i + 1]
  }

  /** What the offset loop needs of the buffer and of the offsets still to be rewritten */
  predicate Editable(s: seq<char>, chars: nat, offs: seq<nat>)
  {
    Fits(s, chars) && Increasing(offs) && (0 < |offs| ==> offs[|offs| - 1] <= End(s, 0))
  }

  /** How the offset loop ends: the buffer, the replacements made, and whether none failed */
  datatype Outcome = Outcome(text: seq<char>, count: nat, success: bool)

  /** The offset loop over `offs`, from the last offset to the first */
  function RewriteAll(s: seq<char>, chars: nat, offs: seq<nat>, xs: Overrides): (o: Outcome)
    requires Editable(s, chars, offs)
    ensures |o.text| == |s|
    decreases |offs|
  {
    if |offs| == 0 then Outcome(s, 0, true)
    else
      var last := offs[|offs| - 1];
      var ok := RewriteAt(s, chars, last, xs).Some?;
      RewriteAtFits(s, chars, last, xs);
      Later(RewriteAll(After(s, chars, last, xs), chars, offs[..|offs| - 1], xs), if ok then 1 else 0, ok)
  }

  /** An outcome of the earlier offsets followed by the replacements already made */
  function Later(o: Outcome, made: nat, success: bool): Outcome
  {
    Outcome(o.text, o.count + made, o.success && success)
  }

  /** What `UpdateVersion` leaves: the buffer and the number it returns */
  datatype Update = Update(text: seq<char>, count: nat)

  /** The fields FindVersionStrings reports after the start of the version block, with `table`
      the keyword table */
  function VersionFields(table: seq<seq<char>>, s: seq<char>): seq<nat>
    requires WellFormedTable(table)
  {
    var start := StartOfVersion(s, 0);
    if start == 0 then [] else VersionOffsets(table, s, start)
  }

  /** `UpdateVersion`: 0 and no change without a version block or without fields in it; otherwise
      the offset loop, whose count is reported only when no field failed */
  function UpdatedVersion(table: seq<seq<char>>, s: seq<char>, chars: nat, xs: Overrides): Update
    requires WellFormedTable(table) && Fits(s, chars)
  {
    var offs := VersionFields(table, s);
    if StartOfVersion(s, 0) == 0 || |offs| == 0 then Update(s, 0)
    else
      FieldsEditable(table, s, chars);
      var o := RewriteAll(s, chars, offs, xs);
      Update(o.text, if o.success then o.count else 0)
  }

  // ---------------------------------------------------------------------------
  // What the offset loop promises
  // ---------------------------------------------------------------------------

  /** Fields on different lines come in increasing order. */
  lemma ApartIncreasing(s: seq<char>, offs: seq<nat>)
    requires OnSeparateLines(s, offs)
    ensures Increasing(offs)
  {
  }

  /** The fields found in a buffer that fits can be rewritten by the offset loop, and they lie on
      different lines. */
  lemma FieldsEditable(table: seq<seq<char>>, s: seq<char>, chars: nat)
    requires WellFormedTable(table) && Fits(s, chars)
    ensures Editable(s, chars, VersionFields(table, s))
    ensures OnSeparateLines(s, VersionFields(table, s))
  {
    var start := StartOfVersion(s, 0);
    if start != 0 {
      var offs := VersionOffsets(table, s, start);
      VersionOffsetsWithin(table, s, start);
      VersionOffsetsApart(table, s, start);
      ApartIncreasing(s, offs);
      EndShift(s, 0, start);
      if 0 < |offs| {
        assert offs[|offs| - 1] <= End(s, start);
      }
      assert VersionFields(table, s) == offs;
    }
  }

  /** The loop reports a success for each offset at most, and for each offset when none failed. */
  lemma {:induction false} RewriteAllCount(s: seq<char>, chars: nat, offs: seq<nat>, xs: Overrides)
    requires Editable(s, chars, offs)
    ensures RewriteAll(s, chars, offs, xs).count <= |offs|
    ensures RewriteAll(s, chars, offs, xs).success ==> RewriteAll(s, chars, offs, xs).count == |offs|
    decreases |offs|
  {
    if 0 < |offs| {
      var last := offs[|offs| - 1];
      RewriteAtFits(s, chars, last, xs);
      RewriteAllCount(After(s, chars, last, xs), chars, offs[..|offs| - 1], xs);
    }
  }

  /** The loop changes nothing before the first offset, and keeps the buffer size. */
  lemma {:induction false} RewriteAllKeepsPrefix(s: seq<char>, chars: nat, offs: seq<nat>, xs: Overrides)
    requires Editable(s, chars, offs) && 0 < |offs|
    ensures SamePrefix(RewriteAll(s, chars, offs, xs).text, s, offs[0])
    decreases |offs|
  {
    var last := offs[|offs| - 1];
    RewriteAtFits(s, chars, last, xs);
    IncreasingBelowLast(offs, 0);
    if 1 < |offs| {
      RewriteAllKeepsPrefix(After(s, chars, last, xs), chars, offs[..|offs| - 1], xs);
      assert offs[..|offs| - 1][0] == offs[0];
      IncreasingBelowLast(offs, 0);
    }
  }

  lemma {:induction false} IncreasingBelowLast(offs: seq<nat>, i: nat)
    requires Increasing(offs) && i < |offs|
    ensures offs[i] <= offs[|offs| - 1]
    decreases |offs| - i
  {
    if i < |offs| - 1 {
      IncreasingBelowLast(offs, i + 1);
    }
  }

  /** The offsets after one of them still satisfy what the loop needs. */
  lemma SuffixEditable(s: seq<char>, chars: nat, offs: seq<nat>, i: nat)
    requires Editable(s, chars, offs) && i <= |offs|
    ensures Editable(s, chars, offs[i..])
  {
  }

  /** Reverse order at work: once the fields after `offs[i]` are rewritten, the field at `offs[i]`
      still parses as it did in the original text, because every later edit lies past the line
      feed that ends the line of `offs[i]`. */
  lemma ParsesOriginal(s: seq<char>, chars: nat, offs: seq<nat>, xs: Overrides, i: nat)
    requires Editable(s, chars, offs) && i < |offs|
    requires OnSeparateLines(s, offs)
    ensures Editable(s, chars, offs[i + 1..])
    ensures ParseVersion(RewriteAll(s, chars, offs[i + 1..], xs).text, offs[i]) == ParseVersion(s, offs[i])
  {
    SuffixEditable(s, chars, offs, i + 1);
    var suffix := offs[i + 1..];
    if 0 < |suffix| {
      var t := RewriteAll(s, chars, suffix, xs).text;
      RewriteAllKeepsPrefix(s, chars, suffix, xs);
      assert suffix[0] == offs[i + 1];
      var m := NextLinePos(s, offs[i]) - 1;
      assert LinesApart(s, offs[i], offs[i + 1]);
      ParseLocal(s, t, offs[i], m);
    }
  }

  // ---------------------------------------------------------------------------
  // What UpdateVersion promises
  // ---------------------------------------------------------------------------

  /** Without `VERSIONINFO` anywhere the buffer is left alone and the result is 0. */
  lemma NoVersionInfoNoUpdate(table: seq<seq<char>>, s: seq<char>, chars: nat, xs: Overrides)
    requires WellFormedTable(table) && Fits(s, chars)
    requires forall k :: 0 <= k <= |s| ==> !Matches(s, k, VersionInfo)
    ensures UpdatedVersion(table, s, chars, xs) == Update(s, 0)
  {
    NoVersionInfoNoStart(s, 0);
  }

  /** All or nothing: the result is 0 or the number of version fields. */
  lemma AllOrNothing(table: seq<seq<char>>, s: seq<char>, chars: nat, xs: Overrides)
    requires WellFormedTable(table) && Fits(s, chars)
    ensures UpdatedVersion(table, s, chars, xs).count == 0 ||
            UpdatedVersion(table, s, chars, xs).count == |VersionFields(table, s)|
  {
    if StartOfVersion(s, 0) != 0 && 0 < |VersionFields(table, s)| {
      FieldsEditable(table, s, chars);
      RewriteAllCount(s, chars, VersionFields(table, s), xs);
    }
  }

  /** Nothing before the first version field changes, and the buffer keeps its size. */
  lemma UpdateKeepsPrefix(table: seq<seq<char>>, s: seq<char>, chars: nat, xs: Overrides)
    requires WellFormedTable(table) && Fits(s, chars) && 0 < |VersionFields(table, s)|
    ensures |UpdatedVersion(table, s, chars, xs).text| == |s|
    ensures SamePrefix(UpdatedVersion(table, s, chars, xs).text, s, VersionFields(table, s)[0])
  {
    FieldsEditable(table, s, chars);
    RewriteAllKeepsPrefix(s, chars, VersionFields(table, s), xs);
  }

  // ---------------------------------------------------------------------------
  // What a successful UpdateVersion leaves
  // ---------------------------------------------------------------------------

  /** The new version text of the field at `o`: the version parsed there, with the overrides,
      formatted */
  function NewText(s: seq<char>, o: nat, xs: Overrides): seq<char>
    requires o <= |s| && ParseVersion(s, o).Some?
  {
    FormatText(Overridden(ParseVersion(s, o).value.version, xs))
  }

  /** Every field from the first of `offs` on parses, its new text fits the scratch text, and its
      old text ends before the next field does; `p` is where the text kept before the first field
      begins. */
  predicate Spans(s: seq<char>, offs: seq<nat>, xs: Overrides, p: nat)
    decreases |offs|
  {
    p <= End(s, 0) &&
    (0 < |offs| ==>
      p <= offs[0] <= |s| && ParseVersion(s, offs[0]).Some? &&
      |NewText(s, offs[0], xs)| < VersionChars &&
      ParseVersion(s, offs[0]).value.tail <= End(s, 0) &&
      Spans(s, offs[1..], xs, ParseVersion(s, offs[0]).value.tail))
  }

  /** The string a successful rewrite leaves, worked out on the original text from front to back:
      the text before the first field, that field's new version, the text from its old `tail` up
      to the next field, ..., and the text after the last field's `tail` */
  function Rewritten(s: seq<char>, offs: seq<nat>, xs: Overrides, p: nat): seq<char>
    requires Spans(s, offs, xs, p)
    decreases |offs|
  {
    if |offs| == 0 then s[p..End(s, 0)]
    else
      s[p..offs[0]] + NewText(s, offs[0], xs) +
      Rewritten(s, offs[1..], xs, ParseVersion(s, offs[0]).value.tail)
  }

  /** A line feed `lfs[i]` between each field and the next */
  predicate Breaks(s: seq<char>, offs: seq<nat>, lfs: seq<nat>)
  {
    |offs| <= |lfs| + 1 &&
    forall i :: 0 <= i < |offs| - 1 ==> offs[i] <= lfs[i] < offs[i + 1] && lfs[i] < |s| && s[lfs[i]] == '\n'
  }

  /** Fields on separate lines have a line feed between each one and the next. */
  lemma {:induction false} LineBreaks(s: seq<char>, offs: seq<nat>) returns (lfs: seq<nat>)
    requires OnSeparateLines(s, offs)
    ensures Breaks(s, offs, lfs)
    decreases |offs|
  {
    if |offs| <= 1 {
      lfs := [];
    } else {
      assert OnSeparateLines(s, offs[1..]) by {
        forall i | 0 <= i < |offs[1..]| - 1
          ensures offs[1..][i] <= |s| && LinesApart(s, offs[1..][i], offs[1..][i + 1])
        {
          assert offs[1..][i] == offs[i + 1] && offs[1..][i + 1] == offs[i + 2];
        }
      }
      var rest := LineBreaks(s, offs[1..]);
      assert LinesApart(s, offs[0], offs[1]);
      lfs := [NextLinePos(s, offs[0]) - 1] + rest;
      forall i | 0 <= i < |offs| - 1
        ensures offs[i] <= lfs[i] < offs[i + 1] && lfs[i] < |s| && s[lfs[i]] == '\n'
      {
        if 0 < i {
          assert lfs[i] == rest[i - 1] && offs[i] == offs[1..][i - 1] && offs[i + 1] == offs[1..][i];
        }
      }
    }
  }

  /** The edit of a field is its parse with the new text, whenever that text fits. */
  lemma FieldEditIs(s: seq<char>, o: nat, xs: Overrides)
    requires o <= |s|
    ensures FieldEdit(s, o, xs).Some? <==> ParseVersion(s, o).Some? && |NewText(s, o, xs)| < VersionChars
    ensures FieldEdit(s, o, xs).Some? ==>
      FieldEdit(s, o, xs).value == Edit(ParseVersion(s, o).value.tail, NewText(s, o, xs))
  {
  }

  /** A buffer that agrees with `s` before `b` parses alike at a field `a` with a line feed `m`
      between the two, and that parse ends before the line feed. */
  lemma ParseKept(s: seq<char>, r: seq<char>, a: nat, m: nat, b: nat)
    requires a <= m < b && m < |s| && s[m] == '\n' && SamePrefix(r, s, b)
    ensures a <= |r| && ParseVersion(r, a) == ParseVersion(s, a)
    ensures ParseVersion(s, a).Some? ==> ParseVersion(s, a).value.tail <= m
  {
    ParseLocal(s, r, a, m);
  }

  /** The line feeds between fields before the last one are kept by a buffer that agrees with `s`
      before the last field. */
  lemma BreaksKept(s: seq<char>, r: seq<char>, offs: seq<nat>, lfs: seq<nat>)
    requires Breaks(s, offs, lfs) && 0 < |offs| && SamePrefix(r, s, offs[|offs| - 1])
    ensures Breaks(r, offs[..|offs| - 1], lfs)
  {
    var init := offs[..|offs| - 1];
    forall i | 0 <= i < |init| - 1
      ensures init[i] <= lfs[i] < init[i + 1] && lfs[i] < |r| && r[lfs[i]] == '\n'
    {
      BreaksBelowLast(s, offs, lfs, i + 1);
    }
  }

  /** Every field lies at or before the last one. */
  lemma {:induction false} BreaksBelowLast(s: seq<char>, offs: seq<nat>, lfs: seq<nat>, i: nat)
    requires Breaks(s, offs, lfs) && i < |offs|
    ensures offs[i] <= offs[|offs| - 1]
    decreases |offs| - i
  {
    if i < |offs| - 1 {
      BreaksBelowLast(s, offs, lfs, i + 1);
    }
  }

  /** After a successful `replace` inside the script, the string is the text before the field,
      the new text and the text after the replaced characters, and nothing before the field
      changed. */
  lemma StrAfterReplace(s: seq<char>, o: nat, total: nat, oldChars: nat, text: seq<char>, tail: nat)
    requires ReplaceArgs(s, o, total, oldChars) && NoNul(text) && o <= End(s, 0) && tail == o + oldChars
    requires Replaced(s, o, total, oldChars, text).Some?
    ensures tail <= End(s, 0)
    ensures var r := Replaced(s, o, total, oldChars, text).value;
      |r| == |s| && SamePrefix(r, s, o) && o <= End(r, 0) &&
      Str(r, 0) == s[..o] + text + s[tail..End(s, 0)]
  {
    var r := Replaced(s, o, total, oldChars, text).value;
    ReplacedString(s, o, total, oldChars, text);
    ReplacedInText(s, o, total, oldChars, text);
    EndShift(s, 0, o);
    EndShift(r, 0, o);
    StrSplitAt(r, s, o, text, s[o + oldChars..End(s, o)]);
  }

  /** A string that agrees with `s` before `o` and reads `x + y` from `o` on reads the prefix of
      `s`, then `x + y`. */
  lemma StrSplitAt(r: seq<char>, s: seq<char>, o: nat, x: seq<char>, y: seq<char>)
    requires o <= End(r, 0) && o <= |s| && r[..o] == s[..o]
    requires End(r, o) == End(r, 0) && Str(r, o) == x + y
    ensures Str(r, 0) == s[..o] + x + y
  {
    assert r[..End(r, 0)] == r[..o] + r[o..End(r, 0)];
  }

  /** An applied edit leaves the text before it, its new text and the text after its old tail. */
  lemma StrAfterApplied(s: seq<char>, chars: nat, o: nat, e: Edit)
    requires Fits(s, chars) && o <= End(s, 0) && EditWithin(s, o, Some(e)) && NoNul(e.text)
    requires Applied(s, chars, o, Some(e)).Some?
    ensures e.tail <= End(s, 0)
    ensures var r := AfterEdit(s, chars, o, Some(e));
      |r| == |s| && SamePrefix(r, s, o) && o <= End(r, 0) &&
      Str(r, 0) == s[..o] + e.text + s[e.tail..End(s, 0)]
  {
    EndShift(s, 0, o);
    StrAfterReplace(s, o, chars - o, e.tail - o, e.text, e.tail);
  }

  /** After the last field is rewritten, the string is the text before it, its new version and
      the text after its old `tail`, and nothing before it changed. */
  lemma StrAfterEdit(s: seq<char>, chars: nat, o: nat, xs: Overrides)
    requires Fits(s, chars) && o <= End(s, 0) && RewriteAt(s, chars, o, xs).Some?
    ensures ParseVersion(s, o).Some? && |NewText(s, o, xs)| < VersionChars
    ensures o < ParseVersion(s, o).value.tail <= End(s, 0)
    ensures var r := After(s, chars, o, xs);
      |r| == |s| && SamePrefix(r, s, o) && o <= End(r, 0) &&
      Str(r, 0) == s[..o] + NewText(s, o, xs) + s[ParseVersion(s, o).value.tail..End(s, 0)]
  {
    FieldEditWithin(s, o, xs);
    FieldEditIs(s, o, xs);
    var e := FieldEdit(s, o, xs).value;
    FieldEditSome(s, chars, o, xs, e);
    StrAfterApplied(s, chars, o, e);
  }

  /** Rewriting the last field first and then the fields before it agrees with the reference on
      the original text, which applies the edits from front to back. */
  lemma {:induction false} RewrittenLast(s: seq<char>, r: seq<char>, offs: seq<nat>, lfs: seq<nat>, xs: Overrides, p: nat)
    requires 0 < |offs| && Breaks(s, offs, lfs) && p <= offs[0]
    requires offs[|offs| - 1] <= |s| && ParseVersion(s, offs[|offs| - 1]).Some?
    requires |NewText(s, offs[|offs| - 1], xs)| < VersionChars
    requires ParseVersion(s, offs[|offs| - 1]).value.tail <= End(s, 0)
    requires SamePrefix(r, s, offs[|offs| - 1]) && offs[|offs| - 1] <= End(r, 0)
    requires Str(r, 0) == s[..offs[|offs| - 1]] + NewText(s, offs[|offs| - 1], xs) +
                          s[ParseVersion(s, offs[|offs| - 1]).value.tail..End(s, 0)]
    requires Spans(r, offs[..|offs| - 1], xs, p)
    ensures Spans(s, offs, xs, p)
    ensures Rewritten(s, offs, xs, p) == Rewritten(r, offs[..|offs| - 1], xs, p)
    decreases |offs|
  {
    var last := offs[|offs| - 1];
    var init := offs[..|offs| - 1];
    if |offs| == 1 {
      var t, nt := ParseVersion(s, last).value.tail, NewText(s, last, xs);
      StrSuffix(r, s, p, last, nt, t);
      assert Rewritten(s, offs, xs, p) == s[p..last] + nt + s[t..End(s, 0)];
    } else {
      var o0, m := offs[0], lfs[0];
      assert o0 <= m < offs[1] && m < |s| && s[m] == '\n';
      BreaksBelowLast(s, offs, lfs, 1);
      ParseKept(s, r, o0, m, last);
      var t0 := ParseVersion(s, o0).value.tail;
      var rest, lrest := offs[1..], lfs[1..];
      BreaksTail(s, offs, lfs);
      assert rest[|rest| - 1] == last;
      assert init[0] == o0;
      InitTail(offs);
      RewrittenLast(s, r, rest, lrest, xs, t0);
      PrefixSlice(r, s, last, p, o0);
      assert NewText(s, o0, xs) == NewText(r, o0, xs);
      assert Rewritten(r, init, xs, p) == r[p..o0] + NewText(r, o0, xs) + Rewritten(r, init[1..], xs, t0);
    }
  }

  /** Dropping the first field keeps the line feeds between the others. */
  lemma BreaksTail(s: seq<char>, offs: seq<nat>, lfs: seq<nat>)
    requires Breaks(s, offs, lfs) && 1 < |offs|
    ensures 0 < |lfs| && Breaks(s, offs[1..], lfs[1..])
  {
    forall i | 0 <= i < |offs| - 2
      ensures offs[1..][i] <= lfs[1..][i] < offs[1..][i + 1]
    {
      assert offs[i + 1] <= lfs[i + 1] < offs[i + 2];
    }
  }

  /** Dropping the last field and then the first is dropping the first and then the last. */
  lemma InitTail(offs: seq<nat>)
    requires 1 < |offs|
    ensures offs[..|offs| - 1][1..] == offs[1..][..|offs| - 2]
  {
  }

  /** What follows `p` in a string that is `s` up to `last`, then `text`, then `s` from `t` on */
  lemma StrSuffix(r: seq<char>, s: seq<char>, p: nat, last: nat, text: seq<char>, t: nat)
    requires p <= last <= t <= End(s, 0) && last <= End(r, 0)
    requires Str(r, 0) == s[..last] + text + s[t..End(s, 0)]
    ensures r[p..End(r, 0)] == s[p..last] + text + s[t..End(s, 0)]
  {
    assert r[p..End(r, 0)] == Str(r, 0)[p..];
  }

  /** Two buffers that agree before `n` agree on every slice below `n`. */
  lemma PrefixSlice(r: seq<char>, s: seq<char>, n: nat, p: nat, q: nat)
    requires SamePrefix(r, s, n) && p <= q <= n
    ensures r[p..q] == s[p..q]
  {
  }

  /** The offset loop, when no pass fails, leaves the string `Rewritten` describes. */
  lemma {:induction false} RewriteAllText(s: seq<char>, chars: nat, offs: seq<nat>, lfs: seq<nat>, xs: Overrides)
    requires Editable(s, chars, offs) && Breaks(s, offs, lfs) && RewriteAll(s, chars, offs, xs).success
    ensures Spans(s, offs, xs, 0)
    ensures Str(RewriteAll(s, chars, offs, xs).text, 0) == Rewritten(s, offs, xs, 0)
    decreases |offs|
  {
    if 0 < |offs| {
      var last := offs[|offs| - 1];
      RewriteAllStep(s, chars, offs, xs);
      var r := After(s, chars, last, xs);
      StrAfterEdit(s, chars, last, xs);
      BreaksKept(s, r, offs, lfs);
      RewriteAllText(r, chars, offs[..|offs| - 1], lfs, xs);
      RewrittenLast(s, r, offs, lfs, xs, 0);
    }
  }

  /** Every field a reference spans parses, and its new text fits the scratch text. */
  lemma {:induction false} SpansField(s: seq<char>, offs: seq<nat>, xs: Overrides, p: nat, i: nat)
    requires Spans(s, offs, xs, p) && i < |offs|
    ensures offs[i] <= |s| && FieldEdit(s, offs[i], xs).Some?
    decreases i
  {
    if 0 < i {
      SpansField(s, offs[1..], xs, ParseVersion(s, offs[0]).value.tail, i - 1);
      assert offs[1..][i - 1] == offs[i];
    }
    FieldEditIs(s, offs[i], xs);
  }

  /** A field whose old text is at least as long as its new one */
  predicate Shrinks(s: seq<char>, o: nat, xs: Overrides)
  {
    o <= |s| && ParseVersion(s, o).Some? && |NewText(s, o, xs)| < VersionChars &&
    o + |NewText(s, o, xs)| <= ParseVersion(s, o).value.tail
  }

  /** When no field grows, no `replace` runs out of room, so every pass succeeds. */
  lemma {:induction false} NotGrowingSucceeds(s: seq<char>, chars: nat, offs: seq<nat>, lfs: seq<nat>, xs: Overrides)
    requires Editable(s, chars, offs) && Breaks(s, offs, lfs)
    requires forall i :: 0 <= i < |offs| ==> Shrinks(s, offs[i], xs)
    ensures RewriteAll(s, chars, offs, xs).success && RewriteAll(s, chars, offs, xs).count == |offs|
    decreases |offs|
  {
    if 0 < |offs| {
      var last, init := offs[|offs| - 1], offs[..|offs| - 1];
      assert Shrinks(s, last, xs);
      RewriteAllStep(s, chars, offs, xs);
      FieldEditIs(s, last, xs);
      var e := FieldEdit(s, last, xs).value;
      FieldEditSome(s, chars, last, xs, e);
      ReplaceNotGrowing(s, last, chars - last, e.tail - last, e.text);
      var r := After(s, chars, last, xs);
      StrAfterEdit(s, chars, last, xs);
      BreaksKept(s, r, offs, lfs);
      forall i | 0 <= i < |init| ensures Shrinks(r, init[i], xs) {
        assert Shrinks(s, offs[i], xs);
        BreaksBelowLast(s, offs, lfs, i + 1);
        ParseKept(s, r, offs[i], lfs[i], last);
      }
      NotGrowingSucceeds(r, chars, init, lfs, xs);
    }
  }

  /** When `UpdateVersion` reports replacements, the buffer's string is the reference worked out
      on the original text. */
  lemma UpdatedText(table: seq<seq<char>>, s: seq<char>, chars: nat, xs: Overrides)
    requires WellFormedTable(table) && Fits(s, chars) && 0 < UpdatedVersion(table, s, chars, xs).count
    ensures Spans(s, VersionFields(table, s), xs, 0)
    ensures Str(UpdatedVersion(table, s, chars, xs).text, 0) == Rewritten(s, VersionFields(table, s), xs, 0)
  {
    var offs := VersionFields(table, s);
    FieldsEditable(table, s, chars);
    var lfs := LineBreaks(s, offs);
    RewriteAllText(s, chars, offs, lfs, xs);
  }

  /** A field that does not parse, or whose new version does not fit the scratch text, makes
      `UpdateVersion` report nothing. */
  lemma FailedFieldFailsAll(table: seq<seq<char>>, s: seq<char>, chars: nat, xs: Overrides, i: nat)
    requires WellFormedTable(table) && Fits(s, chars) && i < |VersionFields(table, s)|
    ensures VersionFields(table, s)[i] <= |s|
    ensures FieldEdit(s, VersionFields(table, s)[i], xs).None? ==> UpdatedVersion(table, s, chars, xs).count == 0
  {
    FieldsEditable(table, s, chars);
    IncreasingBelowLast(VersionFields(table, s), i);
    if 0 < UpdatedVersion(table, s, chars, xs).count {
      UpdatedText(table, s, chars, xs);
      SpansField(s, VersionFields(table, s), xs, 0, i);
    }
  }

  /** When no field grows, `UpdateVersion` rewrites every field it finds. */
  lemma NotGrowingUpdates(table: seq<seq<char>>, s: seq<char>, chars: nat, xs: Overrides)
    requires WellFormedTable(table) && Fits(s, chars)
    requires forall o :: o in VersionFields(table, s) ==> Shrinks(s, o, xs)
    ensures UpdatedVersion(table, s, chars, xs).count == |VersionFields(table, s)|
  {
    var offs := VersionFields(table, s);
    FieldsEditable(table, s, chars);
    if StartOfVersion(s, 0) != 0 && 0 < |offs| {
      var lfs := LineBreaks(s, offs);
      NotGrowingSucceeds(s, chars, offs, lfs, xs);
    }
  }

  /** A field that parses and whose new version fits the scratch text */
  predicate Formats(s: seq<char>, o: nat, xs: Overrides)
  {
    o <= |s| && ParseVersion(s, o).Some? && |NewText(s, o, xs)| < VersionChars
  }

  /** The characters of all the new versions of `offs` together */
  function NewChars(s: seq<char>, offs: seq<nat>, xs: Overrides): nat
    requires forall i :: 0 <= i < |offs| ==> Formats(s, offs[i], xs)
    decreases |offs|
  {
    if |offs| == 0 then 0
    else
      var last := offs[|offs| - 1];
      assert Formats(s, last, xs);
      NewChars(s, offs[..|offs| - 1], xs) + |NewText(s, last, xs)|
  }

  /** Buffers whose fields have the same new versions need the same room. */
  lemma {:induction false} NewCharsKept(s: seq<char>, r: seq<char>, offs: seq<nat>, xs: Overrides)
    requires forall i :: 0 <= i < |offs| ==>
      (Formats(s, offs[i], xs) && Formats(r, offs[i], xs) && NewText(r, offs[i], xs) == NewText(s, offs[i], xs))
    ensures NewChars(r, offs, xs) == NewChars(s, offs, xs)
    decreases |offs|
  {
    if 0 < |offs| {
      NewCharsKept(s, r, offs[..|offs| - 1], xs);
    }
  }

  /** When the string with every new version added still leaves room for the terminator, no
      `replace` runs out of room, however much the fields grow, so every pass succeeds. */
  lemma {:induction false} RoomSucceeds(s: seq<char>, chars: nat, offs: seq<nat>, lfs: seq<nat>, xs: Overrides)
    requires Editable(s, chars, offs) && Breaks(s, offs, lfs)
    requires forall i :: 0 <= i < |offs| ==> Formats(s, offs[i], xs)
    requires End(s, 0) + NewChars(s, offs, xs) < chars
    ensures RewriteAll(s, chars, offs, xs).success && RewriteAll(s, chars, offs, xs).count == |offs|
    decreases |offs|
  {
    if 0 < |offs| {
      var last, init := offs[|offs| - 1], offs[..|offs| - 1];
      RewriteAllStep(s, chars, offs, xs);
      RoomAfterLast(s, chars, offs, init, lfs, xs);
      RoomSucceeds(After(s, chars, last, xs), chars, init, lfs, xs);
    }
  }

  /** The last field is rewritten, and what is left of the room covers the fields before it. */
  lemma RoomAfterLast(s: seq<char>, chars: nat, offs: seq<nat>, init: seq<nat>, lfs: seq<nat>, xs: Overrides)
    requires Editable(s, chars, offs) && Breaks(s, offs, lfs) && 0 < |offs| && init == offs[..|offs| - 1]
    requires forall i :: 0 <= i < |offs| ==> Formats(s, offs[i], xs)
    requires End(s, 0) + NewChars(s, offs, xs) < chars
    ensures RewriteAt(s, chars, offs[|offs| - 1], xs).Some?
    ensures var r := After(s, chars, offs[|offs| - 1], xs);
      Editable(r, chars, init) && Breaks(r, init, lfs) &&
      (forall i :: 0 <= i < |init| ==> Formats(r, init[i], xs)) &&
      End(r, 0) + NewChars(r, init, xs) < chars
  {
    var last := offs[|offs| - 1];
    LastFieldFits(s, chars, offs, init, xs);
    RewriteAllStep(s, chars, offs, xs);
    RewriteAtFits(s, chars, last, xs);
    BreaksKept(s, After(s, chars, last, xs), offs, lfs);
    RoomLeft(s, chars, offs, init, lfs, xs);
  }

  /** The room covers the last field's new version. */
  lemma LastFieldFits(s: seq<char>, chars: nat, offs: seq<nat>, init: seq<nat>, xs: Overrides)
    requires Editable(s, chars, offs) && 0 < |offs| && init == offs[..|offs| - 1]
    requires forall i :: 0 <= i < |offs| ==> Formats(s, offs[i], xs)
    requires End(s, 0) + NewChars(s, offs, xs) < chars
    ensures offs[|offs| - 1] <= End(s, 0) && RewriteAt(s, chars, offs[|offs| - 1], xs).Some?
  {
    var last := offs[|offs| - 1];
    assert Formats(s, last, xs);
    LastFieldRewritten(s, chars, last, xs, NewChars(s, init, xs));
  }

  /** After the last field is rewritten, the room left covers the new versions of the others. */
  lemma RoomLeft(s: seq<char>, chars: nat, offs: seq<nat>, init: seq<nat>, lfs: seq<nat>, xs: Overrides)
    requires Editable(s, chars, offs) && Breaks(s, offs, lfs) && 0 < |offs| && init == offs[..|offs| - 1]
    requires forall i :: 0 <= i < |offs| ==> Formats(s, offs[i], xs)
    requires End(s, 0) + NewChars(s, offs, xs) < chars
    requires RewriteAt(s, chars, offs[|offs| - 1], xs).Some?
    ensures var r := After(s, chars, offs[|offs| - 1], xs);
      (forall i :: 0 <= i < |init| ==> Formats(r, init[i], xs)) &&
      End(r, 0) + NewChars(r, init, xs) < chars
  {
    var last := offs[|offs| - 1];
    var r := After(s, chars, last, xs);
    StrAfterEdit(s, chars, last, xs);
    EarlierFieldsKept(s, r, offs, init, lfs, xs);
    assert End(r, 0) == |Str(r, 0)|;
  }

  /** The fields before the last one format alike, and need the same room, in a buffer that
      agrees with `s` before the last field. */
  lemma EarlierFieldsKept(s: seq<char>, r: seq<char>, offs: seq<nat>, init: seq<nat>, lfs: seq<nat>, xs: Overrides)
    requires Breaks(s, offs, lfs) && 0 < |offs| && SamePrefix(r, s, offs[|offs| - 1])
    requires init == offs[..|offs| - 1]
    requires forall i :: 0 <= i < |offs| ==> Formats(s, offs[i], xs)
    ensures forall i :: 0 <= i < |init| ==> Formats(s, init[i], xs) && Formats(r, init[i], xs)
    ensures NewChars(r, init, xs) == NewChars(s, init, xs)
  {
    var last := offs[|offs| - 1];
    forall i | 0 <= i < |init|
      ensures Formats(r, init[i], xs) && NewText(r, init[i], xs) == NewText(s, init[i], xs)
    {
      assert Formats(s, offs[i], xs);
      BreaksBelowLast(s, offs, lfs, i + 1);
      ParseKept(s, r, offs[i], lfs[i], last);
    }
    NewCharsKept(s, r, init, xs);
  }

  /** The last field is rewritten when the string, its new version and `more` characters still
      fit. */
  lemma LastFieldRewritten(s: seq<char>, chars: nat, last: nat, xs: Overrides, more: nat)
    requires Fits(s, chars) && last <= End(s, 0) && Formats(s, last, xs)
    requires End(s, 0) + more + |NewText(s, last, xs)| < chars
    ensures RewriteAt(s, chars, last, xs).Some?
  {
    FieldEditIs(s, last, xs);
    var e := FieldEdit(s, last, xs).value;
    FieldEditSome(s, chars, last, xs, e);
    EndShift(s, 0, last);
  }

  /** When every field parses and formats and the string with all their new versions added
      fits the buffer, `UpdateVersion` rewrites every field it finds, fields that grow included. */
  lemma RoomUpdates(table: seq<seq<char>>, s: seq<char>, chars: nat, xs: Overrides)
    requires WellFormedTable(table) && Fits(s, chars)
    requires forall i :: 0 <= i < |VersionFields(table, s)| ==> Formats(s, VersionFields(table, s)[i], xs)
    requires End(s, 0) + NewChars(s, VersionFields(table, s), xs) < chars
    ensures UpdatedVersion(table, s, chars, xs).count == |VersionFields(table, s)|
  {
    var offs := VersionFields(table, s);
    FieldsEditable(table, s, chars);
    if StartOfVersion(s, 0) != 0 && 0 < |offs| {
      var lfs := LineBreaks(s, offs);
      RoomSucceeds(s, chars, offs, lfs, xs);
    }
  }

  /** The overrides of a run with no option given: keep every part and increment the build */
  const KeepAll: Overrides := Overrides(-1, -1, -1, -1)

  /** A version with its build incremented */
  function Bumped(v: Version): Version
  {
    Version(v.major, v.minor, v.build + 1, v.revision)
  }

  /** Two fields on the first two lines that do not grow are both rewritten. */
  lemma TwoFieldsSucceed(s: seq<char>, chars: nat, c: nat, xs: Overrides)
    requires Fits(s, chars) && 0 < c <= End(s, 0) && s[c - 1] == '\n'
    requires Shrinks(s, 0, xs) && Shrinks(s, c, xs)
    ensures Editable(s, chars, [0, c]) && Breaks(s, [0, c], [c - 1])
    ensures RewriteAll(s, chars, [0, c], xs).success && RewriteAll(s, chars, [0, c], xs).count == 2
  {
    PairLaidOut(s, chars, c);
    PairShrinks(s, c, xs);
    NotGrowingSucceeds(s, chars, [0, c], [c - 1], xs);
  }

  /** The offsets of two fields at the start of the first two lines */
  lemma PairLaidOut(s: seq<char>, chars: nat, c: nat)
    requires Fits(s, chars) && 0 < c <= End(s, 0) && s[c - 1] == '\n'
    ensures Editable(s, chars, [0, c]) && Breaks(s, [0, c], [c - 1])
  {
  }

  lemma PairShrinks(s: seq<char>, c: nat, xs: Overrides)
    requires Shrinks(s, 0, xs) && Shrinks(s, c, xs)
    ensures forall i :: 0 <= i < |[0, c]| ==> Shrinks(s, [0, c][i], xs)
  {
  }

  /** After rewriting two fields the string is the first new text, the rest of the first line,
      the second new text and the rest. */
  lemma TwoFieldsText(s: seq<char>, chars: nat, c: nat, xs: Overrides, t0: nat, t1: nat, n0: seq<char>, n1: seq<char>)
    requires 0 < c && Editable(s, chars, [0, c]) && Breaks(s, [0, c], [c - 1])
    requires RewriteAll(s, chars, [0, c], xs).success
    requires c <= |s| && ParseVersion(s, 0).Some? && ParseVersion(s, c).Some?
    requires ParseVersion(s, 0).value.tail == t0 && ParseVersion(s, c).value.tail == t1
    requires NewText(s, 0, xs) == n0 && NewText(s, c, xs) == n1
    ensures t0 <= c && t1 <= End(s, 0)
    ensures Str(RewriteAll(s, chars, [0, c], xs).text, 0) == n0 + s[t0..c] + n1 + s[t1..End(s, 0)]
  {
    var offs, lfs := [0, c], [c - 1];
    RewriteAllText(s, chars, offs, lfs, xs);
    RewrittenTwo(s, offs, xs, t0, t1, n0, n1);
  }

  /** The two-field script of a run with no option given: when the fields at the start of the
      first two lines do not grow, both are rewritten, and the first field of the result reads
      back as the old version with its build incremented. */
  lemma TwoFieldsBumped(s: seq<char>, chars: nat, c: nat, v: Version, t0: nat)
    requires Fits(s, chars) && 0 < c <= End(s, 0) && s[c - 1] == '\n'
    requires Shrinks(s, 0, KeepAll) && Shrinks(s, c, KeepAll)
    requires ParseVersion(s, 0).value == Parsed(v, t0)
    ensures var o := RewriteAll(s, chars, [0, c], KeepAll);
      o.success && o.count == 2 &&
      ParseVersion(o.text, 0) == Some(Parsed(Bumped(v), |FormatText(Bumped(v))|))
  {
    TwoFieldsSucceed(s, chars, c, KeepAll);
    var t1 := ParseVersion(s, c).value.tail;
    var n0, n1 := NewText(s, 0, KeepAll), NewText(s, c, KeepAll);
    TwoFieldsText(s, chars, c, KeepAll, t0, t1, n0, n1);
    BumpedText(s, v, t0);
    TailBeforeBreak(s, c, t0);
    ParseStarts(RewriteAll(s, chars, [0, c], KeepAll).text, n0, s[t0..c], n1, s[t1..End(s, 0)], Bumped(v));
  }

  /** With every override at -1 the new text of a field is its version with the build
      incremented. */
  lemma BumpedText(s: seq<char>, v: Version, t0: nat)
    requires ParseVersion(s, 0).Some? && ParseVersion(s, 0).value == Parsed(v, t0)
    ensures NewText(s, 0, KeepAll) == FormatText(Bumped(v))
  {
    assert Overridden(v, KeepAll) == Bumped(v);
  }

  /** A field parsed before a line feed is followed, on its own line, by a character that is not
      a digit. */
  lemma TailBeforeBreak(s: seq<char>, c: nat, t0: nat)
    requires 0 < c <= |s| && s[c - 1] == '\n'
    requires ParseVersion(s, 0).Some? && ParseVersion(s, 0).value.tail == t0
    ensures t0 < c && 0 < |s[t0..c]| && !IsDigit(s[t0..c][0])
  {
    ParseShape(s, 0);
    ParseLocal(s, s, 0, c - 1);
  }

  /** A field holding a formatted version followed by a line feed parses as that version, and
      its new text with every override at -1 is the text of the version with its build
      incremented. */
  lemma FieldBumped(s: seq<char>, p: nat, q: nat, u: Version, x: seq<char>, x2: seq<char>)
    requires x == FormatText(u) && x2 == FormatText(Bumped(u))
    requires q == p + |x| && q < |s| && s[p..q] == x && s[q] == '\n'
    ensures ParseVersion(s, p) == Some(Parsed(u, q)) && NewText(s, p, KeepAll) == x2
  {
    ParseFormatted(s, p, u);
    assert Overridden(u, KeepAll) == Bumped(u);
  }

  /** The reference on two fields, with their tails and new texts named */
  lemma RewrittenTwo(s: seq<char>, offs: seq<nat>, xs: Overrides, t0: nat, t1: nat, n0: seq<char>, n1: seq<char>)
    requires |offs| == 2 && offs[0] == 0 && Spans(s, offs, xs, 0)
    requires offs[1] <= |s| && ParseVersion(s, offs[1]).Some?
    requires ParseVersion(s, offs[0]).value.tail == t0 && ParseVersion(s, offs[1]).value.tail == t1
    requires NewText(s, offs[0], xs) == n0 && NewText(s, offs[1], xs) == n1
    ensures t0 <= offs[1] && t1 <= End(s, 0)
    ensures Rewritten(s, offs, xs, 0) == n0 + s[t0..offs[1]] + n1 + s[t1..End(s, 0)]
  {
    var rest := offs[1..];
    assert rest[0] == offs[1] && rest[1..] == [];
    var r2 := Rewritten(s, rest[1..], xs, t1);
    var r1 := Rewritten(s, rest, xs, t0);
    assert r1 == s[t0..offs[1]] + n1 + r2;
    assert Rewritten(s, offs, xs, 0) == s[0..0] + n0 + r1;
    JoinFive(s[0..0], n0, s[t0..offs[1]], n1, r2);
  }

  /** Concatenation after an empty piece regroups freely. */
  lemma JoinFive(e: seq<char>, x: seq<char>, y: seq<char>, z: seq<char>, u: seq<char>)
    requires e == []
    ensures e + x + (y + z + u) == x + y + z + u
  {
  }

  /** A buffer whose string starts with a formatted version and then a character that is not a
      digit parses as that version. */
  lemma ParseStarts(r: seq<char>, x: seq<char>, y: seq<char>, z: seq<char>, z2: seq<char>, u: Version)
    requires x == FormatText(u) && Str(r, 0) == x + y + z + z2 && 0 < |y| && !IsDigit(y[0])
    ensures ParseVersion(r, 0) == Some(Parsed(u, |x|))
  {
    assert r[0..|x|] == Str(r, 0)[..|x|];
    assert r[|x|] == Str(r, 0)[|x|];
    ParseFormatted(r, 0, u);
  }

  // ---------------------------------------------------------------------------
  // The loop
  // ---------------------------------------------------------------------------

  /** `UpdateVersion(buffer, chars, xmajor, xminor, xbuild, xrevision)`; `keywords` is the table
      `GetKeywordTable` returns */
  method UpdateVersion(keywords: seq<seq<char>>, a: array<char>, chars: nat, xs: Overrides) returns (n: nat)
    requires WellFormedTable(keywords) && Fits(a[..], chars)
    modifies a
    ensures a[..] == UpdatedVersion(keywords, old(a[..]), chars, xs).text
    ensures n == UpdatedVersion(keywords, old(a[..]), chars, xs).count
  {
    ghost var s := a[..];
    var start := FindStartOfVersion(a[..]);
    if start == 0 {
      return 0;
    }
    var offsets := FindVersionStrings(keywords, a[..], start);
    if |offsets| == 0 {
      return 0;
    }
    FieldsEditable(keywords, s, chars);
    assert offsets == VersionFields(keywords, s);
    n := RewriteFields(a, chars, offsets, xs);
  }

  /** The loop of `UpdateVersion` over the offsets, from the last to the first */
  method RewriteFields(a: array<char>, chars: nat, offsets: seq<nat>, xs: Overrides) returns (n: nat)
    requires Editable(a[..], chars, offsets)
    modifies a
    ensures a[..] == RewriteAll(old(a[..]), chars, offsets, xs).text
    ensures n == if RewriteAll(old(a[..]), chars, offsets, xs).success then RewriteAll(old(a[..]), chars, offsets, xs).count else 0
  {
    ghost var s := a[..];
    assert offsets[..|offsets|] == offsets;
    var success := true;
    var made: nat := 0;
    var i: nat := |offsets|;
    while 0 < i
      invariant i <= |offsets| && Editable(a[..], chars, offsets[..i])
      invariant RewriteAll(s, chars, offsets, xs).text == RewriteAll(a[..], chars, offsets[..i], xs).text
      invariant RewriteAll(s, chars, offsets, xs).count == RewriteAll(a[..], chars, offsets[..i], xs).count + made
      invariant RewriteAll(s, chars, offsets, xs).success == (RewriteAll(a[..], chars, offsets[..i], xs).success && success)
    {
      ghost var before := a[..];
      ghost var rest := offsets[..i];
      i := i - 1;
      var offset := offsets[i];
      RewriteAllStep(before, chars, rest, xs);
      assert rest[|rest| - 1] == offset && rest[..|rest| - 1] == offsets[..i];
      var ok := RewriteField(a, chars, offset, xs);
      if !ok {
        success := false;
        continue;
      }
      made := made + 1;
    }
    assert offsets[..0] == [];
    return if success then made else 0;
  }

  /** One pass of the loop of `UpdateVersion`: `parse` the field at `offset`, apply the
      overrides, `format` the new version and `replace` the field by it; false when a step fails */
  method RewriteField(a: array<char>, chars: nat, offset: nat, xs: Overrides) returns (ok: bool)
    requires Fits(a[..], chars) && offset <= End(a[..], 0)
    modifies a
    ensures ok == RewriteAt(old(a[..]), chars, offset, xs).Some?
    ensures a[..] == After(old(a[..]), chars, offset, xs)
  {
    ghost var s := a[..];
    EndShift(s, 0, offset);
    var parsed := Parse(a[..], offset);
    if parsed.None? {
      FieldEditNone(s, chars, offset, xs);
      return false;
    }
    var v := Overridden(parsed.value.version, xs);
    var text := Format(v, VersionChars);
    if text.None? {
      FieldEditNone(s, chars, offset, xs);
      return false;
    }
    FormatTextShape(v);
    var e := Edit(parsed.value.tail, text.value);
    assert FieldEdit(s, offset, xs) == Some(e);
    FieldEditSome(s, chars, offset, xs, e);
    ok := ReplaceField(a, chars, offset, e);
  }

  /** The `replace` call of that pass, for an edit worked out already */
  method ReplaceField(a: array<char>, chars: nat, offset: nat, e: Edit) returns (ok: bool)
    requires Fits(a[..], chars) && offset <= End(a[..], 0) && EditWithin(a[..], offset, Some(e))
    modifies a
    ensures ok == Applied(old(a[..]), chars, offset, Some(e)).Some?
    ensures a[..] == AfterEdit(old(a[..]), chars, offset, Some(e))
  {
    ghost var s := a[..];
    EndShift(s, 0, offset);
    assert Applied(s, chars, offset, Some(e)) == Replaced(s, offset, chars - offset, e.tail - offset, e.text);
    ok := Replace(a, offset, chars - offset, e.tail - offset, e.text);
  }

  /** One pass of the offset loop, unfolded */
  lemma RewriteAllStep(s: seq<char>, chars: nat, offs: seq<nat>, xs: Overrides)
    requires Editable(s, chars, offs) && 0 < |offs|
    ensures Fits(s, chars) && offs[|offs| - 1] <= End(s, 0)
    ensures Editable(After(s, chars, offs[|offs| - 1], xs), chars, offs[..|offs| - 1])
    ensures var o, ok := RewriteAll(After(s, chars, offs[|offs| - 1], xs), chars, offs[..|offs| - 1], xs),
                         RewriteAt(s, chars, offs[|offs| - 1], xs).Some?;
      RewriteAll(s, chars, offs, xs).text == o.text &&
      RewriteAll(s, chars, offs, xs).count == o.count + (if ok then 1 else 0) &&
      RewriteAll(s, chars, offs, xs).success == (o.success && ok)
  {
    RewriteAtFits(s, chars, offs[|offs| - 1], xs);
  }

  /** A field that does not parse or format leaves the buffer alone. */
  lemma FieldEditNone(s: seq<char>, chars: nat, offset: nat, xs: Overrides)
    requires Fits(s, chars) && offset <= End(s, 0) && FieldEdit(s, offset, xs).None?
    ensures RewriteAt(s, chars, offset, xs).None? && After(s, chars, offset, xs) == s
  {
  }

  /** A field that parses and formats is handed to `replace`. */
  lemma FieldEditSome(s: seq<char>, chars: nat, offset: nat, xs: Overrides, e: Edit)
    requires Fits(s, chars) && offset <= End(s, 0) && FieldEdit(s, offset, xs) == Some(e)
    ensures offset < e.tail <= End(s, offset) && ReplaceArgs(s, offset, chars - offset, e.tail - offset)
    ensures RewriteAt(s, chars, offset, xs) == Applied(s, chars, offset, Some(e))
    ensures After(s, chars, offset, xs) == AfterEdit(s, chars, offset, Some(e))
  {
    EndShift(s, 0, offset);
  }
}
