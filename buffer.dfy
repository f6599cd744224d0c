/** In-place replacement inside a fixed-capacity, zero-terminated buffer: the overlapping
    move of the tail (`traitsT::move` / `MoveMemory`) followed by the copy of the new text.
    Both updaters share this mechanism and differ only in when they refuse to do it. */
module Buffer {
  import opened CString

  /** `r` and `s` agree on their first `n` characters */
  predicate SamePrefix(r: seq<char>, s: seq<char>, n: nat)
  {
    n <= |r| && n <= |s| && forall k {:trigger r[k]} :: 0 <= k < n ==> r[k] == s[k]
  }

  lemma SamePrefixTrans(r: seq<char>, t: seq<char>, s: seq<char>, n: nat)
    requires SamePrefix(r, t, n) && SamePrefix(t, s, n)
    ensures SamePrefix(r, s, n)
  {
    forall k | 0 <= k < n ensures r[k] == s[k] {
      assert t[k] == s[k];
    }
  }

  /** Room for a replacement at `base`: the `oldChars` replaced characters, then `tail` more and
      a terminator, fit in `s` both before and after the replacement by `newChars` characters */
  predicate SpliceFits(s: seq<char>, base: nat, oldChars: nat, tail: nat, newChars: nat)
  {
    base + oldChars + tail < |s| && base + newChars + tail < |s|
  }

  /** What a replacement at `base` leaves in the buffer: `text` in place of the `oldChars`
      characters at `base`, followed by the `tail` characters after them and the character past
      those (the terminator); everything before `base` and everything past the moved terminator
      keeps its old value. */
  function Spliced(s: seq<char>, base: nat, oldChars: nat, tail: nat, text: seq<char>): (r: seq<char>)
    requires SpliceFits(s, base, oldChars, tail, |text|)
    ensures |r| == |s|
  {
    var n := |text|;
    seq(|s|, k requires 0 <= k < |s| =>
      if k < base then s[k]
      else if k < base + n then text[k - base]
      else if k <= base + n + tail then s[k - n + oldChars]
      else s[k])
  }

  /** The string at `base` after the replacement is the new text followed by the old tail. */
  lemma SplicedString(s: seq<char>, base: nat, oldChars: nat, text: seq<char>)
    requires base <= |s| && End(s, base) < |s|
    requires oldChars <= Strlen(s, base)
    requires base + |text| + (Strlen(s, base) - oldChars) < |s|
    requires NoNul(text)
    ensures var r := Spliced(s, base, oldChars, Strlen(s, base) - oldChars, text);
      Strlen(r, base) == |text| + Strlen(s, base) - oldChars &&
      Str(r, base) == text + s[base + oldChars..End(s, base)] &&
      r[..base] == s[..base]
  {
    var r := Spliced(s, base, oldChars, Strlen(s, base) - oldChars, text);
    var m := |text| + Strlen(s, base) - oldChars;
    StrlenNoNul(s, base);
    forall k | base <= k < base + m ensures r[k] != NUL {
      if k >= base + |text| {
        assert r[k] == s[k - |text| + oldChars];
      }
    }
    assert r[base + m] == s[End(s, base)];
    StrlenIs(r, base, m);
    var mid := s[base + oldChars..End(s, base)];
    forall k | 0 <= k < m ensures r[base + k] == (text + mid)[k] {
      if k >= |text| {
        assert r[base + k] == s[base + k - |text| + oldChars];
      }
    }
    assert Str(r, base) == text + mid;
  }

  /** The whole text after a replacement inside it: the old text up to `base`, the new text,
      then the old text after the replaced characters. */
  lemma SplicedText(s: seq<char>, base: nat, oldChars: nat, text: seq<char>)
    requires base <= End(s, 0) && End(s, base) < |s|
    requires oldChars <= Strlen(s, base)
    requires base + |text| + (Strlen(s, base) - oldChars) < |s|
    requires NoNul(text)
    ensures var r := Spliced(s, base, oldChars, Strlen(s, base) - oldChars, text);
      End(r, 0) == End(s, base) - oldChars + |text| &&
      Str(r, 0) == s[..base] + text + s[base + oldChars..End(s, base)]
  {
    var r := Spliced(s, base, oldChars, Strlen(s, base) - oldChars, text);
    SplicedString(s, base, oldChars, text);
    SplicedEnd(s, r, base);
    var eb := End(r, base);
    var pre, mid := s[..base], s[base + oldChars..End(s, base)];
    assert r[base..eb] == text + mid;
    assert r[..eb] == r[..base] + r[base..eb];
    assert pre + (text + mid) == pre + text + mid;
  }

  /** Keeping a prefix of the text keeps the string at 0 running on to the string at `base`. */
  lemma SplicedEnd(s: seq<char>, r: seq<char>, base: nat)
    requires base <= End(s, 0) && base <= |r| && r[..base] == s[..base]
    ensures End(r, 0) == End(r, base)
  {
    var eb := End(r, base);
    StrlenNoNul(s, 0);
    StrlenNoNul(r, base);
    forall k | 0 <= k < eb ensures r[k] != NUL {
      if k < base {
        assert r[k] == r[..base][k] == s[..base][k] == s[k];
      }
    }
    StrlenIs(r, 0, eb);
  }

  /** `s` after `n` characters moved from `src` to `dst`, as `memmove` leaves them */
  function MovedChars(s: seq<char>, dst: nat, src: nat, n: nat): (r: seq<char>)
    requires src + n <= |s| && dst + n <= |s|
    ensures |r| == |s|
  {
    seq(|s|, k requires 0 <= k < |s| => if dst <= k < dst + n then s[k - dst + src] else s[k])
  }

  /** `s` after `text` is copied to `dst` */
  function CopiedChars(s: seq<char>, dst: nat, text: seq<char>): (r: seq<char>)
    requires dst + |text| <= |s|
    ensures |r| == |s|
  {
    seq(|s|, k requires 0 <= k < |s| => if dst <= k < dst + |text| then text[k - dst] else s[k])
  }

  /** Moving a run onto itself changes nothing. */
  lemma MovedInPlace(s: seq<char>, p: nat, n: nat)
    requires p + n <= |s|
    ensures MovedChars(s, p, p, n) == s
  {
  }

  /** Moving the old tail (terminator included) and then copying the new text is the splice. */
  lemma MovedThenCopied(s: seq<char>, base: nat, oldChars: nat, tail: nat, text: seq<char>)
    requires SpliceFits(s, base, oldChars, tail, |text|)
    ensures CopiedChars(MovedChars(s, base + |text|, base + oldChars, tail + 1), base, text) ==
      Spliced(s, base, oldChars, tail, text)
  {
  }

  /** The overlapping move of `n` characters from `src` to `dst` (`memmove`) */
  method MoveChars(a: array<char>, dst: nat, src: nat, n: nat)
    requires src + n <= a.Length && dst + n <= a.Length
    modifies a
    ensures a[..] == MovedChars(old(a[..]), dst, src, n)
  {
    if dst < src {
      var i := 0;
      while i < n
        invariant 0 <= i <= n
        invariant forall k :: 0 <= k < a.Length ==>
          a[k] == if dst <= k < dst + i then old(a[k - dst + src]) else old(a[k])
      {
        a[dst + i] := a[src + i];
        i := i + 1;
      }
    } else if src < dst {
      var i := n;
      while 0 < i
        invariant 0 <= i <= n
        invariant forall k :: 0 <= k < a.Length ==>
          a[k] == if dst + i <= k < dst + n then old(a[k - dst + src]) else old(a[k])
      {
        a[dst + i - 1] := a[src + i - 1];
        i := i - 1;
      }
    }
    assert a[..] == MovedChars(old(a[..]), dst, src, n);
  }

  /** The copy of `text` to `dst` (`traitsT::copy`) */
  method CopyChars(a: array<char>, dst: nat, text: seq<char>)
    requires dst + |text| <= a.Length
    modifies a
    ensures a[..] == CopiedChars(old(a[..]), dst, text)
  {
    var i := 0;
    while i < |text|
      invariant 0 <= i <= |text|
      invariant forall k :: 0 <= k < a.Length ==>
        a[k] == if dst <= k < dst + i then text[k - dst] else old(a[k])
    {
      a[dst + i] := text[i];
      i := i + 1;
    }
    assert a[..] == CopiedChars(old(a[..]), dst, text);
  }

  /** An empty copy changes nothing. */
  lemma CopiedNothing(s: seq<char>, dst: nat)
    requires dst <= |s|
    ensures CopiedChars(s, dst, []) == s
  {
  }

  /** Copying a text over as many old characters is the splice. */
  lemma CopiedOver(s: seq<char>, base: nat, tail: nat, text: seq<char>)
    requires SpliceFits(s, base, |text|, tail, |text|)
    ensures CopiedChars(s, base, text) == Spliced(s, base, |text|, tail, text)
  {
    MovedInPlace(s, base + |text|, tail + 1);
    MovedThenCopied(s, base, |text|, tail, text);
  }

  /** The moves of a replacement that has found room: the tail with its terminator to behind
      the new text (skipped when it would not move), then the new text (skipped when empty) */
  method Splice(a: array<char>, oldText: nat, oldLength: nat, text: seq<char>, tailLength: nat)
    requires SpliceFits(a[..], oldText, oldLength, tailLength, |text|)
    modifies a
    ensures a[..] == Spliced(old(a[..]), oldText, oldLength, tailLength, text)
  {
    MoveTail(a, oldText + oldLength, oldText + |text|, tailLength);
    ghost var moved := a[..];
    if 0 < |text| {
      CopyChars(a, oldText, text);
    } else {
      CopiedNothing(moved, oldText);
    }
    MovedThenCopied(old(a[..]), oldText, oldLength, tailLength, text);
  }

  /** The move of the tail with its terminator from `tail` to `newTail`, skipped when the two
      are the same */
  method MoveTail(a: array<char>, tail: nat, newTail: nat, tailLength: nat)
    requires tail + tailLength < a.Length && newTail + tailLength < a.Length
    modifies a
    ensures a[..] == MovedChars(old(a[..]), newTail, tail, tailLength + 1)
  {
    if tail != newTail {
      MoveChars(a, newTail, tail, tailLength + 1);
    } else {
      MovedInPlace(a[..], tail, tailLength + 1);
    }
  }

  /** `traitsT::length` of the string at `p` in a buffer */
  method Length(a: array<char>, p: nat) returns (n: nat)
    requires p <= a.Length
    ensures n == Strlen(a[..], p)
  {
    n := 0;
    while At(a[..], p + n) != NUL
      invariant p + n <= a.Length
      invariant Strlen(a[..], p + n) + n == Strlen(a[..], p)
      decreases a.Length - (p + n)
    {
      n := n + 1;
    }
  }
}
