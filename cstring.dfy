/** Zero-terminated character buffers, as the scanner sees them.

    A buffer is the whole `seq<char>` the caller owns; a position is an index into it.
    `At` reads the character at a position and yields NUL at and past the end, so a walk
    that stops at NUL stops at the first terminator exactly as the pointer walks do.
    One model serves both the narrow and the wide instantiation: a character is its code. */
module CString {

  const NUL: char := '\0'

  function At(s: seq<char>, p: nat): char
  {
    if p < |s| then s[p] else NUL
  }

  /** `traitsT::length` / `strlen` of the string that starts at `p` */
  function Strlen(s: seq<char>, p: nat): (n: nat)
    requires p <= |s|
    ensures p + n <= |s|
    ensures At(s, p + n) == NUL
    decreases |s| - p
  {
    if At(s, p) == NUL then 0 else 1 + Strlen(s, p + 1)
  }

  /** No terminator comes before the end of the string. */
  lemma {:induction false} StrlenNoNul(s: seq<char>, p: nat)
    requires p <= |s|
    ensures forall k :: p <= k < End(s, p) ==> s[k] != NUL
    decreases |s| - p
  {
    if At(s, p) != NUL {
      StrlenNoNul(s, p + 1);
    }
  }

  /** Position of the terminator of the string that starts at `p` */
  function End(s: seq<char>, p: nat): nat
    requires p <= |s|
  {
    p + Strlen(s, p)
  }

  /** The characters of the string that starts at `p`, without its terminator */
  function Str(s: seq<char>, p: nat): seq<char>
    requires p <= |s|
  {
    s[p..End(s, p)]
  }

  predicate NoNul(t: seq<char>)
  {
    forall k :: 0 <= k < |t| ==> t[k] != NUL
  }

  /** A run of non-NUL characters closed by a NUL fixes the string length. */
  lemma {:induction false} StrlenIs(s: seq<char>, p: nat, n: nat)
    requires p + n <= |s|
    requires forall k :: p <= k < p + n ==> s[k] != NUL
    requires At(s, p + n) == NUL
    ensures Strlen(s, p) == n
    decreases n
  {
    if n > 0 {
      StrlenIs(s, p + 1, n - 1);
    }
  }

  /** A run of non-NUL characters lies inside the string. */
  lemma {:induction false} StrlenAtLeast(s: seq<char>, p: nat, m: nat)
    requires p + m <= |s|
    requires forall k :: p <= k < p + m ==> s[k] != NUL
    ensures m <= Strlen(s, p)
    decreases m
  {
    if m > 0 {
      StrlenAtLeast(s, p + 1, m - 1);
    }
  }

  /** Every position inside a string reaches the same terminator. */
  lemma {:induction false} EndShift(s: seq<char>, p: nat, q: nat)
    requires p <= |s| && p <= q <= End(s, p)
    ensures End(s, q) == End(s, p)
    ensures Strlen(s, q) == Strlen(s, p) - (q - p)
  {
    StrlenNoNul(s, p);
    StrlenIs(s, q, End(s, p) - q);
  }

  /** Strings equal up to and including the terminator have equal lengths. */
  lemma StrlenOfPrefix(s: seq<char>, t: seq<char>, p: nat)
    requires p <= |s| && p <= |t|
    requires End(s, p) < |s| && End(s, p) < |t|
    requires s[p..End(s, p) + 1] == t[p..End(s, p) + 1]
    ensures Strlen(t, p) == Strlen(s, p)
  {
    var n := Strlen(s, p);
    StrlenNoNul(s, p);
    forall k | p <= k < p + n ensures t[k] != NUL {
      assert t[k] == t[p..End(s, p) + 1][k - p];
    }
    assert t[p + n] == t[p..End(s, p) + 1][n];
    StrlenIs(t, p, n);
  }

  predicate IsDigit(c: char)
  {
    '0' <= c <= '9'
  }

  /** `isspace` in the C locale: space, tab, line feed, vertical tab, form feed, carriage return */
  predicate IsSpace(c: char)
  {
    c == ' ' || 9 <= c as int <= 13
  }

  /** `tolower` in the C locale */
  function ToLower(c: char): char
  {
    if 'A' <= c <= 'Z' then (c as int + 32) as char else c
  }

  /** The byte `unsigned char(c)` keeps of a character */
  function LowByte(c: char): nat
  {
    (c as int) % 256
  }

  /** `compare(keyword, s + p, |keyword|) == 0` for a keyword without NUL: `keyword` occurs in
      `s` at `p` */
  predicate Matches(s: seq<char>, p: nat, keyword: seq<char>)
  {
    p + |keyword| <= |s| && forall k {:trigger keyword[k]} :: 0 <= k < |keyword| ==> s[p + k] == keyword[k]
  }

  /** `_strnicmp(s + p, text, |text|) == 0` for a text without NUL */
  predicate MatchesNoCase(s: seq<char>, p: nat, text: seq<char>)
  {
    p + |text| <= |s| && forall k :: 0 <= k < |text| ==> ToLower(s[p + k]) == ToLower(text[k])
  }

  /** A keyword without NUL that matches lies inside the string. */
  lemma MatchInsideString(s: seq<char>, p: nat, keyword: seq<char>)
    requires p <= |s| && NoNul(keyword) && Matches(s, p, keyword)
    ensures p + |keyword| <= End(s, p)
  {
    forall k | p <= k < p + |keyword| ensures s[k] != NUL {
      assert s[p + (k - p)] == keyword[k - p];
    }
    StrlenAtLeast(s, p, |keyword|);
  }

  lemma MatchNoCaseInsideString(s: seq<char>, p: nat, text: seq<char>)
    requires p <= |s| && NoNul(text) && MatchesNoCase(s, p, text)
    ensures p + |text| <= End(s, p)
  {
    forall k | p <= k < p + |text| ensures s[k] != NUL {
      assert ToLower(s[p + (k - p)]) == ToLower(text[k - p]);
    }
    StrlenAtLeast(s, p, |text|);
  }
}
