/** Character classes and string operations of JavaScript, as the backend
    services use them: the `\s`, `\d` and `.` classes of its regular
    expressions, ASCII case folding under the `i` flag, `String.prototype.trim`,
    `replace` with a global literal pattern, `split` on one character and
    `Array.prototype.join`. */
module JsStrings {
  import opened Wrappers

  /** JavaScript's LineTerminator production: the characters `.` does not match. */
  predicate IsLineTerminator(c: char) {
    c == '\n' || c == '\r' || c == '\U{2028}' || c == '\U{2029}'
  }

  /** JavaScript's WhiteSpace and LineTerminator productions together. This is
      the class `\s` of a regular expression and also the set of characters
      `String.prototype.trim` removes. */
  predicate IsWhitespace(c: char) {
    || IsLineTerminator(c)
    || c == '\t' || c == '\U{000B}' || c == '\U{000C}' || c == ' '
    || c == '\U{00A0}' || c == '\U{FEFF}' || c == '\U{1680}'
    || ('\U{2000}' <= c <= '\U{200A}')
    || c == '\U{202F}' || c == '\U{205F}' || c == '\U{3000}'
  }

  /** The class `\d`: ASCII digits only, with or without the `i` flag. */
  predicate IsDigit(c: char) {
    '0' <= c <= '9'
  }

  predicate IsAsciiLower(c: char) {
    'a' <= c <= 'z'
  }

  function ToAsciiUpper(c: char): (u: char)
    requires IsAsciiLower(c)
    ensures 'A' <= u <= 'Z'
  {
    (c as int - 32) as char
  }

  /** Whether the text character `c` matches the pattern character `p` under
      the `i` flag of a non-Unicode regular expression, for the pattern
      characters used here: ASCII lower-case letters and letter-free symbols.
      Such a regular expression never folds a non-ASCII character onto an
      ASCII one, so an ASCII letter matches itself in either case and nothing
      else; how non-ASCII letters fold among themselves is not needed. */
  predicate CharMatchesIgnoreCase(c: char, p: char) {
    c == p || (IsAsciiLower(p) && c == ToAsciiUpper(p))
  }

  /** `word` occurs at index `i` of `s`, letters compared without case. */
  predicate WordAt(s: string, i: nat, word: string) {
    && i + |word| <= |s|
    && forall k | 0 <= k < |word| :: CharMatchesIgnoreCase(s[i + k], word[k])
  }

  /** `pat` occurs at index `i` of `s`, compared exactly. */
  predicate LiteralAt(s: string, i: nat, pat: string) {
    i + |pat| <= |s| && s[i..i + |pat|] == pat
  }

  predicate MatchesAt(s: string, i: nat, pat: string, ignoreCase: bool) {
    if ignoreCase then WordAt(s, i, pat) else LiteralAt(s, i, pat)
  }

  /** `pat` is a substring of `s`. */
  predicate Occurs(s: string, pat: string) {
    exists i: nat | i + |pat| <= |s| :: LiteralAt(s, i, pat)
  }

  /** Every character of `s[lo..hi]` satisfies `P`. */
  predicate AllIn(s: string, lo: nat, hi: nat, P: char -> bool)
    requires lo <= hi <= |s|
  {
    forall k | lo <= k < hi :: P(s[k])
  }

  /** The end of the longest run of `P` characters starting at `i`: how a
      greedy `P*` advances. */
  function Span(s: string, i: nat, P: char -> bool): (j: nat)
    requires i <= |s|
    ensures i <= j <= |s| && AllIn(s, i, j, P)
    ensures j == |s| || !P(s[j])
    decreases |s| - i
  {
    if i < |s| && P(s[i]) then Span(s, i + 1, P) else i
  }

  /** A maximal run is unique: any `j` with the two properties of `Span` is it. */
  lemma SpanUnique(s: string, i: nat, P: char -> bool, j: nat)
    requires i <= j <= |s| && AllIn(s, i, j, P)
    requires j == |s| || !P(s[j])
    ensures j == Span(s, i, P)
  {
    var m := Span(s, i, P);
    assert forall k | i <= k < m :: P(s[k]);
    assert forall k | i <= k < j :: P(s[k]);
  }

  /** The start of the longest run of `P` characters that ends at `hi` and
      does not reach below `lo`. */
  function SpanBack(s: string, lo: nat, hi: nat, P: char -> bool): (b: nat)
    requires lo <= hi <= |s|
    ensures lo <= b <= hi && AllIn(s, b, hi, P)
    ensures b == lo || !P(s[b - 1])
    decreases hi
  {
    if lo < hi && P(s[hi - 1]) then SpanBack(s, lo, hi - 1, P) else hi
  }

  /** A maximal backward run is unique, as SpanUnique is for forward runs. */
  lemma SpanBackUnique(s: string, lo: nat, hi: nat, P: char -> bool, b: nat)
    requires lo <= b <= hi <= |s| && AllIn(s, b, hi, P)
    requires b == lo || !P(s[b - 1])
    ensures b == SpanBack(s, lo, hi, P)
  {
    var m := SpanBack(s, lo, hi, P);
    assert forall k | m <= k < hi :: P(s[k]);
    assert forall k | b <= k < hi :: P(s[k]);
  }

  /** The leftmost index in `[from, n)` where `P` holds: where a regular
      expression without the `g` flag reports its match, the start positions
      being tried from left to right. */
  function FirstWhere(from: nat, n: nat, P: nat -> bool): (r: Option<nat>)
    requires from <= n
    ensures r.Some? ==> from <= r.value < n && P(r.value)
    ensures r.Some? ==> forall i | from <= i < r.value :: !P(i)
    ensures r.None? ==> forall i | from <= i < n :: !P(i)
    decreases n - from
  {
    if from == n then None
    else if P(from) then Some(from)
    else FirstWhere(from + 1, n, P)
  }

  /** The leftmost index is the one before which `P` never holds. */
  lemma {:induction false} FirstWhereIs(from: nat, n: nat, P: nat -> bool, s: nat)
    requires from <= s < n && P(s)
    requires forall i | from <= i < s :: !P(i)
    ensures FirstWhere(from, n, P) == Some(s)
    decreases s - from
  {
    if from < s {
      FirstWhereIs(from + 1, n, P, s);
    }
  }

  /** `String.prototype.trim`: `r` is `s` without its leading and trailing
      whitespace, and neither begins nor ends with whitespace. */
  function Trim(s: string): (r: string)
    ensures |r| <= |s|
    ensures |r| > 0 ==> !IsWhitespace(r[0]) && !IsWhitespace(r[|r| - 1])
    ensures exists a: nat | a + |r| <= |s| ::
              && s[a..a + |r|] == r
              && AllIn(s, 0, a, IsWhitespace)
              && AllIn(s, a + |r|, |s|, IsWhitespace)
  {
    var a := Span(s, 0, IsWhitespace);
    var b := SpanBack(s, a, |s|, IsWhitespace);
    assert s[a..a + |s[a..b]|] == s[a..b];
    s[a..b]
  }

  /** Where the trimmed text starts in the original. */
  lemma TrimOffset(s: string) returns (a: nat)
    ensures a + |Trim(s)| <= |s| && s[a..a + |Trim(s)|] == Trim(s)
  {
    a := Span(s, 0, IsWhitespace);
  }

  /** Trimming text that neither begins nor ends with whitespace changes nothing. */
  lemma TrimTrimmed(s: string)
    requires |s| > 0 ==> !IsWhitespace(s[0]) && !IsWhitespace(s[|s| - 1])
    ensures Trim(s) == s
  {
    if |s| > 0 {
      assert Span(s, 0, IsWhitespace) == 0;
      assert SpanBack(s, 0, |s|, IsWhitespace) == |s|;
    }
  }

  /** Trailing whitespace does not change what trimming keeps. */
  lemma TrimAppendWhitespace(s: string, c: char)
    requires IsWhitespace(c)
    ensures Trim(s + [c]) == Trim(s)
  {
    var t := s + [c];
    var a := Span(s, 0, IsWhitespace);
    assert forall k | 0 <= k < |s| :: t[k] == s[k];
    if a == |s| {
      assert AllIn(t, 0, |t|, IsWhitespace);
      SpanUnique(t, 0, IsWhitespace, |t|);
    } else {
      SpanUnique(t, 0, IsWhitespace, a);
      var b := SpanBack(s, a, |s|, IsWhitespace);
      assert AllIn(t, b, |t|, IsWhitespace);
      SpanBackUnique(t, a, |t|, IsWhitespace, b);
      assert t[a..b] == s[a..b];
    }
  }

  /** `s.replace(/pat/g, "")` for a literal pattern, with the `i` flag when
      `ignoreCase` holds: occurrences are found left to right, the search
      resuming after each removed one. */
  function RemoveAll(s: string, pat: string, ignoreCase: bool): (r: string)
    requires |pat| > 0
    ensures |r| <= |s|
    ensures multiset(r) <= multiset(s)
    decreases |s|
  {
    if |s| == 0 then
      ""
    else if MatchesAt(s, 0, pat, ignoreCase) then
      var rest := s[|pat|..];
      assert s == s[..|pat|] + rest;
      RemoveAll(rest, pat, ignoreCase)
    else
      assert s == [s[0]] + s[1..];
      [s[0]] + RemoveAll(s[1..], pat, ignoreCase)
  }

  /** Removing a pattern that occurs nowhere leaves the text unchanged. */
  lemma {:induction false} RemoveAllAbsent(s: string, pat: string, ignoreCase: bool)
    requires |pat| > 0
    requires forall i: nat | i < |s| :: !MatchesAt(s, i, pat, ignoreCase)
    ensures RemoveAll(s, pat, ignoreCase) == s
    decreases |s|
  {
    if |s| > 0 {
      assert !MatchesAt(s, 0, pat, ignoreCase);
      forall i: nat | i < |s[1..]|
        ensures !MatchesAt(s[1..], i, pat, ignoreCase)
      {
        assert !MatchesAt(s, i + 1, pat, ignoreCase);
        assert i + |pat| <= |s[1..]| ==> s[1..][i..i + |pat|] == s[i + 1..i + 1 + |pat|];
      }
      RemoveAllAbsent(s[1..], pat, ignoreCase);
      assert s == [s[0]] + s[1..];
    }
  }

  /** Global removal keeps a prefix `x` in which no occurrence starts, and
      goes on with what follows it. */
  lemma {:induction false} RemoveAllKeepsPrefix(x: string, w: string, pat: string)
    requires |pat| > 0
    requires forall i: nat | i < |x| :: !MatchesAt(x + w, i, pat, false)
    ensures RemoveAll(x + w, pat, false) == x + RemoveAll(w, pat, false)
    decreases |x|
  {
    if |x| == 0 {
      assert x + w == w;
    } else {
      var s := x + w;
      assert s[1..] == x[1..] + w && s[0] == x[0];
      NoMatchAfterFirst(s, pat, |x|, false);
      RemoveAllKeepsPrefix(x[1..], w, pat);
      RemoveAllUnmatchedHead(s, pat, false);
      var r := RemoveAll(w, pat, false);
      assert x == [x[0]] + x[1..];
      assert [x[0]] + (x[1..] + r) == x + r;
    }
  }

  /** A first character where the pattern does not match is kept. */
  lemma RemoveAllUnmatchedHead(s: string, pat: string, ignoreCase: bool)
    requires |pat| > 0 && |s| > 0 && !MatchesAt(s, 0, pat, ignoreCase)
    ensures RemoveAll(s, pat, ignoreCase) == [s[0]] + RemoveAll(s[1..], pat, ignoreCase)
  {
  }

  /** No match among the first `n` starts of `s` leaves none among the
      first `n - 1` starts of `s[1..]`. */
  lemma NoMatchAfterFirst(s: string, pat: string, n: nat, ignoreCase: bool)
    requires 0 < n <= |s|
    requires forall i: nat | i < n :: !MatchesAt(s, i, pat, ignoreCase)
    ensures forall i: nat | i < n - 1 :: !MatchesAt(s[1..], i, pat, ignoreCase)
  {
    forall i: nat | i < n - 1
      ensures !MatchesAt(s[1..], i, pat, ignoreCase)
    {
      assert !MatchesAt(s, i + 1, pat, ignoreCase);
      assert i + |pat| <= |s[1..]| ==> s[1..][i..i + |pat|] == s[i + 1..i + 1 + |pat|];
    }
  }

  /** A substring of a substring of `s` is a substring of `s`. */
  lemma OccursInInfix(s: string, a: nat, r: string, pat: string)
    requires a + |r| <= |s| && s[a..a + |r|] == r
    requires Occurs(r, pat)
    ensures Occurs(s, pat)
  {
    var i: nat :| i + |pat| <= |r| && LiteralAt(r, i, pat);
    var w := s[a + i..a + i + |pat|];
    forall k | 0 <= k < |pat| ensures w[k] == pat[k] {
      assert w[k] == s[a + i + k] == r[i + k] == r[i..i + |pat|][k];
    }
    assert w == pat;
    assert LiteralAt(s, a + i, pat);
  }

  /** `s.split(sep)` for a one-character separator: the pieces between
      consecutive separators, in order. */
  function Split(s: string, sep: char): (parts: seq<string>)
    ensures |parts| >= 1
    ensures |parts[0]| <= |s| && parts[0] == s[..|parts[0]|]
    ensures sep !in parts[0]
    ensures |parts[0]| == |s| || s[|parts[0]|] == sep
    decreases |s|
  {
    if |s| == 0 then
      [""]
    else if s[0] == sep then
      [""] + Split(s[1..], sep)
    else
      var rest := Split(s[1..], sep);
      [[s[0]] + rest[0]] + rest[1..]
  }

  /** `lines.join('\n')`. */
  function JoinLines(lines: seq<string>): (r: string)
    ensures |lines| == 1 ==> r == lines[0]
    decreases |lines|
  {
    if |lines| == 0 then ""
    else if |lines| == 1 then lines[0]
    else lines[0] + "\n" + JoinLines(lines[1..])
  }

  /** Splitting text without a separator gives the text itself. */
  lemma {:induction false} SplitWithoutSeparator(s: string, sep: char)
    requires sep !in s
    ensures Split(s, sep) == [s]
    decreases |s|
  {
    if |s| > 0 {
      SplitWithoutSeparator(s[1..], sep);
      assert [s[0]] + s[1..] == s;
    }
  }

  /** Splitting stops at the first separator. */
  lemma {:induction false} SplitAtFirstSeparator(a: string, b: string, sep: char)
    requires sep !in a
    ensures Split(a + [sep] + b, sep) == [a] + Split(b, sep)
    decreases |a|
  {
    if |a| == 0 {
      assert a + [sep] + b == [sep] + b;
      assert (a + [sep] + b)[1..] == b;
    } else {
      var s := a + [sep] + b;
      assert s[0] == a[0] && s[1..] == a[1..] + [sep] + b;
      SplitAtFirstSeparator(a[1..], b, sep);
      assert [a[0]] + a[1..] == a;
    }
  }

  /** Joining lines with newlines and splitting the result on newlines gives
      the lines back, provided no line holds a newline itself. */
  lemma {:induction false} SplitJoinLines(lines: seq<string>)
    requires |lines| >= 1
    requires forall i | 0 <= i < |lines| :: '\n' !in lines[i]
    ensures Split(JoinLines(lines), '\n') == lines
    decreases |lines|
  {
    if |lines| == 1 {
      SplitWithoutSeparator(lines[0], '\n');
    } else {
      SplitJoinLines(lines[1..]);
      assert JoinLines(lines) == lines[0] + ['\n'] + JoinLines(lines[1..]);
      SplitAtFirstSeparator(lines[0], JoinLines(lines[1..]), '\n');
      assert [lines[0]] + lines[1..] == lines;
    }
  }
}
