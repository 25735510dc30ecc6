/** The two regular-expression field extractors of backend/services/aiService.js,
    `extractBudget` and `extractTimeline`. Each is written as the scan a
    backtracking engine performs (leftmost start, then the alternatives and
    quantifiers in their priority order) and proved equal to a match chosen
    from the language of its pattern: the leftmost-longest budget phrase and
    the leftmost, unique, timeline phrase. */
module FieldExtractors {
  import opened Wrappers
  import opened JsStrings

  /** The sentinel both extractors return when nothing matches. */
  const NotSpecified: string := "Not specified"

  /** The class `[\d,]`. */
  predicate IsDigitOrComma(c: char) {
    IsDigit(c) || c == ','
  }

  predicate IsAsciiLetter(c: char) {
    'a' <= c <= 'z' || 'A' <= c <= 'Z'
  }

  /** `word` is the end of `p`, starting at `w`, compared without case. */
  predicate EndsWithWordAt(p: string, w: nat, word: string) {
    w + |word| == |p| && WordAt(p, w, word)
  }

  // ---------------------------------------------------------------------
  // Facts about slices and letters shared by both extractors.
  // ---------------------------------------------------------------------

  lemma AllInSlice(text: string, i: nat, e: nat, lo: nat, hi: nat, P: char -> bool)
    requires i <= e <= |text| && lo <= hi <= e - i
    ensures AllIn(text[i..e], lo, hi, P) <==> AllIn(text, i + lo, i + hi, P)
  {
    var p := text[i..e];
    assert forall k | lo <= k < hi :: p[k] == text[i + k];
    if AllIn(text, i + lo, i + hi, P) {
      forall k | lo <= k < hi ensures P(p[k]) {
        assert P(text[i + k]);
      }
    }
    if AllIn(p, lo, hi, P) {
      forall k | i + lo <= k < i + hi ensures P(text[k]) {
        assert P(p[k - i]);
      }
    }
  }

  lemma WordAtSlice(text: string, i: nat, e: nat, w: nat, word: string)
    requires i <= e <= |text|
    ensures WordAt(text[i..e], w, word) <==> w + |word| <= e - i && WordAt(text, i + w, word)
  {
    var p := text[i..e];
    if w + |word| <= e - i {
      if WordAt(text, i + w, word) {
        forall k | 0 <= k < |word| ensures CharMatchesIgnoreCase(p[w + k], word[k]) {
          assert p[w + k] == text[i + w + k];
        }
      }
      if WordAt(p, w, word) {
        forall k | 0 <= k < |word| ensures CharMatchesIgnoreCase(text[i + w + k], word[k]) {
          assert p[w + k] == text[i + w + k];
        }
      }
    }
  }

  /** Text that matches a word beginning with a lower-case letter begins
      with an ASCII letter. */
  lemma WordBeginsWithLetter(s: string, i: nat, word: string)
    requires WordAt(s, i, word) && |word| > 0 && IsAsciiLower(word[0])
    ensures i < |s| && IsAsciiLetter(s[i])
  {
    assert CharMatchesIgnoreCase(s[i], word[0]);
  }

  /** Two words whose first letters differ cannot both match at one place. */
  lemma WordsExclusive(s: string, i: nat, w1: string, w2: string)
    requires |w1| > 0 && |w2| > 0 && IsAsciiLower(w1[0]) && IsAsciiLower(w2[0]) && w1[0] != w2[0]
    ensures !(WordAt(s, i, w1) && WordAt(s, i, w2))
  {
    if WordAt(s, i, w1) && i < |s| {
      assert CharMatchesIgnoreCase(s[i], w1[0]);
      assert !CharMatchesIgnoreCase(s[i], w2[0]);
    }
  }

  /** A run of `P` characters from `i` ends no later than the greedy one. */
  lemma SpanIsMaximal(s: string, i: nat, j: nat, P: char -> bool)
    requires i <= j <= |s| && AllIn(s, i, j, P)
    ensures j <= Span(s, i, P)
  {
    var m := Span(s, i, P);
    assert forall k | i <= k < j :: P(s[k]);
  }

  // ---------------------------------------------------------------------
  // extractBudget: /\$[\d,]+(\s*(per|each))?/i
  // ---------------------------------------------------------------------

  predicate IsUnitWordAt(p: string, w: nat) {
    EndsWithWordAt(p, w, "per") || EndsWithWordAt(p, w, "each")
  }

  /** From index `d` on, `p` is `\s*(per|each)`. */
  ghost predicate HasUnitSuffix(p: string, d: nat)
    requires d <= |p|
  {
    exists w: nat | d <= w <= |p| :: AllIn(p, d, w, IsWhitespace) && IsUnitWordAt(p, w)
  }

  /** The language of the budget pattern: `p` as a whole is
      `\$[\d,]+(\s*(per|each))?`, letters compared without case. */
  ghost predicate IsBudgetPhrase(p: string) {
    && |p| >= 2 && p[0] == '$'
    && exists d: nat | 2 <= d <= |p| ::
         AllIn(p, 1, d, IsDigitOrComma) && (d == |p| || HasUnitSuffix(p, d))
  }

  /** A match of the budget pattern can start at `i`. */
  predicate BudgetStartsAt(text: string, i: nat) {
    i + 1 < |text| && text[i] == '$' && IsDigitOrComma(text[i + 1])
  }

  /** Where `\s*(per|each)` ends when tried at `d`: the greedy whitespace
      run, then one of the two words (backtracking into the run cannot help,
      since neither word starts with whitespace). */
  function UnitSuffixEnd(text: string, d: nat): (r: Option<nat>)
    requires d <= |text|
    ensures r.Some? ==> d < r.value <= |text|
  {
    var w := Span(text, d, IsWhitespace);
    if WordAt(text, w, "per") then Some(w + 3)
    else if WordAt(text, w, "each") then Some(w + 4)
    else None
  }

  /** Where the match starting at `i` ends: the greedy run of digits and
      commas, then the optional group when it matches there. */
  function BudgetEnd(text: string, i: nat): (e: nat)
    requires BudgetStartsAt(text, i)
    ensures i + 2 <= Span(text, i + 1, IsDigitOrComma) <= e <= |text|
  {
    var d := Span(text, i + 1, IsDigitOrComma);
    match UnitSuffixEnd(text, d)
    case Some(e) => e
    case None => d
  }

  function BudgetStarts(text: string): nat -> bool {
    (i: nat) => BudgetStartsAt(text, i)
  }

  lemma BudgetStartsAgree(text: string)
    ensures forall i: nat :: BudgetStarts(text)(i) == BudgetStartsAt(text, i)
  {
  }

  /** `extractBudget`: the first match of the budget pattern, else the
      sentinel. It gives the sentinel exactly when no "$" is immediately
      followed by a digit or a comma, and a match always starts with "$". */
  function ExtractBudget(text: string): (r: string)
    ensures r == NotSpecified <==> forall i | 0 <= i < |text| :: !BudgetStartsAt(text, i)
    ensures r != NotSpecified ==> |r| >= 2 && r[0] == '$'
  {
    BudgetStartsAgree(text);
    match FirstWhere(0, |text|, BudgetStarts(text))
    case None => NotSpecified
    case Some(s) =>
      var r := text[s..BudgetEnd(text, s)];
      assert r[0] == '$' != NotSpecified[0];
      r
  }

  /** Where the digits and commas of a budget phrase end. */
  lemma BudgetPhraseDigits(p: string) returns (d: nat)
    requires IsBudgetPhrase(p)
    ensures 2 <= d <= |p| && AllIn(p, 1, d, IsDigitOrComma) && (d == |p| || HasUnitSuffix(p, d))
  {
    d :| 2 <= d <= |p| && AllIn(p, 1, d, IsDigitOrComma) && (d == |p| || HasUnitSuffix(p, d));
  }

  /** A budget phrase can only start where BudgetStartsAt holds. */
  lemma BudgetPhraseStart(text: string, s: nat, e: nat)
    requires s <= e <= |text|
    ensures IsBudgetPhrase(text[s..e]) ==> BudgetStartsAt(text, s)
  {
    var p := text[s..e];
    if IsBudgetPhrase(p) {
      var d := BudgetPhraseDigits(p);
      assert IsDigitOrComma(p[1]);
      assert p[0] == text[s] && p[1] == text[s + 1];
    }
  }

  /** The text from a budget start to BudgetEnd is a budget phrase. */
  lemma BudgetEndIsPhrase(text: string, i: nat)
    requires BudgetStartsAt(text, i)
    ensures IsBudgetPhrase(text[i..BudgetEnd(text, i)])
  {
    var d := Span(text, i + 1, IsDigitOrComma);
    var e := BudgetEnd(text, i);
    var p := text[i..e];
    assert p[0] == '$';
    AllInSlice(text, i, e, 1, d - i, IsDigitOrComma);
    if e != d {
      UnitSuffixIsSuffix(text, i, d);
    }
    assert AllIn(p, 1, d - i, IsDigitOrComma) && (d - i == |p| || HasUnitSuffix(p, d - i));
  }

  /** When the optional group matches after the digits, it is a unit suffix
      of the match. */
  lemma UnitSuffixIsSuffix(text: string, i: nat, d: nat)
    requires BudgetStartsAt(text, i) && d == Span(text, i + 1, IsDigitOrComma)
    requires UnitSuffixEnd(text, d).Some?
    ensures HasUnitSuffix(text[i..BudgetEnd(text, i)], d - i)
  {
    var e := UnitSuffixEnd(text, d).value;
    assert e == BudgetEnd(text, i);
    UnitSuffixInSlice(text, i, d, e);
  }

  /** The unit suffix UnitSuffixEnd finds ends the slice it closes. */
  lemma UnitSuffixInSlice(text: string, i: nat, d: nat, e: nat)
    requires i <= d <= |text| && UnitSuffixEnd(text, d) == Some(e)
    ensures HasUnitSuffix(text[i..e], d - i)
  {
    var p := text[i..e];
    var w := Span(text, d, IsWhitespace);
    var v: nat := w - i;
    AllInSlice(text, i, e, d - i, v, IsWhitespace);
    if WordAt(text, w, "per") {
      WordAtSlice(text, i, e, v, "per");
      assert EndsWithWordAt(p, v, "per");
    } else {
      WordAtSlice(text, i, e, v, "each");
      assert EndsWithWordAt(p, v, "each");
    }
    assert d - i <= v <= |p| && AllIn(p, d - i, v, IsWhitespace) && IsUnitWordAt(p, v);
  }

  /** A word that ends a slice, after a whitespace run, pins down the
      greedy whitespace run of the whole text and where the slice ends. */
  lemma WordAfterWhitespace(text: string, i: nat, e': nat, d: nat, w: nat, word: string)
    requires i <= e' <= |text| && d <= w <= e' - i
    requires AllIn(text[i..e'], d, w, IsWhitespace) && EndsWithWordAt(text[i..e'], w, word)
    requires |word| > 0 && IsAsciiLower(word[0])
    ensures i + w + |word| == e' && WordAt(text, i + w, word)
    ensures i + d < |text| && !IsDigit(text[i + d]) && !IsDigitOrComma(text[i + d])
    ensures i + w == Span(text, i + d, IsWhitespace)
  {
    WordAtSlice(text, i, e', w, word);
    WordBeginsWithLetter(text, i + w, word);
    AllInSlice(text, i, e', d, w, IsWhitespace);
    assert d < w ==> IsWhitespace(text[i + d]);
    SpanUnique(text, i + d, IsWhitespace, i + w);
  }

  /** A unit suffix found in a phrase is the one UnitSuffixEnd finds, and the
      character where it begins is neither a digit nor a comma. */
  lemma UnitSuffixDetermined(text: string, i: nat, e': nat, d: nat)
    requires i <= e' <= |text| && d <= e' - i
    requires HasUnitSuffix(text[i..e'], d)
    ensures i + d < |text| && !IsDigitOrComma(text[i + d])
    ensures UnitSuffixEnd(text, i + d) == Some(e')
  {
    var p := text[i..e'];
    var w: nat :| d <= w <= |p| && AllIn(p, d, w, IsWhitespace) && IsUnitWordAt(p, w);
    if EndsWithWordAt(p, w, "per") {
      WordAfterWhitespace(text, i, e', d, w, "per");
    } else {
      WordAfterWhitespace(text, i, e', d, w, "each");
      WordsExclusive(text, i + w, "per", "each");
    }
  }

  /** No budget phrase starting where a match starts is longer than it: the
      greedy quantifiers and the optional group, tried first, give the
      longest phrase. */
  lemma BudgetPhraseEndBound(text: string, i: nat, e': nat)
    requires BudgetStartsAt(text, i) && i <= e' <= |text|
    ensures IsBudgetPhrase(text[i..e']) ==> e' <= BudgetEnd(text, i)
  {
    var p := text[i..e'];
    if IsBudgetPhrase(p) {
      var d := BudgetPhraseDigits(p);
      AllInSlice(text, i, e', 1, d, IsDigitOrComma);
      SpanIsMaximal(text, i + 1, i + d, IsDigitOrComma);
      if d < |p| {
        UnitSuffixDetermined(text, i, e', d);
        SpanUnique(text, i + 1, IsDigitOrComma, i + d);
      }
    }
  }

  /** The match `[s, e)` is the leftmost-longest budget phrase in `text`. */
  ghost predicate IsLeftmostLongestBudget(text: string, s: nat, e: nat) {
    && s <= e <= |text|
    && IsBudgetPhrase(text[s..e])
    && (forall s': nat, e': nat | s' < s && s' <= e' <= |text| :: !IsBudgetPhrase(text[s'..e']))
    && (forall e': nat | e < e' <= |text| :: !IsBudgetPhrase(text[s..e']))
  }

  /** What `extractBudget` returns, in terms of the pattern's language: the
      sentinel exactly when no substring is a budget phrase, and otherwise
      the leftmost-longest one. */
  lemma ExtractBudgetIsLeftmostLongest(text: string)
    ensures ExtractBudget(text) == NotSpecified <==>
              forall s: nat, e: nat | s <= e <= |text| :: !IsBudgetPhrase(text[s..e])
    ensures ExtractBudget(text) != NotSpecified ==>
              exists s: nat, e: nat :: IsLeftmostLongestBudget(text, s, e) && ExtractBudget(text) == text[s..e]
  {
    forall s: nat, e: nat | s <= e <= |text|
      ensures IsBudgetPhrase(text[s..e]) ==> BudgetStartsAt(text, s)
    {
      BudgetPhraseStart(text, s, e);
    }
    BudgetStartsAgree(text);
    match FirstWhere(0, |text|, BudgetStarts(text))
    case None =>
    case Some(s) =>
      var e := BudgetEnd(text, s);
      BudgetEndIsPhrase(text, s);
      forall e': nat | e < e' <= |text|
        ensures !IsBudgetPhrase(text[s..e'])
      {
        BudgetPhraseEndBound(text, s, e');
      }
      assert forall s': nat | s' < s :: !BudgetStartsAt(text, s');
      assert IsLeftmostLongestBudget(text, s, e);
      assert ExtractBudget(text) == text[s..e];
  }

  // ---------------------------------------------------------------------
  // extractTimeline:
  // /(next\s+(week|month|quarter|year)|within\s+\d+\s+(days|weeks|months))/i
  // ---------------------------------------------------------------------

  predicate IsPeriodWordAt(p: string, w: nat) {
    || EndsWithWordAt(p, w, "week")
    || EndsWithWordAt(p, w, "month")
    || EndsWithWordAt(p, w, "quarter")
    || EndsWithWordAt(p, w, "year")
  }

  predicate IsDurationWordAt(p: string, w: nat) {
    || EndsWithWordAt(p, w, "days")
    || EndsWithWordAt(p, w, "weeks")
    || EndsWithWordAt(p, w, "months")
  }

  /** `p` as a whole is `next\s+(week|month|quarter|year)`, without case. */
  ghost predicate IsNextPhrase(p: string) {
    && WordAt(p, 0, "next")
    && exists w: nat | 4 < w <= |p| :: AllIn(p, 4, w, IsWhitespace) && IsPeriodWordAt(p, w)
  }

  /** `p` as a whole is `within\s+\d+\s+(days|weeks|months)`, without case. */
  ghost predicate IsWithinPhrase(p: string) {
    && WordAt(p, 0, "within")
    && exists a: nat | 6 < a <= |p| :: AllIn(p, 6, a, IsWhitespace) && HasCountAndUnit(p, a)
  }

  /** From index `a` on, `p` is `\d+\s+(days|weeks|months)`. */
  ghost predicate HasCountAndUnit(p: string, a: nat)
    requires a <= |p|
  {
    exists b: nat | a < b <= |p| :: AllIn(p, a, b, IsDigit) && HasDurationUnit(p, b)
  }

  /** From index `b` on, `p` is `\s+(days|weeks|months)`. */
  ghost predicate HasDurationUnit(p: string, b: nat)
    requires b <= |p|
  {
    exists c: nat | b < c <= |p| :: AllIn(p, b, c, IsWhitespace) && IsDurationWordAt(p, c)
  }

  /** The language of the timeline pattern. */
  ghost predicate IsTimelinePhrase(p: string) {
    IsNextPhrase(p) || IsWithinPhrase(p)
  }

  /** Where `(week|month|quarter|year)` ends when tried at `w`. */
  function PeriodWordEnd(text: string, w: nat): (r: Option<nat>)
    ensures r.Some? ==> w < r.value <= |text|
  {
    if WordAt(text, w, "week") then Some(w + 4)
    else if WordAt(text, w, "month") then Some(w + 5)
    else if WordAt(text, w, "quarter") then Some(w + 7)
    else if WordAt(text, w, "year") then Some(w + 4)
    else None
  }

  /** Where `(days|weeks|months)` ends when tried at `c`. */
  function DurationWordEnd(text: string, c: nat): (r: Option<nat>)
    ensures r.Some? ==> c < r.value <= |text|
  {
    if WordAt(text, c, "days") then Some(c + 4)
    else if WordAt(text, c, "weeks") then Some(c + 5)
    else if WordAt(text, c, "months") then Some(c + 6)
    else None
  }

  /** Where the first alternative ends when tried at `i`: "next", the greedy
      whitespace run (which must not be empty), a period word. */
  function NextPhraseEnd(text: string, i: nat): (r: Option<nat>)
    requires i <= |text|
    ensures r.Some? ==> i < r.value <= |text|
  {
    if !WordAt(text, i, "next") then None
    else
      var w := Span(text, i + 4, IsWhitespace);
      if w == i + 4 then None else PeriodWordEnd(text, w)
  }

  /** Where the second alternative ends when tried at `i`: "within", then
      greedy non-empty runs of whitespace, digits and whitespace, then a
      duration unit. */
  function WithinPhraseEnd(text: string, i: nat): (r: Option<nat>)
    requires i <= |text|
    ensures r.Some? ==> i < r.value <= |text|
  {
    if !WordAt(text, i, "within") then None
    else
      var a := Span(text, i + 6, IsWhitespace);
      if a == i + 6 then None
      else
        var b := Span(text, a, IsDigit);
        if b == a then None
        else
          var c := Span(text, b, IsWhitespace);
          if c == b then None else DurationWordEnd(text, c)
  }

  /** Where the match starting at `i` ends, the alternatives tried in order. */
  function TimelineEnd(text: string, i: nat): (r: Option<nat>)
    requires i <= |text|
    ensures r.Some? ==> i < r.value <= |text|
  {
    var n := NextPhraseEnd(text, i);
    if n.Some? then n else WithinPhraseEnd(text, i)
  }

  /** A match of the timeline pattern starts at `i`. */
  predicate TimelineStartsAt(text: string, i: nat) {
    i <= |text| && TimelineEnd(text, i).Some?
  }

  function TimelineStarts(text: string): nat -> bool {
    (i: nat) => TimelineStartsAt(text, i)
  }

  /** `extractTimeline`: the first match of the timeline pattern, else the
      sentinel. A match always starts with "next" or "within", so it is never
      the sentinel. */
  function ExtractTimeline(text: string): (r: string)
    ensures r == NotSpecified <==> forall i | 0 <= i < |text| :: !TimelineStartsAt(text, i)
    ensures r != NotSpecified ==> WordAt(r, 0, "next") || WordAt(r, 0, "within")
  {
    TimelineStartsAgree(text);
    match FirstWhere(0, |text|, TimelineStarts(text))
    case None => NotSpecified
    case Some(s) =>
      var e := TimelineEnd(text, s).value;
      MatchBeginsWithKeyword(text, s, e);
      KeywordIsNotSentinel(text[s..e]);
      text[s..e]
  }

  lemma TimelineStartsAgree(text: string)
    ensures forall i: nat :: TimelineStarts(text)(i) == TimelineStartsAt(text, i)
  {
  }

  /** A match begins with one of the two keywords of the pattern. */
  lemma MatchBeginsWithKeyword(text: string, s: nat, e: nat)
    requires s <= |text| && TimelineEnd(text, s) == Some(e)
    ensures WordAt(text[s..e], 0, "next") || WordAt(text[s..e], 0, "within")
  {
    WordAtSlice(text, s, e, 0, "next");
    WordAtSlice(text, s, e, 0, "within");
  }

  /** The sentinel begins with neither keyword. */
  lemma KeywordIsNotSentinel(r: string)
    requires WordAt(r, 0, "next") || WordAt(r, 0, "within")
    ensures r != NotSpecified
  {
    if WordAt(r, 0, "next") {
      assert CharMatchesIgnoreCase(r[1], "next"[1]);
      assert r[1] != NotSpecified[1];
    } else {
      assert CharMatchesIgnoreCase(r[0], "within"[0]);
      assert r[0] != NotSpecified[0];
    }
  }

  /** A digit is not whitespace, so a digit run stops a whitespace run. */
  lemma DigitIsNotWhitespace(c: char)
    ensures IsDigit(c) ==> !IsWhitespace(c)
  {
  }

  /** A period word ending a slice after a whitespace run is the one
      PeriodWordEnd finds at the end of the greedy whitespace run. */
  lemma PeriodWordDetermined(text: string, i: nat, e: nat, d: nat, w: nat)
    requires i <= e <= |text| && d <= w <= e - i
    requires AllIn(text[i..e], d, w, IsWhitespace) && IsPeriodWordAt(text[i..e], w)
    ensures i + w == Span(text, i + d, IsWhitespace)
    ensures PeriodWordEnd(text, i + w) == Some(e)
  {
    var p := text[i..e];
    if EndsWithWordAt(p, w, "week") {
      WordAfterWhitespace(text, i, e, d, w, "week");
    } else if EndsWithWordAt(p, w, "month") {
      WordAfterWhitespace(text, i, e, d, w, "month");
      WordsExclusive(text, i + w, "week", "month");
    } else if EndsWithWordAt(p, w, "quarter") {
      WordAfterWhitespace(text, i, e, d, w, "quarter");
      WordsExclusive(text, i + w, "week", "quarter");
      WordsExclusive(text, i + w, "month", "quarter");
    } else {
      WordAfterWhitespace(text, i, e, d, w, "year");
      WordsExclusive(text, i + w, "week", "year");
      WordsExclusive(text, i + w, "month", "year");
      WordsExclusive(text, i + w, "quarter", "year");
    }
  }

  /** The same for a duration word; the character where the whitespace run
      begins is not a digit. */
  lemma DurationWordDetermined(text: string, i: nat, e: nat, d: nat, w: nat)
    requires i <= e <= |text| && d <= w <= e - i
    requires AllIn(text[i..e], d, w, IsWhitespace) && IsDurationWordAt(text[i..e], w)
    ensures i + w == Span(text, i + d, IsWhitespace)
    ensures i + d < |text| && !IsDigit(text[i + d])
    ensures DurationWordEnd(text, i + w) == Some(e)
  {
    var p := text[i..e];
    if EndsWithWordAt(p, w, "days") {
      WordAfterWhitespace(text, i, e, d, w, "days");
    } else if EndsWithWordAt(p, w, "weeks") {
      WordAfterWhitespace(text, i, e, d, w, "weeks");
      WordsExclusive(text, i + w, "days", "weeks");
    } else {
      WordAfterWhitespace(text, i, e, d, w, "months");
      WordsExclusive(text, i + w, "days", "months");
      WordsExclusive(text, i + w, "weeks", "months");
    }
  }

  /** What NextPhraseEnd finds is a phrase of the first alternative. */
  lemma NextPhraseSound(text: string, i: nat)
    requires i <= |text|
    ensures NextPhraseEnd(text, i).Some? ==> IsNextPhrase(text[i..NextPhraseEnd(text, i).value])
  {
    if NextPhraseEnd(text, i).Some? {
      var e := NextPhraseEnd(text, i).value;
      var w := Span(text, i + 4, IsWhitespace);
      WordAtSlice(text, i, e, 0, "next");
      AllInSlice(text, i, e, 4, w - i, IsWhitespace);
      PeriodWordInSlice(text, i, w, e);
    }
  }

  /** The period word PeriodWordEnd finds ends the slice it closes. */
  lemma PeriodWordInSlice(text: string, i: nat, w: nat, e: nat)
    requires i <= w && PeriodWordEnd(text, w) == Some(e)
    ensures IsPeriodWordAt(text[i..e], w - i)
  {
    if WordAt(text, w, "week") {
      WordAtSlice(text, i, e, w - i, "week");
    } else if WordAt(text, w, "month") {
      WordAtSlice(text, i, e, w - i, "month");
    } else if WordAt(text, w, "quarter") {
      WordAtSlice(text, i, e, w - i, "quarter");
    } else {
      WordAtSlice(text, i, e, w - i, "year");
    }
  }

  /** The duration word DurationWordEnd finds ends the slice it closes. */
  lemma DurationWordInSlice(text: string, i: nat, c: nat, e: nat)
    requires i <= c && DurationWordEnd(text, c) == Some(e)
    ensures IsDurationWordAt(text[i..e], c - i)
  {
    if WordAt(text, c, "days") {
      WordAtSlice(text, i, e, c - i, "days");
    } else if WordAt(text, c, "weeks") {
      WordAtSlice(text, i, e, c - i, "weeks");
    } else {
      WordAtSlice(text, i, e, c - i, "months");
    }
  }

  /** Every phrase of the first alternative starting at `i` is the one
      NextPhraseEnd finds. */
  lemma NextPhraseComplete(text: string, i: nat, e: nat)
    requires i <= e <= |text|
    ensures IsNextPhrase(text[i..e]) ==> NextPhraseEnd(text, i) == Some(e)
  {
    if IsNextPhrase(text[i..e]) {
      WordAtSlice(text, i, e, 0, "next");
      var w := NextPhraseRun(text[i..e]);
      PeriodWordDetermined(text, i, e, 4, w);
    }
  }

  /** A duration unit found after a digit run ends a phrase's unit suffix. */
  lemma DurationUnitFound(text: string, i: nat, b: nat, e: nat)
    requires i <= b <= |text|
    requires Span(text, b, IsWhitespace) > b
    requires DurationWordEnd(text, Span(text, b, IsWhitespace)) == Some(e)
    ensures e <= |text| && HasDurationUnit(text[i..e], b - i)
  {
    var c := Span(text, b, IsWhitespace);
    AllInSlice(text, i, e, b - i, c - i, IsWhitespace);
    DurationWordInSlice(text, i, c, e);
  }

  /** The greedy runs WithinPhraseEnd takes, when they give a match, end a
      phrase of the second alternative. */
  lemma WithinPhraseSound(text: string, i: nat)
    requires i <= |text|
    ensures WithinPhraseEnd(text, i).Some? ==> IsWithinPhrase(text[i..WithinPhraseEnd(text, i).value])
  {
    if WithinPhraseEnd(text, i).Some? {
      var e := WithinPhraseEnd(text, i).value;
      var a := Span(text, i + 6, IsWhitespace);
      var b := Span(text, a, IsDigit);
      var p := text[i..e];
      DurationUnitFound(text, i, b, e);
      WordAtSlice(text, i, e, 0, "within");
      AllInSlice(text, i, e, 6, a - i, IsWhitespace);
      AllInSlice(text, i, e, a - i, b - i, IsDigit);
      assert HasCountAndUnit(p, a - i);
    }
  }

  /** The whitespace and digit runs of a phrase of the second alternative
      are the greedy ones. */
  lemma CountRunsForced(text: string, i: nat, e: nat, a: nat, b: nat)
    requires i <= e <= |text| && 6 < a < b <= e - i
    requires AllIn(text[i..e], 6, a, IsWhitespace) && AllIn(text[i..e], a, b, IsDigit)
    requires i + b < |text| && !IsDigit(text[i + b])
    ensures Span(text, i + 6, IsWhitespace) == i + a
    ensures Span(text, i + a, IsDigit) == i + b
  {
    AllInSlice(text, i, e, a, b, IsDigit);
    SpanUnique(text, i + a, IsDigit, i + b);
    AllInSlice(text, i, e, 6, a, IsWhitespace);
    DigitIsNotWhitespace(text[i + a]);
    SpanUnique(text, i + 6, IsWhitespace, i + a);
  }

  /** Every phrase of the second alternative starting at `i` is the one
      WithinPhraseEnd finds: each greedy run is forced to stop where the
      phrase's own run stops. */
  lemma WithinPhraseComplete(text: string, i: nat, e: nat)
    requires i <= e <= |text|
    ensures IsWithinPhrase(text[i..e]) ==> WithinPhraseEnd(text, i) == Some(e)
  {
    if IsWithinPhrase(text[i..e]) {
      WordAtSlice(text, i, e, 0, "within");
      var a, b, c := WithinPhraseRuns(text[i..e]);
      DurationWordDetermined(text, i, e, b, c);
      CountRunsForced(text, i, e, a, b);
      WithinPhraseEndOfRuns(text, i, i + a, i + b, i + c, e);
    }
  }

  /** The whitespace run of a phrase of the first alternative. */
  lemma NextPhraseRun(p: string) returns (w: nat)
    requires IsNextPhrase(p)
    ensures 4 < w <= |p| && AllIn(p, 4, w, IsWhitespace) && IsPeriodWordAt(p, w)
  {
    w :| 4 < w <= |p| && AllIn(p, 4, w, IsWhitespace) && IsPeriodWordAt(p, w);
  }

  /** The three runs of a phrase of the second alternative: whitespace up to
      `a`, digits up to `b`, whitespace up to `c`, then the duration word. */
  lemma WithinPhraseRuns(p: string) returns (a: nat, b: nat, c: nat)
    requires IsWithinPhrase(p)
    ensures 6 < a < b < c <= |p|
    ensures AllIn(p, 6, a, IsWhitespace) && AllIn(p, a, b, IsDigit)
    ensures AllIn(p, b, c, IsWhitespace) && IsDurationWordAt(p, c)
  {
    a :| 6 < a <= |p| && AllIn(p, 6, a, IsWhitespace) && HasCountAndUnit(p, a);
    b :| a < b <= |p| && AllIn(p, a, b, IsDigit) && HasDurationUnit(p, b);
    c :| b < c <= |p| && AllIn(p, b, c, IsWhitespace) && IsDurationWordAt(p, c);
  }

  /** WithinPhraseEnd, once the three greedy runs are known. */
  lemma WithinPhraseEndOfRuns(text: string, i: nat, a: nat, b: nat, c: nat, e: nat)
    requires i + 6 < a < b < c <= |text| && WordAt(text, i, "within")
    requires Span(text, i + 6, IsWhitespace) == a && Span(text, a, IsDigit) == b
    requires Span(text, b, IsWhitespace) == c && DurationWordEnd(text, c) == Some(e)
    ensures WithinPhraseEnd(text, i) == Some(e)
  {
  }

  /** TimelineEnd is exactly the pattern's language at `i`: it gives `e`
      exactly when `text[i..e]` is a timeline phrase. In particular a start
      admits at most one phrase, since the alternatives begin with different
      words and every run before a word is forced. */
  lemma TimelineEndIsPhrase(text: string, i: nat, e: nat)
    requires i <= e <= |text|
    ensures TimelineEnd(text, i) == Some(e) <==> IsTimelinePhrase(text[i..e])
  {
    NextPhraseSound(text, i);
    WithinPhraseSound(text, i);
    NextPhraseComplete(text, i, e);
    WithinPhraseComplete(text, i, e);
    if IsWithinPhrase(text[i..e]) {
      WordAtSlice(text, i, e, 0, "within");
      WordsExclusive(text, i, "next", "within");
    }
  }

  /** The match `[s, e)` is the leftmost timeline phrase in `text`, and the
      only one starting at `s`. */
  ghost predicate IsLeftmostTimeline(text: string, s: nat, e: nat) {
    && s <= e <= |text|
    && IsTimelinePhrase(text[s..e])
    && (forall s': nat, e': nat | s' < s && s' <= e' <= |text| :: !IsTimelinePhrase(text[s'..e']))
    && (forall e': nat | s <= e' <= |text| && e' != e :: !IsTimelinePhrase(text[s..e']))
  }

  /** What `extractTimeline` returns, in terms of the pattern's language: the
      sentinel exactly when no substring is a timeline phrase, and otherwise
      the leftmost one. */
  lemma ExtractTimelineIsLeftmost(text: string)
    ensures ExtractTimeline(text) == NotSpecified <==>
              forall s: nat, e: nat | s <= e <= |text| :: !IsTimelinePhrase(text[s..e])
    ensures ExtractTimeline(text) != NotSpecified ==>
              exists s: nat, e: nat :: IsLeftmostTimeline(text, s, e) && ExtractTimeline(text) == text[s..e]
  {
    forall s: nat, e: nat | s <= e <= |text|
      ensures IsTimelinePhrase(text[s..e]) ==> TimelineStartsAt(text, s)
    {
      TimelineEndIsPhrase(text, s, e);
    }
    TimelineStartsAgree(text);
    match FirstWhere(0, |text|, TimelineStarts(text))
    case None =>
      assert forall s: nat | s < |text| :: !TimelineStartsAt(text, s);
    case Some(s) =>
      var e := TimelineEnd(text, s).value;
      LeftmostTimelineAt(text, s, e);
  }

  /** The match at the first start is the leftmost phrase and the only one
      starting there. */
  lemma LeftmostTimelineAt(text: string, s: nat, e: nat)
    requires s < |text| && TimelineEnd(text, s) == Some(e)
    requires forall s' | 0 <= s' < s :: !TimelineStartsAt(text, s')
    ensures IsLeftmostTimeline(text, s, e)
  {
    forall s': nat, e': nat | s' < s && s' <= e' <= |text|
      ensures !IsTimelinePhrase(text[s'..e'])
    {
      assert !TimelineStartsAt(text, s');
      TimelineEndIsPhrase(text, s', e');
    }
    TimelineEndIsPhrase(text, s, e);
    forall e': nat | s <= e' <= |text| && e' != e
      ensures !IsTimelinePhrase(text[s..e'])
    {
      TimelineEndIsPhrase(text, s, e');
    }
  }

  /** A unit word after the amount belongs to the match. */
  lemma BudgetExample()
    ensures ExtractBudget("$2,500 each") == "$2,500 each"
  {
    var t := "$2,500 each";
    BudgetExampleEnd();
    assert BudgetStarts(t)(0);
    FirstWhereIs(0, |t|, BudgetStarts(t), 0);
    assert t[0..11] == t;
  }

  lemma BudgetExampleEnd()
    ensures BudgetEnd("$2,500 each", 0) == 11
  {
    BudgetExampleDigits();
    BudgetExampleUnit();
  }

  lemma BudgetExampleDigits()
    ensures Span("$2,500 each", 1, IsDigitOrComma) == 6
  {
    var t := "$2,500 each";
    assert AllIn(t, 1, 6, IsDigitOrComma) by {
      assert t[1] == '2' && t[2] == ',' && t[3] == '5' && t[4] == '0' && t[5] == '0';
    }
    assert t[6] == ' ';
    SpanUnique(t, 1, IsDigitOrComma, 6);
  }

  lemma BudgetExampleUnit()
    ensures UnitSuffixEnd("$2,500 each", 6) == Some(11)
  {
    var t := "$2,500 each";
    assert t[6] == ' ' && t[7] == 'e';
    SpanUnique(t, 6, IsWhitespace, 7);
    assert !CharMatchesIgnoreCase(t[7], "per"[0]);
    assert t[7..11] == "each";
  }

  /** No timeline match starts where neither "next" nor "within" does. */
  lemma NoTimelineWithoutKeyword(text: string, i: nat)
    requires i <= |text| && !WordAt(text, i, "next") && !WordAt(text, i, "within")
    ensures !TimelineStartsAt(text, i)
  {
  }

  /** A letter other than n and w, in either case, starts no timeline match. */
  lemma NoTimelineAtLetter(text: string, i: nat)
    requires i < |text| && text[i] !in "nNwW"
    ensures !TimelineStartsAt(text, i)
  {
    assert !CharMatchesIgnoreCase(text[i], "next"[0]);
    assert !CharMatchesIgnoreCase(text[i], "within"[0]);
    NoTimelineWithoutKeyword(text, i);
  }

  /** The phrase is found inside a longer sentence. */
  lemma TimelineWithinExample()
    ensures ExtractTimeline("deliver within 3 weeks") == "within 3 weeks"
  {
    WithinExampleAt8();
    WithinExampleSlice();
  }

  lemma WithinExampleAt8()
    ensures ExtractTimeline("deliver within 3 weeks") == "deliver within 3 weeks"[8..22]
  {
    WithinExamplePrefix();
    WithinExampleMatch();
    ExtractTimelineAt("deliver within 3 weeks", 8, 22);
  }

  lemma WithinExampleSlice()
    ensures "deliver within 3 weeks"[8..22] == "within 3 weeks"
  {
  }

  lemma WithinExamplePrefix()
    ensures forall i | 0 <= i < 8 :: !TimelineStartsAt("deliver within 3 weeks", i)
  {
    var t := "deliver within 3 weeks";
    forall i | 0 <= i < 8 ensures !TimelineStartsAt(t, i) {
      NoTimelineAtLetter(t, i);
    }
  }

  lemma WithinExampleMatch()
    ensures TimelineEnd("deliver within 3 weeks", 8) == Some(22)
  {
    var t := "deliver within 3 weeks";
    WithinExampleKeyword();
    WithinExampleRuns();
    WithinExampleUnit();
    WithinPhraseEndOfRuns(t, 8, 15, 16, 17, 22);
  }

  lemma WithinExampleKeyword()
    ensures WordAt("deliver within 3 weeks", 8, "within")
    ensures NextPhraseEnd("deliver within 3 weeks", 8).None?
  {
    var t := "deliver within 3 weeks";
    assert t[8..14] == "within";
    assert !CharMatchesIgnoreCase(t[8], "next"[0]);
  }

  lemma WithinExampleRuns()
    ensures Span("deliver within 3 weeks", 14, IsWhitespace) == 15
    ensures Span("deliver within 3 weeks", 15, IsDigit) == 16
    ensures Span("deliver within 3 weeks", 16, IsWhitespace) == 17
  {
    var t := "deliver within 3 weeks";
    assert t[14] == ' ' && t[15] == '3' && t[16] == ' ' && t[17] == 'w';
    SpanUnique(t, 14, IsWhitespace, 15);
    SpanUnique(t, 15, IsDigit, 16);
    SpanUnique(t, 16, IsWhitespace, 17);
  }

  lemma WithinExampleUnit()
    ensures DurationWordEnd("deliver within 3 weeks", 17) == Some(22)
  {
    var t := "deliver within 3 weeks";
    assert !CharMatchesIgnoreCase(t[17], "days"[0]);
    assert t[17..22] == "weeks";
  }

  /** The whole input is the match. */
  lemma TimelineNextExample()
    ensures ExtractTimeline("next quarter") == "next quarter"
  {
    var t := "next quarter";
    assert WordAt(t, 0, "next") by {
      assert t[0..4] == "next";
    }
    assert t[4] == ' ' && t[5] == 'q';
    SpanUnique(t, 4, IsWhitespace, 5);
    assert !WordAt(t, 5, "week") && !WordAt(t, 5, "month") by {
      assert !CharMatchesIgnoreCase(t[5], "week"[0]);
      assert !CharMatchesIgnoreCase(t[5], "month"[0]);
    }
    assert WordAt(t, 5, "quarter") by {
      assert t[5..12] == "quarter";
    }
    assert NextPhraseEnd(t, 0) == Some(12);
    ExtractTimelineAt(t, 0, 12);
    assert t[0..12] == t;
  }

  /** The match is the one at the first start. */
  lemma ExtractTimelineAt(text: string, s: nat, e: nat)
    requires s < |text| && TimelineEnd(text, s) == Some(e)
    requires forall i | 0 <= i < s :: !TimelineStartsAt(text, i)
    ensures ExtractTimeline(text) == text[s..e]
  {
    var P := TimelineStarts(text);
    assert P(s);
    assert forall i | 0 <= i < s :: !P(i);
    FirstWhereIs(0, |text|, P, s);
  }
}
