/** `safeJsonParse` of backend/services/aiService.js: the model's answer is
    cleaned of Markdown code fences and surrounding whitespace, then handed to
    `JSON.parse`, which is a parameter here. */
module SafeJson {
  import opened Wrappers
  import opened JsStrings
  import opened JsonValue

  const FenceWithTag: string := "```json"
  const Fence: string := "```"

  /** Text starts with at least `n` backticks. */
  predicate StartsWithTicks(s: string, n: int) {
    |s| >= n && forall k | 0 <= k < n :: s[k] == '`'
  }

  /** The text `safeJsonParse` hands to `JSON.parse`: every "```json" (any
      case) removed, then every "```" removed, then trimmed. No fence is left
      in it and it neither begins nor ends with whitespace. */
  function Clean(aiText: string): (r: string)
    ensures !Occurs(r, Fence)
    ensures |r| > 0 ==> !IsWhitespace(r[0]) && !IsWhitespace(r[|r| - 1])
  {
    var untagged := RemoveAll(aiText, FenceWithTag, true);
    var unfenced := RemoveAll(untagged, Fence, false);
    FenceRemovalLeavesNoFence(untagged);
    TrimKeepsAbsence(unfenced, Fence);
    Trim(unfenced)
  }

  /** Trimming cannot create a substring. */
  lemma TrimKeepsAbsence(s: string, pat: string)
    requires !Occurs(s, pat)
    ensures !Occurs(Trim(s), pat)
  {
    var r := Trim(s);
    var a := TrimOffset(s);
    if Occurs(r, pat) {
      OccursInInfix(s, a, r, pat);
    }
  }

  /** `safeJsonParse`: `JSON.parse` of the cleaned text. A parse failure is None. */
  function SafeJsonParse(aiText: string, parse: string -> Option<Json>): Option<Json> {
    parse(Clean(aiText))
  }

  /** An answer wrapped in a "```json" fence is parsed as its content,
      trimmed, provided the content holds no fence. */
  lemma SafeJsonParseFenced(body: string, parse: string -> Option<Json>)
    requires !Occurs(body, Fence)
    ensures Clean(FenceWithTag + body + Fence) == Trim(body)
    ensures SafeJsonParse(FenceWithTag + body + Fence, parse) == parse(Trim(body))
  {
    TagRemovalOfFenced(body);
    FenceRemovalOfFenced(body);
  }

  /** Removing "```json" from a fenced answer removes just the opening tag. */
  lemma TagRemovalOfFenced(body: string)
    requires !Occurs(body, Fence)
    ensures RemoveAll(FenceWithTag + body + Fence, FenceWithTag, true) == body + Fence
  {
    var t := body + Fence;
    var s := FenceWithTag + t;
    assert s == FenceWithTag + body + Fence;
    assert WordAt(s, 0, FenceWithTag) by {
      assert s[..7] == FenceWithTag;
    }
    assert s[|FenceWithTag|..] == t;
    forall i: nat | i < |t|
      ensures !MatchesAt(t, i, FenceWithTag, true)
    {
      if i < |body| {
        NoTagInFencedBody(body, i);
      } else {
        TagBeginsWithFence(t, i);
      }
    }
    RemoveAllAbsent(t, FenceWithTag, true);
  }

  /** No "```json" starts inside the content of a fenced answer: three
      backticks there reach into the closing fence, which a `j` never
      follows. */
  lemma NoTagInFencedBody(body: string, i: nat)
    requires !Occurs(body, Fence) && i < |body|
    ensures !WordAt(body + Fence, i, FenceWithTag)
  {
    var t := body + Fence;
    TagBeginsWithFence(t, i);
    if i + 3 <= |body| {
      TicksAtIsFence(body, i);
      assert !TicksAt(t, i);
    } else {
      assert t[i + 3] == '`' && FenceWithTag[3] == 'j';
      assert !CharMatchesIgnoreCase(t[i + 3], FenceWithTag[3]);
    }
  }

  /** Removing "```" from the content and the closing fence removes just the
      closing fence. The content may end with one or two backticks of its
      own: the first three of the final run go, and the content's own stay. */
  lemma FenceRemovalOfFenced(body: string)
    requires !Occurs(body, Fence)
    ensures RemoveAll(body + Fence, Fence, false) == body
  {
    var c, y := TrailingTicks(body);
    TicksCommute(y);
    assert body + Fence == c + (Fence + y);
    NoFenceBeforeClosing(body, c, y);
    RemoveAllKeepsPrefix(c, Fence + y, Fence);
    LeadingFenceRemoved(y);
  }

  /** A fence followed by fewer than three characters loses the fence. */
  lemma LeadingFenceRemoved(y: string)
    requires |y| <= 2
    ensures RemoveAll(Fence + y, Fence, false) == y
  {
    var s := Fence + y;
    assert s[0..3] == Fence && s[3..] == y;
    assert MatchesAt(s, 0, Fence, false);
    RemoveAllAbsent(y, Fence, false);
  }

  /** The content of a fenced answer is text `c` not ending in a backtick,
      followed by at most two backticks. */
  lemma TrailingTicks(body: string) returns (c: string, y: string)
    requires !Occurs(body, Fence)
    ensures body == c + y && |y| <= 2
    ensures forall j | 0 <= j < |y| :: y[j] == '`'
    ensures |c| > 0 ==> c[|c| - 1] != '`'
  {
    var k: nat := if |body| >= 2 && body[|body| - 1] == '`' && body[|body| - 2] == '`' then 2
                  else if |body| >= 1 && body[|body| - 1] == '`' then 1 else 0;
    c := body[..|body| - k];
    y := body[|body| - k..];
    assert body == c + y;
    if k == 2 && |body| >= 3 {
      TicksAtIsFence(body, |body| - 3);
    }
    forall j | 0 <= j < |y| ensures y[j] == '`' {
      assert y[j] == body[|body| - k + j];
    }
  }

  /** Backticks followed by a fence are the fence followed by them. */
  lemma TicksCommute(y: string)
    requires forall j | 0 <= j < |y| :: y[j] == '`'
    ensures y + Fence == Fence + y
  {
    forall j | 0 <= j < |y| + 3 ensures (y + Fence)[j] == (Fence + y)[j] {
      if j >= 3 {
        assert (Fence + y)[j] == y[j - 3];
      }
    }
  }

  /** No fence starts inside `c` once the closing fence follows it. */
  lemma NoFenceBeforeClosing(body: string, c: string, y: string)
    requires !Occurs(body, Fence) && body == c + y
    requires |c| > 0 ==> c[|c| - 1] != '`'
    ensures forall i: nat | i < |c| :: !MatchesAt(c + (Fence + y), i, Fence, false)
  {
    var s := c + (Fence + y);
    forall i: nat | i < |c|
      ensures !MatchesAt(s, i, Fence, false)
    {
      TicksAtIsFence(s, i);
      if i + 3 <= |c| {
        TicksAtIsFence(body, i);
        assert s[i] == body[i] && s[i + 1] == body[i + 1] && s[i + 2] == body[i + 2];
      } else {
        assert s[|c| - 1] == c[|c| - 1];
      }
    }
  }

  /** Three backticks at index `i`. */
  predicate TicksAt(s: string, i: nat) {
    i + 3 <= |s| && s[i] == '`' && s[i + 1] == '`' && s[i + 2] == '`'
  }

  lemma TicksAtIsFence(s: string, i: nat)
    ensures TicksAt(s, i) <==> LiteralAt(s, i, Fence)
  {
    if i + 3 <= |s| {
      assert TicksAt(s, i) ==> s[i..i + 3] == Fence;
      assert LiteralAt(s, i, Fence) ==> s[i..i + 3][0] == '`' && s[i..i + 3][1] == '`' && s[i..i + 3][2] == '`';
    }
  }

  lemma ThreeLeadingTicks(s: string)
    ensures |s| >= 1 && s[0] == '`' && StartsWithTicks(s[1..], 2) ==> TicksAt(s, 0)
  {
  }

  /** "```json" begins with a fence, whatever the case of its letters. */
  lemma TagBeginsWithFence(s: string, i: nat)
    ensures WordAt(s, i, FenceWithTag) ==> TicksAt(s, i)
  {
    assert FenceWithTag[0] == '`' && FenceWithTag[1] == '`' && FenceWithTag[2] == '`';
    assert !IsAsciiLower('`');
    if WordAt(s, i, FenceWithTag) {
      assert CharMatchesIgnoreCase(s[i], FenceWithTag[0]);
      assert CharMatchesIgnoreCase(s[i + 1], FenceWithTag[1]);
      assert CharMatchesIgnoreCase(s[i + 2], FenceWithTag[2]);
    }
  }

  /** Removing every "```" from left to right leaves no "```" behind, even
      though removal joins the text on either side of each fence: a run of `k`
      backticks is left with `k % 3` of them. */
  lemma FenceRemovalLeavesNoFence(s: string)
    ensures !Occurs(RemoveAll(s, Fence, false), Fence)
  {
    var r := RemoveAll(s, Fence, false);
    NoTicksAfterFenceRemoval(s);
    forall i: nat | i + 3 <= |r|
      ensures !LiteralAt(r, i, Fence)
    {
      TicksAtIsFence(r, i);
    }
  }

  /** The induction behind FenceRemovalLeavesNoFence. The two extra
      conclusions say the result starts with no more backticks than the input. */
  lemma {:induction false} NoTicksAfterFenceRemoval(s: string)
    ensures forall i: nat :: !TicksAt(RemoveAll(s, Fence, false), i)
    ensures StartsWithTicks(RemoveAll(s, Fence, false), 1) ==> StartsWithTicks(s, 1)
    ensures StartsWithTicks(RemoveAll(s, Fence, false), 2) ==> StartsWithTicks(s, 2)
    decreases |s|
  {
    var r := RemoveAll(s, Fence, false);
    TicksAtIsFence(s, 0);
    if |s| == 0 {
    } else if LiteralAt(s, 0, Fence) {
      NoTicksAfterFenceRemoval(s[3..]);
      assert r == RemoveAll(s[3..], Fence, false);
    } else {
      var r1 := RemoveAll(s[1..], Fence, false);
      NoTicksAfterFenceRemoval(s[1..]);
      assert s == [s[0]] + s[1..];
      assert r == [s[0]] + r1;
      ConsKeepsNoTicks(s[0], s[1..], r1);
    }
  }

  /** A character that does not start a fence, put before a text and before
      what removal made of it, keeps the result free of fences and no longer
      in backticks at its start. */
  lemma ConsKeepsNoTicks(x: char, s1: string, r1: string)
    requires forall i: nat :: !TicksAt(r1, i)
    requires StartsWithTicks(r1, 1) ==> StartsWithTicks(s1, 1)
    requires StartsWithTicks(r1, 2) ==> StartsWithTicks(s1, 2)
    requires !TicksAt([x] + s1, 0)
    ensures forall i: nat :: !TicksAt([x] + r1, i)
    ensures StartsWithTicks([x] + r1, 1) ==> StartsWithTicks([x] + s1, 1)
    ensures StartsWithTicks([x] + r1, 2) ==> StartsWithTicks([x] + s1, 2)
  {
    var r := [x] + r1;
    assert r[0] == x && ([x] + s1)[0] == x;
    assert !TicksAt(r, 0) by {
      assert TicksAt(r, 0) ==> StartsWithTicks(r1, 2);
      ThreeLeadingTicks([x] + s1);
      assert ([x] + s1)[1..] == s1;
    }
    if StartsWithTicks(r, 2) {
      assert r[1] == '`' && r1[0] == r[1];
      assert StartsWithTicks(r1, 1);
      assert ([x] + s1)[1] == s1[0];
    }
    forall i: nat | i >= 1
      ensures !TicksAt(r, i)
    {
      assert TicksAt(r, i) ==> TicksAt(r1, i - 1);
    }
  }

  /** Cleaning is idempotent: cleaned text has no fence left to remove and no
      whitespace left to trim. */
  lemma CleanIdempotent(aiText: string)
    ensures Clean(Clean(aiText)) == Clean(aiText)
  {
    var c := Clean(aiText);
    assert !Occurs(c, Fence);
    assert |c| > 0 ==> !IsWhitespace(c[0]) && !IsWhitespace(c[|c| - 1]);
    forall i: nat | i < |c|
      ensures !MatchesAt(c, i, FenceWithTag, true)
    {
      TagBeginsWithFence(c, i);
      TicksAtIsFence(c, i);
      assert !LiteralAt(c, i, Fence);
    }
    RemoveAllAbsent(c, FenceWithTag, true);
    assert forall i: nat | i < |c| :: !MatchesAt(c, i, Fence, false);
    RemoveAllAbsent(c, Fence, false);
    TrimTrimmed(c);
    assert Clean(c) == Trim(RemoveAll(RemoveAll(c, FenceWithTag, true), Fence, false));
  }
}
