/** How `checkEmails` of backend/services/emailService.js reads a vendor's
    reply: the request id from the subject, with `/\(ID: (.*?)\)/`, and the
    vendor's address and name from the From header, with `/<([^>]+)>/` and
    `from.split('<')[0].trim()`. */
module ReplyParsing {
  import opened Wrappers
  import opened JsStrings
  import opened RfpMail

  const IdOpen: string := "(ID: "

  // ---------------------------------------------------------------------
  // The request id: /\(ID: (.*?)\)/
  // ---------------------------------------------------------------------

  /** A character the lazy `.*?` can step over on its way to `)`: `.` takes
      any character but a line terminator, and the first `)` ends the match. */
  predicate IsIdChar(c: char) {
    c != ')' && !IsLineTerminator(c)
  }

  /** The capture when the pattern is tried at `i`: after "(ID: " the lazy
      group grows one character at a time until a `)` follows, and fails at a
      line terminator or the end of the text. */
  function IdMatchAt(s: string, i: nat): (r: Option<string>)
    requires i <= |s|
  {
    if !LiteralAt(s, i, IdOpen) then None
    else
      var k := Span(s, i + 5, IsIdChar);
      if k < |s| && s[k] == ')' then Some(s[i + 5..k]) else None
  }

  /** The pattern matches when tried at `i`. */
  predicate IdStartsAt(s: string, i: nat) {
    i <= |s| && IdMatchAt(s, i).Some?
  }

  function IdStarts(s: string): nat -> bool {
    (i: nat) => IdStartsAt(s, i)
  }

  lemma IdStartsAgree(s: string)
    ensures forall i: nat :: IdStarts(s)(i) == IdStartsAt(s, i)
  {
  }

  /** `rfpIdMatch[1]`, or None where `checkEmails` skips the message. The id
      never holds a `)` or a line terminator. */
  function ExtractRfpId(subject: string): (r: Option<string>)
    ensures r.Some? ==> forall k | 0 <= k < |r.value| :: IsIdChar(r.value[k])
  {
    match FirstWhere(0, |subject|, IdStarts(subject))
    case None => None
    case Some(i) => IdMatchAt(subject, i)
  }

  /** The language of the pattern: "(ID: " at `i`, a `)` at `k`, and only
      characters other than line terminators in between. */
  ghost predicate IsIdMatch(s: string, i: nat, k: nat) {
    && i + 5 <= k < |s|
    && LiteralAt(s, i, IdOpen)
    && s[k] == ')'
    && forall j | i + 5 <= j < k :: !IsLineTerminator(s[j])
  }

  /** At a start where the pattern matches somewhere, IdMatchAt finds the
      shortest match, which ends at the first `)`. */
  lemma IdMatchAtIsShortest(s: string, i: nat, k: nat)
    requires i <= |s| && IsIdMatch(s, i, k)
    ensures var m := Span(s, i + 5, IsIdChar);
            m <= k && IsIdMatch(s, i, m) && IdMatchAt(s, i) == Some(s[i + 5..m])
  {
    var m := Span(s, i + 5, IsIdChar);
    assert k < m ==> IsIdChar(s[k]);
    assert m < |s|;
    assert m < k ==> !IsLineTerminator(s[m]);
    assert s[m] == ')';
  }

  /** What IdMatchAt finds is a match of the pattern. */
  lemma IdMatchAtSound(s: string, i: nat)
    requires i <= |s|
    ensures IdMatchAt(s, i).Some? ==> IsIdMatch(s, i, Span(s, i + 5, IsIdChar))
  {
  }

  /** The match `[i, k]` is the leftmost and, at its start, the shortest
      match of the id pattern. */
  ghost predicate IsLeftmostShortestId(s: string, i: nat, k: nat) {
    && IsIdMatch(s, i, k)
    && (forall i': nat, k': nat | i' < i && k' < |s| :: !IsIdMatch(s, i', k'))
    && (forall k': nat | k' < k :: !IsIdMatch(s, i, k'))
  }

  /** What `subject.match(/\(ID: (.*?)\)/)` gives, in terms of the pattern's
      language: no match exactly when no substring matches, and otherwise
      the group of the leftmost, shortest match. */
  lemma ExtractRfpIdIsLeftmostShortest(s: string)
    ensures ExtractRfpId(s).None? <==> forall i: nat, k: nat | k < |s| :: !IsIdMatch(s, i, k)
    ensures ExtractRfpId(s).Some? ==>
              exists i: nat, k: nat :: IsLeftmostShortestId(s, i, k) && ExtractRfpId(s) == Some(s[i + 5..k])
  {
    forall i: nat, k: nat | k < |s| && IsIdMatch(s, i, k)
      ensures i < |s| && IdStartsAt(s, i)
    {
      IdMatchAtIsShortest(s, i, k);
    }
    IdStartsAgree(s);
    match FirstWhere(0, |s|, IdStarts(s))
    case None =>
    case Some(i) =>
      var k := Span(s, i + 5, IsIdChar);
      IdMatchAtSound(s, i);
      forall k': nat | k' < k
        ensures !IsIdMatch(s, i, k')
      {
        if IsIdMatch(s, i, k') {
          IdMatchAtIsShortest(s, i, k');
        }
      }
      assert forall i': nat | i' < i :: !IdStartsAt(s, i');
      assert IsLeftmostShortestId(s, i, k);
  }

  /** The subject of a reply as mail clients write it. */
  function ReplySubject(title: string, id: string): string {
    "Re: " + RfpSubject(title, id)
  }

  /** A reply to the message `sendRFP` sent has "Re: RFP Requirement" in
      its subject, the text the mailbox search of `checkEmails` looks for. */
  lemma ReplySubjectPassesSearch(title: string, id: string)
    ensures Occurs(ReplySubject(title, id), "Re: RFP Requirement")
  {
    var s := ReplySubject(title, id);
    assert s == "Re: RFP Requirement" + (": " + title + " (ID: " + id + ")");
    assert LiteralAt(s, 0, "Re: RFP Requirement");
  }

  /** The fixed text before the title in a reply subject holds no `(`. */
  lemma ReplyLeadHasNoParen()
    ensures forall k | 0 <= k < |"Re: " + SubjectLead| :: ("Re: " + SubjectLead)[k] != '('
  {
  }

  /** The id `sendRFP` put into the subject comes back out of a reply to it,
      provided the id is one the pattern can capture (no `)`, no line
      terminator) and the title does not itself start a match, i.e. "(ID: "
      does not occur in the title followed by the space of the template. */
  lemma RfpIdRoundTrip(title: string, id: string)
    requires forall k | 0 <= k < |id| :: IsIdChar(id[k])
    requires !Occurs(title + " ", IdOpen)
    ensures ExtractRfpId(ReplySubject(title, id)) == Some(id)
  {
    var lead := "Re: " + SubjectLead;
    var s := ReplySubject(title, id);
    var p := |lead| + |title| + 1;
    assert s == lead + (title + " ") + IdOpen + id + ")";
    assert LiteralAt(s, p, IdOpen) by {
      assert s[p..p + 5] == IdOpen;
    }
    assert AllIn(s, p + 5, p + 5 + |id|, IsIdChar) by {
      forall j | p + 5 <= j < p + 5 + |id| ensures IsIdChar(s[j]) {
        assert s[j] == id[j - p - 5];
      }
    }
    assert s[p + 5 + |id|] == ')';
    SpanUnique(s, p + 5, IsIdChar, p + 5 + |id|);
    assert s[p + 5..p + 5 + |id|] == id;
    assert IdMatchAt(s, p) == Some(id);
    forall i | 0 <= i < p
      ensures IdMatchAt(s, i).None?
    {
      NoIdOpenBefore(title, id, i);
    }
    ExtractRfpIdAt(s, p);
  }

  /** No "(ID: " starts before the one `sendRFP` wrote. */
  lemma NoIdOpenBefore(title: string, id: string, i: nat)
    requires !Occurs(title + " ", IdOpen)
    requires i < |"Re: " + SubjectLead| + |title| + 1
    ensures !LiteralAt(ReplySubject(title, id), i, IdOpen)
  {
    var lead := "Re: " + SubjectLead;
    var t := title + " ";
    var s := ReplySubject(title, id);
    assert s == lead + t + IdOpen + id + ")";
    if i < |lead| {
      ReplyLeadHasNoParen();
      assert s[i] == lead[i] != '(';
      LiteralAtChar(s, i, IdOpen, 0);
    } else if i + 5 <= |lead| + |t| {
      var q := i - |lead|;
      assert LiteralAt(s, i, IdOpen) ==> LiteralAt(t, q, IdOpen) by {
        assert q + 5 <= |t| ==> t[q..q + 5] == s[i..i + 5];
      }
    } else {
      // The template puts a space right before "(ID: ", so an occurrence
      // overlapping it would need a space where "(ID:" has none.
      var d := |lead| + |t| - 1 - i;
      assert s[i + d] == ' ';
      assert IdOpen[d] != ' ';
      LiteralAtChar(s, i, IdOpen, d);
    }
  }

  /** A literal found at `i` fixes each character from `i` on. */
  lemma LiteralAtChar(s: string, i: nat, pat: string, d: nat)
    requires d < |pat|
    ensures LiteralAt(s, i, pat) ==> s[i + d] == pat[d]
  {
    if LiteralAt(s, i, pat) {
      assert s[i..i + |pat|][d] == s[i + d];
    }
  }

  /** The id is the capture at the first start where the pattern matches. */
  lemma ExtractRfpIdAt(s: string, p: nat)
    requires p < |s| && IdMatchAt(s, p).Some?
    requires forall i | 0 <= i < p :: IdMatchAt(s, i).None?
    ensures ExtractRfpId(s) == IdMatchAt(s, p)
  {
    IdStartsAgree(s);
    FirstWhereIs(0, |s|, IdStarts(s), p);
  }

  /** The round trip needs its second condition: a title ending in "(ID:"
      makes the template's space complete an earlier "(ID: ", and the id read
      back then starts with the template's own "(ID: ". */
  lemma RfpIdRoundTripBreaksOnTitle()
    ensures ExtractRfpId(ReplySubject("Q(ID:", "abc")) == Some("(ID: abc")
  {
    BrokenRoundTripAt22();
    BrokenRoundTripSlice();
  }

  lemma BrokenRoundTripAt22()
    ensures ExtractRfpId(ReplySubject("Q(ID:", "abc")) == Some(ReplySubject("Q(ID:", "abc")[27..35])
  {
    var s := ReplySubject("Q(ID:", "abc");
    BrokenRoundTripText();
    forall i | 0 <= i < 22 ensures IdMatchAt(s, i).None? {
      assert s[i] != '(';
      LiteralAtChar(s, i, IdOpen, 0);
    }
    assert LiteralAt(s, 22, IdOpen) by {
      assert s[22..27] == IdOpen;
    }
    SpanUnique(s, 27, IsIdChar, 35);
    ExtractRfpIdAt(s, 22);
  }

  lemma BrokenRoundTripText()
    ensures ReplySubject("Q(ID:", "abc") == "Re: RFP Requirement: Q(ID: (ID: abc)"
  {
  }

  lemma BrokenRoundTripSlice()
    ensures ReplySubject("Q(ID:", "abc")[27..35] == "(ID: abc"
  {
    BrokenRoundTripText();
  }

  // ---------------------------------------------------------------------
  // The sender: /<([^>]+)>/ and from.split('<')[0].trim()
  // ---------------------------------------------------------------------

  predicate IsNotClose(c: char) {
    c != '>'
  }

  /** The capture when `<([^>]+)>` is tried at `i`: the greedy run of
      characters other than `>` must be non-empty and be followed by `>`. */
  function AngleMatchAt(s: string, i: nat): (r: Option<string>)
    requires i <= |s|
  {
    if i < |s| && s[i] == '<' then
      var k := Span(s, i + 1, IsNotClose);
      if i + 1 < k < |s| then Some(s[i + 1..k]) else None
    else None
  }

  /** The pattern matches when tried at `i`. */
  predicate AngleStartsAt(s: string, i: nat) {
    i <= |s| && AngleMatchAt(s, i).Some?
  }

  function AngleStarts(s: string): nat -> bool {
    (i: nat) => AngleStartsAt(s, i)
  }

  lemma AngleStartsAgree(s: string)
    ensures forall i: nat :: AngleStarts(s)(i) == AngleStartsAt(s, i)
  {
  }

  /** `items ? items[1] : from`: the address between the first matching
      pair of angle brackets, else the whole header. An address found in
      brackets is non-empty and holds no `>`. */
  function SenderEmail(from: string): (email: string)
    ensures email != from ==> |email| > 0 && '>' !in email
  {
    AngleStartsAgree(from);
    match FirstWhere(0, |from|, AngleStarts(from))
    case None => from
    case Some(i) =>
      var e := AngleMatchAt(from, i).value;
      assert forall k | 0 <= k < |e| :: e[k] != '>';
      e
  }

  /** `from.split('<')[0].trim()`: the text before the first `<`, trimmed. */
  function SenderName(from: string): (name: string)
    ensures '<' !in name
  {
    var head := Split(from, '<')[0];
    var name := Trim(head);
    TrimIsInfix(head);
    name
  }

  /** A trimmed text is a piece of the original, so it holds no character
      the original lacks. */
  lemma TrimIsInfix(s: string)
    ensures multiset(Trim(s)) <= multiset(s)
  {
    var r := Trim(s);
    var a := TrimOffset(s);
    assert s == s[..a] + r + s[a + |r|..];
    assert multiset(s) == multiset(s[..a]) + multiset(r) + multiset(s[a + |r|..]);
  }

  /** The language of `<([^>]+)>`: a `<` at `i`, a `>` at `k`, and at least
      one character other than `>` in between (line terminators and `<`
      included). */
  ghost predicate IsAngleMatch(s: string, i: nat, k: nat) {
    && i + 1 < k < |s|
    && s[i] == '<' && s[k] == '>'
    && forall j | i + 1 <= j < k :: s[j] != '>'
  }

  /** The match `[i, k]` is the leftmost match of the angle pattern, and the
      only one starting at `i`. */
  ghost predicate IsLeftmostAngle(s: string, i: nat, k: nat) {
    && IsAngleMatch(s, i, k)
    && (forall i': nat, k': nat | i' < i && k' < |s| :: !IsAngleMatch(s, i', k'))
    && (forall k': nat | k' < |s| && k' != k :: !IsAngleMatch(s, i, k'))
  }

  /** At a start where the pattern matches, AngleMatchAt finds that match,
      which ends at the first `>`. */
  lemma AngleMatchAtIsUnique(s: string, i: nat, k: nat)
    requires IsAngleMatch(s, i, k)
    ensures Span(s, i + 1, IsNotClose) == k && AngleMatchAt(s, i) == Some(s[i + 1..k])
  {
    SpanUnique(s, i + 1, IsNotClose, k);
  }

  /** What `from.match(/<([^>]+)>/)` gives, in terms of the pattern's
      language: the whole header comes back exactly when no substring
      matches, and otherwise the address is the content of the leftmost
      match. */
  lemma SenderEmailIsLeftmost(s: string)
    ensures SenderEmail(s) == s <==> forall i: nat, k: nat | k < |s| :: !IsAngleMatch(s, i, k)
    ensures SenderEmail(s) != s ==>
              exists i: nat, k: nat :: IsLeftmostAngle(s, i, k) && SenderEmail(s) == s[i + 1..k]
  {
    forall i: nat, k: nat | k < |s| && IsAngleMatch(s, i, k)
      ensures i < |s| && AngleStartsAt(s, i)
    {
      AngleMatchAtIsUnique(s, i, k);
    }
    AngleStartsAgree(s);
    match FirstWhere(0, |s|, AngleStarts(s))
    case None =>
    case Some(i) =>
      var k := Span(s, i + 1, IsNotClose);
      assert IsAngleMatch(s, i, k);
      forall k': nat | k' < |s| && k' != k
        ensures !IsAngleMatch(s, i, k')
      {
        if IsAngleMatch(s, i, k') {
          AngleMatchAtIsUnique(s, i, k');
        }
      }
      assert forall i': nat | i' < i :: !AngleStartsAt(s, i');
      assert IsLeftmostAngle(s, i, k);
      assert |s[i + 1..k]| < |s|;
  }

  /** A header without a `>` is taken whole as the address, whatever `<` it
      holds. */
  lemma ParseUnclosedSender(from: string)
    requires '>' !in from
    ensures SenderEmail(from) == from
  {
    forall i: nat, k: nat | k < |from|
      ensures !IsAngleMatch(from, i, k)
    {
      assert from[k] != '>';
    }
    SenderEmailIsLeftmost(from);
  }

  /** The name is the trimmed text before the first `<`, or the trimmed
      header when it has none: `j` is where that first `<` is. */
  lemma SenderNameIsTrimmedHead(from: string, j: nat)
    requires j <= |from| && '<' !in from[..j]
    requires j == |from| || from[j] == '<'
    ensures SenderName(from) == Trim(from[..j])
  {
    var head := Split(from, '<')[0];
    assert head == from[..j];
  }

  /** A From header `a<email>b` gives back the address and the trimmed text
      before the bracket, for any `a` without `<`, any non-empty address
      without `>` and any text `b` after it. */
  lemma ParseSender(a: string, email: string, b: string)
    requires '<' !in a && '>' !in email && |email| > 0
    ensures SenderEmail(a + "<" + email + ">" + b) == email
    ensures SenderName(a + "<" + email + ">" + b) == Trim(a)
  {
    ParseSenderEmail(a, email, b);
    ParseSenderName(a, email, b);
  }

  lemma ParseSenderEmail(a: string, email: string, b: string)
    requires '<' !in a && '>' !in email && |email| > 0
    ensures SenderEmail(a + "<" + email + ">" + b) == email
  {
    var from := a + "<" + email + ">" + b;
    var i := |a|;
    assert from[i] == '<';
    forall j | 0 <= j < i ensures AngleMatchAt(from, j).None? {
      assert from[j] == a[j];
    }
    assert AllIn(from, i + 1, i + 1 + |email|, IsNotClose) by {
      forall j | i + 1 <= j < i + 1 + |email| ensures IsNotClose(from[j]) {
        assert from[j] == email[j - i - 1];
      }
    }
    assert from[i + 1 + |email|] == '>';
    SpanUnique(from, i + 1, IsNotClose, i + 1 + |email|);
    assert from[i + 1..i + 1 + |email|] == email;
    SenderEmailAt(from, i);
  }

  lemma ParseSenderName(a: string, email: string, b: string)
    requires '<' !in a
    ensures SenderName(a + "<" + email + ">" + b) == Trim(a)
  {
    var from := a + "<" + email + ">" + b;
    assert from[..|a|] == a && from[|a|] == '<';
    SenderNameIsTrimmedHead(from, |a|);
  }

  /** A header without `<` is taken whole as the address, and trimmed as the
      name. */
  lemma ParseBareSender(from: string)
    requires '<' !in from
    ensures SenderEmail(from) == from
    ensures SenderName(from) == Trim(from)
  {
    forall i: nat, k: nat | k < |from|
      ensures !IsAngleMatch(from, i, k)
    {
      if i < |from| {
        assert from[i] != '<';
      }
    }
    SenderEmailIsLeftmost(from);
    assert from[..|from|] == from;
    SenderNameIsTrimmedHead(from, |from|);
  }

  /** The address is the capture at the first start where the pattern
      matches. */
  lemma SenderEmailAt(s: string, p: nat)
    requires p < |s| && AngleMatchAt(s, p).Some?
    requires forall i | 0 <= i < p :: AngleMatchAt(s, i).None?
    ensures SenderEmail(s) == AngleMatchAt(s, p).value
  {
    AngleStartsAgree(s);
    FirstWhereIs(0, |s|, AngleStarts(s), p);
  }

  /** The example header of a vendor reply. */
  lemma SenderExample()
    ensures SenderEmail("Jane Doe <jane@acme.com>") == "jane@acme.com"
    ensures SenderName("Jane Doe <jane@acme.com>") == "Jane Doe"
  {
    SenderExampleText();
    ParseSender("Jane Doe ", "jane@acme.com", "");
    SenderExampleName();
  }

  lemma SenderExampleText()
    ensures "Jane Doe " + "<" + "jane@acme.com" + ">" + "" == "Jane Doe <jane@acme.com>"
  {
  }

  lemma SenderExampleName()
    ensures Trim("Jane Doe ") == "Jane Doe"
  {
    SenderExampleNameTrimmed();
    SenderExampleNameUnchanged();
  }

  lemma SenderExampleNameTrimmed()
    ensures Trim("Jane Doe ") == Trim("Jane Doe")
  {
    var name := "Jane Doe";
    assert "Jane Doe " == name + [' '];
    TrimAppendWhitespace(name, ' ');
  }

  lemma SenderExampleNameUnchanged()
    ensures Trim("Jane Doe") == "Jane Doe"
  {
    TrimTrimmed("Jane Doe");
  }

  /** A header that is only a bracketed address gives that address and an
      empty name. */
  lemma SenderWithoutNameExample()
    ensures SenderEmail("<jane@acme.com>") == "jane@acme.com"
    ensures SenderName("<jane@acme.com>") == ""
  {
    assert "" + "<" + "jane@acme.com" + ">" + "" == "<jane@acme.com>";
    ParseSender("", "jane@acme.com", "");
    TrimTrimmed("");
  }

  /** A header whose bracket is never closed is its own address. */
  lemma UnclosedSenderExample()
    ensures SenderEmail("Jane <jane") == "Jane <jane"
  {
    ParseUnclosedSender("Jane <jane");
  }
}
