/** The message `sendRFP` of backend/services/emailService.js composes for a
    vendor: its subject, which carries the request's id for the replies to be
    correlated by, and its plain-text body. Delivery itself is not modelled. */
module RfpMail {
  import opened JsStrings
  import opened Models

  const SubjectLead: string := "RFP Requirement: "

  /** The subject of the outgoing message, `RFP Requirement: <title> (ID: <id>)`. */
  function RfpSubject(title: string, id: string): string {
    SubjectLead + title + " (ID: " + id + ")"
  }

  /** How a template literal shows a string field: a string as itself, a
      missing field as "undefined" and `null` as "null". */
  function Show(field: StrField): (r: string)
    ensures field.Str? ==> r == field.s
    ensures field.Undefined? ==> r == "undefined"
    ensures field.Null? ==> r == "null"
  {
    match field
    case Str(s) => s
    case Undefined => "undefined"
    case Null => "null"
  }

  /** The line `- <name>: <quantity>` of one item. */
  function ItemLine(item: RfpItem): string {
    "- " + Show(item.name) + ": " + Show(item.quantity)
  }

  /** The item lines, in the order of the items. */
  function ItemLines(items: seq<RfpItem>): (lines: seq<string>)
    ensures |lines| == |items|
    ensures forall k | 0 <= k < |items| :: lines[k] == ItemLine(items[k])
  {
    if |items| == 0 then [] else [ItemLine(items[0])] + ItemLines(items[1..])
  }

  /** The third line of the body, written in three pieces. */
  const Intro: string :=
    "We have a new procurement requirement. " + "Please verify the details below and " + "reply to this email with your proposal."

  /** The reminder line of the body, written in three pieces. */
  const Reminder: string :=
    "IMPORTANT: Please reply to this email. " + "Your subject line MUST contain " + "\"Re: RFP Requirement\"."

  /** The lines of the body before the items. */
  const BodyHead: seq<string> := ["Dear Vendor,", "", Intro, "", "Items:"]

  /** The lines of the body after the items. */
  function BodyTail(data: RfpStructuredData): seq<string> {
    [ "",
      "Budget: " + Show(data.budget),
      "Timeline: " + Show(data.timeline),
      "",
      Reminder,
      "",
      "Regards,",
      "Procurement Team" ]
  }

  /** The body of the outgoing message. The joined item lines take the place
      of one line of the template, so a request without items leaves an empty
      line there. */
  function RfpBody(rfp: Rfp): string {
    JoinLines(BodyHead + [JoinLines(ItemLines(rfp.structuredData.items))] + BodyTail(rfp.structuredData))
  }

  /** Joining two non-empty lists of lines is joining each and putting a
      newline between. */
  lemma {:induction false} JoinLinesAppend(a: seq<string>, b: seq<string>)
    requires |a| >= 1 && |b| >= 1
    ensures JoinLines(a + b) == JoinLines(a) + "\n" + JoinLines(b)
    decreases |a|
  {
    if |a| == 1 {
      assert (a + b)[1..] == b;
    } else {
      JoinLinesAppend(a[1..], b);
      assert (a + b)[1..] == a[1..] + b;
    }
  }

  /** A line that is itself a join of several lines can be spliced into its
      place. */
  lemma JoinLinesFlatten(a: seq<string>, b: seq<string>, c: seq<string>)
    requires |a| >= 1 && |b| >= 1 && |c| >= 1
    ensures JoinLines(a + [JoinLines(b)] + c) == JoinLines(a + b + c)
  {
    var x := JoinLines(b);
    calc {
      JoinLines(a + [x] + c);
      { JoinRegroup(a, [x], c); }
      JoinLines(a + ([x] + c));
      { JoinAroundLine(a, x, c); }
      JoinLines(a) + "\n" + (x + "\n" + JoinLines(c));
      { JoinAroundLines(a, b, c); }
      JoinLines(a + (b + c));
      { JoinRegroup(a, b, c); }
      JoinLines(a + b + c);
    }
  }

  lemma JoinRegroup(a: seq<string>, b: seq<string>, c: seq<string>)
    ensures JoinLines(a + b + c) == JoinLines(a + (b + c))
  {
    assert a + b + c == a + (b + c);
  }

  lemma JoinAroundLine(a: seq<string>, x: string, c: seq<string>)
    requires |a| >= 1 && |c| >= 1
    ensures JoinLines(a + ([x] + c)) == JoinLines(a) + "\n" + (x + "\n" + JoinLines(c))
  {
    JoinLinesAppend(a, [x] + c);
    JoinLinesAppend([x], c);
  }

  lemma JoinAroundLines(a: seq<string>, b: seq<string>, c: seq<string>)
    requires |a| >= 1 && |b| >= 1 && |c| >= 1
    ensures JoinLines(a + (b + c)) == JoinLines(a) + "\n" + (JoinLines(b) + "\n" + JoinLines(c))
  {
    JoinLinesAppend(a, b + c);
    JoinLinesAppend(b, c);
  }

  /** A concatenation holds a newline only if one of its parts does. */
  lemma NoNewlineInConcat(x: string, y: string)
    requires '\n' !in x && '\n' !in y
    ensures '\n' !in x + y
  {
  }

  /* The fixed pieces of the template hold no newline; one lemma per piece,
     since each membership test on a literal is checked character by
     character. */
  lemma IntroPart1() ensures '\n' !in "We have a new procurement requirement. " { }
  lemma IntroPart2() ensures '\n' !in "Please verify the details below and " { }
  lemma IntroPart3() ensures '\n' !in "reply to this email with your proposal." { }
  lemma GreetingSingleLine() ensures '\n' !in "Dear Vendor," { }
  lemma ItemsTitleSingleLine() ensures '\n' !in "Items:" { }
  lemma ReminderPart1() ensures '\n' !in "IMPORTANT: Please reply to this email. " { }
  lemma ReminderPart2() ensures '\n' !in "Your subject line MUST contain " { }
  lemma ReminderPart3() ensures '\n' !in "\"Re: RFP Requirement\"." { }
  lemma ClosingSingleLine() ensures '\n' !in "Regards," { }
  lemma SignatureSingleLine() ensures '\n' !in "Procurement Team" { }
  lemma BudgetLabelSingleLine() ensures '\n' !in "Budget: " { }
  lemma TimelineLabelSingleLine() ensures '\n' !in "Timeline: " { }

  lemma HeadSingleLine()
    ensures forall k | 0 <= k < |BodyHead| :: '\n' !in BodyHead[k]
  {
    IntroPart1();
    IntroPart2();
    IntroPart3();
    GreetingSingleLine();
    ItemsTitleSingleLine();
    NoNewlineInConcat("We have a new procurement requirement. ", "Please verify the details below and ");
    NoNewlineInConcat("We have a new procurement requirement. " + "Please verify the details below and ", "reply to this email with your proposal.");
  }

  lemma TailSingleLine(data: RfpStructuredData)
    requires '\n' !in Show(data.budget) && '\n' !in Show(data.timeline)
    ensures forall k | 0 <= k < |BodyTail(data)| :: '\n' !in BodyTail(data)[k]
  {
    BudgetLabelSingleLine();
    TimelineLabelSingleLine();
    ReminderPart1();
    ReminderPart2();
    ReminderPart3();
    ClosingSingleLine();
    SignatureSingleLine();
    NoNewlineInConcat("Budget: ", Show(data.budget));
    NoNewlineInConcat("Timeline: ", Show(data.timeline));
    NoNewlineInConcat("IMPORTANT: Please reply to this email. ", "Your subject line MUST contain ");
    NoNewlineInConcat("IMPORTANT: Please reply to this email. " + "Your subject line MUST contain ", "\"Re: RFP Requirement\".");
  }

  lemma ItemLineSingleLine(item: RfpItem)
    requires '\n' !in Show(item.name) && '\n' !in Show(item.quantity)
    ensures '\n' !in ItemLine(item)
  {
    NoNewlineInConcat("- ", Show(item.name));
    NoNewlineInConcat("- " + Show(item.name), ": ");
    NoNewlineInConcat("- " + Show(item.name) + ": ", Show(item.quantity));
  }

  /** A request without items leaves one empty line where the items go:
      split into lines, the body is the head lines, that empty line and the
      tail lines. */
  lemma BodyWithoutItems(rfp: Rfp)
    requires |rfp.structuredData.items| == 0 && SingleLineFields(rfp.structuredData)
    ensures Split(RfpBody(rfp), '\n') == BodyHead + [""] + BodyTail(rfp.structuredData)
  {
    var data := rfp.structuredData;
    var all := BodyHead + [""] + BodyTail(data);
    assert ItemLines(data.items) == [];
    assert RfpBody(rfp) == JoinLines(all);
    HeadSingleLine();
    TailSingleLine(data);
    forall k | 0 <= k < |all| ensures '\n' !in all[k] {
      if k < 5 {
        assert all[k] == BodyHead[k];
      } else if k > 5 {
        assert all[k] == BodyTail(data)[k - 6];
      }
    }
    SplitJoinLines(all);
  }

  /** No field shown in the body holds a newline. */
  predicate SingleLineFields(data: RfpStructuredData) {
    && (forall k | 0 <= k < |data.items| :: '\n' !in Show(data.items[k].name) && '\n' !in Show(data.items[k].quantity))
    && '\n' !in Show(data.budget)
    && '\n' !in Show(data.timeline)
  }

  /** The body, split into lines, is the five head lines, one line per item
      in the order of the items, and the tail lines with the budget and the
      timeline; so a vendor reading it finds the items as the request lists
      them. */
  lemma BodyListsItemsInOrder(rfp: Rfp)
    requires |rfp.structuredData.items| >= 1 && SingleLineFields(rfp.structuredData)
    ensures var lines := Split(RfpBody(rfp), '\n');
            var n := |rfp.structuredData.items|;
            && |lines| == |BodyHead| + n + 8
            && lines[..5] == BodyHead
            && (forall k | 0 <= k < n :: lines[5 + k] == ItemLine(rfp.structuredData.items[k]))
            && lines[5 + n + 1] == "Budget: " + Show(rfp.structuredData.budget)
            && lines[5 + n + 2] == "Timeline: " + Show(rfp.structuredData.timeline)
  {
    var data := rfp.structuredData;
    var items := ItemLines(data.items);
    var all := BodyHead + items + BodyTail(data);
    JoinLinesFlatten(BodyHead, items, BodyTail(data));
    HeadSingleLine();
    TailSingleLine(data);
    forall k | 0 <= k < |all| ensures '\n' !in all[k] {
      if k < 5 {
        assert all[k] == BodyHead[k];
      } else if k < 5 + |items| {
        assert all[k] == ItemLine(data.items[k - 5]);
        ItemLineSingleLine(data.items[k - 5]);
      } else {
        assert all[k] == BodyTail(data)[k - 5 - |items|];
      }
    }
    SplitJoinLines(all);
    assert all[..5] == BodyHead;
  }
}
