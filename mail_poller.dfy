/** `checkEmails` of backend/services/emailService.js: the loop over the
    vendor replies an IMAP search returned, writing vendors and proposals.
    The vendor and proposal collections are tables held by ProcurementStore;
    the IMAP session, the generative model and JSON.parse are parameters. */
module MailPoller {
  import opened Wrappers
  import opened JsStrings
  import opened JsonValue
  import opened Models
  import opened AiService
  import opened ReplyParsing

  /** A fetched message: the first Subject and From values of its HEADER
      part (None when the header has none, so that reading `[0]` of it
      throws) and the body of its TEXT part. */
  datatype Message = Message(subject: Option<string>, from: Option<string>, text: string)

  /** What `connect`, `openBox` and `search` give: the unseen replies whose
      subject contains "Re: RFP Requirement", or a failure of the session,
      which `checkEmails` reports by returning 0. */
  datatype Fetch = Fetched(messages: seq<Message>) | SessionFailed

  /** The two collections `checkEmails` writes. */
  datatype Tables = Tables(vendors: seq<Vendor>, proposals: seq<Proposal>)

  /** The tables after one message, and whether the loop goes on or the
      message threw, which ends `checkEmails` in its `catch` block. */
  datatype Outcome = Continue(tables: Tables) | Threw(tables: Tables)

  /** `Vendor.findOne({ email })`: the first vendor with that address. */
  function FindVendor(vendors: seq<Vendor>, email: string): (r: Option<nat>)
    ensures r.Some? ==> r.value < |vendors| && vendors[r.value].email == email
    ensures r.Some? ==> forall k | 0 <= k < r.value :: vendors[k].email != email
    ensures r.None? ==> forall k | 0 <= k < |vendors| :: vendors[k].email != email
  {
    if |vendors| == 0 then None
    else if vendors[0].email == email then Some(0)
    else match FindVendor(vendors[1..], email)
      case None => None
      case Some(k) => Some(k + 1)
  }

  /** The vendor table after the lookup of the sender of `from`, and the id
      of the vendor: the existing one with the sender's address, or a new one
      named after the header's text before `<`. */
  function FindOrCreateVendor(vendors: seq<Vendor>, from: string): (r: (seq<Vendor>, nat))
    ensures r.1 < |r.0| && r.0[r.1].email == SenderEmail(from)
    ensures |vendors| <= |r.0| <= |vendors| + 1 && r.0[..|vendors|] == vendors
    ensures |r.0| == |vendors| + 1 <==> forall k | 0 <= k < |vendors| :: vendors[k].email != SenderEmail(from)
    ensures |r.0| == |vendors| + 1 ==> r.0[r.1] == Vendor(SenderName(from), SenderEmail(from))
  {
    var email := SenderEmail(from);
    match FindVendor(vendors, email)
    case Some(k) => (vendors, k)
    case None => (vendors + [Vendor(SenderName(from), email)], |vendors|)
  }

  /** The record `Proposal.create` stores for a truthy parsed reply: the
      schema keeps four of its fields and the summary goes to `aiSummary`. */
  function NewProposal(rfpId: string, vendorId: nat, text: string, parsed: Json): (p: Proposal)
    requires Truthy(parsed)
    ensures p.rfpId == rfpId && p.vendorId == vendorId && p.rawContent == text
    ensures p.parsedData.pricing == Member(parsed, "pricing")
    ensures p.parsedData.deliveryTime == Member(parsed, "deliveryTime")
    ensures p.parsedData.warranty == Member(parsed, "warranty")
    ensures p.parsedData.paymentTerms == Member(parsed, "paymentTerms")
    ensures p.aiSummary == Member(parsed, "summary")
  {
    Proposal(
      rfpId, vendorId, text,
      ProposalData(Member(parsed, "pricing"), Member(parsed, "deliveryTime"),
                   Member(parsed, "warranty"), Member(parsed, "paymentTerms")),
      Member(parsed, "summary"))
  }

  /** The body of the loop for one message, on values.
      - No Subject: reading it throws.
      - No "(ID: ...)" in the subject: `continue`, nothing written.
      - No From: reading it throws.
      - Otherwise the vendor is found or created, and the reply parsed; a
        truthy result is stored as a proposal, unless the id is not an
        ObjectId or one of the five `String` fields does not cast, in which
        case `Proposal.create` throws. */
  function Step(t: Tables, m: Message, ask: string -> CallResult, parse: string -> Option<Json>,
                isObjectId: string -> bool): Outcome
  {
    match m.subject
    case None => Threw(t)
    case Some(subject) =>
      match ExtractRfpId(subject)
      case None => Continue(t)
      case Some(rfpId) =>
        match m.from
        case None => Threw(t)
        case Some(from) =>
          var (vendors, vendorId) := FindOrCreateVendor(t.vendors, from);
          var parsed := ParseProposal(ask(m.text), parse);
          if !Truthy(parsed) then Continue(Tables(vendors, t.proposals))
          else if !isObjectId(rfpId) || !Storable(parsed) then Threw(Tables(vendors, t.proposals))
          else Continue(Tables(vendors, t.proposals + [NewProposal(rfpId, vendorId, m.text, parsed)]))
  }

  /** The loop over a batch, on values: message after message, stopping at
      the first that throws. */
  function Run(t: Tables, ms: seq<Message>, ask: string -> CallResult, parse: string -> Option<Json>,
               isObjectId: string -> bool): Outcome
    decreases |ms|
  {
    if |ms| == 0 then Continue(t)
    else match Run(t, ms[..|ms| - 1], ask, parse, isObjectId)
      case Threw(u) => Threw(u)
      case Continue(u) => Step(u, ms[|ms| - 1], ask, parse, isObjectId)
  }

  /** What `checkEmails` returns for a fetch, given how its loop ended. */
  function Count(fetch: Fetch, o: Outcome): nat
    requires fetch.Fetched?
  {
    if o.Threw? then 0 else |fetch.messages|
  }

  /** The vendor and proposal collections, as `checkEmails` updates them. */
  class ProcurementStore {
    var vendors: seq<Vendor>
    var proposals: seq<Proposal>

    constructor (vendors: seq<Vendor>, proposals: seq<Proposal>)
      ensures this.vendors == vendors && this.proposals == proposals
    {
      this.vendors := vendors;
      this.proposals := proposals;
    }

    function Contents(): Tables
      reads this
    {
      Tables(vendors, proposals)
    }

    /** `checkEmails()`. A failed session changes nothing and gives 0. For a
        fetched batch the tables become what Run computes, and the result is
        the number of fetched messages, or 0 when a message threw; rows a
        throwing message's predecessors wrote stay written. */
    method CheckEmails(fetch: Fetch, ask: string -> CallResult, parse: string -> Option<Json>,
                       isObjectId: string -> bool) returns (count: nat)
      modifies this
      ensures fetch.SessionFailed? ==> count == 0 && Contents() == old(Contents())
      ensures fetch.Fetched? ==>
                var o := Run(old(Contents()), fetch.messages, ask, parse, isObjectId);
                Contents() == o.tables && count == Count(fetch, o)
    {
      if fetch.SessionFailed? {
        return 0;
      }
      var messages := fetch.messages;
      ghost var start := Contents();
      var i := 0;
      while i < |messages|
        invariant 0 <= i <= |messages|
        invariant Run(start, messages[..i], ask, parse, isObjectId) == Continue(Contents())
      {
        RunExtend(start, messages, i, ask, parse, isObjectId);
        var threw := ReceiveReply(messages[i], ask, parse, isObjectId);
        if threw {
          ThrewSticks(start, messages, i + 1, ask, parse, isObjectId);
          return 0;
        }
        i := i + 1;
      }
      assert messages[..i] == messages;
      return |messages|;
    }

    /** One pass of the loop body of `checkEmails` for `message`; `threw`
        says that the pass threw, which ends the loop. */
    method ReceiveReply(message: Message, ask: string -> CallResult, parse: string -> Option<Json>,
                        isObjectId: string -> bool) returns (threw: bool)
      modifies this
      ensures Step(old(Contents()), message, ask, parse, isObjectId)
              == (if threw then Threw(Contents()) else Continue(Contents()))
    {
      if message.subject.None? {
        return true;
      }
      var rfpIdMatch := ExtractRfpId(message.subject.value);
      if rfpIdMatch.None? {
        return false;
      }
      var rfpId := rfpIdMatch.value;
      if message.from.None? {
        return true;
      }
      var from := message.from.value;
      var email := SenderEmail(from);
      var vendorId: nat;
      var found := FindVendor(vendors, email);
      if found.Some? {
        vendorId := found.value;
      } else {
        vendors := vendors + [Vendor(SenderName(from), email)];
        vendorId := |vendors| - 1;
      }
      assert (vendors, vendorId) == FindOrCreateVendor(old(vendors), from);
      var parsedData := ParseProposal(ask(message.text), parse);
      if Truthy(parsedData) {
        if !isObjectId(rfpId) || !Storable(parsedData) {
          return true;
        }
        proposals := proposals + [NewProposal(rfpId, vendorId, message.text, parsedData)];
      }
      return false;
    }
  }

  /** One more message of a batch that has not thrown is one more Step. */
  lemma RunExtend(t: Tables, ms: seq<Message>, i: nat, ask: string -> CallResult,
                  parse: string -> Option<Json>, isObjectId: string -> bool)
    requires i < |ms| && Run(t, ms[..i], ask, parse, isObjectId).Continue?
    ensures Run(t, ms[..i + 1], ask, parse, isObjectId)
            == Step(Run(t, ms[..i], ask, parse, isObjectId).tables, ms[i], ask, parse, isObjectId)
  {
    assert ms[..i + 1][..i] == ms[..i];
  }

  /** Once a message has thrown, the rest of the batch is not looked at. */
  lemma {:induction false} ThrewSticks(t: Tables, ms: seq<Message>, n: nat, ask: string -> CallResult,
                                       parse: string -> Option<Json>, isObjectId: string -> bool)
    requires n <= |ms| && Run(t, ms[..n], ask, parse, isObjectId).Threw?
    ensures Run(t, ms, ask, parse, isObjectId) == Run(t, ms[..n], ask, parse, isObjectId)
    decreases |ms| - n
  {
    if n == |ms| {
      assert ms[..n] == ms;
    } else {
      assert ms[..n + 1][..n] == ms[..n];
      ThrewSticks(t, ms, n + 1, ask, parse, isObjectId);
    }
  }

  // ---------------------------------------------------------------------
  // Invariants of the tables
  // ---------------------------------------------------------------------

  /** No two vendors share an address: `findOne({ email })` is only ever
      asked before a vendor with that address is created. */
  predicate UniqueEmails(vendors: seq<Vendor>) {
    forall i, j | 0 <= i < j < |vendors| :: vendors[i].email != vendors[j].email
  }

  /** Every proposal refers to a vendor of the table. */
  predicate Linked(t: Tables) {
    forall k | 0 <= k < |t.proposals| :: t.proposals[k].vendorId < |t.vendors|
  }

  /** `u` is `t` with rows appended to either table and no row changed. */
  predicate Extends(t: Tables, u: Tables) {
    && |t.vendors| <= |u.vendors| && u.vendors[..|t.vendors|] == t.vendors
    && |t.proposals| <= |u.proposals| && u.proposals[..|t.proposals|] == t.proposals
  }

  /** Whether a message leads to a stored proposal: it has a subject with an
      id and a sender, the parsed reply is truthy and the id is an ObjectId. */
  predicate Stores(m: Message, ask: string -> CallResult, parse: string -> Option<Json>,
                   isObjectId: string -> bool) {
    && m.subject.Some? && ExtractRfpId(m.subject.value).Some? && m.from.Some?
    && Truthy(ParseProposal(ask(m.text), parse))
    && isObjectId(ExtractRfpId(m.subject.value).value)
    && Storable(ParseProposal(ask(m.text), parse))
  }

  /** A proposal came from message `m`: its id is the one in the subject, its
      raw content the message's text, and its vendor the one with the
      sender's address. */
  predicate FromMessage(m: Message, p: Proposal, vendors: seq<Vendor>) {
    && m.subject.Some? && ExtractRfpId(m.subject.value) == Some(p.rfpId)
    && m.from.Some? && p.rawContent == m.text
    && p.vendorId < |vendors| && vendors[p.vendorId].email == SenderEmail(m.from.value)
  }

  // ---------------------------------------------------------------------
  // One message
  // ---------------------------------------------------------------------

  /** A message with a subject but no id in it changes nothing. */
  lemma StepUncorrelated(t: Tables, m: Message, ask: string -> CallResult, parse: string -> Option<Json>,
                         isObjectId: string -> bool)
    requires m.subject.Some? && ExtractRfpId(m.subject.value).None?
    ensures Step(t, m, ask, parse, isObjectId) == Continue(t)
  {
  }

  /** A correlated message with a sender registers the sender in the vendor
      table before its reply is parsed, so the vendor stays whether or not a
      proposal is stored and whether or not the message then throws; any
      other message leaves the vendor table as it was. */
  lemma StepRegistersSender(t: Tables, m: Message, ask: string -> CallResult, parse: string -> Option<Json>,
                            isObjectId: string -> bool)
    ensures var u := Step(t, m, ask, parse, isObjectId).tables.vendors;
            if m.subject.Some? && ExtractRfpId(m.subject.value).Some? && m.from.Some? then
              u == FindOrCreateVendor(t.vendors, m.from.value).0
              && exists k | 0 <= k < |u| :: u[k].email == SenderEmail(m.from.value)
            else u == t.vendors
  {
    if m.subject.Some? && ExtractRfpId(m.subject.value).Some? && m.from.Some? {
      var r := FindOrCreateVendor(t.vendors, m.from.value);
      assert r.0[r.1].email == SenderEmail(m.from.value);
    }
  }

  /** A message throws exactly when it has no subject, or has an id but no
      sender, or its reply is truthy and either the id is not an ObjectId or
      a field of the reply does not cast to `String`. */
  lemma StepThrowsIff(t: Tables, m: Message, ask: string -> CallResult, parse: string -> Option<Json>,
                      isObjectId: string -> bool)
    ensures Step(t, m, ask, parse, isObjectId).Threw? <==>
              || m.subject.None?
              || (ExtractRfpId(m.subject.value).Some? && m.from.None?)
              || (ExtractRfpId(m.subject.value).Some? && m.from.Some?
                  && Truthy(ParseProposal(ask(m.text), parse))
                  && (!isObjectId(ExtractRfpId(m.subject.value).value)
                      || !Storable(ParseProposal(ask(m.text), parse))))
  {
  }

  /** A correlated reply whose parsed answer has a field that does not cast
      to `String`, such as a nested price object, throws: no proposal is
      stored, the sender's vendor stays, and the loop ends. */
  lemma StepRejectsUncastable(t: Tables, subject: string, from: string, text: string,
                              ask: string -> CallResult, parse: string -> Option<Json>,
                              isObjectId: string -> bool)
    requires ExtractRfpId(subject).Some?
    requires Truthy(ParseProposal(ask(text), parse)) && !Storable(ParseProposal(ask(text), parse))
    ensures var o := Step(t, Message(Some(subject), Some(from), text), ask, parse, isObjectId);
            && o.Threw?
            && o.tables.proposals == t.proposals
            && o.tables.vendors == FindOrCreateVendor(t.vendors, from).0
  {
  }

  /** The fallback record of `parseProposal` always casts, so a reply the
      model could not parse is stored whenever its id is an ObjectId. */
  lemma FallbackStorable()
    ensures Storable(ProposalFallback())
  {
    var f := ProposalFallback();
    assert Member(f, "pricing").value.JStr? && Member(f, "deliveryTime").value.JStr?;
    assert Member(f, "warranty").value.JStr? && Member(f, "paymentTerms").value.JStr?;
    assert Member(f, "summary").value.JStr?;
  }

  /** A message only appends rows, at most one vendor and one proposal. */
  lemma StepGrows(t: Tables, m: Message, ask: string -> CallResult, parse: string -> Option<Json>,
                  isObjectId: string -> bool)
    ensures var u := Step(t, m, ask, parse, isObjectId).tables;
            && Extends(t, u)
            && |u.vendors| <= |t.vendors| + 1
            && |u.proposals| <= |t.proposals| + 1
  {
  }

  /** A proposal is appended exactly when the message Stores, and it is the
      record of the message's id, sender's vendor, text and parsed reply. */
  lemma StepAppendsIff(t: Tables, m: Message, ask: string -> CallResult, parse: string -> Option<Json>,
                       isObjectId: string -> bool)
    ensures var u := Step(t, m, ask, parse, isObjectId).tables;
            |u.proposals| == |t.proposals| + 1 <==> Stores(m, ask, parse, isObjectId)
    ensures Stores(m, ask, parse, isObjectId) ==>
              var u := Step(t, m, ask, parse, isObjectId).tables;
              var parsed := ParseProposal(ask(m.text), parse);
              && u.proposals[|t.proposals|]
                 == NewProposal(ExtractRfpId(m.subject.value).value,
                                FindOrCreateVendor(t.vendors, m.from.value).1, m.text, parsed)
              && FromMessage(m, u.proposals[|t.proposals|], u.vendors)
  {
  }

  /** A message keeps vendor addresses unique and proposals linked. */
  lemma StepKeepsInvariants(t: Tables, m: Message, ask: string -> CallResult, parse: string -> Option<Json>,
                            isObjectId: string -> bool)
    requires UniqueEmails(t.vendors) && Linked(t)
    ensures var u := Step(t, m, ask, parse, isObjectId).tables;
            UniqueEmails(u.vendors) && Linked(u)
  {
    StepGrows(t, m, ask, parse, isObjectId);
    StepAppendsIff(t, m, ask, parse, isObjectId);
    var u := Step(t, m, ask, parse, isObjectId).tables;
    if m.subject.Some? && ExtractRfpId(m.subject.value).Some? && m.from.Some? {
      FindOrCreateKeepsUnique(t.vendors, m.from.value);
      assert u.vendors == FindOrCreateVendor(t.vendors, m.from.value).0;
    }
    LinkedAfterAppend(t, u);
  }

  /** Finding or creating a vendor keeps addresses unique. */
  lemma FindOrCreateKeepsUnique(vendors: seq<Vendor>, from: string)
    requires UniqueEmails(vendors)
    ensures UniqueEmails(FindOrCreateVendor(vendors, from).0)
  {
    var vs := FindOrCreateVendor(vendors, from).0;
    forall i, j | 0 <= i < j < |vs| ensures vs[i].email != vs[j].email {
      if j < |vendors| {
        assert vs[i] == vendors[i] && vs[j] == vendors[j];
      } else {
        assert vs[i] == vendors[i];
      }
    }
  }

  /** Appending vendors keeps old proposals linked, and a linked new proposal
      keeps the tables linked. */
  lemma LinkedAfterAppend(t: Tables, u: Tables)
    requires Linked(t) && Extends(t, u) && |u.proposals| <= |t.proposals| + 1
    requires |u.proposals| == |t.proposals| + 1 ==> u.proposals[|t.proposals|].vendorId < |u.vendors|
    ensures Linked(u)
  {
    forall k | 0 <= k < |u.proposals| ensures u.proposals[k].vendorId < |u.vendors| {
      if k < |t.proposals| {
        assert u.proposals[k] == t.proposals[k];
      }
    }
  }

  /** Finding or creating the same sender twice gives the same table and
      vendor as doing it once. */
  lemma FindOrCreateIdempotent(vendors: seq<Vendor>, from: string)
    ensures var (vs, id) := FindOrCreateVendor(vendors, from);
            FindOrCreateVendor(vs, from) == (vs, id)
  {
    var (vs, id) := FindOrCreateVendor(vendors, from);
    var email := SenderEmail(from);
    if |vs| == |vendors| + 1 {
      var k := FindVendor(vs, email);
      assert vs[|vendors|].email == email;
    }
  }

  // ---------------------------------------------------------------------
  // A batch
  // ---------------------------------------------------------------------

  /** The tables only grow, also when a message throws, by at most one
      proposal per message. */
  lemma {:induction false} RunGrows(t: Tables, ms: seq<Message>, ask: string -> CallResult,
                                    parse: string -> Option<Json>, isObjectId: string -> bool)
    ensures var u := Run(t, ms, ask, parse, isObjectId).tables;
            Extends(t, u) && |u.proposals| <= |t.proposals| + |ms|
    decreases |ms|
  {
    if |ms| > 0 {
      var init := ms[..|ms| - 1];
      RunGrows(t, init, ask, parse, isObjectId);
      var o := Run(t, init, ask, parse, isObjectId);
      if o.Continue? {
        StepGrows(o.tables, ms[|ms| - 1], ask, parse, isObjectId);
        var u := Run(t, ms, ask, parse, isObjectId).tables;
        assert u.vendors[..|t.vendors|] == u.vendors[..|o.tables.vendors|][..|t.vendors|];
        assert u.proposals[..|t.proposals|] == u.proposals[..|o.tables.proposals|][..|t.proposals|];
      }
    }
  }

  /** A batch keeps vendor addresses unique and proposals linked. */
  lemma {:induction false} RunKeepsInvariants(t: Tables, ms: seq<Message>, ask: string -> CallResult,
                                              parse: string -> Option<Json>, isObjectId: string -> bool)
    requires UniqueEmails(t.vendors) && Linked(t)
    ensures var u := Run(t, ms, ask, parse, isObjectId).tables;
            UniqueEmails(u.vendors) && Linked(u)
    decreases |ms|
  {
    if |ms| > 0 {
      var init := ms[..|ms| - 1];
      RunKeepsInvariants(t, init, ask, parse, isObjectId);
      var o := Run(t, init, ask, parse, isObjectId);
      if o.Continue? {
        StepKeepsInvariants(o.tables, ms[|ms| - 1], ask, parse, isObjectId);
      }
    }
  }

  /** Every proposal a batch adds came from one of its messages. */
  lemma {:induction false} RunProvenance(t: Tables, ms: seq<Message>, ask: string -> CallResult,
                                         parse: string -> Option<Json>, isObjectId: string -> bool)
    ensures var u := Run(t, ms, ask, parse, isObjectId).tables;
            forall k | |t.proposals| <= k < |u.proposals| ::
              exists j | 0 <= j < |ms| :: FromMessage(ms[j], u.proposals[k], u.vendors)
    decreases |ms|
  {
    if |ms| > 0 {
      var init := ms[..|ms| - 1];
      RunProvenance(t, init, ask, parse, isObjectId);
      RunGrows(t, init, ask, parse, isObjectId);
      var o := Run(t, init, ask, parse, isObjectId);
      if o.Continue? {
        var last := ms[|ms| - 1];
        StepGrows(o.tables, last, ask, parse, isObjectId);
        StepAppendsIff(o.tables, last, ask, parse, isObjectId);
        var v := o.tables;
        var u := Run(t, ms, ask, parse, isObjectId).tables;
        forall k | |t.proposals| <= k < |u.proposals|
          ensures exists j | 0 <= j < |ms| :: FromMessage(ms[j], u.proposals[k], u.vendors)
        {
          if k < |v.proposals| {
            assert u.proposals[k] == v.proposals[k];
            var j :| 0 <= j < |init| && FromMessage(init[j], v.proposals[k], v.vendors);
            assert u.vendors[v.proposals[k].vendorId] == v.vendors[v.proposals[k].vendorId];
            assert FromMessage(ms[j], u.proposals[k], u.vendors);
          } else {
            assert FromMessage(ms[|ms| - 1], u.proposals[k], u.vendors);
          }
        }
      }
    }
  }

  /** A message with a subject but no id can be taken out of a batch
      without changing what the batch does. */
  lemma {:induction false} RunSkipsUncorrelated(t: Tables, a: seq<Message>, m: Message, b: seq<Message>,
                                                ask: string -> CallResult, parse: string -> Option<Json>,
                                                isObjectId: string -> bool)
    requires m.subject.Some? && ExtractRfpId(m.subject.value).None?
    ensures Run(t, a + [m] + b, ask, parse, isObjectId) == Run(t, a + b, ask, parse, isObjectId)
    decreases |b|
  {
    if |b| == 0 {
      assert a + [m] + b == a + [m];
      assert a + b == a;
      RunSkipsLast(t, a, m, ask, parse, isObjectId);
    } else {
      var init := b[..|b| - 1];
      var last := b[|b| - 1];
      RunSkipsUncorrelated(t, a, m, init, ask, parse, isObjectId);
      assert b == init + [last];
      RunSnocAgree(t, a + [m], a, init, last, ask, parse, isObjectId);
    }
  }

  /** A message with a subject but no id at the end of a batch does nothing. */
  lemma RunSkipsLast(t: Tables, a: seq<Message>, m: Message, ask: string -> CallResult,
                     parse: string -> Option<Json>, isObjectId: string -> bool)
    requires m.subject.Some? && ExtractRfpId(m.subject.value).None?
    ensures Run(t, a + [m], ask, parse, isObjectId) == Run(t, a, ask, parse, isObjectId)
  {
    RunSnoc(t, a, m, ask, parse, isObjectId);
    StepUncorrelated(Run(t, a, ask, parse, isObjectId).tables, m, ask, parse, isObjectId);
  }

  /** Two batches that end alike still end alike after one more message. */
  lemma RunSnocAgree(t: Tables, x: seq<Message>, y: seq<Message>, c: seq<Message>, m: Message,
                     ask: string -> CallResult, parse: string -> Option<Json>, isObjectId: string -> bool)
    requires Run(t, x + c, ask, parse, isObjectId) == Run(t, y + c, ask, parse, isObjectId)
    ensures Run(t, x + (c + [m]), ask, parse, isObjectId) == Run(t, y + (c + [m]), ask, parse, isObjectId)
  {
    assert x + (c + [m]) == (x + c) + [m];
    assert y + (c + [m]) == (y + c) + [m];
    RunSnoc(t, x + c, m, ask, parse, isObjectId);
    RunSnoc(t, y + c, m, ask, parse, isObjectId);
  }

  /** A batch with one more message at its end is one more Step, unless it
      has already thrown. */
  lemma RunSnoc(t: Tables, ms: seq<Message>, m: Message, ask: string -> CallResult,
                parse: string -> Option<Json>, isObjectId: string -> bool)
    ensures var o := Run(t, ms, ask, parse, isObjectId);
            Run(t, ms + [m], ask, parse, isObjectId)
            == if o.Threw? then o else Step(o.tables, m, ask, parse, isObjectId)
  {
    assert (ms + [m])[..|ms|] == ms;
  }

  /** A batch of two messages is the two Steps in turn. */
  lemma RunPair(t: Tables, m1: Message, m2: Message, ask: string -> CallResult,
                parse: string -> Option<Json>, isObjectId: string -> bool)
    ensures var o := Step(t, m1, ask, parse, isObjectId);
            Run(t, [m1, m2], ask, parse, isObjectId)
            == if o.Threw? then o else Step(o.tables, m2, ask, parse, isObjectId)
  {
    assert [m1][..0] == [];
    assert Run(t, [m1], ask, parse, isObjectId) == Step(t, m1, ask, parse, isObjectId);
    assert [m1, m2][..1] == [m1];
  }

  /** A batch in which no subject carries an id ends where it began: every
      message is skipped by `continue`. */
  lemma {:induction false} RunAllUncorrelated(t: Tables, ms: seq<Message>, ask: string -> CallResult,
                                              parse: string -> Option<Json>, isObjectId: string -> bool)
    requires forall k | 0 <= k < |ms| :: ms[k].subject.Some? && ExtractRfpId(ms[k].subject.value).None?
    ensures Run(t, ms, ask, parse, isObjectId) == Continue(t)
    decreases |ms|
  {
    if |ms| > 0 {
      var a := ms[..|ms| - 1];
      RunAllUncorrelated(t, a, ask, parse, isObjectId);
      assert a + [ms[|ms| - 1]] == ms;
      RunSkipsLast(t, a, ms[|ms| - 1], ask, parse, isObjectId);
    }
  }

  /** `checkEmails` returns 0 exactly when a message threw or the search
      found nothing; otherwise it returns the number of messages found. */
  lemma CountZeroIff(t: Tables, fetch: Fetch, ask: string -> CallResult,
                     parse: string -> Option<Json>, isObjectId: string -> bool)
    requires fetch.Fetched?
    ensures var o := Run(t, fetch.messages, ask, parse, isObjectId);
            (Count(fetch, o) == 0 <==> o.Threw? || |fetch.messages| == 0)
            && (o.Continue? ==> Count(fetch, o) == |fetch.messages|)
  {
  }

  /** What `checkEmails` counts covers the proposals it added, whenever it
      does not throw. */
  lemma CountCoversProposals(t: Tables, fetch: Fetch, ask: string -> CallResult,
                             parse: string -> Option<Json>, isObjectId: string -> bool)
    requires fetch.Fetched?
    ensures var o := Run(t, fetch.messages, ask, parse, isObjectId);
            o.Continue? ==> |o.tables.proposals| - |t.proposals| <= Count(fetch, o)
  {
    RunGrows(t, fetch.messages, ask, parse, isObjectId);
  }

  /** When a message throws, `checkEmails` returns 0 but the rows the earlier
      messages wrote stay: with one stored reply followed by a message without
      a subject, a proposal is added and 0 is returned. */
  lemma ThrowKeepsEarlierRows(t: Tables, first: Message, ask: string -> CallResult,
                              parse: string -> Option<Json>, isObjectId: string -> bool)
    requires Stores(first, ask, parse, isObjectId)
    ensures var fetch := Fetched([first, Message(None, None, "")]);
            var o := Run(t, fetch.messages, ask, parse, isObjectId);
            && o.Threw?
            && Count(fetch, o) == 0
            && |o.tables.proposals| == |t.proposals| + 1
  {
    RunPair(t, first, Message(None, None, ""), ask, parse, isObjectId);
    StepAppendsIff(t, first, ask, parse, isObjectId);
  }

  /** In a batch of an uncorrelated message and a reply whose subject
      carries `id`, the reply alone becomes a proposal for `id`. */
  lemma CorrelatedReplyStored(t: Tables, subject: string, id: string, from: string, text: string,
                              other: string, otherText: string, ask: string -> CallResult,
                              parse: string -> Option<Json>, isObjectId: string -> bool)
    requires ExtractRfpId(subject) == Some(id) && ExtractRfpId(other).None?
    requires Truthy(ParseProposal(ask(text), parse)) && isObjectId(id)
    requires Storable(ParseProposal(ask(text), parse))
    ensures var reply := Message(Some(subject), Some(from), text);
            var o := Run(t, [Message(Some(other), Some(from), otherText), reply], ask, parse, isObjectId);
            && o.Continue?
            && |o.tables.proposals| == |t.proposals| + 1
            && o.tables.proposals[|t.proposals|].rfpId == id
            && FromMessage(reply, o.tables.proposals[|t.proposals|], o.tables.vendors)
  {
    var reply := Message(Some(subject), Some(from), text);
    var first := Message(Some(other), Some(from), otherText);
    RunPair(t, first, reply, ask, parse, isObjectId);
    StepUncorrelated(t, first, ask, parse, isObjectId);
    StepAppendsIff(t, reply, ask, parse, isObjectId);
  }

  /** A vendor's reply to the message `sendRFP` sent becomes a proposal for
      that request, and a second, unrelated reply in the same batch adds
      nothing. */
  lemma ReplyBecomesProposal(t: Tables, title: string, id: string, subject: string, from: string, text: string,
                             other: string, otherText: string, ask: string -> CallResult,
                             parse: string -> Option<Json>, isObjectId: string -> bool)
    requires subject == ReplySubject(title, id)
    requires forall k | 0 <= k < |id| :: IsIdChar(id[k])
    requires !Occurs(title + " ", IdOpen)
    requires ExtractRfpId(other).None?
    requires Truthy(ParseProposal(ask(text), parse)) && isObjectId(id)
    requires Storable(ParseProposal(ask(text), parse))
    ensures var reply := Message(Some(subject), Some(from), text);
            var o := Run(t, [Message(Some(other), Some(from), otherText), reply], ask, parse, isObjectId);
            && o.Continue?
            && |o.tables.proposals| == |t.proposals| + 1
            && o.tables.proposals[|t.proposals|].rfpId == id
            && FromMessage(reply, o.tables.proposals[|t.proposals|], o.tables.vendors)
  {
    ReplySubjectCarriesId(title, id, subject);
    CorrelatedReplyStored(t, subject, id, from, text, other, otherText, ask, parse, isObjectId);
  }

  lemma ReplySubjectCarriesId(title: string, id: string, subject: string)
    requires subject == ReplySubject(title, id)
    requires forall k | 0 <= k < |id| :: IsIdChar(id[k])
    requires !Occurs(title + " ", IdOpen)
    ensures ExtractRfpId(subject) == Some(id)
  {
    RfpIdRoundTrip(title, id);
  }
}
