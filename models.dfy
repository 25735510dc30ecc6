/** The records the backend stores: requests for proposal, vendors and
    proposals, with the fields of their Mongoose schemas. */
module Models {
  import opened Wrappers
  import opened JsonValue

  /** The lifecycle of a request for proposal. */
  datatype RfpStatus = Draft | Sent | Closed

  /** A request starts out as a draft. */
  const DefaultRfpStatus: RfpStatus := Draft

  /** The value of a Mongoose `String` path: missing, `null` (which the
      schema accepts and stores as such) or a string. */
  datatype StrField = Undefined | Null | Str(s: string)

  /** A line item. Every field is a Mongoose `String`. */
  datatype RfpItem = RfpItem(name: StrField, quantity: StrField, description: StrField)

  datatype RfpStructuredData = RfpStructuredData(
    items: seq<RfpItem>,
    budget: StrField,
    timeline: StrField,
    warranty: StrField,
    paymentTerms: StrField,
    summary: StrField)

  /** A stored request for proposal; `id` is the text of its `_id`. */
  datatype Rfp = Rfp(
    id: string,
    title: string,
    originalQuery: string,
    status: RfpStatus,
    structuredData: RfpStructuredData)

  /** A vendor, with the two fields the mail poller sets. */
  datatype Vendor = Vendor(name: string, email: string)

  /** The `parsedData` sub-document of a proposal. It has no `summary` field:
      the schema keeps only these four keys of the parsed reply. */
  datatype ProposalData = ProposalData(
    pricing: Option<Json>,
    deliveryTime: Option<Json>,
    warranty: Option<Json>,
    paymentTerms: Option<Json>)

  /** A stored proposal. `vendorId` is the position of the vendor in the
      vendor table; the summary lives in `aiSummary`. */
  datatype Proposal = Proposal(
    rfpId: string,
    vendorId: nat,
    rawContent: string,
    parsedData: ProposalData,
    aiSummary: Option<Json>)

  /** Whether Mongoose's cast to a `String` path accepts a property of a
      parsed reply. A missing value, `null` and every primitive cast (to
      their text); an object casts only when its `_id` is a non-empty
      string, and an array never does. A rejected cast makes the document
      invalid, so that `Proposal.create` rejects. */
  predicate CastsToString(v: Option<Json>) {
    match v
    case None => true
    case Some(JArr(_)) => false
    case Some(JObj(fields)) => "_id" in fields && fields["_id"].JStr? && fields["_id"].s != ""
    case Some(_) => true
  }

  /** Whether the five `String` paths a proposal takes from a parsed reply,
      the four terms of `parsedData` and `aiSummary`, all cast. */
  predicate Storable(parsed: Json)
    requires !parsed.JNull?
  {
    && CastsToString(Member(parsed, "pricing"))
    && CastsToString(Member(parsed, "deliveryTime"))
    && CastsToString(Member(parsed, "warranty"))
    && CastsToString(Member(parsed, "paymentTerms"))
    && CastsToString(Member(parsed, "summary"))
  }

  /** A reply whose price is a nested object cannot be stored; one whose
      terms are strings and numbers can. */
  lemma StorableExamples()
    ensures !Storable(JObj(map["pricing" := JObj(map["total" := JNum(5000.0)])]))
    ensures Storable(JObj(map["pricing" := JNum(5000.0), "warranty" := JStr("2 years")]))
  {
    var bad := JObj(map["pricing" := JObj(map["total" := JNum(5000.0)])]);
    assert Member(bad, "pricing") == Some(JObj(map["total" := JNum(5000.0)]));
    var good := JObj(map["pricing" := JNum(5000.0), "warranty" := JStr("2 years")]);
    assert "deliveryTime" !in good.fields && "paymentTerms" !in good.fields && "summary" !in good.fields;
  }
}
