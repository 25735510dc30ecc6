/** The three calls of backend/services/aiService.js to the generative model:
    `generateRfpStructure`, `parseProposal` and `compareProposals`. The model's
    answer is a parameter (the text it returned, or the failure of the call),
    and so is `JSON.parse`. What is modelled is what each call does with the
    answer: clean and parse it, repair the budget and timeline of a request,
    and fall back to a fixed record whenever anything throws. */
module AiService {
  import opened Wrappers
  import opened JsStrings
  import opened JsonValue
  import opened SafeJson
  import opened FieldExtractors
  import opened Models

  /** The outcome of `model.generateContent(prompt)` followed by
      `response.text()`: the text of the answer, or a rejection (network,
      quota, blocked content) that lands in the `catch` block. */
  datatype CallResult = Answer(text: string) | CallFailed

  /** The value `safeJsonParse` produces for an answer, None when the call
      failed or the cleaned text is not JSON: the two ways the `try` block
      can throw before the parsed value is used. */
  function ParsedAnswer(reply: CallResult, parse: string -> Option<Json>): Option<Json>
  {
    match reply
    case CallFailed => None
    case Answer(t) => SafeJsonParse(t, parse)
  }

  /** The `try` blocks reach the parsed value exactly when the model answered
      and the cleaned answer is JSON, and then the value is what `JSON.parse`
      made of the cleaned text. */
  lemma ParsedAnswerFails(reply: CallResult, parse: string -> Option<Json>)
    ensures ParsedAnswer(reply, parse).None? <==> reply.CallFailed? || parse(Clean(reply.text)).None?
    ensures ParsedAnswer(reply, parse).Some? ==> reply.Answer? && ParsedAnswer(reply, parse) == parse(Clean(reply.text))
  {
  }

  // ---------------------------------------------------------------------
  // generateRfpStructure
  // ---------------------------------------------------------------------

  /** The six keys of the structured request, in the order of the prompt. */
  const RfpKeys: set<string> := {"items", "budget", "timeline", "warranty", "paymentTerms", "summary"}

  /** The record `generateRfpStructure` returns from its `catch` block: one
      line item of 50 business laptops, the budget and timeline the regular
      expressions find in the user's text, fixed warranty and payment terms,
      and the user's text itself as the summary. */
  function RfpFallback(inputText: string): (r: Json)
    ensures r.JObj? && r.fields.Keys == RfpKeys
  {
    JObj(map[
      "items" := JArr([JObj(map[
        "name" := JStr("Laptop"),
        "quantity" := JStr("50"),
        "description" := JStr("Business laptops as per user requirement")])]),
      "budget" := JStr(ExtractBudget(inputText)),
      "timeline" := JStr(ExtractTimeline(inputText)),
      "warranty" := JStr("Standard warranty"),
      "paymentTerms" := JStr("To be discussed"),
      "summary" := JStr(inputText)])
  }

  /** Whether the model's value for a field is kept: it is truthy and is not
      the string "Not specified". */
  predicate KeepsModelValue(current: Option<Json>) {
    TruthyMember(current) && current != Some(JStr(NotSpecified))
  }

  /** The value the merge writes into one field: the model's value when it is
      kept, else the string the regular expression extracted. */
  function MergedField(current: Option<Json>, extracted: string): (r: Json)
    ensures KeepsModelValue(current) ==> Some(r) == current
    ensures !KeepsModelValue(current) ==> r == JStr(extracted)
  {
    if KeepsModelValue(current) then current.value else JStr(extracted)
  }

  /** The fields of an object answer after the merge: budget and timeline
      are set to their merged values, every other field is left alone. */
  function MergeAnswer(m: map<string, Json>, inputText: string): (r: map<string, Json>)
    ensures r.Keys == m.Keys + {"budget", "timeline"}
    ensures forall k | k in m && k != "budget" && k != "timeline" :: r[k] == m[k]
    ensures r["budget"] == MergedField(Member(JObj(m), "budget"), ExtractBudget(inputText))
    ensures r["timeline"] == MergedField(Member(JObj(m), "timeline"), ExtractTimeline(inputText))
  {
    var budget := MergedField(Member(JObj(m), "budget"), ExtractBudget(inputText));
    var timeline := MergedField(Member(JObj(m), "timeline"), ExtractTimeline(inputText));
    m["budget" := budget]["timeline" := timeline]
  }

  /** `generateRfpStructure(inputText)` given the model's answer.
      - The call fails, or the cleaned answer is not JSON: the fallback.
      - The answer is `null`: reading `data.budget` throws, so the fallback.
      - The answer is an object: its budget and timeline are merged with the
        regular-expression results and every other field is returned as is.
      - The answer is a boolean, number, string or array: the property reads
        give `undefined`, the writes are lost (a primitive cannot hold a
        property, and a property set on an array is not part of its JSON),
        so the value is returned unchanged.
      An object result always carries a budget and a timeline that are
      truthy, and each is "Not specified" only when its regular expression
      found nothing in the user's text. */
  function GenerateRfpStructure(inputText: string, reply: CallResult, parse: string -> Option<Json>): (r: Json)
    ensures r.JObj? ==> Repaired(r.fields, inputText)
    ensures !r.JObj? ==> ParsedAnswer(reply, parse) == Some(r) && !r.JNull?
  {
    match ParsedAnswer(reply, parse)
    case None => FallbackRepaired(inputText); RfpFallback(inputText)
    case Some(data) =>
      if data.JNull? then FallbackRepaired(inputText); RfpFallback(inputText)
      else if data.JObj? then
        MergeRepaired(data.fields, inputText);
        JObj(MergeAnswer(data.fields, inputText))
      else data
  }

  /** What the merge guarantees of a structured request: it has a budget and
      a timeline, both truthy, and each is "Not specified" only when its
      regular expression found nothing in the user's text. */
  predicate Repaired(f: map<string, Json>, inputText: string) {
    && "budget" in f && "timeline" in f
    && Truthy(f["budget"]) && Truthy(f["timeline"])
    && (f["budget"] == JStr(NotSpecified) ==> ExtractBudget(inputText) == NotSpecified)
    && (f["timeline"] == JStr(NotSpecified) ==> ExtractTimeline(inputText) == NotSpecified)
  }

  lemma FallbackRepaired(inputText: string)
    ensures Repaired(RfpFallback(inputText).fields, inputText)
  {
    ExtractedNonEmpty(inputText);
  }

  lemma MergeRepaired(m: map<string, Json>, inputText: string)
    ensures Repaired(MergeAnswer(m, inputText), inputText)
  {
    ExtractedNonEmpty(inputText);
  }

  /** Neither extractor returns the empty string. */
  lemma ExtractedNonEmpty(text: string)
    ensures ExtractBudget(text) != "" && ExtractTimeline(text) != ""
  {
    if ExtractTimeline(text) != NotSpecified {
      assert WordAt(ExtractTimeline(text), 0, "next") || WordAt(ExtractTimeline(text), 0, "within");
    }
  }

  /** The fields of the fallback record. */
  lemma RfpFallbackFields(inputText: string)
    ensures var f := RfpFallback(inputText).fields;
            && f["items"] == JArr([JObj(map[
                 "name" := JStr("Laptop"),
                 "quantity" := JStr("50"),
                 "description" := JStr("Business laptops as per user requirement")])])
            && f["budget"] == JStr(ExtractBudget(inputText))
            && f["timeline"] == JStr(ExtractTimeline(inputText))
            && f["warranty"] == JStr("Standard warranty")
            && f["paymentTerms"] == JStr("To be discussed")
            && f["summary"] == JStr(inputText)
  {
  }

  /** Every way the `try` block can throw gives the fallback record. */
  lemma GenerateRfpStructureFallback(inputText: string, reply: CallResult, parse: string -> Option<Json>)
    ensures ParsedAnswer(reply, parse).None? || ParsedAnswer(reply, parse) == Some(JNull) ==>
              GenerateRfpStructure(inputText, reply, parse) == RfpFallback(inputText)
  {
  }

  /** The merge rule on an object answer: the result has the answer's keys
      plus budget and timeline; budget and timeline keep the model's value
      exactly when it is truthy and not "Not specified", else they take the
      regular-expression result; every other field is the model's own. */
  lemma GenerateRfpStructureMerge(inputText: string, reply: CallResult, parse: string -> Option<Json>)
    requires ParsedAnswer(reply, parse).Some? && ParsedAnswer(reply, parse).value.JObj?
    ensures var m := ParsedAnswer(reply, parse).value.fields;
            var r := GenerateRfpStructure(inputText, reply, parse);
            && r.JObj?
            && r.fields.Keys == m.Keys + {"budget", "timeline"}
            && (forall k | k in m && k != "budget" && k != "timeline" :: r.fields[k] == m[k])
            && (KeepsModelValue(Member(JObj(m), "budget")) ==> r.fields["budget"] == m["budget"])
            && (!KeepsModelValue(Member(JObj(m), "budget")) ==> r.fields["budget"] == JStr(ExtractBudget(inputText)))
            && (KeepsModelValue(Member(JObj(m), "timeline")) ==> r.fields["timeline"] == m["timeline"])
            && (!KeepsModelValue(Member(JObj(m), "timeline")) ==> r.fields["timeline"] == JStr(ExtractTimeline(inputText)))
  {
    var m := ParsedAnswer(reply, parse).value.fields;
    assert GenerateRfpStructure(inputText, reply, parse) == JObj(MergeAnswer(m, inputText));
  }

  /** A truthy answer that is already complete comes back unchanged: the
      merge only ever touches a falsy or "Not specified" budget or timeline. */
  lemma GenerateRfpStructureKeepsCompleteAnswer(inputText: string, reply: CallResult, parse: string -> Option<Json>)
    requires ParsedAnswer(reply, parse).Some? && ParsedAnswer(reply, parse).value.JObj?
    requires KeepsModelValue(Member(ParsedAnswer(reply, parse).value, "budget"))
    requires KeepsModelValue(Member(ParsedAnswer(reply, parse).value, "timeline"))
    ensures GenerateRfpStructure(inputText, reply, parse) == ParsedAnswer(reply, parse).value
  {
    var d := ParsedAnswer(reply, parse).value;
    assert d == JObj(d.fields);
    MergeKeepsComplete(d.fields, inputText);
  }

  lemma MergeKeepsComplete(m: map<string, Json>, inputText: string)
    requires KeepsModelValue(Member(JObj(m), "budget")) && KeepsModelValue(Member(JObj(m), "timeline"))
    ensures MergeAnswer(m, inputText) == m
  {
    var r := MergeAnswer(m, inputText);
    assert "budget" in m && r["budget"] == m["budget"];
    assert "timeline" in m && r["timeline"] == m["timeline"];
    assert forall k | k in m :: r[k] == m[k];
  }

  // ---------------------------------------------------------------------
  // parseProposal
  // ---------------------------------------------------------------------

  /** The record `parseProposal` returns from its `catch` block. */
  function ProposalFallback(): (r: Json)
    ensures r.JObj? && r.fields.Keys == {"pricing", "deliveryTime", "warranty", "paymentTerms", "summary"}
  {
    JObj(map[
      "pricing" := JStr(NotSpecified),
      "deliveryTime" := JStr(NotSpecified),
      "warranty" := JStr(NotSpecified),
      "paymentTerms" := JStr(NotSpecified),
      "summary" := JStr("Unable to parse proposal automatically")])
  }

  /** `parseProposal(emailText)` given the model's answer to the prompt built
      from `emailText`: the parsed answer, whatever JSON value it is, or the
      fallback when the call fails or the answer is not JSON. */
  function ParseProposal(reply: CallResult, parse: string -> Option<Json>): Json
  {
    match ParsedAnswer(reply, parse)
    case None => ProposalFallback()
    case Some(v) => v
  }

  /** Every failure gives the fixed record, and every parsed answer comes
      back unmodified: no field is repaired. */
  lemma ParseProposalCases(reply: CallResult, parse: string -> Option<Json>)
    ensures ParsedAnswer(reply, parse).None? ==> ParseProposal(reply, parse) == ProposalFallback()
    ensures ParsedAnswer(reply, parse).Some? ==> ParseProposal(reply, parse) == ParsedAnswer(reply, parse).value
  {
  }

  /** The fallback is truthy, so a proposal is stored for it, and its five
      fields are the fixed ones. */
  lemma ProposalFallbackFields()
    ensures Truthy(ProposalFallback())
    ensures var f := ProposalFallback().fields;
            && f["pricing"] == JStr(NotSpecified)
            && f["deliveryTime"] == JStr(NotSpecified)
            && f["warranty"] == JStr(NotSpecified)
            && f["paymentTerms"] == JStr(NotSpecified)
            && f["summary"] == JStr("Unable to parse proposal automatically")
  {
  }

  /** `parseProposal` never throws and gives a falsy value only when the model
      answered with a falsy JSON value (`null`, `false`, `0` or `""`). */
  lemma ParseProposalFalsyOnlyFromAnswer(reply: CallResult, parse: string -> Option<Json>)
    ensures !Truthy(ParseProposal(reply, parse)) ==>
              reply.Answer? && parse(Clean(reply.text)) == Some(ParseProposal(reply, parse))
  {
  }

  // ---------------------------------------------------------------------
  // compareProposals
  // ---------------------------------------------------------------------

  /** The record `compareProposals` returns from its `catch` block. */
  function ComparisonFallback(): (r: Json)
    ensures r.JObj? && r.fields.Keys == {"summary", "recommendation", "rankings"}
  {
    JObj(map[
      "summary" := JStr("Comparison could not be generated"),
      "recommendation" := JStr("Manual review required"),
      "rankings" := JArr([])])
  }

  /** `compareProposals(proposals)` given the model's answer to the prompt
      built from the proposals. */
  function CompareProposals(proposals: seq<Proposal>, reply: CallResult, parse: string -> Option<Json>): Json
  {
    match ParsedAnswer(reply, parse)
    case None => ComparisonFallback()
    case Some(v) => v
  }

  /** Every failure gives the fixed record, and every parsed answer comes
      back unmodified. */
  lemma CompareProposalsCases(ps: seq<Proposal>, reply: CallResult, parse: string -> Option<Json>)
    ensures ParsedAnswer(reply, parse).None? ==> CompareProposals(ps, reply, parse) == ComparisonFallback()
    ensures ParsedAnswer(reply, parse).Some? ==> CompareProposals(ps, reply, parse) == ParsedAnswer(reply, parse).value
  {
  }

  /** On a failed call and on an answer that is not JSON alike, the
      comparison has the fixed fields and an empty ranking, and does not
      depend on the proposals compared, not even on whether there are any. */
  lemma ComparisonFallbackFields(ps: seq<Proposal>, qs: seq<Proposal>, reply: CallResult,
                                 parse: string -> Option<Json>)
    requires ParsedAnswer(reply, parse).None?
    ensures var f := CompareProposals(ps, reply, parse).fields;
            && f["summary"] == JStr("Comparison could not be generated")
            && f["recommendation"] == JStr("Manual review required")
            && f["rankings"] == JArr([])
    ensures CompareProposals(ps, reply, parse) == CompareProposals(qs, reply, parse)
    ensures CompareProposals(ps, reply, parse) == CompareProposals([], reply, parse)
  {
  }
}
