# Procura backend services, modelled in Dafny

Procura is a procurement assistant.
- A buyer describes a need in free text. A generative model turns the text into a structured request for proposal (RFP).
- The RFP is mailed to vendors.
- The vendors' replies are fetched from a mailbox, correlated to the request by an id in the subject, and stored as proposals.

This project models the deterministic core of the two backend service files that do this work, and proves what they guarantee.

**`backend/services/aiService.js`**
- `safeJsonParse` strips Markdown fences and trims the answer (module `SafeJson`).
- `extractBudget` and `extractTimeline` are the two regular-expression extractors (module `FieldExtractors`). Each pattern is modelled as a leftmost-match scan. Each scan is proved equal to the pattern's language: the leftmost-longest budget phrase, and the leftmost timeline phrase.
- `generateRfpStructure`, `parseProposal` and `compareProposals` are in module `AiService`:
  - the answer is cleaned and parsed;
  - the budget and timeline of a request are repaired;
  - on every failure path the call falls back to a fixed record.

**`backend/services/emailService.js`**
- `sendRFP`: the subject and the plain-text body it builds (module `RfpMail`).
- The id pattern `\(ID: (.*?)\)` and the sender parsing of `checkEmails` (module `ReplyParsing`). This includes the round trip from the subject `sendRFP` writes to the id the poller reads back.
- The `checkEmails` loop itself (module `MailPoller`):
  - `ProcurementStore` is a class holding the vendor and proposal tables.
  - Its method `CheckEmails` runs the loop. Each pass calls `ReceiveReply`.
  - Both methods are proved against the value-level `Step` and `Run`.
  - Lemmas about `Step` and `Run` carry the properties: uniqueness of vendor addresses, provenance of every proposal, messages without an id being skipped, and the count or 0 result.

**Supporting modules**
- `JsStrings`: the JavaScript character classes and string operations used.
  - `\s` and `trim` share one whitespace predicate.
  - `.` stops at line terminators.
  - The `i` flag is modelled for the patterns here, whose letters are all ASCII: such a letter matches itself in either case, and no other character. No non-ASCII character folds onto an ASCII letter, so this is exact for these patterns. How non-ASCII letters fold among themselves is not modelled.
  - Also modelled: `replace` with a global literal, `split` on one character and `join`.
- `JsonValue`: parsed JSON values and JavaScript truthiness.
- `Models`: the RFP and Proposal documents. A `String` path of an RFP holds a string, `null` or nothing (`StrField`). `Proposal.parsedData` has no summary field; the summary goes to `aiSummary`.

**Parameters.** These stand for what the source calls but the model cannot see:
- the generative model: `ask: string -> CallResult`, or one `CallResult` per call;
- `JSON.parse`: `parse: string -> Option<Json>`;
- the Mongoose ObjectId cast of the reply's id: `isObjectId: string -> bool`.

## Model

| member | source | states |
|---|---|---|
| JsStrings.Trim | backend/services/aiService.js:15 | the result is an infix of the input with only whitespace around it, and it neither begins nor ends with whitespace |
| JsStrings.TrimTrimmed | backend/services/aiService.js:15 | trimming text that neither begins nor ends with whitespace changes nothing |
| JsStrings.RemoveAll | backend/services/aiService.js:13-14 | global removal of a literal pattern never lengthens the text and keeps only characters the input had |
| JsStrings.RemoveAllAbsent | backend/services/aiService.js:13-14 | removing a pattern that occurs nowhere leaves the text unchanged |
| JsStrings.RemoveAllKeepsPrefix | backend/services/aiService.js:14 | global removal keeps a prefix in which no occurrence of the pattern starts, and goes on with what follows it |
| JsStrings.Split | backend/services/emailService.js:82 | the first piece of a split is the prefix before the first separator and holds no separator |
| JsStrings.SplitJoinLines | backend/services/emailService.js:27 | joining lines with newlines and splitting on newlines gives the lines back when no line holds a newline |
| SafeJson.Clean | backend/services/aiService.js:11-15 | the cleaned text has no "```" in it, and it neither begins nor ends with whitespace |
| SafeJson.FenceRemovalLeavesNoFence | backend/services/aiService.js:14 | removing every "```" left to right leaves no "```", although each removal joins the text on either side |
| SafeJson.NoTicksAfterFenceRemoval | backend/services/aiService.js:14 | the induction behind the no-fence property: no three backticks remain, and the result has no more leading backticks than the input |
| SafeJson.CleanIdempotent | backend/services/aiService.js:11-17 | cleaning twice is cleaning once |
| SafeJson.SafeJsonParseFenced | backend/services/aiService.js:11-17 | an answer wrapped as "```json" + body + "```", with no "```" in the body, is parsed as the trimmed body, also when the body ends in backticks of its own |
| FieldExtractors.ExtractBudget | backend/services/aiService.js:19-22 | "Not specified" exactly when no "$" is immediately followed by a digit or a comma; otherwise the match starts with "$" |
| FieldExtractors.ExtractBudgetIsLeftmostLongest | backend/services/aiService.js:20-21 | "Not specified" exactly when no substring matches the budget pattern; otherwise the leftmost-longest match, whose digits and commas form a maximal run |
| FieldExtractors.BudgetExample | backend/services/aiService.js:20-21 | "$2,500 each" gives "$2,500 each" |
| FieldExtractors.ExtractTimeline | backend/services/aiService.js:24-29 | "Not specified" exactly when no match starts at any index; otherwise the match begins with "next" or "within", in any case |
| FieldExtractors.ExtractTimelineIsLeftmost | backend/services/aiService.js:25-28 | "Not specified" exactly when no substring matches the timeline pattern; otherwise the leftmost match, the only one at its start |
| FieldExtractors.NoTimelineAtLetter | backend/services/aiService.js:26 | no timeline match starts at a letter other than n or w |
| FieldExtractors.TimelineWithinExample | backend/services/aiService.js:25-28 | "deliver within 3 weeks" gives "within 3 weeks" |
| FieldExtractors.TimelineNextExample | backend/services/aiService.js:25-28 | "next quarter" gives "next quarter" |
| AiService.ParsedAnswerFails | backend/services/aiService.js:58-64 | the answer is missing exactly when the call failed or the cleaned text does not parse; otherwise it is what the cleaned text parses to |
| AiService.RfpFallback | backend/services/aiService.js:80-93 | the fallback request has exactly the six keys of the structured request |
| AiService.RfpFallbackFields | backend/services/aiService.js:80-93 | the fallback has one item (Laptop, 50, business laptops), the extracted budget and timeline, "Standard warranty", "To be discussed", and the user's text as summary |
| AiService.MergedField | backend/services/aiService.js:66-74 | the model's value is kept iff it is truthy and not "Not specified"; otherwise the field gets the extracted string |
| AiService.MergeAnswer | backend/services/aiService.js:64-76 | the merged object has the answer's keys plus budget and timeline, and every other field is the answer's own |
| AiService.GenerateRfpStructure | backend/services/aiService.js:57-94 | an object result always has a truthy budget and timeline, each "Not specified" only when its extractor found nothing; any other result is the parsed answer itself, never null |
| AiService.GenerateRfpStructureMerge | backend/services/aiService.js:64-76 | on an object answer: the merge rule field by field, and all other fields unchanged |
| AiService.GenerateRfpStructureKeepsCompleteAnswer | backend/services/aiService.js:66-74 | an answer whose budget and timeline are both kept comes back unchanged |
| AiService.GenerateRfpStructureFallback | backend/services/aiService.js:57-93 | a failed call, an unparsable answer and a null answer (whose property read throws) all give the fallback record |
| AiService.ProposalFallback | backend/services/aiService.js:126-132 | the proposal fallback has exactly the five keys pricing, deliveryTime, warranty, paymentTerms and summary |
| AiService.ProposalFallbackFields | backend/services/aiService.js:123-133 | the proposal fallback is truthy; its four terms are "Not specified" and its summary is "Unable to parse proposal automatically" |
| AiService.ParseProposalFalsyOnlyFromAnswer | backend/services/aiService.js:115-133 | parseProposal is falsy only when the model answered and the cleaned answer parsed to that falsy value: there is no post-merge |
| AiService.ParseProposalCases | backend/services/aiService.js:97-134 | with no parsed answer, parseProposal gives the fallback record; otherwise the parsed answer itself |
| AiService.ComparisonFallback | backend/services/aiService.js:165-169 | the comparison fallback has exactly the keys summary, recommendation and rankings |
| AiService.CompareProposalsCases | backend/services/aiService.js:136-171 | with no parsed answer, compareProposals gives the fallback record; otherwise the parsed answer itself |
| AiService.ComparisonFallbackFields | backend/services/aiService.js:154-170 | when the call fails or its answer does not parse: the fixed summary and recommendation, an empty ranking, and the same record whatever proposals were passed |
| RfpMail.Show | backend/services/emailService.js:27-30 | a template literal shows a string field as itself, a missing one as "undefined" and a null one as "null" |
| RfpMail.ItemLines | backend/services/emailService.js:27 | one line per item, in item order, each "- name: quantity" |
| RfpMail.BodyWithoutItems | backend/services/emailService.js:22-35 | with no items, split into lines, the body is the five head lines, one empty line, then the budget, timeline and closing lines |
| RfpMail.BodyListsItemsInOrder | backend/services/emailService.js:22-35 | split into lines, the body is the five head lines, then the item lines in order, then the budget and timeline lines |
| ReplyParsing.ReplySubjectPassesSearch | backend/services/emailService.js:21-63 | a reply to the subject sendRFP writes contains "Re: RFP Requirement", the text the mailbox search looks for |
| ReplyParsing.ExtractRfpId | backend/services/emailService.js:72-74 | an extracted id holds no ")" and no line terminator |
| ReplyParsing.ExtractRfpIdIsLeftmostShortest | backend/services/emailService.js:72 | None exactly when no substring matches the id pattern; otherwise the capture of the leftmost match, shortest at that start |
| ReplyParsing.RfpIdRoundTrip | backend/services/emailService.js:21-72 | the id in the subject sendRFP writes comes back out of "Re: " + subject, when the id holds no ")" or line terminator and "(ID: " does not occur in the title followed by a space |
| ReplyParsing.RfpIdRoundTripBreaksOnTitle | backend/services/emailService.js:21-72 | the title condition is needed: the title "Q(ID:" makes the id read back "(ID: abc" instead of "abc" |
| ReplyParsing.SenderEmail | backend/services/emailService.js:77-78 | an address found in angle brackets is non-empty and holds no ">"; otherwise the result is the whole header |
| ReplyParsing.SenderName | backend/services/emailService.js:82 | the vendor name holds no "<" |
| ReplyParsing.SenderEmailIsLeftmost | backend/services/emailService.js:77-78 | the header comes back whole exactly when no substring matches `<([^>]+)>`; otherwise the result is the content of the leftmost match |
| ReplyParsing.SenderNameIsTrimmedHead | backend/services/emailService.js:82 | the name is the trimmed text before the first "<", or the whole header trimmed when it has none |
| ReplyParsing.ParseSender | backend/services/emailService.js:76-82 | for a + "<" + email + ">" + b, where a has no "<" and the email is non-empty without ">", the address is the email and the name is a trimmed, whatever b is |
| ReplyParsing.ParseUnclosedSender | backend/services/emailService.js:77-78 | a header with no ">" is the address as a whole |
| ReplyParsing.ParseBareSender | backend/services/emailService.js:77-82 | a header without "<" is the address as a whole, and the name is the header trimmed |
| ReplyParsing.SenderExample | backend/services/emailService.js:76-82 | "Jane Doe <jane@acme.com>" gives the address "jane@acme.com" and the name "Jane Doe" |
| ReplyParsing.SenderWithoutNameExample | backend/services/emailService.js:76-82 | "<jane@acme.com>" gives the address "jane@acme.com" and the empty name |
| ReplyParsing.UnclosedSenderExample | backend/services/emailService.js:77-78 | "Jane <jane" has no match, so the whole header is the address |
| Models.StorableExamples | backend/models/Proposal.js:9-14 | a reply whose price is a nested object fails the String cast of the proposal schema; one whose terms are a number and a string passes |
| MailPoller.FindVendor | backend/services/emailService.js:80 | the first vendor with the address, or None exactly when no vendor has it |
| MailPoller.FindOrCreateVendor | backend/services/emailService.js:80-83 | the resolved vendor has the sender's address. The table is unchanged when a vendor has that address; otherwise exactly Vendor(name, address) is appended |
| MailPoller.FindOrCreateIdempotent | backend/services/emailService.js:80-83 | finding or creating the same sender twice is doing it once |
| MailPoller.FindOrCreateKeepsUnique | backend/services/emailService.js:80-83 | find-or-create keeps vendor addresses unique |
| MailPoller.NewProposal | backend/services/emailService.js:87-93 | the stored record has the id, the vendor, the raw text, the four parsed terms, and the parsed summary as aiSummary |
| MailPoller.ProcurementStore.ReceiveReply | backend/services/emailService.js:69-94 | one pass of the loop body changes the tables exactly as Step says, and reports whether it threw |
| MailPoller.ProcurementStore.CheckEmails | backend/services/emailService.js:48-103 | a failed session gives 0 and changes nothing. Otherwise the tables become what Run computes, and the result is the number of fetched messages, or 0 when one threw |
| MailPoller.StepRegistersSender | backend/services/emailService.js:69-94 | a correlated message with a sender leaves the sender's vendor in the table, stored proposal or not, thrown or not; any other message leaves the vendor table unchanged |
| MailPoller.StepUncorrelated | backend/services/emailService.js:72-73 | a message whose subject has no id changes nothing and the loop goes on |
| MailPoller.StepThrowsIff | backend/services/emailService.js:68-94 | a message throws exactly when any of these holds: it has no subject; it has an id but no sender; or its reply is truthy and either the id is not an ObjectId or a field of the reply does not cast to String |
| MailPoller.StepRejectsUncastable | backend/services/emailService.js:85-101 | a correlated reply whose parsed answer has a field that does not cast to String, such as a nested price object, throws: no proposal is stored, the sender's vendor stays, and the loop ends |
| MailPoller.FallbackStorable | backend/services/aiService.js:126-132 | the fallback record of parseProposal always casts, so an unparsable reply is stored whenever its id is an ObjectId |
| MailPoller.StepGrows | backend/services/emailService.js:80-94 | one message only appends rows: at most one vendor and one proposal |
| MailPoller.StepAppendsIff | backend/services/emailService.js:85-94 | a proposal is appended exactly when there is an id and a sender, the parsed reply is truthy, the id casts to an ObjectId and the five String fields cast. It is the record of that message |
| MailPoller.StepKeepsInvariants | backend/services/emailService.js:80-94 | one message keeps vendor addresses unique and every proposal linked to a vendor |
| MailPoller.RunExtend | backend/services/emailService.js:68 | a batch that has not thrown, extended by one message, is one more Step |
| MailPoller.ThrewSticks | backend/services/emailService.js:68-101 | once a message throws, the rest of the batch is not looked at |
| MailPoller.RunAllUncorrelated | backend/services/emailService.js:68-95 | a batch in which no subject carries an id ends where it began, without throwing |
| MailPoller.RunGrows | backend/services/emailService.js:68-95 | a batch only appends rows, also when it throws, and adds at most one proposal per message |
| MailPoller.RunKeepsInvariants | backend/services/emailService.js:68-95 | a batch keeps vendor addresses unique, also with repeated senders, and every proposal linked |
| MailPoller.RunProvenance | backend/services/emailService.js:68-95 | every proposal a batch adds came from one of its messages: its id, text and sender's vendor |
| MailPoller.RunSkipsUncorrelated | backend/services/emailService.js:72-73 | a message with a subject but no id can be taken out of any batch without changing the outcome |
| MailPoller.CountZeroIff | backend/services/emailService.js:98-101 | the result is 0 exactly when a message threw or nothing was found; otherwise it is the number of messages found |
| MailPoller.CountCoversProposals | backend/services/emailService.js:98 | when the loop does not throw, the returned count is at least the number of proposals added |
| MailPoller.ThrowKeepsEarlierRows | backend/services/emailService.js:68-101 | after a stored reply, a message that throws makes the result 0 while the proposal stays |
| MailPoller.CorrelatedReplyStored | backend/services/emailService.js:68-94 | in a batch of an uncorrelated message and a correlated reply, only the reply becomes a proposal, for its id, when its parsed answer is truthy and casts |
| MailPoller.ReplyBecomesProposal | backend/services/emailService.js:21-94 | a reply to the subject sendRFP wrote, whose parsed answer is truthy and casts, becomes a proposal for that request's id, and an unrelated message in the batch adds nothing |

## Left out

- The generative model (backend/services/aiService.js:8-9 and each `generateContent` call) is a network service. Its answer is a `CallResult` parameter: a text or a failure. The prompts are not modelled.
- `ParseProposal` takes the model's answer, not `emailText`. In `Step`, the answer is `ask(text)`, a function of the message body.
- `JSON.parse` is a foreign parser and is the parameter `parse`. The order of an object's keys is not kept: a parsed object is a map.
- Sending mail through nodemailer is left out, and so is the `true`/`false` result of `sendRFP`. Only the subject and body are modelled.
- The IMAP connection, the UNSEEN and subject search, the seen flags and `connection.end` are left out. A fetched batch, or a failed session, is the `Fetch` input of `CheckEmails`.
- Mongoose persistence is replaced by two in-memory tables:
  - a vendor id is its position in the vendor table;
  - the ObjectId cast of `rfpId` is the parameter `isObjectId`;
  - the `String` cast of the five parsed fields is modelled as Mongoose's rule, `Models.CastsToString`. A field that fails it (an array, or an object without a non-empty string `_id`) makes `Proposal.create` throw. For a field that passes, the model stores the parsed value itself, not the text the cast makes of it. Mongoose's own cast code is not part of this model;
  - backend/models/Vendor.js is not part of this model, so a vendor has only the name and email that `checkEmails` sets.
- `receivedAt`, `createdAt` (clocks) and `aiRating` (never set) are left out.
- Two `checkEmails` runs at the same time, racing on find-then-create, are left out: the source runs the loop sequentially.
- The route handlers, the server and the frontend are left out, including the RFP status update on sending.
- Console logging and configuration are left out.
- Strings are sequences of Unicode scalar values, not UTF-16 code units. No pattern here depends on the difference.
- `inputText` is taken to be a string.
- AiService.GenerateRfpStructure: the in-place writes to the parsed object are modelled on values. The object is fresh from `JSON.parse` and is not aliased. When the answer is a boolean, number or string, the writes are lost and the answer is returned as parsed. When it is an array, `budget` and `timeline` are set on it as properties, but they are not part of the array's JSON, which is all that backend/routes/rfpRoutes.js:16 sends; the model returns the array as parsed.
- FieldExtractors.ExtractTimeline: its "Not specified" condition ranges over starts before the end of the text. ExtractTimelineIsLeftmost states the condition over all substrings.
- RfpMail.BodyListsItemsInOrder is stated for at least one item, with no newline in the fields shown. With no items, the template leaves one empty line where the items go; RfpMail.BodyWithoutItems states that case.
