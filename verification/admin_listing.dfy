/** The admin listing decision endpoints: resolving the text sent with an
    approval or a rejection from the optional JSON request body, and the
    shape of the response. The property service that carries out the
    decision is an oracle returning the updated listing or an exception
    message. */
module AdminListing {
  import opened Wrappers
  import opened JavaStrings

  /** A request body as Jackson reads it into a `Map<String, String>`:
      a key may be absent, present with a string, or present with `null`.
      The whole body is optional. */
  type Body = Option<map<string, Option<string>>>

  /** The listing the property service returns; this model does not look inside it. */
  datatype Property = Property(id: nat)

  /** The JSON object the endpoints answer with. A failure carries no property. */
  datatype Response = Response(success: bool, message: string, property: Option<Property>)

  const DefaultApproval: string := "Your listing has been approved by admin."
  const DefaultRejection: string := "No reason provided"
  const ApprovedText: string := "Listing approved."
  const RejectedText: string := "Listing rejected."

  /** `Map.get`: the value under `key`, or `null` when the key is absent. */
  function Get(m: map<string, Option<string>>, key: string): Option<string> {
    if key in m then m[key] else None
  }

  /** `Map.getOrDefault`: the default only when the key is absent; a key
      present with `null` yields `null`. */
  function GetOrDefault(m: map<string, Option<string>>, key: string, default: Option<string>): (r: Option<string>)
    ensures key in m ==> r == m[key]
    ensures key !in m ==> r == default
  {
    if key in m then m[key] else default
  }

  /** The custom approval text the admin supplied: a non-null, non-blank "message". */
  predicate HasCustomApproval(body: Body) {
    body.Some? && Get(body.value, "message").Some? && !IsBlank(Get(body.value, "message").value)
  }

  /** The approval text: the default, unless the body has a non-null,
      non-blank "message", which is then sent trimmed. */
  function ApprovalMessage(body: Body): (r: string)
    ensures !HasCustomApproval(body) ==> r == DefaultApproval
    ensures HasCustomApproval(body) ==> r == Trim(body.value["message"].value)
    ensures r == [] || (!StrippedByTrim(r[0]) && !StrippedByTrim(r[|r| - 1]))
  {
    if HasCustomApproval(body) then Trim(body.value["message"].value) else DefaultApproval
  }

  /** The rejection reason: the default without a body; with one, the
      "message" entry wins whenever the key is present, even when its
      value is blank or `null`, then the "reason" entry, then the default. */
  function RejectionReason(body: Body): (r: Option<string>)
    ensures body.None? ==> r == Some(DefaultRejection)
    ensures body.Some? && "message" in body.value ==> r == body.value["message"]
    ensures body.Some? && "message" !in body.value && "reason" in body.value ==> r == body.value["reason"]
    ensures body.Some? && "message" !in body.value && "reason" !in body.value ==> r == Some(DefaultRejection)
  {
    if body.None? then Some(DefaultRejection)
    else GetOrDefault(body.value, "message", GetOrDefault(body.value, "reason", Some(DefaultRejection)))
  }

  /** Turns the service's outcome into the response: the fixed success
      text with the property, or the exception's message without one. */
  function Respond(outcome: Result<Property>, successText: string): (r: Response)
    ensures r.success <==> outcome.Ok?
    ensures r.success ==> r.message == successText && r.property == Some(outcome.value)
    ensures !r.success ==> r.message == outcome.message && r.property.None?
  {
    match outcome
    case Ok(p) => Response(true, successText, Some(p))
    case Err(e) => Response(false, e, None)
  }

  /** `approveListing`: resolves the approval text and hands it to the
      property service. */
  function ApproveListing(id: nat, body: Body, approve: (nat, string) -> Result<Property>): (r: Response)
    ensures r.success <==> approve(id, ApprovalMessage(body)).Ok?
    ensures r.success ==> r.message == ApprovedText && r.property == Some(approve(id, ApprovalMessage(body)).value)
    ensures !r.success ==> r.message == approve(id, ApprovalMessage(body)).message && r.property.None?
  {
    Respond(approve(id, ApprovalMessage(body)), ApprovedText)
  }

  /** `rejectListing`: resolves the reason, possibly `null`, and hands it
      to the property service. */
  function RejectListing(id: nat, body: Body, reject: (nat, Option<string>) -> Result<Property>): (r: Response)
    ensures r.success <==> reject(id, RejectionReason(body)).Ok?
    ensures r.success ==> r.message == RejectedText && r.property == Some(reject(id, RejectionReason(body)).value)
    ensures !r.success ==> r.message == reject(id, RejectionReason(body)).message && r.property.None?
  {
    Respond(reject(id, RejectionReason(body)), RejectedText)
  }

  /** The approval text is already trimmed: trimming it again changes nothing. */
  lemma ApprovalMessageIsTrimmed(body: Body)
    ensures Trim(ApprovalMessage(body)) == ApprovalMessage(body)
  {
    if HasCustomApproval(body) {
      TrimIdempotent(body.value["message"].value);
    } else {
      assert TrimStart(DefaultApproval) == DefaultApproval;
      assert TrimEnd(DefaultApproval) == DefaultApproval;
    }
  }

  /** A "message" with any character above U+0020 never leaves the
      approval text empty: it is either used, and survives trimming, or
      blank, and replaced by the default. */
  lemma VisibleApprovalIsKept(body: Body, i: int)
    requires body.Some? && "message" in body.value && body.value["message"].Some?
    requires 0 <= i < |body.value["message"].value| && !StrippedByTrim(body.value["message"].value[i])
    ensures ApprovalMessage(body) != []
  {
    TrimKeepsVisible(body.value["message"].value, i);
  }

  /** A worked example, not a general law: `isBlank` and `trim` disagree
      on control characters, so a message of a single NUL is not blank, is
      used, and trims to the empty text. The general statements are
      `ApprovalMessageIsTrimmed` and `VisibleApprovalIsKept`. */
  lemma ControlCharacterApprovalIsEmpty()
    ensures ApprovalMessage(Some(map["message" := Some("\0")])) == ""
  {
    var body: Body := Some(map["message" := Some("\0")]);
    assert Get(body.value, "message") == Some("\0");
    assert "\0"[0] == '\0' && !IsWhitespace('\0');
    assert HasCustomApproval(body);
    assert TrimStart("\0") == "";
  }

  /** When the body has both keys, "message" decides the rejection reason
      and "reason" is ignored. */
  lemma RejectionMessageBeatsReason(message: Option<string>, reason: Option<string>)
    ensures RejectionReason(Some(map["message" := message, "reason" := reason])) == message
  {
    var m := map["message" := message, "reason" := reason];
    assert "message" in m && m["message"] == message;
  }

  /** The same blank "message" is replaced by the default on approval but
      passed through unchanged on rejection. */
  lemma BlankMessageAsymmetry(text: string)
    requires IsBlank(text)
    ensures ApprovalMessage(Some(map["message" := Some(text)])) == DefaultApproval
    ensures RejectionReason(Some(map["message" := Some(text)])) == Some(text)
  {
    var m := map["message" := Some(text)];
    assert Get(m, "message") == Some(text);
  }

  /** A "message" key present with `null` makes the approval use the
      default text but the rejection send a `null` reason, even when the
      body also has a "reason". */
  lemma NullMessageAsymmetry(reason: Option<string>)
    ensures ApprovalMessage(Some(map["message" := None, "reason" := reason])) == DefaultApproval
    ensures RejectionReason(Some(map["message" := None, "reason" := reason])).None?
  {
    var m := map["message" := None, "reason" := reason];
    assert "message" in m && m["message"] == None;
    assert Get(m, "message") == None;
  }

  /** Approval and rejection answer alike for the same service outcome:
      both succeed or both fail, with the same property or the same error
      text, and differ only in the fixed success text. */
  lemma DecisionResponsesAgree(id: nat, approveBody: Body, rejectBody: Body,
                               approve: (nat, string) -> Result<Property>,
                               reject: (nat, Option<string>) -> Result<Property>)
    requires approve(id, ApprovalMessage(approveBody)) == reject(id, RejectionReason(rejectBody))
    ensures var a, b := ApproveListing(id, approveBody, approve), RejectListing(id, rejectBody, reject);
      && a.success == b.success && a.property == b.property
      && (a.success ==> a.message == ApprovedText && b.message == RejectedText)
      && (!a.success ==> a.message == b.message)
  {
  }
}
