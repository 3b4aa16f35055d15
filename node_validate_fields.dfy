/** backend-node's `validateFields` middleware: the same checks, answered
    through `jsonResponse`, whose "failed" status means HTTP 400. */
module NodeValidateFields {
  import opened Text
  import opened Http
  import opened Express
  import opened FieldValidation
  import NodeUtils

  /** The message of a rejection. */
  function Message(field: string, verdict: Verdict): string {
    if verdict == Required then "Field " + field + " is required" else "Field " + field + " is too long"
  }

  /** The reply of a rejection: always a "failed" one, so always 400. */
  function RejectReply(field: string, verdict: Verdict): (r: ApiReply<()>)
    ensures r.code == 400 && r.status == "failed" && r.data == None
  {
    NodeUtils.JsonReply("failed", Message(field, verdict), None)
  }

  /** A missing or blank text is rejected with 400 "Field text is required". */
  lemma TextRequiredReply(body: map<string, JsValue>)
    requires var v := Field(body, "text"); !Truthy(v) || (v.Str? && JsBlank(v.s))
    ensures Validation(body, FIELDS).Reject?
    ensures RejectReply("text", Validation(body, FIELDS).verdict) == ApiReply(400, "failed", "Field text is required", None)
  {
    TextRequired(body);
    assert Message("text", Required) == "Field text is required" by {
      assert "Field " + "text" == "Field text";
      assert "Field text" + " is required" == "Field text is required";
    }
  }

  /** A non-blank text over the limit is rejected with 400 "Field text is too long". */
  lemma TextTooLongReply(body: map<string, JsValue>)
    requires var v := Field(body, "text"); v.Str? && !JsBlank(v.s) && Utf16Length(v.s) > MAX_LENGTH
    ensures Validation(body, FIELDS).Reject?
    ensures RejectReply("text", Validation(body, FIELDS).verdict) == ApiReply(400, "failed", "Field text is too long", None)
  {
    TextTooLong(body);
    assert Message("text", TooLong) == "Field text is too long" by {
      assert "Field " + "text" == "Field text";
      assert "Field text" + " is too long" == "Field text is too long";
    }
  }

  /** As the `src/` middleware: a rejection is answered and stops the loop,
      a non-string value throws, and `next` is called once when every field passes. */
  method ValidateFields(body: map<string, JsValue>, res: Response<()>, next: Next) returns (thrown: Option<string>)
    modifies res, next
    ensures var step := Validation(body, FIELDS);
      (step.Proceed? ==> next.calls == old(next.calls) + 1 && res.code == old(res.code) && res.json == old(res.json) && thrown == None)
      && (step.Reject? ==>
            res.code == Some(400) && res.json == Some(NodeUtils.RecordOf(RejectReply(step.field, step.verdict)))
            && next.calls == old(next.calls) && thrown == None)
      && (step.Fail? ==> thrown == Some(step.exception) && res.code == old(res.code) && res.json == old(res.json) && next.calls == old(next.calls))
  {
    thrown := None;
    var fieldsToValidate := FIELDS;
    for i := 0 to |fieldsToValidate|
      invariant Validation(body, fieldsToValidate) == Validation(body, fieldsToValidate[i..])
      invariant res.code == old(res.code) && res.json == old(res.json) && next.calls == old(next.calls)
    {
      var field := fieldsToValidate[i];
      var fieldValue := Field(body, field);
      assert fieldsToValidate[i..][1..] == fieldsToValidate[i + 1..];
      if !Truthy(fieldValue) {
        NodeUtils.JsonResponse(res, "failed", "Field " + field + " is required", None);
        return;
      }
      if !fieldValue.Str? {
        thrown := Some("TypeError");
        return;
      }
      if JsBlank(fieldValue.s) {
        NodeUtils.JsonResponse(res, "failed", "Field " + field + " is required", None);
        return;
      }
      if Utf16Length(fieldValue.s) > MAX_LENGTH {
        NodeUtils.JsonResponse(res, "failed", "Field " + field + " is too long", None);
        return;
      }
    }
    next.Call();
  }
}
