/** The `src/` tree's `validateFields` middleware: it answers 400 itself,
    with `{status: 'failed', message}`, or passes the request on. */
module SrcValidateFields {
  import opened Text
  import opened Express
  import opened FieldValidation

  /** The message of a rejection. */
  function Message(field: string, verdict: Verdict): string {
    if verdict == Required then field + " is required." else field + " is too long."
  }

  /** Runs the checks of `Validation` over the fields: a rejection answers
      400 and stops, a non-string value throws, and only when every field
      passes is `next` called, once. */
  method ValidateFields(body: map<string, JsValue>, res: Response<()>, next: Next) returns (thrown: Option<string>)
    modifies res, next
    ensures var step := Validation(body, FIELDS);
      (step.Proceed? ==> next.calls == old(next.calls) + 1 && res.code == old(res.code) && res.json == old(res.json) && thrown == None)
      && (step.Reject? ==>
            res.code == Some(400) && res.json == Some(JsonRecord("failed", Message(step.field, step.verdict), None))
            && next.calls == old(next.calls) && thrown == None)
      && (step.Fail? ==> thrown == Some(step.exception) && res.code == old(res.code) && res.json == old(res.json) && next.calls == old(next.calls))
  {
    thrown := None;
    var fieldsToValidate := FIELDS;
    for i := 0 to |fieldsToValidate|
      invariant Validation(body, fieldsToValidate) == Validation(body, fieldsToValidate[i..])
      invariant res.code == old(res.code) && res.json == old(res.json) && next.calls == old(next.calls)
    {
      var field := fieldsToValidate[i];
      var fieldValue := Field(body, field);
      assert fieldsToValidate[i..][1..] == fieldsToValidate[i + 1..];
      if !Truthy(fieldValue) {
        res.Status(400);
        res.Json(JsonRecord("failed", field + " is required.", None));
        return;
      }
      if !fieldValue.Str? {
        thrown := Some("TypeError");
        return;
      }
      if JsBlank(fieldValue.s) {
        res.Status(400);
        res.Json(JsonRecord("failed", field + " is required.", None));
        return;
      }
      if Utf16Length(fieldValue.s) > MAX_LENGTH {
        res.Status(400);
        res.Json(JsonRecord("failed", field + " is too long.", None));
        return;
      }
    }
    next.Call();
  }
}
