/** The decision both `validateFields` middlewares take for each field of
    the request body: a falsy or blank value is required, a string longer
    than 8000 UTF-16 code units is too long, and a truthy value that is not
    a string has no `trim` method, so the middleware throws a TypeError. */
module FieldValidation {
  import opened Text
  import opened Express

  const MAX_LENGTH: nat := 8000

  /** The fields both middlewares check. */
  const FIELDS: seq<string> := ["text"]

  datatype Verdict = Required | TooLong | Passes | NotAString

  /** The two tests on one value, the emptiness test first. */
  function Check(v: JsValue): (r: Verdict)
    ensures r == Required <==> !Truthy(v) || (v.Str? && JsBlank(v.s))
    ensures r == NotAString <==> v.OtherTruthy?
    ensures r == TooLong <==> v.Str? && !JsBlank(v.s) && Utf16Length(v.s) > MAX_LENGTH
  {
    if !Truthy(v) then Required
    else if !v.Str? then NotAString
    else if JsBlank(v.s) then Required
    else if Utf16Length(v.s) > MAX_LENGTH then TooLong
    else Passes
  }

  /** How a middleware ends: a rejection naming the field, `next()`, or an exception. */
  datatype Step = Reject(field: string, verdict: Verdict) | Proceed | Fail(exception: string)

  /** The loop over the fields: the first field that does not pass decides. */
  function Validation(body: map<string, JsValue>, fields: seq<string>): (r: Step)
    ensures r.Reject? ==> r.field in fields && (r.verdict == Required || r.verdict == TooLong)
    ensures r.Proceed? <==> forall i :: 0 <= i < |fields| ==> Check(Field(body, fields[i])) == Passes
    decreases |fields|
  {
    if |fields| == 0 then Proceed
    else
      match Check(Field(body, fields[0]))
      case Passes =>
        var rest := Validation(body, fields[1..]);
        assert forall i :: 1 <= i < |fields| ==> fields[i] == fields[1..][i - 1];
        rest
      case NotAString => Fail("TypeError")
      case verdict => Reject(fields[0], verdict)
  }

  /** With the one field `text`: missing, falsy, empty or whitespace-only text is required. */
  lemma TextRequired(body: map<string, JsValue>)
    ensures var v := Field(body, "text");
      Validation(body, FIELDS) == Reject("text", Required) <==> !Truthy(v) || (v.Str? && JsBlank(v.s))
  {
    assert FIELDS[1..] == [];
  }

  /** Text longer than 8000 code units that is not blank is too long. */
  lemma TextTooLong(body: map<string, JsValue>)
    ensures var v := Field(body, "text");
      Validation(body, FIELDS) == Reject("text", TooLong) <==> v.Str? && !JsBlank(v.s) && Utf16Length(v.s) > MAX_LENGTH
  {
    assert FIELDS[1..] == [];
  }

  /** Any other string, 8000 code units long included, goes on to the handler. */
  lemma TextAccepted(body: map<string, JsValue>)
    ensures var v := Field(body, "text");
      Validation(body, FIELDS) == Proceed <==> v.Str? && !JsBlank(v.s) && Utf16Length(v.s) <= MAX_LENGTH
  {
    assert FIELDS[1..] == [];
    assert FIELDS[0] == "text";
  }

  /** The emptiness test comes first: 9000 spaces are "required", not "too long". */
  lemma SpacesAreRequired()
    ensures Validation(map["text" := Str(seq(9000, _ => ' '))], FIELDS) == Reject("text", Required)
  {
    TextRequired(map["text" := Str(seq(9000, _ => ' '))]);
  }

  /** A text of exactly 8000 letters passes. */
  lemma LimitAccepted()
    ensures Validation(map["text" := Str(seq(MAX_LENGTH, _ => 'a'))], FIELDS) == Proceed
  {
    var s := seq(MAX_LENGTH, _ => 'a');
    Utf16LengthBasic(s);
    assert !JsWhitespace(s[0]);
    TextAccepted(map["text" := Str(s)]);
  }
}
