/** Express's side of a request as the Node handlers use it: the parsed
    JSON body, the response object they write a status code and a JSON
    record to, and the `next` callback of a middleware. */
module Express {
  import opened Text

  /** A value of the parsed JSON body, as far as the handlers tell values
      apart: absent, a string, or some other value that is falsy (`null`,
      `false`, `0`) or truthy (`true`, another number, an object, an array),
      with the text `String(value)` gives for it. */
  datatype JsValue = Undefined | Str(s: string) | OtherFalsy(text: string) | OtherTruthy(text: string)

  /** JavaScript truthiness: the empty string is falsy, every object is truthy. */
  predicate Truthy(v: JsValue) {
    (v.Str? && v.s != "") || v.OtherTruthy?
  }

  /** `String(value)`, as `decodeURIComponent` converts its argument. */
  function ToText(v: JsValue): string {
    match v
    case Undefined => "undefined"
    case Str(s) => s
    case OtherFalsy(t) => t
    case OtherTruthy(t) => t
  }

  /** `req.body[key]`: undefined when the key is absent. */
  function Field(body: map<string, JsValue>, key: string): (v: JsValue)
    ensures key in body ==> v == body[key]
    ensures key !in body ==> v == Undefined
  {
    if key in body then body[key] else Undefined
  }

  /** The JSON object a handler sends: `{status, message}`, and `data` when there is some. */
  datatype JsonRecord<D> = JsonRecord(status: string, message: string, data: Option<D>)

  /** `res`: the status code set so far and the JSON record sent, if any. */
  class Response<D> {
    var code: Option<int>
    var json: Option<JsonRecord<D>>

    constructor ()
      ensures code == None && json == None
    {
      code := None;
      json := None;
    }

    /** `res.status(code)`. */
    method Status(c: int)
      modifies this
      ensures code == Some(c) && json == old(json)
    {
      code := Some(c);
    }

    /** `res.json(record)`. */
    method Json(record: JsonRecord<D>)
      modifies this
      ensures json == Some(record) && code == old(code)
    {
      json := Some(record);
    }
  }

  /** A middleware's `next`, which counts how often it is called. */
  class Next {
    var calls: nat

    constructor ()
      ensures calls == 0
    {
      calls := 0;
    }

    method Call()
      modifies this
      ensures calls == old(calls) + 1
    {
      calls := calls + 1;
    }
  }
}
