/** The shapes of what the handlers answer: the JSON envelope
    `{status, message, data}` with its HTTP status code, a file or text
    response with its headers, and the outcome of a handler that may throw
    instead of answering. */
module Http {
  import opened Text
  import opened Files

  /** A JSON reply: HTTP status code and the `ApiResponse` body. */
  datatype ApiReply<D> = ApiReply(code: int, status: string, message: string, data: Option<D>)

  /** What a handler does: answer, or throw an exception that the caller
      (NanoHTTPD's `serve`, Express) turns into an error page. */
  datatype Outcome<R> = Responded(reply: R) | Threw(exception: string)

  datatype Body = TextBody(text: string) | ByteBody(bytes: seq<byte>)

  /** A non-JSON response; `contentType` is None where the server asks a
      MIME-probing library that is not part of this model. */
  datatype FileReply = FileReply(code: int, contentType: Option<string>, headers: seq<(string, string)>, body: Body)

  /** A field of a parsed JSON object or header map. */
  function Get(m: map<string, string>, key: string): (r: Option<string>)
    ensures r.Some? <==> key in m
    ensures r.Some? ==> r.value == m[key]
  {
    if key in m then Some(m[key]) else None
  }

  const MIME_PLAINTEXT := "text/plain"
}
