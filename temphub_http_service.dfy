/** temphub's NanoHTTPD service: every request first gets a UTF-8 charset
    in its content type, then goes to the handler registered for its exact
    path, else to the download handler for `/files/download/...`, else to
    a static resource; anything a handler throws becomes a 500. */
module TemphubHttpService {
  import opened Text
  import opened Files
  import opened Http

  /** `content-type` with a charset: kept when it names one (the test is
      case-sensitive), else `; charset=UTF-8` appended; plain text when absent. */
  function FixContentType(header: Option<string>): (r: string)
    ensures header.None? ==> r == "text/plain; charset=UTF-8"
    ensures header.Some? && Contains(header.value, "charset") ==> r == header.value
    ensures header.Some? && !Contains(header.value, "charset") ==> r == header.value + "; charset=UTF-8"
  {
    match header
    case None => "text/plain; charset=UTF-8"
    case Some(h) => if !Contains(h, "charset") then h + "; charset=UTF-8" else h
  }

  /** The fixed content type always names a charset, so fixing it again
      changes nothing, and an existing value is only ever extended. */
  lemma FixContentTypeIdempotent(header: Option<string>)
    ensures Contains(FixContentType(header), "charset")
    ensures FixContentType(Some(FixContentType(header))) == FixContentType(header)
    ensures header.Some? ==> StartsWith(FixContentType(header), header.value)
  {
    var r := FixContentType(header);
    if header.None? {
      CharsetAppended("text/plain");
      assert "text/plain" + "; charset=UTF-8" == "text/plain; charset=UTF-8";
    } else if !Contains(header.value, "charset") {
      CharsetAppended(header.value);
      assert r[..|header.value|] == header.value;
    } else {
      assert r[..|header.value|] == header.value;
    }
  }

  /** The appended parameter names the charset. */
  lemma CharsetAppended(h: string)
    ensures Contains(h + "; charset=UTF-8", "charset")
  {
    var r := h + "; charset=UTF-8";
    var tail := "; charset=UTF-8";
    assert tail[2..9] == "charset";
    assert r[|h| + 2..|h| + 9] == tail[2..9];
    ContainsAt(r, "charset", |h| + 2);
  }

  /** The test is case-sensitive: a value without a lower-case `c`, such as
      one naming its charset as `CHARSET=...`, is still extended. */
  lemma FixContentTypeCaseSensitive(h: string)
    requires 'c' !in h
    ensures FixContentType(Some(h)) == h + "; charset=UTF-8"
  {
    if Contains(h, "charset") {
      ContainsFirstChar(h, "charset");
    }
  }

  /** The handlers registered for exact paths. */
  datatype Route = Root | TextList | TextAdd | FilesList | FilesCheck | FilesAdd

  function RouteFor(uri: string): (r: Option<Route>)
    ensures r == Some(Root) <==> uri == "/"
    ensures r.Some? ==> uri in {"/", "/text/list", "/text/add", "/files/list", "/files/check", "/files/add"}
    ensures uri in {"/", "/text/list", "/text/add", "/files/list", "/files/check", "/files/add"} ==> r.Some?
  {
    if uri == "/" then Some(Root)
    else if uri == "/text/list" then Some(TextList)
    else if uri == "/text/add" then Some(TextAdd)
    else if uri == "/files/list" then Some(FilesList)
    else if uri == "/files/check" then Some(FilesCheck)
    else if uri == "/files/add" then Some(FilesAdd)
    else None
  }

  /** Where a request goes. */
  datatype Target = Routed(route: Route) | Download | Static(path: string)

  /** An exact route wins; then the download prefix; then a static resource of that path. */
  function Dispatch(uri: string): (t: Target)
    ensures RouteFor(uri).Some? ==> t == Routed(RouteFor(uri).value)
    ensures RouteFor(uri).None? && StartsWith(uri, "/files/download/") ==> t == Download
    ensures RouteFor(uri).None? && !StartsWith(uri, "/files/download/") ==> t == Static(uri)
  {
    match RouteFor(uri)
    case Some(r) => Routed(r)
    case None => if StartsWith(uri, "/files/download/") then Download else Static(uri)
  }

  /** No exact route starts with the download prefix, so every path under it
      is a download; `/` is its own route, not a static file. */
  lemma DispatchDownloads(rest: string)
    ensures Dispatch("/files/download/" + rest) == Download
    ensures Dispatch("/") == Routed(Root)
  {
    var uri := "/files/download/" + rest;
    assert uri[..|"/files/download/"|] == "/files/download/";
    assert |uri| >= 16;
    assert uri[1] == 'f' && uri[7] == 'd';
  }

  /** `serveStaticFile`'s suffix table. */
  function MimeFor(path: string): string {
    if EndsWith(path, ".html") then "text/html"
    else if EndsWith(path, ".css") then "text/css"
    else if EndsWith(path, ".js") then "application/javascript"
    else if EndsWith(path, ".json") then "application/json"
    else if EndsWith(path, ".png") then "image/png"
    else if EndsWith(path, ".jpg") || EndsWith(path, ".jpeg") then "image/jpeg"
    else if EndsWith(path, ".gif") then "image/gif"
    else "application/octet-stream"
  }

  /** The suffixes the table names. */
  predicate KnownSuffix(path: string) {
    EndsWith(path, ".html") || EndsWith(path, ".css") || EndsWith(path, ".js") || EndsWith(path, ".json")
    || EndsWith(path, ".png") || EndsWith(path, ".jpg") || EndsWith(path, ".jpeg") || EndsWith(path, ".gif")
  }

  /** A path gets a specific type exactly when it ends with one of the
      known suffixes. */
  lemma MimeKnown(path: string)
    ensures MimeFor(path) != "application/octet-stream" <==> KnownSuffix(path)
  {
  }

  /** The last character of a text ending with a non-empty suffix is the suffix's last. */
  lemma EndsWithLast(s: string, t: string)
    requires EndsWith(s, t) && |t| > 0
    ensures s[|s| - 1] == t[|t| - 1]
  {
    assert s[|s| - |t|..][|t| - 1] == s[|s| - 1];
  }

  /** Both JPEG spellings are image/jpeg; an unknown suffix is an octet stream. */
  lemma MimeExamples()
    ensures MimeFor("/pad.html") == "text/html"
    ensures MimeFor("/photo.jpg") == "image/jpeg" && MimeFor("/photo.jpeg") == "image/jpeg"
    ensures MimeFor("/archive.zip") == "application/octet-stream"
  {
    assert "/pad.html"[4..] == ".html";
    MimeJpg();
    MimeJpeg();
    MimeZip();
  }

  lemma MimeJpg()
    ensures MimeFor("/photo.jpg") == "image/jpeg"
  {
    var jpg := "/photo.jpg";
    assert jpg[6..] == ".jpg";
    assert !EndsWith(jpg, ".html") && !EndsWith(jpg, ".css") && !EndsWith(jpg, ".js") && !EndsWith(jpg, ".json") by {
      if EndsWith(jpg, ".html") { EndsWithLast(jpg, ".html"); }
      if EndsWith(jpg, ".css") { EndsWithLast(jpg, ".css"); }
      if EndsWith(jpg, ".js") { EndsWithLast(jpg, ".js"); }
      if EndsWith(jpg, ".json") { EndsWithLast(jpg, ".json"); }
    }
    assert jpg[6..] != ".png";
  }

  lemma MimeJpeg()
    ensures MimeFor("/photo.jpeg") == "image/jpeg"
  {
    var jpeg := "/photo.jpeg";
    assert jpeg[6..] == ".jpeg";
    assert !EndsWith(jpeg, ".html") && !EndsWith(jpeg, ".css") && !EndsWith(jpeg, ".js") && !EndsWith(jpeg, ".json") by {
      if EndsWith(jpeg, ".html") { EndsWithLast(jpeg, ".html"); }
      if EndsWith(jpeg, ".css") { EndsWithLast(jpeg, ".css"); }
      if EndsWith(jpeg, ".js") { EndsWithLast(jpeg, ".js"); }
      if EndsWith(jpeg, ".json") { EndsWithLast(jpeg, ".json"); }
    }
    assert jpeg[7..] != ".png";
  }

  lemma MimeZip()
    ensures MimeFor("/archive.zip") == "application/octet-stream"
  {
    var zip := "/archive.zip";
    assert !KnownSuffix(zip) by {
      if EndsWith(zip, ".html") { EndsWithLast(zip, ".html"); }
      if EndsWith(zip, ".css") { EndsWithLast(zip, ".css"); }
      if EndsWith(zip, ".js") { EndsWithLast(zip, ".js"); }
      if EndsWith(zip, ".json") { EndsWithLast(zip, ".json"); }
      if EndsWith(zip, ".png") { EndsWithLast(zip, ".png"); }
      if EndsWith(zip, ".jpg") { EndsWithLast(zip, ".jpg"); }
      if EndsWith(zip, ".jpeg") { EndsWithLast(zip, ".jpeg"); }
      if EndsWith(zip, ".gif") { EndsWithLast(zip, ".gif"); }
    }
    MimeKnown(zip);
  }

  /** `serveStaticFile`: the resource under the static directory with its
      type, or a plain-text 404. */
  function StaticReply(resources: map<string, seq<byte>>, staticDir: string, path: string): (r: FileReply)
    ensures staticDir + path !in resources ==> r == FileReply(404, Some(MIME_PLAINTEXT), [], TextBody("404 Not Found"))
    ensures staticDir + path in resources ==> r == FileReply(200, Some(MimeFor(path)), [], ByteBody(resources[staticDir + path]))
  {
    if staticDir + path !in resources then FileReply(404, Some(MIME_PLAINTEXT), [], TextBody("404 Not Found"))
    else FileReply(200, Some(MimeFor(path)), [], ByteBody(resources[staticDir + path]))
  }

  /** The answer to an outcome: a thrown exception becomes a plain-text 500. */
  function Answer(outcome: Outcome<FileReply>): (r: FileReply)
    ensures outcome.Responded? ==> r == outcome.reply
    ensures outcome.Threw? ==> r.code == 500 && r.body == TextBody("Internal server error: " + outcome.exception)
  {
    match outcome
    case Responded(reply) => reply
    case Threw(e) => FileReply(500, Some(MIME_PLAINTEXT), [], TextBody("Internal server error: " + e))
  }

  /** What `serve` answers for a request to `uri`; the routed controllers and
      the download handler read the parsed request body, so what they answer
      is given as `handled`. */
  function ServeReply(uri: string, resources: map<string, seq<byte>>, staticDir: string, handled: Outcome<FileReply>): FileReply {
    match Dispatch(uri)
    case Routed(Root) => StaticReply(resources, staticDir, "/pad.html")
    case Routed(_) => Answer(handled)
    case Download => Answer(handled)
    case Static(path) => StaticReply(resources, staticDir, path)
  }

  /** The root page is `pad.html`; an unknown path is a static lookup whose
      miss is a 404; a handler's exception is a 500. */
  lemma ServeCases(uri: string, resources: map<string, seq<byte>>, staticDir: string, handled: Outcome<FileReply>)
    ensures uri == "/" ==> ServeReply(uri, resources, staticDir, handled) == StaticReply(resources, staticDir, "/pad.html")
    ensures Dispatch(uri).Static? && staticDir + uri !in resources ==>
      ServeReply(uri, resources, staticDir, handled) == FileReply(404, Some(MIME_PLAINTEXT), [], TextBody("404 Not Found"))
    ensures (Dispatch(uri).Download? || (Dispatch(uri).Routed? && uri != "/")) && handled.Threw? ==>
      ServeReply(uri, resources, staticDir, handled).code == 500
  {
  }

  /** A NanoHTTPD session: the request path and its header map, which
      `serve` writes the fixed content type into. */
  class Session {
    const uri: string
    var headers: map<string, string>

    constructor (uri: string, headers: map<string, string>)
      ensures this.uri == uri && this.headers == headers
    {
      this.uri := uri;
      this.headers := headers;
    }
  }

  /** `serve`: the content type is fixed in place, then the request is dispatched. */
  method Serve(session: Session, resources: map<string, seq<byte>>, staticDir: string, handled: Outcome<FileReply>)
    returns (reply: FileReply)
    modifies session
    ensures session.headers == old(session.headers)["content-type" := FixContentType(Get(old(session.headers), "content-type"))]
    ensures reply == ServeReply(session.uri, resources, staticDir, handled)
  {
    var contentType := FixContentType(Get(session.headers, "content-type"));
    session.headers := session.headers["content-type" := contentType];
    match RouteFor(session.uri)
    case Some(Root) =>
      reply := StaticReply(resources, staticDir, "/pad.html");
    case Some(_) =>
      reply := Answer(handled);
    case None =>
      if StartsWith(session.uri, "/files/download/") {
        reply := Answer(handled);
      } else {
        reply := StaticReply(resources, staticDir, session.uri);
      }
  }
}
