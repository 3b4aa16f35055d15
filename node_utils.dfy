/** backend-node's `utils`: the client-facing path of a file below the
    working directory, and the JSON reply every handler sends. */
module NodeUtils {
  import opened Text
  import opened Http
  import opened Express
  import TemphubFileUtils

  /** `trimFromBeginning`: the prefix when the text starts with it, then one leading `/`. */
  function TrimFromBeginning(str: string, tar: string): string {
    var once := if StartsWith(str, tar) then str[|tar|..] else str;
    if StartsWith(once, "/") then once[1..] else once
  }

  /** A path below the prefix comes back as the part after the separator, whatever it is. */
  lemma TrimJoined(t: string, r: string)
    ensures TrimFromBeginning(t + "/" + r, t) == r
  {
    var p := t + "/" + r;
    assert p[..|t|] == t;
    assert p[|t|..] == "/" + r;
    assert ("/" + r)[..1] == "/";
  }

  lemma TrimSelf(t: string)
    ensures TrimFromBeginning(t, t) == ""
  {
    assert t[..|t|] == t;
  }

  /** The result is a suffix of the input; what goes is the prefix, if the
      text starts with it, and after that at most one `/`. */
  lemma TrimSuffix(str: string, tar: string)
    ensures var r := TrimFromBeginning(str, tar);
      var once := if StartsWith(str, tar) then str[|tar|..] else str;
      EndsWith(str, r) && (r == once || (|once| > 0 && once[0] == '/' && r == once[1..]))
  {
    var once := if StartsWith(str, tar) then str[|tar|..] else str;
    var r := TrimFromBeginning(str, tar);
    assert str[|str| - |once|..] == once;
    assert once[|once| - |r|..] == r;
    assert str[|str| - |r|..] == once[|once| - |r|..];
  }

  /** The same two steps as temphub's `removePrefix(prefix).removePrefix("/")`. */
  lemma TrimAgreesWithTemphub(str: string, tar: string)
    ensures TrimFromBeginning(str, tar) == TemphubFileUtils.TrimFromBeginning(str, tar)
  {
  }

  /** `jsonResponse`: 200 for "success" and 400 for any other status; the
      record always has status and message, and data only when given. */
  function JsonReply<D>(status: string, message: string, data: Option<D>): (r: ApiReply<D>)
    ensures r.code == 200 <==> status == "success"
    ensures r.code == 200 || r.code == 400
    ensures r.status == status && r.message == message && r.data == data
  {
    ApiReply(if status == "success" then 200 else 400, status, message, data)
  }

  /** The record `jsonResponse` writes for a reply. */
  function RecordOf<D>(r: ApiReply<D>): JsonRecord<D> {
    JsonRecord(r.status, r.message, r.data)
  }

  /** `jsonResponse(res, status, message, data)` writes the status code, then the JSON record. */
  method JsonResponse<D>(res: Response<D>, status: string, message: string, data: Option<D>)
    modifies res
    ensures var r := JsonReply(status, message, data);
      res.code == Some(r.code) && res.json == Some(RecordOf(r))
  {
    var response := JsonRecord(status, message, data);
    res.Status(if status == "success" then 200 else 400);
    res.Json(response);
  }
}
