/** The quickhub text pad: an in-memory history of saved texts, each with
    the time it was saved, starting with one "Started" entry. The clock is
    a parameter: every operation that reads it is given the time. */
module QuickhubTextController {
  import opened Text
  import opened Http

  /** One saved text: `{"timestamp": ..., "text": ...}`. */
  datatype HistoryEntry = HistoryEntry(timestamp: string, text: string)

  /** The text a `/text/add` body stores: its `text` field, or "" without one. */
  function SavedText(body: map<string, string>): (r: string)
    ensures "text" in body ==> r == body["text"]
    ensures "text" !in body ==> r == ""
  {
    Get(body, "text").GetOr("")
  }

  /** The history after one add: one entry more, at the end, and every
      earlier entry as it was. */
  function AddEntry(history: seq<HistoryEntry>, body: map<string, string>, now: string): (r: seq<HistoryEntry>)
    ensures |r| == |history| + 1 && r[..|history|] == history
    ensures r[|history|] == HistoryEntry(now, SavedText(body))
  {
    history + [HistoryEntry(now, SavedText(body))]
  }

  /** One `/text/add` request: its parsed JSON body and the time it arrived. */
  datatype Post = Post(body: map<string, string>, now: string)

  /** The history after a run of adds, in arrival order. */
  function Replay(history: seq<HistoryEntry>, posts: seq<Post>): seq<HistoryEntry>
    decreases |posts|
  {
    if |posts| == 0 then history
    else AddEntry(Replay(history, posts[..|posts| - 1]), posts[|posts| - 1].body, posts[|posts| - 1].now)
  }

  /** A run of adds keeps the history it started from and appends one entry
      per request, in order, holding that request's text. */
  lemma {:induction false} ReplayAppends(history: seq<HistoryEntry>, posts: seq<Post>)
    ensures var r := Replay(history, posts);
      |r| == |history| + |posts| && r[..|history|] == history
      && forall k :: 0 <= k < |posts| ==> r[|history| + k] == HistoryEntry(posts[k].now, SavedText(posts[k].body))
    decreases |posts|
  {
    if |posts| > 0 {
      var init := posts[..|posts| - 1];
      ReplayAppends(history, init);
      var before := Replay(history, init);
      var r := AddEntry(before, posts[|posts| - 1].body, posts[|posts| - 1].now);
      assert r[..|history|] == before[..|history|];
      forall k | 0 <= k < |posts|
        ensures r[|history| + k] == HistoryEntry(posts[k].now, SavedText(posts[k].body))
      {
        if k < |init| {
          assert r[|history| + k] == before[|history| + k];
          assert init[k] == posts[k];
        }
      }
    }
  }

  class TextController {
    var history: seq<HistoryEntry>

    /** The history starts with one "Started" entry stamped with the creation time. */
    constructor (now: string)
      ensures history == [HistoryEntry(now, "Started")]
    {
      history := [HistoryEntry(now, "Started")];
    }

    /** `handleTextList`: the whole history, oldest first; nothing changes. */
    method HandleTextList() returns (reply: ApiReply<seq<HistoryEntry>>)
      ensures reply == ApiReply(200, "success", "Load successfully", Some(history))
    {
      reply := ApiReply(200, "success", "Load successfully", Some(history));
    }

    /** `handleTextAdd`: the body's text is appended with the current time,
        and the answer is always success. */
    method HandleTextAdd(body: map<string, string>, now: string) returns (reply: ApiReply<()>)
      modifies this
      ensures history == AddEntry(old(history), body, now)
      ensures reply == ApiReply(200, "success", "Saved successfully", None)
    {
      var text := Get(body, "text").GetOr("");
      history := history + [HistoryEntry(now, text)];
      reply := ApiReply(200, "success", "Saved successfully", None);
    }
  }

  /** A history built by the controller from its start holds "Started" and
      then every saved text, in the order the requests came. */
  lemma FromStart(start: string, posts: seq<Post>)
    ensures var r := Replay([HistoryEntry(start, "Started")], posts);
      |r| == 1 + |posts| && r[0] == HistoryEntry(start, "Started")
      && forall k :: 0 <= k < |posts| ==> r[1 + k].text == SavedText(posts[k].body)
  {
    ReplayAppends([HistoryEntry(start, "Started")], posts);
    var r := Replay([HistoryEntry(start, "Started")], posts);
    assert r[..1][0] == r[0];
  }
}
