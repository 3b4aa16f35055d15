/** The `src/` tree's text pad: a module-level history, loaded with one
    "Started" entry when the module is first required, to which every
    saved text is pushed with the time of the request. `Date.now()` is a
    parameter. The handlers' answers are the records they pass to
    `jsonResponse`. */
module SrcTextController {
  import opened Text
  import opened Express
  import opened FieldValidation

  /** `{timestamp, text}`: the text is whatever the body's `text` field holds. */
  datatype Entry = Entry(timestamp: int, text: JsValue)

  /** One `/save` request: its parsed body and the time it is handled. */
  datatype Post = Post(body: map<string, JsValue>, now: int)

  /** The history after a run of saves, in arrival order. */
  function Replay(history: seq<Entry>, posts: seq<Post>): seq<Entry>
    decreases |posts|
  {
    if |posts| == 0 then history
    else
      var last := posts[|posts| - 1];
      Replay(history, posts[..|posts| - 1]) + [Entry(last.now, Field(last.body, "text"))]
  }

  /** Saves only ever append: the old history stays, and one entry per request follows, in order. */
  lemma {:induction false} ReplayAppends(history: seq<Entry>, posts: seq<Post>)
    ensures var r := Replay(history, posts);
      |r| == |history| + |posts| && r[..|history|] == history
      && forall k :: 0 <= k < |posts| ==> r[|history| + k] == Entry(posts[k].now, Field(posts[k].body, "text"))
    decreases |posts|
  {
    if |posts| > 0 {
      var init := posts[..|posts| - 1];
      ReplayAppends(history, init);
      var before := Replay(history, init);
      var r := Replay(history, posts);
      assert r == before + [Entry(posts[|posts| - 1].now, Field(posts[|posts| - 1].body, "text"))];
      assert r[..|history|] == before[..|history|];
      forall k | 0 <= k < |posts|
        ensures r[|history| + k] == Entry(posts[k].now, Field(posts[k].body, "text"))
      {
        if k < |init| {
          assert r[|history| + k] == before[|history| + k];
          assert init[k] == posts[k];
        }
      }
    }
  }

  /** A request the validator let through stores a non-blank string of at
      most 8000 code units. */
  lemma ValidatedText(body: map<string, JsValue>)
    requires Validation(body, FIELDS) == Proceed
    ensures var v := Field(body, "text");
      v.Str? && !JsBlank(v.s) && Utf16Length(v.s) <= MAX_LENGTH
  {
    TextAccepted(body);
  }

  /** The module's state: the `history` array. */
  class TextStore {
    var history: seq<Entry>

    /** Requiring the module runs `loadHistory()`. */
    constructor (now: int)
      ensures history == [Entry(now, Str("Started"))]
    {
      history := [];
      new;
      LoadHistory(now);
    }

    /** `loadHistory`: the history is replaced by one "Started" entry. */
    method LoadHistory(now: int)
      modifies this
      ensures history == [Entry(now, Str("Started"))]
    {
      history := [Entry(now, Str("Started"))];
    }

    /** `saveText`: one entry pushed at the end. */
    method SaveText(text: JsValue, now: int)
      modifies this
      ensures history == old(history) + [Entry(now, text)]
    {
      history := history + [Entry(now, text)];
    }

    /** `saveTextHandler`: the body's text is saved, and the answer is success. */
    method SaveTextHandler(body: map<string, JsValue>, now: int) returns (reply: JsonRecord<seq<Entry>>)
      modifies this
      ensures history == Replay(old(history), [Post(body, now)])
      ensures reply == JsonRecord("success", "Saved successfully.", None)
    {
      var newText := Field(body, "text");
      SaveText(newText, now);
      reply := JsonRecord("success", "Saved successfully.", None);
    }

    /** `getHistoryHandler`: the whole history, oldest first; nothing changes. */
    method GetHistoryHandler() returns (reply: JsonRecord<seq<Entry>>)
      ensures reply == JsonRecord("success", "Load successfully.", Some(history))
    {
      reply := JsonRecord("success", "Load successfully.", Some(history));
    }
  }

  /** From the module's start, the history holds "Started" and then every saved text in order. */
  lemma FromStart(start: int, posts: seq<Post>)
    ensures var r := Replay([Entry(start, Str("Started"))], posts);
      |r| == 1 + |posts| && r[0] == Entry(start, Str("Started"))
      && forall k :: 0 <= k < |posts| ==> r[1 + k].text == Field(posts[k].body, "text")
  {
    ReplayAppends([Entry(start, Str("Started"))], posts);
    var r := Replay([Entry(start, Str("Started"))], posts);
    assert r[..1][0] == r[0];
  }
}
