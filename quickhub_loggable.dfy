/** Which exceptions the quickhub server's NanoHTTPD log handler keeps
    quiet: every message without text, and every message mentioning a
    dropped connection. */
module QuickhubLoggable {
  import opened Text

  const IGNORED_MESSAGES: seq<string> := ["Broken pipe", "Connection or outbound has closed"]

  /** `shouldIgnoreMessage`: a missing message is ignored; a present one is
      ignored when it contains any of the ignored phrases. */
  function ShouldIgnoreMessage(message: Option<string>): (r: bool)
    ensures message.None? ==> r
    ensures message.Some? ==> (r <==> exists k :: 0 <= k < |IGNORED_MESSAGES| && Contains(message.value, IGNORED_MESSAGES[k]))
  {
    match message
    case None => true
    case Some(m) => Contains(m, IGNORED_MESSAGES[0]) || Contains(m, IGNORED_MESSAGES[1])
  }

  /** Both phrases themselves are ignored, and so is any message without text. */
  lemma IgnoredPhrases()
    ensures ShouldIgnoreMessage(Some("Broken pipe"))
    ensures ShouldIgnoreMessage(Some("Connection or outbound has closed"))
    ensures ShouldIgnoreMessage(None)
  {
    assert StartsWith("Broken pipe", "Broken pipe");
    assert StartsWith("Connection or outbound has closed", "Connection or outbound has closed");
  }

  /** Any other message is let through; for instance one that is empty. */
  lemma EmptyMessageKept()
    ensures !ShouldIgnoreMessage(Some(""))
  {
    assert !Contains("", IGNORED_MESSAGES[0]);
    assert !Contains("", IGNORED_MESSAGES[1]);
  }

  /** Ignoring is monotone: a message containing an ignored message is ignored. */
  lemma IgnoreMonotone(m: string, bigger: string)
    requires ShouldIgnoreMessage(Some(m)) && Contains(bigger, m)
    ensures ShouldIgnoreMessage(Some(bigger))
  {
    if Contains(m, IGNORED_MESSAGES[0]) {
      ContainsTransitive(bigger, m, IGNORED_MESSAGES[0]);
    } else {
      ContainsTransitive(bigger, m, IGNORED_MESSAGES[1]);
    }
  }
}
