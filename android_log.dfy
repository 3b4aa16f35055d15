/** The Android app's in-memory log: the last 300 lines, newest last, fed by
    `i` and `e` and by every SLF4J event the app intercepts. The timestamp
    text is a parameter. */
module AndroidLog {
  import opened Text

  const MAX_LOG: nat := 300

  /** `addLog`: the line is added at the end and, when that makes the list
      longer than the maximum, the oldest line is removed. */
  function Appended(logs: seq<string>, line: string): (r: seq<string>)
    ensures |logs| < MAX_LOG ==> r == logs + [line]
    ensures |logs| >= MAX_LOG ==> r == logs[1..] + [line]
  {
    var added := logs + [line];
    if |added| > MAX_LOG then added[1..] else added
  }

  /** The bound is kept, the new line is last, and the surviving lines are
      the newest ones, in their old order. */
  lemma AppendedKeepsNewest(logs: seq<string>, line: string)
    requires |logs| <= MAX_LOG
    ensures var r := Appended(logs, line);
      |r| <= MAX_LOG && |r| >= 1 && r[|r| - 1] == line
      && r == (logs + [line])[|logs| + 1 - |r|..]
  {
    var r := Appended(logs, line);
    if |logs| == MAX_LOG {
      assert (logs + [line])[1..] == logs[1..] + [line];
    } else {
      assert (logs + [line])[0..] == logs + [line];
    }
  }

  /** The log after a run of lines, oldest first. */
  function AppendAll(logs: seq<string>, lines: seq<string>): seq<string>
    decreases |lines|
  {
    if |lines| == 0 then logs else Appended(AppendAll(logs, lines[..|lines| - 1]), lines[|lines| - 1])
  }

  function Min(a: nat, b: nat): nat {
    if a <= b then a else b
  }

  /** From an empty log, any run of lines leaves exactly the last 300 of them (or all, if fewer). */
  lemma {:induction false} AppendAllKeepsLast(lines: seq<string>)
    ensures AppendAll([], lines) == lines[|lines| - Min(|lines|, MAX_LOG)..]
    decreases |lines|
  {
    if |lines| > 0 {
      var init := lines[..|lines| - 1];
      var last := lines[|lines| - 1];
      AppendAllKeepsLast(init);
      var before := init[|init| - Min(|init|, MAX_LOG)..];
      assert AppendAll([], lines) == Appended(before, last);
      if |init| < MAX_LOG {
        assert before == init;
        assert init + [last] == lines;
      } else {
        assert before[1..] + [last] == lines[|lines| - MAX_LOG..];
      }
    }
  }

  /** A nullable tag in a Kotlin string template. */
  function TagText(tag: Option<string>): string {
    if tag.Some? then tag.value else "null"
  }

  /** `"<timestamp> <LEVEL>/<tag>: <message>"`. */
  function LogLine(timestamp: string, level: string, tag: Option<string>, message: string): string {
    timestamp + " " + level + "/" + TagText(tag) + ": " + message
  }

  /** SLF4J's ERROR level, in any case, goes to `e`; every other level to `i`. */
  predicate IsErrorLevel(level: string) {
    EqualsIgnoreCase(level, "ERROR")
  }

  lemma LevelRouting()
    ensures IsErrorLevel("ERROR") && IsErrorLevel("error") && IsErrorLevel("Error")
    ensures !IsErrorLevel("WARN") && !IsErrorLevel("INFO") && !IsErrorLevel("DEBUG") && !IsErrorLevel("TRACE")
  {
    ErrorSpellings();
    OtherLevels();
  }

  lemma ErrorSpellings()
    ensures Lower("ERROR") == Lower("error") == Lower("Error") == "error"
  {
    LowerIs("ERROR", "error");
    LowerIs("error", "error");
    LowerIs("Error", "error");
  }

  /** The lower-cased text, checked character by character. */
  lemma LowerIs(s: string, t: string)
    requires |s| == |t| && forall i :: 0 <= i < |s| ==> LowerChar(s[i]) == t[i]
    ensures Lower(s) == t
  {
  }

  lemma OtherLevels()
    ensures Lower("WARN") != Lower("ERROR") && Lower("INFO") != Lower("ERROR")
    ensures Lower("DEBUG") != Lower("ERROR") && Lower("TRACE") != Lower("ERROR")
  {
    assert Lower("DEBUG")[0] == 'd' && Lower("TRACE")[0] == 't' && Lower("ERROR")[0] == 'e';
  }

  /** `Log` as an object: the list of lines the UI shows. */
  class LogBuffer {
    var logs: seq<string>

    constructor ()
      ensures logs == []
    {
      logs := [];
    }

    method AddLog(line: string)
      modifies this
      ensures logs == Appended(old(logs), line)
    {
      var current := logs + [line];
      if |current| > MAX_LOG {
        current := current[1..];
      }
      logs := current;
    }

    /** `Log.i`: an INFO line is added. */
    method I(timestamp: string, tag: Option<string>, message: string)
      modifies this
      ensures logs == Appended(old(logs), LogLine(timestamp, "INFO", tag, message))
    {
      var line := timestamp + " INFO/" + TagText(tag) + ": " + message;
      assert line == LogLine(timestamp, "INFO", tag, message);
      AddLog(line);
    }

    /** `Log.e`: an ERROR line is added. */
    method E(timestamp: string, tag: Option<string>, message: string)
      modifies this
      ensures logs == Appended(old(logs), LogLine(timestamp, "ERROR", tag, message))
    {
      var line := timestamp + " ERROR/" + TagText(tag) + ": " + message;
      assert line == LogLine(timestamp, "ERROR", tag, message);
      AddLog(line);
    }

    /** The intercepting appender: an event is logged through `e` when its
        level is ERROR, ignoring case, and through `i` otherwise. */
    method Capture(timestamp: string, level: string, loggerName: Option<string>, message: string)
      modifies this
      ensures logs == Appended(old(logs), LogLine(timestamp, if IsErrorLevel(level) then "ERROR" else "INFO", loggerName, message))
    {
      if EqualsIgnoreCase(level, "ERROR") {
        E(timestamp, loggerName, message);
      } else {
        I(timestamp, loggerName, message);
      }
    }
  }
}
