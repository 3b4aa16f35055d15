/** String helpers shared by every variant of the file-share server: prefix,
    suffix and substring tests, first-occurrence search, splitting at a
    separator, single-character replacement, ASCII case mapping and the
    whitespace classes of Kotlin and JavaScript. */
module Text {

  datatype Option<+T> = None | Some(value: T) {
    function GetOr(default: T): T {
      if Some? then value else default
    }
  }

  predicate StartsWith(s: string, prefix: string) {
    |prefix| <= |s| && s[..|prefix|] == prefix
  }

  predicate EndsWith(s: string, suffix: string) {
    |suffix| <= |s| && s[|s| - |suffix|..] == suffix
  }

  /** Kotlin's `removePrefix`: the rest of `s` after `prefix`, or `s` itself. */
  function RemovePrefix(s: string, prefix: string): (r: string)
    ensures StartsWith(s, prefix) ==> s == prefix + r
    ensures !StartsWith(s, prefix) ==> r == s
  {
    if StartsWith(s, prefix) then s[|prefix|..] else s
  }

  /** `t` occurs in `s` as a contiguous piece (Kotlin `contains`). */
  predicate Contains(s: string, t: string)
    decreases |s|
  {
    StartsWith(s, t) || (|s| > 0 && Contains(s[1..], t))
  }

  lemma {:induction false} ContainsAt(s: string, t: string, i: nat)
    requires i + |t| <= |s| && s[i..i + |t|] == t
    ensures Contains(s, t)
  {
    if i > 0 {
      assert s[1..][i - 1..i - 1 + |t|] == s[i..i + |t|];
      ContainsAt(s[1..], t, i - 1);
    }
  }

  lemma {:induction false} ContainsIndex(s: string, t: string) returns (i: nat)
    requires Contains(s, t)
    ensures i + |t| <= |s| && s[i..i + |t|] == t
    decreases |s|
  {
    if StartsWith(s, t) {
      i := 0;
    } else {
      var j := ContainsIndex(s[1..], t);
      assert s[1..][j..j + |t|] == s[j + 1..j + 1 + |t|];
      i := j + 1;
    }
  }

  /** A text containing a non-empty piece contains that piece's first character. */
  lemma ContainsFirstChar(s: string, t: string)
    requires Contains(s, t) && |t| > 0
    ensures t[0] in s
  {
    var i := ContainsIndex(s, t);
    assert s[i] == s[i..i + |t|][0];
  }

  /** Containment is transitive: a text containing `b` contains all of `b`'s pieces. */
  lemma ContainsTransitive(a: string, b: string, c: string)
    requires Contains(a, b) && Contains(b, c)
    ensures Contains(a, c)
  {
    var i := ContainsIndex(a, b);
    var j := ContainsIndex(b, c);
    forall k | 0 <= k < |c| ensures a[i + j + k] == c[k] {
      assert c[k] == b[j..j + |c|][k] == b[j + k];
      assert b[j + k] == a[i..i + |b|][j + k] == a[i + j + k];
    }
    assert a[i + j..i + j + |c|] == c;
    ContainsAt(a, c, i + j);
  }

  /** Index of the first occurrence of `t` in `s`. */
  function IndexOf(s: string, t: string): (r: Option<nat>)
    ensures r.Some? ==> r.value + |t| <= |s| && s[r.value..r.value + |t|] == t
    ensures r.Some? ==> forall j :: 0 <= j < r.value ==> !StartsWith(s[j..], t)
    ensures r.None? <==> !Contains(s, t)
    decreases |s|
  {
    if StartsWith(s, t) then Some(0)
    else if |s| == 0 then None
    else match IndexOf(s[1..], t)
      case None => None
      case Some(i) =>
        assert forall j :: 1 <= j <= i ==> s[j..] == s[1..][j - 1..];
        Some(i + 1)
  }

  /** Kotlin's `substringAfter(delimiter)`: the text after the first
      occurrence of the delimiter, or the whole text when it is absent. */
  function SubstringAfter(s: string, delimiter: string): (r: string)
    ensures !Contains(s, delimiter) ==> r == s
    ensures Contains(s, delimiter) ==> exists i :: 0 <= i <= |s| - |delimiter| && s == s[..i] + delimiter + r
  {
    match IndexOf(s, delimiter)
    case None => s
    case Some(i) =>
      assert s == s[..i] + delimiter + s[i + |delimiter|..];
      s[i + |delimiter|..]
  }

  /** JavaScript `s.replace(pattern, rep)` for a pattern with no special
      characters and no `g` flag: only the first occurrence is replaced. */
  function ReplaceFirstText(s: string, pattern: string, rep: string): (r: string)
    ensures !Contains(s, pattern) ==> r == s
    ensures Contains(s, pattern) ==>
      exists i :: 0 <= i <= |s| - |pattern| && s == s[..i] + pattern + s[i + |pattern|..] && r == s[..i] + rep + s[i + |pattern|..]
  {
    match IndexOf(s, pattern)
    case None => s
    case Some(i) =>
      assert s == s[..i] + pattern + s[i + |pattern|..];
      s[..i] + rep + s[i + |pattern|..]
  }

  /** A text that starts with the pattern has it replaced at the front. */
  lemma ReplaceFirstAtStart(s: string, pattern: string, rep: string)
    requires StartsWith(s, pattern)
    ensures ReplaceFirstText(s, pattern, rep) == rep + s[|pattern|..]
  {
    assert IndexOf(s, pattern) == Some(0);
  }

  /** Kotlin `split(sep)` and JavaScript `split(sep)` for a one-character
      separator: every piece between separators, empty pieces kept. */
  function Split(s: string, sep: char): (r: seq<string>)
    ensures |r| >= 1
    ensures forall k :: 0 <= k < |r| ==> sep !in r[k]
    decreases |s|
  {
    if |s| == 0 then [""]
    else
      var rest := Split(s[1..], sep);
      if s[0] == sep then [""] + rest else [[s[0]] + rest[0]] + rest[1..]
  }

  /** The inverse of Split: the pieces joined with the separator. */
  function JoinWith(pieces: seq<string>, sep: char): string
    requires |pieces| >= 1
    decreases |pieces|
  {
    if |pieces| == 1 then pieces[0] else pieces[0] + [sep] + JoinWith(pieces[1..], sep)
  }

  lemma {:induction false} SplitJoin(s: string, sep: char)
    ensures JoinWith(Split(s, sep), sep) == s
    decreases |s|
  {
    if |s| > 0 {
      var rest := Split(s[1..], sep);
      SplitJoin(s[1..], sep);
      if s[0] == sep {
        assert Split(s, sep) == [""] + rest;
        assert Split(s, sep)[1..] == rest;
      } else {
        var r := Split(s, sep);
        assert r == [[s[0]] + rest[0]] + rest[1..];
        if |rest| == 1 {
          assert r == [[s[0]] + rest[0]];
        } else {
          assert r[1..] == rest[1..];
          assert JoinWith(rest, sep) == rest[0] + [sep] + JoinWith(rest[1..], sep);
        }
      }
    }
  }

  /** Splitting text whose first piece holds no separator. */
  lemma {:induction false} SplitCons(a: string, sep: char, b: string)
    requires sep !in a
    ensures Split(a + [sep] + b, sep) == [a] + Split(b, sep)
    decreases |a|
  {
    if |a| == 0 {
      assert a + [sep] + b == [sep] + b;
      assert ([sep] + b)[1..] == b;
    } else {
      assert (a + [sep] + b)[1..] == a[1..] + [sep] + b;
      SplitCons(a[1..], sep, b);
      assert [a[0]] + a[1..] == a;
    }
  }

  lemma {:induction false} SplitNone(a: string, sep: char)
    requires sep !in a
    ensures Split(a, sep) == [a]
    decreases |a|
  {
    if |a| > 0 {
      SplitNone(a[1..], sep);
      assert [a[0]] + a[1..] == a;
    }
  }

  /** JavaScript `s.replace(/c/g, rep)` and Kotlin `s.replace(c, rep)` for one character. */
  function ReplaceAll(s: string, c: char, rep: string): string
    decreases |s|
  {
    if |s| == 0 then [] else (if s[0] == c then rep else [s[0]]) + ReplaceAll(s[1..], c, rep)
  }

  lemma {:induction false} ReplaceAllConcat(a: string, b: string, c: char, rep: string)
    ensures ReplaceAll(a + b, c, rep) == ReplaceAll(a, c, rep) + ReplaceAll(b, c, rep)
    decreases |a|
  {
    if |a| == 0 {
      assert a + b == b;
    } else {
      assert (a + b)[1..] == a[1..] + b;
      ReplaceAllConcat(a[1..], b, c, rep);
    }
  }

  /** Replacing a character by a text free of it leaves none behind. */
  lemma {:induction false} ReplaceAllRemoves(s: string, c: char, rep: string)
    requires c !in rep
    ensures c !in ReplaceAll(s, c, rep)
    decreases |s|
  {
    if |s| > 0 {
      ReplaceAllRemoves(s[1..], c, rep);
    }
  }

  /** Replacing a character that does not occur changes nothing. */
  lemma {:induction false} ReplaceAllAbsent(s: string, c: char, rep: string)
    requires c !in s
    ensures ReplaceAll(s, c, rep) == s
    decreases |s|
  {
    if |s| > 0 {
      ReplaceAllAbsent(s[1..], c, rep);
    }
  }

  /** ASCII upper-case letters mapped to lower case; every other character kept. */
  function LowerChar(c: char): char {
    if 'A' <= c <= 'Z' then (c as int + 32) as char else c
  }

  function Lower(s: string): (r: string)
    ensures |r| == |s| && forall i :: 0 <= i < |s| ==> r[i] == LowerChar(s[i])
    decreases |s|
  {
    if |s| == 0 then [] else [LowerChar(s[0])] + Lower(s[1..])
  }

  /** Code-point order of strings: a prefix comes first, otherwise the
      first differing character decides. */
  predicate LexLe(a: string, b: string)
    decreases |a|
  {
    |a| == 0 || (|b| > 0 && (a[0] < b[0] || (a[0] == b[0] && LexLe(a[1..], b[1..]))))
  }

  lemma {:induction false} LexLeTotal(a: string, b: string)
    ensures LexLe(a, b) || LexLe(b, a)
    decreases |a|
  {
    if |a| > 0 && |b| > 0 && a[0] == b[0] {
      LexLeTotal(a[1..], b[1..]);
    }
  }

  lemma {:induction false} LexLeAntisymmetric(a: string, b: string)
    requires LexLe(a, b) && LexLe(b, a)
    ensures a == b
    decreases |a|
  {
    if |a| > 0 {
      LexLeAntisymmetric(a[1..], b[1..]);
      assert a == [a[0]] + a[1..] && b == [b[0]] + b[1..];
    }
  }

  lemma {:induction false} LexLeTransitive(a: string, b: string, c: string)
    requires LexLe(a, b) && LexLe(b, c)
    ensures LexLe(a, c)
    decreases |a|
  {
    if |a| > 0 && a[0] == b[0] && b[0] == c[0] {
      LexLeTransitive(a[1..], b[1..], c[1..]);
    }
  }

  /** Kotlin `equals(other, ignoreCase = true)` on ASCII text. */
  predicate EqualsIgnoreCase(a: string, b: string) {
    Lower(a) == Lower(b)
  }

  /** Kotlin's `Char.isWhitespace()`: Java whitespace or a Unicode space separator. */
  predicate KotlinWhitespace(c: char) {
    var n := c as int;
    (0x09 <= n <= 0x0D) || (0x1C <= n <= 0x20) || n == 0xA0 || n == 0x1680
    || (0x2000 <= n <= 0x200A) || n == 0x2028 || n == 0x2029 || n == 0x202F
    || n == 0x205F || n == 0x3000
  }

  /** Kotlin's `isBlank()`: empty or whitespace only. */
  predicate IsBlank(s: string) {
    forall i :: 0 <= i < |s| ==> KotlinWhitespace(s[i])
  }

  /** The characters JavaScript's `trim()` removes (WhiteSpace and LineTerminator). */
  predicate JsWhitespace(c: char) {
    var n := c as int;
    (0x09 <= n <= 0x0D) || n == 0x20 || n == 0xA0 || n == 0x1680
    || (0x2000 <= n <= 0x200A) || n == 0x2028 || n == 0x2029 || n == 0x202F
    || n == 0x205F || n == 0x3000 || n == 0xFEFF
  }

  /** `s.trim() === ''` in JavaScript. */
  predicate JsBlank(s: string) {
    forall i :: 0 <= i < |s| ==> JsWhitespace(s[i])
  }

  /** JavaScript's `length`: UTF-16 code units, two for a character above U+FFFF. */
  function Utf16Length(s: string): (n: nat)
    ensures |s| <= n <= 2 * |s|
    decreases |s|
  {
    if |s| == 0 then 0 else (if s[0] as int > 0xFFFF then 2 else 1) + Utf16Length(s[1..])
  }

  /** Below U+10000 every character is one code unit. */
  lemma {:induction false} Utf16LengthBasic(s: string)
    requires forall i :: 0 <= i < |s| ==> s[i] as int <= 0xFFFF
    ensures Utf16Length(s) == |s|
    decreases |s|
  {
    if |s| > 0 {
      Utf16LengthBasic(s[1..]);
    }
  }
}
