/** The web client's `escapeFilename`: eight characters that would break a
    URL are written as `%` escapes (section 2.1 of RFC 3986) by a chain of
    replacements. `%` goes first, so the escapes made later are not escaped
    again; the `$` replacement has no `g` flag, so only the first `$` is
    escaped. */
module StaticUtils {
  import opened Text
  import opened PercentCoding

  /** The first six replacements of the chain, all global, in source order. */
  function Chain6(s: string): string {
    ReplaceAll(ReplaceAll(ReplaceAll(ReplaceAll(ReplaceAll(ReplaceAll(s,
      '%', "%25"), '+', "%2B"), '?', "%3F"), '^', "%5E"), ' ', "%20"), '#', "%23")
  }

  /** `escapeFilename`: the six global replacements, the first `$` only, then every `&`. */
  function EscapeFilename(filename: string): string {
    ReplaceAll(ReplaceFirstText(Chain6(filename), "$", "%24"), '&', "%26")
  }

  /** The characters the output never contains. */
  predicate Unsafe(c: char) {
    c == '+' || c == '?' || c == '^' || c == ' ' || c == '#' || c == '&'
  }

  /** The characters that are escaped, `$` included. */
  predicate Escaped(c: char) {
    c == '%' || c == '$' || Unsafe(c)
  }

  const CODES: seq<string> := ["%25", "%2B", "%3F", "%5E", "%20", "%23", "%24", "%26"]

  /** The escape of an escaped character: `%` and the two hexadecimal digits of its code. */
  function Code(c: char): (r: string)
    requires Escaped(c)
    ensures |r| == 3 && r[0] == '%'
    ensures r[1] != '%' && r[2] != '%' && '$' !in r
    ensures forall k :: 0 <= k < |r| ==> !Unsafe(r[k])
  {
    if c == '%' then "%25"
    else if c == '+' then "%2B"
    else if c == '?' then "%3F"
    else if c == '^' then "%5E"
    else if c == ' ' then "%20"
    else if c == '#' then "%23"
    else if c == '$' then "%24"
    else "%26"
  }

  lemma CodeListed(c: char)
    requires Escaped(c)
    ensures Code(c) in CODES
  {
  }

  /** Every character but `$` as the chain finally leaves it. */
  function Enc(c: char): string {
    if c != '$' && Escaped(c) then Code(c) else [c]
  }

  /** What the one-pass encoder emits for one character: `Enc`, except
      that `$` is escaped while `first` holds. */
  function Head(c: char, first: bool): string {
    if c == '$' && first then Code('$') else Enc(c)
  }

  /** A one-pass encoder to compare the chain with: the first `$` is
      escaped while `first` holds, and `first` ends with it. */
  function Encode(s: string, first: bool): string
    decreases |s|
  {
    if |s| == 0 then "" else Head(s[0], first) + Encode(s[1..], first && s[0] != '$')
  }

  /** Every character by `Enc`, `$` kept. */
  function EncodeAll(s: string): string
    decreases |s|
  {
    if |s| == 0 then "" else Enc(s[0]) + EncodeAll(s[1..])
  }

  /** The escape of one character after the six global replacements. */
  function Enc6(c: char): string {
    if c == '&' then "&" else Enc(c)
  }

  function EncodeAll6(s: string): string
    decreases |s|
  {
    if |s| == 0 then "" else Enc6(s[0]) + EncodeAll6(s[1..])
  }

  lemma Chain6Concat(a: string, b: string)
    ensures Chain6(a + b) == Chain6(a) + Chain6(b)
  {
    var t0 := a + b;
    ReplaceAllConcat(a, b, '%', "%25");
    var a1, b1 := ReplaceAll(a, '%', "%25"), ReplaceAll(b, '%', "%25");
    ReplaceAllConcat(a1, b1, '+', "%2B");
    var a2, b2 := ReplaceAll(a1, '+', "%2B"), ReplaceAll(b1, '+', "%2B");
    ReplaceAllConcat(a2, b2, '?', "%3F");
    var a3, b3 := ReplaceAll(a2, '?', "%3F"), ReplaceAll(b2, '?', "%3F");
    ReplaceAllConcat(a3, b3, '^', "%5E");
    var a4, b4 := ReplaceAll(a3, '^', "%5E"), ReplaceAll(b3, '^', "%5E");
    ReplaceAllConcat(a4, b4, ' ', "%20");
    var a5, b5 := ReplaceAll(a4, ' ', "%20"), ReplaceAll(b4, ' ', "%20");
    ReplaceAllConcat(a5, b5, '#', "%23");
  }

  /** One replacement applied to one character. */
  lemma ReplaceOne(c: char, x: char, rep: string)
    ensures ReplaceAll([c], x, rep) == if c == x then rep else [c]
  {
    assert [c][1..] == [];
  }

  /** A character none of the six replacements touches. */
  lemma Chain6Kept(c: char)
    requires c != '%' && c != '+' && c != '?' && c != '^' && c != ' ' && c != '#'
    ensures Chain6([c]) == [c]
  {
    ReplaceOne(c, '%', "%25");
    ReplaceOne(c, '+', "%2B");
    ReplaceOne(c, '?', "%3F");
    ReplaceOne(c, '^', "%5E");
    ReplaceOne(c, ' ', "%20");
    ReplaceOne(c, '#', "%23");
  }

  /** A text free of the characters the last five (four) replacements look for passes them unchanged. */
  lemma Untouched5(t: string)
    requires '+' !in t && '?' !in t && '^' !in t && ' ' !in t && '#' !in t
    ensures ReplaceAll(ReplaceAll(ReplaceAll(ReplaceAll(ReplaceAll(t, '+', "%2B"), '?', "%3F"), '^', "%5E"), ' ', "%20"), '#', "%23") == t
  {
    ReplaceAllAbsent(t, '+', "%2B");
    Untouched4(t);
  }

  lemma Untouched4(t: string)
    requires '?' !in t && '^' !in t && ' ' !in t && '#' !in t
    ensures ReplaceAll(ReplaceAll(ReplaceAll(ReplaceAll(t, '?', "%3F"), '^', "%5E"), ' ', "%20"), '#', "%23") == t
  {
    ReplaceAllAbsent(t, '?', "%3F");
    ReplaceAllAbsent(t, '^', "%5E");
    ReplaceAllAbsent(t, ' ', "%20");
    ReplaceAllAbsent(t, '#', "%23");
  }

  /** `%` becomes `%25`, and no later replacement touches that. */
  lemma Chain6Percent()
    ensures Chain6("%") == "%25"
  {
    ReplaceOne('%', '%', "%25");
    Untouched5("%25");
  }

  lemma Chain6Plus()
    ensures Chain6("+") == "%2B"
  {
    ReplaceOne('+', '%', "%25");
    ReplaceOne('+', '+', "%2B");
    Untouched4("%2B");
  }

  lemma Chain6Question()
    ensures Chain6("?") == "%3F"
  {
    ReplaceOne('?', '%', "%25");
    ReplaceOne('?', '+', "%2B");
    ReplaceOne('?', '?', "%3F");
    Untouched3("%3F");
  }

  lemma Untouched3(t: string)
    requires '^' !in t && ' ' !in t && '#' !in t
    ensures ReplaceAll(ReplaceAll(ReplaceAll(t, '^', "%5E"), ' ', "%20"), '#', "%23") == t
  {
    ReplaceAllAbsent(t, '^', "%5E");
    ReplaceAllAbsent(t, ' ', "%20");
    ReplaceAllAbsent(t, '#', "%23");
  }

  lemma Chain6Caret()
    ensures Chain6("^") == "%5E"
  {
    ReplaceOne('^', '%', "%25");
    ReplaceOne('^', '+', "%2B");
    ReplaceOne('^', '?', "%3F");
    ReplaceOne('^', '^', "%5E");
    Untouched2("%5E");
  }

  lemma Untouched2(t: string)
    requires ' ' !in t && '#' !in t
    ensures ReplaceAll(ReplaceAll(t, ' ', "%20"), '#', "%23") == t
  {
    ReplaceAllAbsent(t, ' ', "%20");
    ReplaceAllAbsent(t, '#', "%23");
  }

  lemma Chain6Space()
    ensures Chain6(" ") == "%20"
  {
    ReplaceOne(' ', '%', "%25");
    ReplaceOne(' ', '+', "%2B");
    ReplaceOne(' ', '?', "%3F");
    ReplaceOne(' ', '^', "%5E");
    ReplaceOne(' ', ' ', "%20");
    ReplaceAllAbsent("%20", '#', "%23");
  }

  lemma Chain6Hash()
    ensures Chain6("#") == "%23"
  {
    ReplaceOne('#', '%', "%25");
    ReplaceOne('#', '+', "%2B");
    ReplaceOne('#', '?', "%3F");
    ReplaceOne('#', '^', "%5E");
    ReplaceOne('#', ' ', "%20");
    ReplaceOne('#', '#', "%23");
  }

  lemma Chain6Char(c: char)
    ensures Chain6([c]) == Enc6(c)
  {
    if c == '%' { Chain6First(c); }
    else if c == '+' || c == '?' { Chain6Second(c); }
    else if c == '^' || c == ' ' || c == '#' { Chain6Last(c); }
    else { Chain6Kept(c); }
  }

  lemma Chain6First(c: char)
    requires c == '%'
    ensures Chain6([c]) == Enc6(c)
  {
    Chain6Percent();
    assert [c] == "%";
  }

  lemma Chain6Second(c: char)
    requires c == '+' || c == '?'
    ensures Chain6([c]) == Enc6(c)
  {
    if c == '+' { Chain6Plus(); }
    else { Chain6Question(); }
  }

  lemma Chain6Last(c: char)
    requires c == '^' || c == ' ' || c == '#'
    ensures Chain6([c]) == Enc6(c)
  {
    if c == '^' { Chain6Caret(); }
    else if c == ' ' { Chain6Space(); }
    else { Chain6Hash(); }
  }

  /** The six global replacements act character by character. */
  lemma {:induction false} Chain6Map(s: string)
    ensures Chain6(s) == EncodeAll6(s)
    decreases |s|
  {
    if |s| == 0 {
      assert ReplaceAll("", '%', "%25") == "";
    } else {
      assert s == [s[0]] + s[1..];
      Chain6Concat([s[0]], s[1..]);
      Chain6Char(s[0]);
      Chain6Map(s[1..]);
    }
  }

  lemma {:induction false} EncodeAll6Concat(a: string, b: string)
    ensures EncodeAll6(a + b) == EncodeAll6(a) + EncodeAll6(b)
    decreases |a|
  {
    if |a| == 0 {
      assert a + b == b;
    } else {
      assert (a + b)[1..] == a[1..] + b;
      EncodeAll6Concat(a[1..], b);
    }
  }

  /** Only a `$` of the input gives a `$` after the six global replacements. */
  lemma {:induction false} EncodeAll6NoDollar(s: string)
    requires '$' !in s
    ensures '$' !in EncodeAll6(s)
    decreases |s|
  {
    if |s| > 0 {
      EncodeAll6NoDollar(s[1..]);
    }
  }

  /** The final `&` replacement completes every character's escape. */
  lemma {:induction false} AmpersandStep(s: string)
    ensures ReplaceAll(EncodeAll6(s), '&', "%26") == EncodeAll(s)
    decreases |s|
  {
    if |s| > 0 {
      ReplaceAllConcat(Enc6(s[0]), EncodeAll6(s[1..]), '&', "%26");
      if s[0] == '&' {
        ReplaceOne('&', '&', "%26");
      } else {
        ReplaceAllAbsent(Enc6(s[0]), '&', "%26");
      }
      AmpersandStep(s[1..]);
    }
  }

  /** With the first `$` used up, or never there, `Encode` is `EncodeAll`. */
  lemma {:induction false} EncodeLater(s: string)
    ensures Encode(s, false) == EncodeAll(s)
    decreases |s|
  {
    if |s| > 0 {
      EncodeLater(s[1..]);
    }
  }

  lemma {:induction false} EncodeNoDollar(a: string, rest: string)
    requires '$' !in a
    ensures Encode(a + rest, true) == EncodeAll(a) + Encode(rest, true)
    decreases |a|
  {
    if |a| == 0 {
      assert a + rest == rest;
    } else {
      assert (a + rest)[1..] == a[1..] + rest;
      EncodeNoDollar(a[1..], rest);
    }
  }

  /** The replacement without `g`, on a text whose first `$` is known. */
  lemma ReplaceFirstDollar(x: string, y: string, rep: string)
    requires '$' !in x
    ensures ReplaceFirstText(x + "$" + y, "$", rep) == x + rep + y
  {
    var s := x + "$" + y;
    assert s[|x|..][..1] == "$";
    match IndexOf(s, "$")
    case None =>
      assert s[|x|..|x| + 1] == "$";
      ContainsAt(s, "$", |x|);
    case Some(i) =>
      assert s[i..i + 1][0] == s[i];
      assert StartsWith(s[|x|..], "$");
      assert i == |x|;
      assert s[..i] == x && s[i + 1..] == y;
  }

  /** A name without `$`: the `$` step finds nothing. */
  lemma EscapeNoDollar(s: string)
    requires '$' !in s
    ensures EscapeFilename(s) == Encode(s, true)
  {
    Chain6Map(s);
    EncodeAll6NoDollar(s);
    if Contains(EncodeAll6(s), "$") {
      ContainsFirstChar(EncodeAll6(s), "$");
    }
    AmpersandStep(s);
    EncodeNoDollar(s, "");
    assert s + "" == s;
  }

  lemma SixAroundDollar(a: string, b: string)
    ensures Chain6(a + "$" + b) == EncodeAll6(a) + "$" + EncodeAll6(b)
  {
    Chain6Map(a + "$" + b);
    EncodeAll6Concat(a + "$", b);
    EncodeAll6Concat(a, "$");
    assert EncodeAll6("$") == "$";
  }

  lemma AmpersandAroundCode(a: string, b: string)
    ensures ReplaceAll(EncodeAll6(a) + "%24" + EncodeAll6(b), '&', "%26") == EncodeAll(a) + "%24" + EncodeAll(b)
  {
    var x, y := EncodeAll6(a), EncodeAll6(b);
    ReplaceAllConcat(x + "%24", y, '&', "%26");
    ReplaceAllConcat(x, "%24", '&', "%26");
    ReplaceAllAbsent("%24", '&', "%26");
    AmpersandStep(a);
    AmpersandStep(b);
  }

  lemma EncodeAroundDollar(a: string, b: string)
    requires '$' !in a
    ensures Encode(a + "$" + b, true) == EncodeAll(a) + "%24" + EncodeAll(b)
  {
    var t := "$" + b;
    assert a + "$" + b == a + t;
    EncodeNoDollar(a, t);
    EncodeDollarFirst(b);
    assert EncodeAll(a) + ("%24" + EncodeAll(b)) == EncodeAll(a) + "%24" + EncodeAll(b);
  }

  /** A leading `$` is the one escaped; the rest is encoded with `$` kept. */
  lemma EncodeDollarFirst(b: string)
    ensures Encode("$" + b, true) == "%24" + EncodeAll(b)
  {
    var t := "$" + b;
    assert t[0] == '$' && t[1..] == b;
    assert Head('$', true) == "%24";
    EncodeLater(b);
  }

  /** A name whose first `$` follows `a`: that one is escaped, later ones are kept. */
  lemma EscapeFirstDollar(a: string, b: string)
    requires '$' !in a
    ensures EscapeFilename(a + "$" + b) == Encode(a + "$" + b, true)
  {
    SixAroundDollar(a, b);
    EncodeAll6NoDollar(a);
    ReplaceFirstDollar(EncodeAll6(a), EncodeAll6(b), "%24");
    AmpersandAroundCode(a, b);
    EncodeAroundDollar(a, b);
  }

  /** The chain computes the one-pass encoder. */
  lemma EscapeMatchesEncode(s: string)
    ensures EscapeFilename(s) == Encode(s, true)
  {
    match IndexOf(s, "$")
    case None =>
      forall k | 0 <= k < |s| ensures s[k] != '$' {
        if s[k] == '$' {
          assert s[k..k + 1] == "$";
          ContainsAt(s, "$", k);
        }
      }
      EscapeNoDollar(s);
    case Some(i) =>
      var a, b := s[..i], s[i + 1..];
      assert s == a + "$" + b;
      forall k | 0 <= k < |a| ensures a[k] != '$' {
        assert !StartsWith(s[k..], "$");
        assert s[k..][..1] == [a[k]];
      }
      EscapeFirstDollar(a, b);
  }

  /** Every `%` in `r` starts one of the eight escapes. */
  predicate PercentsEscape(r: string) {
    forall k :: 0 <= k < |r| && r[k] == '%' ==> k + 3 <= |r| && r[k..k + 3] in CODES
  }

  lemma PercentsEscapeCons(a: string, b: string)
    requires (|a| == 1 && a[0] != '%') || (|a| == 3 && a in CODES && a[1] != '%' && a[2] != '%')
    requires PercentsEscape(b)
    ensures PercentsEscape(a + b)
  {
    var r := a + b;
    forall k | 0 <= k < |r| && r[k] == '%' ensures k + 3 <= |r| && r[k..k + 3] in CODES {
      if k < |a| {
        assert r[k] == a[k];
        assert r[..3] == a;
      } else {
        assert r[k] == b[k - |a|];
        assert r[k..k + 3] == b[k - |a|..k - |a| + 3];
      }
    }
  }

  /** The escapes go first: the output has no unsafe character, and every `%` in it begins an escape. */
  lemma {:induction false} EncodeSafe(s: string, first: bool)
    ensures var r := Encode(s, first);
      (forall k :: 0 <= k < |r| ==> !Unsafe(r[k])) && PercentsEscape(r)
    decreases |s|
  {
    if |s| > 0 {
      var next := first && s[0] != '$';
      EncodeSafe(s[1..], next);
      var head, tail := Head(s[0], first), Encode(s[1..], next);
      assert Encode(s, first) == head + tail;
      if head != [s[0]] {
        CodeListed(s[0]);
      }
      PercentsEscapeCons(head, tail);
      var r := head + tail;
      forall k | 0 <= k < |r| ensures !Unsafe(r[k]) {
        if k >= |head| {
          assert r[k] == tail[k - |head|];
        }
      }
    }
  }

  lemma EscapeSafe(s: string)
    ensures var r := EscapeFilename(s);
      (forall k :: 0 <= k < |r| ==> !Unsafe(r[k])) && PercentsEscape(r)
  {
    EscapeMatchesEncode(s);
    EncodeSafe(s, true);
  }

  /** A name with nothing to escape passes through unchanged. */
  lemma {:induction false} EncodePlain(s: string)
    requires forall k :: 0 <= k < |s| ==> !Escaped(s[k])
    ensures Encode(s, true) == s
    decreases |s|
  {
    if |s| > 0 {
      EncodePlain(s[1..]);
      assert s == [s[0]] + s[1..];
    }
  }

  lemma EscapePlain(s: string)
    requires forall k :: 0 <= k < |s| ==> !Escaped(s[k])
    ensures EscapeFilename(s) == s
  {
    EscapeMatchesEncode(s);
    EncodePlain(s);
  }

  lemma HeadDollars(c: char, first: bool)
    ensures multiset(Head(c, first))['$'] == if c == '$' && !first then 1 else 0
  {
    var h := Head(c, first);
    if c != '$' && !Escaped(c) {
      assert h == [c];
    } else if c == '$' && !first {
      assert h == ['$'];
    } else {
      assert '$' !in h;
    }
  }

  /** Only the first `$` is escaped: one `$` fewer comes out than went in. */
  lemma {:induction false} EncodeDollars(s: string, first: bool)
    ensures multiset(Encode(s, first))['$'] ==
      if first && '$' in s then multiset(s)['$'] - 1 else multiset(s)['$']
    decreases |s|
  {
    if |s| > 0 {
      assert s == [s[0]] + s[1..];
      var next := first && s[0] != '$';
      EncodeDollars(s[1..], next);
      var head := Head(s[0], first);
      assert Encode(s, first) == head + Encode(s[1..], next);
      assert multiset(s) == multiset([s[0]]) + multiset(s[1..]);
      assert multiset(Encode(s, first)) == multiset(head) + multiset(Encode(s[1..], next));
      HeadDollars(s[0], first);
    }
  }

  lemma EscapeDollars(s: string)
    ensures var r := EscapeFilename(s);
      ('$' in s ==> multiset(r)['$'] == multiset(s)['$'] - 1) && ('$' !in s ==> '$' !in r)
  {
    EscapeMatchesEncode(s);
    EncodeDollars(s, true);
  }

  /** An escape decodes to its character. */
  lemma DecodeCode(c: char, rest: string)
    requires Escaped(c)
    ensures PercentDecode(Code(c) + rest) ==
      if PercentDecode(rest).Some? then Some([c] + PercentDecode(rest).value) else None
  {
    var r := Code(c);
    CodeHex(c);
    DecodeEscape(r[1], r[2], rest);
    assert r == ['%', r[1], r[2]];
  }

  /** The two digits of an escape spell its character's code. */
  lemma CodeHex(c: char)
    requires Escaped(c)
    ensures var r := Code(c);
      IsHexDigit(r[1]) && IsHexDigit(r[2]) && 16 * HexValue(r[1]) + HexValue(r[2]) == c as int
  {
    if c == '%' || c == '+' || c == '?' || c == '^' { CodeHexFirst(c); }
    else { CodeHexLast(c); }
  }

  lemma CodeHexFirst(c: char)
    requires c == '%' || c == '+' || c == '?' || c == '^'
    ensures Escaped(c)
    ensures var r := Code(c);
      IsHexDigit(r[1]) && IsHexDigit(r[2]) && 16 * HexValue(r[1]) + HexValue(r[2]) == c as int
  {
  }

  lemma CodeHexLast(c: char)
    requires c == ' ' || c == '#' || c == '$' || c == '&'
    ensures Escaped(c)
    ensures var r := Code(c);
      IsHexDigit(r[1]) && IsHexDigit(r[2]) && 16 * HexValue(r[1]) + HexValue(r[2]) == c as int
  {
  }

  /** Decoding undoes the encoder, whichever `$` it escaped. */
  lemma {:induction false} DecodeEncode(s: string, first: bool)
    ensures PercentDecode(Encode(s, first)) == Some(s)
    decreases |s|
  {
    if |s| > 0 {
      var next := first && s[0] != '$';
      DecodeEncode(s[1..], next);
      var rest := Encode(s[1..], next);
      assert Encode(s, first) == Head(s[0], first) + rest;
      assert s == [s[0]] + s[1..];
      if Head(s[0], first) == [s[0]] {
        DecodeCons(s[0], rest);
      } else {
        DecodeCode(s[0], rest);
      }
    }
  }

  /** Percent-decoding the escaped name gives the name back. */
  lemma EscapeRoundTrip(s: string)
    ensures PercentDecode(EscapeFilename(s)) == Some(s)
  {
    EscapeMatchesEncode(s);
    DecodeEncode(s, true);
  }
}
