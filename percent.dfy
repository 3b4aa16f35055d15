/** Percent-decoding as section 2.1 of RFC 3986 defines the encoding: `%`
    followed by two hexadecimal digits stands for the octet they spell;
    JavaScript's `decodeURIComponent` throws a URIError on a `%` without
    two hexadecimal digits after it. Only octets below 0x80 (ASCII
    characters) are decoded here. */
module PercentCoding {
  import opened Text

  predicate IsHexDigit(c: char) {
    ('0' <= c <= '9') || ('a' <= c <= 'f') || ('A' <= c <= 'F')
  }

  function HexValue(c: char): (v: nat)
    requires IsHexDigit(c)
    ensures v < 16
  {
    if '0' <= c <= '9' then c as int - '0' as int
    else if 'a' <= c <= 'f' then c as int - 'a' as int + 10
    else c as int - 'A' as int + 10
  }

  /** The octet a `%` escape at the start of `s` spells, if there is a well-formed one. */
  function EscapedOctet(s: string): Option<nat>
    requires |s| > 0 && s[0] == '%'
  {
    if |s| >= 3 && IsHexDigit(s[1]) && IsHexDigit(s[2]) then Some(16 * HexValue(s[1]) + HexValue(s[2])) else None
  }

  /** `decodeURIComponent`: every escape replaced by its character, every
      other character kept; None where it throws. */
  function PercentDecode(s: string): (r: Option<string>)
    ensures '%' !in s ==> r == Some(s)
    decreases |s|
  {
    if |s| == 0 then Some("")
    else if s[0] != '%' then
      match PercentDecode(s[1..])
      case None => None
      case Some(rest) =>
        assert s == [s[0]] + s[1..];
        Some([s[0]] + rest)
    else
      match EscapedOctet(s)
      case None => None
      case Some(octet) =>
        if octet >= 0x80 then None
        else match PercentDecode(s[3..])
          case None => None
          case Some(rest) => Some([octet as char] + rest)
  }

  /** A lone `%`, or one followed by something other than two hexadecimal digits, throws. */
  lemma MalformedEscape(rest: string)
    ensures PercentDecode("%") == None
    ensures PercentDecode("%zz" + rest) == None
  {
    assert ("%zz" + rest)[0] == '%' && ("%zz" + rest)[1] == 'z';
  }

  /** Decoding a plain prefix: the character stays and decoding goes on behind it. */
  lemma DecodeCons(c: char, rest: string)
    requires c != '%'
    ensures PercentDecode([c] + rest) == (if PercentDecode(rest).Some? then Some([c] + PercentDecode(rest).value) else None)
  {
    assert ([c] + rest)[1..] == rest;
  }

  /** Decoding a well-formed escape of an ASCII octet at the front. */
  lemma DecodeEscape(x: char, y: char, rest: string)
    requires IsHexDigit(x) && IsHexDigit(y) && 16 * HexValue(x) + HexValue(y) < 0x80
    ensures PercentDecode(['%', x, y] + rest) ==
      (if PercentDecode(rest).Some? then Some([(16 * HexValue(x) + HexValue(y)) as char] + PercentDecode(rest).value) else None)
  {
    var s := ['%', x, y] + rest;
    assert s[0] == '%' && s[1] == x && s[2] == y && s[3..] == rest;
    assert EscapedOctet(s) == Some(16 * HexValue(x) + HexValue(y));
  }
}
