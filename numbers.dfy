/** Decimal numerals: rendering (Kotlin string templates, JavaScript
    template literals), Kotlin's `toLongOrNull`, JavaScript's `parseInt`
    with radix 10, 64-bit wrap-around and JavaScript's NaN-propagating
    arithmetic on the integers the range code handles. */
module Numbers {
  import opened Text

  const LONG_MIN: int := -0x8000_0000_0000_0000
  const LONG_MAX: int := 0x7FFF_FFFF_FFFF_FFFF

  predicate IsDigit(c: char) {
    '0' <= c <= '9'
  }

  predicate AllDigits(s: string) {
    forall i :: 0 <= i < |s| ==> IsDigit(s[i])
  }

  function DigitChar(d: nat): char
    requires d < 10
  {
    ('0' as int + d) as char
  }

  /** The value of a string of decimal digits, most significant first. */
  function DigitsValue(s: string): nat
    requires AllDigits(s)
    decreases |s|
  {
    if |s| == 0 then 0 else DigitsValue(s[..|s| - 1]) * 10 + (s[|s| - 1] as int - '0' as int)
  }

  /** Decimal rendering of a natural number: a non-empty digit string,
      without leading zeros, whose value is the number. */
  function NatToString(n: nat): (r: string)
    ensures |r| >= 1 && AllDigits(r) && DigitsValue(r) == n
    ensures r[0] == '0' ==> n == 0
    decreases n
  {
    if n < 10 then [DigitChar(n)]
    else
      var prefix := NatToString(n / 10);
      var r := prefix + [DigitChar(n % 10)];
      assert r[..|r| - 1] == prefix;
      r
  }

  /** Decimal rendering of an integer, as `Long.toString()` and JavaScript print it. */
  function IntToString(n: int): string {
    if n < 0 then "-" + NatToString(-n) else NatToString(n)
  }

  /** Kotlin's `String.toLongOrNull()` (radix 10) on ASCII digits: an optional
      sign, at least one digit, and a value inside the 64-bit range. */
  function ParseLong(s: string): (r: Option<int>)
    ensures r.Some? ==> LONG_MIN <= r.value <= LONG_MAX
    ensures r.Some? ==> |s| >= 1 && (AllDigits(s) || ((s[0] == '+' || s[0] == '-') && AllDigits(s[1..])))
  {
    if |s| == 0 then None
    else if s[0] == '+' || s[0] == '-' then
      if |s| == 1 || !AllDigits(s[1..]) then None
      else
        var v: int := if s[0] == '-' then -(DigitsValue(s[1..]) as int) else DigitsValue(s[1..]);
        if LONG_MIN <= v <= LONG_MAX then Some(v) else None
    else if !AllDigits(s) then None
    else if DigitsValue(s) <= LONG_MAX then Some(DigitsValue(s))
    else None
  }

  /** Every Long's decimal text parses back to it. */
  lemma ParseLongNatToString(n: nat)
    requires n <= LONG_MAX
    ensures ParseLong(NatToString(n)) == Some(n)
  {
    var s := NatToString(n);
    assert IsDigit(s[0]);
  }

  /** A text without a minus sign never parses to a negative Long. */
  lemma ParseLongNoMinus(s: string)
    requires '-' !in s
    ensures ParseLong(s).Some? ==> ParseLong(s).value >= 0
  {
    if |s| > 0 {
      assert s[0] != '-';
    }
  }

  /** Two's-complement wrap-around of a Kotlin `Long` operation. */
  function Wrap64(x: int): (r: int)
    ensures LONG_MIN <= r <= LONG_MAX
    ensures LONG_MIN <= x <= LONG_MAX ==> r == x
    ensures (r - x) % 0x1_0000_0000_0000_0000 == 0
  {
    var m := (x - LONG_MIN) % 0x1_0000_0000_0000_0000;
    m + LONG_MIN
  }

  /** Just above the largest Long, the sum wraps round to the negative end. */
  lemma WrapAboveMax(x: int)
    requires LONG_MAX < x <= LONG_MAX + 0x1_0000_0000_0000_0000
    ensures Wrap64(x) == x - 0x1_0000_0000_0000_0000
  {
    var d := x - LONG_MIN;
    assert d == 0x1_0000_0000_0000_0000 + (d - 0x1_0000_0000_0000_0000);
    assert d % 0x1_0000_0000_0000_0000 == d - 0x1_0000_0000_0000_0000;
  }

  /** A JavaScript number as the range code sees it: an integer or NaN
      (integers above 2^53 are not rounded in this model). */
  datatype JsNum = Num(v: int) | NaN {
    function Plus(k: int): JsNum {
      if Num? then Num(v + k) else NaN
    }
    function Minus(other: JsNum): JsNum {
      if Num? && other.Num? then Num(v - other.v) else NaN
    }
  }

  /** `Math.min` of two JavaScript numbers; NaN wins. */
  function JsMin(a: JsNum, b: JsNum): (r: JsNum)
    ensures r.NaN? <==> a.NaN? || b.NaN?
    ensures r.Num? ==> r.v <= a.v && r.v <= b.v && (r.v == a.v || r.v == b.v)
  {
    if a.NaN? || b.NaN? then NaN else if a.v <= b.v then a else b
  }

  /** A JavaScript number printed in a template literal. */
  function JsNumToString(x: JsNum): string {
    if x.NaN? then "NaN" else IntToString(x.v)
  }

  /** Length of the longest run of digits at the start of `s`. */
  function DigitPrefixLength(s: string): (n: nat)
    ensures n <= |s| && AllDigits(s[..n])
    ensures n < |s| ==> !IsDigit(s[n])
    decreases |s|
  {
    if |s| == 0 || !IsDigit(s[0]) then 0
    else
      var k := DigitPrefixLength(s[1..]);
      assert s[..k + 1] == [s[0]] + s[1..][..k];
      k + 1
  }

  /** Length of the run of JavaScript whitespace at the start of `s`. */
  function WhitespacePrefixLength(s: string): (n: nat)
    ensures n <= |s| && (n < |s| ==> !JsWhitespace(s[n]))
    ensures forall i :: 0 <= i < n ==> JsWhitespace(s[i])
    decreases |s|
  {
    if |s| == 0 || !JsWhitespace(s[0]) then 0 else 1 + WhitespacePrefixLength(s[1..])
  }

  /** JavaScript's `parseInt(s, 10)`: leading whitespace skipped, an optional
      sign, then the longest run of decimal digits; NaN when there is none. */
  function JsParseInt(s: string): (r: JsNum)
    ensures AllDigits(s) && |s| >= 1 ==> r == Num(DigitsValue(s))
  {
    var t := s[WhitespacePrefixLength(s)..];
    var negative := |t| > 0 && t[0] == '-';
    var body := if |t| > 0 && (t[0] == '-' || t[0] == '+') then t[1..] else t;
    var n := DigitPrefixLength(body);
    assert AllDigits(s) && |s| >= 1 ==> !JsWhitespace(s[0]) && t == s && body == s && n == |s| && body[..n] == s;
    if n == 0 then NaN
    else if negative then Num(-(DigitsValue(body[..n]) as int))
    else Num(DigitsValue(body[..n]))
  }
}
