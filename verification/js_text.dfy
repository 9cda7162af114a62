/** The pieces of ECMAScript string handling the page script relies on:
    `String.prototype.trim`, `parseInt(s, 10)` and `String(n)` for integers.
    Strings are sequences of Unicode scalar values (JavaScript's UTF-16 code
    units are not modelled separately). */
module JsText {
  import opened Wrappers

  /** WhiteSpace and LineTerminator code points (sections 12.2 and 12.3 of
      ECMA-262): the characters both `trim` and `parseInt` skip. */
  predicate IsWhitespace(c: char) {
    || c == '\t' || c == '\U{000B}' || c == '\U{000C}' || c == ' '
    || c == '\U{00A0}' || c == '\U{FEFF}' || c == '\U{1680}'
    || ('\U{2000}' <= c <= '\U{200A}')
    || c == '\U{202F}' || c == '\U{205F}' || c == '\U{3000}'
    || c == '\n' || c == '\r' || c == '\U{2028}' || c == '\U{2029}'
  }

  predicate AllWhitespace(s: string) {
    forall i :: 0 <= i < |s| ==> IsWhitespace(s[i])
  }

  /** A radix-10 digit as `parseInt` reads it. */
  predicate IsDigit(c: char) {
    '0' <= c <= '9'
  }

  predicate AllDigits(s: string) {
    forall i :: 0 <= i < |s| ==> IsDigit(s[i])
  }

  /** Leading whitespace removed: the longest whitespace prefix is dropped. */
  function TrimStart(s: string): (r: string)
    ensures |r| <= |s| && r == s[|s| - |r|..]
    ensures forall i :: 0 <= i < |s| - |r| ==> IsWhitespace(s[i])
    ensures r == [] || !IsWhitespace(r[0])
  {
    if |s| > 0 && IsWhitespace(s[0]) then TrimStart(s[1..]) else s
  }

  /** Trailing whitespace removed: the longest whitespace suffix is dropped. */
  function TrimEnd(s: string): (r: string)
    ensures |r| <= |s| && r == s[..|r|]
    ensures forall i :: |r| <= i < |s| ==> IsWhitespace(s[i])
    ensures r == [] || !IsWhitespace(r[|r| - 1])
  {
    if |s| > 0 && IsWhitespace(s[|s| - 1]) then TrimEnd(s[..|s| - 1]) else s
  }

  /** `String.prototype.trim`. */
  function Trim(s: string): (r: string)
    ensures |r| <= |s|
    ensures r == [] || (!IsWhitespace(r[0]) && !IsWhitespace(r[|r| - 1]))
    ensures r == [] ==> AllWhitespace(s)
  {
    TrimEnd(TrimStart(s))
  }

  /** Whitespace padding on both sides of a string with non-whitespace ends
      is exactly what `trim` removes. */
  lemma {:induction false} TrimOfPadded(left: string, s: string, right: string)
    requires AllWhitespace(left) && AllWhitespace(right)
    requires s == [] || (!IsWhitespace(s[0]) && !IsWhitespace(s[|s| - 1]))
    requires s == [] ==> right == []
    ensures Trim(left + s + right) == s
  {
    var tail := s + right;
    assert left + s + right == left + tail;
    if s == [] {
      assert tail == [];
    } else {
      assert tail[0] == s[0];
    }
    TrimStartOfPadded(left, tail);
    TrimEndOfPadded(s, right);
  }

  lemma {:induction false} TrimStartOfPadded(ws: string, s: string)
    requires AllWhitespace(ws)
    requires s == [] || !IsWhitespace(s[0])
    ensures TrimStart(ws + s) == s
    decreases |ws|
  {
    if ws != [] {
      assert (ws + s)[1..] == ws[1..] + s;
      TrimStartOfPadded(ws[1..], s);
    } else {
      assert ws + s == s;
    }
  }

  lemma {:induction false} TrimEndOfPadded(s: string, ws: string)
    requires AllWhitespace(ws)
    requires s == [] || !IsWhitespace(s[|s| - 1])
    requires s == [] ==> ws == []
    ensures TrimEnd(s + ws) == s
    decreases |ws|
  {
    if ws != [] {
      assert (s + ws)[..|s + ws| - 1] == s + ws[..|ws| - 1];
      TrimEndOfPadded(s, ws[..|ws| - 1]);
    } else {
      assert s + ws == s;
    }
  }

  /** The longest prefix of radix-10 digits. */
  function LeadingDigits(s: string): (d: string)
    ensures |d| <= |s| && d == s[..|d|]
    ensures AllDigits(d)
    ensures |d| == |s| || !IsDigit(s[|d|])
  {
    if |s| > 0 && IsDigit(s[0]) then [s[0]] + LeadingDigits(s[1..]) else []
  }

  lemma {:induction false} LeadingDigitsOfDigitsThen(d: string, rest: string)
    requires AllDigits(d)
    requires rest == [] || !IsDigit(rest[0])
    ensures LeadingDigits(d + rest) == d
    decreases |d|
  {
    if d != [] {
      assert (d + rest)[1..] == d[1..] + rest;
      LeadingDigitsOfDigitsThen(d[1..], rest);
    } else {
      assert d + rest == rest;
    }
  }

  function DigitValue(c: char): (n: nat)
    requires IsDigit(c)
    ensures n < 10
  {
    c as int - '0' as int
  }

  function DigitChar(n: nat): (c: char)
    requires n < 10
    ensures IsDigit(c) && DigitValue(c) == n
  {
    ('0' as int + n) as char
  }

  /** The mathematical value of a digit string, most significant digit first. */
  function DigitsValue(d: string): nat
    requires AllDigits(d)
  {
    if d == [] then 0 else 10 * DigitsValue(d[..|d| - 1]) + DigitValue(d[|d| - 1])
  }

  /** `parseInt(s, 10)` (section 19.2.5 of ECMA-262): skip leading whitespace,
      read an optional sign, then the longest digit prefix; `None` is `NaN`.
      The result is `-0` for "-0", which equals 0 here. */
  function ParseInt(s: string): Option<int> {
    ParseSigned(TrimStart(s))
  }

  /** One leading "-" negates, one leading "+" is dropped. */
  function ParseSigned(t: string): Option<int> {
    if |t| > 0 && t[0] == '-' then
      match ParseDigits(t[1..])
      case None => None
      case Some(m) => Some(-m)
    else if |t| > 0 && t[0] == '+' then ParseDigits(t[1..])
    else ParseDigits(t)
  }

  /** The value of the leading digits, `None` when there are none. */
  function ParseDigits(body: string): Option<int> {
    var digits := LeadingDigits(body);
    if digits == [] then None else Some(DigitsValue(digits))
  }

  /** A sign `parseInt` accepts in front of the digits: none, "+" or "-". */
  predicate IsSign(sign: string) {
    sign == [] || sign == "+" || sign == "-"
  }

  function SignOf(sign: string): int {
    if sign == "-" then -1 else 1
  }

  /** Whatever follows the leading integer is ignored: whitespace, a sign,
      digits, then anything that does not start with a digit. */
  lemma ParseIntOfPrefix(ws: string, sign: string, digits: string, rest: string)
    requires AllWhitespace(ws) && IsSign(sign)
    requires digits != [] && AllDigits(digits)
    requires rest == [] || !IsDigit(rest[0])
    ensures ParseInt(ws + sign + digits + rest) == Some(SignOf(sign) * DigitsValue(digits))
  {
    var body := digits + rest;
    assert ws + sign + digits + rest == ws + (sign + body);
    TrimStartOfPadded(ws, sign + body);
    LeadingDigitsOfDigitsThen(digits, rest);
    assert ParseDigits(body) == Some(DigitsValue(digits));
    ParseSignedOf(sign, body);
  }

  lemma ParseSignedOf(sign: string, body: string)
    requires IsSign(sign)
    requires sign == [] ==> body == [] || (body[0] != '+' && body[0] != '-')
    ensures ParseSigned(sign + body) == (match ParseDigits(body)
                                         case None => None
                                         case Some(m) => Some(SignOf(sign) * m))
  {
    if sign != [] {
      assert (sign + body)[1..] == body;
    } else {
      assert sign + body == body;
    }
  }

  /** `parseInt` is `NaN` when no digit follows the whitespace and the
      optional sign. */
  lemma ParseIntNoDigits(ws: string, sign: string, rest: string)
    requires AllWhitespace(ws) && IsSign(sign)
    requires rest == [] || !IsDigit(rest[0])
    requires sign == [] ==> rest == [] || (!IsWhitespace(rest[0]) && rest[0] != '+' && rest[0] != '-')
    ensures ParseInt(ws + sign + rest) == None
  {
    assert ws + sign + rest == ws + (sign + rest);
    TrimStartOfPadded(ws, sign + rest);
    assert LeadingDigits(rest) == [];
    ParseSignedOf(sign, rest);
  }

  /** `String(n)` for a non-negative integer. */
  function NatToString(n: nat): string {
    if n < 10 then [DigitChar(n)] else NatToString(n / 10) + [DigitChar(n % 10)]
  }

  /** `String(n)` writes the decimal digits of `n`, without leading zeros. */
  lemma {:induction false} NatToStringDigits(n: nat)
    ensures var s := NatToString(n);
      && s != [] && AllDigits(s)
      && DigitsValue(s) == n
      && (|s| > 1 ==> s[0] != '0')
  {
    if n >= 10 {
      var s := NatToString(n);
      var prefix := NatToString(n / 10);
      NatToStringDigits(n / 10);
      assert s == prefix + [DigitChar(n % 10)];
      assert s[..|s| - 1] == prefix;
    }
  }

  /** `String(n)` for an integer of magnitude at most 2^53: a "-" for a
      negative `n`, then the digits of its magnitude. */
  function IntToString(n: int): string {
    if n < 0 then "-" + NatToString(-n) else NatToString(n)
  }

  /** `String(n)` ends in a digit, and its only non-digit is a leading "-"
      for a negative `n`. */
  lemma IntToStringShape(n: int)
    ensures var s := IntToString(n);
      && s != [] && IsDigit(s[|s| - 1])
      && (n >= 0 ==> AllDigits(s))
      && (n < 0 ==> s[0] == '-' && AllDigits(s[1..]))
  {
    var m: nat := if n < 0 then -n else n;
    NatToStringDigits(m);
    if n < 0 {
      assert IntToString(n)[1..] == NatToString(m);
    }
  }

  /** `parseInt` reads back what `String` wrote, whatever non-digit text
      follows it. */
  lemma ParseIntOfIntToString(n: int, rest: string)
    requires rest == [] || !IsDigit(rest[0])
    ensures ParseInt(IntToString(n) + rest) == Some(n)
  {
    var sign := if n < 0 then "-" else [];
    var m: nat := if n < 0 then -n else n;
    assert IntToString(n) == sign + NatToString(m);
    ParseIntOfSignedDigits(sign, m, rest);
  }

  lemma ParseIntOfSignedDigits(sign: string, m: nat, rest: string)
    requires IsSign(sign)
    requires rest == [] || !IsDigit(rest[0])
    ensures ParseInt(sign + NatToString(m) + rest) == Some(SignOf(sign) * m)
  {
    var digits := NatToString(m);
    NatToStringDigits(m);
    var text := sign + digits + rest;
    assert [] + sign + digits + rest == text;
    ParseIntOfPrefix([], sign, digits, rest);
    assert ParseInt(text) == Some(SignOf(sign) * DigitsValue(digits));
  }
}
