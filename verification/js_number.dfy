/**
 The two number conversions the server relies on: the global `parseInt(text)` with no radix
 argument, as the ECMAScript standard defines it (section 19.2.5 of ECMA-262), and the
 rendering of an integral Number inside a template literal (`${n}`).

 Numbers are unbounded integers here; JavaScript's double precision is not modelled.
 */
module JsNumber {
  import opened Wrappers

  /** StrWhiteSpaceChar: every WhiteSpace code point (tab, vertical tab, form feed, the
      zero-width no-break space and each space separator of category Zs) and every
      LineTerminator (line feed, carriage return, line and paragraph separators). */
  predicate IsSpace(c: char) {
    var u := c as int;
    u == 0x09 || u == 0x0A || u == 0x0B || u == 0x0C || u == 0x0D || u == 0x20
    || u == 0xA0 || u == 0x1680 || (0x2000 <= u <= 0x200A) || u == 0x2028 || u == 0x2029
    || u == 0x202F || u == 0x205F || u == 0x3000 || u == 0xFEFF
  }

  /** The value of `c` as a digit of radix up to 36, or 36 when `c` is no digit at all. */
  function DigitValue(c: char): (d: nat)
    ensures d <= 36
  {
    if '0' <= c <= '9' then c as int - '0' as int
    else if 'a' <= c <= 'z' then c as int - 'a' as int + 10
    else if 'A' <= c <= 'Z' then c as int - 'A' as int + 10
    else 36
  }

  predicate IsDigit(c: char, radix: nat) {
    DigitValue(c) < radix
  }

  predicate IsDecimalDigit(c: char) {
    '0' <= c <= '9'
  }

  /** `s` without its leading white space. */
  function TrimStart(s: string): (t: string)
    ensures t == [] || !IsSpace(t[0])
  {
    if s != [] && IsSpace(s[0]) then TrimStart(s[1..]) else s
  }

  /** Number of leading radix-`radix` digits of `s`. */
  function DigitRun(s: string, radix: nat): (n: nat)
    ensures n <= |s|
    ensures forall i :: 0 <= i < n ==> IsDigit(s[i], radix)
    ensures n < |s| ==> !IsDigit(s[n], radix)
  {
    if s == [] || !IsDigit(s[0], radix) then 0 else 1 + DigitRun(s[1..], radix)
  }

  /** The mathematical value of a digit string, most significant digit first. */
  function Value(ds: string, radix: nat): nat {
    if ds == [] then 0
    else Value(ds[..|ds| - 1], radix) * radix + DigitValue(ds[|ds| - 1])
  }

  /** `parseInt(s)`: skip leading white space, take an optional sign, then read the
      magnitude; no digits is NaN. */
  function ParseInt(s: string): Option<int> {
    ParseSigned(TrimStart(s))
  }

  function ParseSigned(t: string): Option<int> {
    if t != [] && t[0] == '-' then
      match ParseMagnitude(t[1..])
      case Some(m) => Some(-(m as int))
      case None => None
    else if t != [] && t[0] == '+' then ParseMagnitude(t[1..])
    else ParseMagnitude(t)
  }

  /** Radix 16 after a "0x" or "0X" prefix, else radix 10; then the longest run of digits. */
  function ParseMagnitude(u: string): Option<nat> {
    var hex := |u| >= 2 && u[0] == '0' && (u[1] == 'x' || u[1] == 'X');
    var radix := if hex then 16 else 10;
    var body := if hex then u[2..] else u;
    var n := DigitRun(body, radix);
    if n == 0 then None else Some(Value(body[..n], radix))
  }

  function DigitChar(d: nat): (c: char)
    requires d < 10
    ensures IsDecimalDigit(c) && DigitValue(c) == d
  {
    ('0' as int + d) as char
  }

  /** Every character of `s` is a decimal digit. */
  predicate AllDecimal(s: string) {
    forall i :: 0 <= i < |s| ==> IsDecimalDigit(s[i])
  }

  /** Decimal digits of `n` without leading zeros. */
  function NatToString(n: nat): (s: string)
    ensures |s| > 0
    ensures AllDecimal(s)
    ensures s[0] == '0' <==> n == 0
  {
    if n < 10 then [DigitChar(n)] else NatToString(n / 10) + [DigitChar(n % 10)]
  }

  /** `${n}` for an integral Number: a minus sign for negatives, then the decimal digits. */
  function IntToString(n: int): (s: string)
    ensures |s| > 0
  {
    if n < 0 then "-" + NatToString(-n) else NatToString(n)
  }

  /** A rendered integer holds no space, so it is one word of a line. */
  lemma IntToStringHasNoSpace(n: int)
    ensures ' ' !in IntToString(n)
  {
    var d := NatToString(if n < 0 then -n else n);
    assert forall i :: 0 <= i < |d| ==> IsDecimalDigit(d[i]);
  }

  /** Reading the digits back yields the number written. */
  lemma {:induction false} ValueOfNatToString(n: nat)
    ensures Value(NatToString(n), 10) == n
  {
    if n >= 10 {
      var s := NatToString(n);
      assert s[..|s| - 1] == NatToString(n / 10);
      ValueOfNatToString(n / 10);
    }
  }

  /** A run of digits followed by a non-digit is read up to the non-digit exactly. */
  lemma {:induction false} DigitRunOfDigits(p: string, rest: string, radix: nat)
    requires forall i :: 0 <= i < |p| ==> IsDigit(p[i], radix)
    requires rest == [] || !IsDigit(rest[0], radix)
    ensures DigitRun(p + rest, radix) == |p|
  {
    if p != [] {
      assert (p + rest)[1..] == p[1..] + rest;
      DigitRunOfDigits(p[1..], rest, radix);
    }
  }

  /** `parseInt` stops at the first character that cannot continue the number, so a
      rendered integer followed by any such text reads back as that integer
      ("12abc" is 12). After a lone "0" an "x" would start a hexadecimal prefix. */
  lemma ParseIntOfRendered(n: int, rest: string)
    requires rest == [] || !IsDecimalDigit(rest[0])
    requires n == 0 && rest != [] ==> rest[0] != 'x' && rest[0] != 'X'
    ensures ParseInt(IntToString(n) + rest) == Some(n)
  {
    if n < 0 {
      RenderedNegative(n, rest);
    } else {
      RenderedNonNegative(n, rest);
    }
  }

  lemma RenderedNegative(n: int, rest: string)
    requires n < 0
    requires rest == [] || !IsDecimalDigit(rest[0])
    ensures ParseInt(IntToString(n) + rest) == Some(n)
  {
    var m: nat := -n;
    var u := NatToString(m) + rest;
    assert IntToString(n) + rest == "-" + u by {
      NegativeText(n, rest);
    }
    assert ParseInt("-" + u) == Some(n) by {
      NegativeRendered(m, rest);
    }
  }

  lemma NegativeRendered(m: nat, rest: string)
    requires rest == [] || !IsDecimalDigit(rest[0])
    requires m == 0 && rest != [] ==> rest[0] != 'x' && rest[0] != 'X'
    ensures ParseInt("-" + (NatToString(m) + rest)) == Some(-(m as int))
  {
    MagnitudeOfRendered(m, rest);
    NegativeSign(NatToString(m) + rest, m);
  }

  lemma NegativeText(n: int, rest: string)
    requires n < 0
    ensures IntToString(n) + rest == "-" + (NatToString(-n) + rest)
  {
    assert IntToString(n) == "-" + NatToString(-n);
  }

  /** A minus sign in front of a magnitude negates it. */
  lemma NegativeSign(u: string, m: nat)
    requires ParseMagnitude(u) == Some(m)
    ensures ParseInt("-" + u) == Some(-(m as int))
  {
    var s := "-" + u;
    assert s[1..] == u;
    ParseIntWithoutSpace(s);
  }

  lemma RenderedNonNegative(m: nat, rest: string)
    requires rest == [] || !IsDecimalDigit(rest[0])
    requires m == 0 && rest != [] ==> rest[0] != 'x' && rest[0] != 'X'
    ensures ParseInt(IntToString(m) + rest) == Some(m)
  {
    var u := NatToString(m) + rest;
    MagnitudeOfRendered(m, rest);
    ParseIntWithoutSpace(u);
  }

  lemma ParseIntWithoutSpace(s: string)
    requires s != [] && !IsSpace(s[0])
    ensures ParseInt(s) == ParseSigned(s)
  {
  }

  lemma MagnitudeOfRendered(m: nat, rest: string)
    requires rest == [] || !IsDecimalDigit(rest[0])
    requires m == 0 && rest != [] ==> rest[0] != 'x' && rest[0] != 'X'
    ensures ParseMagnitude(NatToString(m) + rest) == Some(m)
  {
    var digits := NatToString(m);
    var u := digits + rest;
    assert forall i :: 0 <= i < |digits| ==> IsDecimalDigit(digits[i]);
    assert forall i :: 0 <= i < |digits| ==> IsDigit(digits[i], 10);
    DigitRunOfDigits(digits, rest, 10);
    ValueOfNatToString(m);
    assert u[..|digits|] == digits;
    if |u| >= 2 && u[0] == '0' {
      assert m == 0 && |digits| == 1;
      assert u[1] == rest[0];
    }
  }

  /** Rendering then parsing is the identity on integers. */
  lemma ParseIntRoundTrip(n: int)
    ensures ParseInt(IntToString(n)) == Some(n)
  {
    ParseIntOfRendered(n, "");
    assert IntToString(n) + "" == IntToString(n);
  }

  /** Leading white space never changes what `parseInt` reads. */
  lemma ParseIntSkipsSpace(ws: string, s: string)
    requires forall i :: 0 <= i < |ws| ==> IsSpace(ws[i])
    ensures ParseInt(ws + s) == ParseInt(s)
  {
    TrimSpaces(ws, s);
  }

  lemma {:induction false} TrimSpaces(ws: string, s: string)
    requires forall i :: 0 <= i < |ws| ==> IsSpace(ws[i])
    ensures TrimStart(ws + s) == TrimStart(s)
  {
    if ws == [] {
      assert ws + s == s;
    } else {
      assert (ws + s)[1..] == ws[1..] + s;
      TrimSpaces(ws[1..], s);
    }
  }

  /** A line that starts with anything but white space, a sign or a decimal digit is NaN. */
  lemma ParseIntOfWord(s: string)
    requires s != [] && !IsSpace(s[0]) && !IsDecimalDigit(s[0]) && s[0] != '-' && s[0] != '+'
    ensures ParseInt(s) == None
  {
    ParseIntWithoutSpace(s);
  }
}
