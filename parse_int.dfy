/**
  The global `parseInt(string)` of ECMAScript (section 19.2.5 of ECMA-262),
  called without a radix, as the update and delete routes use it on the path
  parameter. `None` stands for NaN. The result is the exact mathematical
  integer: the rounding of very long digit strings to a double is not modelled.
 */
module JsParseInt {
  import opened Wrappers

  /** StrWhiteSpaceChar: the WhiteSpace and LineTerminator code points. */
  predicate IsWhiteSpace(c: char) {
    var n := c as int;
    n == 0x09 || n == 0x0A || n == 0x0B || n == 0x0C || n == 0x0D || n == 0x20
    || n == 0xA0 || n == 0x1680 || (0x2000 <= n <= 0x200A) || n == 0x2028
    || n == 0x2029 || n == 0x202F || n == 0x205F || n == 0x3000 || n == 0xFEFF
  }

  /** The string with its leading white space removed. */
  function TrimStart(s: string): (r: string)
    ensures |r| <= |s| && r == s[|s| - |r|..]
    ensures r == [] || !IsWhiteSpace(r[0])
    ensures forall i :: 0 <= i < |s| - |r| ==> IsWhiteSpace(s[i])
  {
    if s != [] && IsWhiteSpace(s[0]) then TrimStart(s[1..]) else s
  }

  /** The value of an ASCII letter or digit as a digit of radix 36; 36 for any other character. */
  function DigitValue(c: char): (d: nat)
    ensures d <= 36
    ensures d < 10 <==> '0' <= c <= '9'
  {
    if '0' <= c <= '9' then c as int - '0' as int
    else if 'a' <= c <= 'z' then c as int - 'a' as int + 10
    else if 'A' <= c <= 'Z' then c as int - 'A' as int + 10
    else 36
  }

  predicate IsDigit(c: char, radix: nat) {
    DigitValue(c) < radix
  }

  /** The length of the longest prefix of `s` made of radix digits. */
  function DigitPrefixLength(s: string, radix: nat): (n: nat)
    ensures n <= |s|
    ensures forall i :: 0 <= i < n ==> IsDigit(s[i], radix)
    ensures n < |s| ==> !IsDigit(s[n], radix)
  {
    if s == [] || !IsDigit(s[0], radix) then 0 else 1 + DigitPrefixLength(s[1..], radix)
  }

  /** The number a string of digits denotes, most significant digit first. */
  function ValueOf(digits: string, radix: nat): nat {
    if digits == [] then 0
    else ValueOf(digits[..|digits| - 1], radix) * radix + DigitValue(digits[|digits| - 1])
  }

  /** parseInt(s): leading white space is skipped, then a signed numeral is read. */
  function ParseInt(s: string): Option<int> {
    ParseSigned(TrimStart(s))
  }

  /** An optional sign, then an unsigned numeral; a minus sign negates its value. */
  function ParseSigned(t: string): Option<int> {
    if |t| > 0 && (t[0] == '-' || t[0] == '+') then
      match ParseUnsigned(t[1..])
      case None => None
      case Some(m) => var k: int := m; Some(if t[0] == '-' then -k else k)
    else
      match ParseUnsigned(t)
      case None => None
      case Some(m) => Some(m)
  }

  /** A "0x" or "0X" prefix selects radix 16, otherwise radix 10; then the longest digit prefix, NaN when it is empty. */
  function ParseUnsigned(u: string): Option<nat> {
    var hex := |u| >= 2 && u[0] == '0' && (u[1] == 'x' || u[1] == 'X');
    var radix := if hex then 16 else 10;
    var v := if hex then u[2..] else u;
    var n := DigitPrefixLength(v, radix);
    if n == 0 then None else Some(ValueOf(v[..n], radix))
  }

  /** The decimal numeral of a non-negative integer, as `String(n)` writes it. */
  function DecimalText(n: nat): (r: string)
    ensures |r| > 0
    ensures forall i :: 0 <= i < |r| ==> '0' <= r[i] <= '9'
    ensures r[0] == '0' <==> n == 0
  {
    if n < 10 then [('0' as int + n) as char]
    else DecimalText(n / 10) + [('0' as int + n % 10) as char]
  }

  lemma {:induction false} ValueOfDecimalText(n: nat)
    ensures ValueOf(DecimalText(n), 10) == n
  {
    var r := DecimalText(n);
    if n >= 10 {
      assert r[..|r| - 1] == DecimalText(n / 10);
      ValueOfDecimalText(n / 10);
    }
  }

  /** The digit prefix of `ds + rest` is `ds` when `rest` does not go on with a digit. */
  lemma DigitPrefixOfConcat(ds: string, rest: string, radix: nat)
    requires forall i :: 0 <= i < |ds| ==> IsDigit(ds[i], radix)
    requires rest == [] || !IsDigit(rest[0], radix)
    ensures DigitPrefixLength(ds + rest, radix) == |ds|
    ensures (ds + rest)[..|ds|] == ds
  {
    var s := ds + rest;
    assert forall i :: 0 <= i < |ds| ==> s[i] == ds[i];
    assert |ds| < |s| ==> s[|ds|] == rest[0];
  }

  /** Decimal digits, as a path id may spell them, leading zeros allowed ("007"). */
  predicate IsDecimalDigits(ds: string) {
    |ds| > 0 && forall i :: 0 <= i < |ds| ==> '0' <= ds[i] <= '9'
  }

  /**
    What may follow the digits without changing what is read: nothing, or a
    non-digit, which must not be an `x` or `X` right after a lone "0" (that
    would be the hexadecimal prefix).
   */
  predicate EndsNumeral(ds: string, rest: string) {
    rest == [] || (!IsDigit(rest[0], 10) && (ds == "0" ==> rest[0] != 'x' && rest[0] != 'X'))
  }

  /** Unsigned decimal digits followed by text that does not go on with them read as their value. */
  lemma ParseUnsignedOfDigits(ds: string, rest: string)
    requires IsDecimalDigits(ds) && EndsNumeral(ds, rest)
    ensures ParseUnsigned(ds + rest) == Some(ValueOf(ds, 10))
  {
    var u := ds + rest;
    assert u[0] == ds[0];
    if |ds| >= 2 {
      assert u[1] == ds[1];
    } else if |u| >= 2 {
      assert ds == [u[0]];
      assert u[1] == rest[0];
    }
    DigitPrefixOfConcat(ds, rest, 10);
  }

  /** Decimal digits, possibly followed by text that is not a digit, parse to their value ("12abc" gives 12, "007" gives 7). */
  lemma ParseIntOfDigits(ds: string, rest: string)
    requires IsDecimalDigits(ds) && EndsNumeral(ds, rest)
    ensures ParseInt(ds + rest) == Some(ValueOf(ds, 10))
  {
    var s := ds + rest;
    var c := s[0];
    assert c == ds[0];
    assert '0' <= c <= '9';
    TrimStartOfUnsigned(s);
    assert ParseInt(s) == ParseSigned(s);
    assert c != '-' && c != '+';
    assert ParseSigned(s) == (match ParseUnsigned(s) case None => None case Some(m) => Some(m));
    ParseUnsignedOfDigits(ds, rest);
  }

  /** A minus sign negates what the unsigned part reads as. */
  lemma ParseIntOfMinus(u: string, m: nat)
    requires ParseUnsigned(u) == Some(m)
    ensures ParseInt("-" + u) == Some(-(m as int))
  {
    var s := "-" + u;
    assert s[0] == '-' && s[1..] == u;
    TrimStartOfUnsigned(s);
  }

  /** A step of `ParseIntOfNegativeNumeral`: `ParseIntOfMinus` with the unsigned part written as two pieces. */
  lemma ParseIntOfMinusBefore(ds: string, rest: string, m: nat)
    requires ParseUnsigned(ds + rest) == Some(m)
    ensures ParseInt("-" + ds + rest) == Some(-(m as int))
  {
    assert "-" + ds + rest == "-" + (ds + rest);
    ParseIntOfMinus(ds + rest, m);
  }

  /** A numeral as `String(n)` writes it, possibly followed by a non-digit, parses back to `n`. */
  lemma ParseIntOfNumeral(n: nat, rest: string)
    requires rest == [] || (!IsDigit(rest[0], 10) && (n == 0 ==> rest[0] != 'x' && rest[0] != 'X'))
    ensures ParseInt(DecimalText(n) + rest) == Some(n)
  {
    assert DecimalText(n) == "0" ==> n == 0;
    ParseIntOfDigits(DecimalText(n), rest);
    ValueOfDecimalText(n);
  }

  /** A step of `ParseIntOfNegativeNumeral`: an unsigned numeral as `String(n)` writes it reads as `n`. */
  lemma ParseUnsignedOfNumeral(n: nat, rest: string)
    requires rest == [] || (!IsDigit(rest[0], 10) && (n == 0 ==> rest[0] != 'x' && rest[0] != 'X'))
    ensures ParseUnsigned(DecimalText(n) + rest) == Some(n)
  {
    assert DecimalText(n) == "0" ==> n == 0;
    ParseUnsignedOfDigits(DecimalText(n), rest);
    ValueOfDecimalText(n);
  }

  /** A minus sign before a numeral as `String(n)` writes it parses to `-n`. */
  lemma ParseIntOfNegativeNumeral(n: nat, rest: string)
    requires rest == [] || (!IsDigit(rest[0], 10) && (n == 0 ==> rest[0] != 'x' && rest[0] != 'X'))
    ensures ParseInt("-" + DecimalText(n) + rest) == Some(-(n as int))
  {
    ParseUnsignedOfNumeral(n, rest);
    ParseIntOfMinusBefore(DecimalText(n), rest, n);
  }

  /** Leading zeros are read, not rejected: the path id "007" names id 7. */
  lemma ParseIntOfLeadingZeros()
    ensures ParseInt("007") == Some(7)
  {
    var ds := "007";
    assert ds + [] == ds;
    assert IsDecimalDigits(ds);
    assert ValueOf(ds, 10) == 7 by {
      assert ds[..2] == "00" && ds[..2][..1] == "0" && ds[..2][..1][..0] == [];
      assert ValueOf("0", 10) == 0;
      assert ValueOf("00", 10) == 0;
    }
    ParseIntOfDigits(ds, []);
  }

  /** A leading sign or decimal digit is not white space, so the trim keeps the whole string. */
  lemma TrimStartOfUnsigned(s: string)
    requires s != [] && (s[0] == '-' || '0' <= s[0] <= '9')
    ensures TrimStart(s) == s
  {
    assert !IsWhiteSpace(s[0]);
  }

  /** Leading white space does not change the result. */
  lemma ParseIntSkipsWhiteSpace(ws: string, s: string)
    requires forall i :: 0 <= i < |ws| ==> IsWhiteSpace(ws[i])
    ensures ParseInt(ws + s) == ParseInt(s)
  {
    TrimStartSkipsWhiteSpace(ws, s);
  }

  lemma {:induction false} TrimStartSkipsWhiteSpace(ws: string, s: string)
    requires forall i :: 0 <= i < |ws| ==> IsWhiteSpace(ws[i])
    ensures TrimStart(ws + s) == TrimStart(s)
  {
    if ws != [] {
      assert (ws + s)[1..] == ws[1..] + s;
      TrimStartSkipsWhiteSpace(ws[1..], s);
    } else {
      assert ws + s == s;
    }
  }

  /** A string that starts with anything but white space, a sign or a decimal digit is NaN ("abc"). */
  lemma ParseIntRejects(s: string)
    requires s == [] || (!IsWhiteSpace(s[0]) && !IsDigit(s[0], 10) && s[0] != '-' && s[0] != '+')
    ensures ParseInt(s) == None
  {
    assert TrimStart(s) == s;
  }
}
