/** The few JavaScript built-ins the schedule screen leans on, stated over
    unbounded integers: Number#toString for integers, String#padStart(2, '0'),
    the global parseInt with no radix, and the truncating `%` operator. */
module JsNumber {

  datatype Option<T> = None | Some(value: T)

  predicate IsDigit(c: char) {
    '0' <= c <= '9'
  }

  predicate AllDigits(s: string) {
    forall i :: 0 <= i < |s| ==> IsDigit(s[i])
  }

  function DigitChar(d: nat): (c: char)
    requires d < 10
    ensures IsDigit(c) && DigitValue(c) == d
  {
    ('0' as int + d) as char
  }

  function DigitValue(c: char): (d: nat)
    requires IsDigit(c)
    ensures d < 10
  {
    c as int - '0' as int
  }

  /** The number a string of decimal digits denotes, as `Number(s)` reads it
      (leading zeros allowed, the empty string reads as 0). */
  function DigitsValue(s: string): nat
    requires AllDigits(s)
  {
    if s == [] then 0 else DigitsValue(s[..|s| - 1]) * 10 + DigitValue(s[|s| - 1])
  }

  /** Two digits read as a number: tens first. */
  lemma DigitsValueTwo(s: string)
    requires |s| == 2 && AllDigits(s)
    ensures DigitsValue(s) == DigitValue(s[0]) * 10 + DigitValue(s[1])
  {
    var p := s[..1];
    assert s[..|s| - 1] == p;
    assert DigitsValue(s) == DigitsValue(p) * 10 + DigitValue(s[1]);
    assert p[..|p| - 1] == [];
    assert DigitsValue(p) == DigitValue(s[0]);
  }

  /** `n.toString()` for a non-negative integer: its shortest decimal form. */
  function NatToString(n: nat): (s: string)
    ensures 1 <= |s| && AllDigits(s)
    ensures (|s| == 1) == (n < 10)
    ensures s[0] == '0' ==> n == 0
  {
    if n < 10 then [DigitChar(n)] else NatToString(n / 10) + [DigitChar(n % 10)]
  }

  lemma {:induction false} NatToStringValue(n: nat)
    ensures DigitsValue(NatToString(n)) == n
  {
    if n >= 10 {
      var s := NatToString(n);
      assert s[..|s| - 1] == NatToString(n / 10);
      NatToStringValue(n / 10);
    }
  }

  /** `i.toString()` for any integer: a minus sign exactly for negative
      integers, then the shortest decimal digits of the magnitude. */
  function IntToString(i: int): (s: string)
    ensures 1 <= |s|
    ensures (s[0] == '-') == (i < 0)
    ensures var digits := if i < 0 then s[1..] else s;
      && 1 <= |digits| && AllDigits(digits)
      && DigitsValue(digits) == (if i < 0 then -i else i)
      && (digits[0] == '0' ==> i == 0)
  {
    var n := if i < 0 then -i else i;
    NatToStringValue(n);
    if i < 0 then "-" + NatToString(n) else NatToString(n)
  }

  /** `s.padStart(2, '0')`, with length counted in code points (JavaScript
      counts UTF-16 code units; the two agree on digits): the text brought
      to length 2 by '0's in front
      (see PadStart2KeepsText). */
  function PadStart2(s: string): (r: string)
    ensures |r| == (if |s| < 2 then 2 else |s|)
  {
    if |s| == 0 then "00" else if |s| == 1 then "0" + s else s
  }

  /** Padding keeps the text at the end and puts only '0's before it. */
  lemma PadStart2KeepsText(s: string)
    ensures var r := PadStart2(s);
      && r[|r| - |s|..] == s
      && forall i :: 0 <= i < |r| - |s| ==> r[i] == '0'
  {
  }

  /** `n.toString().padStart(2, '0')`: for n below 100 exactly two digits,
      the tens digit first. */
  function TwoDigits(n: nat): (r: string)
    ensures AllDigits(r) && 2 <= |r|
    ensures |r| == 2 <==> n < 100
  {
    PadStart2(NatToString(n))
  }

  lemma TwoDigitsBelow100(n: nat)
    requires n < 100
    ensures TwoDigits(n) == [DigitChar(n / 10), DigitChar(n % 10)]
  {
    if n < 10 {
      assert NatToString(n) == [DigitChar(n)];
      assert n / 10 == 0 && n % 10 == n && DigitChar(0) == '0';
    } else {
      var q, r := n / 10, n % 10;
      assert q < 10;
      assert NatToString(q) == [DigitChar(q)];
      assert NatToString(n) == NatToString(q) + [DigitChar(r)];
    }
  }

  /** The JavaScript `%` operator on integers, for a positive divisor: the
      remainder of division truncated toward zero, which takes the sign of
      the dividend. It agrees with the Euclidean remainder on non-negative
      dividends and otherwise lies one divisor below it, or is zero. */
  function JsRem(a: int, b: int): (r: int)
    requires b > 0
    ensures a >= 0 ==> r == a % b
    ensures a < 0 ==> -b < r <= 0
  {
    if a >= 0 then a % b else -((-a) % b)
  }

  /** The sign of the dividend carries over: negating it negates the remainder. */
  lemma JsRemOdd(a: int, b: int)
    requires b > 0
    ensures JsRem(-a, b) == -JsRem(a, b)
  {
  }

  // ---------------------------------------------------------------------
  // parseInt(string) with the radix left out (section 19.2.5 of ECMA-262)

  /** The white space and line terminators parseInt skips before a number. */
  predicate IsJsWhiteSpace(c: char) {
    c == '\t' || c == '\n' || c == '\U{000B}' || c == '\U{000C}' || c == '\r' || c == ' '
    || c == '\U{00A0}' || c == '\U{1680}' || ('\U{2000}' <= c <= '\U{200A}')
    || c == '\U{2028}' || c == '\U{2029}' || c == '\U{202F}' || c == '\U{205F}'
    || c == '\U{3000}' || c == '\U{FEFF}'
  }

  function TrimStart(s: string): (r: string)
    ensures r == [] || !IsJsWhiteSpace(r[0])
    ensures |r| <= |s|
  {
    if s != [] && IsJsWhiteSpace(s[0]) then TrimStart(s[1..]) else s
  }

  predicate IsRadixDigit(c: char, radix: nat) {
    if radix == 16 then IsDigit(c) || 'a' <= c <= 'f' || 'A' <= c <= 'F' else IsDigit(c)
  }

  function RadixDigitValue(c: char, radix: nat): (d: nat)
    requires IsRadixDigit(c, radix)
    ensures d < (if radix == 16 then 16 else 10)
  {
    if IsDigit(c) then DigitValue(c)
    else if 'a' <= c <= 'f' then c as int - 'a' as int + 10
    else c as int - 'A' as int + 10
  }

  /** Length of the longest prefix of `s` made of digits of the radix. */
  function DigitRun(s: string, radix: nat): (n: nat)
    ensures n <= |s|
    ensures forall i :: 0 <= i < n ==> IsRadixDigit(s[i], radix)
    ensures n < |s| ==> !IsRadixDigit(s[n], radix)
  {
    if s != [] && IsRadixDigit(s[0], radix) then 1 + DigitRun(s[1..], radix) else 0
  }

  /** The value of a string of radix digits, most significant first. */
  function RadixValue(s: string, radix: nat): nat
    requires forall i :: 0 <= i < |s| ==> IsRadixDigit(s[i], radix)
  {
    if s == [] then 0
    else RadixValue(s[..|s| - 1], radix) * (if radix == 16 then 16 else 10)
         + RadixDigitValue(s[|s| - 1], radix)
  }

  /** The digits parseInt reads after the sign: a "0x"/"0X" prefix switches
      to hexadecimal, and the longest run of digits after that is the
      magnitude; no digit at all is NaN (None). */
  function ParseMagnitude(u: string): Option<nat>
  {
    var hex := |u| >= 2 && u[0] == '0' && (u[1] == 'x' || u[1] == 'X');
    var radix := if hex then 16 else 10;
    var body := if hex then u[2..] else u;
    var n := DigitRun(body, radix);
    if n == 0 then None
    else Some(RadixValue(body[..n], radix))
  }

  /** parseInt(s): None stands for NaN. Leading white space is skipped and
      one sign is read before the magnitude. Text that starts (after the
      white space) with neither a digit nor a sign is NaN, and only a minus
      sign gives a negative result. */
  function ParseInt(s: string): (r: Option<int>)
    ensures var t := TrimStart(s);
      t == [] || !(IsDigit(t[0]) || t[0] == '-' || t[0] == '+') ==> r.None?
    ensures r.Some? && r.value < 0 ==> TrimStart(s) != [] && TrimStart(s)[0] == '-'
  {
    var t := TrimStart(s);
    var negative := t != [] && t[0] == '-';
    var u := if t != [] && (t[0] == '-' || t[0] == '+') then t[1..] else t;
    match ParseMagnitude(u)
    case None => None
    case Some(m) => Some(if negative then 0 - m as int else m as int)
  }

  /** `parseInt(s) || 0`: NaN and both zeros fall back to 0, so an empty
      field gives 0; ParseIntOrZeroReadsIntegers and ParseIntOrZeroNoNumber
      state what it gives for numbers and non-numbers. */
  function ParseIntOrZero(s: string): (v: int)
    ensures s == [] ==> v == 0
    ensures ParseInt(s).None? ==> v == 0
    ensures ParseInt(s).Some? ==> v == ParseInt(s).value
  {
    match ParseInt(s)
    case None => 0
    case Some(v) => v
  }

  /** `parseInt(s) || 0` reads the text of any integer back as it. */
  lemma ParseIntOrZeroReadsIntegers(i: int)
    ensures ParseIntOrZero(IntToString(i)) == i
  {
    ParseIntIntToString(i);
  }

  /** `parseInt(s) || 0` is 0 for an empty field or one starting with a
      letter. */
  lemma ParseIntOrZeroNoNumber(s: string)
    requires s == [] || 'a' <= s[0] <= 'z' || 'A' <= s[0] <= 'Z'
    ensures ParseIntOrZero(s) == 0
  {
  }

  lemma {:induction false} RadixValueDecimal(s: string)
    requires AllDigits(s)
    ensures RadixValue(s, 10) == DigitsValue(s)
  {
    if s != [] {
      RadixValueDecimal(s[..|s| - 1]);
    }
  }

  lemma {:induction false} DigitRunAllDigits(s: string, rest: string)
    requires AllDigits(s)
    requires rest == [] || !IsDigit(rest[0])
    ensures DigitRun(s + rest, 10) == |s|
  {
    if s != [] {
      assert (s + rest)[1..] == s[1..] + rest;
      DigitRunAllDigits(s[1..], rest);
    }
  }

  lemma ParseMagnitudeNatToString(n: nat, rest: string)
    requires rest == [] || (!IsDigit(rest[0]) && rest[0] != 'x' && rest[0] != 'X')
    ensures ParseMagnitude(NatToString(n) + rest) == Some(n)
  {
    var s := NatToString(n);
    var u := s + rest;
    assert u[0] == s[0];
    assert !(|u| >= 2 && u[0] == '0' && (u[1] == 'x' || u[1] == 'X')) by {
      if |u| >= 2 && u[0] == '0' {
        assert |s| == 1 && u[1] == rest[0];
      }
    }
    DigitRunAllDigits(s, rest);
    assert u[..|s|] == s;
    RadixValueDecimal(s);
    NatToStringValue(n);
  }

  /** parseInt reads back the decimal form of a non-negative integer, and
      stops at the first character that cannot continue it. */
  lemma ParseIntNatToString(n: nat, rest: string)
    requires rest == [] || (!IsDigit(rest[0]) && rest[0] != 'x' && rest[0] != 'X')
    ensures ParseInt(NatToString(n) + rest) == Some(n)
  {
    var t := NatToString(n) + rest;
    assert t[0] == NatToString(n)[0];
    assert TrimStart(t) == t;
    ParseMagnitudeNatToString(n, rest);
  }

  /** parseInt inverts toString on every integer. */
  lemma ParseIntIntToString(i: int)
    ensures ParseInt(IntToString(i)) == Some(i)
  {
    var s := NatToString(if i < 0 then -i else i);
    assert s + [] == s;
    if i >= 0 {
      ParseIntNatToString(i, []);
    } else {
      var t := IntToString(i);
      assert TrimStart(t) == t;
      ParseMagnitudeNatToString(-i, []);
    }
  }

  /** parseInt reads a two-digit decimal literal. */
  lemma DecimalText(n: nat)
    requires 10 <= n < 100
    ensures ParseInt([DigitChar(n / 10), DigitChar(n % 10)]) == Some(n)
  {
    ParseIntNatToString(n, []);
    assert NatToString(n / 10) == [DigitChar(n / 10)];
    assert NatToString(n) + [] == [DigitChar(n / 10), DigitChar(n % 10)];
  }
}
