/**
 * The integer side of the JavaScript built-ins the time tracker relies on:
 * Number.prototype.toString, parseInt, Math.floor of a quotient and the
 * remainder operator %.  Numbers are modelled as unbounded integers.
 */
module JsNumbers {
  import opened Options

  /** Value of a character as a digit of radix up to 36; 36 when it is no digit at all. */
  function CharValue(c: char): (v: nat)
    ensures v <= 36
    ensures '0' <= c <= '9' ==> v == (c as int) - ('0' as int)
    ensures v < 10 <==> '0' <= c <= '9'
  {
    if '0' <= c <= '9' then (c as int) - ('0' as int)
    else if 'a' <= c <= 'z' then (c as int) - ('a' as int) + 10
    else if 'A' <= c <= 'Z' then (c as int) - ('A' as int) + 10
    else 36
  }

  predicate IsDigitIn(c: char, radix: nat) {
    CharValue(c) < radix
  }

  predicate AllDigitsIn(s: string, radix: nat) {
    forall i :: 0 <= i < |s| ==> IsDigitIn(s[i], radix)
  }

  /** Value of a digit string, most significant digit first. */
  function ValueIn(s: string, radix: nat): nat
    decreases |s|
  {
    if s == [] then 0 else ValueIn(s[..|s| - 1], radix) * radix + CharValue(s[|s| - 1])
  }

  function DigitChar(d: nat): (c: char)
    requires d < 10
    ensures CharValue(c) == d
  {
    (('0' as int) + d) as char
  }

  /** Number.prototype.toString for a non-negative integer: decimal, no leading zero. */
  function NatToString(n: nat): (s: string)
    ensures 1 <= |s| && AllDigitsIn(s, 10)
    ensures ValueIn(s, 10) == n
    ensures |s| > 1 ==> s[0] != '0'
    ensures n < 10 ==> |s| == 1
    ensures n < 100 ==> |s| <= 2
    decreases n
  {
    if n < 10 then [DigitChar(n)]
    else
      var p := NatToString(n / 10);
      var s := p + [DigitChar(n % 10)];
      assert s[..|s| - 1] == p;
      s
  }

  /** Number.prototype.toString for any integer. */
  function IntToString(n: int): (r: string)
    ensures |r| >= 1 && (r[0] == '-' <==> n < 0)
  {
    if n < 0 then "-" + NatToString(-n) else NatToString(n)
  }

  /** The characters parseInt skips before the number (ECMAScript StrWhiteSpaceChar). */
  predicate IsJsSpace(c: char) {
    c == ' ' || c == '\t' || c == '\n' || c == '\r' || c == '\U{000B}' || c == '\U{000C}'
    || c == '\U{00A0}' || c == '\U{FEFF}' || c == '\U{1680}' || ('\U{2000}' <= c <= '\U{200A}')
    || c == '\U{2028}' || c == '\U{2029}' || c == '\U{202F}' || c == '\U{205F}' || c == '\U{3000}'
  }

  function TrimStart(s: string): string
  {
    if s != [] && IsJsSpace(s[0]) then TrimStart(s[1..]) else s
  }

  /** Length of the longest prefix of s made of digits of the radix. */
  function DigitRun(s: string, radix: nat): (k: nat)
    ensures k <= |s|
  {
    if s != [] && IsDigitIn(s[0], radix) then 1 + DigitRun(s[1..], radix) else 0
  }

  /** The digits after the sign: a "0x"/"0X" prefix selects radix 16; None when no digit follows. */
  function ParseUnsigned(u: string): Option<nat>
  {
    var hex := |u| >= 2 && u[0] == '0' && (u[1] == 'x' || u[1] == 'X');
    var radix := if hex then 16 else 10;
    var digits := if hex then u[2..] else u;
    var k := DigitRun(digits, radix);
    if k == 0 then None else Some(ValueIn(digits[..k], radix))
  }

  /**
   * parseInt(s) without a radix argument: leading white space, an optional
   * sign, then ParseUnsigned.  None stands for NaN.
   */
  function ParseInt(s: string): (r: Option<int>)
    ensures TrimStart(s) == [] ==> r.None?
  {
    var t := TrimStart(s);
    if t != [] && (t[0] == '-' || t[0] == '+') then
      match ParseUnsigned(t[1..])
      case None => None
      case Some(v) => Some(if t[0] == '-' then -(v as int) else v as int)
    else
      match ParseUnsigned(t)
      case None => None
      case Some(v) => Some(v)
  }

  /** parseInt reads back exactly what toString wrote. */
  lemma ParseIntToString(n: int)
    ensures ParseInt(IntToString(n)) == Some(n)
  {
    var a: nat := if n < 0 then -n else n;
    var d := NatToString(a);
    PlainDigitsStart(d);
    ParseUnsignedDecimal(d);
    assert ParseUnsigned(d) == Some(a);
    if n < 0 {
      var s := "-" + d;
      assert IntToString(n) == s;
      assert s[1..] == d;
      assert TrimStart(s) == s;
    } else {
      assert IntToString(n) == d;
      assert TrimStart(d) == d;
    }
  }

  lemma PlainDigitsStart(d: string)
    requires 1 <= |d| && AllDigitsIn(d, 10)
    ensures !IsJsSpace(d[0]) && d[0] != '-' && d[0] != '+'
  {
    assert IsDigitIn(d[0], 10);
  }

  /** A decimal string without a leading zero (or a lone zero) is read whole. */
  lemma ParseUnsignedDecimal(d: string)
    requires 1 <= |d| && AllDigitsIn(d, 10)
    requires |d| > 1 ==> d[0] != '0'
    ensures ParseUnsigned(d) == Some(ValueIn(d, 10))
  {
    DigitRunAll(d, 10);
    assert d[..|d|] == d;
    if |d| >= 2 {
      assert IsDigitIn(d[1], 10);
    }
  }

  lemma {:induction false} DigitRunAll(s: string, radix: nat)
    requires AllDigitsIn(s, radix)
    ensures DigitRun(s, radix) == |s|
  {
    if s != [] {
      DigitRunAll(s[1..], radix);
    }
  }

  /** Math.floor(a / b) for a positive divisor (Dafny's division already rounds down then). */
  function FloorDiv(a: int, b: int): (q: int)
    requires b > 0
    ensures q * b <= a < q * b + b
  {
    a / b
  }

  /** The quotient of a / b truncated toward zero, as JavaScript pairs it with %. */
  function TruncDiv(a: int, b: int): int
    requires b > 0
  {
    if a >= 0 then a / b else -((-a) / b)
  }

  /** JavaScript's a % b: the remainder of the truncated division, carrying the sign of the dividend. */
  function JsRem(a: int, b: int): (r: int)
    requires b > 0
    ensures a >= 0 ==> 0 <= r < b
    ensures a < 0 ==> -b < r <= 0
    ensures a == TruncDiv(a, b) * b + r
  {
    if a >= 0 then a % b else -((-a) % b)
  }
}
