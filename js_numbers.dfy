/**
 * JavaScript numbers as the helpers use them: integral values or NaN, the
 * decimal rendering `String(n)`, `padStart`, fixed-width digit fields, and the
 * two string-to-number conversions `Number(s)` and `parseInt(s)`.
 */
module JsNumbers {
  import opened JsText

  /** A JavaScript number that is an integer, or NaN. */
  datatype JsNumber = NaN | Int(v: int)

  function DigitChar(d: int): (c: char)
    requires 0 <= d <= 9
    ensures IsAsciiDigit(c) && c as int - '0' as int == d
  {
    ('0' as int + d) as char
  }

  function DigitValue(c: char): (d: int)
    requires IsAsciiDigit(c)
    ensures 0 <= d <= 9 && DigitChar(d) == c
  {
    c as int - '0' as int
  }

  predicate AllDigits(s: string) {
    forall i :: 0 <= i < |s| ==> IsAsciiDigit(s[i])
  }

  /** The value of a string of decimal digits. */
  function DigitsValue(s: string): nat
    requires AllDigits(s)
  {
    if s == [] then 0 else 10 * DigitsValue(s[..|s| - 1]) + DigitValue(s[|s| - 1])
  }

  function Pow10(w: nat): nat {
    if w == 0 then 1 else 10 * Pow10(w - 1)
  }

  /** `String(n)` for a non-negative integer: its digits, without leading zeros. */
  function NatToString(n: nat): string {
    if n < 10 then [DigitChar(n)] else NatToString(n / 10) + [DigitChar(n % 10)]
  }

  /** `String(i)` for an integer. */
  function IntToString(i: int): string {
    if i < 0 then "-" + NatToString(-i) else NatToString(i)
  }

  /** `s.padStart(width, fill)` with a one-character fill. */
  function PadStart(s: string, width: nat, fill: char): (r: string)
    ensures |s| >= width ==> r == s
    ensures |s| < width ==> |r| == width && r[width - |s|..] == s
  {
    if |s| >= width then s else seq(width - |s|, _ => fill) + s
  }

  /** The last `width` decimal digits of n, zero-filled on the left. */
  function Digits(n: nat, width: nat): (r: string)
    ensures |r| == width && AllDigits(r)
  {
    if width == 0 then [] else Digits(n / 10, width - 1) + [DigitChar(n % 10)]
  }

  /** A two-character field, as `padStart(2, '0')` renders numbers below 100. */
  function TwoDigits(n: nat): (r: string)
    requires n < 100
    ensures |r| == 2 && AllDigits(r)
  {
    [DigitChar(n / 10), DigitChar(n % 10)]
  }

  lemma DigitsValueSnoc(s: string, c: char)
    requires AllDigits(s) && IsAsciiDigit(c)
    ensures AllDigits(s + [c]) && DigitsValue(s + [c]) == 10 * DigitsValue(s) + DigitValue(c)
  {
    assert (s + [c])[..|s|] == s;
  }

  lemma {:induction false} DigitsCorrect(n: nat, width: nat)
    requires n < Pow10(width)
    ensures DigitsValue(Digits(n, width)) == n
  {
    if width > 0 {
      DigitsCorrect(n / 10, width - 1);
      DigitsValueSnoc(Digits(n / 10, width - 1), DigitChar(n % 10));
    }
  }

  lemma TwoDigitsCorrect(n: nat)
    requires n < 100
    ensures DigitsValue(TwoDigits(n)) == n
    ensures TwoDigits(n) == Digits(n, 2)
  {
    DigitsValueSnoc([DigitChar(n / 10)], DigitChar(n % 10));
    assert [DigitChar(n / 10)][..0] == [];
    assert Digits(n / 10, 1) == [DigitChar(n / 10)] by {
      assert Digits(n / 10 / 10, 0) == [];
    }
  }

  /** `String(n)` is a non-empty digit string that reads back as n. */
  lemma {:induction false} NatToStringCorrect(n: nat)
    ensures AllDigits(NatToString(n)) && 1 <= |NatToString(n)|
    ensures DigitsValue(NatToString(n)) == n
    ensures |NatToString(n)| == 1 <==> n < 10
    ensures n < 100 ==> |NatToString(n)| <= 2
  {
    if n >= 10 {
      NatToStringCorrect(n / 10);
      DigitsValueSnoc(NatToString(n / 10), DigitChar(n % 10));
    } else {
      assert [DigitChar(n)][..0] == [];
    }
  }

  /** For 0 <= n < 100, `String(n).padStart(2, '0')` is the two-digit field of n. */
  lemma PadStartTwoDigits(n: nat)
    requires n < 100
    ensures PadStart(NatToString(n), 2, '0') == TwoDigits(n)
  {
    if n >= 10 {
      assert NatToString(n / 10) == [DigitChar(n / 10)];
    }
  }

  /** Sign and digits of an integer literal; None when s is not of that form. */
  function SignedDigits(s: string): Option<int> {
    if s != [] && (s[0] == '+' || s[0] == '-') then
      if s[1..] != [] && AllDigits(s[1..]) then
        var v: int := DigitsValue(s[1..]);
        Some(if s[0] == '-' then -v else v)
      else None
    else if s != [] && AllDigits(s) then Some(DigitsValue(s))
    else None
  }

  /**
   * `Number(s)` on the integer forms of StringNumericLiteral (ECMA-262
   * section 7.1.4.1.1): surrounding white space is ignored, the empty string
   * is 0, an optionally signed run of decimal digits is its value, and any
   * other string is NaN here.
   */
  function ToNumber(s: string): (r: JsNumber)
    ensures Trim(s) == [] ==> r == Int(0)
  {
    var t := Trim(s);
    if t == [] then Int(0)
    else match SignedDigits(t)
      case Some(v) => Int(v)
      case None => NaN
  }

  function LeadingDigits(s: string): (r: string)
    ensures |r| <= |s| && AllDigits(r) && r == s[..|r|]
    ensures |r| == |s| || !IsAsciiDigit(s[|r|])
  {
    if s != [] && IsAsciiDigit(s[0]) then [s[0]] + LeadingDigits(s[1..]) else []
  }

  /**
   * `parseInt(s)` with the default radix: leading white space and an
   * optional sign are skipped, then the longest run of decimal digits is read;
   * NaN when there is none.
   */
  function ParseInt(s: string): (r: JsNumber)
    ensures r.Int? ==> exists k :: 0 <= k < |s| && IsAsciiDigit(s[k])
  {
    var t := TrimStart(s);
    var neg := t != [] && t[0] == '-';
    var u := if t != [] && (t[0] == '+' || t[0] == '-') then t[1..] else t;
    var digits := LeadingDigits(u);
    if digits == [] then NaN
    else
      assert IsAsciiDigit(s[|s| - |u|]);
      var v: int := DigitsValue(digits);
      Int(if neg then -v else v)
  }

  lemma ToNumberOfDigits(s: string)
    requires s != [] && AllDigits(s)
    ensures ToNumber(s) == Int(DigitsValue(s))
  {
    TrimOfDigits(s);
    assert SignedDigits(s) == Some(DigitsValue(s));
  }

  lemma TrimOfDigits(s: string)
    requires s != [] && AllDigits(s)
    ensures Trim(s) == s
  {
    assert !IsSpace(s[0]) && !IsSpace(s[|s| - 1]);
    assert TrimStart(s) == s;
  }

  lemma ParseIntOfDigits(s: string)
    requires s != [] && AllDigits(s)
    ensures ParseInt(s) == Int(DigitsValue(s))
  {
    assert !IsSpace(s[0]);
    assert TrimStart(s) == s;
    LeadingDigitsAll(s);
  }

  lemma {:induction false} LeadingDigitsAll(s: string)
    requires AllDigits(s)
    ensures LeadingDigits(s) == s
  {
    if s != [] {
      LeadingDigitsAll(s[1..]);
    }
  }

  lemma ParseIntDigitsThenRest(d: string, rest: string)
    requires d != [] && AllDigits(d)
    requires rest == [] || !IsAsciiDigit(rest[0])
    ensures ParseInt(d + rest) == Int(DigitsValue(d))
  {
    var s := d + rest;
    assert s[0] == d[0] && !IsSpace(s[0]);
    assert TrimStart(s) == s;
    LeadingDigitsPrefix(d, rest);
  }

  lemma {:induction false} LeadingDigitsPrefix(d: string, rest: string)
    requires AllDigits(d)
    requires rest == [] || !IsAsciiDigit(rest[0])
    ensures LeadingDigits(d + rest) == d
  {
    if d == [] {
      assert d + rest == rest;
    } else {
      assert (d + rest)[1..] == d[1..] + rest;
      LeadingDigitsPrefix(d[1..], rest);
      assert d == [d[0]] + d[1..];
    }
  }
}
