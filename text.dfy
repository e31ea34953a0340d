/**
 * The parts of Python's string handling that the scheduler depends on:
 * `str.isspace`/`str.strip`, `int(str)`, `float(str)`, `str(n)` and the
 * ordering `<=` on strings (code point by code point).
 */
module Text {
  import opened Wrappers

  predicate IsDigit(c: char) { '0' <= c <= '9' }

  function DigitValue(c: char): (v: nat)
    requires IsDigit(c)
    ensures v < 10
  {
    (c as int) - ('0' as int)
  }

  function DigitChar(v: nat): (c: char)
    requires v < 10
    ensures IsDigit(c) && DigitValue(c) == v
  {
    (('0' as int) + v) as char
  }

  predicate AllDigits(s: string) { forall i :: 0 <= i < |s| ==> IsDigit(s[i]) }

  /** The value of a string of decimal digits, most significant first. */
  function DigitsValue(s: string): nat
    requires AllDigits(s)
  {
    if s == [] then 0 else 10 * DigitsValue(s[..|s| - 1]) + DigitValue(s[|s| - 1])
  }

  lemma DigitsValueSnoc(s: string, c: char)
    requires AllDigits(s) && IsDigit(c)
    ensures AllDigits(s + [c]) && DigitsValue(s + [c]) == 10 * DigitsValue(s) + DigitValue(c)
  {
    assert (s + [c])[..|s|] == s;
  }

  /** Python's `str(n)` for a non-negative integer. */
  function NatToDigits(n: nat): (s: string)
    ensures AllDigits(s) && 0 < |s|
  {
    if n < 10 then [DigitChar(n)] else NatToDigits(n / 10) + [DigitChar(n % 10)]
  }

  lemma {:induction false} NatToDigitsValue(n: nat)
    ensures DigitsValue(NatToDigits(n)) == n
  {
    if n >= 10 {
      var s := NatToDigits(n);
      assert s[..|s| - 1] == NatToDigits(n / 10);
      NatToDigitsValue(n / 10);
    }
  }

  /** Characters for which Python's `str.isspace()` holds. */
  predicate IsSpace(c: char)
  {
    || ('\t' <= c <= '\r')
    || ('\U{1c}' <= c <= ' ')
    || c == '\U{85}' || c == '\U{a0}' || c == '\U{1680}'
    || ('\U{2000}' <= c <= '\U{200a}')
    || c == '\U{2028}' || c == '\U{2029}' || c == '\U{202f}' || c == '\U{205f}' || c == '\U{3000}'
  }

  function StripLeft(s: string): (r: string)
    ensures r == [] || !IsSpace(r[0])
  {
    if s != [] && IsSpace(s[0]) then StripLeft(s[1..]) else s
  }

  function StripRight(s: string): (r: string)
    ensures r == [] || !IsSpace(r[|r| - 1])
  {
    if s != [] && IsSpace(s[|s| - 1]) then StripRight(s[..|s| - 1]) else s
  }

  /** Python's `str.strip()` with no argument. */
  function Strip(s: string): string
  {
    StripRight(StripLeft(s))
  }

  /**
   * Python's `int(s)` on a string of ASCII text: optional blanks around an
   * optional sign and ASCII digits; `None` for any other text, which includes
   * the `_` separators and non-ASCII digits Python would also read.
   */
  function ParseInt(s: string): Option<int>
  {
    var t := Strip(s);
    var body := if t != [] && (t[0] == '+' || t[0] == '-') then t[1..] else t;
    if body == [] || !AllDigits(body) then None
    else
      var v: int := DigitsValue(body);
      Some(if t[0] == '-' then -v else v)
  }

  /** `str(n)` for an integer. */
  function IntToString(n: int): string
  {
    if n < 0 then "-" + NatToDigits(-n) else NatToDigits(n)
  }

  /** `int(str(n)) == n`. */
  lemma IntToStringRoundTrip(n: int)
    ensures ParseInt(IntToString(n)) == Some(n)
  {
    if n < 0 {
      NegativeRoundTrip(-n);
    } else {
      NatRoundTrip(n);
    }
  }

  lemma NatRoundTrip(n: nat)
    ensures ParseInt(IntToString(n)) == Some(n)
  {
    var s := NatToDigits(n);
    NatToDigitsValue(n);
    ParseIntDigits(s);
  }

  lemma NegativeRoundTrip(n: nat)
    requires n > 0
    ensures ParseInt(IntToString(-(n as int))) == Some(-(n as int))
  {
    var s := NatToDigits(n);
    var m := IntToString(-(n as int));
    assert m == "-" + s;
    NatToDigitsValue(n);
    ParseIntNegated(s, m);
  }

  lemma ParseIntDigits(s: string)
    requires s != [] && AllDigits(s)
    ensures ParseInt(s) == Some(DigitsValue(s))
  {
    StripUnchanged(s);
  }

  /** Stripping removes characters and adds none. */
  lemma {:induction false} StripLeftWithin(s: string)
    ensures forall c :: c in StripLeft(s) ==> c in s
  {
    if s != [] && IsSpace(s[0]) {
      StripLeftWithin(s[1..]);
    }
  }

  lemma {:induction false} StripRightWithin(s: string)
    ensures forall c :: c in StripRight(s) ==> c in s
  {
    if s != [] && IsSpace(s[|s| - 1]) {
      StripRightWithin(s[..|s| - 1]);
    }
  }

  /** Text without a single digit is never an integer. */
  lemma ParseIntNoDigits(s: string)
    requires forall i :: 0 <= i < |s| ==> !IsDigit(s[i])
    ensures ParseInt(s) == None
  {
    var t := Strip(s);
    StripLeftWithin(s);
    StripRightWithin(StripLeft(s));
    var body := if t != [] && (t[0] == '+' || t[0] == '-') then t[1..] else t;
    if body != [] {
      assert body[0] in t;
      assert !IsDigit(body[0]);
    }
  }

  lemma ParseIntNegated(s: string, m: string)
    requires s != [] && AllDigits(s) && m == "-" + s
    ensures ParseInt(m) == Some(-(DigitsValue(s) as int))
  {
    assert m[0] == '-' && m[|m| - 1] == s[|s| - 1];
    StripUnchanged(m);
    assert m[1..] == s;
  }

  /** A number as Python's `float(s)` reads it, kept exact: +-mantissa * 10^exponent. */
  datatype Number = Finite(negative: bool, mantissa: nat, exponent: int) | Infinite(negative: bool) | NaN

  function LowerAscii(s: string): (r: string)
    ensures |r| == |s|
  {
    if s == [] then []
    else [if 'A' <= s[0] <= 'Z' then (s[0] as int + 32) as char else s[0]] + LowerAscii(s[1..])
  }

  /** The number of decimal digits at the front of `s`. */
  function LeadingDigits(s: string): (n: nat)
    ensures n <= |s| && AllDigits(s[..n])
    ensures n < |s| ==> !IsDigit(s[n])
  {
    if s != [] && IsDigit(s[0]) then
      var n := 1 + LeadingDigits(s[1..]);
      assert s[..n] == [s[0]] + s[1..][..n - 1];
      n
    else 0
  }

  /** An optional exponent `e[+-]digits`; the empty string is exponent 0. */
  function ParseExponent(s: string): Option<int>
  {
    if s == [] then Some(0)
    else if s[0] != 'e' && s[0] != 'E' then None
    else
      var t := s[1..];
      var digits := if t != [] && (t[0] == '+' || t[0] == '-') then t[1..] else t;
      if digits == [] || !AllDigits(digits) then None
      else
        var v: int := DigitsValue(digits);
        Some(if t[0] == '-' then -v else v)
  }

  /** Splits `digits[.digits]rest` into its integer digits, its fraction digits and the rest. */
  function SplitDecimal(b: string): (r: (string, string, string))
    ensures AllDigits(r.0) && AllDigits(r.1)
  {
    var i := LeadingDigits(b);
    var rest := b[i..];
    if rest != [] && rest[0] == '.' then
      var j := LeadingDigits(rest[1..]);
      (b[..i], rest[1..][..j], rest[1..][j..])
    else (b[..i], [], rest)
  }

  /** `digits[.digits][exponent]` with at least one digit in the mantissa. */
  function ParseUnsignedDecimal(b: string, negative: bool): Option<Number>
  {
    var (intPart, frac, tail) := SplitDecimal(b);
    if |intPart| + |frac| == 0 then None
    else
      match ParseExponent(tail)
      case None => None
      case Some(e) => Some(Finite(negative, DigitsValue(intPart + frac), e - |frac|))
  }

  /**
   * Python's `float(s)` on a string of ASCII text; `None` for any text it does
   * not read, which includes the `_` separators and non-ASCII digits Python
   * would also read.
   */
  function ParseFloat(s: string): Option<Number>
  {
    var t := Strip(s);
    var negative := t != [] && t[0] == '-';
    var body := if t != [] && (t[0] == '+' || t[0] == '-') then t[1..] else t;
    var lower := LowerAscii(body);
    if lower == "inf" || lower == "infinity" then Some(Infinite(negative))
    else if lower == "nan" then Some(NaN)
    else ParseUnsignedDecimal(body, negative)
  }

  lemma StripUnchanged(s: string)
    requires s != [] && !IsSpace(s[0]) && !IsSpace(s[|s| - 1])
    ensures Strip(s) == s
  {
    assert StripLeft(s) == s;
  }

  /** Text that starts with a digit and ends without blank is read as an unsigned decimal. */
  lemma ParseFloatFromDigit(s: string)
    requires s != [] && IsDigit(s[0]) && !IsSpace(s[|s| - 1])
    ensures ParseFloat(s) == ParseUnsignedDecimal(s, false)
  {
    StripUnchanged(s);
    var lower := LowerAscii(s);
    assert lower[0] == s[0];
    assert lower != "inf" by { assert "inf"[0] == 'i'; }
    assert lower != "infinity" by { assert "infinity"[0] == 'i'; }
    assert lower != "nan" by { assert "nan"[0] == 'n'; }
  }

  /** Decimal text `w.b` is read exactly: the digits of `w` and `b` scaled by `10^-|b|`. */
  lemma ParseFloatOfDecimal(s: string, w: string, b: string)
    requires AllDigits(w) && w != [] && AllDigits(b) && s == w + "." + b
    ensures ParseFloat(s) == Some(Finite(false, DigitsValue(w + b), -|b|))
  {
    assert s[0] == w[0];
    assert !IsSpace(s[|s| - 1]) by {
      if b == [] { assert s[|s| - 1] == '.'; } else { assert s[|s| - 1] == b[|b| - 1]; }
    }
    ParseFloatFromDigit(s);
    UnsignedDecimalOf(s, w, b);
  }

  /** A fraction below one written with a leading zero, such as `0.5`. */
  lemma ParseFloatFraction(s: string, b: string)
    requires AllDigits(b) && s == "0." + b
    ensures ParseFloat(s) == Some(Finite(false, DigitsValue(b), -|b|))
  {
    var w := "0";
    assert s == w + "." + b;
    ParseFloatOfDecimal(s, w, b);
    LeadingZero(b);
  }

  lemma ParseFloatHalf(s: string)
    requires s == "0.5"
    ensures ParseFloat(s) == Some(Finite(false, 5, -1))
  {
    var b := "5";
    assert "0." + b == s;
    ParseFloatFraction(s, b);
    assert DigitsValue(b) == 5;
  }

  lemma {:induction false} LeadingZero(b: string)
    requires AllDigits(b)
    ensures AllDigits("0" + b) && DigitsValue("0" + b) == DigitsValue(b)
  {
    if b == [] {
      DigitsValueSnoc([], '0');
      assert [] + ['0'] == "0" + b;
    } else {
      var init := b[..|b| - 1];
      LeadingZero(init);
      DigitsValueSnoc("0" + init, b[|b| - 1]);
      assert ("0" + init) + [b[|b| - 1]] == "0" + b;
      DigitsValueSnoc(init, b[|b| - 1]);
      assert init + [b[|b| - 1]] == b;
    }
  }

  lemma UnsignedDecimalOf(s: string, w: string, b: string)
    requires AllDigits(w) && AllDigits(b) && w != [] && s == w + "." + b
    ensures ParseUnsignedDecimal(s, false) == Some(Finite(false, DigitsValue(w + b), -|b|))
  {
    assert s == w + ("." + b);
    SplitOf(s, w, b);
  }

  lemma SplitOf(s: string, w: string, b: string)
    requires AllDigits(w) && AllDigits(b) && s == w + ("." + b)
    ensures SplitDecimal(s) == (w, b, [])
  {
    LeadingDigitsPrefix(w, "." + b);
    assert s[..|w|] == w && s[|w|..] == "." + b;
    assert ("." + b)[1..] == b;
    LeadingDigitsAll(b);
    assert b[..|b|] == b && b[|b|..] == [];
  }

  lemma {:induction false} LeadingDigitsPrefix(w: string, rest: string)
    requires AllDigits(w)
    requires rest != [] && !IsDigit(rest[0])
    ensures LeadingDigits(w + rest) == |w|
  {
    if w != [] {
      assert (w + rest)[1..] == w[1..] + rest;
      LeadingDigitsPrefix(w[1..], rest);
    }
  }

  lemma {:induction false} LeadingDigitsAll(w: string)
    requires AllDigits(w)
    ensures LeadingDigits(w) == |w|
  {
    if w != [] {
      LeadingDigitsAll(w[1..]);
    }
  }

  /** Python's `a <= b` on strings: lexicographic by code point, a prefix first. */
  function StrLe(a: string, b: string): bool
  {
    if a == [] then true
    else if b == [] then false
    else if a[0] != b[0] then a[0] < b[0]
    else StrLe(a[1..], b[1..])
  }

  lemma {:induction false} StrLeTotal(a: string, b: string)
    ensures StrLe(a, b) || StrLe(b, a)
  {
    if a != [] && b != [] && a[0] == b[0] {
      StrLeTotal(a[1..], b[1..]);
    }
  }

  lemma {:induction false} StrLeTransitive(a: string, b: string, c: string)
    requires StrLe(a, b) && StrLe(b, c)
    ensures StrLe(a, c)
  {
    if a != [] && b != [] && c != [] && a[0] == b[0] && b[0] == c[0] {
      StrLeTransitive(a[1..], b[1..], c[1..]);
    }
  }

  lemma {:induction false} StrLeAntisymmetric(a: string, b: string)
    requires StrLe(a, b) && StrLe(b, a)
    ensures a == b
  {
    if a != [] && b != [] {
      StrLeAntisymmetric(a[1..], b[1..]);
      assert a == [a[0]] + a[1..] && b == [b[0]] + b[1..];
    }
  }
}
