/**
 * The numeric conversion the validation rules apply to a cell: Python's
 * `float(text)` over plain decimal literals (surrounding whitespace, an
 * optional sign, digits with an optional point, an optional exponent),
 * yielding an exact `real` instead of a binary float.
 */
module Numbers {
  import opened Wrappers

  predicate IsDigit(c: char) {
    '0' <= c <= '9'
  }

  /**
   * The whitespace the conversion skips around a literal: space, TAB, LF, VT,
   * FF and CR. Python also skips the separators U+001C to U+001F and
   * non-ASCII whitespace; those are not modelled.
   */
  predicate IsSpace(c: char) {
    c == ' ' || '\t' <= c <= '\r'
  }

  predicate AllDigits(s: string) {
    forall i :: 0 <= i < |s| ==> IsDigit(s[i])
  }

  /** Length of the longest all-digit prefix of `s`. */
  function DigitPrefix(s: string): (n: nat)
    ensures n <= |s|
    ensures AllDigits(s[..n])
    ensures n < |s| ==> !IsDigit(s[n])
  {
    if s == [] || !IsDigit(s[0]) then 0
    else
      var n := 1 + DigitPrefix(s[1..]);
      assert s[..n] == [s[0]] + s[1..][..n - 1];
      n
  }

  /** The number a string of decimal digits denotes. */
  function DigitsValue(d: string): nat
    requires AllDigits(d)
    decreases |d|
  {
    if d == [] then 0
    else 10 * DigitsValue(d[..|d| - 1]) + (d[|d| - 1] as int - '0' as int)
  }

  function Pow10(n: nat): (r: real)
    ensures r >= 1.0
  {
    if n == 0 then 1.0 else 10.0 * Pow10(n - 1)
  }

  /** `s` without leading whitespace. */
  function TrimStart(s: string): (r: string)
    ensures exists k :: 0 <= k <= |s| && r == s[k..] && forall j :: 0 <= j < k ==> IsSpace(s[j])
    ensures r != [] ==> !IsSpace(r[0])
    ensures forall c :: c in r ==> c in s
    ensures (s == [] || !IsSpace(s[0])) ==> r == s
    decreases |s|
  {
    if s != [] && IsSpace(s[0]) then
      var r := TrimStart(s[1..]);
      assert exists k :: 0 <= k <= |s| && r == s[k..] && forall j :: 0 <= j < k ==> IsSpace(s[j]) by {
        var k :| 0 <= k <= |s[1..]| && r == s[1..][k..] && forall j :: 0 <= j < k ==> IsSpace(s[1..][j]);
        assert s[1..][k..] == s[k + 1..];
        forall j | 0 <= j < k + 1 ensures IsSpace(s[j]) {
          if j > 0 {
            assert s[j] == s[1..][j - 1];
          }
        }
      }
      r
    else
      assert s[0..] == s;
      s
  }

  /** `s` without trailing whitespace. */
  function TrimEnd(s: string): (r: string)
    ensures exists k :: 0 <= k <= |s| && r == s[..k] && forall j :: k <= j < |s| ==> IsSpace(s[j])
    ensures r != [] ==> !IsSpace(r[|r| - 1])
    ensures forall c :: c in r ==> c in s
    ensures (s == [] || !IsSpace(s[|s| - 1])) ==> r == s
    decreases |s|
  {
    if s != [] && IsSpace(s[|s| - 1]) then
      var init := s[..|s| - 1];
      var r := TrimEnd(init);
      assert exists k :: 0 <= k <= |s| && r == s[..k] && forall j :: k <= j < |s| ==> IsSpace(s[j]) by {
        var k :| 0 <= k <= |init| && r == init[..k] && forall j :: k <= j < |init| ==> IsSpace(init[j]);
        assert init[..k] == s[..k];
        forall j | k <= j < |s| ensures IsSpace(s[j]) {
          if j < |init| {
            assert s[j] == init[j];
          }
        }
      }
      r
    else
      assert s[..|s|] == s;
      s
  }

  function Trim(s: string): (r: string)
    ensures forall c :: c in r ==> c in s
  {
    TrimEnd(TrimStart(s))
  }

  /** The exponent suffix: empty (exponent 0), or `e`/`E`, an optional sign and digits. */
  function ParseExponent(s: string): Option<int> {
    if s == [] then Some(0)
    else if s[0] != 'e' && s[0] != 'E' then None
    else
      var u := s[1..];
      var neg := u != [] && u[0] == '-';
      var digits := if u != [] && (u[0] == '-' || u[0] == '+') then u[1..] else u;
      if digits == [] || DigitPrefix(digits) != |digits| then None
      else
        var e: int := DigitsValue(digits);
        Some(if neg then -e else e)
  }

  /**
   * The mantissa of an unsigned literal: its digits with the point removed,
   * how many of them follow the point, and the text after the mantissa.
   */
  datatype Mantissa = Mantissa(digits: string, scale: nat, rest: string)

  /** Digits, then optionally a point and more digits. */
  function SplitMantissa(u: string): (m: Mantissa)
    ensures AllDigits(m.digits)
  {
    var n := DigitPrefix(u);
    var afterInt := u[n..];
    if afterInt != [] && afterInt[0] == '.' then
      var afterPoint := afterInt[1..];
      var f := DigitPrefix(afterPoint);
      Mantissa(u[..n] + afterPoint[..f], f, afterPoint[f..])
    else
      Mantissa(u[..n], 0, afterInt)
  }

  /** `x` times ten to the power `e`. */
  function Scale(x: real, e: int): (y: real)
    ensures x >= 0.0 ==> y >= 0.0
  {
    if e >= 0 then x * Pow10(e) else x / Pow10(-e)
  }

  /**
   * An unsigned decimal literal: digits with an optional point and
   * fraction, at least one digit in all, then the exponent suffix.
   */
  function ParseUnsigned(u: string): (r: Option<real>)
    ensures r.Some? ==> r.value >= 0.0
  {
    var m := SplitMantissa(u);
    if m.digits == [] then None
    else
      match ParseExponent(m.rest)
      case None => None
      case Some(e) => Some(Scale(DigitsValue(m.digits) as real / Pow10(m.scale), e))
  }

  /** A literal with an optional sign: empty text never converts, and a negative value needs a minus sign. */
  function ParseSigned(t: string): (r: Option<real>)
    ensures t == [] ==> r == None
    ensures r.Some? && r.value < 0.0 ==> t[0] == '-'
  {
    if t != [] && (t[0] == '-' || t[0] == '+') then
      match ParseUnsigned(t[1..])
      case None => None
      case Some(v) => Some(if t[0] == '-' then -v else v)
    else ParseUnsigned(t)
  }

  /**
   * `float(text)`: `None` where Python raises ValueError. Blank text never
   * converts, and a negative value needs a leading minus sign.
   */
  function ParseNum(text: string): (r: Option<real>)
    ensures Trim(text) == [] ==> r == None
    ensures r.Some? && r.value < 0.0 ==> Trim(text)[0] == '-'
  {
    ParseSigned(Trim(text))
  }

  /** An unsigned literal needs at least one digit. */
  lemma NoDigitUnsigned(u: string)
    requires forall i :: 0 <= i < |u| ==> !IsDigit(u[i])
    ensures ParseUnsigned(u) == None
  {
    assert DigitPrefix(u) == 0;
    if u != [] && u[0] == '.' {
      var afterPoint := u[1..];
      assert afterPoint != [] ==> !IsDigit(afterPoint[0]);
      assert DigitPrefix(afterPoint) == 0;
    }
    assert SplitMantissa(u).digits == [];
  }

  /** A text without a single digit never converts ("abc", "N/A"). */
  lemma NoDigitNoNumber(text: string)
    requires forall i :: 0 <= i < |text| ==> !IsDigit(text[i])
    ensures ParseNum(text) == None
  {
    var t := Trim(text);
    assert forall i :: 0 <= i < |t| ==> !IsDigit(t[i]) by {
      forall i | 0 <= i < |t| ensures !IsDigit(t[i]) {
        assert t[i] in t;
      }
    }
    if t != [] && (t[0] == '-' || t[0] == '+') {
      var u := t[1..];
      assert forall i :: 0 <= i < |u| ==> !IsDigit(u[i]) by {
        forall i | 0 <= i < |u| ensures !IsDigit(u[i]) {
          assert u[i] == t[i + 1];
        }
      }
      NoDigitUnsigned(u);
    } else {
      NoDigitUnsigned(t);
    }
  }

  function Digit(d: nat): (c: char)
    requires d < 10
    ensures IsDigit(c)
  {
    ('0' as int + d) as char
  }

  /** `str(n)` for a natural number. */
  function NatText(n: nat): (s: string)
    ensures s != [] && AllDigits(s)
  {
    if n < 10 then [Digit(n)] else NatText(n / 10) + [Digit(n % 10)]
  }

  /** `str(x)` for an integer. */
  function IntText(x: int): string {
    if x < 0 then "-" + NatText(-x) else NatText(x)
  }

  lemma {:induction false} NatTextValue(n: nat)
    ensures DigitsValue(NatText(n)) == n
  {
    if n >= 10 {
      NatTextValue(n / 10);
      var s := NatText(n);
      assert s[..|s| - 1] == NatText(n / 10);
    }
  }

  lemma DigitPrefixAll(s: string)
    requires AllDigits(s)
    ensures DigitPrefix(s) == |s|
  {
  }

  /** A plain run of digits converts to the number it denotes. */
  lemma ParseDigits(u: string)
    requires u != [] && AllDigits(u)
    ensures ParseUnsigned(u) == Some(DigitsValue(u) as real)
  {
    DigitPrefixAll(u);
    assert u[|u|..] == [] && u[..|u|] == u;
    assert SplitMantissa(u) == Mantissa(u, 0, []);
    assert Scale(DigitsValue(u) as real / Pow10(0), 0) == DigitsValue(u) as real;
  }

  /** Text that neither starts nor ends with whitespace is left as it is. */
  lemma TrimUnpadded(s: string)
    requires s != [] && !IsSpace(s[0]) && !IsSpace(s[|s| - 1])
    ensures Trim(s) == s
  {
    assert TrimStart(s) == s;
  }

  /** The text of a non-negative integer, its digits, converts back to it. */
  lemma NatTextRoundTrip(x: int)
    requires x >= 0
    ensures ParseNum(IntText(x)) == Some(x as real)
  {
    var s := IntText(x);
    assert s == NatText(x);
    assert IsDigit(s[0]) && IsDigit(s[|s| - 1]);
    TrimUnpadded(s);
    ParseDigits(s);
    NatTextValue(x);
  }

  /** The text of a negative integer, a minus sign and digits, converts back to it. */
  lemma NegTextRoundTrip(x: int)
    requires x < 0
    ensures ParseNum(IntText(x)) == Some(x as real)
  {
    var d := NatText(-x);
    var s := IntText(x);
    assert s == "-" + d;
    assert s[0] == '-' && s[|s| - 1] == d[|d| - 1] && IsDigit(d[|d| - 1]);
    TrimUnpadded(s);
    assert s[1..] == d;
    ParseDigits(d);
    NatTextValue(-x);
  }

  /** The text of every integer converts back to that integer. */
  lemma IntTextRoundTrip(x: int)
    ensures ParseNum(IntText(x)) == Some(x as real)
  {
    if x < 0 {
      NegTextRoundTrip(x);
    } else {
      NatTextRoundTrip(x);
    }
  }
}
