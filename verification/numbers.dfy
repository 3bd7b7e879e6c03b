/**
  Temperatures. The system keeps a temperature as a Java `double` but only
  ever prints it, parses it back with `Double.parseDouble`, compares it with
  the alert threshold and formats it with `%.2f`. The model keeps the decimal
  text and gives it the exact value the decimal denotes; binary rounding is
  not modelled.
*/
module Numbers {
  import opened Optional
  import opened Text

  /** A parsed `double`: a finite value, an infinity or NaN. */
  datatype Double = Finite(value: real) | Infinity(negative: bool) | NaN

  /** The alert threshold of the cloud tier, in degrees. */
  const Threshold: real := 25.0

  /** `temperature > 25.0` on a `double`: strict, and false for NaN. */
  function Exceeds(d: Double): (above: bool)
    ensures d.NaN? ==> !above
    ensures d.Finite? ==> (above <==> d.value > Threshold)
    ensures d.Infinity? ==> (above <==> !d.negative)
  {
    match d
    case Finite(v) => v > Threshold
    case Infinity(negative) => !negative
    case NaN => false
  }

  function Pow10(n: nat): (p: nat)
    ensures p >= 1
  {
    if n == 0 then 1 else 10 * Pow10(n - 1)
  }

  /** The value of the digit string `m` with `frac` fraction digits, times
      ten to the `e`. */
  function Scale(m: nat, frac: nat, e: int): (v: real)
    ensures v >= 0.0
    ensures e == 0 ==> v == m as real / Pow10(frac) as real
  {
    if e >= 0 then (m * Pow10(e)) as real / Pow10(frac) as real
    else m as real / (Pow10(frac) * Pow10(-e)) as real
  }

  /** Optional sign followed by at least one digit. */
  function ParseExponent(x: string): Option<int>
  {
    var negative := |x| > 0 && x[0] == '-';
    var digits := if |x| > 0 && (x[0] == '+' || x[0] == '-') then x[1..] else x;
    if |digits| > 0 && AllDigits(digits) then
      Some(if negative then 0 - DigitsValue(digits) else DigitsValue(digits))
    else None
  }

  predicate IsTypeSuffix(ch: char) {
    ch == 'f' || ch == 'F' || ch == 'd' || ch == 'D'
  }

  predicate IsExponentMark(ch: char) {
    ch == 'e' || ch == 'E'
  }

  /** First index of an exponent mark in `s`, or `|s|`. */
  function ExponentIndex(s: string): (i: nat)
    ensures i <= |s|
    ensures forall k :: 0 <= k < i ==> !IsExponentMark(s[k])
  {
    if |s| == 0 || IsExponentMark(s[0]) then 0 else ExponentIndex(s[1..]) + 1
  }

  /** `u` without a trailing type suffix (`f`, `F`, `d`, `D`). */
  function DropTypeSuffix(u: string): string
  {
    if |u| > 0 && IsTypeSuffix(u[|u| - 1]) then u[..|u| - 1] else u
  }

  /** Digits with at most one point and at least one digit: the digit string
      without the point and the number of digits after it. */
  function ParseMantissa(m: string): Option<(string, nat)>
  {
    var dot := IndexOf(m, '.');
    var whole := m[..dot];
    var fraction := if dot < |m| then m[dot + 1..] else "";
    if AllDigits(whole) && AllDigits(fraction) && |whole| + |fraction| > 0 then
      Some((whole + fraction, |fraction|))
    else None
  }

  /** The unsigned decimal forms `Double.parseDouble` accepts: a mantissa, an
      optional exponent and an optional type suffix. */
  function ParseUnsigned(u: string): (v: Option<real>)
    ensures v.Some? ==> v.value >= 0.0
  {
    var body := DropTypeSuffix(u);
    var e := ExponentIndex(body);
    var exponent := if e == |body| then Some(0) else ParseExponent(body[e + 1..]);
    match ParseMantissa(body[..e])
    case None => None
    case Some(digits) =>
      if exponent.Some? then Some(Scale(DigitsValue(digits.0), digits.1, exponent.value))
      else None
  }

  /** `Double.parseDouble` on text already trimmed. */
  function ParseTrimmed(t: string): Option<Double>
  {
    var negative := |t| > 0 && t[0] == '-';
    var rest := if |t| > 0 && (t[0] == '+' || t[0] == '-') then t[1..] else t;
    if rest == "NaN" then Some(NaN)
    else if rest == "Infinity" then Some(Infinity(negative))
    else match ParseUnsigned(rest)
      case None => None
      case Some(v) => Some(Finite(if negative then -v else v))
  }

  /** `Double.parseDouble` without hexadecimal literals: surrounding blanks
      are ignored, an optional sign precedes `NaN`, `Infinity` or a decimal,
      and anything else is a `NumberFormatException`, here `None`. A finite
      result is negative only when the text starts with a minus sign. */
  function ParseDouble(text: string): (d: Option<Double>)
    ensures d.Some? ==> |Trim(text)| > 0
    ensures d.Some? && d.value.Finite? && d.value.value < 0.0 ==> Trim(text)[0] == '-'
  {
    ParseTrimmed(Trim(text))
  }

  lemma {:induction false} ExponentIndexAbsent(s: string)
    requires forall k :: 0 <= k < |s| ==> !IsExponentMark(s[k])
    ensures ExponentIndex(s) == |s|
  {
    if |s| > 0 {
      ExponentIndexAbsent(s[1..]);
    }
  }

  lemma ParseMantissaDecimal(whole: string, fraction: string)
    requires AllDigits(whole) && AllDigits(fraction) && |whole| > 0
    ensures ParseMantissa(whole + "." + fraction) == Some((whole + fraction, |fraction|))
  {
    var m := whole + "." + fraction;
    assert '.' !in whole;
    IndexOfAfter(whole, fraction, '.');
    assert m[..|whole|] == whole && m[|whole| + 1..] == fraction;
  }

  lemma ParseUnsignedDecimal(whole: string, fraction: string)
    requires AllDigits(whole) && AllDigits(fraction) && |whole| > 0
    ensures ParseUnsigned(whole + "." + fraction)
         == Some(DigitsValue(whole + fraction) as real / Pow10(|fraction|) as real)
  {
    var t := whole + "." + fraction;
    assert !IsTypeSuffix(t[|t| - 1]);
    assert DropTypeSuffix(t) == t;
    assert forall k :: 0 <= k < |t| ==> !IsExponentMark(t[k]);
    ExponentIndexAbsent(t);
    assert t[..|t|] == t;
    ParseMantissaDecimal(whole, fraction);
  }

  /** A plain decimal `whole.fraction` parses to its exact value. */
  lemma ParseDecimal(whole: string, fraction: string)
    requires |whole| > 0 && AllDigits(whole) && AllDigits(fraction)
    ensures ParseDouble(whole + "." + fraction)
         == Some(Finite(DigitsValue(whole + fraction) as real / Pow10(|fraction|) as real))
  {
    var t := whole + "." + fraction;
    assert t[0] == whole[0];
    assert Trimmed(t) by {
      assert t[|t| - 1] == if |fraction| == 0 then '.' else fraction[|fraction| - 1];
    }
    ParseUnsignedDecimal(whole, fraction);
    ParseUnsignedText(t, DigitsValue(whole + fraction) as real / Pow10(|fraction|) as real);
  }

  /** Unsigned text that starts with a digit and has no surrounding blanks
      parses to the value of its unsigned form. */
  lemma ParseUnsignedText(t: string, v: real)
    requires |t| > 0 && IsDigit(t[0]) && Trimmed(t)
    requires ParseUnsigned(t) == Some(v)
    ensures ParseDouble(t) == Some(Finite(v))
  {
    assert t != "NaN" && t != "Infinity" by {
      assert "NaN"[0] == 'N' && "Infinity"[0] == 'I';
    }
  }

  lemma DigitsValueAppend(a: string, ch: char)
    requires AllDigits(a) && IsDigit(ch)
    ensures AllDigits(a + [ch])
    ensures DigitsValue(a + [ch]) == DigitsValue(a) * 10 + (ch as int - '0' as int)
  {
    assert (a + [ch])[..|a|] == a;
  }

  /** The threshold is strict: a decimal reading raises an alert exactly when
      its value is above 25, so `25.0`, `25.00` and so on do not. */
  lemma ExceedsDecimal(whole: string, fraction: string)
    requires |whole| > 0 && AllDigits(whole) && AllDigits(fraction)
    ensures ParseDouble(whole + "." + fraction).Some?
    ensures Exceeds(ParseDouble(whole + "." + fraction).value)
        <==> DigitsValue(whole + fraction) > 25 * Pow10(|fraction|)
  {
    ParseDecimal(whole, fraction);
    QuotientAbove(DigitsValue(whole + fraction), Pow10(|fraction|));
  }

  lemma QuotientAbove(m: nat, p: nat)
    requires p >= 1
    ensures m as real / p as real > Threshold <==> m > 25 * p
  {
    var q := m as real / p as real;
    assert q * p as real == m as real;
    if q > 25.0 {
      assert q * p as real > 25.0 * p as real;
    } else {
      assert q * p as real <= 25.0 * p as real;
    }
  }

  // ---------------------------------------------------------------------------
  // String.format("%.2f", d)

  /** `%.2f` of a non-negative value: rounded half up to hundredths. */
  function Fixed2Magnitude(v: real): (s: string)
    requires v >= 0.0
    ensures ParseDouble(s).Some? && ParseDouble(s).value.Finite?
    ensures var x := ParseDouble(s).value.value; v - 0.005 < x <= v + 0.005
  {
    var cents := (v * 100.0 + 0.5).Floor;
    var whole := NatToString(cents / 100);
    var fraction := [DigitChar(cents / 10 % 10), DigitChar(cents % 10)];
    CentsValue(cents, whole, fraction);
    CentsRoundTrip(cents, whole, fraction);
    CentsNear(v, cents, ParseDouble(whole + "." + fraction).value.value);
    whole + "." + fraction
  }

  /** A value rounded half up to hundredths is within half a hundredth. */
  lemma CentsNear(v: real, cents: int, x: real)
    requires cents == (v * 100.0 + 0.5).Floor && x * 100.0 == cents as real
    ensures v - 0.005 < x <= v + 0.005
  {
  }

  /** The printed hundredths parse back to exactly the cents over a hundred. */
  lemma CentsRoundTrip(cents: nat, whole: string, fraction: string)
    requires |whole| > 0 && AllDigits(whole) && AllDigits(fraction) && Pow10(|fraction|) == 100
    requires DigitsValue(whole + fraction) == cents
    ensures ParseDouble(whole + "." + fraction).Some?
    ensures ParseDouble(whole + "." + fraction).value.Finite?
    ensures ParseDouble(whole + "." + fraction).value.value * 100.0 == cents as real
  {
    ParseDecimal(whole, fraction);
    HundredthsQuotient(DigitsValue(whole + fraction), Pow10(|fraction|), ParseDouble(whole + "." + fraction).value.value);
  }

  lemma HundredthsQuotient(digits: nat, scale: nat, x: real)
    requires scale == 100 && x == digits as real / scale as real
    ensures x * 100.0 == digits as real
  {
  }

  /** The digits `%.2f` prints, without the point, spell the cents. */
  lemma CentsValue(cents: nat, whole: string, fraction: string)
    requires whole == NatToString(cents / 100)
    requires fraction == [DigitChar(cents / 10 % 10), DigitChar(cents % 10)]
    ensures |whole| > 0 && AllDigits(whole) && AllDigits(fraction) && |fraction| == 2
    ensures DigitsValue(whole + fraction) == cents
  {
    DigitsValueAppend(whole, fraction[0]);
    DigitsValueAppend(whole + [fraction[0]], fraction[1]);
    assert whole + fraction == whole + [fraction[0]] + [fraction[1]];
    CentsDigits(cents);
  }

  lemma CentsDigits(cents: nat)
    ensures (cents / 100 * 10 + cents / 10 % 10) * 10 + cents % 10 == cents
  {
    var tens := cents / 10;
    assert cents == tens * 10 + cents % 10;
    assert tens == tens / 10 * 10 + tens % 10;
    assert tens / 10 == cents / 100;
  }

  /** `String.format("%.2f", d)` in a locale whose decimal separator is a
      point. */
  function Fixed2(d: Double): (s: string)
    ensures d.Finite? && d.value >= 0.0 ==>
      ParseDouble(s).Some? && ParseDouble(s).value.Finite?
      && d.value - 0.005 < ParseDouble(s).value.value <= d.value + 0.005
  {
    match d
    case NaN => "NaN"
    case Infinity(negative) => if negative then "-Infinity" else "Infinity"
    case Finite(v) => if v < 0.0 then "-" + Fixed2Magnitude(-v) else Fixed2Magnitude(v)
  }
}
