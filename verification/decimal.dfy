/**
 Exact decimal parsing, standing in for Python's `float()` on the short
 numeric fields of a P1 telegram. The accepted text is: optional surrounding
 whitespace, an optional sign, then decimal digits with at most one decimal
 point and at least one digit. The value is the exact rational the text
 denotes; there is no binary floating-point rounding.
 */
module Decimal {
  import opened Wrappers
  import opened Text

  predicate IsDigit(c: char) {
    '0' <= c <= '9'
  }

  predicate AllDigits(s: string) {
    forall i :: 0 <= i < |s| ==> IsDigit(s[i])
  }

  function DigitValue(c: char): (d: nat)
    requires IsDigit(c)
    ensures d < 10
  {
    (c as int) - ('0' as int)
  }

  function DigitChar(d: nat): (c: char)
    requires d < 10
    ensures IsDigit(c) && DigitValue(c) == d
  {
    (('0' as int) + d) as char
  }

  function Pow10(k: nat): (r: nat)
    ensures r >= 1
  {
    if k == 0 then 1 else 10 * Pow10(k - 1)
  }

  /** The number a string of decimal digits denotes, most significant digit first. */
  function DigitsValue(s: string): (v: nat)
    requires AllDigits(s)
    ensures v < Pow10(|s|)
    decreases |s|
  {
    if |s| == 0 then 0 else 10 * DigitsValue(s[..|s| - 1]) + DigitValue(s[|s| - 1])
  }

  /** Position of the first occurrence of `c` in `s`. */
  function IndexOf(s: string, c: char): (r: Option<nat>)
    ensures r.None? <==> c !in s
    ensures r.Some? ==> r.value < |s| && s[r.value] == c && c !in s[..r.value]
    decreases |s|
  {
    if |s| == 0 then None
    else if s[0] == c then Some(0)
    else match IndexOf(s[1..], c)
      case None => None
      case Some(i) => assert s[..i + 1] == [s[0]] + s[1..][..i]; Some(i + 1)
  }

  /** The value of the decimal `whole.frac`. */
  function FixedValue(whole: string, frac: string): (v: real)
    requires AllDigits(whole) && AllDigits(frac)
    ensures v >= 0.0
  {
    DigitsValue(whole) as real + Shift(DigitsValue(frac), |frac|)
  }

  /** `n` moved `k` places to the right of the decimal point: `n / 10^k`. */
  function Shift(n: nat, k: nat): (v: real)
    ensures v >= 0.0
  {
    n as real / Pow10(k) as real
  }

  /** An unsigned decimal: digits, optionally one point, and at least one digit in all. */
  function ParseUnsigned(s: string): (r: Option<real>)
    ensures r.Some? ==> r.value >= 0.0
    ensures r.Some? ==> forall i :: 0 <= i < |s| ==> IsDigit(s[i]) || s[i] == '.'
    ensures r.Some? ==> exists i :: 0 <= i < |s| && IsDigit(s[i])
  {
    match IndexOf(s, '.')
    case None =>
      if |s| > 0 && AllDigits(s) then assert IsDigit(s[0]); Some(DigitsValue(s) as real) else None
    case Some(p) =>
      var whole, frac := s[..p], s[p + 1..];
      if AllDigits(whole) && AllDigits(frac) && |whole| + |frac| > 0 then
        assert forall i :: 0 <= i < |s| && i != p ==> (i < p && s[i] == whole[i]) || (p < i && s[i] == frac[i - p - 1]);
        assert if |whole| > 0 then IsDigit(s[0]) else IsDigit(s[p + 1]);
        Some(FixedValue(whole, frac))
      else None
  }

  /** Characters `float()` can accept in a decimal once surrounding whitespace is gone. */
  predicate IsNumberChar(c: char) {
    IsDigit(c) || c == '.' || c == '+' || c == '-'
  }

  /** A stripped decimal with an optional leading sign. */
  function ParseSigned(t: string): (r: Option<real>)
    ensures r.Some? ==> forall i :: 0 <= i < |t| ==> IsNumberChar(t[i])
    ensures r.Some? ==> exists i :: 0 <= i < |t| && IsDigit(t[i])
  {
    if |t| > 0 && (t[0] == '+' || t[0] == '-') then
      var body := t[1..];
      match ParseUnsigned(body)
      case None => None
      case Some(v) =>
        var j :| 0 <= j < |body| && IsDigit(body[j]);
        assert t[j + 1] == body[j];
        Some(if t[0] == '-' then -v else v)
    else
      ParseUnsigned(t)
  }

  /**
   `float(s)` on the decimal forms a meter emits; `None` is Python's
   `ValueError`. Only space and TAB..CR are skipped around the number, not
   the wider set `str.strip()` removes.
   */
  function ParseFloat(s: string): Option<real> {
    ParseSigned(Trim(s, FloatSpaces))
  }

  /**
   `ParseFloat` rejects every text holding a character other than a digit, a
   point, a sign or `float()`'s whitespace, and every text without a digit.
   */
  lemma {:induction false} ParseFloatAccepts(s: string)
    requires ParseFloat(s).Some?
    ensures forall i :: 0 <= i < |s| ==> IsNumberChar(s[i]) || s[i] in FloatSpaces
    ensures exists i :: 0 <= i < |s| && IsDigit(s[i])
  {
    TrimLift(s);
  }

  /**
   A character that is neither part of a number nor `float()`'s whitespace
   makes the text unparsable; the separators 0x1C..0x1F, which `str.strip()`
   would remove, are such characters.
   */
  lemma {:induction false} ParseFloatRejects(s: string, i: nat)
    requires i < |s| && !IsNumberChar(s[i]) && s[i] !in FloatSpaces
    ensures ParseFloat(s) == None
  {
    if ParseFloat(s).Some? {
      ParseFloatAccepts(s);
    }
  }

  /** A unit separator after a number is not padding for `float()`, though `str.strip()` removes it. */
  lemma {:induction false} SeparatorNotPadding()
    ensures Strip("1\U{1C}") == "1"
    ensures ParseFloat("1\U{1C}") == None
  {
    TrimSpec("1\U{1C}", StrSpaces);
    assert LeadingSpaces("1\U{1C}", StrSpaces) == 0;
    ParseFloatRejects("1\U{1C}", 1);
  }

  /** What holds of the trimmed text holds of the original up to `float()`'s whitespace. */
  lemma {:induction false} TrimLift(s: string)
    requires forall i :: 0 <= i < |Trim(s, FloatSpaces)| ==> IsNumberChar(Trim(s, FloatSpaces)[i])
    requires exists i :: 0 <= i < |Trim(s, FloatSpaces)| && IsDigit(Trim(s, FloatSpaces)[i])
    ensures forall i :: 0 <= i < |s| ==> IsNumberChar(s[i]) || s[i] in FloatSpaces
    ensures exists i :: 0 <= i < |s| && IsDigit(s[i])
  {
    TrimSpec(s, FloatSpaces);
    var t := Trim(s, FloatSpaces);
    var a := LeadingSpaces(s, FloatSpaces);
    forall i | 0 <= i < |s|
      ensures IsNumberChar(s[i]) || s[i] in FloatSpaces
    {
      if a <= i < a + |t| {
        assert s[i] == t[i - a];
      }
    }
    var j :| 0 <= j < |t| && IsDigit(t[j]);
    assert s[a + j] == t[j];
  }

  /** Whitespace that `float()` skips does not change what `ParseFloat` reads. */
  lemma {:induction false} ParseFloatIgnoresPadding(s: string)
    ensures ParseFloat(Trim(s, FloatSpaces)) == ParseFloat(s)
  {
    TrimIdempotent(s, FloatSpaces);
  }

  /** The `k`-digit zero-padded decimal rendering of `n` (the low `k` digits). */
  function Pad(n: nat, k: nat): (s: string)
    ensures |s| == k && AllDigits(s)
  {
    if k == 0 then [] else Pad(n / 10, k - 1) + [DigitChar(n % 10)]
  }

  /** Reading back a zero-padded rendering gives the number, as long as it fits. */
  lemma {:induction false} PadValue(n: nat, k: nat)
    requires n < Pow10(k)
    ensures DigitsValue(Pad(n, k)) == n
  {
    if k > 0 {
      var s, d := Pad(n, k), n % 10;
      assert s == Pad(n / 10, k - 1) + [DigitChar(d)];
      assert s[..k - 1] == Pad(n / 10, k - 1) && s[k - 1] == DigitChar(d);
      assert DigitsValue(s) == 10 * DigitsValue(Pad(n / 10, k - 1)) + d;
      assert n / 10 < Pow10(k - 1) by {
        assert Pow10(k) == 10 * Pow10(k - 1);
      }
      PadValue(n / 10, k - 1);
      assert n == 10 * (n / 10) + d;
    }
  }

  /**
   Rendering a fixed-point number as `whole.frac` with leading zeros and
   parsing it back returns exactly `i + f / 10^k`.
   */
  lemma {:induction false} ParseFixed(i: nat, w: nat, f: nat, k: nat)
    requires i < Pow10(w) && f < Pow10(k) && w + k > 0
    ensures ParseFloat(Pad(i, w) + "." + Pad(f, k)) == Some(i as real + Shift(f, k))
  {
    ParseFixedText(Pad(i, w), Pad(f, k));
    PadFixedValue(i, w, f, k);
  }

  /** The fixed-point value of two zero-padded renderings. */
  lemma {:induction false} PadFixedValue(i: nat, w: nat, f: nat, k: nat)
    requires i < Pow10(w) && f < Pow10(k)
    ensures FixedValue(Pad(i, w), Pad(f, k)) == i as real + Shift(f, k)
  {
    PadValue(i, w);
    PadValue(f, k);
  }

  /** Digits, a point and digits, with nothing around them, parse to their fixed-point value. */
  lemma {:induction false} ParseFixedText(whole: string, frac: string)
    requires AllDigits(whole) && AllDigits(frac) && |whole| + |frac| > 0
    ensures ParseFloat(whole + "." + frac) == Some(FixedValue(whole, frac))
  {
    var s := whole + "." + frac;
    assert s[0] == '.' || IsDigit(s[0]);
    assert s[|s| - 1] == '.' || IsDigit(s[|s| - 1]);
    TrimOfTrimmed(s, FloatSpaces);
    assert ParseSigned(s) == ParseUnsigned(s);
    ParseUnsignedPoint(whole, frac);
  }

  /** A digit string, a point and a digit string parse to the exact fixed-point value. */
  lemma {:induction false} ParseUnsignedPoint(whole: string, frac: string)
    requires AllDigits(whole) && AllDigits(frac) && |whole| + |frac| > 0
    ensures ParseUnsigned(whole + "." + frac) == Some(FixedValue(whole, frac))
  {
    var s := whole + "." + frac;
    assert '.' !in whole;
    IndexOfAfter(whole, frac);
    assert s[..|whole|] == whole;
    assert s[|whole| + 1..] == frac;
  }

  /** `v` under the sign `sign` written in front of it: only `-` negates. */
  function ApplySign(sign: string, v: real): real {
    if sign == "-" then -v else v
  }

  /**
   A text with an optional sign, whose body starts and ends with a digit or a
   point, parses as the body does, negated under `-`.
   */
  lemma {:induction false} ParseSignedBody(sign: string, body: string, v: real)
    requires sign == "" || sign == "+" || sign == "-"
    requires |body| > 0 && (IsDigit(body[0]) || body[0] == '.') && (IsDigit(body[|body| - 1]) || body[|body| - 1] == '.')
    requires ParseUnsigned(body) == Some(v)
    ensures ParseFloat(sign + body) == Some(ApplySign(sign, v))
  {
    var s := sign + body;
    assert ParseFloat(s) == ParseSigned(s) by {
      assert s[|s| - 1] == body[|body| - 1];
      TrimOfTrimmed(s, FloatSpaces);
    }
    if sign == "" {
      assert s == body;
      UnsignedText(body);
    } else {
      SignedText(sign, body, v);
    }
  }

  /** Without a leading sign, the signed reading is the unsigned one. */
  lemma {:induction false} UnsignedText(t: string)
    requires |t| > 0 && (IsDigit(t[0]) || t[0] == '.')
    ensures ParseSigned(t) == ParseUnsigned(t)
  {
  }

  /** A leading sign applies to the unsigned reading of the rest. */
  lemma {:induction false} SignedText(sign: string, body: string, v: real)
    requires sign == "+" || sign == "-"
    requires ParseUnsigned(body) == Some(v)
    ensures ParseSigned(sign + body) == Some(ApplySign(sign, v))
  {
    assert (sign + body)[1..] == body;
  }

  /** A sign or none, digits, a point and digits parse to the signed fixed-point value. */
  lemma {:induction false} ParseSignedFixed(sign: string, whole: string, frac: string)
    requires sign == "" || sign == "+" || sign == "-"
    requires AllDigits(whole) && AllDigits(frac) && |whole| + |frac| > 0
    ensures ParseFloat(sign + whole + "." + frac) == Some(ApplySign(sign, FixedValue(whole, frac)))
  {
    var body := whole + "." + frac;
    var v := FixedValue(whole, frac);
    assert sign + whole + "." + frac == sign + body;
    assert ParseFloat(sign + body) == Some(ApplySign(sign, v)) by {
      assert body[0] == '.' || IsDigit(body[0]);
      assert body[|body| - 1] == '.' || IsDigit(body[|body| - 1]);
      ParseUnsignedPoint(whole, frac);
      ParseSignedBody(sign, body, v);
    }
  }

  /** A sign or none followed by digits without a point parse to the signed integer they denote. */
  lemma {:induction false} ParseSignedDigits(sign: string, digits: string)
    requires sign == "" || sign == "+" || sign == "-"
    requires AllDigits(digits) && |digits| > 0
    ensures ParseFloat(sign + digits) == Some(ApplySign(sign, DigitsValue(digits) as real))
  {
    assert '.' !in digits by {
      assert forall i :: 0 <= i < |digits| ==> digits[i] != '.';
    }
    assert ParseUnsigned(digits) == Some(DigitsValue(digits) as real);
    ParseSignedBody(sign, digits, DigitsValue(digits) as real);
  }

  /** The first point of `whole + "." + frac` is the one just after `whole` when `whole` has none. */
  lemma {:induction false} IndexOfAfter(whole: string, frac: string)
    requires '.' !in whole
    ensures IndexOf(whole + "." + frac, '.') == Some(|whole|)
  {
    var s := whole + "." + frac;
    assert s[|whole|] == '.';
    assert forall j :: 0 <= j < |whole| ==> s[j] == whole[j];
  }
}
