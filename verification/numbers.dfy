/** Amounts and ids as the ledgers store them: decimal text in, exact numbers out.
    `float(text)` and `str(x)` become `ParseDecimal` and `FormatDecimal`; `int(text)`
    and `str(n)` become `ParseInt` and `FormatInt`. Binary floating point is not
    modelled: an amount is the exact decimal its text denotes. */
module Numbers {
  import opened Wrappers
  import opened Text

  function Pow10(e: nat): (r: nat)
    ensures r >= 1
  {
    if e == 0 then 1 else 10 * Pow10(e - 1)
  }

  lemma {:induction false} Pow10Add(a: nat, b: nat)
    ensures Pow10(a + b) == Pow10(a) * Pow10(b)
  {
    if b > 0 {
      Pow10Add(a, b - 1);
      calc {
        Pow10(a + b);
        10 * Pow10(a + b - 1);
        10 * (Pow10(a) * Pow10(b - 1));
        Pow10(a) * (10 * Pow10(b - 1));
        Pow10(a) * Pow10(b);
      }
    }
  }

  function Abs(i: int): nat { if i < 0 then -i else i }

  function DigitOf(c: char): (d: nat)
    requires IsDigit(c)
    ensures d < 10
  {
    c as int - '0' as int
  }

  function DigitChar(d: nat): (c: char)
    requires d < 10
    ensures IsDigit(c) && DigitOf(c) == d
  {
    ('0' as int + d) as char
  }

  /** The number a digit string denotes, most significant digit first. */
  function DigitsValue(s: string): nat
    requires AllDigits(s)
  {
    if |s| == 0 then 0 else 10 * DigitsValue(s[..|s| - 1]) + DigitOf(s[|s| - 1])
  }

  /** `str(n)` for a natural number: canonical digits, no leading zero. */
  function NatToDigits(n: nat): (s: string)
    ensures |s| >= 1 && AllDigits(s)
    ensures DigitsValue(s) == n
    ensures n > 0 ==> s[0] != '0'
  {
    if n < 10 then [DigitChar(n)]
    else
      var s := NatToDigits(n / 10) + [DigitChar(n % 10)];
      assert s[..|s| - 1] == NatToDigits(n / 10);
      s
  }

  lemma {:induction false} DigitsLength(n: nat, k: nat)
    requires 1 <= k && n < Pow10(k)
    ensures |NatToDigits(n)| <= k
  {
    if n >= 10 {
      assert k >= 2;
      assert Pow10(k) == 10 * Pow10(k - 1);
      DigitsLength(n / 10, k - 1);
    }
  }

  function Zeros(k: nat): (r: string)
    ensures |r| == k && AllDigits(r) && DigitsValue(r) == 0
  {
    if k == 0 then ""
    else
      var r := Zeros(k - 1) + "0";
      assert r[..k - 1] == Zeros(k - 1);
      r
  }

  /** Leading zeros do not change the value of a digit string. */
  lemma {:induction false} PaddedValue(z: string, s: string)
    requires AllDigits(z) && DigitsValue(z) == 0 && AllDigits(s)
    ensures AllDigits(z + s) && DigitsValue(z + s) == DigitsValue(s)
    decreases |s|
  {
    if |s| == 0 {
      assert z + s == z;
    } else {
      var t := s[..|s| - 1];
      PaddedValue(z, t);
      assert (z + s)[..|z + s| - 1] == z + t;
    }
  }

  /** Left-pads a digit string with zeros to `width` characters. */
  function PadLeft(s: string, width: nat): (r: string)
    requires AllDigits(s)
    ensures AllDigits(r) && DigitsValue(r) == DigitsValue(s)
    ensures |s| <= width ==> |r| == width
  {
    if |s| >= width then s
    else
      PaddedValue(Zeros(width - |s|), s);
      Zeros(width - |s|) + s
  }

  /** A decimal amount: `mantissa / 10^scale`, the exact number a literal such as "12.50" denotes. */
  datatype Decimal = Decimal(mantissa: int, scale: nat)

  /** The number `mantissa / 10^scale`, one decimal place at a time. */
  function Value(d: Decimal): real
    decreases d.scale
  {
    if d.scale == 0 then d.mantissa as real else Value(Decimal(d.mantissa, d.scale - 1)) / 10.0
  }

  /** The sign of a value is the sign of its mantissa. */
  lemma {:induction false} ValueSign(d: Decimal)
    ensures Value(d) > 0.0 <==> d.mantissa > 0
    ensures Value(d) == 0.0 <==> d.mantissa == 0
    decreases d.scale
  {
    if d.scale > 0 {
      ValueSign(Decimal(d.mantissa, d.scale - 1));
    }
  }

  /** The digits of `n`, padded to more than `scale` digits, with a point
      before the last `scale` of them when `scale > 0`. */
  function FormatUnsigned(n: nat, scale: nat): (s: string)
    ensures |s| > 0 && IsDigit(s[0]) && IsDigit(s[|s| - 1])
  {
    var ds := PadLeft(NatToDigits(n), scale + 1);
    if scale == 0 then ds else ds[..|ds| - scale] + "." + ds[|ds| - scale..]
  }

  /** `str(amount)`: an optional minus sign followed by the unsigned text. */
  function FormatDecimal(d: Decimal): string
  {
    var u := FormatUnsigned(Abs(d.mantissa), d.scale);
    if d.mantissa < 0 then "-" + u else u
  }

  /** The text of an amount has no blank at either end. */
  lemma FormatDecimalUnpadded(d: Decimal)
    ensures var s := FormatDecimal(d); |s| > 0 && !IsSpace(s[0]) && !IsSpace(s[|s| - 1])
  {
    var u := FormatUnsigned(Abs(d.mantissa), d.scale);
    DigitNotSpace(u[0]);
    DigitNotSpace(u[|u| - 1]);
    if d.mantissa < 0 {
      var s := "-" + u;
      assert s[|s| - 1] == u[|u| - 1];
    }
  }

  /** Digits with at most one point and at least one digit: "12", "12.50", "12.", ".5". */
  function ParseUnsigned(s: string): (r: Option<Decimal>)
    ensures r.Some? ==> r.value.mantissa >= 0
  {
    match IndexOf(s, '.')
    case None =>
      if IsDigits(s) then Some(Decimal(DigitsValue(s), 0)) else None
    case Some(k) => ParsePointed(s[..k], s[k + 1..])
  }

  /** The digits around the point: at least one of the two parts non-empty. */
  function ParsePointed(whole: string, frac: string): (r: Option<Decimal>)
    ensures r.Some? ==> r.value.mantissa >= 0
  {
    if AllDigits(whole) && AllDigits(frac) && |whole| + |frac| > 0
    then Some(Decimal(DigitsValue(whole) * Pow10(|frac|) + DigitsValue(frac), |frac|))
    else None
  }

  /** `float(text)` on decimal literals: an optional sign, then an unsigned literal.
      Exponents, "inf", "nan", underscores and surrounding blanks are not modelled. */
  function ParseDecimal(s: string): (r: Option<Decimal>)
    ensures r.Some? && (|s| == 0 || s[0] != '-') ==> r.value.mantissa >= 0
  {
    if |s| > 0 && (s[0] == '+' || s[0] == '-') then
      match ParseUnsigned(s[1..])
      case None => None
      case Some(d) => Some(if s[0] == '-' then Decimal(-d.mantissa, d.scale) else d)
    else ParseUnsigned(s)
  }

  /** The value of a concatenation: the left part shifted by the right part's length. */
  lemma {:induction false} DigitsConcat(a: string, b: string)
    requires AllDigits(a) && AllDigits(b)
    ensures AllDigits(a + b)
    ensures DigitsValue(a + b) == DigitsValue(a) * Pow10(|b|) + DigitsValue(b)
    decreases |b|
  {
    if |b| == 0 {
      assert a + b == a;
    } else {
      var t := b[..|b| - 1];
      DigitsConcat(a, t);
      assert (a + b)[..|a + b| - 1] == a + t;
      ShiftDigit(DigitsValue(a), Pow10(|t|), DigitsValue(t), DigitOf(b[|b| - 1]));
    }
  }

  lemma ShiftDigit(x: int, p: int, y: int, d: int)
    ensures 10 * (x * p + y) + d == x * (10 * p) + (10 * y + d)
  {
  }

  lemma NoPointInDigits(s: string)
    requires AllDigits(s)
    ensures '.' !in s
  {
    forall i | 0 <= i < |s| ensures s[i] != '.' {
      assert IsDigit(s[i]);
    }
  }

  /** Digits, a point, digits: the literal's value and scale. */
  lemma PointedParse(w: string, f: string)
    requires AllDigits(w) && AllDigits(f) && |w| > 0
    ensures ParseUnsigned(w + "." + f) == ParsePointed(w, f)
  {
    NoPointInDigits(w);
    IndexOfAfterPrefix(w, '.', f);
    var s := w + "." + f;
    assert s[..|w|] == w;
    assert s[|w| + 1..] == f;
  }

  /** Digits without a point: a whole number. */
  lemma PlainParse(ds: string)
    requires IsDigits(ds)
    ensures ParseUnsigned(ds) == Some(Decimal(DigitsValue(ds), 0))
  {
    NoPointInDigits(ds);
  }

  /** Cutting digits in two: the left part shifted by the right part's length. */
  lemma DigitsSplit(ds: string, k: nat)
    requires AllDigits(ds) && k <= |ds|
    ensures AllDigits(ds[..k]) && AllDigits(ds[k..])
    ensures DigitsValue(ds) == DigitsValue(ds[..k]) * Pow10(|ds| - k) + DigitsValue(ds[k..])
  {
    assert ds == ds[..k] + ds[k..];
    DigitsConcat(ds[..k], ds[k..]);
  }

  lemma UnsignedRoundTrip(n: nat, scale: nat)
    ensures ParseUnsigned(FormatUnsigned(n, scale)) == Some(Decimal(n, scale))
  {
    if scale > 0 {
      PointedRoundTrip(n, scale);
    } else {
      PlainParse(PadLeft(NatToDigits(n), 1));
    }
  }

  /** With a scale, the text splits at the point into the two digit runs. */
  lemma PointedRoundTrip(n: nat, scale: nat)
    requires scale > 0
    ensures ParseUnsigned(FormatUnsigned(n, scale)) == Some(Decimal(n, scale))
  {
    var ds := PadLeft(NatToDigits(n), scale + 1);
    var k := |ds| - scale;
    var w, f := ds[..k], ds[k..];
    DigitsSplit(ds, k);
    PointedParse(w, f);
    assert FormatUnsigned(n, scale) == w + "." + f;
    assert |f| == scale;
    assert DigitsValue(w) * Pow10(|f|) + DigitsValue(f) == n;
  }

  lemma ParseSigned(u: string, d: Decimal)
    requires |u| > 0 && IsDigit(u[0]) && ParseUnsigned(u) == Some(d)
    ensures ParseDecimal(u) == Some(d)
    ensures ParseDecimal("-" + u) == Some(Decimal(-d.mantissa, d.scale))
  {
    assert ("-" + u)[1..] == u;
  }

  /** Reading back a formatted amount gives exactly the amount. */
  lemma {:induction false} DecimalRoundTrip(d: Decimal)
    ensures ParseDecimal(FormatDecimal(d)) == Some(d)
  {
    var u := FormatUnsigned(Abs(d.mantissa), d.scale);
    UnsignedRoundTrip(Abs(d.mantissa), d.scale);
    ParseSigned(u, Decimal(Abs(d.mantissa), d.scale));
    if d.mantissa < 0 {
      assert FormatDecimal(d) == "-" + u;
    } else {
      assert FormatDecimal(d) == u;
    }
  }

  /** `float(text)`: the literal between surrounding blanks. */
  function ToFloat(s: string): Option<Decimal>
  {
    ParseDecimal(Strip(s))
  }

  /** Reading back a written amount, as `float` does, gives exactly the amount. */
  lemma FloatRoundTrip(d: Decimal)
    ensures ToFloat(FormatDecimal(d)) == Some(d)
  {
    FormatDecimalUnpadded(d);
    StripUnpadded(FormatDecimal(d));
    DecimalRoundTrip(d);
  }

  /** An integer literal: an optional sign followed by at least one digit.
      Underscores, which Python also accepts, are not modelled. */
  function ParseInt(s: string): Option<int>
  {
    if |s| > 0 && (s[0] == '+' || s[0] == '-') then
      if IsDigits(s[1..]) then
        var v: int := DigitsValue(s[1..]);
        Some(if s[0] == '-' then -v else v)
      else None
    else if IsDigits(s) then Some(DigitsValue(s))
    else None
  }

  /** `int(text)`: the literal between surrounding blanks. */
  function ToInt(s: string): Option<int>
  {
    ParseInt(Strip(s))
  }

  /** `str(n)` for an integer. */
  function FormatInt(i: int): (s: string)
    ensures |s| > 0 && !IsSpace(s[0]) && !IsSpace(s[|s| - 1])
  {
    (if i < 0 then "-" else "") + NatToDigits(Abs(i))
  }

  lemma ParseIntSigned(u: string)
    requires IsDigits(u)
    ensures ParseInt(u) == Some(DigitsValue(u))
    ensures ParseInt("-" + u).Some? && ParseInt("-" + u).value + DigitsValue(u) == 0
  {
    assert ("-" + u)[1..] == u;
    assert u[0] != '+' && u[0] != '-' by {
      assert IsDigit(u[0]);
    }
  }

  /** Reading back a formatted id gives exactly the id. */
  lemma {:induction false} IntRoundTrip(i: int)
    ensures ParseInt(FormatInt(i)) == Some(i)
  {
    var u := NatToDigits(Abs(i));
    ParseIntSigned(u);
    if i < 0 {
      assert FormatInt(i) == "-" + u;
    } else {
      assert FormatInt(i) == u;
    }
  }

  /** Appending a zero digit to the mantissa and the scale keeps the value. */
  lemma {:induction false} ShiftedValue(x: int, e: nat)
    ensures Value(Decimal(10 * x, e + 1)) == Value(Decimal(x, e))
  {
    if e > 0 {
      ShiftedValue(x, e - 1);
    }
  }

  lemma {:induction false} ScaledValue(m: int, e: nat, k: nat)
    ensures Value(Decimal(m * Pow10(k), e + k)) == Value(Decimal(m, e))
  {
    if k > 0 {
      var x := m * Pow10(k - 1);
      assert m * Pow10(k) == 10 * x;
      ShiftedValue(x, e + k - 1);
      ScaledValue(m, e, k - 1);
    }
  }

  /** The value is additive in the mantissa at a fixed scale. */
  lemma {:induction false} SameScaleSum(x: int, y: int, e: nat)
    ensures Value(Decimal(x + y, e)) == Value(Decimal(x, e)) + Value(Decimal(y, e))
  {
    if e > 0 {
      SameScaleSum(x, y, e - 1);
    }
  }

  /** Exact decimal addition, as `current_amount += amount` means it. */
  function Add(a: Decimal, b: Decimal): (r: Decimal)
    ensures Value(r) == Value(a) + Value(b)
  {
    var e := if a.scale >= b.scale then a.scale else b.scale;
    var x := a.mantissa * Pow10(e - a.scale);
    var y := b.mantissa * Pow10(e - b.scale);
    ScaledValue(a.mantissa, a.scale, e - a.scale);
    ScaledValue(b.mantissa, b.scale, e - b.scale);
    SameScaleSum(x, y, e);
    Decimal(x + y, e)
  }

  /** Reading back a written id, as `int` does, gives exactly the id. */
  lemma ToIntRoundTrip(i: int)
    ensures ToInt(FormatInt(i)) == Some(i)
  {
    StripUnpadded(FormatInt(i));
    IntRoundTrip(i);
  }

  /** The form `str(x)` gives a float that holds a decimal amount: at least one
      decimal place, and no trailing zero after the first. */
  predicate IsCanonical(d: Decimal)
  {
    d.scale >= 1 && (d.scale > 1 ==> d.mantissa % 10 != 0)
  }

  /** The same amount in canonical form: "1000" becomes 1000.0, "12.50" becomes 12.5. */
  function Canonical(d: Decimal): (c: Decimal)
    ensures IsCanonical(c)
    ensures Value(c) == Value(d)
    decreases d.scale
  {
    if d.scale == 0 then
      ShiftedValue(d.mantissa, 0);
      Decimal(10 * d.mantissa, 1)
    else if d.scale > 1 && d.mantissa % 10 == 0 then
      var m := d.mantissa / 10;
      ShiftedValue(m, d.scale - 1);
      Canonical(Decimal(m, d.scale - 1))
    else d
  }

  /** Canonical amounts are their own canonical form. */
  lemma CanonicalIsIdentity(d: Decimal)
    requires IsCanonical(d)
    ensures Canonical(d) == d
  {
  }

  /** `str(float(x))` for a decimal amount `x`. */
  function FormatFloat(d: Decimal): string
  {
    FormatDecimal(Canonical(d))
  }

  /** Reading back an amount written as a float gives its canonical form, and so its value. */
  lemma FloatTextRoundTrip(d: Decimal)
    ensures ToFloat(FormatFloat(d)) == Some(Canonical(d))
    ensures Value(ToFloat(FormatFloat(d)).value) == Value(d)
  {
    FloatRoundTrip(Canonical(d));
  }
}
