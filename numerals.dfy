/**
 * Decimal rendering of numbers, as JavaScript's template literals do it
 * (`${n}`): a natural number is written in base ten without leading zeros,
 * and an opacity is written as a plain decimal with no trailing zeros.
 *
 * Opacities are modelled as exact decimals `mantissa * 10^-exponent`. For a
 * decimal with at most 15 significant digits that JavaScript writes without
 * exponent notation, `Number.prototype.toString` produces exactly the text
 * `FormatDecimal` produces. Arithmetic on decimals here is exact, whereas
 * JavaScript's is binary floating point: a value computed by a division
 * (a fractional percentage over 100, say) can differ in its last digits.
 */
module Numerals {
  import opened Text

  /** Ten to the power `e`. */
  function Pow10(e: nat): (p: nat)
    ensures p >= 1
  {
    if e == 0 then 1 else 10 * Pow10(e - 1)
  }

  function Abs(x: int): nat {
    if x < 0 then -x else x
  }

  predicate IsDigit(c: char) {
    '0' <= c <= '9'
  }

  predicate AllDigits(s: string) {
    forall i :: 0 <= i < |s| ==> IsDigit(s[i])
  }

  function DigitChar(d: nat): (c: char)
    requires d < 10
    ensures IsDigit(c) && (c as int) - ('0' as int) == d
  {
    (('0' as int) + d) as char
  }

  /** `${n}` for a non-negative integer: base ten, no leading zero. */
  function NatToString(n: nat): (s: string)
    ensures |s| >= 1 && AllDigits(s)
    ensures s[0] == '0' ==> n == 0
    ensures |s| > 1 ==> s[0] != '0'
    decreases n
  {
    if n < 10 then [DigitChar(n)] else NatToString(n / 10) + [DigitChar(n % 10)]
  }

  /** The number a string of decimal digits denotes (leading zeros allowed). */
  function DigitsValue(s: string): nat
    requires AllDigits(s)
  {
    if s == [] then 0
    else 10 * DigitsValue(s[..|s| - 1]) + ((s[|s| - 1] as int) - ('0' as int))
  }

  lemma {:induction false} NatToStringRoundTrip(n: nat)
    ensures DigitsValue(NatToString(n)) == n
    decreases n
  {
    if n >= 10 {
      var s := NatToString(n);
      assert s[..|s| - 1] == NatToString(n / 10);
      NatToStringRoundTrip(n / 10);
    }
  }

  /** Distinct numbers are written differently. */
  lemma NatToStringInjective(m: nat, n: nat)
    requires NatToString(m) == NatToString(n)
    ensures m == n
  {
    NatToStringRoundTrip(m);
    NatToStringRoundTrip(n);
  }

  /** A number below 10^e needs at most e digits. */
  lemma {:induction false} NatToStringLength(n: nat, e: nat)
    requires n < Pow10(e)
    ensures |NatToString(n)| <= e || (n == 0 && e == 0)
    decreases e
  {
    if n >= 10 {
      assert e >= 2;
      assert n / 10 < Pow10(e - 1);
      NatToStringLength(n / 10, e - 1);
    }
  }

  function Zeros(k: nat): (s: string)
    ensures |s| == k && AllDigits(s)
    ensures forall i :: 0 <= i < k ==> s[i] == '0'
  {
    if k == 0 then "" else "0" + Zeros(k - 1)
  }

  /** `s` widened to `width` characters with leading zeros. */
  function PadLeft(s: string, width: nat): string {
    if |s| < width then Zeros(width - |s|) + s else s
  }

  lemma {:induction false} LeadingZerosValue(k: nat, s: string)
    requires AllDigits(s)
    ensures AllDigits(Zeros(k) + s) && DigitsValue(Zeros(k) + s) == DigitsValue(s)
    decreases |s|
  {
    var t := Zeros(k) + s;
    assert AllDigits(t);
    if s == [] {
      assert t == Zeros(k);
      ZerosValue(k);
    } else {
      assert t[..|t| - 1] == Zeros(k) + s[..|s| - 1];
      LeadingZerosValue(k, s[..|s| - 1]);
    }
  }

  lemma {:induction false} ZerosValue(k: nat)
    ensures DigitsValue(Zeros(k)) == 0
    decreases k
  {
    if k > 0 {
      var z := Zeros(k);
      assert z[..|z| - 1] == Zeros(k - 1);
      ZerosValue(k - 1);
    }
  }

  /** An exact decimal: `mantissa * 10^-exponent`. */
  datatype Decimal = Decimal(mantissa: int, exponent: nat)

  function Value(d: Decimal): real {
    d.mantissa as real / Pow10(d.exponent) as real
  }

  /** The same number with its trailing fractional zeros dropped. */
  function Normalize(d: Decimal): (r: Decimal)
    ensures Value(r) == Value(d)
    ensures r.exponent == 0 || r.mantissa % 10 != 0
    decreases d.exponent
  {
    if d.exponent > 0 && d.mantissa % 10 == 0 then
      var shorter := Decimal(d.mantissa / 10, d.exponent - 1);
      assert Value(shorter) == Value(d) by {
        var p := Pow10(d.exponent - 1) as real;
        assert d.mantissa == 10 * (d.mantissa / 10);
        assert Pow10(d.exponent) as real == 10.0 * p;
      }
      Normalize(shorter)
    else d
  }

  /** `${x}` for an opacity: optional minus sign, integer digits, and the
      fractional digits (if any) without trailing zeros. */
  function FormatDecimal(d: Decimal): (t: string)
    ensures t != [] && (t[0] == '-' <==> Value(d) < 0.0)
    ensures CanonicalNumber(t)
  {
    var n := Normalize(d);
    NegativeValue(n);
    (if n.mantissa < 0 then "-" else "") + UnsignedText(Abs(n.mantissa), n.exponent)
  }

  /** A decimal is negative exactly when its mantissa is. */
  lemma NegativeValue(d: Decimal)
    ensures Value(d) < 0.0 <==> d.mantissa < 0
  {
    var p := Pow10(d.exponent) as real;
    assert p > 0.0;
  }

  /** Number text without padding: after an optional minus sign, a '0'
      comes first only as the whole integer part. */
  predicate CanonicalNumber(t: string) {
    if t != [] && t[0] == '-' then CanonicalUnsigned(t[1..]) else CanonicalUnsigned(t)
  }

  predicate CanonicalUnsigned(u: string) {
    u != [] && (u[0] == '0' ==> |u| == 1 || u[1] == '.')
  }

  /** `a * 10^-e` without a sign: plain digits when `e` is 0. */
  function UnsignedText(a: nat, e: nat): (t: string)
    ensures |t| > 0 && IsDigit(t[0])
    ensures CanonicalUnsigned(t)
  {
    if e == 0 then NatToString(a) else FixedPoint(a, e)
  }

  /** `a / 10^e` written with exactly `e` fractional digits. */
  function FixedPoint(a: nat, e: nat): (t: string)
    ensures |t| > 0 && IsDigit(t[0]) && CanonicalUnsigned(t)
  {
    var p := Pow10(e);
    DivMod(a, p);
    var whole := NatToString(a / p);
    assert whole[0] == '0' ==> whole == "0";
    whole + "." + PadLeft(NatToString(a % p), e)
  }

  lemma DivMod(a: nat, p: nat)
    requires p >= 1
    ensures 0 <= a / p && 0 <= a % p < p && a == (a / p) * p + a % p
  {
  }

  /** Reads back plain decimal text, `[-]digits[.digits]`, as the decimal it
      spells (fractional digits give the exponent); None for any other text. */
  function ReadDecimal(s: string): Option<Decimal> {
    if |s| > 0 && s[0] == '-' then
      match ReadUnsigned(s[1..])
      case Some(x) => Some(Decimal(-x.mantissa, x.exponent))
      case None => None
    else ReadUnsigned(s)
  }

  function ReadUnsigned(s: string): Option<Decimal> {
    if '.' in s then
      var i := IndexOf(s, '.');
      ReadParts(s[..i], s[i + 1..])
    else if s != [] && AllDigits(s) then Some(Decimal(DigitsValue(s), 0))
    else None
  }

  /** The digits either side of the point, read as one decimal. */
  function ReadParts(whole: string, frac: string): Option<Decimal> {
    if whole != [] && frac != [] && AllDigits(whole + frac) then
      Some(Decimal(DigitsValue(whole + frac), |frac|))
    else None
  }

  lemma {:induction false} DigitsValueConcat(x: string, y: string)
    requires AllDigits(x) && AllDigits(y)
    ensures AllDigits(x + y) && DigitsValue(x + y) == DigitsValue(x) * Pow10(|y|) + DigitsValue(y)
    decreases |y|
  {
    assert AllDigits(x + y);
    if y != [] {
      var y' := y[..|y| - 1];
      assert (x + y)[..|x + y| - 1] == x + y';
      DigitsValueConcat(x, y');
      var c := (y[|y| - 1] as int) - ('0' as int);
      assert DigitsValue(x + y) == 10 * DigitsValue(x + y') + c;
      assert DigitsValue(y) == 10 * DigitsValue(y') + c;
      ShiftDigit(DigitsValue(x), Pow10(|y'|), DigitsValue(y'), c);
    } else {
      assert x + y == x;
    }
  }

  lemma ShiftDigit(vx: int, p: int, vy: int, c: int)
    ensures 10 * (vx * p + vy) + c == vx * (10 * p) + (10 * vy + c)
  {
  }

  /** Digits, a point and digits read back as the decimal they spell. */
  lemma ReadPointed(whole: string, frac: string)
    requires whole != [] && frac != [] && AllDigits(whole) && AllDigits(frac)
    ensures ReadUnsigned(whole + "." + frac)
         == Some(Decimal(DigitsValue(whole) * Pow10(|frac|) + DigitsValue(frac), |frac|))
  {
    PointAfterDigits(whole, frac);
    ReadUnsignedSplit(whole, frac);
    ReadPartsValue(whole, frac);
  }

  lemma ReadUnsignedSplit(whole: string, frac: string)
    requires '.' in whole + "." + frac && IndexOf(whole + "." + frac, '.') == |whole|
    ensures ReadUnsigned(whole + "." + frac) == ReadParts(whole, frac)
  {
    var s := whole + "." + frac;
    assert s[..|whole|] == whole;
    assert s[|whole| + 1..] == frac;
  }

  lemma ReadPartsValue(whole: string, frac: string)
    requires whole != [] && frac != [] && AllDigits(whole) && AllDigits(frac)
    ensures ReadParts(whole, frac)
         == Some(Decimal(DigitsValue(whole) * Pow10(|frac|) + DigitsValue(frac), |frac|))
  {
    DigitsValueConcat(whole, frac);
  }

  /** In digits, a point and more text, the first point follows the digits. */
  lemma PointAfterDigits(whole: string, rest: string)
    requires AllDigits(whole)
    ensures '.' in whole + "." + rest && IndexOf(whole + "." + rest, '.') == |whole|
  {
    var s := whole + "." + rest;
    assert '.' !in whole by {
      forall i | 0 <= i < |whole| ensures whole[i] != '.' { assert IsDigit(whole[i]); }
    }
    assert s[..|whole|] == whole;
    assert s[|whole|] == '.';
    IndexOfAt(s, '.', |whole|);
  }

  /** Padding digits with leading zeros to a width keeps their value. */
  lemma PadLeftDigits(f: string, e: nat)
    requires AllDigits(f) && |f| <= e
    ensures |PadLeft(f, e)| == e && AllDigits(PadLeft(f, e))
    ensures DigitsValue(PadLeft(f, e)) == DigitsValue(f)
  {
    if |f| < e {
      LeadingZerosValue(e - |f|, f);
    }
  }

  /** A number below 10^e, padded to e digits, keeps its value. */
  lemma PadLeftValue(n: nat, e: nat)
    requires e > 0 && n < Pow10(e)
    ensures |PadLeft(NatToString(n), e)| == e && AllDigits(PadLeft(NatToString(n), e))
    ensures DigitsValue(PadLeft(NatToString(n), e)) == n
  {
    NatToStringLength(n, e);
    NatToStringRoundTrip(n);
    PadLeftDigits(NatToString(n), e);
  }

  /** Fixed-point text reads back as `a * 10^-e`. */
  lemma FixedPointReadsBack(a: nat, e: nat)
    requires e > 0
    ensures ReadUnsigned(FixedPoint(a, e)) == Some(Decimal(a, e))
  {
    var p := Pow10(e);
    DivMod(a, p);
    var q, r := a / p, a % p;
    PadLeftValue(r, e);
    NatToStringRoundTrip(q);
    ReadPointed(NatToString(q), PadLeft(NatToString(r), e));
  }

  lemma UnsignedTextReadsBack(a: nat, e: nat)
    ensures ReadUnsigned(UnsignedText(a, e)) == Some(Decimal(a, e))
  {
    if e == 0 {
      var t := NatToString(a);
      NatToStringRoundTrip(a);
      assert '.' !in t by {
        forall i | 0 <= i < |t| ensures t[i] != '.' { assert IsDigit(t[i]); }
      }
    } else {
      FixedPointReadsBack(a, e);
    }
  }

  /** The text of an opacity reads back as its normalised decimal. */
  lemma FormatDecimalReadsBack(d: Decimal)
    ensures ReadDecimal(FormatDecimal(d)) == Some(Normalize(d))
  {
    var n := Normalize(d);
    var body := UnsignedText(Abs(n.mantissa), n.exponent);
    UnsignedTextReadsBack(Abs(n.mantissa), n.exponent);
    if n.mantissa < 0 {
      assert FormatDecimal(d)[1..] == body;
    } else {
      assert FormatDecimal(d) == body;
    }
  }

  /** Decimals written alike have the same value. */
  lemma FormatDecimalInjective(d: Decimal, e: Decimal)
    requires FormatDecimal(d) == FormatDecimal(e)
    ensures Value(d) == Value(e)
  {
    FormatDecimalReadsBack(d);
    FormatDecimalReadsBack(e);
  }

  // ---------------------------------------------------------------------
  // Canonical text: the printed form is the only one that reads back.

  /** A digit string that does not start with '0' denotes a positive number. */
  lemma {:induction false} LeadingDigitPositive(s: string)
    requires s != [] && AllDigits(s) && s[0] != '0'
    ensures DigitsValue(s) > 0
    decreases |s|
  {
    if |s| > 1 {
      LeadingDigitPositive(s[..|s| - 1]);
    }
  }

  /** Digits without a leading zero are what `${n}` prints for their value. */
  lemma {:induction false} CanonicalDigitsRoundTrip(s: string)
    requires s != [] && AllDigits(s) && (|s| > 1 ==> s[0] != '0')
    ensures NatToString(DigitsValue(s)) == s
    decreases |s|
  {
    var d := (s[|s| - 1] as int) - ('0' as int);
    if |s| > 1 {
      var init := s[..|s| - 1];
      LeadingDigitPositive(init);
      CanonicalDigitsRoundTrip(init);
      var q := DigitsValue(init);
      DivTen(q, d);
      assert s == init + [s[|s| - 1]];
    }
  }

  lemma DivTen(q: nat, d: int)
    requires 0 <= d < 10
    ensures (10 * q + d) / 10 == q && (10 * q + d) % 10 == d
  {
  }

  /** Any digit string is `${n}` for its value, padded to its own width. */
  lemma {:induction false} PaddedDigitsRoundTrip(f: string)
    requires f != [] && AllDigits(f)
    ensures PadLeft(NatToString(DigitsValue(f)), |f|) == f
    decreases |f|
  {
    if f[0] != '0' || |f| == 1 {
      CanonicalDigitsRoundTrip(f);
    } else {
      var t := f[1..];
      assert Zeros(1) + t == f;
      LeadingZerosValue(1, t);
      PaddedDigitsRoundTrip(t);
      var x := NatToString(DigitsValue(t));
      assert |x| <= |t|;
      PadLeftOneMore(x, |t|);
      assert f == "0" + t;
    }
  }

  /** Padding to one more place puts one more zero in front. */
  lemma PadLeftOneMore(x: string, w: nat)
    requires |x| <= w
    ensures PadLeft(x, w + 1) == "0" + PadLeft(x, w)
  {
    var k := w - |x|;
    var z := Zeros(k);
    assert Zeros(k + 1) == "0" + z;
    assert PadLeft(x, w) == z + x by {
      if k == 0 { assert z == []; }
    }
    assert ("0" + z) + x == "0" + (z + x);
  }

  /** Division by `p` takes a number written as `q * p + r` apart again. */
  lemma DivModUnique(q: nat, r: nat, p: nat)
    requires p >= 1 && r < p
    ensures (q * p + r) / p == q && (q * p + r) % p == r
  {
    var a := q * p + r;
    DivMod(a, p);
    var q' := a / p;
    MulMonotone(q + 1, q', p);
    MulMonotone(q' + 1, q, p);
    assert (q + 1) * p == q * p + p;
    assert (q' + 1) * p == q' * p + p;
  }

  lemma MulMonotone(x: nat, y: nat, p: nat)
    ensures x <= y ==> x * p <= y * p
  {
  }

  /** A digit string of width `e` denotes less than 10^e. */
  lemma {:induction false} DigitsValueBound(s: string)
    requires AllDigits(s)
    ensures DigitsValue(s) < Pow10(|s|)
    decreases |s|
  {
    if s != [] {
      DigitsValueBound(s[..|s| - 1]);
    }
  }

  /** Canonical unsigned text is the text `UnsignedText` gives for what it
      reads as. */
  lemma ReadUnsignedCanonical(u: string)
    requires CanonicalUnsigned(u) && ReadUnsigned(u).Some?
    ensures ReadUnsigned(u).value.mantissa >= 0
    ensures u == UnsignedText(ReadUnsigned(u).value.mantissa as nat, ReadUnsigned(u).value.exponent)
  {
    if '.' in u {
      var i := IndexOf(u, '.');
      ReadPointedCanonical(u, i, u[..i], u[i + 1..]);
    } else {
      CanonicalDigitsRoundTrip(u);
    }
  }

  lemma ReadPointedCanonical(u: string, i: nat, whole: string, frac: string)
    requires CanonicalUnsigned(u) && '.' in u && i == IndexOf(u, '.')
    requires whole == u[..i] && frac == u[i + 1..]
    requires whole != [] && frac != [] && AllDigits(whole + frac)
    ensures ReadUnsigned(u) == Some(Decimal(DigitsValue(whole + frac), |frac|))
    ensures u == UnsignedText(DigitsValue(whole + frac), |frac|)
  {
    assert u == whole + "." + frac;
    assert AllDigits(whole) && AllDigits(frac) by {
      assert forall k :: 0 <= k < |whole| ==> whole[k] == (whole + frac)[k];
      assert forall k :: 0 <= k < |frac| ==> frac[k] == (whole + frac)[|whole| + k];
    }
    assert |whole| > 1 ==> whole[0] != '0' by {
      assert |whole| > 1 ==> u[1] == whole[1];
    }
    ReadUnsignedSplit(whole, frac);
    ReadPartsValue(whole, frac);
    FixedPointOfParts(whole, frac);
  }

  /** Digits, a point and digits, without a leading zero, are what
      `FixedPoint` prints for their value. */
  lemma FixedPointOfParts(whole: string, frac: string)
    requires whole != [] && frac != [] && AllDigits(whole) && AllDigits(frac)
    requires |whole| > 1 ==> whole[0] != '0'
    ensures AllDigits(whole + frac)
    ensures FixedPoint(DigitsValue(whole + frac), |frac|) == whole + "." + frac
  {
    DigitsValueConcat(whole, frac);
    var p := Pow10(|frac|);
    DigitsValueBound(frac);
    DivModUnique(DigitsValue(whole), DigitsValue(frac), p);
    CanonicalDigitsRoundTrip(whole);
    PaddedDigitsRoundTrip(frac);
  }

  /** The printed opacity is the only canonical text with its sign that
      reads back as it: `FormatDecimal` is determined by its contract and
      `FormatDecimalReadsBack`. */
  lemma FormatDecimalUnique(d: Decimal, t: string)
    requires CanonicalNumber(t) && t != [] && (t[0] == '-' <==> Value(d) < 0.0)
    requires ReadDecimal(t) == Some(Normalize(d))
    ensures t == FormatDecimal(d)
  {
    var n := Normalize(d);
    NegativeValue(n);
    if t[0] == '-' {
      ReadUnsignedCanonical(t[1..]);
      assert t == "-" + t[1..];
    } else {
      ReadUnsignedCanonical(t);
    }
  }
}
