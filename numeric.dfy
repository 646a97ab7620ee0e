/**
 * PHP's reading of numbers out of strings and its float-to-integer
 * conversions, computed on exact rationals: `is_numeric`, `(float)` of a
 * string, `round`, `(int)`/`intval` of a float, and loose `==` between strings.
 */
module Numeric {
  import opened Text
  import opened Wrappers

  /** First index at or after `i` that is not numeric whitespace. */
  function SkipSpace(s: string, i: nat): (j: nat)
    requires i <= |s|
    ensures i <= j <= |s|
    ensures forall k :: i <= k < j ==> IsSpace(s[k])
    ensures j < |s| ==> !IsSpace(s[j])
    decreases |s| - i
  {
    if i < |s| && IsSpace(s[i]) then SkipSpace(s, i + 1) else i
  }

  /** First index at or after `i` that is not a decimal digit. */
  function SkipDigits(s: string, i: nat): (j: nat)
    requires i <= |s|
    ensures i <= j <= |s|
    ensures AllDigits(s[i..j])
    ensures j < |s| ==> !IsDigit(s[j])
    decreases |s| - i
  {
    if i < |s| && IsDigit(s[i]) then SkipDigits(s, i + 1) else i
  }

  /** A decimal number as written: sign, whole digits, fraction digits and a
      signed decimal exponent. */
  datatype Number = Number(negative: bool, whole: string, fraction: string,
                           expNegative: bool, exponent: string)
  {
    predicate Wellformed()
    {
      AllDigits(whole) && AllDigits(fraction) && AllDigits(exponent) && (whole != [] || fraction != [])
    }

    /** All written digits read as one integer (the value without point and exponent). */
    function Mantissa(): nat
      requires Wellformed()
    {
      DigitsValue(whole + fraction)
    }

    /** The power of ten the mantissa is scaled by. */
    function Shift(): int
      requires Wellformed()
    {
      var e: int := DigitsValue(exponent);
      (if expNegative then -e else e) - |fraction|
    }

    function Value(): real
      requires Wellformed()
    {
      (if negative then -1.0 else 1.0) * (Mantissa() as real) * Scale(Shift())
    }
  }

  /** 10 to the power `k`, for any integer `k`. */
  function Scale(k: int): (r: real)
    ensures r > 0.0
  {
    if k >= 0 then Pow10(k) as real else 1.0 / (Pow10(-k) as real)
  }

  /** The longest numeric prefix of `s` after leading whitespace, and where it
      ends; `None` when no digit follows the whitespace and optional sign. This
      is how PHP's `zend_strtod` reads a string. */
  function ScanNumber(s: string): (r: Option<(Number, nat)>)
    ensures r.Some? ==> r.value.0.Wellformed() && r.value.1 <= |s|
  {
    var i0 := SkipSpace(s, 0);
    var neg := i0 < |s| && s[i0] == '-';
    var i1 := if i0 < |s| && (s[i0] == '+' || s[i0] == '-') then i0 + 1 else i0;
    var i2 := SkipDigits(s, i1);
    var point := i2 < |s| && s[i2] == '.';
    var i3 := if point then SkipDigits(s, i2 + 1) else i2;
    var fraction := if point then s[i2 + 1..i3] else [];
    if i2 == i1 && fraction == [] then None
    else
      var plain := Number(neg, s[i1..i2], fraction, false, []);
      if i3 < |s| && (s[i3] == 'e' || s[i3] == 'E') then
        var e1 := if i3 + 1 < |s| && (s[i3 + 1] == '+' || s[i3 + 1] == '-') then i3 + 2 else i3 + 1;
        var e2 := SkipDigits(s, e1);
        if e2 > e1 then Some((Number(neg, s[i1..i2], fraction, s[e1 - 1] == '-', s[e1..e2]), e2))
        else Some((plain, i3))
      else Some((plain, i3))
  }

  /** PHP 8's `is_numeric` on a string: optional surrounding whitespace around a
      signed decimal number with optional fraction and exponent. */
  predicate IsNumeric(s: string)
  {
    match ScanNumber(s)
    case None => false
    case Some((_, e)) => forall k :: e <= k < |s| ==> IsSpace(s[k])
  }

  /** PHP's `(float)` cast of a string: the value of its numeric prefix, or 0. */
  function FloatValue(s: string): real
  {
    match ScanNumber(s)
    case None => 0.0
    case Some((n, _)) => n.Value()
  }

  /** Digits up to the end are skipped up to the end. */
  lemma SkipAllDigits(s: string, i: nat)
    requires i <= |s| && AllDigits(s[i..])
    ensures SkipDigits(s, i) == |s|
  {
    assert forall k :: i <= k < |s| ==> s[k] == s[i..][k - i];
  }

  /** Decimal digits, after an optional minus sign, read whole as that integer. */
  lemma ScanInteger(t: string, neg: bool, d: string)
    requires AllDigits(d) && d != [] && t == (if neg then "-" else "") + d
    ensures IsNumeric(t)
    ensures FloatValue(t) == (if neg then -(DigitsValue(d) as real) else DigitsValue(d) as real)
  {
    var i1 := if neg then 1 else 0;
    assert t[i1..] == d;
    assert SkipSpace(t, 0) == 0;
    SkipAllDigits(t, i1);
    assert t[i1..|t|] == d;
    assert (0 < |t| && t[0] == '-') == neg by {
      if !neg { assert t[0] == d[0]; }
    }
    assert (0 < |t| && (t[0] == '+' || t[0] == '-')) == neg by {
      if !neg { assert t[0] == d[0]; }
    }
    var n := Number(neg, d, [], false, []);
    assert ScanNumber(t) == Some((n, |t|));
    assert d + [] == d;
    assert n.Shift() == 0 && Scale(0) == 1.0;
  }

  /** A number read from a string is positive exactly when it has no minus sign and a non-zero digit. */
  lemma NumberPositive(n: Number)
    requires n.Wellformed()
    ensures n.Value() > 0.0 <==> !n.negative && n.Mantissa() > 0
  {
    var m := n.Mantissa() as real;
    var f := Scale(n.Shift());
    if n.negative {
      assert n.Value() == -(m * f);
      assert m * f >= 0.0;
    } else {
      assert n.Value() == m * f;
    }
  }

  /** PHP's `round($x)`: to the nearest integer, halves away from zero. */
  function RoundHalfAwayFromZero(x: real): (r: int)
    ensures x - 0.5 <= r as real <= x + 0.5
    ensures x >= 0.0 ==> r >= 0
    ensures x <= 0.0 ==> r <= 0
  {
    if x >= 0.0 then (x + 0.5).Floor else -((-x + 0.5).Floor)
  }

  /** PHP's `(int)` / `intval` of a float: drops the fraction, towards zero. */
  function Truncate(x: real): (r: int)
    ensures x >= 0.0 ==> 0.0 <= r as real <= x < r as real + 1.0
    ensures x < 0.0 ==> r as real - 1.0 < x <= r as real <= 0.0
  {
    if x >= 0.0 then x.Floor else -((-x).Floor)
  }

  /** Major currency units to integer cents: `(int) round($x * 100)`. */
  function CentsOf(x: real): (cents: int)
    ensures x - 0.005 <= cents as real / 100.0 <= x + 0.005
  {
    RoundHalfAwayFromZero(x * 100.0)
  }

  /** The CSV amount conversion `(int) round((float)$amount * 100)`. */
  function ToCents(amount: string): int
  {
    CentsOf(FloatValue(amount))
  }

  /** PHP 8's loose `==` between two strings, as `in_array` uses it: two numeric
      strings compare as numbers, anything else compares as text. */
  predicate LooseEquals(a: string, b: string)
  {
    if IsNumeric(a) && IsNumeric(b) then FloatValue(a) == FloatValue(b) else a == b
  }

  /** Loose equality agrees with plain equality on identical strings. */
  lemma LooseEqualsReflexive(a: string)
    ensures LooseEquals(a, a)
  {
  }

  /** "10" reads as the whole of itself, with value 10. */
  lemma ScanTen()
    ensures ScanNumber("10").Some? && ScanNumber("10").value.1 == 2
    ensures ScanNumber("10").value.0.Value() == 10.0
  {
    var ten := "10";
    assert SkipSpace(ten, 0) == 0;
    assert SkipDigits(ten, 2) == 2 && SkipDigits(ten, 1) == 2 && SkipDigits(ten, 0) == 2;
    var a := Number(false, "10", [], false, []);
    assert ten[0..2] == "10";
    assert ScanNumber(ten) == Some((a, 2));
    assert "10"[..1] == "1";
    assert DigitsValue("10") == 10;
    assert "10" + [] == "10";
    assert a.Value() == 10.0;
  }

  /** "1e1" reads as the whole of itself, with value 10. */
  lemma ScanSci()
    ensures ScanNumber("1e1").Some? && ScanNumber("1e1").value.1 == 3
    ensures ScanNumber("1e1").value.0.Value() == 10.0
  {
    var sci := "1e1";
    assert SkipSpace(sci, 0) == 0;
    assert SkipDigits(sci, 1) == 1 && SkipDigits(sci, 0) == 1;
    assert SkipDigits(sci, 3) == 3 && SkipDigits(sci, 2) == 3;
    var b := Number(false, "1", [], false, "1");
    assert sci[0..1] == "1" && sci[2..3] == "1";
    assert ScanNumber(sci) == Some((b, 3));
    assert DigitsValue("1") == 1;
    assert "1" + [] == "1";
    assert b.Shift() == 1 && Scale(1) == 10.0;
    assert b.Value() == 10.0;
  }

  /** Two distinct numeric spellings of one number are loosely equal. */
  lemma LooseEqualsNumeric()
    ensures LooseEquals("10", "1e1") && "10" != "1e1"
  {
    ScanTen();
    ScanSci();
    assert "10"[1] != "1e1"[1];
  }

  /** An amount of 12.30 in major units is 1230 cents. */
  lemma CentsOfExample()
    ensures CentsOf(12.3) == 1230
    ensures CentsOf(-0.005) == -1
  {
  }
}
