/** Decimal text for naturals: Python's `str(n)` and `"%04d" % n`, the
    digit-string values they invert, and the exact-decimal reading of a
    `float(...)` field together with Python's `round` (half to even). */
module Numbers {
  import Strings
  import opened Outcomes

  function Pow10(k: nat): (p: nat)
    ensures p >= 1
  {
    if k == 0 then 1 else 10 * Pow10(k - 1)
  }

  predicate IsDigit(ch: char)
  {
    '0' <= ch <= '9'
  }

  predicate AllDigits(s: string)
  {
    forall k :: 0 <= k < |s| ==> IsDigit(s[k])
  }

  function DigitChar(d: nat): (ch: char)
    requires d < 10
    ensures IsDigit(ch)
  {
    ('0' as int + d) as char
  }

  function DigitValue(ch: char): (d: nat)
    requires IsDigit(ch)
    ensures d < 10 && DigitChar(d) == ch
  {
    (ch as int - '0' as int) as nat
  }

  /** The value of a digit string read in base ten. */
  function DigitsValue(s: string): (v: nat)
    requires AllDigits(s)
    ensures v < Pow10(|s|)
  {
    if |s| == 0 then 0
    else 10 * DigitsValue(s[..|s| - 1]) + DigitValue(s[|s| - 1])
  }

  /** `v` written with exactly `w` digits, leading zeros included. */
  function FixedDigits(v: nat, w: nat): (s: string)
    requires v < Pow10(w)
    ensures |s| == w && AllDigits(s)
  {
    if w == 0 then ""
    else FixedDigits(v / 10, w - 1) + [DigitChar(v % 10)]
  }

  /** `v` written with at least `w` digits: zero-padded when it is shorter,
      in full when it is longer (Python's `"%0*d" % (w, v)`). */
  function Padded(v: nat, w: nat): (s: string)
    ensures |s| >= w && AllDigits(s)
    ensures |s| == w || s[0] != '0'
    decreases v + 1 - Pow10(w)
  {
    if v < Pow10(w) then FixedDigits(v, w)
    else
      FixedDigitsLeading(v, w);
      Padded(v, w + 1)
  }

  /** A number that needs all `w + 1` digits does not start with '0'. */
  lemma {:induction false} FixedDigitsLeading(v: nat, w: nat)
    ensures Pow10(w) <= v < Pow10(w + 1) ==> FixedDigits(v, w + 1)[0] != '0'
    decreases w
  {
    if Pow10(w) <= v < Pow10(w + 1) {
      var s := FixedDigits(v, w + 1);
      assert s == FixedDigits(v / 10, w) + [DigitChar(v % 10)];
      if w == 0 {
        assert s[0] == DigitChar(v);
      } else {
        FixedDigitsLeading(v / 10, w - 1);
        assert s[0] == FixedDigits(v / 10, w)[0];
      }
    }
  }

  /** Python's `str(v)` for a non-negative integer: at least one digit,
      and no leading zero unless the number is 0 itself. */
  function NatToString(v: nat): (s: string)
    ensures |s| >= 1 && AllDigits(s)
    ensures |s| == 1 || s[0] != '0'
  {
    Padded(v, 1)
  }

  lemma {:induction false} FixedDigitsValue(v: nat, w: nat)
    requires v < Pow10(w)
    ensures DigitsValue(FixedDigits(v, w)) == v
    decreases w
  {
    if w > 0 {
      var s := FixedDigits(v, w);
      FixedDigitsValue(v / 10, w - 1);
      assert s[..|s| - 1] == FixedDigits(v / 10, w - 1);
    }
  }

  /** Reading back the padded text gives the number. */
  lemma {:induction false} PaddedValue(v: nat, w: nat)
    ensures DigitsValue(Padded(v, w)) == v
    decreases v + 1 - Pow10(w)
  {
    if v < Pow10(w) {
      FixedDigitsValue(v, w);
    } else {
      PaddedValue(v, w + 1);
    }
  }

  /** `int(str(v)) == v`. */
  lemma NatToStringValue(v: nat)
    ensures DigitsValue(NatToString(v)) == v
  {
    PaddedValue(v, 1);
  }

  /** `str` is injective: distinct numbers are printed differently. */
  lemma NatToStringInjective(a: nat, b: nat)
    requires NatToString(a) == NatToString(b)
    ensures a == b
  {
    NatToStringValue(a);
    NatToStringValue(b);
  }

  /** A non-negative decimal number written `whole.frac`, held exactly:
      its value is `whole + DigitsValue(frac) / 10^|frac|`. */
  datatype Decimal = Decimal(whole: nat, frac: string)

  /** Index of the first non-digit character of `s` (or |s|). */
  function DigitRun(s: string): (n: nat)
    ensures n <= |s| && AllDigits(s[..n])
    ensures n < |s| ==> !IsDigit(s[n])
  {
    if |s| == 0 || !IsDigit(s[0]) then 0
    else
      var n := 1 + DigitRun(s[1..]);
      assert forall k :: 1 <= k < n ==> s[..n][k] == s[1..][..n - 1][k - 1];
      n
  }

  /** `float(field)` for the fields ffmpeg prints: optional surrounding
      whitespace, then digits, optionally a point and more digits, with at
      least one digit in all. */
  function ParseDecimal(field: string): (r: Option<Decimal>)
    ensures r.Some? ==> AllDigits(r.value.frac)
  {
    ParseNumeral(Strings.Strip(field))
  }

  /** The numeral itself, once whitespace is stripped. */
  function ParseNumeral(t: string): (r: Option<Decimal>)
    ensures r.Some? ==> AllDigits(r.value.frac)
  {
    var n := DigitRun(t);
    var whole := t[..n];
    if n == |t| then
      (if n == 0 then None else Some(Decimal(DigitsValue(whole), "")))
    else if t[n] != '.' then None
    else
      var frac := t[n + 1..];
      if !AllDigits(frac) || n + |frac| == 0 then None
      else Some(Decimal(DigitsValue(whole), frac))
  }

  lemma {:induction false} DigitRunOfDigits(d: string, rest: string)
    requires AllDigits(d) && (|rest| == 0 || !IsDigit(rest[0]))
    ensures DigitRun(d + rest) == |d|
    decreases |d|
  {
    if |d| > 0 {
      assert (d + rest)[1..] == d[1..] + rest;
      DigitRunOfDigits(d[1..], rest);
    } else {
      assert d + rest == rest;
    }
  }

  /** What `str` prints for a whole number, `float` reads back exactly. */
  lemma ParseDecimalOfWhole(whole: string)
    requires |whole| > 0 && AllDigits(whole)
    ensures ParseDecimal(whole) == Some(Decimal(DigitsValue(whole), ""))
  {
    Strings.StripUntouched(whole);
    DigitRunOfDigits(whole, "");
    assert whole + "" == whole;
    assert whole[..|whole|] == whole;
  }

  lemma NumeralOfPoint(whole: string, frac: string)
    requires |whole| > 0 && AllDigits(whole) && AllDigits(frac)
    ensures ParseNumeral(whole + "." + frac) == Some(Decimal(DigitsValue(whole), frac))
  {
    PointSplit(whole, frac);
    NumeralAtPoint(whole + "." + frac, |whole|);
  }

  /** Where the pieces of `whole.frac` lie. */
  lemma PointSplit(whole: string, frac: string)
    requires AllDigits(whole)
    ensures var t := whole + "." + frac;
            && t[..|whole|] == whole && t[|whole|] == '.' && t[|whole| + 1..] == frac
            && DigitRun(t) == |whole|
  {
    var t := whole + "." + frac;
    DigitRunOfDigits(whole, "." + frac);
    assert t == whole + ("." + frac);
  }

  /** `ParseNumeral` once the digit run is known to stop at a point. */
  lemma NumeralAtPoint(t: string, n: nat)
    requires n < |t| && DigitRun(t) == n && t[n] == '.' && 0 < n
    requires AllDigits(t[n + 1..])
    ensures ParseNumeral(t) == Some(Decimal(DigitsValue(t[..n]), t[n + 1..]))
  {
  }

  lemma DigitsHaveNoOuterSpace(whole: string, frac: string)
    requires |whole| > 0 && AllDigits(whole) && AllDigits(frac)
    ensures var t := whole + "." + frac;
            !Strings.IsSpace(t[0]) && !Strings.IsSpace(t[|t| - 1])
  {
    var t := whole + "." + frac;
    assert t[0] == whole[0];
    assert t[|t| - 1] == if |frac| > 0 then frac[|frac| - 1] else '.';
  }

  /** A decimal written `digits.digits` reads back as exactly that value. */
  lemma ParseDecimalOfPoint(whole: string, frac: string)
    requires |whole| > 0 && AllDigits(whole) && AllDigits(frac)
    ensures ParseDecimal(whole + "." + frac) == Some(Decimal(DigitsValue(whole), frac))
  {
    var t := whole + "." + frac;
    DigitsHaveNoOuterSpace(whole, frac);
    Strings.StripUntouched(t);
    NumeralOfPoint(whole, frac);
  }

  /** Python's `round(x)` for a non-negative exact decimal: the nearest
      integer, ties going to the even neighbour. Stated on the value scaled
      by `10^|frac|`: the result is within half a unit of `x`, and when it
      is exactly half a unit away it is even. */
  function RoundHalfEven(x: Decimal): (r: nat)
    requires AllDigits(x.frac)
    ensures r == x.whole || r == x.whole + 1
    ensures var p := Pow10(|x.frac|);
            var scaled := x.whole * p + DigitsValue(x.frac);
            && 2 * Dist(r * p, scaled) <= p
            && (2 * Dist(r * p, scaled) == p ==> r % 2 == 0)
  {
    RoundScaled(x.whole, DigitsValue(x.frac), Pow10(|x.frac|))
  }

  /** Rounding `w + f / p` half to even, for a fraction `0 <= f < p`. */
  function RoundScaled(w: nat, f: nat, p: nat): (r: nat)
    requires f < p
    ensures r == w || r == w + 1
    ensures 2 * Dist(r * p, w * p + f) <= p
    ensures 2 * Dist(r * p, w * p + f) == p ==> r % 2 == 0
  {
    assert (w + 1) * p == w * p + p;
    if 2 * f < p then w
    else if 2 * f > p then w + 1
    else if w % 2 == 0 then w
    else w + 1
  }

  function Dist(a: int, b: int): nat
  {
    if a <= b then b - a else a - b
  }

  lemma MulMonotone(a: nat, b: nat, p: nat)
    requires a <= b
    ensures a * p <= b * p
  {
  }

  /** The arithmetic core of `RoundIsNearest`, on plain integers: a point
      `base + f` inside the unit `[base, base + p)` is no closer to any
      multiple of `p` outside that unit than to the nearer of its ends. */
  lemma NearerEnd(base: int, p: int, f: int, near: int, other: int)
    requires 0 <= f < p
    requires near == base || near == base + p
    requires 2 * Dist(near, base + f) <= p
    requires other <= base || other >= base + p
    ensures Dist(near, base + f) <= Dist(other, base + f)
  {
  }

  /** No other integer is closer: the rounding is to a nearest integer. */
  lemma RoundIsNearest(x: Decimal, m: nat)
    requires AllDigits(x.frac)
    ensures var p := Pow10(|x.frac|);
            var scaled := x.whole * p + DigitsValue(x.frac);
            Dist(RoundHalfEven(x) * p, scaled) <= Dist(m * p, scaled)
  {
    var p := Pow10(|x.frac|);
    var r := RoundHalfEven(x);
    var base := x.whole * p;
    RoundedIsAnEnd(x);
    OutsideTheUnit(x.whole, m, p);
    NearerEnd(base, p, DigitsValue(x.frac), r * p, m * p);
  }

  /** The rounded value is one of the two ends of the unit holding `x`. */
  lemma RoundedIsAnEnd(x: Decimal)
    requires AllDigits(x.frac)
    ensures var p := Pow10(|x.frac|);
            RoundHalfEven(x) * p == x.whole * p || RoundHalfEven(x) * p == x.whole * p + p
  {
    var p := Pow10(|x.frac|);
    var w := x.whole;
    assert (w + 1) * p == w * p + p;
  }

  /** Any multiple of `p` is at or below `w * p` or at or above `(w + 1) * p`. */
  lemma OutsideTheUnit(w: nat, m: nat, p: nat)
    ensures m * p <= w * p || m * p >= w * p + p
  {
    if m <= w {
      MulMonotone(m, w, p);
    } else {
      MulMonotone(w + 1, m, p);
      assert (w + 1) * p == w * p + p;
    }
  }

  /** Python's `int(x)` for a non-negative decimal: the whole part. */
  function Truncate(x: Decimal): (n: nat)
    requires AllDigits(x.frac)
    ensures n * Pow10(|x.frac|) <= x.whole * Pow10(|x.frac|) + DigitsValue(x.frac)
            < (n + 1) * Pow10(|x.frac|)
  {
    var p := Pow10(|x.frac|);
    assert (x.whole + 1) * p == x.whole * p + p;
    x.whole
  }
}
