/** Printing a double as mantissa and decimal exponent: the number is scaled into [1, 10) by repeated
    multiplication or division by ten, and the mantissa printed to six significant digits. Doubles
    are exact reals here: the scaling does not round. */
module FloatPrinter {
  import opened Decimal
  import opened Options

  datatype Double = NaN | PosInf | NegInf | Finite(r: real)

  // ---------- Powers ----------

  function Two(n: nat): (p: real)
    ensures p >= 1.0
  {
    if n == 0 then 1.0 else 2.0 * Two(n - 1)
  }

  function TenUp(n: nat): (p: real)
    ensures p >= 1.0
  {
    if n == 0 then 1.0 else 10.0 * TenUp(n - 1)
  }

  /** 10 to the power e. */
  function Ten(e: int): (p: real)
    ensures p > 0.0
  {
    if e >= 0 then TenUp(e) else 1.0 / TenUp(-e)
  }

  /** std::numeric_limits<double>::epsilon() and max() */
  const EPSILON: real := 1.0 / 4503599627370496.0

  function DblMax(): real {
    Two(1024) - Two(971)
  }

  predicate IsDouble(f: Double) {
    f.Finite? ==> -DblMax() <= f.r <= DblMax()
  }

  lemma TenStep(e: int)
    ensures Ten(e + 1) == 10.0 * Ten(e)
  {
    if e < 0 {
      Reciprocal(TenUp(-e - 1), TenUp(-e));
    }
  }

  lemma Reciprocal(p: real, q: real)
    requires p >= 1.0 && q == 10.0 * p
    ensures 1.0 / p == 10.0 * (1.0 / q)
  {
    var x, y := 1.0 / p, 1.0 / q;
    assert x * p == 1.0 && y * q == 1.0;
    assert (x - 10.0 * y) * p == 0.0;
  }

  lemma {:induction false} TenAdd(a: nat, b: nat)
    ensures TenUp(a + b) == TenUp(a) * TenUp(b)
  {
    if b > 0 {
      TenAdd(a, b - 1);
    }
  }

  lemma {:induction false} TenMonotone(a: int, b: int)
    requires a <= b
    ensures Ten(a) <= Ten(b)
    decreases b - a
  {
    if a < b {
      TenMonotone(a, b - 1);
      TenStep(b - 1);
    }
  }

  lemma {:induction false} TwoAdd(a: nat, b: nat)
    ensures Two(a + b) == Two(a) * Two(b)
  {
    if b > 0 {
      TwoAdd(a, b - 1);
    }
  }

  lemma ProductBound(x: real, y: real)
    requires 0.0 <= x <= y
    ensures x * x <= y * y
  {
  }

  lemma ScaleBound(x: real, y: real, t: real)
    requires x <= y && t >= 0.0
    ensures x * t <= y * t
  {
  }

  lemma SquareBound(u: real, a: real, t: real, c: real, uu: real, tt: real)
    requires 0.0 <= u <= a * t && t > 0.0 && a * a <= c
    requires uu == u * u && tt == t * t
    ensures uu <= c * tt
  {
    ProductBound(u, a * t);
    SquareOfProduct(a, t);
    ScaleBound(a * a, c, tt);
  }

  lemma SquareOfProduct(a: real, t: real)
    ensures (a * t) * (a * t) == (a * a) * (t * t)
  {
  }

  lemma SquareTwo(n: nat, a: real, k: nat, c: real)
    requires Two(n) <= a * TenUp(k) && a * a <= c
    ensures Two(n + n) <= c * TenUp(k + k)
  {
    TwoAdd(n, n);
    TenAdd(k, k);
    SquareBound(Two(n), a, TenUp(k), c, Two(n + n), TenUp(k + k));
  }

  lemma FiveMore(k: nat, a: real)
    ensures (a * 100000.0) * TenUp(k) == a * TenUp(k + 5)
  {
    TenAdd(k, 5);
    FiveDigits();
  }

  lemma Two32()
    ensures Two(32) <= 42.950 * TenUp(8)
  {
    assert Two(4) == 16.0;
    assert Two(8) == 256.0 by { TwoAdd(4, 4); }
    assert TenUp(2) == 100.0;
    SquareTwo(8, 2.56, 2, 6.5536);
    SquareTwo(16, 6.5536, 4, 42.950);
  }

  lemma Two64()
    ensures Two(64) <= 1844.71 * TenUp(16)
  {
    Two32();
    SquareTwo(32, 42.950, 8, 1844.71);
  }

  lemma Two128()
    ensures Two(128) <= 34.02955 * TenUp(37)
  {
    Two64();
    SquareTwo(64, 1844.71, 16, 3402955.0);
    FiveMore(32, 34.02955);
  }

  lemma Two256()
    ensures Two(256) <= 1158.02 * TenUp(74)
  {
    Two128();
    SquareTwo(128, 34.02955, 37, 1158.02);
  }

  lemma Two512()
    ensures Two(512) <= 13.41011 * TenUp(153)
  {
    Two256();
    SquareTwo(256, 1158.02, 74, 1341011.0);
    FiveMore(148, 13.41011);
  }

  lemma Distribute(x: real, y: real, z: real)
    requires z == x * y
    ensures z - y == (x - 1.0) * y
  {
  }

  lemma OnesAbove(n: nat, k: nat)
    ensures Two(n + k) - Two(k) == (Two(n) - 1.0) * Two(k)
  {
    TwoAdd(n, k);
    Distribute(Two(n), Two(k), Two(n + k));
  }

  /** The largest double is 53 one bits, the last of them worth 2^971. */
  lemma DblMaxIs(bits: nat, k: nat)
    requires bits == 53 && k == 971
    ensures DblMax() == (Two(bits) - 1.0) * Two(k)
  {
    OnesAbove(bits, k);
  }

  lemma Two26()
    ensures Two(26) == 67108864.0
  {
    assert Two(13) == 8192.0;
    TwoAdd(13, 13);
  }

  /** The machine epsilon is the last of the 53 bits of one. */
  lemma EpsilonIs()
    ensures EPSILON * Two(52) == 1.0
  {
    Two26();
    TwoAdd(26, 26);
  }

  lemma Two1024()
    ensures Two(1024) <= 179.84 * TenUp(306)
  {
    Two512();
    SquareTwo(512, 13.41011, 153, 179.84);
  }

  /** The largest double has 309 digits. */
  lemma DblMaxBelowTen309()
    ensures DblMax() < TenUp(309)
  {
    Two1024();
    TenAdd(306, 3);
    assert TenUp(3) == 1000.0;
  }

  lemma FiveDigits()
    ensures TenUp(5) == 100000.0
  {
    assert TenUp(3) == 1000.0;
  }

  lemma EpsilonAboveTenMinus16()
    ensures Ten(-16) <= EPSILON
  {
    FiveDigits();
    TenAdd(5, 5);
    TenAdd(10, 5);
    assert TenUp(16) == 10000000000000000.0;
  }

  // ---------- Normal form ----------

  predicate IsNormal(f: real, m: real, e: int) {
    1.0 <= m < 10.0 && m * Ten(e) == f
  }

  /** A positive number has one normal form only. */
  lemma NormalIsUnique(f: real, m1: real, e1: int, m2: real, e2: int)
    requires IsNormal(f, m1, e1) && IsNormal(f, m2, e2)
    ensures m1 == m2 && e1 == e2
  {
    NormalBounds(f, m1, e1);
    NormalBounds(f, m2, e2);
    ExponentIsUnique(f, e1, e2);
    CancelFactor(m1, m2, Ten(e1));
  }

  lemma ExponentIsUnique(f: real, e1: int, e2: int)
    requires Ten(e1) <= f < Ten(e1 + 1) && Ten(e2) <= f < Ten(e2 + 1)
    ensures e1 == e2
  {
    if e1 < e2 {
      TenMonotone(e1 + 1, e2);
      assert false;
    } else if e2 < e1 {
      TenMonotone(e2 + 1, e1);
      assert false;
    }
  }

  lemma CancelFactor(x: real, y: real, t: real)
    requires t > 0.0 && x * t == y * t
    ensures x == y
  {
    assert (x - y) * t == 0.0;
  }

  lemma NormalBounds(f: real, m: real, e: int)
    requires IsNormal(f, m, e)
    ensures Ten(e) <= f < Ten(e + 1)
  {
    TenStep(e);
    ScaleBetween(m, Ten(e));
  }

  lemma ScaleBetween(m: real, t: real)
    requires 1.0 <= m < 10.0 && t > 0.0
    ensures t <= m * t < 10.0 * t
  {
  }

  /** The exponents of the numbers that get this far. */
  lemma ExponentRange(f: real, m: real, e: int)
    requires EPSILON <= f <= DblMax() && IsNormal(f, m, e)
    ensures -16 <= e <= 308
  {
    NormalBounds(f, m, e);
    if e > 308 {
      TenMonotone(309, e);
      DblMaxBelowTen309();
      assert false;
    }
    if e < -16 {
      TenMonotone(e + 1, -16);
      EpsilonAboveTenMinus16();
      assert false;
    }
  }

  lemma FloorShrinks(x: real)
    requires x >= 1.0
    ensures 0 <= (x / 10.0).Floor < x.Floor
  {
  }

  /** The two loops that scale a positive number. */
  method Normalise(x: real) returns (m: real, e: int)
    requires x > 0.0
    ensures IsNormal(x, m, e)
  {
    m, e := x, 0;
    if m < 1.0 {
      ghost var inverse := 1.0 / m;
      while m < 1.0
        invariant 0.0 < m < 10.0 && inverse > 0.0 && inverse * m == 1.0
        invariant m * Ten(e) == x
        decreases inverse.Floor
      {
        assert inverse >= 1.0 by { BelowOne(m, inverse); }
        FloorShrinks(inverse);
        TenStep(e - 1);
        ShiftTen(m, e);
        e := e - 1;
        m := m * 10.0;
        inverse := inverse / 10.0;
      }
    } else {
      while m >= 10.0
        invariant m >= 1.0 && m * Ten(e) == x
        decreases m.Floor
      {
        FloorShrinks(m);
        ShiftTen(m / 10.0, e + 1);
        e := e + 1;
        m := m / 10.0;
      }
    }
  }

  lemma BelowOne(m: real, inverse: real)
    requires 0.0 < m < 1.0 && inverse > 0.0 && inverse * m == 1.0
    ensures inverse >= 1.0
  {
    assert inverse * (1.0 - m) > 0.0;
  }

  lemma ShiftTen(m: real, e: int)
    ensures (m * 10.0) * Ten(e - 1) == m * Ten(e)
  {
    TenStep(e - 1);
  }

  // ---------- Six significant digits ----------

  /** The nearest integer, the even one of two. */
  function Round(x: real): (r: int)
    ensures -0.5 <= r as real - x <= 0.5
    ensures r as real - x == 0.5 || r as real - x == -0.5 ==> r % 2 == 0
  {
    var n := x.Floor;
    var d := x - n as real;
    if d < 0.5 || (d == 0.5 && n % 2 == 0) then n else n + 1
  }

  /** The six digits of a mantissa, as an integer; 1000000 when it rounds up to ten. */
  function SixDigits(m: real): (n: nat)
    requires 1.0 <= m < 10.0
    ensures 100000 <= n <= 1000000
    ensures -0.5 <= n as real - m * 100000.0 <= 0.5
    ensures n as real - m * 100000.0 == 0.5 || n as real - m * 100000.0 == -0.5 ==> n % 2 == 0
    ensures n == 1000000 <==> m >= 9.999995
  {
    Round(m * 100000.0)
  }

  /** k decimal digits of x, with leading zeros. */
  function Padded(x: nat, k: nat): (s: string)
    requires x < Pow10(k)
    ensures |s| == k && AllDigits(s) && Value(s) == x
  {
    if k == 0 then ""
    else
      var s := Padded(x / 10, k - 1);
      var r := s + [DigitChar(x % 10)];
      assert r[..|r| - 1] == s;
      r
  }

  /** The fraction x / 10^k without its trailing zeros. */
  function Fraction(x: nat, k: nat): (s: string)
    requires x < Pow10(k)
    ensures AllDigits(s) && |s| <= k && (x != 0 <==> s != "")
    ensures s != "" ==> s[|s| - 1] != '0'
  {
    if x == 0 then ""
    else if x % 10 == 0 then Fraction(x / 10, k - 1)
    else Padded(x, k)
  }

  /** Dropping the trailing zeros does not change the fraction. */
  lemma {:induction false} FractionValue(x: nat, k: nat)
    requires x < Pow10(k)
    ensures Value(Fraction(x, k)) * Pow10(k) == x * Pow10(|Fraction(x, k)|)
  {
    if x != 0 && x % 10 == 0 {
      FractionValue(x / 10, k - 1);
      AppendZero(Value(Fraction(x, k)), Pow10(k - 1), x / 10, Pow10(|Fraction(x, k)|));
    }
  }

  lemma AppendZero(v: nat, q: nat, h: nat, p: nat)
    requires v * q == h * p
    ensures v * (10 * q) == (10 * h) * p
  {
  }

  /** What "%.6g" prints for a mantissa in [1, 10). */
  function MantissaText(m: real): (s: string)
    requires 1.0 <= m < 10.0
  {
    var n := SixDigits(m);
    if n == 1000000 then "10"
    else
      var frac := Fraction(n % 100000, 5);
      Print(n / 100000) + (if frac == "" then "" else "." + frac)
  }

  /** The text for a positive number: the mantissa, ".0" if it is a single digit, the exponent. */
  function Magnitude(m: real, e: int): string
    requires 1.0 <= m < 10.0
  {
    var t := MantissaText(m);
    t + (if |t| == 1 then ".0" else "") + ("E" + PrintInt(e))
  }

  function Sign(x: real): string {
    if x < 0.0 then "-" else ""
  }

  function Abs(x: real): real {
    if x < 0.0 then -x else x
  }

  class StringBuilder {
    var buffer: string

    constructor ()
      ensures buffer == ""
    {
      buffer := "";
    }

    method Append(s: string)
      modifies this
      ensures buffer == old(buffer) + s
    {
      buffer := buffer + s;
    }

    /** FUStringBuilderT::append(double) */
    method AppendDouble(x: Double) returns (ghost mantissa: real, ghost exponent: int)
      requires IsDouble(x)
      modifies this
      ensures x.NaN? ==> buffer == old(buffer) + "NaN"
      ensures x.PosInf? ==> buffer == old(buffer) + "INF"
      ensures x.NegInf? ==> buffer == old(buffer) + "-INF"
      ensures x.Finite? && Abs(x.r) < EPSILON ==> buffer == old(buffer) + "0.0E0"
      ensures x.Finite? && Abs(x.r) >= EPSILON ==>
                IsNormal(Abs(x.r), mantissa, exponent) &&
                buffer == old(buffer) + Sign(x.r) + Magnitude(mantissa, exponent)
      ensures x.Finite? && Abs(x.r) >= EPSILON ==>
                HasParts(buffer[|old(buffer)|..], x.r < 0.0, mantissa, exponent) &&
                ReadsBack(buffer[|old(buffer)|..], x.r, exponent)
    {
      mantissa, exponent := 0.0, 0;
      if x.NegInf? {
        Append("-INF");
        return;
      } else if x.PosInf? {
        Append("INF");
        return;
      } else if x.NaN? {
        Append("NaN");
        return;
      } else if -EPSILON < x.r && x.r < EPSILON {
        Append("0.0E0");
        return;
      }
      mantissa, exponent := AppendNonZero(x.r);
    }

    /** The part for a number that is not taken for zero: the sign, then the magnitude. */
    method AppendNonZero(x: real) returns (ghost mantissa: real, ghost exponent: int)
      requires EPSILON <= Abs(x) <= DblMax()
      modifies this
      ensures IsNormal(Abs(x), mantissa, exponent)
      ensures buffer == old(buffer) + Sign(x) + Magnitude(mantissa, exponent)
      ensures HasParts(buffer[|old(buffer)|..], x < 0.0, mantissa, exponent)
      ensures ReadsBack(buffer[|old(buffer)|..], x, exponent)
    {
      var f := x;
      if f < 0.0 {
        f := -f;
        Append("-");
      }
      mantissa, exponent := AppendScaled(f);
      AppendedText(old(buffer), x, mantissa, exponent);
    }

    /** The part for a positive number: mantissa and exponent each go through the ten-byte buffer. */
    method AppendScaled(f: real) returns (ghost mantissa: real, ghost exponent: int)
      requires EPSILON <= f <= DblMax()
      modifies this
      ensures IsNormal(f, mantissa, exponent)
      ensures buffer == old(buffer) + Magnitude(mantissa, exponent)
    {
      var m, e := Normalise(f);
      ExponentRange(f, m, e);
      AppendNormal(m, e);
      mantissa, exponent := m, e;
    }

    method AppendNormal(m: real, e: int)
      requires 1.0 <= m < 10.0 && -16 <= e <= 308
      modifies this
      ensures buffer == old(buffer) + Magnitude(m, e)
    {
      BothTextsFit(m, e);
      AppendTexts(MantissaText(m), "E" + PrintInt(e));
      assert old(buffer) + Magnitude(m, e) == buffer;
    }

    method AppendTexts(mantissa: string, exponent: string)
      requires |mantissa| < 10 && |exponent| < 10
      modifies this
      ensures buffer == old(buffer) + (mantissa + (if |mantissa| == 1 then ".0" else "") + exponent)
    {
      var tmp := Sprintf(mantissa);
      Append(tmp);
      if |tmp| == 1 {
        Append(".0");
      }
      tmp := Sprintf(exponent);
      Append(tmp);
    }

    /** sprintf into a buffer of ten bytes, which must hold the text and its NUL. */
    method Sprintf(text: string) returns (tmp: string)
      requires |text| + 1 <= 10
      ensures tmp == text
    {
      tmp := text;
    }
  }

  lemma BothTextsFit(m: real, e: int)
    requires 1.0 <= m < 10.0 && -16 <= e <= 308
    ensures 1 <= |MantissaText(m)| <= 7 && |"E" + PrintInt(e)| <= 5
  {
    var n := SixDigits(m);
    PrintLength(n / 100000, 1);
    PrintIsCanonical(n / 100000);
    var a := if e < 0 then -e else e;
    PrintLength(a, 3);
    PrintLength(a, 2);
    assert Pow10(1) == 10 && Pow10(2) == 100 && Pow10(3) == 1000;
  }

  // ---------- Reading the text back ----------

  /** What stands before the first c in s, and what stands after it. */
  function SplitAt(s: string, c: char): (string, Option<string>) {
    if s == "" then ("", None)
    else if s[0] == c then ("", Some(s[1..]))
    else
      var (before, after) := SplitAt(s[1..], c);
      ([s[0]] + before, after)
  }

  function ReadInteger(s: string): Option<int> {
    if s != "" && s[0] == '-' then
      if s[1..] != "" && AllDigits(s[1..]) then Some(0 - Value(s[1..])) else None
    else if s != "" && AllDigits(s) then Some(Value(s)) else None
  }

  function FractionOf(frac: string): real
    requires AllDigits(frac)
  {
    Value(frac) as real / Pow10(|frac|) as real
  }

  /** Digits, optionally followed by a point and more digits. */
  function ReadMantissa(s: string): Option<real> {
    match SplitAt(s, '.')
    case (whole, None) =>
      if whole != "" && AllDigits(whole) then Some(Value(whole) as real) else None
    case (whole, Some(frac)) =>
      if whole != "" && AllDigits(whole) && frac != "" && AllDigits(frac) then
        Some(Value(whole) as real + FractionOf(frac))
      else None
  }

  /** What a text in scientific notation says. */
  datatype Scientific = Scientific(negative: bool, mantissa: real, exponent: int)

  function NumberOf(n: Scientific): real {
    (if n.negative then -n.mantissa else n.mantissa) * Ten(n.exponent)
  }

  function ReadMagnitude(s: string, negative: bool): Option<Scientific> {
    match SplitAt(s, 'E')
    case (_, None) => None
    case (mantissa, Some(exponent)) =>
      match (ReadMantissa(mantissa), ReadInteger(exponent))
      case (Some(m), Some(e)) => Some(Scientific(negative, m, e))
      case _ => None
  }

  /** Reads an optional sign, a mantissa, the letter E and an exponent. */
  function ReadDouble(s: string): Option<Scientific> {
    if s != "" && s[0] == '-' then ReadMagnitude(s[1..], true) else ReadMagnitude(s, false)
  }

  lemma {:induction false} SplitAtFirst(a: string, c: char, b: string)
    requires c !in a
    ensures SplitAt(a + [c] + b, c) == (a, Some(b))
  {
    var s := a + [c] + b;
    if a == "" {
      assert s[1..] == b;
    } else {
      assert s[1..] == a[1..] + [c] + b && s[0] == a[0];
      SplitAtFirst(a[1..], c, b);
      assert [a[0]] + a[1..] == a;
    }
  }

  lemma {:induction false} SplitAtMissing(s: string, c: char)
    requires c !in s
    ensures SplitAt(s, c) == (s, None)
  {
    if s != "" {
      SplitAtMissing(s[1..], c);
      assert [s[0]] + s[1..] == s;
    }
  }

  lemma ReadPrintedInteger(e: int)
    ensures ReadInteger(PrintInt(e)) == Some(e)
  {
    var a := if e < 0 then -e else e;
    PrintIsCanonical(a);
    if e < 0 {
      assert PrintInt(e)[1..] == Print(a);
    } else {
      assert IsDigit(PrintInt(e)[0]);
    }
  }

  lemma OneDigit(d: nat)
    requires d < 10
    ensures AllDigits([DigitChar(d)]) && Value([DigitChar(d)]) == d
  {
    assert [DigitChar(d)][..0] == "";
  }

  lemma CrossDivide(v: nat, p: nat, x: nat, q: nat)
    requires p > 0 && q > 0 && v * q == x * p
    ensures v as real / p as real == x as real / q as real
  {
    assert v as real * q as real == x as real * p as real;
    EqualQuotients(v as real / p as real, x as real / q as real, p as real, q as real);
  }

  lemma EqualQuotients(a: real, b: real, p: real, q: real)
    requires p > 0.0 && q > 0.0 && (a * p) * q == (b * q) * p
    ensures a == b
  {
    assert a * (p * q) == b * (p * q);
    CancelFactor(a, b, p * q);
  }

  /** What is printed behind the point. */
  function Shown(x: nat): (s: string)
    requires x < 100000
    ensures s != "" && AllDigits(s) && (|s| > 1 ==> s[|s| - 1] != '0')
  {
    assert Pow10(5) == 100000 by { Pow10Of5(); }
    if x == 0 then "0" else Fraction(x, 5)
  }

  lemma Pow10Of5()
    ensures Pow10(5) == 100000
  {
    assert Pow10(3) == 1000;
  }

  lemma ShownValue(x: nat)
    requires x < 100000
    ensures FractionOf(Shown(x)) == x as real / 100000.0
  {
    Pow10Of5();
    if x == 0 {
      OneDigit(0);
      assert "0" == [DigitChar(0)];
    } else {
      FractionValue(x, 5);
      CrossDivide(Value(Shown(x)), Pow10(|Shown(x)|), x, 100000);
    }
  }

  /** The mantissa with the ".0" that a single digit gets. */
  function FullMantissa(m: real): string
    requires 1.0 <= m < 10.0
  {
    var t := MantissaText(m);
    t + (if |t| == 1 then ".0" else "")
  }

  lemma MantissaShape(m: real)
    requires 1.0 <= m < 10.0
    ensures var n := SixDigits(m);
            FullMantissa(m) ==
            if n == 1000000 then "10" else [DigitChar(n / 100000)] + ['.'] + Shown(n % 100000)
  {
    var n := SixDigits(m);
    if n < 1000000 {
      assert n / 100000 < 10;
      assert Print(n / 100000) == [DigitChar(n / 100000)];
    }
  }

  /** The mantissa reads back as the six digits. */
  lemma ReadFullMantissa(m: real)
    requires 1.0 <= m < 10.0
    ensures ReadMantissa(FullMantissa(m)) == Some(SixDigits(m) as real / 100000.0)
  {
    var n := SixDigits(m);
    MantissaShape(m);
    if n == 1000000 {
      SplitAtMissing("10", '.');
      ValueOfTen();
    } else {
      ReadSixDigits(n);
    }
  }

  lemma ValueOfTen()
    ensures AllDigits("10") && Value("10") == 10
  {
    assert "10"[..1] == "1";
    OneDigit(1);
    assert [DigitChar(1)] == "1";
  }

  lemma ReadSixDigits(n: nat)
    requires 100000 <= n < 1000000
    ensures ReadMantissa([DigitChar(n / 100000)] + ['.'] + Shown(n % 100000)) == Some(n as real / 100000.0)
  {
    var d, x := n / 100000, n % 100000;
    SplitAtFirst([DigitChar(d)], '.', Shown(x));
    OneDigit(d);
    ShownValue(x);
    assert d as real + x as real / 100000.0 == n as real / 100000.0;
  }

  lemma NoSuchChar(m: real, c: char)
    requires 1.0 <= m < 10.0 && !IsDigit(c) && c != '.'
    ensures c !in FullMantissa(m)
  {
    MantissaShape(m);
  }

  lemma MagnitudeSplits(m: real, e: int)
    requires 1.0 <= m < 10.0
    ensures SplitAt(Magnitude(m, e), 'E') == (FullMantissa(m), Some(PrintInt(e)))
  {
    NoSuchChar(m, 'E');
    SplitAtFirst(FullMantissa(m), 'E', PrintInt(e));
    assert Magnitude(m, e) == FullMantissa(m) + ['E'] + PrintInt(e);
  }

  lemma ReadMagnitudeText(m: real, e: int, negative: bool)
    requires 1.0 <= m < 10.0
    ensures ReadMagnitude(Magnitude(m, e), negative) == Some(Scientific(negative, SixDigits(m) as real / 100000.0, e))
  {
    MagnitudeSplits(m, e);
    ReadFullMantissa(m);
    ReadPrintedInteger(e);
    ReadParts(Magnitude(m, e), FullMantissa(m), PrintInt(e), SixDigits(m) as real / 100000.0, e, negative);
  }

  lemma ReadParts(s: string, t: string, u: string, mantissa: real, exponent: int, negative: bool)
    requires SplitAt(s, 'E') == (t, Some(u))
    requires ReadMantissa(t) == Some(mantissa) && ReadInteger(u) == Some(exponent)
    ensures ReadMagnitude(s, negative) == Some(Scientific(negative, mantissa, exponent))
  {
  }

  /** The text reads back as the six digits and the exponent, with the sign of the number. */
  lemma ReadText(x: real, m: real, e: int)
    requires 1.0 <= m < 10.0
    ensures ReadDouble(Sign(x) + Magnitude(m, e)) == Some(Scientific(x < 0.0, SixDigits(m) as real / 100000.0, e))
  {
    var s := Magnitude(m, e);
    ReadMagnitudeText(m, e, x < 0.0);
    if x < 0.0 {
      assert (Sign(x) + s)[1..] == s;
    } else {
      assert Sign(x) + s == s;
      NoSuchChar(m, '-');
      assert s[0] == FullMantissa(m)[0];
    }
  }

  lemma ErrorScales(m: real, n: real, t: real, u: real)
    requires -0.5 <= n - m * 100000.0 <= 0.5 && t > 0.0 && u == 100000.0 * t
    ensures Abs(n / 100000.0 * u - m * u) <= 0.5 * t
  {
    Difference(m, n, t, u);
    HalfUnit(n - m * 100000.0, t);
  }

  lemma HalfUnit(d: real, t: real)
    requires -0.5 <= d <= 0.5 && t > 0.0
    ensures Abs(d * t) <= 0.5 * t
  {
    if d >= 0.0 {
      ScaleBound(0.0, d, t);
      ScaleBound(d, 0.5, t);
    } else {
      ScaleBound(-d, 0.5, t);
      assert (-d) * t == -(d * t);
    }
  }

  lemma Difference(m: real, n: real, t: real, u: real)
    requires u == 100000.0 * t
    ensures n / 100000.0 * u - m * u == (n - m * 100000.0) * t
  {
    assert n / 100000.0 * u == n * t;
    assert m * u == (m * 100000.0) * t;
  }

  lemma FiveSteps(e: int)
    ensures Ten(e) == 100000.0 * Ten(e - 5)
  {
    TenStep(e - 5);
    TenStep(e - 4);
    TenStep(e - 3);
    TenStep(e - 2);
    TenStep(e - 1);
  }

  /** The text reads back to within half a unit of the sixth significant digit of the number. */
  lemma TextReadsBack(x: real, m: real, e: int)
    requires IsNormal(Abs(x), m, e)
    ensures var r := ReadDouble(Sign(x) + Magnitude(m, e));
            r.Some? && Abs(NumberOf(r.value) - x) <= 0.5 * Ten(e - 5)
  {
    ReadText(x, m, e);
    ShownError(x, m, e);
  }

  lemma ShownError(x: real, m: real, e: int)
    requires IsNormal(Abs(x), m, e)
    ensures Abs(NumberOf(Scientific(x < 0.0, SixDigits(m) as real / 100000.0, e)) - x) <= 0.5 * Ten(e - 5)
  {
    var v := SixDigitValue(m, e);
    NumberError(x, m, v, e, 0.5 * Ten(e - 5));
  }

  lemma SixDigitValue(m: real, e: int) returns (v: real)
    requires 1.0 <= m < 10.0
    ensures v == SixDigits(m) as real / 100000.0
    ensures Abs(v * Ten(e) - m * Ten(e)) <= 0.5 * Ten(e - 5)
  {
    v := SixDigits(m) as real / 100000.0;
    RoundingError(m, SixDigits(m) as real, v, e);
  }

  lemma RoundingError(m: real, n: real, v: real, e: int)
    requires -0.5 <= n - m * 100000.0 <= 0.5 && v == n / 100000.0
    ensures Abs(v * Ten(e) - m * Ten(e)) <= 0.5 * Ten(e - 5)
  {
    FiveSteps(e);
    ErrorScales(m, n, Ten(e - 5), Ten(e));
  }

  lemma NumberError(x: real, m: real, v: real, e: int, bound: real)
    requires m * Ten(e) == Abs(x) && Abs(v * Ten(e) - m * Ten(e)) <= bound
    ensures Abs(NumberOf(Scientific(x < 0.0, v, e)) - x) <= bound
  {
    SignedError(x, m, v, Ten(e), bound);
  }

  lemma SignedError(x: real, m: real, v: real, t: real, bound: real)
    requires m * t == Abs(x) && Abs(v * t - m * t) <= bound
    ensures Abs((if x < 0.0 then -v else v) * t - x) <= bound
  {
    assert (-v) * t == -(v * t);
  }

  /** The canonical form: one non-zero digit, a point, a fraction without superfluous zeros, and an
      exponent. */
  ghost predicate CanonicalText(s: string) {
    match SplitAt(s, 'E')
    case (_, None) => false
    case (t, Some(x)) =>
      && CanonicalMantissa(t)
      && CanonicalInteger(x)
  }

  predicate CanonicalMantissa(t: string) {
    && |t| >= 3 && IsDigit(t[0]) && t[0] != '0' && t[1] == '.'
    && AllDigits(t[2..]) && (|t| > 3 ==> t[|t| - 1] != '0')
  }

  lemma CanonicalMantissaIff(m: real)
    requires 1.0 <= m < 10.0
    ensures CanonicalMantissa(FullMantissa(m)) <==> m < 9.999995
  {
    var t, n := FullMantissa(m), SixDigits(m);
    MantissaShape(m);
    if n < 1000000 {
      var shown := Shown(n % 100000);
      assert t[2..] == shown;
      assert n / 100000 >= 1;
      assert t[|t| - 1] == shown[|shown| - 1];
    }
  }

  /** The text is in canonical form exactly when the mantissa does not round up to ten; otherwise it
      is "10E" and the exponent. */
  lemma CanonicalTextIff(m: real, e: int)
    requires 1.0 <= m < 10.0
    ensures CanonicalText(Magnitude(m, e)) <==> m < 9.999995
    ensures m >= 9.999995 ==> Magnitude(m, e) == "10E" + PrintInt(e)
  {
    MagnitudeSplits(m, e);
    CanonicalMantissaIff(m);
    MantissaShape(m);
    PrintIntIsCanonical(e);
  }

  /** The parts of a text: '-' exactly for negative numbers; the canonical mantissa, or 10; the letter E;
      and '-' exactly for negative exponents, followed by the canonical magnitude of the exponent. */
  ghost predicate HasParts(text: string, negative: bool, m: real, e: int) {
    && text != "" && (text[0] == '-' <==> negative)
    && match SplitAt(if negative then text[1..] else text, 'E')
       case (_, None) => false
       case (t, Some(u)) =>
         && (if m < 9.999995 then CanonicalMantissa(t) else t == "10")
         && u != "" && CanonicalInteger(u) && (u[0] == '-' <==> e < 0)
         && ReadInteger(u) == Some(e)
  }

  /** A text reads back to within half a unit of the sixth significant digit. */
  predicate ReadsBack(text: string, x: real, e: int) {
    match ReadDouble(text)
    case None => false
    case Some(n) => Abs(NumberOf(n) - x) <= 0.5 * Ten(e - 5)
  }

  lemma TextHasParts(x: real, m: real, e: int)
    requires IsNormal(Abs(x), m, e)
    ensures HasParts(Sign(x) + Magnitude(m, e), x < 0.0, m, e)
  {
    var s := Magnitude(m, e);
    MagnitudeSplits(m, e);
    CanonicalMantissaIff(m);
    MantissaShape(m);
    PrintIntIsCanonical(e);
    ReadPrintedInteger(e);
    if x < 0.0 {
      assert (Sign(x) + s)[1..] == s;
    } else {
      assert Sign(x) + s == s;
      NoSuchChar(m, '-');
      assert s[0] == FullMantissa(m)[0];
    }
  }

  lemma AppendedText(before: string, x: real, m: real, e: int)
    requires IsNormal(Abs(x), m, e)
    ensures var text := (before + Sign(x) + Magnitude(m, e))[|before|..];
            HasParts(text, x < 0.0, m, e) && ReadsBack(text, x, e)
  {
    assert (before + Sign(x) + Magnitude(m, e))[|before|..] == Sign(x) + Magnitude(m, e);
    TextHasParts(x, m, e);
    TextReadsBack(x, m, e);
  }

  /** In terms of the number: it lies below 9.999995 times its power of ten. */
  lemma CanonicalPrintIff(x: real, m: real, e: int)
    requires IsNormal(Abs(x), m, e)
    ensures CanonicalText(Magnitude(m, e)) <==> Abs(x) < 9.999995 * Ten(e)
  {
    assert m < 9.999995 <==> Abs(x) < 9.999995 * Ten(e) by {
      NormalBelowIff(Abs(x), m, e, 9.999995);
    }
    assert CanonicalText(Magnitude(m, e)) <==> m < 9.999995 by {
      CanonicalTextIff(m, e);
    }
  }

  lemma NormalBelowIff(f: real, m: real, e: int, bound: real)
    requires IsNormal(f, m, e)
    ensures m < bound <==> f < bound * Ten(e)
  {
    ScaleOrder(m, bound, Ten(e));
  }

  lemma ScaleOrder(x: real, y: real, t: real)
    requires t > 0.0
    ensures x < y <==> x * t < y * t
  {
    if x < y {
      assert (y - x) * t > 0.0;
    } else {
      ScaleBound(y, x, t);
    }
  }

  /** 9.999999 is printed as 10E0. */
  lemma NotCanonicalExample()
    ensures IsNormal(9.999999, 9.999999, 0) && Magnitude(9.999999, 0) == "10E0"
    ensures !CanonicalText(Magnitude(9.999999, 0))
  {
    CanonicalTextIff(9.999999, 0);
    assert PrintInt(0) == "0";
  }
}
