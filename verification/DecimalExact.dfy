/**
 decString prints rationals of up to 20 fractional digits exactly, so the numeric operators and
 aggregates that go through it lose nothing (engine/decimal.go).
 */
module DecimalExact {
  import opened Rationals
  import opened DecimalDigits
  import opened DecimalText

  const CAP: nat := 20

  ghost function DVal(x: Decimal): real { x.mantissa as real / TenTo(x.scale) as real }

  // -- Rounding ------------------------------------------------------------------------------

  lemma NearestIsExact(n: int, d: int, q: int)
    requires n >= 0 && d > 0 && n == q * d
    ensures Nearest(n, d) == q
  {
    assert 2 * n + d == (2 * d) * q + d;
    DivUnique(2 * n + d, 2 * d, q, d);
  }

  lemma NearestProduct(x: nat, d: int)
    requires d > 0
    ensures var m := Nearest(x, d);
            && -d <= 2 * (m * d - x) <= d
            && (Divides(d, x) ==> m * d == x)
  {
    if Divides(d, x) {
      var q := Quotient(d, x);
      NearestIsExact(x, d, q);
    }
  }

  // What scaling makes of r: an integer within half of r * 10^prec, and equal to it when r fits.
  lemma ScaledIsNear(r: Number, prec: nat)
    ensures var m := Signed(r.num < 0, Scaled(r, prec));
            && -r.den <= 2 * (m * r.den - r.num * Pow(10, prec)) <= r.den
            && (Fits(r, prec) ==> m * r.den == r.num * Pow(10, prec))
  {
    var neg := r.num < 0;
    var a := if neg then -r.num else r.num;
    var x := Magnitude(r, a, TenTo(prec));
    NearestProduct(x, r.den);
    SignedProduct(neg, Scaled(r, prec), r.den);
  }

  lemma Magnitude(r: Rat, a: int, base: int) returns (x: int)
    requires r.den > 0 && base > 0 && a == (if r.num < 0 then -r.num else r.num)
    ensures x == a * base && x >= 0 && r.num * base == Signed(r.num < 0, x)
    ensures Divides(r.den, r.num * base) ==> Divides(r.den, x)
  {
    x := a * base;
    MulMono(0, a, base);
    SignedProduct(r.num < 0, a, base);
    if Divides(r.den, r.num * base) { DividesProduct(r.den, r.num * base, -1); }
  }

  // -- Exactness -----------------------------------------------------------------------------

  lemma ScaleUp(a: int, i: nat, j: nat)
    requires i <= j
    ensures a * Pow(10, j) == (a * Pow(10, i)) * Pow(10, j - i)
  {
    PowAdd(10, i, j - i);
    assert a * (Pow(10, i) * Pow(10, j - i)) == (a * Pow(10, i)) * Pow(10, j - i);
  }

  // A decimal of at most prec digits equals r exactly when its mantissa, brought to prec digits,
  // is r * 10^prec.
  lemma DenotesAtScale(x: Decimal, r: Rat, prec: nat)
    requires r.den > 0 && x.scale <= prec
    ensures Denotes(x, r) <==> (x.mantissa * Pow(10, prec - x.scale)) * r.den == r.num * Pow(10, prec)
  {
    var up := TenTo(prec - x.scale);
    ScaleUp(r.num, x.scale, prec);
    assert (x.mantissa * up) * r.den == (x.mantissa * r.den) * up;
    if (x.mantissa * up) * r.den == r.num * Pow(10, prec) {
      CancelFactor(x.mantissa * r.den, r.num * Pow(10, x.scale), up);
    }
  }

  lemma CancelFactor(a: int, b: int, c: int)
    requires c > 0 && a * c == b * c
    ensures a == b
  {
    if a < b { MulMono(a + 1, b, c); }
    if b < a { MulMono(b + 1, a, c); }
  }

  lemma DenotesFits(x: Decimal, r: Rat, prec: nat)
    requires r.den > 0 && x.scale <= prec && Denotes(x, r)
    ensures Fits(r, prec)
  {
    DenotesAtScale(x, r, prec);
    DividesIff(r.den, r.num * Pow(10, prec), x.mantissa * Pow(10, prec - x.scale));
  }

  lemma MoreDigitsFit(r: Rat, i: nat, j: nat)
    requires r.den > 0 && i <= j && Fits(r, i)
    ensures Fits(r, j)
  {
    ScaleUp(r.num, i, j);
    DividesProduct(r.den, r.num * Pow(10, i), Pow(10, j - i));
  }

  // Within half a unit of the last digit kept, as real numbers.
  ghost predicate Within(x: Decimal, r: Number, prec: nat) {
    var half := 1.0 / (2.0 * TenTo(prec) as real);
    -half <= DVal(x) - Val(r) <= half
  }

  lemma RealBound(m: real, n: real, base: real, d: real)
    requires base > 0.0 && d > 0.0
    requires -d <= 2.0 * (m * d - n * base) <= d
    ensures -(1.0 / (2.0 * base)) <= m / base - n / d <= 1.0 / (2.0 * base)
  {
    var a, b, h := m / base, n / d, 1.0 / (2.0 * base);
    assert m == a * base && n == b * d && h * (2.0 * base) == 1.0;
    assert 2.0 * (m * d - n * base) == (a - b) * (2.0 * base * d);
    assert d == h * (2.0 * base * d);
    RealOrder(-h, a - b, 2.0 * base * d);
    RealOrder(a - b, h, 2.0 * base * d);
  }

  lemma RealOrder(a: real, b: real, c: real)
    requires c > 0.0 && a * c <= b * c
    ensures a <= b
  {
    RealScale(b, a, c);
  }

  // -- decString -----------------------------------------------------------------------------

  // The text reads back as a decimal of at most prec digits: r itself exactly when r has so few
  // digits, and within half a unit of the last digit in any case.
  ghost predicate ReadsBack(text: string, r: Number, prec: nat) {
    var p := ParseDecimal(text);
    && p.Some? && p.value.scale <= prec
    && (Denotes(p.value, r) <==> Fits(r, prec))
    && Within(p.value, r, prec)
  }

  lemma NearMeansWithin(x: Decimal, r: Rat, prec: nat, m: int)
    requires r.den > 0 && x.scale <= prec && m == x.mantissa * Pow(10, prec - x.scale)
    requires -r.den <= 2 * (m * r.den - r.num * Pow(10, prec)) <= r.den
    ensures Within(x, r, prec)
  {
    var base, d := TenTo(prec), r.den;
    RealBound(m as real, r.num as real, base as real, d as real);
    ScaledValue(x, prec, m);
  }

  lemma ScaledValue(x: Decimal, prec: nat, m: int)
    requires x.scale <= prec && m == x.mantissa * Pow(10, prec - x.scale)
    ensures m as real / TenTo(prec) as real == DVal(x)
  {
    ScaleUp(1, x.scale, prec);
  }

  lemma TextReadsBack(r: Rat, prec: nat)
    requires Lowest(r) && r.den != 1 && prec > 0
    ensures ReadsBack(DecText(r, prec), r, prec)
  {
    var text := TrimmedText(r, prec);
    ScaledIsNear(r, prec);
    MantissaReadsBack(text, r, prec, Signed(r.num < 0, Scaled(r, prec)));
  }

  lemma TrimmedText(r: Number, prec: nat) returns (text: string)
    requires r.den != 1 && prec > 0
    ensures text == DecText(r, prec)
    ensures var p := ParseDecimal(text);
            && p.Some? && p.value.scale <= prec
            && p.value.mantissa * Pow(10, prec - p.value.scale) == Signed(r.num < 0, Scaled(r, prec))
  {
    text := TrimPoint(TrimZeros(FixedPoint(r.num < 0, Scaled(r, prec), prec)));
    FixedPointParses(r.num < 0, Scaled(r, prec), prec);
  }

  lemma MantissaReadsBack(text: string, r: Rat, prec: nat, m: int)
    requires r.den > 0
    requires var p := ParseDecimal(text);
             p.Some? && p.value.scale <= prec && p.value.mantissa * Pow(10, prec - p.value.scale) == m
    requires -r.den <= 2 * (m * r.den - r.num * Pow(10, prec)) <= r.den
    requires Fits(r, prec) ==> m * r.den == r.num * Pow(10, prec)
    ensures ReadsBack(text, r, prec)
  {
    var x := ParseDecimal(text).value;
    NearMeansWithin(x, r, prec, m);
    ExactWhenFits(x, r, prec, m);
  }

  lemma ExactWhenFits(x: Decimal, r: Rat, prec: nat, m: int)
    requires r.den > 0 && x.scale <= prec && m == x.mantissa * Pow(10, prec - x.scale)
    requires Fits(r, prec) ==> m * r.den == r.num * Pow(10, prec)
    ensures Denotes(x, r) <==> Fits(r, prec)
  {
    DenotesAtScale(x, r, prec);
    if Denotes(x, r) { DenotesFits(x, r, prec); }
  }

  lemma WholeReadsBack(r: Rat, prec: nat)
    requires r.den == 1
    ensures ReadsBack(DecText(r, prec), r, CAP)
  {
    var neg := r.num < 0;
    var n := if neg then -r.num else r.num;
    ItoaParses(n);
    ParsesWithoutPoint(neg, Itoa(n));
    assert "" + Itoa(n) == Itoa(n);
    var x := ParseDecimal(DecText(r, prec)).value;
    assert x == Decimal(r.num, 0);
    DenotesFits(x, r, CAP);
    DenotesWithin(x, r, CAP);
  }

  lemma DenotesValue(x: Decimal, r: Number)
    ensures Denotes(x, r) <==> DVal(x) == Val(r)
  {
    CrossIsEqual(Rat(x.mantissa, TenTo(x.scale)), r);
  }

  lemma DenotesWithin(x: Decimal, r: Rat, prec: nat)
    requires r.den > 0 && Denotes(x, r)
    ensures Within(x, r, prec)
  {
    DenotesValue(x, r);
  }

  // Exact text of k digits is exact, and close, at the cap too.
  lemma ReadsBackAtCap(text: string, r: Rat, k: nat)
    requires r.den > 0 && k <= CAP && Fits(r, k) && ReadsBack(text, r, k)
    ensures ReadsBack(text, r, CAP)
  {
    MoreDigitsFit(r, k, CAP);
    DenotesWithin(ParseDecimal(text).value, r, CAP);
  }

  method DecString(r: Rat) returns (text: string)
    requires Lowest(r)
    ensures ReadsBack(text, r, CAP)
  {
    if r.den == 1 {
      text := DecText(r, 0);
      WholeReadsBack(r, 0);
      return;
    }
    var prec := DecimalDigits.DecimalDigits(r);
    ghost var need := prec;
    if prec < 0 || prec > CAP { prec := CAP; }
    text := DecText(r, prec);
    TextReadsBack(r, prec);
    if prec == need { ReadsBackAtCap(text, r, prec); }
  }
}
