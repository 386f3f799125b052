/**
 Decimal text and what it denotes: printing digits, big.Rat's FloatString, trimming zeros, and
 reading a plain decimal back (decString and ratFromString in engine/decimal.go).
 */
module DecimalText {
  import opened Options
  import opened Text
  import opened Rationals
  import opened DecimalDigits

  type Digit = c: char | IsDigit(c) witness '0'

  predicate AllDigits(s: string) { forall c <- s :: IsDigit(c) }

  type Digits = s: string | AllDigits(s)

  type UnderTen = d: nat | d < 10

  function DigitChar(d: UnderTen): Digit { '0' + d as char }

  function DigitValue(c: Digit): nat { (c - '0') as nat }

  // A natural number in decimal, without leading zeros.
  function Itoa(n: nat): (s: string)
    ensures s != "" && AllDigits(s)
  {
    if n < 10 then [DigitChar(n)] else Itoa(n / 10) + [DigitChar(n % 10)]
  }

  // The last w digits of n.
  function Padded(n: nat, w: nat): (s: string)
    ensures |s| == w && AllDigits(s)
  {
    if w == 0 then "" else Padded(n / 10, w - 1) + [DigitChar(n % 10)]
  }

  function ParseNat(s: Digits): nat {
    if s == "" then 0 else ParseNat(s[..|s| - 1]) * 10 + DigitValue(s[|s| - 1])
  }

  lemma {:induction false} ItoaParses(n: nat)
    ensures ParseNat(Itoa(n)) == n
  {
    if n < 10 {
      assert [DigitChar(n)] == "" + [DigitChar(n)];
    } else {
      ItoaParses(n / 10);
    }
  }

  lemma {:induction false} PaddedParses(n: nat, w: nat)
    requires n < Pow(10, w)
    ensures ParseNat(Padded(n, w)) == n
    decreases w
  {
    if w > 0 {
      PaddedParses(n / 10, w - 1);
    }
  }

  lemma {:induction false} ParseConcat(a: Digits, b: Digits)
    ensures AllDigits(a + b) && ParseNat(a + b) == ParseNat(a) * Pow(10, |b|) + ParseNat(b)
    decreases |b|
  {
    if b == "" {
      assert a + b == a;
    } else {
      var b', c := b[..|b| - 1], b[|b| - 1];
      ParseConcat(a, b');
      var whole := a + b';
      assert a + b == whole + [c] && b == b' + [c];
      TenMore(ParseNat(a), |b'|);
    }
  }

  // -- Plain decimals --------------------------------------------------------------------

  // sign * mantissa / 10^scale.
  datatype Decimal = Decimal(mantissa: int, scale: nat)

  // A plain decimal: an optional minus sign, digits, and optionally a point and digits.
  function ParseDecimal(s: string): Option<Decimal> {
    var neg := s != "" && s[0] == '-';
    var body := if neg then s[1..] else s;
    var dot := IndexFrom(body, ".", 0);
    var whole := if dot.Some? then body[..dot.value] else body;
    var frac := if dot.Some? then body[dot.value + 1..] else "";
    if !AllDigits(whole) || !AllDigits(frac) || whole + frac == "" then None
    else
      var m := ParseNat(whole + frac);
      Some(Decimal(Signed(neg, m), |frac|))
  }

  function Signed(neg: bool, n: int): int { if neg then -n else n }

  // The decimal is exactly the rational.
  predicate Denotes(x: Decimal, r: Rat) { x.mantissa * r.den == r.num * Pow(10, x.scale) }

  // strings.TrimRight of "0", and strings.TrimSuffix of ".".
  function TrimZeros(s: string): string {
    if s != "" && s[|s| - 1] == '0' then TrimZeros(s[..|s| - 1]) else s
  }

  function TrimPoint(s: string): string {
    if s != "" && s[|s| - 1] == '.' then s[..|s| - 1] else s
  }

  // |num| / den times 10^prec, to the nearest integer, halves away from zero.
  function Scaled(r: Number, prec: nat): nat {
    Nearest((if r.num < 0 then -r.num else r.num) * TenTo(prec), r.den)
  }

  // n / d to the nearest integer, halves up.
  function Nearest(n: nat, d: Pos): nat {
    (2 * n + d) / (2 * d)
  }

  // m / 10^prec written out, with a sign.
  function FixedPoint(neg: bool, m: nat, prec: nat): string {
    Written(neg, Itoa(m / TenTo(prec)), Padded(m % TenTo(prec), prec))
  }

  function Written(neg: bool, whole: string, frac: string): string {
    (if neg then "-" else "") + whole + "." + frac
  }

  function TenTo(k: nat): (r: int)
    ensures r > 0 && r == Pow(10, k)
  {
    PowPositive(10, k);
    Pow(10, k)
  }

  // big.Rat's FloatString for prec > 0.
  function FloatString(r: Number, prec: nat): string {
    FixedPoint(r.num < 0, Scaled(r, prec), prec)
  }

  // decString, with prec from decimalDigits, capped at 20.
  function DecText(r: Rat, prec: nat): string
    requires r.den > 0 && (r.den != 1 ==> prec > 0)
  {
    if r.den == 1 then (if r.num < 0 then "-" + Itoa(-r.num) else Itoa(r.num))
    else TrimPoint(TrimZeros(FloatString(r, prec)))
  }

  // -- What the text denotes ----------------------------------------------------------------

  lemma PointAfterDigits(whole: Digits, frac: string)
    ensures IndexFrom(whole + "." + frac, ".", 0) == Some(|whole|)
  {
    var s := whole + "." + frac;
    assert s[|whole|..|whole| + 1] == ".";
    assert At(s, |whole|, ".");
    forall j | 0 <= j < |whole| ensures !At(s, j, ".") {
      assert s[j] == whole[j] && whole[j] in whole;
    }
  }

  lemma ParsesWithPoint(neg: bool, whole: string, frac: string)
    requires AllDigits(whole) && AllDigits(frac) && whole + frac != ""
    ensures AllDigits(whole + frac)
    ensures ParseDecimal((if neg then "-" else "") + whole + "." + frac)
         == Some(Decimal(Signed(neg, ParseNat(whole + frac)), |frac|))
  {
    var body := whole + "." + frac;
    var s := (if neg then "-" else "") + whole + "." + frac;
    PointAfterDigits(whole, frac);
    assert neg ==> s[1..] == body;
    assert !neg ==> s == body && if whole == "" then s[0] == '.' else s[0] == whole[0] && whole[0] in whole;
    assert body[..|whole|] == whole && body[|whole| + 1..] == frac;
  }

  lemma ParsesWithoutPoint(neg: bool, whole: string)
    requires AllDigits(whole) && whole != ""
    ensures ParseDecimal((if neg then "-" else "") + whole)
         == Some(Decimal(Signed(neg, ParseNat(whole)), 0))
  {
    var s := (if neg then "-" else "") + whole;
    assert neg ==> s[1..] == whole;
    assert !neg ==> s == whole && whole[0] in whole;
    forall j | 0 <= j < |whole| ensures !At(whole, j, ".") {
      assert whole[j] in whole;
    }
    assert whole + "" == whole;
  }

  // -- Trimming -----------------------------------------------------------------------------

  // Trimming a zero off the fraction divides the mantissa by ten.
  lemma {:induction false} TrimmedFraction(whole: Digits, frac: Digits)
    ensures var f := TrimZeros(frac);
            && AllDigits(f) && |f| <= |frac|
            && AllDigits(whole + f) && AllDigits(whole + frac)
            && ParseNat(whole + frac) == ParseNat(whole + f) * Pow(10, |frac| - |f|)
    decreases |frac|
  {
    if frac != "" && frac[|frac| - 1] == '0' {
      var frac' := frac[..|frac| - 1];
      TrimmedFraction(whole, frac');
      var f := TrimZeros(frac);
      assert whole + frac == (whole + frac') + ['0'];
      TenMore(ParseNat(whole + f), |frac'| - |f|);
    }
  }

  lemma TenMore(a: int, k: nat)
    ensures a * Pow(10, k) * 10 == a * Pow(10, k + 1)
  {
    assert a * Pow(10, k) * 10 == a * (10 * Pow(10, k));
  }

  lemma DivMod(m: int, base: Pos)
    ensures m == m / base * base + m % base
  {
  }

  lemma PrintedDigits(m: nat, prec: nat, base: int)
    requires base == TenTo(prec)
    ensures var whole, frac := Itoa(m / base), Padded(m % base, prec);
            AllDigits(whole + frac) && ParseNat(whole + frac) == m
  {
    ItoaParses(m / base);
    PaddedParses(m % base, prec);
    ParseConcat(Itoa(m / base), Padded(m % base, prec));
    DivMod(m, base);
  }

  lemma TrimmedTextParses(neg: bool, whole: string, frac: string, prec: nat)
    requires AllDigits(whole) && AllDigits(frac) && AllDigits(whole + frac) && whole != "" && |frac| == prec
    ensures var p := ParseDecimal(TrimPoint(TrimZeros(Written(neg, whole, frac))));
            && p.Some? && p.value.scale <= prec
            && p.value.mantissa * Pow(10, prec - p.value.scale) == Signed(neg, ParseNat(whole + frac))
  {
    var f := TrimZeros(frac);
    SignedTrim(neg, whole, frac);
    TrimmedFraction(whole, frac);
    if f == "" {
      ParsesWithoutPoint(neg, whole);
      assert whole + f == whole;
    } else {
      ParsesWithPoint(neg, whole, f);
    }
    SignedProduct(neg, ParseNat(whole + f), Pow(10, prec - |f|));
  }

  // The scaled integer is what its text denotes, whatever zeros were trimmed.
  lemma FixedPointParses(neg: bool, m: nat, prec: nat)
    ensures var p := ParseDecimal(TrimPoint(TrimZeros(FixedPoint(neg, m, prec))));
            && p.Some? && p.value.scale <= prec
            && p.value.mantissa * Pow(10, prec - p.value.scale) == Signed(neg, m)
  {
    var whole, frac := FixedPointParts(m, prec);
    TrimmedTextParses(neg, whole, frac, prec);
  }

  lemma FixedPointParts(m: nat, prec: nat) returns (whole: string, frac: string)
    ensures AllDigits(whole) && AllDigits(frac) && AllDigits(whole + frac) && whole != "" && |frac| == prec
    ensures ParseNat(whole + frac) == m
    ensures forall neg :: FixedPoint(neg, m, prec) == Written(neg, whole, frac)
  {
    whole, frac := Itoa(m / TenTo(prec)), Padded(m % TenTo(prec), prec);
    PrintedDigits(m, prec, TenTo(prec));
  }

  lemma SignedProduct(neg: bool, a: int, b: int)
    ensures Signed(neg, a) * b == Signed(neg, a * b)
  {
  }

  lemma SignedTrim(neg: bool, whole: string, frac: string)
    requires AllDigits(whole) && AllDigits(frac) && whole != ""
    ensures var sign := if neg then "-" else "";
            var f := TrimZeros(frac);
            TrimPoint(TrimZeros(sign + whole + "." + frac)) == if f == "" then sign + whole else sign + whole + "." + f
  {
    var sign := if neg then "-" else "";
    TrimAfterPoint(sign + whole, frac);
    TrimmedFraction("", frac);
    PointStays(sign + whole, TrimZeros(frac));
  }

  lemma PointStays(before: string, f: Digits)
    ensures TrimPoint(before + "." + f) == if f == "" then before else before + "." + f
  {
    var s := before + "." + f;
    if f != "" {
      var c := f[|f| - 1];
      assert s[|s| - 1] == c && c in f;
    } else {
      assert s[..|s| - 1] == before && s[|s| - 1] == '.';
    }
  }

  lemma {:induction false} TrimAfterPoint(before: string, frac: string)
    ensures TrimZeros(before + "." + frac) == before + "." + TrimZeros(frac)
    decreases |frac|
  {
    var s := before + "." + frac;
    if frac != "" && frac[|frac| - 1] == '0' {
      assert s[..|s| - 1] == before + "." + frac[..|frac| - 1];
      TrimAfterPoint(before, frac[..|frac| - 1]);
    }
  }
}
