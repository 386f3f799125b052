/** How many decimal digits a rational needs (decimalDigits and factorCount in engine/decimal.go). */
module DecimalDigits {
  import opened Rationals

  // n is p to the c times m, and m has no factor p.
  predicate Stripped(n: int, p: int, c: nat, m: int)
    requires p > 1
  {
    m > 0 && n == Pow(p, c) * m && !Divides(p, m)
  }

  // Strips the factors p off n, counting them. Both source loops are this one: factorCount keeps
  // the count, decimalDigits what is left.
  method FactorCount(n: int, p: int) returns (c: nat, m: int)
    requires n > 0 && p > 1
    ensures Stripped(n, p, c, m)
  {
    m, c := n, 0;
    while m % p == 0
      invariant m > 0 && n == Pow(p, c) * m
      decreases m
    {
      var q := Quotient'(p, m);
      m := q;
      c := c + 1;
    }
  }

  method Quotient'(p: int, m: int) returns (q: int)
    requires p > 1 && m > 0 && m % p == 0
    ensures m == q * p && 0 < q < m && q == m / p
  {
    q := m / p;
    ghost var q' := Quotient(p, m);
    if q <= 0 { MulMono(q, 0, p); }
    if q >= 1 { MulMono(2, p, q); }
  }

  // -- Number theory ------------------------------------------------------------------------

  lemma {:induction false} PowPositive(b: Pos, k: nat)
    ensures Pow(b, k) > 0
  {
    if k > 0 {
      PowPositive(b, k - 1);
      MulMono(1, b, Pow(b, k - 1));
    }
  }

  lemma {:induction false} PowAdd(b: int, i: nat, j: nat)
    ensures Pow(b, i + j) == Pow(b, i) * Pow(b, j)
  {
    if i > 0 {
      PowAdd(b, i - 1, j);
      assert b * (Pow(b, i - 1) * Pow(b, j)) == (b * Pow(b, i - 1)) * Pow(b, j);
    }
  }

  lemma {:induction false} PowTen(k: nat)
    ensures Pow(10, k) == Pow(2, k) * Pow(5, k)
  {
    if k > 0 {
      PowTen(k - 1);
      var a, b := Pow(2, k - 1), Pow(5, k - 1);
      assert 10 * (a * b) == (2 * a) * (5 * b);
    }
  }

  // 2 and 5 are prime.
  lemma TwoIsPrime(a: int, b: int)
    requires Divides(2, a * b)
    ensures Divides(2, a) || Divides(2, b)
  {
    var x, y, r, s := a / 2, b / 2, a % 2, b % 2;
    assert a * b == 2 * (2 * x * y + x * s + y * r) + r * s;
  }

  lemma FiveIsPrime(a: int, b: int)
    requires Divides(5, a * b)
    ensures Divides(5, a) || Divides(5, b)
  {
    if !Divides(5, a) && !Divides(5, b) {
      var x, y, r, s := a / 5, b / 5, a % 5, b % 5;
      assert a == 5 * x + r && b == 5 * y + s;
      assert a * b == 5 * (5 * x * y + x * s + y * r) + r * s;
      SmallProducts(r, s);
    }
  }

  lemma SmallProducts(r: int, s: int)
    requires 1 <= r <= 4 && 1 <= s <= 4
    ensures (r * s) % 5 != 0
  {
    if r == 1 {} else if r == 2 {} else if r == 3 {} else {}
  }

  lemma PrimeDividesProduct(p: int, a: int, b: int)
    requires p == 2 || p == 5
    requires Divides(p, a * b)
    ensures Divides(p, a) || Divides(p, b)
  {
    if p == 2 { TwoIsPrime(a, b); } else { FiveIsPrime(a, b); }
  }

  // A power of the other prime has no factor p.
  lemma {:induction false} OtherPower(p: int, q: int, k: nat)
    requires (p, q) == (2, 5) || (p, q) == (5, 2)
    ensures !Divides(p, Pow(q, k))
  {
    if k > 0 {
      OtherPower(p, q, k - 1);
      if Divides(p, q * Pow(q, k - 1)) { PrimeDividesProduct(p, q, Pow(q, k - 1)); }
    }
  }

  // p^(c) divides p^k * x, with no factor p in x, only when c <= k.
  lemma {:induction false} PowerFits(p: int, c: nat, m: int, k: nat, x: int)
    requires p == 2 || p == 5
    requires !Divides(p, x)
    requires Pow(p, c) * m == Pow(p, k) * x
    ensures c <= k
    decreases k
  {
    if c > k {
      if k == 0 {
        DividesIff(p, x, Pow(p, c - 1) * m);
      } else {
        Cancel(p, Pow(p, c - 1) * m, Pow(p, k - 1) * x);
        PowerFits(p, c - 1, m, k - 1, x);
      }
    }
  }

  lemma Cancel(p: int, a: int, b: int)
    requires (p == 2 || p == 5) && p * a == p * b
    ensures a == b
  {
    if p == 2 {} else {}
  }

  // The power of p in a number is determined.
  lemma PowersAgree(p: int, n: int, c: nat, m: int, c': nat, m': int)
    requires p == 2 || p == 5
    requires Stripped(n, p, c, m) && Stripped(n, p, c', m')
    ensures c == c'
  {
    PowerFits(p, c, m, c', m');
    PowerFits(p, c', m', c, m);
  }

  lemma {:induction false} CoprimeToTen(r: int, k: nat)
    requires r > 0 && !Divides(2, r) && !Divides(5, r) && Divides(r, Pow(10, k))
    ensures r == 1
    decreases k
  {
    if k == 0 {
      var q := Quotient(r, 1);
      if r >= 2 { if q >= 1 { MulMono(1, q, r); } else { MulMono(q, 0, r); } }
    } else {
      Gauss(r, 10, Pow(10, k - 1));
      CoprimeToTen(r, k - 1);
    }
  }

  // -- decimalDigits -----------------------------------------------------------------------

  // r has at most k fractional digits: r * 10^k is an integer.
  predicate Fits(r: Number, k: nat) { Divides(r.den, r.num * Pow(10, k)) }

  lemma FitsByDenominator(r: Rat, k: nat)
    requires Lowest(r)
    ensures Fits(r, k) <==> Divides(r.den, Pow(10, k))
  {
    if Fits(r, k) {
      Gauss(r.den, r.num, Pow(10, k));
    }
    if Divides(r.den, Pow(10, k)) {
      DividesProduct(r.den, Pow(10, k), r.num);
      assert Pow(10, k) * r.num == r.num * Pow(10, k);
    }
  }

  // The factors 2 and 5 of d, and what is left of it.
  ghost predicate Factored(d: int, c2: nat, m2: int, c5: nat, m5: int, c: nat, rest: int) {
    Stripped(d, 2, c2, m2) && Stripped(d, 5, c5, m5) && Stripped(m2, 5, c, rest)
  }

  lemma FactorsTogether(d: int, c2: nat, m2: int, c5: nat, m5: int, c: nat, rest: int)
    requires Factored(d, c2, m2, c5, m5, c, rest)
    ensures c == c5 && !Divides(2, rest) && d == (Pow(2, c2) * Pow(5, c5)) * rest
  {
    WithoutTwo(m2, Pow(5, c), rest);
    SplitOff(d, Pow(2, c2), Pow(5, c), m2, rest);
    FiveStripped(d, c2, c, rest);
    PowersAgree(5, d, c5, m5, c, Pow(2, c2) * rest);
  }

  lemma WithoutTwo(m: int, b: int, rest: int)
    requires m == b * rest && !Divides(2, m)
    ensures !Divides(2, rest)
  {
    assert rest * b == m;
    if Divides(2, rest) { DividesProduct(2, rest, b); }
  }

  lemma SplitOff(d: int, a: int, b: int, m: int, rest: int)
    requires d == a * m && m == b * rest
    ensures d == b * (a * rest) && d == (a * b) * rest
  {
  }

  lemma FiveStripped(d: int, c2: nat, c: nat, rest: int)
    requires rest > 0 && !Divides(5, rest) && d == Pow(5, c) * (Pow(2, c2) * rest)
    ensures Stripped(d, 5, c, Pow(2, c2) * rest)
  {
    PowPositive(2, c2);
    NoFive(Pow(2, c2), rest, c2);
    MulMono(1, Pow(2, c2), rest);
  }

  lemma NoFive(a: int, rest: int, c2: nat)
    requires a == Pow(2, c2) && !Divides(5, rest)
    ensures !Divides(5, a * rest)
  {
    OtherPower(5, 2, c2);
    if Divides(5, a * rest) { PrimeDividesProduct(5, a, rest); }
  }

  lemma NeededDigits(d: int, c2: nat, m2: int, c5: nat, m5: int, c: nat, rest: int, k: nat)
    requires d > 0 && Factored(d, c2, m2, c5, m5, c, rest) && Divides(d, Pow(10, k))
    ensures rest == 1 && c2 <= k && c5 <= k
  {
    FactorsTogether(d, c2, m2, c5, m5, c, rest);
    var q := Quotient(d, Pow(10, k));
    PowTen(k);
    OtherPower(2, 5, k);
    OtherPower(5, 2, k);
    Regroup(q, Pow(2, c2), m2);
    PowerFits(2, c2, m2 * q, k, Pow(5, k));
    Regroup(q, Pow(5, c5), m5);
    PowerFits(5, c5, m5 * q, k, Pow(2, k));
    DividesIff(rest, d, Pow(2, c2) * Pow(5, c5));
    DividesTrans(rest, d, Pow(10, k));
    CoprimeToTen(rest, k);
  }

  lemma Regroup(q: int, a: int, m: int)
    ensures q * (a * m) == a * (m * q)
  {
  }

  lemma EnoughDigits(d: int, c2: nat, c5: nat, k: nat)
    requires d > 0 && d == Pow(2, c2) * Pow(5, c5) && c2 <= k && c5 <= k
    ensures Divides(d, Pow(10, k))
  {
    PowTen(k);
    PowAdd(2, c2, k - c2);
    PowAdd(5, c5, k - c5);
    PairUp(Pow(2, c2), Pow(2, k - c2), Pow(5, c5), Pow(5, k - c5));
    DividesIff(d, Pow(10, k), Pow(2, k - c2) * Pow(5, k - c5));
  }

  lemma PairUp(a: int, b: int, x: int, y: int)
    ensures (a * b) * (x * y) == (b * y) * (a * x)
  {
  }

  // The least number of fractional digits r needs, or -1 exactly when no number is enough.
  method DecimalDigits(r: Rat) returns (k: int)
    requires Lowest(r)
    ensures k >= -1
    ensures k == -1 <==> forall j: nat :: !Fits(r, j)
    ensures k >= 0 ==> Fits(r, k) && forall j: nat | Fits(r, j) :: k <= j
  {
    var den := r.den;
    var c2, m2 := FactorCount(den, 2);
    var c5, m5 := FactorCount(den, 5);
    // The source strips a second copy; what is left of the first after the twos is that copy.
    var c, rest := FactorCount(m2, 5);
    k := if rest != 1 then -1 else if c2 > c5 then c2 else c5;
    forall j: nat
      ensures Fits(r, j) ==> rest == 1 && c2 <= j && c5 <= j
    {
      FitsByDenominator(r, j);
      if Fits(r, j) { NeededDigits(den, c2, m2, c5, m5, c, rest, j); }
    }
    if rest == 1 {
      FactorsTogether(den, c2, m2, c5, m5, c, rest);
      EnoughDigits(den, c2, c5, k);
      FitsByDenominator(r, k);
    }
  }
}
