/** Exact rationals in lowest terms, as math/big keeps them, and the number theory they need. */
module Rationals {

  type Pos = n: int | n > 0 witness 1
  type PosReal = x: real | x > 0.0 witness 1.0

  predicate Divides(c: Pos, a: int) {
    a % c == 0
  }

  function Pow(b: int, k: nat): int { if k == 0 then 1 else b * Pow(b, k - 1) }

  // -- Divisibility ---------------------------------------------------------------------

  lemma DividesIff(c: int, a: int, q: int)
    requires c > 0 && a == q * c
    ensures Divides(c, a) && a / c == q
  {
    ModOfMultiple(q, c);
  }

  lemma OneMore(q: int, c: int)
    ensures (q + 1) * c == q * c + c
  {
  }

  lemma {:induction false} ModOfMultiple(q: int, c: Pos)
    ensures (q * c) % c == 0 && (q * c) / c == q
    decreases if q < 0 then -q else q
  {
    if q > 0 {
      ModOfMultiple(q - 1, c);
      OneMore(q - 1, c);
      ModPlus((q - 1) * c, c);
    } else if q < 0 {
      ModOfMultiple(q + 1, c);
      OneMore(q, c);
      ModPlus(q * c, c);
    }
  }

  lemma ModPlus(a: int, c: Pos)
    ensures (a + c) % c == a % c && (a + c) / c == a / c + 1
  {
    var q, r := a / c, a % c;
    assert a == c * q + r;
    assert a + c == c * (q + 1) + r;
    DivUnique(a + c, c, q + 1, r);
  }

  lemma DivUnique(a: int, c: int, q: int, r: int)
    requires c > 0 && a == c * q + r && 0 <= r < c
    ensures a / c == q && a % c == r
  {
    var q', r' := a / c, a % c;
    assert a == c * q' + r';
    SmallMultiple(c, q - q', r' - r) by { assert c * (q - q') == c * q - c * q'; }
  }

  lemma SmallMultiple(c: int, k: int, x: int)
    requires c > 0 && c * k == x && -c < x < c
    ensures k == 0
  {
    if k >= 1 {
      MulMono(1, k, c);
    } else if k <= -1 {
      MulMono(k, -1, c);
    }
  }

  lemma MulMono(a: int, b: int, c: int)
    requires a <= b && c >= 0
    ensures a * c <= b * c
  {
  }

  lemma Quotient(c: int, a: int) returns (q: int)
    requires c > 0 && Divides(c, a)
    ensures a == q * c && q == a / c
  {
    q := a / c;
  }

  lemma DividesSum(c: int, a: int, b: int)
    requires c > 0 && Divides(c, a) && Divides(c, b)
    ensures Divides(c, a + b) && Divides(c, a - b)
  {
    var p := Quotient(c, a);
    var q := Quotient(c, b);
    assert a + b == (p + q) * c && a - b == (p - q) * c;
    DividesIff(c, a + b, p + q);
    DividesIff(c, a - b, p - q);
  }

  lemma DividesProduct(c: int, a: int, b: int)
    requires c > 0 && Divides(c, a)
    ensures Divides(c, a * b)
  {
    var p := Quotient(c, a);
    assert a * b == (p * b) * c;
    DividesIff(c, a * b, p * b);
  }

  lemma DividesTrans(c: int, b: int, a: int)
    requires c > 0 && b > 0 && Divides(c, b) && Divides(b, a)
    ensures Divides(c, a)
  {
    var q := Quotient(b, a);
    DividesProduct(c, b, q);
    assert b * q == a;
  }

  ghost predicate Coprime(a: int, b: int) {
    forall c | c > 1 :: !(Divides(c, a) && Divides(c, b))
  }

  function Gcd(a: nat, b: nat): nat
    decreases b
  {
    if b == 0 then a else Gcd(b, a % b)
  }

  lemma {:induction false} Bezout(a: nat, b: nat) returns (u: int, v: int)
    requires a > 0 || b > 0
    ensures var g := Gcd(a, b);
            g > 0 && Divides(g, a) && Divides(g, b) && g == u * a + v * b
    decreases b
  {
    var g := Gcd(a, b);
    if b == 0 {
      u, v := 1, 0;
      DividesIff(a, a, 1);
    } else {
      var u', v';
      var q, r := a / b, a % b;
      u', v' := Bezout(b, r);
      u, v := v', u' - q * v';
      assert a == q * b + r;
      DividesProduct(g, b, q);
      DividesSum(g, b * q, r);
    }
  }

  lemma BezoutOne(a: int, b: int) returns (u: int, v: int)
    requires b > 0 && Coprime(a, b)
    ensures u * a + v * b == 1
  {
    var n := if a < 0 then -a else a;
    var g := Gcd(n, b);
    var x, y := Bezout(n, b);
    if a < 0 {
      DividesProduct(g, n, -1);
      assert n * -1 == a;
      u, v := -x, y;
    } else {
      u, v := x, y;
    }
    assert g == 1;
  }

  // A divisor of a product, coprime to one factor, divides the other.
  lemma Gauss(d: int, a: int, m: int)
    requires d > 0 && Coprime(a, d) && Divides(d, a * m)
    ensures Divides(d, m)
  {
    var u, v := BezoutOne(a, d);
    DividesProduct(d, a * m, u);
    DividesIff(d, d, 1);
    DividesProduct(d, d, v * m);
    DividesSum(d, a * m * u, d * (v * m));
    assert a * m * u + d * (v * m) == (u * a + v * d) * m == m;
  }

  // -- Rationals ------------------------------------------------------------------------

  datatype Rat = Rat(num: int, den: int)

  ghost predicate Lowest(r: Rat) { r.den > 0 && Coprime(r.num, r.den) }

  // A rational, in lowest terms or not.
  type Number = r: Rat | r.den > 0 witness Rat(0, 1)

  ghost function Val(r: Number): real { r.num as real / r.den as real }

  // n/d in lowest terms.
  function Reduce(n: int, d: Pos): Rat {
    var g := Gcd(if n < 0 then -n else n, d);
    if g > 0 then Rat(n / g, d / g) else Rat(n, d)
  }

  lemma CombinationIsCoprime(a: int, b: int, u: int, v: int)
    requires u * a + v * b == 1
    ensures Coprime(a, b)
  {
    forall c | c > 1 ensures !(Divides(c, a) && Divides(c, b)) {
      if Divides(c, a) && Divides(c, b) {
        DividesProduct(c, a, u);
        DividesProduct(c, b, v);
        assert a * u + b * v == 1;
        DividesSum(c, a * u, b * v);
        assert false;
      }
    }
  }

  lemma ReduceIsLowest(n: int, d: Pos)
    ensures var r := Reduce(n, d);
            Lowest(r) && r.num * d == n * r.den
  {
    var m := if n < 0 then -n else n;
    var g := Gcd(m, d);
    var u, v := Bezout(m, d);
    var p := Quotient(g, m);
    var q := Quotient(g, d);
    var k := if n < 0 then -p else p;
    CofactorsAreCoprime(g, k, q, if n < 0 then -u else u, v) by { SignedFactors(u, p, v, q, g); }
    DividesIff(g, n, k) by { SignedFactors(1, p, 0, q, g); }
    CrossFactors(k, q, g);
    if q <= 0 { MulMono(q, 0, g); }
  }

  lemma SignedFactors(u: int, p: int, v: int, q: int, g: int)
    ensures -u * (-p * g) + v * (q * g) == u * (p * g) + v * (q * g) && -p * g == -(p * g)
  {
  }

  lemma CrossFactors(p: int, q: int, g: int)
    ensures p * (q * g) == (p * g) * q
  {
  }

  lemma CofactorsAreCoprime(g: int, p: int, q: int, u: int, v: int)
    requires g > 0 && u * (p * g) + v * (q * g) == g
    ensures Coprime(p, q)
  {
    assert (u * p + v * q) * g == g;
    OneFactor(g, u * p + v * q);
    CombinationIsCoprime(p, q, u, v);
  }

  lemma OneFactor(g: int, k: int)
    requires g > 0 && k * g == g
    ensures k == 1
  {
    if k >= 2 { MulMono(2, k, g); } else if k <= 0 { MulMono(k, 0, g); }
  }

  // Two forms of one number in lowest terms are the same.
  lemma LowestIsUnique(a: Rat, b: Rat)
    requires Lowest(a) && Lowest(b) && a.num * b.den == b.num * a.den
    ensures a == b
  {
    DenomDivides(a, b);
    DenomDivides(b, a);
    var p := Quotient(a.den, b.den);
    var q := Quotient(b.den, a.den);
    assert a.den == q * (p * a.den) == (q * p) * a.den;
    OneFactor(a.den, q * p);
    UnitFactors(p, q, a.den, b.den);
    assert (a.num - b.num) * a.den == 0;
    if a.num != b.num { NonzeroProduct(a.num - b.num, a.den); }
  }

  lemma NonzeroProduct(k: int, g: int)
    requires g > 0 && k != 0
    ensures k * g != 0
  {
    if k >= 1 { MulMono(1, k, g); } else { MulMono(k, -1, g); }
  }

  lemma UnitFactors(p: int, q: int, x: int, y: int)
    requires x > 0 && y > 0 && y == p * x && q * p == 1
    ensures x == y
  {
    if p <= 0 { MulMono(p, 0, x); }
    if p >= 2 {
      if q >= 1 { MulMono(1, q, p); } else { MulMono(q, 0, p); }
    }
  }

  lemma DenomDivides(a: Rat, b: Rat)
    requires Lowest(a) && Lowest(b) && a.num * b.den == b.num * a.den
    ensures Divides(a.den, b.den)
  {
    DividesIff(a.den, b.num * a.den, b.num);
    Gauss(a.den, a.num, b.den);
  }

  // -- Values ---------------------------------------------------------------------------

  lemma CrossIsEqual(a: Number, b: Number)
    ensures a.num * b.den == b.num * a.den <==> Val(a) == Val(b)
    ensures a.num * b.den < b.num * a.den <==> Val(a) < Val(b)
  {
    var x, y, p, q := a.num as real, b.num as real, a.den as real, b.den as real;
    assert (a.num * b.den) as real == x * q && (b.num * a.den) as real == y * p;
  }

  lemma RealScale(a: real, b: real, c: PosReal)
    ensures a * c < b * c <==> a < b
    ensures a * c == b * c <==> a == b
  {
    if a < b { assert (b - a) * c > 0.0; }
    if b < a { assert (a - b) * c > 0.0; }
  }

  // big.Rat's Cmp.
  function Cmp(a: Rat, b: Rat): int {
    var x, y := a.num * b.den, b.num * a.den;
    if x < y then -1 else if x == y then 0 else 1
  }

  lemma CmpComparesValues(a: Number, b: Number)
    ensures Cmp(a, b) == if Val(a) < Val(b) then -1 else if Val(a) == Val(b) then 0 else 1
  {
    CrossIsEqual(a, b);
  }

  // Addition and subtraction, exact, in lowest terms.
  function Add(a: Number, b: Number): Rat {
    Reduce(a.num * b.den + b.num * a.den, a.den * b.den)
  }

  function Sub(a: Number, b: Number): Rat {
    Reduce(a.num * b.den - b.num * a.den, a.den * b.den)
  }

  const ZERO := Rat(0, 1)

  lemma ReducedValue(n: int, d: Pos)
    ensures Lowest(Reduce(n, d)) && Val(Reduce(n, d)) == n as real / d as real
  {
    ReduceIsLowest(n, d);
    CrossIsEqual(Reduce(n, d), Rat(n, d));
  }

  lemma MulToReal(a: int, b: int)
    ensures (a * b) as real == (a as real) * (b as real)
  {
  }

  // The sum and difference of two fractions over the product of their denominators.
  lemma FractionSums(a: int, p: Pos, b: int, q: Pos)
    ensures p * q > 0
    ensures (a * q + b * p) as real / (p * q) as real == a as real / p as real + b as real / q as real
    ensures (a * q - b * p) as real / (p * q) as real == a as real / p as real - b as real / q as real
  {
    MulToReal(a, q);
    MulToReal(b, p);
    MulToReal(p, q);
    SumToReal(a * q, b * p);
    RealSum(a as real, p as real, b as real, q as real);
  }

  lemma SumToReal(x: int, y: int)
    ensures (x + y) as real == x as real + y as real && (x - y) as real == x as real - y as real
  {
  }

  lemma AddIsExact(a: Number, b: Number)
    ensures Lowest(Add(a, b)) && Val(Add(a, b)) == Val(a) + Val(b)
    ensures Lowest(Sub(a, b)) && Val(Sub(a, b)) == Val(a) - Val(b)
  {
    FractionSums(a.num, a.den, b.num, b.den);
    ReducedValue(a.num * b.den + b.num * a.den, a.den * b.den);
    ReducedValue(a.num * b.den - b.num * a.den, a.den * b.den);
  }

  lemma RealSum(x: real, p: PosReal, y: real, q: PosReal)
    ensures p * q > 0.0
    ensures (x * q + y * p) / (p * q) == x / p + y / q
    ensures (x * q - y * p) / (p * q) == x / p - y / q
  {
    var a, b := x / p, y / q;
    assert x == a * p && y == b * q;
    assert x * q + y * p == (a + b) * (p * q);
    assert x * q - y * p == (a - b) * (p * q);
    RealQuotient(a + b, p * q);
    RealQuotient(a - b, p * q);
  }

  lemma RealQuotient(c: real, d: PosReal)
    ensures (c * d) / d == c
  {
  }

  // The quotient by a positive integer, exact.
  function Over(r: Number, n: Pos): Rat {
    MulMono(1, n, r.den);
    Reduce(r.num, r.den * n)
  }

  lemma OverIsExact(r: Number, n: Pos)
    ensures Lowest(Over(r, n)) && Val(Over(r, n)) == Val(r) / n as real
  {
    MulMono(1, n, r.den);
    ReducedValue(r.num, r.den * n);
    MulToReal(r.den, n);
    NestedQuotient(r.num as real, r.den as real, n as real);
  }

  lemma NestedQuotient(a: real, b: PosReal, c: PosReal)
    ensures b * c > 0.0 && a / (b * c) == a / b / c
  {
    var x := a / b / c;
    assert a / b == x * c && a == x * c * b;
    assert a == x * (b * c);
    RealQuotient(x, b * c);
  }
}
