/**
 Exact decimal arithmetic over text: dec_add and dec_sub, the sum and average aggregates with
 their sliding windows, and the DECIMAL collation (engine/decimal.go).
 */
module DecimalSums {
  import opened Options
  import opened Text
  import opened Rationals
  import opened DecimalDigits
  import opened DecimalText
  import opened DecimalExact

  // ratFromString, on plain decimals.
  function ParseDec(s: string): (v: Option<Rat>)
    ensures v.Some? ==> Lowest(v.value)
  {
    var p := ParseDecimal(s);
    if p.None? then None
    else
      ReduceIsLowest(p.value.mantissa, TenTo(p.value.scale));
      Some(Reduce(p.value.mantissa, TenTo(p.value.scale)))
  }

  // The texts that are read here as the rational library reads them: plain decimals, and texts
  // without a digit, which are no numbers.
  predicate Readable(s: string) { ParseDecimal(s).Some? || forall c <- s :: !IsDigit(c) }

  // The number a plain decimal stands for is the number it is parsed into.
  lemma ParseDecValue(s: string)
    ensures ParseDec(s).Some? <==> ParseDecimal(s).Some?
    ensures ParseDec(s).Some? ==> Denotes(ParseDecimal(s).value, ParseDec(s).value)
    ensures ParseDec(s).Some? ==> Val(ParseDec(s).value) == DVal(ParseDecimal(s).value)
  {
    var p := ParseDecimal(s);
    if p.Some? {
      ReduceIsLowest(p.value.mantissa, TenTo(p.value.scale));
      DenotesValue(p.value, ParseDec(s).value);
    }
  }

  lemma FewDigitsFit(s: string, prec: nat)
    requires ParseDecimal(s).Some? && ParseDecimal(s).value.scale <= prec
    ensures Fits(ParseDec(s).value, prec)
  {
    ParseDecValue(s);
    DenotesFits(ParseDecimal(s).value, ParseDec(s).value, prec);
  }

  // -- Sums keep the number of digits ----------------------------------------------------------

  // r * 10^k is the integer q.
  lemma FitsMeans(r: Rat, k: nat) returns (q: int)
    requires r.den > 0 && Fits(r, k)
    ensures r.num * Pow(10, k) == q * r.den
  {
    q := Quotient(r.den, r.num * Pow(10, k));
  }

  lemma FitsOf(r: Rat, k: nat, q: int)
    requires r.den > 0 && r.num * Pow(10, k) == q * r.den
    ensures Fits(r, k)
  {
    DividesIff(r.den, r.num * Pow(10, k), q);
  }

  // A fraction n/d with n * base == q * d keeps q when reduced.
  lemma ReducedFits(n: int, d: int, k: nat, q: int)
    requires d > 0 && n * Pow(10, k) == q * d
    ensures Reduce(n, d).den > 0 && Fits(Reduce(n, d), k)
  {
    ReduceIsLowest(n, d);
    var r := Reduce(n, d);
    FitsOf(r, k, q);
  }

  lemma CommonSum(a: int, d: int, b: int, e: int, base: int, p: int, q: int)
    requires a * base == p * d && b * base == q * e
    ensures (a * e + b * d) * base == (p + q) * (d * e)
    ensures (a * e - b * d) * base == (p - q) * (d * e)
  {
    assert (a * e) * base == (a * base) * e == p * (d * e);
    assert (b * d) * base == (b * base) * d == q * (d * e);
  }

  lemma FitsAdd(a: Rat, b: Rat, k: nat)
    requires a.den > 0 && b.den > 0 && Fits(a, k) && Fits(b, k)
    ensures Add(a, b).den > 0 && Fits(Add(a, b), k)
    ensures Sub(a, b).den > 0 && Fits(Sub(a, b), k)
  {
    var p := FitsMeans(a, k);
    var q := FitsMeans(b, k);
    CommonSum(a.num, a.den, b.num, b.den, Pow(10, k), p, q);
    FractionSums(a.num, a.den, b.num, b.den);
    ReducedFits(a.num * b.den + b.num * a.den, a.den * b.den, k, p + q);
    ReducedFits(a.num * b.den - b.num * a.den, a.den * b.den, k, p - q);
  }

  // -- dec_add, dec_sub -------------------------------------------------------------------------

  // The text stands for the value y.
  ghost predicate Shows(text: string, y: real) {
    var p := ParseDecimal(text);
    p.Some? && p.value.scale <= CAP && DVal(p.value) == y
  }

  lemma ReadsBackExactly(text: string, r: Rat)
    requires r.den > 0 && ReadsBack(text, r, CAP) && Fits(r, CAP)
    ensures Shows(text, Val(r))
  {
    DenotesValue(ParseDecimal(text).value, r);
  }

  datatype Op = Plus | Minus

  // The sum or difference of two decimal texts; NULL when either is not a number.
  method BinDec(a: string, b: string, op: Op) returns (text: Option<string>)
    requires Readable(a) && Readable(b)
    ensures text.Some? <==> ParseDecimal(a).Some? && ParseDecimal(b).Some?
    ensures text.Some? && ParseDecimal(a).value.scale <= CAP && ParseDecimal(b).value.scale <= CAP
        ==> Shows(text.value, if op.Plus? then DVal(ParseDecimal(a).value) + DVal(ParseDecimal(b).value)
                              else DVal(ParseDecimal(a).value) - DVal(ParseDecimal(b).value))
  {
    var x, y := ParseDec(a), ParseDec(b);
    ParseDecValue(a);
    ParseDecValue(b);
    if x.None? || y.None? { return None; }
    AddIsExact(x.value, y.value);
    var r := if op.Plus? then Add(x.value, y.value) else Sub(x.value, y.value);
    var s := DecString(r);
    if ParseDecimal(a).value.scale <= CAP && ParseDecimal(b).value.scale <= CAP {
      FewDigitsFit(a, CAP);
      FewDigitsFit(b, CAP);
      FitsAdd(x.value, y.value, CAP);
      ReadsBackExactly(s, r);
    }
    text := Some(s);
  }

  // -- Aggregates --------------------------------------------------------------------------------

  // A cell, as parseDec reads it: None is NULL or not a number.
  type Cell = v: Option<Rat> | v.Some? ==> v.value.den > 0 && Lowest(v.value) witness None

  // The exact sum of a frame's numbers, and how many there are.
  function SumOf(frame: seq<Cell>): (r: Rat)
    ensures r.den > 0
  {
    if frame == [] then ZERO
    else
      var last := frame[|frame| - 1];
      var sum := SumOf(frame[..|frame| - 1]);
      if last.None? then sum
      else
        AddIsExact(sum, last.value);
        Add(sum, last.value)
  }

  function Numbers(frame: seq<Cell>): nat {
    if frame == [] then 0
    else Numbers(frame[..|frame| - 1]) + (if frame[|frame| - 1].Some? then 1 else 0)
  }

  ghost function CellValue(c: Cell): real { if c.None? then 0.0 else Val(c.value) }

  ghost function Total(frame: seq<Cell>): real {
    if frame == [] then 0.0 else Total(frame[..|frame| - 1]) + CellValue(frame[|frame| - 1])
  }

  lemma {:induction false} SumIsTotal(frame: seq<Cell>)
    ensures Lowest(SumOf(frame)) && Val(SumOf(frame)) == Total(frame)
  {
    if frame == [] {
    } else {
      var before, last := frame[..|frame| - 1], frame[|frame| - 1];
      SumIsTotal(before);
      if last.Some? { AddIsExact(SumOf(before), last.value); }
    }
  }

  lemma {:induction false} TotalWithoutFirst(frame: seq<Cell>)
    requires frame != []
    ensures Total(frame) == CellValue(frame[0]) + Total(frame[1..])
    ensures Numbers(frame) == (if frame[0].Some? then 1 else 0) + Numbers(frame[1..])
  {
    var n := |frame| - 1;
    if n > 0 {
      TotalWithoutFirst(frame[..n]);
      assert frame[..n][1..] == frame[1..][..n - 1];
    } else {
      assert frame[1..] == [] && frame[..n] == [];
    }
  }

  // Taking the first cell's number off the exact sum leaves the exact sum of the others.
  lemma SlideSum(frame: seq<Cell>)
    requires frame != [] && frame[0].Some?
    ensures SumOf(frame[1..]) == Sub(SumOf(frame), frame[0].value)
  {
    SumIsTotal(frame);
    SumIsTotal(frame[1..]);
    TotalWithoutFirst(frame);
    var less := Sub(SumOf(frame), frame[0].value);
    AddIsExact(SumOf(frame), frame[0].value);
    CrossIsEqual(less, SumOf(frame[1..]));
    LowestIsUnique(less, SumOf(frame[1..]));
  }

  lemma SlideNull(frame: seq<Cell>)
    requires frame != [] && frame[0].None?
    ensures SumOf(frame[1..]) == SumOf(frame)
  {
    SumIsTotal(frame);
    SumIsTotal(frame[1..]);
    TotalWithoutFirst(frame);
    CrossIsEqual(SumOf(frame), SumOf(frame[1..]));
    LowestIsUnique(SumOf(frame), SumOf(frame[1..]));
  }

  lemma {:induction false} NoNumbersNoSum(frame: seq<Cell>)
    requires Numbers(frame) == 0
    ensures SumOf(frame) == ZERO
  {
    if frame != [] { NoNumbersNoSum(frame[..|frame| - 1]); }
  }

  lemma {:induction false} SumFits(frame: seq<Cell>, k: nat)
    requires forall c <- frame | c.Some? :: Fits(c.value, k)
    ensures Fits(SumOf(frame), k)
  {
    if frame == [] {
      FitsOf(ZERO, k, 0);
    } else {
      var before, last := frame[..|frame| - 1], frame[|frame| - 1];
      SumFits(before, k);
      assert last in frame;
      if last.Some? { FitsAdd(SumOf(before), last.value, k); }
    }
  }

  // sum() and avg() over decimal text.
  class DecAgg {
    var acc: Option<Rat>
    var n: int
    const avg: bool

    // The state after any mix of rows entering at the end of the frame and leaving at its start.
    ghost predicate Holds(frame: seq<Cell>)
      reads this
    {
      && n == Numbers(frame)
      && (acc.Some? ==> acc.value == SumOf(frame))
      && (acc.None? ==> Numbers(frame) == 0)
    }

    constructor (avg: bool)
      ensures Holds([]) && this.avg == avg
    {
      acc, n, this.avg := None, 0, avg;
    }

    method Step(c: Cell, ghost frame: seq<Cell>)
      requires Holds(frame)
      modifies this
      ensures Holds(frame + [c])
      ensures acc.None? <==> old(acc).None? && c.None?
    {
      if c.None? { return; }
      if acc.None? {
        NoNumbersNoSum(frame);
        acc := Some(ZERO);
      }
      acc := Some(Add(acc.value, c.value));
      n := n + 1;
    }

    method WindowInverse(ghost frame: seq<Cell>, c: Cell)
      requires frame != [] && frame[0] == c && Holds(frame)
      modifies this
      ensures Holds(frame[1..])
      ensures acc.None? <==> old(acc).None?
    {
      TotalWithoutFirst(frame);
      if c.None? { SlideNull(frame); } else { SlideSum(frame); }
      if c.Some? && acc.Some? {
        acc := Some(Sub(acc.value, c.value));
        n := n - 1;
      }
    }

    // NULL exactly for a frame without numbers; otherwise the frame's sum or mean: exact when it
    // has few enough digits (as a sum of such numbers has), and to the nearest in any case.
    method Value(ghost frame: seq<Cell>) returns (text: Option<string>)
      requires Holds(frame)
      ensures text.None? <==> Numbers(frame) == 0
      ensures text.Some? && !avg ==> ReadsBack(text.value, SumOf(frame), CAP)
      ensures text.Some? && !avg && (forall c <- frame | c.Some? :: Fits(c.value, CAP))
          ==> Shows(text.value, Total(frame))
      ensures text.Some? && avg ==> (
          && Over(SumOf(frame), Numbers(frame)).den > 0
          && ReadsBack(text.value, Over(SumOf(frame), Numbers(frame)), CAP))
    {
      if n == 0 || acc.None? { return None; }
      SumIsTotal(frame);
      var res := acc.value;
      if avg {
        OverIsExact(res, n);
        res := Over(res, n);
      }
      var s := DecString(res);
      if !avg && forall c <- frame | c.Some? :: Fits(c.value, CAP) {
        SumFits(frame, CAP);
        ReadsBackExactly(s, res);
      }
      text := Some(s);
    }
  }

  // dec_sum: it keeps a flag, not a count, and no row leaving the frame clears the flag.
  class DecSum {
    var acc: Option<Rat>
    var any: bool

    ghost predicate Holds(frame: seq<Cell>)
      reads this
    {
      && any == acc.Some?
      && (any ==> acc == Some(SumOf(frame)))
      && (!any ==> Numbers(frame) == 0)
    }

    constructor ()
      ensures Holds([]) && !any
    {
      acc, any := None, false;
    }

    method Step(c: Cell, ghost frame: seq<Cell>)
      requires Holds(frame)
      modifies this
      ensures Holds(frame + [c])
      ensures any <==> old(any) || c.Some?
    {
      if c.None? { return; }
      if acc.None? {
        NoNumbersNoSum(frame);
        acc := Some(ZERO);
      }
      acc := Some(Add(acc.value, c.value));
      any := true;
    }

    method WindowInverse(ghost frame: seq<Cell>, c: Cell)
      requires frame != [] && frame[0] == c && Holds(frame)
      modifies this
      ensures Holds(frame[1..])
      ensures any == old(any)
    {
      TotalWithoutFirst(frame);
      if c.None? { SlideNull(frame); } else { SlideSum(frame); }
      if c.Some? && acc.Some? { acc := Some(Sub(acc.value, c.value)); }
    }

    // NULL exactly when no number ever entered the frame: a frame its numbers have left shows the
    // sum of nothing, "0".
    method Final(ghost frame: seq<Cell>) returns (text: Option<string>)
      requires Holds(frame)
      ensures text.None? <==> !any
      ensures text.Some? ==> ReadsBack(text.value, SumOf(frame), CAP)
      ensures text.Some? && (forall c <- frame | c.Some? :: Fits(c.value, CAP))
          ==> Shows(text.value, Total(frame))
      ensures text.Some? && Numbers(frame) == 0 ==> Shows(text.value, 0.0)
    {
      if !any || acc.None? { return None; }
      SumIsTotal(frame);
      var s := DecString(acc.value);
      if Numbers(frame) == 0 {
        NoNumbersNoSum(frame);
        FitsOf(ZERO, CAP, 0);
        ReadsBackExactly(s, ZERO);
      }
      if forall c <- frame | c.Some? :: Fits(c.value, CAP) {
        SumFits(frame, CAP);
        ReadsBackExactly(s, acc.value);
      }
      text := Some(s);
    }
  }

  method EmptiedSum(c: Cell) returns (sum: Option<string>)
    requires c.Some?
    ensures sum.Some? && Shows(sum.value, 0.0)
  {
    var s := new DecSum();
    s.Step(c, []);
    assert [] + [c] == [c] && [c][1..] == [] && [c][..0] == [];
    s.WindowInverse([c], c);
    sum := s.Final([]);
  }

  method EmptiedAgg(c: Cell) returns (agg: Option<string>)
    requires c.Some?
    ensures agg.None?
  {
    var a := new DecAgg(false);
    a.Step(c, []);
    assert [] + [c] == [c] && [c][1..] == [] && [c][..0] == [];
    a.WindowInverse([c], c);
    agg := a.Value([]);
  }

  // One number enters and leaves: dec_sum shows nothing's sum, where sum shows NULL.
  method EmptiedFrame(c: Cell) returns (sum: Option<string>, agg: Option<string>)
    requires c.Some?
    ensures sum.Some? && Shows(sum.value, 0.0) && agg.None?
  {
    sum := EmptiedSum(c);
    agg := EmptiedAgg(c);
  }

  // -- The DECIMAL collation ------------------------------------------------------------------------

  // Numbers compare by value, other text as text, and other text goes first.
  function DecCmp(a: string, b: string): int {
    var x, y := ParseDec(a), ParseDec(b);
    if x.None? && y.None? then Compare(a, b)
    else if x.None? then -1
    else if y.None? then 1
    else Cmp(x.value, y.value)
  }

  // The collation is a total order on texts, up to numbers written differently, with other text before
  // every number.
  lemma CollationOrders(a: string, b: string, c: string)
    requires Readable(a) && Readable(b) && Readable(c)
    ensures DecCmp(a, b) == -DecCmp(b, a)
    ensures DecCmp(a, b) <= 0 && DecCmp(b, c) <= 0 ==> DecCmp(a, c) <= 0
    ensures DecCmp(a, b) == 0 <==> (a == b || SameNumber(a, b))
    ensures ParseDec(a).None? && ParseDec(b).Some? ==> DecCmp(a, b) < 0
  {
    ParseDecValue(a);
    ParseDecValue(b);
    CompareOrders(a, b, c);
    if ParseDec(a).Some? && ParseDec(b).Some? { ComparedByValue(a, b); ComparedByValue(b, a); }
    if ParseDec(b).Some? && ParseDec(c).Some? { ComparedByValue(b, c); }
    if ParseDec(a).Some? && ParseDec(c).Some? { ComparedByValue(a, c); }
  }

  ghost predicate SameNumber(a: string, b: string) {
    var x, y := ParseDecimal(a), ParseDecimal(b);
    x.Some? && y.Some? && DVal(x.value) == DVal(y.value)
  }

  lemma ComparedByValue(a: string, b: string)
    requires ParseDec(a).Some? && ParseDec(b).Some?
    ensures DecCmp(a, b) == var x, y := Val(ParseDec(a).value), Val(ParseDec(b).value);
                            if x < y then -1 else if x == y then 0 else 1
  {
    CmpComparesValues(ParseDec(a).value, ParseDec(b).value);
  }
}
