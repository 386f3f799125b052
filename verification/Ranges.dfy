/**
 Range values: the comparisons behind @> and && decide, on bounds alone, what holds of the sets of
 numbers that ranges denote (engine/ranges.go).
 */
module Ranges {
  import opened Options
  import opened Text
  import opened Rationals
  import opened DecimalText
  import opened DecimalSums

  // A bound is absent, a number, or a text that is no number and that nothing compares with.
  datatype Bound = Infinite | At(value: Number) | NotNumber

  datatype RangeVal = RangeVal(empty: bool, lo: Bound, hi: Bound, loInc: bool, hiInc: bool)

  const EMPTY := RangeVal(true, Infinite, Infinite, false, false)

  // -- Text ------------------------------------------------------------------------------------

  function ParseBound(s: string): Bound {
    var t := TrimSpace(s);
    if t == "" then Infinite
    else
      var v := ParseDec(t);
      if v.Some? then At(v.value) else NotNumber
  }

  predicate IsRangeText(s: string) {
    s == "empty"
    || (|s| >= 3 && (s[0] == '[' || s[0] == '(') && (s[|s| - 1] == ')' || s[|s| - 1] == ']')
        && IndexFrom(s, ",", 0).Some?)
  }

  function ParseRange(s: string): Option<RangeVal> {
    if s == "empty" then Some(EMPTY)
    else if !IsRangeText(s) then None
    else
      var inner := s[1..|s| - 1];
      var comma := IndexFrom(inner, ",", 0);
      if comma.None? then None
      else Some(RangeVal(false, ParseBound(inner[..comma.value]), ParseBound(inner[comma.value + 1..]),
                         s[0] == '[', s[|s| - 1] == ']'))
  }

  // -- The program's tests ------------------------------------------------------------------------

  // How two bounds compare, unless one is no number.
  function CmpBounds(a: Bound, b: Bound): Option<int> {
    if a.At? && b.At? then Some(Cmp(a.value, b.value)) else None
  }

  predicate Contains(r: RangeVal, x: Number) {
    && !r.empty
    && (r.lo.Infinite? || (r.lo.At? && var c := Cmp(x, r.lo.value); !(c < 0 || (c == 0 && !r.loInc))))
    && (r.hi.Infinite? || (r.hi.At? && var c := Cmp(x, r.hi.value); !(c > 0 || (c == 0 && !r.hiInc))))
  }

  predicate LowerCovers(a: RangeVal, b: RangeVal) {
    if a.lo.Infinite? then true
    else if b.lo.Infinite? then false
    else
      var c := CmpBounds(a.lo, b.lo);
      c.Some? && (c.value == -1 || (c.value == 0 && (a.loInc || !b.loInc)))
  }

  predicate UpperCovers(a: RangeVal, b: RangeVal) {
    if a.hi.Infinite? then true
    else if b.hi.Infinite? then false
    else
      var c := CmpBounds(a.hi, b.hi);
      c.Some? && (c.value == 1 || (c.value == 0 && (a.hiInc || !b.hiInc)))
  }

  predicate ContainsRange(a: RangeVal, b: RangeVal) {
    b.empty || (!a.empty && LowerCovers(a, b) && UpperCovers(a, b))
  }

  predicate StartsBeforeEnd(x: RangeVal, y: RangeVal) {
    if x.lo.Infinite? || y.hi.Infinite? then true
    else
      var c := CmpBounds(x.lo, y.hi);
      c.Some? && (c.value == -1 || (c.value == 0 && x.loInc && y.hiInc))
  }

  predicate Overlaps(a: RangeVal, b: RangeVal) {
    !a.empty && !b.empty && StartsBeforeEnd(a, b) && StartsBeforeEnd(b, a)
  }

  // -- What they should mean ------------------------------------------------------------------------

  ghost predicate Subset(b: RangeVal, a: RangeVal) { forall x: Number :: Contains(b, x) ==> Contains(a, x) }

  ghost predicate Meet(a: RangeVal, b: RangeVal) { exists x: Number :: Contains(a, x) && Contains(b, x) }

  predicate Numeric(r: RangeVal) { !r.lo.NotNumber? && !r.hi.NotNumber? }

  // Written as empty, or with numbers or nothing for its bounds, in order.
  predicate Sensible(r: RangeVal) { r.empty || (Numeric(r) && StartsBeforeEnd(r, r)) }

  // Bounds, as real numbers.
  ghost predicate From(r: RangeVal, x: real) {
    match r.lo
    case Infinite => true
    case At(v) => Val(v) < x || (Val(v) == x && r.loInc)
    case NotNumber => false
  }

  ghost predicate Till(r: RangeVal, x: real) {
    match r.hi
    case Infinite => true
    case At(v) => x < Val(v) || (Val(v) == x && r.hiInc)
    case NotNumber => false
  }

  lemma ContainsMeans(r: RangeVal, x: Number)
    ensures Contains(r, x) <==> !r.empty && From(r, Val(x)) && Till(r, Val(x))
  {
    if r.lo.At? { CmpComparesValues(x, r.lo.value); }
    if r.hi.At? { CmpComparesValues(x, r.hi.value); }
  }

  lemma CmpMeans(a: Bound, b: Bound)
    ensures CmpBounds(a, b).Some? <==> a.At? && b.At?
    ensures a.At? && b.At? ==>
        CmpBounds(a, b).value == if Val(a.value) < Val(b.value) then -1
                                 else if Val(a.value) == Val(b.value) then 0 else 1
  {
    if a.At? && b.At? { CmpComparesValues(a.value, b.value); }
  }

  // A range whose bounds are in order is not empty: between two bounds lies their midpoint.
  lemma HasPoint(r: RangeVal) returns (x: Number)
    requires !r.empty && Numeric(r) && StartsBeforeEnd(r, r)
    ensures Contains(r, x)
  {
    if r.lo.Infinite? {
      x := Rat(1, 1);
      if r.hi.At? { x := Below(r.hi.value); }
    } else if r.hi.Infinite? {
      x := Above(r.lo.value);
    } else {
      CmpMeans(r.lo, r.hi);
      x := Middle(r.lo.value, r.hi.value);
    }
    ContainsMeans(r, x);
  }

  lemma Above(a: Number) returns (x: Number)
    ensures Val(x) > Val(a)
  {
    AddIsExact(a, Rat(1, 1));
    x := Add(a, Rat(1, 1));
  }

  lemma Below(a: Number) returns (x: Number)
    ensures Val(x) < Val(a)
  {
    AddIsExact(a, Rat(1, 1));
    x := Sub(a, Rat(1, 1));
  }

  lemma Middle(a: Number, b: Number) returns (x: Number)
    ensures Val(x) == (Val(a) + Val(b)) / 2.0
  {
    AddIsExact(a, b);
    OverIsExact(Add(a, b), 2);
    x := Over(Add(a, b), 2);
  }

  // The range of the numbers in both, when neither is written as empty.
  ghost function Both(a: RangeVal, b: RangeVal): RangeVal {
    var (lo, loInc) := if LowerCovers(a, b) then (b.lo, b.loInc) else (a.lo, a.loInc);
    var (hi, hiInc) := if UpperCovers(a, b) then (b.hi, b.hiInc) else (a.hi, a.hiInc);
    RangeVal(false, lo, hi, loInc, hiInc)
  }

  lemma BothIsIntersection(a: RangeVal, b: RangeVal, x: Number)
    requires !a.empty && !b.empty && Numeric(a) && Numeric(b)
    ensures Contains(Both(a, b), x) <==> Contains(a, x) && Contains(b, x)
  {
    CmpMeans(a.lo, b.lo);
    CmpMeans(a.hi, b.hi);
    ContainsMeans(a, x);
    ContainsMeans(b, x);
    ContainsMeans(Both(a, b), x);
  }

  lemma OverlapHasPoint(a: RangeVal, b: RangeVal) returns (x: Number)
    requires Sensible(a) && Sensible(b) && Overlaps(a, b)
    ensures Contains(a, x) && Contains(b, x)
  {
    x := HasPoint(Both(a, b));
    BothIsIntersection(a, b, x);
  }

  lemma InOrder(a: RangeVal, b: RangeVal, x: Number)
    requires Contains(a, x) && Contains(b, x)
    ensures StartsBeforeEnd(a, b)
  {
    CmpMeans(a.lo, b.hi);
    ContainsMeans(a, x);
    ContainsMeans(b, x);
  }

  // Ranges with a number in common are always found to overlap.
  lemma MeetingOverlaps(a: RangeVal, b: RangeVal)
    requires Meet(a, b)
    ensures Overlaps(a, b)
  {
    var x :| Contains(a, x) && Contains(b, x);
    InOrder(a, b, x);
    InOrder(b, a, x);
  }

  // The test for overlap is right about a range, against every sensible one, exactly when the range is
  // sensible itself.
  lemma OverlapsExactly(a: RangeVal)
    ensures Sensible(a) <==> (forall b: RangeVal | Sensible(b) :: Overlaps(a, b) <==> Meet(a, b))
  {
    if Sensible(a) {
      forall b: RangeVal | Sensible(b) ensures Overlaps(a, b) <==> Meet(a, b) {
        if Overlaps(a, b) { var x := OverlapHasPoint(a, b); }
        if Meet(a, b) { MeetingOverlaps(a, b); }
      }
    } else {
      var all := RangeVal(false, Infinite, Infinite, false, false);
      assert Overlaps(a, all);
      forall x: Number ensures !Contains(a, x) { NothingInside(a, x); }
    }
  }

  // A range that is not sensible denotes nothing.
  lemma NothingInside(r: RangeVal, x: Number)
    requires !Sensible(r)
    ensures !Contains(r, x)
  {
    if Contains(r, x) { InOrder(r, r, x); }
  }

  // What is found to contain does contain.
  lemma ContainmentIsSound(a: RangeVal, b: RangeVal)
    requires ContainsRange(a, b)
    ensures Subset(b, a)
  {
    CmpMeans(a.lo, b.lo);
    CmpMeans(a.hi, b.hi);
    forall x: Number | Contains(b, x) ensures Contains(a, x) {
      ContainsMeans(a, x);
      ContainsMeans(b, x);
    }
  }

  // The numbers that miss a range on one side.
  ghost function Before(r: RangeVal): RangeVal { RangeVal(false, Infinite, r.lo, false, !r.loInc) }
  ghost function Beyond(r: RangeVal): RangeVal { RangeVal(false, r.hi, Infinite, !r.hiInc, false) }

  lemma LowerUncovered(a: RangeVal, b: RangeVal) returns (x: Number)
    requires a.lo.At? && Sensible(b) && !b.empty && !LowerCovers(a, b)
    ensures Contains(b, x) && !Contains(a, x)
  {
    CmpMeans(a.lo, b.lo);
    CmpMeans(b.lo, a.lo);
    x := OverlapHasPoint(b, Before(a));
    ContainsMeans(a, x);
    ContainsMeans(Before(a), x);
  }

  lemma UpperUncovered(a: RangeVal, b: RangeVal) returns (x: Number)
    requires a.hi.At? && Sensible(b) && !b.empty && !UpperCovers(a, b)
    ensures Contains(b, x) && !Contains(a, x)
  {
    CmpMeans(a.hi, b.hi);
    x := OverlapHasPoint(b, Beyond(a));
    ContainsMeans(a, x);
    ContainsMeans(Beyond(a), x);
  }

  // A sensible range that is not found to be contained has a number outside.
  lemma Uncovered(a: RangeVal, b: RangeVal) returns (x: Number)
    requires Sensible(b) && !ContainsRange(a, b)
    ensures Contains(b, x) && !Contains(a, x)
  {
    if a.empty || !Numeric(a) {
      x := HasPoint(b);
    } else if !LowerCovers(a, b) {
      x := LowerUncovered(a, b);
    } else {
      x := UpperUncovered(a, b);
    }
  }

  // The test for containment is right about a range, inside every other, exactly when the range is
  // sensible: any other denotes nothing, but is not in `empty`.
  lemma ContainsRangeExactly(b: RangeVal)
    ensures Sensible(b) <==> (forall a: RangeVal :: ContainsRange(a, b) <==> Subset(b, a))
  {
    if Sensible(b) {
      forall a: RangeVal ensures ContainsRange(a, b) <==> Subset(b, a) {
        if ContainsRange(a, b) { ContainmentIsSound(a, b); }
        if !ContainsRange(a, b) { var x := Uncovered(a, b); }
      }
    } else {
      forall x: Number ensures !Contains(b, x) { NothingInside(b, x); }
      assert Subset(b, EMPTY) && !ContainsRange(EMPTY, b);
    }
  }

  // -- Building ranges -----------------------------------------------------------------------------

  // Two characters give the kinds of the bounds; anything else stands for "[)".
  function Shape(bounds: string): (char, char) { if |bounds| == 2 then (bounds[0], bounds[1]) else ('[', ')') }

  function MakeRange(lo: string, hi: string, bounds: string): string {
    var (lb, ub) := Shape(bounds);
    if lo == hi && !(lb == '[' && ub == ']') then "empty"
    else
      var a, b := ParseBound(lo), ParseBound(hi);
      if a.At? && b.At? && Cmp(a.value, b.value) > 0 then "empty"
      else [lb] + lo + "," + hi + [ub]
  }

  // The range the caller asks for: closed below but for "()" and "(]", open above but for "[]" and "(]".
  ghost function Intended(lo: string, hi: string, bounds: string): RangeVal {
    RangeVal(false, ParseBound(lo), ParseBound(hi), bounds != "()" && bounds != "(]",
             bounds == "[]" || bounds == "(]")
  }

  // One of the four kinds, or no two characters, which stand for the usual "[)".
  predicate KnownShape(bounds: string) {
    |bounds| == 2 ==> bounds == "[)" || bounds == "[]" || bounds == "()" || bounds == "(]"
  }

  ghost predicate SameNumbers(a: RangeVal, b: RangeVal) { forall x: Number :: Contains(a, x) <==> Contains(b, x) }

  lemma BuiltText(lb: char, lo: string, hi: string, ub: char)
    requires lb in {'[', '('} && ub in {']', ')'} && ',' !in lo
    ensures ParseRange([lb] + lo + "," + hi + [ub])
         == Some(RangeVal(false, ParseBound(lo), ParseBound(hi), lb == '[', ub == ']'))
  {
    var s := [lb] + lo + "," + hi + [ub];
    assert s[1..|s| - 1] == lo + "," + hi;
    assert s[0] == lb && s[|s| - 1] == ub;
    FirstComma(lo, hi);
    var inner := lo + "," + hi;
    assert inner[..|lo|] == lo && inner[|lo| + 1..] == hi;
    assert Text.At(s, |lo| + 1, ",") by { assert s[|lo| + 1..|lo| + 2] == ","; }
  }

  lemma OutOfOrderIsEmpty(r: RangeVal)
    requires (r.lo == r.hi && !r.lo.Infinite? && !(r.loInc && r.hiInc))
          || (r.lo.At? && r.hi.At? && Cmp(r.lo.value, r.hi.value) > 0)
    ensures SameNumbers(EMPTY, r)
  {
    forall x: Number ensures !Contains(r, x) {
      if r.lo.At? && r.hi.At? { CmpMeans(r.lo, r.hi); }
      ContainsMeans(r, x);
    }
  }

  // A range is built as asked for, but for one with neither bound that is not closed at both ends:
  // that comes out as `empty` instead of everything.
  lemma MakeRangeDenotes(lo: string, hi: string, bounds: string)
    requires KnownShape(bounds) && ',' !in lo
    ensures var r := ParseRange(MakeRange(lo, hi, bounds));
            && r.Some?
            && (SameNumbers(r.value, Intended(lo, hi, bounds)) <==>
                  !(lo == hi && bounds != "[]" && ParseBound(lo).Infinite?))
  {
    var r := Intended(lo, hi, bounds);
    var (lb, ub) := Shape(bounds);
    assert Shape(bounds) == (lb, ub);
    if lo == hi && (lb, ub) != ('[', ']') {
      if r.lo.Infinite? {
        assert Contains(r, Rat(0, 1)) && !Contains(EMPTY, Rat(0, 1));
      } else {
        OutOfOrderIsEmpty(r);
      }
    } else if r.lo.At? && r.hi.At? && Cmp(r.lo.value, r.hi.value) > 0 {
      OutOfOrderIsEmpty(r);
    } else {
      BuiltText(lb, lo, hi, ub);
    }
  }

  lemma FirstComma(lo: string, hi: string)
    requires ',' !in lo
    ensures IndexFrom(lo + "," + hi, ",", 0) == Some(|lo|)
  {
    var s := lo + "," + hi;
    assert Text.At(s, |lo|, ",") by { assert s[|lo|..|lo| + 1] == ","; }
    forall j | 0 <= j < |lo| ensures !Text.At(s, j, ",") {
      assert s[j] == lo[j] && lo[j] in lo;
    }
  }

  // -- A range out of order ------------------------------------------------------------------------

  lemma DigitText(s: string)
    requires s != "" && forall c <- s :: !IsSpace(c)
    ensures TrimSpace(s) == s
  {
    assert s[0] in s && s[|s| - 1] in s;
  }

  lemma OneIsOne()
    ensures ParseBound("1").At? && Val(ParseBound("1").value) == 1.0
  {
    DigitText("1");
    assert "" + "1" == "1" && "1"[..0] == "";
    ParsesWithoutPoint(false, "1");
    ParseDecValue("1");
  }

  lemma OnePointZeroIsOne()
    ensures ParseBound("1.0").At? && Val(ParseBound("1.0").value) == 1.0
  {
    DigitText("1.0");
    assert "" + "1" + "." + "0" == "1.0" && "1" + "0" == "10" && "10"[..1] == "1" && "1"[..0] == "";
    ParsesWithPoint(false, "1", "0");
    assert Pow(10, 1) == 10 * Pow(10, 0);
    ParseDecValue("1.0");
  }

  // The same number written in two ways, and not both bounds closed: a range like this is not
  // written as `empty`, though nothing is in it.
  lemma EqualBoundsOutOfOrder()
    ensures MakeRange("1", "1.0", "[)") == "[1,1.0)"
    ensures var r := ParseRange("[1,1.0)");
            r.Some? && !r.value.empty && Numeric(r.value) && !Sensible(r.value)
  {
    OneIsOne();
    OnePointZeroIsOne();
    var one, onePointZero := ParseBound("1"), ParseBound("1.0");
    CmpMeans(one, onePointZero);
    NotInOrder(RangeVal(false, one, onePointZero, true, false));
    assert ['['] + "1" + "," + "1.0" + [')'] == "[1,1.0)";
    BuiltText('[', "1", "1.0", ')');
  }

  lemma NotInOrder(r: RangeVal)
    requires !r.empty && CmpBounds(r.lo, r.hi) == Some(0) && !r.hiInc
    ensures Numeric(r) && !Sensible(r)
  {
  }

  // -- A bound that is no number -----------------------------------------------------------------------

  // A text without a digit is no number.
  lemma NoDigitNoNumber(s: string)
    requires forall c <- s :: !IsDigit(c)
    ensures ParseDecimal(s).None?
  {
    var body := if s != "" && s[0] == '-' then s[1..] else s;
    assert forall c <- body :: c in s;
    var dot := IndexFrom(body, ".", 0);
    var whole := if dot.Some? then body[..dot.value] else body;
    var frac := if dot.Some? then body[dot.value + 1..] else "";
    assert forall c <- whole :: c in body;
    assert forall c <- frac :: c in body;
    assert whole == "" || (whole[0] in whole && !AllDigits(whole));
    assert frac == "" || (frac[0] in frac && !AllDigits(frac));
  }

  // A range from a text that is no number upwards, as for dates and words: its bounds are not out of
  // order, and yet it is not sensible.
  lemma TextBoundNotSensible(lo: string)
    requires lo != "" && forall c <- lo :: !IsSpace(c) && !IsDigit(c) && c != ','
    ensures var r := ParseRange(MakeRange(lo, "", "[)"));
            r.Some? && !r.value.empty && StartsBeforeEnd(r.value, r.value) && !Sensible(r.value)
  {
    DigitText(lo);
    NoDigitNoNumber(lo);
    assert MakeRange(lo, "", "[)") == ['['] + lo + "," + "" + [')'];
    BuiltText('[', lo, "", ')');
  }
}
