/** Sequences: nextval and its companions on 64-bit integers (protocol/postgres/sequences.go). */
module Sequences {
  import opened Options
  import opened Text
  import opened Rationals

  const MIN64: int := -0x8000_0000_0000_0000
  const MAX64: int := 0x7fff_ffff_ffff_ffff

  predicate Int64(x: int) { MIN64 <= x <= MAX64 }

  // Signed 64-bit addition wraps round.
  function Wrap(x: int): int { (x - MIN64) % 0x1_0000_0000_0000_0000 + MIN64 }

  // One row of _overlite_sequences.
  datatype Row = Row(last: int, incr: int, min: int, max: int, cycled: bool, called: bool)

  predicate Machine(r: Row) { Int64(r.last) && Int64(r.incr) && Int64(r.min) && Int64(r.max) }

  // Which end of the bounds a sequence runs towards, and which it goes back to.
  function Bound(r: Row): int { if r.incr > 0 then r.max else r.min }

  function Restart(r: Row): int { if r.incr > 0 then r.min else r.max }

  predicate Past(incr: int, x: int, bound: int) { (incr > 0 && x > bound) || (incr < 0 && x < bound) }

  // The value after last, given what adding the increment makes.
  function Chosen(r: Row, sum: int): Option<int> {
    if !r.called then Some(r.last)
    else if !Past(r.incr, sum, Bound(r)) then Some(sum)
    else if r.cycled then Some(Restart(r))
    else None
  }

  // What the program hands out, and what it would without wrapping round.
  function Next(r: Row): Option<int> { Chosen(r, Wrap(r.last + r.incr)) }

  function Ideal(r: Row): Option<int> { Chosen(r, r.last + r.incr) }

  function Updated(r: Row): Row {
    if Next(r).Some? then r.(last := Next(r).value, called := true) else r
  }

  // Whatever value the row holds, the program hands out the right next one exactly when the sum fits or
  // wrapping it does no harm.
  lemma ExactUnlessWrapped(r: Row)
    requires Machine(r)
    ensures Next(r) == Ideal(r) <==>
        !r.called || Int64(r.last + r.incr) || WrapsHarmlessly(r)
  {
    WrapIsExact(r.last + r.incr);
  }

  // The wrapped sum is past the bound, as the sum itself is, or it is by chance what cycling goes back to.
  predicate WrapsHarmlessly(r: Row) {
    var sum := Wrap(r.last + r.incr);
    Past(r.incr, sum, Bound(r)) || (r.cycled && sum == Restart(r))
  }

  // From within the bounds a sum that does not fit wraps to well before them.
  lemma WrapsBack(r: Row)
    requires Machine(r) && r.min <= r.last <= r.max && !Int64(r.last + r.incr)
    ensures !Past(r.incr, Wrap(r.last + r.incr), Bound(r))
  {
  }

  lemma WrapIsExact(x: int)
    ensures Int64(Wrap(x)) && (Wrap(x) == x <==> Int64(x))
  {
  }

  // Within the bounds or not, as setval may leave the last value anywhere: what is handed out after it
  // lies within the bounds exactly when the sum is not still short of them.
  lemma WithinBoundsExactly(r: Row)
    requires Machine(r) && r.called && r.min <= r.max && r.incr != 0 && Next(r).Some?
    ensures r.min <= Next(r).value <= r.max <==> !Past(-r.incr, Wrap(r.last + r.incr), Restart(r))
  {
  }

  // A value set below the bounds counts up to them from where it is.
  lemma SetBelowBounds()
    ensures var r := Row(-50, 1, 1, 10, false, true); Next(r) == Some(-49)
  {
    WrapIsExact(-49);
  }

  // A sequence without limits of its own ends by wrapping to the lowest number there is.
  lemma DefaultSequenceWraps()
    ensures var r := Row(MAX64, 1, 1, MAX64, false, true);
            Ideal(r) == None && Next(r) == Some(MIN64)
  {
  }

  // -- Runs --------------------------------------------------------------------------------------

  function After(r: Row, k: nat): Row { if k == 0 then r else Updated(After(r, k - 1)) }

  // The result of the k-th call.
  function Nth(r: Row, k: Pos): Option<int> {
    Next(After(r, k - 1))
  }

  // How many values there are from one on, up to the bound.
  type NonZero = n: int | n != 0 witness 1

  function Steps(from: int, incr: NonZero, bound: int): int {
    var step: int := incr;
    (if step > 0 then (bound - from) / step else (from - bound) / -step) + 1
  }

  ghost predicate Fresh(r: Row) {
    Machine(r) && r.min <= r.last <= r.max && r.incr != 0 && !r.called
  }

  lemma Rising(from: int, step: int, bound: int, i: int)
    requires step > 0 && from <= bound
    ensures var n := (bound - from) / step + 1;
            n > 0 && (0 <= i < n ==> from <= from + i * step <= bound) && from + n * step > bound
  {
    var q, rem := (bound - from) / step, (bound - from) % step;
    assert bound - from == q * step + rem;
    if q < 0 { MulMono(q, -1, step); }
    if 0 <= i <= q {
      MulMono(0, i, step);
      MulMono(i, q, step);
    }
    assert (q + 1) * step == q * step + step;
  }

  // Steps counts the values from one on that are not past the bound.
  lemma StepsReach(from: int, incr: int, bound: int, i: int)
    requires incr != 0 && !Past(incr, from, bound)
    ensures var n := Steps(from, incr, bound);
            && n > 0
            && (0 <= i < n ==> !Past(incr, from + i * incr, bound) && !Past(-incr, from + i * incr, from))
            && Past(incr, from + n * incr, bound)
  {
    if incr > 0 {
      Rising(from, incr, bound, i);
    } else {
      Rising(-from, -incr, -bound, i);
      var n := Steps(from, incr, bound);
      assert i * -incr == -(i * incr) && n * -incr == -(n * incr);
    }
  }

  // One call further on.
  lemma OneOn(r: Row, from: int, i: nat, x: int)
    requires r.called
    requires r.last == from + i * r.incr && x == from + (i + 1) * r.incr && Int64(x) && r.incr != 0
    requires !Past(r.incr, x, Bound(r))
    ensures Next(r) == Some(x)
  {
    assert (i + 1) * r.incr == i * r.incr + r.incr;
  }

  // The first calls on a fresh sequence count up, or down, from its start.
  lemma {:induction false} Counts(r: Row, k: nat)
    requires Fresh(r) && 1 <= k <= Steps(r.last, r.incr, Bound(r))
    ensures var x := r.last + (k - 1) * r.incr;
            && Nth(r, k) == Some(x) && After(r, k) == r.(last := x, called := true)
            && r.min <= x <= r.max
  {
    var x := r.last + (k - 1) * r.incr;
    StepsReach(r.last, r.incr, Bound(r), k - 1);
    if k > 1 {
      Counts(r, k - 1);
      OneOn(After(r, k - 1), r.last, k - 2, x);
    }
  }

  lemma DifferentMultiples(i: int, j: int, c: int)
    requires i != j && c != 0
    ensures i * c != j * c
  {
    if i < j { if c > 0 { MulMono(i + 1, j, c); } else { MulMono(i + 1, j, -c); } }
    else { if c > 0 { MulMono(j + 1, i, c); } else { MulMono(j + 1, i, -c); } }
  }

  lemma AllDifferent(r: Row, j: nat, k: nat)
    requires Fresh(r) && 1 <= j < k <= Steps(r.last, r.incr, Bound(r))
    ensures Nth(r, j) != Nth(r, k)
  {
    Counts(r, j);
    Counts(r, k);
    DifferentMultiples(j - 1, k - 1, r.incr);
  }

  // The sum that first leaves the bounds.
  function Overrun(from: int, incr: NonZero, bound: int): int {
    from + Steps(from, incr, bound) * incr
  }

  lemma AfterAll(r: Row, from: int)
    requires Machine(r) && r.called && r.incr != 0 && !Past(r.incr, from, Bound(r)) && r.min <= r.last <= r.max
    requires r.last == from + (Steps(from, r.incr, Bound(r)) - 1) * r.incr
    ensures r.last + r.incr == Overrun(from, r.incr, Bound(r))
    ensures Past(r.incr, r.last + r.incr, Bound(r))
  {
    StepsReach(from, r.incr, Bound(r), 0);
    var n := Steps(from, r.incr, Bound(r));
    assert (n - 1) * r.incr + r.incr == n * r.incr;
  }

  // Without CYCLE the call after the last value fails exactly when the sum it forms fits; then
  // every later call fails too, and changes nothing.
  lemma Ends(r: Row)
    requires Fresh(r) && !r.cycled
    ensures var n := Steps(r.last, r.incr, Bound(r));
            && n > 0
            && (Nth(r, n + 1) == None <==> Int64(Overrun(r.last, r.incr, Bound(r))))
  {
    var n := Steps(r.last, r.incr, Bound(r));
    StepsReach(r.last, r.incr, Bound(r), 0);
    Counts(r, n);
    AfterAll(After(r, n), r.last);
    ExactUnlessWrapped(After(r, n));
    if !Int64(Overrun(r.last, r.incr, Bound(r))) { WrapsBack(After(r, n)); }
  }

  lemma {:induction false} StaysEnded(r: Row, n: nat, k: nat)
    requires Nth(r, n + 1) == None && k > n
    ensures Nth(r, k) == None && After(r, k) == After(r, n)
  {
    if k > n + 1 { StaysEnded(r, n, k - 1); }
  }

  // A sum past the bounds does no harm: it fits, or it wraps to where cycling goes back anyway.
  predicate Lands(r: Row, sum: int) { Int64(sum) || Wrap(sum) == Restart(r) }

  lemma BackToStart(r: Row)
    requires r.called && r.cycled && Past(r.incr, r.last + r.incr, Bound(r)) && Lands(r, r.last + r.incr)
    ensures Next(r) == Some(Restart(r))
  {
  }

  // The last value of a run is followed by the other end of the bounds.
  lemma CycleStarts(r: Row)
    requires Fresh(r) && r.cycled && Lands(r, Overrun(r.last, r.incr, Bound(r)))
    ensures var n := Steps(r.last, r.incr, Bound(r));
            n > 0 && After(r, n).cycled && Next(After(r, n)) == Some(Restart(r))
  {
    var n := Steps(r.last, r.incr, Bound(r));
    StepsReach(r.last, r.incr, Bound(r), 0);
    Counts(r, n);
    AfterAll(After(r, n), r.last);
    BackToStart(After(r, n));
  }

  // One call further round.
  lemma CycleOn(r: Row, i: int, i': int)
    requires Machine(r) && r.called && r.cycled && r.incr != 0 && r.min <= r.last <= r.max
    requires Lands(r, Overrun(Restart(r), r.incr, Bound(r)))
    requires var p := Steps(Restart(r), r.incr, Bound(r)); 0 <= i < p && i' == if i == p - 1 then 0 else i + 1
    requires r.last == Restart(r) + i * r.incr
    ensures Next(r) == Some(Restart(r) + i' * r.incr) && r.min <= Restart(r) + i' * r.incr <= r.max
  {
    StepsReach(Restart(r), r.incr, Bound(r), i');
    if i' == 0 {
      AfterAll(r, Restart(r));
      BackToStart(r);
    } else {
      OneOn(r, Restart(r), i, Restart(r) + i' * r.incr);
    }
  }

  // With CYCLE the values go on from the other end of the bounds, with the period of a full round,
  // when the sums that leave the bounds do no harm.
  lemma {:induction false} Cycles(r: Row, j: nat)
    requires Fresh(r) && r.cycled
    requires Lands(r, Overrun(r.last, r.incr, Bound(r))) && Lands(r, Overrun(Restart(r), r.incr, Bound(r)))
    ensures var n, p := Steps(r.last, r.incr, Bound(r)), Steps(Restart(r), r.incr, Bound(r));
            && n > 0 && p > 0
            && CycleAt(r, n + 1 + j, Restart(r) + (j % p) * r.incr)
  {
    var n := Steps(r.last, r.incr, Bound(r));
    CycleStarts(r);
    if j == 0 {
      FirstRound(r, n);
    } else {
      Cycles(r, j - 1);
      RoundOn(r, n + j, j);
    }
  }

  lemma FirstRound(r: Row, n: nat)
    requires Fresh(r) && Next(After(r, n)) == Some(Restart(r))
    ensures var p := Steps(Restart(r), r.incr, Bound(r));
            p > 0 && CycleAt(r, n + 1, Restart(r) + (0 % p) * r.incr)
  {
    SameBounds(r, n);
    StepsReach(Restart(r), r.incr, Bound(r), 0);
  }

  lemma RoundOn(r: Row, k: nat, j: nat)
    requires Fresh(r) && r.cycled && j > 0 && k > 0 && Lands(r, Overrun(Restart(r), r.incr, Bound(r)))
    requires var p := Steps(Restart(r), r.incr, Bound(r));
             p > 0 && CycleAt(r, k, Restart(r) + ((j - 1) % p) * r.incr)
    ensures var p := Steps(Restart(r), r.incr, Bound(r));
            CycleAt(r, k + 1, Restart(r) + (j % p) * r.incr)
  {
    var p := Steps(Restart(r), r.incr, Bound(r));
    var i, i' := (j - 1) % p, j % p;
    ModStep(j, p);
    NextRound(r, k, i, i');
  }

  lemma NextRound(r: Row, k: nat, i: int, i': int)
    requires Fresh(r) && r.cycled && k > 0 && Lands(r, Overrun(Restart(r), r.incr, Bound(r)))
    requires var p := Steps(Restart(r), r.incr, Bound(r)); 0 <= i < p && i' == if i == p - 1 then 0 else i + 1
    requires CycleAt(r, k, Restart(r) + i * r.incr)
    ensures CycleAt(r, k + 1, Restart(r) + i' * r.incr)
  {
    CycleOn(After(r, k), i, i');
  }

  // The j-th call of the rounds is as it should be.
  ghost predicate RoundAt(r: Row, j: nat)
    requires r.incr != 0
  {
    var n, p := Steps(r.last, r.incr, Bound(r)), Steps(Restart(r), r.incr, Bound(r));
    n > 0 && p > 0 && CycleAt(r, n + 1 + j, Restart(r) + (j % p) * r.incr)
  }

  // And only then.
  lemma CyclesExactly(r: Row)
    requires Fresh(r) && r.cycled
    ensures (forall j: nat :: RoundAt(r, j)) <==>
              Lands(r, Overrun(r.last, r.incr, Bound(r))) && Lands(r, Overrun(Restart(r), r.incr, Bound(r)))
  {
    if Lands(r, Overrun(r.last, r.incr, Bound(r))) && Lands(r, Overrun(Restart(r), r.incr, Bound(r))) {
      forall j: nat ensures RoundAt(r, j) { Cycles(r, j); }
    }
    if forall j: nat :: RoundAt(r, j) {
      FirstRoundLands(r);
      RoundLands(r);
    }
  }

  // A call that goes back to the start does so from a sum that does no harm.
  lemma BackMeansLands(r: Row)
    requires Machine(r) && r.called && r.cycled && r.min <= r.last <= r.max
    requires Past(r.incr, r.last + r.incr, Bound(r)) && Next(r) == Some(Restart(r))
    ensures Lands(r, r.last + r.incr)
  {
    ExactUnlessWrapped(r);
    if !Int64(r.last + r.incr) { WrapsBack(r); }
  }

  lemma FirstRoundLands(r: Row)
    requires Fresh(r) && r.cycled && RoundAt(r, 0)
    ensures Lands(r, Overrun(r.last, r.incr, Bound(r)))
  {
    var n := Steps(r.last, r.incr, Bound(r));
    RoundZero(r, n);
    StepsReach(r.last, r.incr, Bound(r), 0);
    Counts(r, n);
    LastOfRun(r, After(r, n), n);
  }

  lemma RoundZero(r: Row, n: nat)
    requires Fresh(r) && n == Steps(r.last, r.incr, Bound(r)) && RoundAt(r, 0)
    ensures Next(After(r, n)) == Some(Restart(r))
  {
    DivUnique(0, Steps(Restart(r), r.incr, Bound(r)), 0, 0);
  }

  lemma LastOfRun(r: Row, was: Row, n: Pos)
    requires Fresh(r) && r.cycled && n == Steps(r.last, r.incr, Bound(r))
    requires was == r.(last := r.last + (n - 1) * r.incr, called := true) && r.min <= was.last <= r.max
    requires Next(was) == Some(Restart(r))
    ensures Lands(r, Overrun(r.last, r.incr, Bound(r)))
  {
    AfterAll(was, r.last);
    BackMeansLands(was);
  }

  lemma RoundLands(r: Row)
    requires Fresh(r) && r.cycled && forall j: nat :: RoundAt(r, j)
    ensures Lands(r, Overrun(Restart(r), r.incr, Bound(r)))
  {
    var n, p := Steps(r.last, r.incr, Bound(r)), Steps(Restart(r), r.incr, Bound(r));
    assert RoundAt(r, 0);
    RoundEnds(r, n, p);
    RoundBegins(r, n, p);
    LastOfRound(r, After(r, n + p), p);
  }

  lemma RoundEnds(r: Row, n: nat, p: Pos)
    requires Fresh(r) && n == Steps(r.last, r.incr, Bound(r)) && p == Steps(Restart(r), r.incr, Bound(r))
    requires RoundAt(r, p - 1)
    ensures CycleAt(r, n + p, Restart(r) + (p - 1) * r.incr)
  {
    DivUnique(p - 1, p, 0, p - 1);
    RoundMeans(r, n, p, p - 1, p - 1);
  }

  lemma RoundBegins(r: Row, n: nat, p: Pos)
    requires Fresh(r) && n == Steps(r.last, r.incr, Bound(r)) && p == Steps(Restart(r), r.incr, Bound(r))
    requires RoundAt(r, p)
    ensures Next(After(r, n + p)) == Some(Restart(r))
  {
    DivUnique(p, p, 1, 0);
    RoundMeans(r, n, p, p, 0);
  }

  lemma RoundMeans(r: Row, n: nat, p: Pos, j: nat, i: nat)
    requires Fresh(r) && n == Steps(r.last, r.incr, Bound(r)) && p == Steps(Restart(r), r.incr, Bound(r))
    requires RoundAt(r, j) && i == j % p
    ensures CycleAt(r, n + 1 + j, Restart(r) + i * r.incr)
  {
  }

  lemma LastOfRound(r: Row, was: Row, p: Pos)
    requires Fresh(r) && r.cycled && p == Steps(Restart(r), r.incr, Bound(r))
    requires was == r.(last := Restart(r) + (p - 1) * r.incr, called := true) && r.min <= was.last <= r.max
    requires Next(was) == Some(Restart(r))
    ensures Lands(r, Overrun(Restart(r), r.incr, Bound(r)))
  {
    AfterAll(was, Restart(r));
    BackMeansLands(was);
  }

  // The k-th call hands out x, within the bounds, and leaves it as the last value.
  ghost predicate CycleAt(r: Row, k: Pos, x: int) {
    Nth(r, k) == Some(x) && After(r, k) == r.(last := x, called := true) && r.min <= x <= r.max
  }

  lemma ModStep(j: Pos, p: Pos)
    ensures if j % p == 0 then (j - 1) % p == p - 1 else (j - 1) % p == j % p - 1
  {
    var q, m := j / p, j % p;
    assert j == p * q + m;
    if m == 0 {
      assert j - 1 == p * (q - 1) + (p - 1);
      DivUnique(j - 1, p, q - 1, p - 1);
    } else {
      DivUnique(j - 1, p, q, m - 1);
    }
  }

  // -- After setval ---------------------------------------------------------------------------

  lemma {:induction false} OneCallIn(r: Row, k: nat)
    requires !r.called
    ensures After(r, k + 1) == After(r.(called := true), k)
  {
    if k > 0 { OneCallIn(r, k - 1); }
  }

  // A sequence set within its bounds counts on from there: from the value itself when it is set as
  // not called, else from the one after it, as far as the bound.
  lemma SetThenCounts(r: Row, val: int, isCalled: bool, k: nat)
    requires Machine(r) && r.min <= val <= r.max && r.incr != 0 && k > 0
    requires (if isCalled then k + 1 else k) <= Steps(val, r.incr, Bound(r))
    ensures Nth(r.(last := val, called := isCalled), k) == Some(val + (if isCalled then k else k - 1) * r.incr)
  {
    var start := r.(last := val, called := false);
    Counts(start, if isCalled then k + 1 else k);
    if isCalled { OneCallIn(start, k - 1); }
  }

  // -- A session ---------------------------------------------------------------------------------

  // What has happened to sequences in a session, oldest first, under names without regard to case.
  datatype Use = Given(key: string, value: int) | Gone(key: string)

  // The value last handed out, or set as called, since the sequence was last dropped.
  ghost function LastGiven(log: seq<Use>, key: string): Option<int> {
    if log == [] then None
    else
      var u := log[|log| - 1];
      if u.key != key then LastGiven(log[..|log| - 1], key)
      else if u.Given? then Some(u.value) else None
  }

  // The sequence last used, "" if none.
  ghost function LastUsed(log: seq<Use>): string {
    if log == [] then ""
    else if log[|log| - 1].Given? then log[|log| - 1].key
    else LastUsed(log[..|log| - 1])
  }

  ghost predicate Remembers(curr: map<string, int>, last: string, log: seq<Use>) {
    && (forall key :: key in curr <==> LastGiven(log, key).Some?)
    && (forall key <- curr :: LastGiven(log, key) == Some(curr[key]))
    && last == LastUsed(log)
  }

  lemma OneMoreUse(log: seq<Use>, u: Use, key: string)
    ensures LastGiven(log + [u], key) ==
              if u.key != key then LastGiven(log, key) else if u.Given? then Some(u.value) else None
    ensures LastUsed(log + [u]) == if u.Given? then u.key else LastUsed(log)
  {
    assert (log + [u])[..|log|] == log;
  }

  lemma RemembersUse(curr: map<string, int>, last: string, log: seq<Use>, key: string, v: int)
    requires Remembers(curr, last, log)
    ensures Remembers(curr[key := v], key, log + [Given(key, v)])
    ensures Remembers(curr - {key}, last, log + [Gone(key)])
  {
    RemembersGiven(curr, last, log, key, v);
    RemembersGone(curr, last, log, key);
  }

  lemma RemembersGiven(curr: map<string, int>, last: string, log: seq<Use>, key: string, v: int)
    requires Remembers(curr, last, log)
    ensures Remembers(curr[key := v], key, log + [Given(key, v)])
  {
    forall k ensures LastGiven(log + [Given(key, v)], k) == if k == key then Some(v) else LastGiven(log, k) {
      OneMoreUse(log, Given(key, v), k);
    }
    OneMoreUse(log, Given(key, v), key);
  }

  lemma RemembersGone(curr: map<string, int>, last: string, log: seq<Use>, key: string)
    requires Remembers(curr, last, log)
    ensures Remembers(curr - {key}, last, log + [Gone(key)])
  {
    forall k ensures LastGiven(log + [Gone(key)], k) == if k == key then None else LastGiven(log, k) {
      OneMoreUse(log, Gone(key), k);
    }
    OneMoreUse(log, Gone(key), key);
  }

  // The last use of the session, and what is left of it: nothing exactly when that sequence has
  // been dropped since.
  lemma {:induction false} LastUse(log: seq<Use>) returns (i: nat)
    requires exists u <- log :: u.Given?
    ensures i < |log| && log[i].Given? && log[i].key == LastUsed(log)
    ensures forall j | i < j < |log| :: log[j].Gone?
    ensures LastGiven(log, LastUsed(log)) ==
              if Gone(log[i].key) in log[i + 1..] then None else Some(log[i].value)
    decreases |log|
  {
    var before, u := log[..|log| - 1], log[|log| - 1];
    if u.Given? {
      i := |before|;
    } else {
      assert exists v <- before :: v.Given? by {
        var v :| v in log && v.Given?;
        assert log == before + [u] && v in before;
      }
      i := LastUse(before);
      assert log[i + 1..] == before[i + 1..] + [u];
    }
  }

  lemma FoldTwice(name: string)
    ensures Lower(Lower(name)) == Lower(name)
  {
  }

  // A name in the list of DROP SEQUENCE that names no sequence.
  predicate Skipped(name: string) { name == "" || Lower(name) == "cascade" || Lower(name) == "restrict" }

  // What dropping these names drops, one after another.
  function Drops(names: seq<string>): seq<Use> {
    if names == [] then []
    else
      var last := names[|names| - 1];
      Drops(names[..|names| - 1]) + if Skipped(last) then [] else [Gone(Lower(last))]
  }

  function DroppedKeys(names: seq<string>): set<string> { set u | u in Drops(names) :: u.key }

  // Just the sequences that are named, in letters of any case, are dropped; CASCADE and RESTRICT are no
  // names.
  lemma {:induction false} DropsExactly(names: seq<string>, key: string)
    ensures key in DroppedKeys(names) <==>
      && (exists i | 0 <= i < |names| :: Lower(names[i]) == key)
      && key != "" && key != "cascade" && key != "restrict"
    decreases |names|
  {
    if names != [] {
      var n := |names| - 1;
      DropsExactly(names[..n], key);
      assert names[..n + 1] == names;
      DropsOneMore(names, n);
      assert Lower(names[n]) == "" <==> names[n] == "";
      if i :| 0 <= i < |names| && Lower(names[i]) == key {
        if i < n { assert Lower(names[..n][i]) == key; }
      }
    }
  }

  lemma DropsOneMore(names: seq<string>, i: nat)
    requires i < |names|
    ensures Drops(names[..i + 1]) == Drops(names[..i]) + if Skipped(names[i]) then [] else [Gone(Lower(names[i]))]
    ensures DroppedKeys(names[..i + 1]) == DroppedKeys(names[..i]) + if Skipped(names[i]) then {} else {Lower(names[i])}
  {
    assert names[..i + 1][..i] == names[..i];
  }

  class SequenceSession {
    // The table, whose key ignores case: a row stands under its name in lower case.
    var rows: map<string, Row>
    var seqCurr: map<string, int>
    var seqLast: string
    ghost var log: seq<Use>

    ghost predicate Valid()
      reads this
    {
      (forall key <- rows :: Lower(key) == key && Machine(rows[key])) && Remembers(seqCurr, seqLast, log)
    }

    constructor (rows: map<string, Row>)
      requires forall key <- rows :: Lower(key) == key && Machine(rows[key])
      ensures Valid() && this.rows == rows && log == []
    {
      this.rows, seqCurr, seqLast, log := rows, map[], "", [];
    }

    method Remember(name: string, v: int)
      requires Valid()
      modifies `seqCurr, `seqLast, `log
      ensures Valid() && log == old(log) + [Given(Lower(name), v)]
    {
      var key := Lower(name);
      RemembersUse(seqCurr, seqLast, log, key, v);
      seqCurr := seqCurr[key := v];
      seqLast := key;
      log := log + [Given(key, v)];
    }

    // The next value, or nothing for an unknown sequence or one at its end, and then nothing changes.
    method Nextval(name: string) returns (v: Option<int>)
      requires Valid()
      modifies this
      ensures Valid()
      ensures v == if Lower(name) in old(rows) then Next(old(rows)[Lower(name)]) else None
      ensures rows == if v.None? then old(rows) else old(rows)[Lower(name) := Updated(old(rows)[Lower(name)])]
      ensures log == old(log) + if v.Some? then [Given(Lower(name), v.value)] else []
    {
      var key := Lower(name);
      if key !in rows { return None; }
      var row := rows[key];
      FoldTwice(name);
      var next := NextOf(row);
      if next.None? { return None; }
      rows := rows[key := row.(last := next.value, called := true)];
      Remember(name, next.value);
      v := next;
    }

    method Setval(name: string, val: int, isCalled: bool) returns (v: Option<int>)
      requires Valid() && Int64(val)
      modifies this
      ensures Valid()
      ensures v == if Lower(name) in old(rows) then Some(val) else None
      ensures rows == if v.None? then old(rows)
                      else old(rows)[Lower(name) := old(rows)[Lower(name)].(last := val, called := isCalled)]
      ensures log == old(log) + if v.Some? && isCalled then [Given(Lower(name), val)] else []
    {
      var key := Lower(name);
      if key !in rows { return None; }
      FoldTwice(name);
      rows := rows[key := rows[key].(last := val, called := isCalled)];
      if isCalled { Remember(name, val); }
      v := Some(val);
    }

    // Forgets the sequences, and the session's values of them, but not which was used last.
    method DropSequence(names: seq<string>)
      requires Valid()
      modifies `rows, `seqCurr, `log
      ensures Valid() && rows == old(rows) - DroppedKeys(names) && log == old(log) + Drops(names)
    {
      ghost var drops, keys := Drops(names[..0]), DroppedKeys(names[..0]);
      for i := 0 to |names|
        invariant drops == Drops(names[..i]) && keys == DroppedKeys(names[..i])
        invariant Valid() && rows == old(rows) - keys && log == old(log) + drops
      {
        DropsOneMore(names, i);
        if Skipped(names[i]) { continue; }
        drops, keys := drops + [Gone(Lower(names[i]))], keys + {Lower(names[i])};
        DropOne(Lower(names[i]));
      }
      assert names[..|names|] == names;
    }

    method DropOne(key: string)
      requires Valid()
      modifies `rows, `seqCurr, `log
      ensures Valid() && rows == old(rows) - {key} && log == old(log) + [Gone(key)]
    {
      RemembersUse(seqCurr, seqLast, log, key, 0);
      rows := rows - {key};
      seqCurr := seqCurr - {key};
      log := log + [Gone(key)];
    }

    // The value last given under any spelling of the name, since the sequence was last dropped.
    method Currval(name: string) returns (v: Option<int>)
      requires Valid()
      ensures v == LastGiven(log, Lower(name))
    {
      if Lower(name) in seqCurr { return Some(seqCurr[Lower(name)]); }
      return None;
    }

    // The value last given of the sequence last used, and zero when that sequence has been dropped.
    method Lastval() returns (v: Option<int>)
      requires Valid()
      ensures v.None? <==> LastUsed(log) == ""
      ensures v.Some? ==> v.value == match LastGiven(log, LastUsed(log)) case Some(x) => x case None => 0
    {
      if seqLast == "" { return None; }
      return Some(if seqLast in seqCurr then seqCurr[seqLast] else 0);
    }
  }

  // The arithmetic of nextval, branch by branch.
  method NextOf(row: Row) returns (v: Option<int>)
    requires Machine(row)
    ensures v == Next(row) && (v.Some? ==> Int64(v.value))
  {
    var next := row.last;
    if row.called {
      next := Wrap(row.last + row.incr);
      if row.incr > 0 && next > row.max {
        if !row.cycled { return None; }
        next := row.min;
      } else if row.incr < 0 && next < row.min {
        if !row.cycled { return None; }
        next := row.max;
      }
    }
    v := Some(next);
  }

  lemma DroppedLast(before: seq<Use>, key: string, v: int)
    ensures var log := before + [Given(key, v)] + [Gone(key)];
            LastUsed(log) == key && LastGiven(log, key).None?
  {
    var used := before + [Given(key, v)];
    assert (used + [Gone(key)])[..|used|] == used;
  }

  // A sequence used and then dropped leaves a zero behind.
  method DroppedLeavesZero(s: SequenceSession, name: string) returns (v: Option<int>)
    requires s.Valid() && Lower(name) in s.rows && Next(s.rows[Lower(name)]).Some? && !Skipped(name)
    modifies s
    ensures v == Some(0) && Lower(name) !in s.rows
  {
    ghost var before := s.log;
    var x := s.Nextval(name);
    assert Drops([name]) == [Gone(Lower(name))] by { assert [name][..0] == []; }
    s.DropSequence([name]);
    DroppedLast(before, Lower(name), x.value);
    assert |Lower(name)| == |name|;
    v := s.Lastval();
  }

  // k calls of Nextval hand out Nth, one by one.
  method NextvalTimes(s: SequenceSession, name: string, k: nat) returns (vs: seq<Option<int>>)
    requires s.Valid() && Lower(name) in s.rows
    modifies s
    ensures s.Valid() && |vs| == k
    ensures forall i | 0 <= i < k :: vs[i] == Nth(old(s.rows)[Lower(name)], i + 1)
    ensures s.rows == old(s.rows)[Lower(name) := After(old(s.rows)[Lower(name)], k)]
  {
    vs := [];
    ghost var r := s.rows[Lower(name)];
    for i := 0 to k
      invariant s.Valid() && |vs| == i && forall j | 0 <= j < i :: vs[j] == Nth(r, j + 1)
      invariant s.rows == old(s.rows)[Lower(name) := After(r, i)]
    {
      var v := s.Nextval(name);
      vs := vs + [v];
    }
  }

  lemma {:induction false} SameBounds(r: Row, k: nat)
    ensures var r' := After(r, k); r' == r.(last := r'.last, called := r'.called)
  {
    if k > 0 { SameBounds(r, k - 1); }
  }
}
