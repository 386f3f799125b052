/**
 All sessions at once: every interleaving of the critical sections that lock calls, transaction
 ends and disconnections are made of (protocol/postgres/advisory.go, with endTx and the end of
 loop in protocol/postgres/extended.go).

 The `released` channel is a counter of the channels made so far: a waiter's channel is closed
 exactly when the counter has moved past the one it read.
 */
module AdvisorySystem {
  import opened AdvisoryGrants

  datatype TxHold = TxHold(key: Key, shared: bool)

  // Where a session's goroutine stands between two critical sections.
  datatype Pc =
    | Ready
    | Trying(gen: nat, key: Key, shared: bool, xact: bool)  // waitAdvisory: channel read, about to try
    | Blocked(gen: nat, key: Key, shared: bool, xact: bool) // waitAdvisory: refused, parked on the channel
    | Granted(key: Key, shared: bool)                       // an _xact_ lock taken, holdForTx still to run
    | Ending(rest: seq<TxHold>)                             // endTx: committed or rolled back, unlocking
    | Closing                                               // loop's end: unlocked, rollback still to run

  datatype Sess = Sess(pc: Pc, inTx: bool, txAdvisory: seq<TxHold>)

  // `ledger` is bookkeeping for the claims below, not state of the program: session-level takes
  // minus explicit unlocks, since the session last held nothing but what it counts.
  datatype System = System(holds: Holds, released: nat, sessions: map<Session, Sess>, ledger: map<Grant, int>)

  const INITIAL := System(map[], 0, map[], map[])

  datatype Event =
    | Connect(s: Session)
    | TryCall(s: Session, key: Key, shared: bool, xact: bool)
    | WaitCall(s: Session, key: Key, shared: bool, xact: bool)
    | WaitTry(s: Session)
    | Wake(s: Session)
    | Cancel(s: Session)
    | HoldForTx(s: Session)
    | UnlockCall(s: Session, key: Key, shared: bool)
    | UnlockAllCall(s: Session)
    | Begin(s: Session)
    | EndTx(s: Session)
    | ReleaseNext(s: Session)
    | Disconnect(s: Session)
    | FinishClose(s: Session)

  function Owed(sys: System, gr: Grant): int {
    if gr in sys.ledger then sys.ledger[gr] else 0
  }

  function With(sys: System, s: Session, t: Sess): System {
    sys.(sessions := sys.sessions[s := t])
  }

  // One unlockAdvisory: a release bumps the channel.
  function UnlockStep(sys: System, s: Session, k: Key, shared: bool): (System, bool) {
    var (hs, ok) := Unlock(sys.holds, s, k, shared);
    (sys.(holds := hs, released := if ok then sys.released + 1 else sys.released), ok)
  }

  // A successful take, transaction-level or session-level.
  function TakeStep(sys: System, hs: Holds, s: Session, t: Sess, k: Key, shared: bool, xact: bool): System {
    var sys1 := sys.(holds := hs);
    if xact then With(sys1, s, t.(pc := Granted(k, shared)))
    else
      var gr := Grant(s, k, shared);
      With(sys1, s, t.(pc := Ready)).(ledger := sys.ledger[gr := Owed(sys, gr) + 1])
  }

  function Settled(ledger: map<Grant, int>, s: Session): map<Grant, int> {
    map gr | gr in ledger :: if gr.session == s && ledger[gr] < 0 then 0 else ledger[gr]
  }

  function Cleared(ledger: map<Grant, int>, s: Session): map<Grant, int> {
    map gr | gr in ledger && gr.session != s :: ledger[gr]
  }

  predicate Enabled(sys: System, e: Event) {
    if e.Connect? then e.s !in sys.sessions
    else
      && e.s in sys.sessions
      && var t := sys.sessions[e.s];
         match e
         case Connect(_) => false
         case WaitTry(_) => t.pc.Trying?
         case Wake(_) => t.pc.Blocked? && t.pc.gen != sys.released
         case Cancel(_) => t.pc.Blocked?
         case HoldForTx(_) => t.pc.Granted?
         case ReleaseNext(_) => t.pc.Ending?
         case FinishClose(_) => t.pc.Closing?
         case Begin(_) => t.pc.Ready? && !t.inTx
         case EndTx(_) => t.pc.Ready? && t.inTx
         case _ => t.pc.Ready?
  }

  function Step(sys: System, e: Event): System
    requires Enabled(sys, e)
  {
    match e
    case Connect(s) => With(sys, s, Sess(Ready, false, []))
    case TryCall(s, k, shared, xact) =>
      var (hs, ok) := TryLock(sys.holds, s, k, shared);
      if ok then TakeStep(sys, hs, s, sys.sessions[s], k, shared, xact) else sys
    case WaitCall(s, k, shared, xact) =>
      With(sys, s, sys.sessions[s].(pc := Trying(sys.released, k, shared, xact)))
    case WaitTry(s) =>
      var t := sys.sessions[s];
      var Trying(gen, k, shared, xact) := t.pc;
      var (hs, ok) := TryLock(sys.holds, s, k, shared);
      if ok then TakeStep(sys, hs, s, t, k, shared, xact)
      else With(sys, s, t.(pc := Blocked(gen, k, shared, xact)))
    case Wake(s) =>
      var t := sys.sessions[s];
      With(sys, s, t.(pc := Trying(sys.released, t.pc.key, t.pc.shared, t.pc.xact)))
    case Cancel(s) => With(sys, s, sys.sessions[s].(pc := Ready))
    case HoldForTx(s) =>
      var t := sys.sessions[s];
      if t.inTx then
        With(sys, s, t.(pc := Ready, txAdvisory := t.txAdvisory + [TxHold(t.pc.key, t.pc.shared)]))
      else With(UnlockStep(sys, s, t.pc.key, t.pc.shared).0, s, t.(pc := Ready))
    case UnlockCall(s, k, shared) =>
      var (sys1, ok) := UnlockStep(sys, s, k, shared);
      var gr := Grant(s, k, shared);
      if ok then sys1.(ledger := sys.ledger[gr := Owed(sys, gr) - 1]) else sys1
    case UnlockAllCall(s) =>
      With(sys, s, sys.sessions[s].(txAdvisory := []))
      .(holds := ReleaseAll(sys.holds, s), released := sys.released + 1, ledger := Cleared(sys.ledger, s))
    case Begin(s) => With(sys, s, sys.sessions[s].(inTx := true))
    case EndTx(s) =>
      var t := sys.sessions[s];
      With(sys, s, t.(pc := Ending(t.txAdvisory), inTx := false))
    case ReleaseNext(s) =>
      var t := sys.sessions[s];
      if t.pc.rest == [] then
        With(sys, s, t.(pc := Ready, txAdvisory := [])).(ledger := Settled(sys.ledger, s))
      else
        var h := t.pc.rest[0];
        With(UnlockStep(sys, s, h.key, h.shared).0, s, t.(pc := Ending(t.pc.rest[1..])))
    case Disconnect(s) =>
      With(sys, s, sys.sessions[s].(pc := Closing, txAdvisory := []))
      .(holds := ReleaseAll(sys.holds, s), released := sys.released + 1, ledger := Cleared(sys.ledger, s))
    case FinishClose(s) => sys.(sessions := sys.sessions - {s})
  }

  ghost predicate Run(from: System, events: seq<Event>, to: System)
    decreases |events|
  {
    if events == [] then from == to
    else Enabled(from, events[0]) && Run(Step(from, events[0]), events[1..], to)
  }

  ghost predicate Reachable(sys: System) {
    exists events :: Run(INITIAL, events, sys)
  }

  // -- The invariant ------------------------------------------------------------

  // Transaction-level holds of the mode that the session still means to let go of.
  function TxCount(hs: seq<TxHold>, k: Key, shared: bool): nat {
    multiset(hs)[TxHold(k, shared)]
  }

  function Max(a: int, b: int): int { if a < b then b else a }

  // How often a session should hold a lock, given its session-level holds.
  function Expected(t: Sess, k: Key, m: bool, owed: int): int {
    match t.pc
    case Granted(k', m') => owed + TxCount(t.txAdvisory, k, m) + (if k == k' && m == m' then 1 else 0)
    case Ending(rest) => Max(0, owed + TxCount(rest, k, m))
    case Closing => 0
    case _ => owed + TxCount(t.txAdvisory, k, m)
  }

  // A session's grants are its session-level ones plus those its transaction holds.
  ghost predicate Balanced(sys: System, s: Session, t: Sess) {
    && (forall k: Key, m: bool ::
          Count(sys.holds, Grant(s, k, m)) == Expected(t, k, m, Owed(sys, Grant(s, k, m))))
    && (t.pc.Granted? ==> Count(sys.holds, Grant(s, t.pc.key, t.pc.shared)) > 0)
    && (t.pc.Closing? ==> forall gr: Grant | gr.session == s :: Owed(sys, gr) == 0)
  }

  // A parked session whose channel is open cannot take its lock.
  ghost predicate NotMissed(sys: System, s: Session, t: Sess) {
    && (t.pc.Trying? || t.pc.Blocked? ==> t.pc.gen <= sys.released)
    && (t.pc.Blocked? && t.pc.gen == sys.released ==> !CanTake(Get(sys.holds, t.pc.key), s, t.pc.shared))
  }

  ghost predicate SessionOk(sys: System, s: Session, t: Sess) {
    && Balanced(sys, s, t)
    && NotMissed(sys, s, t)
    && (!t.inTx && !t.pc.Ending? ==> t.txAdvisory == [])
    && (t.pc.Ending? ==> !t.inTx)
  }

  // A session that is gone holds nothing.
  ghost predicate Gone(sys: System, s: Session) {
    forall gr: Grant | gr.session == s :: Count(sys.holds, gr) == 0 && Owed(sys, gr) == 0
  }

  ghost predicate Inv(sys: System) {
    && WellFormed(sys.holds)
    && (forall s <- sys.sessions.Keys :: SessionOk(sys, s, sys.sessions[s]))
    && (forall s: Session | s !in sys.sessions :: Gone(sys, s))
  }

  // -- What one event leaves alone -------------------------------------------------

  ghost predicate SameForOthers(hs: Holds, hs': Holds, s: Session) {
    forall gr: Grant | gr.session != s :: Count(hs', gr) == Count(hs, gr)
  }

  // Without a release, what was refused to another session stays refused.
  ghost predicate RefusalsStand(hs: Holds, hs': Holds, s: Session) {
    forall o: Session, k, m | o != s && !CanTake(Get(hs, k), o, m) :: !CanTake(Get(hs', k), o, m)
  }

  ghost predicate OnlyTouches(sys: System, sys': System, s: Session) {
    && WellFormed(sys'.holds)
    && sys'.sessions.Keys + {s} == sys.sessions.Keys + {s}
    && (forall o <- sys.sessions.Keys | o != s :: o in sys'.sessions && sys'.sessions[o] == sys.sessions[o])
    && SameForOthers(sys.holds, sys'.holds, s)
    && (forall gr: Grant | gr.session != s :: Owed(sys', gr) == Owed(sys, gr))
    && sys'.released >= sys.released
    && (sys'.released == sys.released ==> RefusalsStand(sys.holds, sys'.holds, s))
  }

  lemma OthersStayOk(sys: System, sys': System, s: Session, o: Session)
    requires Inv(sys) && OnlyTouches(sys, sys', s) && o != s
    ensures o in sys'.sessions ==> SessionOk(sys', o, sys'.sessions[o])
    ensures o !in sys'.sessions ==> Gone(sys', o)
  {
    assert o in sys.sessions <==> o in sys'.sessions by {
      assert o in sys.sessions <==> o in sys.sessions.Keys + {s};
    }
    if o in sys.sessions {
      assert SessionOk(sys, o, sys.sessions[o]);
    } else {
      assert Gone(sys, o);
    }
  }

  lemma OneSessionMoves(sys: System, sys': System, s: Session)
    requires Inv(sys) && OnlyTouches(sys, sys', s)
    requires s in sys'.sessions ==> SessionOk(sys', s, sys'.sessions[s])
    requires s !in sys'.sessions ==> Gone(sys', s)
    ensures Inv(sys')
  {
    forall o: Session
      ensures o in sys'.sessions ==> SessionOk(sys', o, sys'.sessions[o])
      ensures o !in sys'.sessions ==> Gone(sys', o)
    {
      if o != s { OthersStayOk(sys, sys', s, o); }
    }
  }

  // Another session's take never makes a refused lock available.
  lemma TakeKeepsRefusals(hs: Holds, s: Session, k: Key, shared: bool)
    requires WellFormed(hs)
    ensures RefusalsStand(hs, TryLock(hs, s, k, shared).0, s)
  {
    forall o: Session, k', m | o != s && !CanTake(Get(hs, k'), o, m)
      ensures !CanTake(Get(TryLock(hs, s, k, shared).0, k'), o, m)
    {
      if k == k' && CanTake(Get(hs, k), s, shared) && !m {
        var h := hs[k];
        if x :| x in h.shared && x != o {
          assert x in Take(h, s, shared).shared;
        }
      }
    }
  }

  lemma TxCountAppend(hs: seq<TxHold>, h: TxHold)
    ensures multiset(hs + [h]) == multiset(hs) + multiset{h}
  {
  }

  lemma TxCountTail(hs: seq<TxHold>)
    requires hs != []
    ensures multiset(hs) == multiset{hs[0]} + multiset(hs[1..])
  {
    assert hs == [hs[0]] + hs[1..];
  }

  // -- Each event keeps the invariant --------------------------------------------------

  // hs' is hs with one more grant.
  ghost predicate OneMore(hs: Holds, hs': Holds, gr: Grant) {
    forall g: Grant :: Count(hs', g) == Count(hs, g) + (if g == gr then 1 else 0)
  }

  lemma TakeSessionOk(sys: System, hs: Holds, s: Session, t: Sess, k: Key, shared: bool, xact: bool)
    requires SessionOk(sys, s, t) && (t.pc.Ready? || t.pc.Trying?) && WellFormed(sys.holds)
    requires OneMore(sys.holds, hs, Grant(s, k, shared))
    ensures SessionOk(TakeStep(sys, hs, s, t, k, shared, xact), s, t.(pc := if xact then Granted(k, shared) else Ready))
  {
  }

  lemma TakeStepOk(sys: System, s: Session, k: Key, shared: bool, xact: bool)
    requires Inv(sys) && s in sys.sessions && (sys.sessions[s].pc.Ready? || sys.sessions[s].pc.Trying?)
    requires TryLock(sys.holds, s, k, shared).1
    ensures Inv(TakeStep(sys, TryLock(sys.holds, s, k, shared).0, s, sys.sessions[s], k, shared, xact))
  {
    var t, hs := sys.sessions[s], TryLock(sys.holds, s, k, shared).0;
    TryCounts(sys.holds, s, k, shared);
    TakeKeepsRefusals(sys.holds, s, k, shared);
    TakeSessionOk(sys, hs, s, t, k, shared, xact);
    OneSessionMoves(sys, TakeStep(sys, hs, s, t, k, shared, xact), s);
  }

  // An event that moves only the session's own goroutine.
  lemma LocalStepOk(sys: System, s: Session, t: Sess)
    requires Inv(sys)
    requires s in sys.sessions || Gone(sys, s)
    requires SessionOk(sys, s, t)
    ensures Inv(With(sys, s, t))
  {
    var sys' := With(sys, s, t);
    assert SessionOk(sys', s, t) by {
      assert Balanced(sys', s, t);
    }
    assert RefusalsStand(sys.holds, sys'.holds, s);
    OneSessionMoves(sys, sys', s);
  }

  // hs' is hs with one grant fewer, or just hs when the grant was not there.
  ghost predicate OneFewer(hs: Holds, hs': Holds, ok: bool, gr: Grant) {
    && (ok <==> Count(hs, gr) > 0)
    && forall g: Grant :: Count(hs', g) == Count(hs, g) - (if ok && g == gr then 1 else 0)
  }

  ghost predicate NotWaiting(t: Sess) {
    && !t.pc.Trying? && !t.pc.Blocked?
    && (!t.inTx && !t.pc.Ending? ==> t.txAdvisory == [])
    && (t.pc.Ending? ==> !t.inTx)
  }

  // An event that calls unlockAdvisory once, leaving the session at t with this ledger.
  lemma UnlockStepOk(sys: System, s: Session, k: Key, shared: bool, t: Sess, ledger: map<Grant, int>)
    requires Inv(sys) && s in sys.sessions
    requires forall gr: Grant | gr.session != s :: Owed(sys.(ledger := ledger), gr) == Owed(sys, gr)
    requires Balanced(With(UnlockStep(sys, s, k, shared).0, s, t).(ledger := ledger), s, t) && NotWaiting(t)
    ensures Inv(With(UnlockStep(sys, s, k, shared).0, s, t).(ledger := ledger))
  {
    UnlockCounts(sys.holds, s, k, shared);
    OneSessionMoves(sys, With(UnlockStep(sys, s, k, shared).0, s, t).(ledger := ledger), s);
  }

  // Outside a transaction the statement is the transaction: its lock goes at once.
  lemma GrantedFalls(sys: System, sys': System, s: Session, t: Sess, ok: bool)
    requires SessionOk(sys, s, t) && t.pc.Granted? && !t.inTx
    requires OneFewer(sys.holds, sys'.holds, ok, Grant(s, t.pc.key, t.pc.shared)) && sys'.ledger == sys.ledger
    ensures Balanced(sys', s, t.(pc := Ready))
  {
  }

  lemma EndingFalls(sys: System, sys': System, s: Session, t: Sess, ok: bool)
    requires SessionOk(sys, s, t) && t.pc.Ending? && t.pc.rest != [] && WellFormed(sys.holds)
    requires OneFewer(sys.holds, sys'.holds, ok, Grant(s, t.pc.rest[0].key, t.pc.rest[0].shared))
    requires sys'.ledger == sys.ledger
    ensures Balanced(sys', s, t.(pc := Ending(t.pc.rest[1..])))
  {
    TxCountTail(t.pc.rest);
    forall k: Key, m: bool
      ensures Count(sys'.holds, Grant(s, k, m))
           == Expected(t.(pc := Ending(t.pc.rest[1..])), k, m, Owed(sys', Grant(s, k, m)))
    {
      assert Count(sys.holds, Grant(s, k, m)) == Expected(t, k, m, Owed(sys, Grant(s, k, m)));
    }
  }

  lemma UnlockCallBalances(sys: System, sys': System, s: Session, t: Sess, ok: bool, gr: Grant)
    requires SessionOk(sys, s, t) && t.pc.Ready? && gr.session == s
    requires OneFewer(sys.holds, sys'.holds, ok, gr)
    requires forall g: Grant :: Owed(sys', g) == Owed(sys, g) - (if ok && g == gr then 1 else 0)
    ensures Balanced(sys', s, t)
  {
  }

  lemma ReleaseAllOk(sys: System, s: Session, t: Sess)
    requires Inv(sys) && s in sys.sessions && t.txAdvisory == [] && (t.pc.Ready? || t.pc.Closing?)
    ensures Inv(With(sys, s, t)
                .(holds := ReleaseAll(sys.holds, s), released := sys.released + 1, ledger := Cleared(sys.ledger, s)))
  {
    var sys' := With(sys, s, t)
                .(holds := ReleaseAll(sys.holds, s), released := sys.released + 1, ledger := Cleared(sys.ledger, s));
    ReleaseAllCounts(sys.holds, s);
    assert Balanced(sys', s, t);
    OneSessionMoves(sys, sys', s);
  }

  // When the last transaction-level lock is let go, what is left is the session-level ones.
  lemma EndingSettles(sys: System, s: Session, t: Sess)
    requires Inv(sys) && s in sys.sessions && sys.sessions[s] == t && t.pc == Ending([])
    ensures Inv(With(sys, s, t.(pc := Ready, txAdvisory := [])).(ledger := Settled(sys.ledger, s)))
  {
    var sys' := With(sys, s, t.(pc := Ready, txAdvisory := [])).(ledger := Settled(sys.ledger, s));
    assert SessionOk(sys, s, t);
    forall k: Key, m: bool
      ensures Count(sys'.holds, Grant(s, k, m)) == Owed(sys', Grant(s, k, m))
    {
      assert Count(sys.holds, Grant(s, k, m)) == Expected(t, k, m, Owed(sys, Grant(s, k, m)));
    }
    assert Balanced(sys', s, t.(pc := Ready, txAdvisory := []));
    OneSessionMoves(sys, sys', s);
  }

  lemma HoldForTxOk(sys: System, s: Session)
    requires Inv(sys) && Enabled(sys, HoldForTx(s))
    ensures Inv(Step(sys, HoldForTx(s)))
  {
    var t := sys.sessions[s];
    assert SessionOk(sys, s, t);
    if t.inTx {
      TxCountAppend(t.txAdvisory, TxHold(t.pc.key, t.pc.shared));
      LocalStepOk(sys, s, t.(pc := Ready, txAdvisory := t.txAdvisory + [TxHold(t.pc.key, t.pc.shared)]));
    } else {
      var (sys1, ok) := UnlockStep(sys, s, t.pc.key, t.pc.shared);
      UnlockCounts(sys.holds, s, t.pc.key, t.pc.shared);
      var sys' := With(sys1, s, t.(pc := Ready));
      GrantedFalls(sys, sys', s, t, ok);
      UnlockStepOk(sys, s, t.pc.key, t.pc.shared, t.(pc := Ready), sys.ledger);
      assert sys' == sys'.(ledger := sys.ledger);
    }
  }

  lemma UnlockCallOk(sys: System, s: Session, k: Key, shared: bool)
    requires Inv(sys) && Enabled(sys, UnlockCall(s, k, shared))
    ensures Inv(Step(sys, UnlockCall(s, k, shared)))
  {
    var t := sys.sessions[s];
    var gr := Grant(s, k, shared);
    var sys' := Step(sys, UnlockCall(s, k, shared));
    var ok := UnlockStep(sys, s, k, shared).1;
    UnlockCounts(sys.holds, s, k, shared);
    UnlockCallBalances(sys, sys', s, t, ok, gr);
    assert sys'.sessions == sys.sessions[s := t];
    OneSessionMoves(sys, sys', s);
  }

  lemma ReleaseNextOk(sys: System, s: Session)
    requires Inv(sys) && Enabled(sys, ReleaseNext(s))
    ensures Inv(Step(sys, ReleaseNext(s)))
  {
    var t := sys.sessions[s];
    assert SessionOk(sys, s, t);
    if t.pc.rest == [] {
      EndingSettles(sys, s, t);
    } else {
      var h := t.pc.rest[0];
      var (sys1, ok) := UnlockStep(sys, s, h.key, h.shared);
      UnlockCounts(sys.holds, s, h.key, h.shared);
      var t' := t.(pc := Ending(t.pc.rest[1..]));
      var sys' := With(sys1, s, t');
      EndingFalls(sys, sys', s, t, ok);
      UnlockStepOk(sys, s, h.key, h.shared, t', sys.ledger);
      assert sys' == sys'.(ledger := sys.ledger);
    }
  }

  lemma TryCallOk(sys: System, e: Event)
    requires Inv(sys) && Enabled(sys, e) && e.TryCall?
    ensures Inv(Step(sys, e))
  {
    if TryLock(sys.holds, e.s, e.key, e.shared).1 { TakeStepOk(sys, e.s, e.key, e.shared, e.xact); }
  }

  lemma WaitTryOk(sys: System, s: Session)
    requires Inv(sys) && Enabled(sys, WaitTry(s))
    ensures Inv(Step(sys, WaitTry(s)))
  {
    var t := sys.sessions[s];
    if TryLock(sys.holds, s, t.pc.key, t.pc.shared).1 {
      TakeStepOk(sys, s, t.pc.key, t.pc.shared, t.pc.xact);
    } else {
      RefusedOk(sys, s, t);
    }
  }

  lemma RefusedOk(sys: System, s: Session, t: Sess)
    requires Inv(sys) && s in sys.sessions && t == sys.sessions[s] && t.pc.Trying?
    requires !TryLock(sys.holds, s, t.pc.key, t.pc.shared).1
    ensures Inv(With(sys, s, t.(pc := Blocked(t.pc.gen, t.pc.key, t.pc.shared, t.pc.xact))))
  {
    assert SessionOk(sys, s, t);
    LocalStepOk(sys, s, t.(pc := Blocked(t.pc.gen, t.pc.key, t.pc.shared, t.pc.xact)));
  }

  lemma FinishCloseOk(sys: System, s: Session)
    requires Inv(sys) && Enabled(sys, FinishClose(s))
    ensures Inv(Step(sys, FinishClose(s)))
  {
    assert SessionOk(sys, s, sys.sessions[s]);
    OneSessionMoves(sys, Step(sys, FinishClose(s)), s);
  }

  lemma StepKeepsInv(sys: System, e: Event)
    requires Inv(sys) && Enabled(sys, e)
    ensures Inv(Step(sys, e))
  {
    match e
    case TryCall(_, _, _, _) => TryCallOk(sys, e);
    case WaitTry(s) => WaitTryOk(sys, s);
    case HoldForTx(s) => HoldForTxOk(sys, s);
    case UnlockCall(s, k, shared) => UnlockCallOk(sys, s, k, shared);
    case ReleaseNext(s) => ReleaseNextOk(sys, s);
    case UnlockAllCall(s) => ReleaseAllOk(sys, s, sys.sessions[s].(txAdvisory := []));
    case Disconnect(s) => ReleaseAllOk(sys, s, sys.sessions[s].(pc := Closing, txAdvisory := []));
    case FinishClose(s) => FinishCloseOk(sys, s);
    case _ => QuietStepOk(sys, e);
  }

  lemma QuietStepOk(sys: System, e: Event)
    requires Inv(sys) && Enabled(sys, e)
    requires e.Connect? || e.WaitCall? || e.Wake? || e.Cancel? || e.Begin? || e.EndTx?
    ensures Inv(Step(sys, e))
  {
    var t := if e.Connect? then Sess(Ready, false, []) else Step(sys, e).sessions[e.s];
    if !e.Connect? {
      assert SessionOk(sys, e.s, sys.sessions[e.s]);
      forall gr: Grant ensures Count(sys.holds, gr) >= 0 { CountNonNegative(sys.holds, gr); }
    }
    assert SessionOk(sys, e.s, t);
    LocalStepOk(sys, e.s, t);
  }

  lemma {:induction false} RunKeepsInv(from: System, events: seq<Event>, to: System)
    requires Inv(from) && Run(from, events, to)
    ensures Inv(to)
    decreases |events|
  {
    if events != [] {
      StepKeepsInv(from, events[0]);
      RunKeepsInv(Step(from, events[0]), events[1..], to);
    }
  }

  lemma ReachableInv(sys: System)
    requires Reachable(sys)
    ensures Inv(sys)
  {
    var events :| Run(INITIAL, events, sys);
    assert Inv(INITIAL);
    RunKeepsInv(INITIAL, events, sys);
  }
}
