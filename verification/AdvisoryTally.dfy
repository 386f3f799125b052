/**
 What a session holds, counted from the events of a run alone: its session-level takes, its explicit
 unlocks, and the locks of its open transaction (protocol/postgres/advisory.go, endTx in
 protocol/postgres/extended.go).
 */
module AdvisoryTally {
  import opened Options
  import opened AdvisoryGrants
  import opened AdvisorySystem
  import opened AdvisoryTheorems

  // What the events of a run show of one grant since the session last released everything: its
  // session-level takes minus its explicit unlocks; how much of a deficit transaction ends have made
  // up, by finding fewer holds than they meant to let go of; whether an end has found the balance
  // of takes and unlocks negative; how often the open transaction has taken it; whether a transaction
  // is open; and what the last lock call asked for.
  datatype Ask = Ask(key: Key, shared: bool, xact: bool)

  datatype Tally = Tally(net: int, forgiven: int, short: bool, tx: int, open: bool, asked: Option<Ask>)

  const NOTHING := Tally(0, 0, false, 0, false, None)

  // The call whose lock this step tries for: one that only tries, or the waiting one under way.
  function AskOf(e: Event, t: Tally): Option<Ask> {
    match e
    case TryCall(_, k, shared, xact) => Some(Ask(k, shared, xact))
    case WaitTry(_) => t.asked
    case _ => None
  }

  // The step takes the lock, at that level.
  predicate Takes(sys: System, e: Event, gr: Grant, xact: bool, t: Tally) {
    e.s == gr.session && AskOf(e, t) == Some(Ask(gr.key, gr.shared, xact))
    && TryLock(sys.holds, e.s, gr.key, gr.shared).1
  }

  predicate Unlocks(sys: System, e: Event, gr: Grant) {
    e == UnlockCall(gr.session, gr.key, gr.shared) && Unlock(sys.holds, gr.session, gr.key, gr.shared).1
  }

  function TallyAfter(sys: System, e: Event, gr: Grant, t: Tally): Tally {
    if e.s != gr.session then t
    else if Takes(sys, e, gr, false, t) then t.(net := t.net + 1)
    else if Takes(sys, e, gr, true, t) then t.(tx := t.tx + 1)
    else if Unlocks(sys, e, gr) then t.(net := t.net - 1)
    else
      match e
      case WaitCall(_, k, shared, xact) => t.(asked := Some(Ask(k, shared, xact)))
      case HoldForTx(_) => if t.open then t else t.(tx := 0)
      case Begin(_) => t.(open := true)
      case EndTx(_) =>
        Tally(t.net, t.forgiven + Max(0, -(t.net + t.forgiven)), t.short || t.net < 0, 0, false, t.asked)
      case UnlockAllCall(_) => NOTHING.(open := t.open)
      case Disconnect(_) => NOTHING
      case _ => t
  }

  function TallyOf(from: System, events: seq<Event>, gr: Grant, t: Tally): Tally
    decreases |events|
  {
    if events == [] || !Enabled(from, events[0]) then t
    else TallyOf(Step(from, events[0]), events[1..], gr, TallyAfter(from, events[0], gr, t))
  }

  // Deficits are made up exactly where an end finds a negative balance.
  ghost predicate TallyOk(t: Tally) { t.forgiven >= 0 && (t.forgiven > 0 <==> t.short) }

  // How often the open transaction holds the lock, noted for its end or about to be.
  function HeldForTx(t: Sess, gr: Grant): int {
    TxCount(t.txAdvisory, gr.key, gr.shared) + (if t.pc == Granted(gr.key, gr.shared) then 1 else 0)
  }

  // What the events show of a connected session is so.
  ghost predicate Follows(t: Sess, gr: Grant, y: Tally) {
    && (t.inTx <==> y.open)
    && (t.pc.Trying? || t.pc.Blocked? ==> y.asked == Some(Ask(t.pc.key, t.pc.shared, t.pc.xact)))
    && y.tx == if t.pc.Ending? then 0 else HeldForTx(t, gr)
  }

  // Session-level holds, as the state machine keeps count of them, are the balance and what has
  // been made up, or will be when the end that is under way is through.
  ghost predicate Accounts(sys: System, gr: Grant, y: Tally) {
    && TallyOk(y)
    && (if gr.session in sys.sessions && !sys.sessions[gr.session].pc.Closing? then
          var t := sys.sessions[gr.session];
          && Follows(t, gr, y)
          && y.net + y.forgiven == (if t.pc.Ending? then Max(0, Owed(sys, gr)) else Owed(sys, gr))
        else y == NOTHING)
  }

  lemma StepAccounts(sys: System, e: Event, gr: Grant, y: Tally)
    requires Inv(sys) && Enabled(sys, e) && Accounts(sys, gr, y)
    ensures Accounts(Step(sys, e), gr, TallyAfter(sys, e, gr, y))
  {
    if e.s != gr.session {
      StepLeavesOthers(sys, e, gr.session);
    } else {
      match e
      case TryCall(_, _, _, _) => TryAccounts(sys, e, gr, y);
      case WaitTry(_) => WaitAccounts(sys, e, gr, y);
      case HoldForTx(_) => HoldAccounts(sys, e, gr, y);
      case UnlockCall(_, _, _) => UnlockAccounts(sys, e, gr, y);
      case EndTx(_) => EndAccounts(sys, e, gr, y);
      case ReleaseNext(_) => ReleaseAccounts(sys, e, gr, y);
      case _ => OtherAccounts(sys, e, gr, y);
    }
  }

  // A take of the session, trying or waiting.
  lemma TakeAccounts(sys: System, hs: Holds, gr: Grant, y: Tally, k: Key, shared: bool, xact: bool)
    requires gr.session in sys.sessions && Accounts(sys, gr, y)
    requires sys.sessions[gr.session].pc.Ready? || sys.sessions[gr.session].pc.Trying?
    ensures Accounts(TakeStep(sys, hs, gr.session, sys.sessions[gr.session], k, shared, xact), gr,
                     if gr != Grant(gr.session, k, shared) then y
                     else if xact then y.(tx := y.tx + 1) else y.(net := y.net + 1))
  {
  }

  lemma TryAccounts(sys: System, e: Event, gr: Grant, y: Tally)
    requires Enabled(sys, e) && e.TryCall? && e.s == gr.session && Accounts(sys, gr, y)
    ensures Accounts(Step(sys, e), gr, TallyAfter(sys, e, gr, y))
  {
    TakeAccounts(sys, TryLock(sys.holds, e.s, e.key, e.shared).0, gr, y, e.key, e.shared, e.xact);
  }

  lemma WaitTally(sys: System, e: Event, gr: Grant, y: Tally, k: Key, shared: bool, xact: bool)
    requires e.WaitTry? && e.s == gr.session && y.asked == Some(Ask(k, shared, xact))
    ensures TallyAfter(sys, e, gr, y) ==
      if !TryLock(sys.holds, e.s, k, shared).1 || gr != Grant(gr.session, k, shared) then y
      else if xact then y.(tx := y.tx + 1) else y.(net := y.net + 1)
  {
  }

  lemma WaitAccounts(sys: System, e: Event, gr: Grant, y: Tally)
    requires Enabled(sys, e) && e.WaitTry? && e.s == gr.session && Accounts(sys, gr, y)
    ensures Accounts(Step(sys, e), gr, TallyAfter(sys, e, gr, y))
  {
    var pc := sys.sessions[e.s].pc;
    WaitTally(sys, e, gr, y, pc.key, pc.shared, pc.xact);
    if TryLock(sys.holds, e.s, pc.key, pc.shared).1 {
      TakeAccounts(sys, TryLock(sys.holds, e.s, pc.key, pc.shared).0, gr, y, pc.key, pc.shared, pc.xact);
    } else {
      RefusalAccounts(sys, gr, y);
    }
  }

  lemma RefusalAccounts(sys: System, gr: Grant, y: Tally)
    requires gr.session in sys.sessions && Accounts(sys, gr, y) && sys.sessions[gr.session].pc.Trying?
    ensures var t := sys.sessions[gr.session];
            Accounts(With(sys, gr.session, t.(pc := Blocked(t.pc.gen, t.pc.key, t.pc.shared, t.pc.xact))), gr, y)
  {
  }

  lemma HoldAccounts(sys: System, e: Event, gr: Grant, y: Tally)
    requires Inv(sys) && Enabled(sys, e) && e.HoldForTx? && e.s == gr.session && Accounts(sys, gr, y)
    ensures Accounts(Step(sys, e), gr, TallyAfter(sys, e, gr, y))
  {
    var t := sys.sessions[e.s];
    assert SessionOk(sys, e.s, t);
    TxCountAppend(t.txAdvisory, TxHold(t.pc.key, t.pc.shared));
  }

  lemma UnlockAccounts(sys: System, e: Event, gr: Grant, y: Tally)
    requires Enabled(sys, e) && e.UnlockCall? && e.s == gr.session && Accounts(sys, gr, y)
    ensures Accounts(Step(sys, e), gr, TallyAfter(sys, e, gr, y))
  {
  }

  lemma EndAccounts(sys: System, e: Event, gr: Grant, y: Tally)
    requires Enabled(sys, e) && e.EndTx? && e.s == gr.session && Accounts(sys, gr, y)
    ensures Accounts(Step(sys, e), gr, TallyAfter(sys, e, gr, y))
  {
  }

  lemma ReleaseAccounts(sys: System, e: Event, gr: Grant, y: Tally)
    requires Enabled(sys, e) && e.ReleaseNext? && e.s == gr.session && Accounts(sys, gr, y)
    ensures Accounts(Step(sys, e), gr, TallyAfter(sys, e, gr, y))
  {
  }

  lemma OtherAccounts(sys: System, e: Event, gr: Grant, y: Tally)
    requires Inv(sys) && Enabled(sys, e) && e.s == gr.session && Accounts(sys, gr, y)
    requires !e.TryCall? && !e.WaitTry? && !e.HoldForTx? && !e.UnlockCall? && !e.EndTx? && !e.ReleaseNext?
    ensures Accounts(Step(sys, e), gr, TallyAfter(sys, e, gr, y))
  {
    if e.Connect? { assert Gone(sys, e.s); }
  }

  lemma {:induction false} RunAccounts(from: System, events: seq<Event>, to: System, gr: Grant, y: Tally)
    requires Inv(from) && Run(from, events, to) && Accounts(from, gr, y)
    ensures Inv(to) && Accounts(to, gr, TallyOf(from, events, gr, y))
    decreases |events|
  {
    if events != [] {
      StepAccounts(from, events[0], gr, y);
      StepKeepsInv(from, events[0]);
      RunAccounts(Step(from, events[0]), events[1..], to, gr, TallyAfter(from, events[0], gr, y));
    }
  }

  // In every run, but for the moments while a transaction of it is ending, a session holds the
  // session-level takes its events show minus its explicit unlocks, what earlier ends have made up,
  // and what its open transaction has taken.
  lemma CountedByEvents(events: seq<Event>, sys: System, gr: Grant)
    requires Run(INITIAL, events, sys)
    requires gr.session in sys.sessions ==> !sys.sessions[gr.session].pc.Ending?
    ensures var y := TallyOf(INITIAL, events, gr, NOTHING);
            TallyOk(y) && Count(sys.holds, gr) == y.net + y.forgiven + y.tx
  {
    assert Inv(INITIAL);
    RunAccounts(INITIAL, events, sys, gr, NOTHING);
    if gr.session in sys.sessions {
      assert SessionOk(sys, gr.session, sys.sessions[gr.session]);
    } else {
      assert Gone(sys, gr.session);
    }
  }

  // In every run, a session between calls and outside a transaction holds its session-level takes
  // minus its explicit unlocks and whatever earlier ends have made up: just the takes minus the
  // unlocks exactly when no transaction of it has ended, by commit or rollback, at a moment when
  // they were negative.
  lemma TransactionEndExactly(events: seq<Event>, sys: System, gr: Grant)
    requires Run(INITIAL, events, sys)
    requires gr.session in sys.sessions && sys.sessions[gr.session].pc.Ready?
    requires !TallyOf(INITIAL, events, gr, NOTHING).open
    ensures var y := TallyOf(INITIAL, events, gr, NOTHING);
            Count(sys.holds, gr) == y.net + y.forgiven && (Count(sys.holds, gr) == y.net <==> !y.short)
  {
    CountedByEvents(events, sys, gr);
    assert Inv(INITIAL);
    RunAccounts(INITIAL, events, sys, gr, NOTHING);
    assert SessionOk(sys, gr.session, sys.sessions[gr.session]);
  }

  // Explicit unlocks of the grant never exceed its session-level takes.
  ghost predicate Covered(from: System, events: seq<Event>, gr: Grant, y: Tally)
    decreases |events|
  {
    && y.net >= 0
    && (events != [] && Enabled(from, events[0]) ==>
          Covered(Step(from, events[0]), events[1..], gr, TallyAfter(from, events[0], gr, y)))
  }

  lemma {:induction false} CoveredNeverShort(from: System, events: seq<Event>, gr: Grant, y: Tally)
    requires Covered(from, events, gr, y) && !y.short
    ensures !TallyOf(from, events, gr, y).short
    decreases |events|
  {
    if events != [] && Enabled(from, events[0]) {
      CoveredNeverShort(Step(from, events[0]), events[1..], gr, TallyAfter(from, events[0], gr, y));
    }
  }

  // So in a run whose unlocks never exceed its takes, every transaction leaves the session-level
  // holds exactly.
  lemma TransactionLeavesSessionHolds(events: seq<Event>, sys: System, gr: Grant)
    requires Run(INITIAL, events, sys) && Covered(INITIAL, events, gr, NOTHING)
    requires gr.session in sys.sessions && sys.sessions[gr.session].pc.Ready?
    requires !TallyOf(INITIAL, events, gr, NOTHING).open
    ensures Count(sys.holds, gr) == TallyOf(INITIAL, events, gr, NOTHING).net
  {
    TransactionEndExactly(events, sys, gr);
    CoveredNeverShort(INITIAL, events, gr, NOTHING);
  }

  // While a transaction is open the session holds that balance and every lock the transaction took;
  // so until the commit or rollback has run these are all held, exactly when explicit unlocks have
  // not taken some of them away.
  lemma LocksOutliveTransaction(events: seq<Event>, sys: System, gr: Grant)
    requires Run(INITIAL, events, sys) && TallyOf(INITIAL, events, gr, NOTHING).open
    ensures var y := TallyOf(INITIAL, events, gr, NOTHING);
            && gr.session in sys.sessions && sys.sessions[gr.session].inTx
            && Count(sys.holds, gr) == y.net + y.forgiven + y.tx
            && (Count(sys.holds, gr) >= y.tx <==> y.net + y.forgiven >= 0)
  {
    assert Inv(INITIAL);
    RunAccounts(INITIAL, events, sys, gr, NOTHING);
    assert SessionOk(sys, gr.session, sys.sessions[gr.session]);
    CountedByEvents(events, sys, gr);
  }

  // -- A run that ends short -----------------------------------------------------------------

  lemma {:induction false} OneStepMore(from: System, events: seq<Event>, to: System, e: Event, gr: Grant, t: Tally)
    requires Run(from, events, to) && Enabled(to, e)
    ensures Run(from, events + [e], Step(to, e))
    ensures TallyOf(from, events + [e], gr, t) == TallyAfter(to, e, gr, TallyOf(from, events, gr, t))
    decreases |events|
  {
    var more := events + [e];
    if events != [] {
      assert more[0] == events[0] && more[1..] == events[1..] + [e];
      OneStepMore(Step(from, events[0]), events[1..], to, e, gr, TallyAfter(from, events[0], gr, t));
    } else {
      assert more[1..] == [];
    }
  }

  // A run so far, with the tally of one grant.
  lemma Go(events: seq<Event>, sys: System, e: Event, gr: Grant) returns (events': seq<Event>, sys': System)
    requires Run(INITIAL, events, sys) && Enabled(sys, e)
    ensures Run(INITIAL, events', sys') && sys' == Step(sys, e)
    ensures TallyOf(INITIAL, events', gr, NOTHING) == TallyAfter(sys, e, gr, TallyOf(INITIAL, events, gr, NOTHING))
  {
    OneStepMore(INITIAL, events, sys, e, gr, NOTHING);
    events', sys' := events + [e], Step(sys, e);
  }

  // The system with one session, and a run of it with this tally.
  function Alone(hs: Holds, released: nat, t: Sess, owed: map<Grant, int>): System {
    System(hs, released, map[0 := t], owed)
  }

  ghost predicate Gives(events: seq<Event>, sys: System, gr: Grant, t: Tally) {
    Run(INITIAL, events, sys) && TallyOf(INITIAL, events, gr, NOTHING) == t
  }

  // What the lock calls of a lone session do.
  lemma TakesAlone(k: Key, n: nat, t: Sess, owed: map<Grant, int>, xact: bool)
    requires t.pc.Ready?
    ensures Step(Alone(map[], n, t, owed), TryCall(0, k, false, xact)) ==
      Alone(map[k := Hold(Some(0), 1, map[])], n, t.(pc := if xact then Granted(k, false) else Ready),
            if xact then owed else owed[Grant(0, k, false) := Owed(Alone(map[], n, t, owed), Grant(0, k, false)) + 1])
    ensures TryLock(map[], 0, k, false).1
  {
    assert (map[0 := t])[0 := t] == map[0 := t];
  }

  lemma UnlocksAlone(k: Key, t: Sess)
    requires t.pc.Ready?
    ensures Unlock(map[k := Hold(Some(0), 1, map[])], 0, k, false) == (map[], true)
    ensures Step(Alone(map[k := Hold(Some(0), 1, map[])], 0, t, map[]), UnlockCall(0, k, false)) ==
      Alone(map[], 1, t, map[Grant(0, k, false) := -1])
  {
    assert map[k := Hold(Some(0), 1, map[])] - {k} == map[];
  }

  lemma Begun(k: Key) returns (events: seq<Event>)
    ensures Gives(events, Alone(map[], 0, Sess(Ready, true, []), map[]), Grant(0, k, false), NOTHING.(open := true))
  {
    var gr, sys := Grant(0, k, false), INITIAL;
    events, sys := Go([], sys, Connect(0), gr);
    assert sys == Alone(map[], 0, Sess(Ready, false, []), map[]);
    events, sys := Go(events, sys, Begin(0), gr);
    assert sys == Alone(map[], 0, Sess(Ready, true, []), map[]);
  }

  lemma TakenForTransaction(k: Key) returns (events: seq<Event>)
    ensures Gives(events, Alone(map[k := Hold(Some(0), 1, map[])], 0, Sess(Ready, true, [TxHold(k, false)]), map[]),
                  Grant(0, k, false), NOTHING.(tx := 1, open := true))
  {
    var gr, held := Grant(0, k, false), map[k := Hold(Some(0), 1, map[])];
    events := Begun(k);
    var sys := Alone(map[], 0, Sess(Ready, true, []), map[]);
    TakesAlone(k, 0, Sess(Ready, true, []), map[], true);
    events, sys := Go(events, sys, TryCall(0, k, false, true), gr);
    assert sys == Alone(held, 0, Sess(Granted(k, false), true, []), map[]);
    events, sys := Go(events, sys, HoldForTx(0), gr);
    assert [] + [TxHold(k, false)] == [TxHold(k, false)];
    assert sys.sessions == map[0 := Sess(Ready, true, [TxHold(k, false)])];
    assert sys == Alone(held, 0, Sess(Ready, true, [TxHold(k, false)]), map[]);
  }

  lemma UnlockedAndEnding(k: Key) returns (events: seq<Event>)
    ensures var gr, hold := Grant(0, k, false), TxHold(k, false);
            Gives(events, Alone(map[], 1, Sess(Ending([hold]), false, [hold]), map[gr := -1]),
                  gr, Tally(-1, 1, true, 0, false, None))
  {
    var gr, hold := Grant(0, k, false), TxHold(k, false);
    events := TakenForTransaction(k);
    UnlocksAlone(k, Sess(Ready, true, [hold]));
    var sys := Alone(map[k := Hold(Some(0), 1, map[])], 0, Sess(Ready, true, [hold]), map[]);
    events, sys := Go(events, sys, UnlockCall(0, k, false), gr);
    events, sys := Go(events, sys, EndTx(0), gr);
    assert sys == Alone(map[], 1, Sess(Ending([hold]), false, [hold]), map[gr := -1]);
  }

  lemma UnlockedAndEnded(k: Key) returns (events: seq<Event>)
    ensures Gives(events, Alone(map[], 1, Sess(Ready, false, []), map[Grant(0, k, false) := 0]),
                  Grant(0, k, false), Tally(-1, 1, true, 0, false, None))
  {
    var gr, hold := Grant(0, k, false), TxHold(k, false);
    events := UnlockedAndEnding(k);
    var sys := Alone(map[], 1, Sess(Ending([hold]), false, [hold]), map[gr := -1]);
    events, sys := Go(events, sys, ReleaseNext(0), gr);
    assert [hold][1..] == [] && Unlock(map[], 0, k, false) == (map[], false);
    assert sys == Alone(map[], 1, Sess(Ending([]), false, [hold]), map[gr := -1]);
    events, sys := Go(events, sys, ReleaseNext(0), gr);
    assert sys.ledger == Settled(map[gr := -1], 0) == map[gr := 0];
    assert sys.sessions == map[0 := Sess(Ready, false, [])];
    assert sys == Alone(map[], 1, Sess(Ready, false, []), map[gr := 0]);
  }

  // A session takes a lock for its transaction, unlocks it explicitly, and commits; then it takes
  // the lock at session level. Takes and unlocks balance, and yet it holds the lock.
  lemma UnlockedInTransaction(k: Key) returns (events: seq<Event>, sys: System)
    ensures Gives(events, sys, Grant(0, k, false), Tally(0, 1, true, 0, false, None))
    ensures 0 in sys.sessions && sys.sessions[0].pc.Ready? && !sys.sessions[0].inTx
    ensures Count(sys.holds, Grant(0, k, false)) == 1
  {
    var gr := Grant(0, k, false);
    events := UnlockedAndEnded(k);
    sys := Alone(map[], 1, Sess(Ready, false, []), map[gr := 0]);
    TakesAlone(k, 1, Sess(Ready, false, []), map[gr := 0], false);
    events, sys := Go(events, sys, TryCall(0, k, false, false), gr);
  }
}
