/**
 What every interleaving of lock calls, transaction ends and disconnections gives: no lost wake-up,
 calls that take what they asked for, and transactions that give back their own locks
 (protocol/postgres/advisory.go, endTx and the end of loop in protocol/postgres/extended.go).
 */
module AdvisoryTheorems {
  import opened AdvisoryGrants
  import opened AdvisorySystem

  // No lost wake-up: while its channel is open, a parked session's lock is not to be had.
  lemma NoLostWakeup(sys: System, s: Session)
    requires Reachable(sys) && s in sys.sessions && sys.sessions[s].pc.Blocked?
    requires !Enabled(sys, Wake(s))
    ensures !CanTake(Get(sys.holds, sys.sessions[s].pc.key), s, sys.sessions[s].pc.shared)
  {
    ReachableInv(sys);
    assert SessionOk(sys, s, sys.sessions[s]);
  }

  // So a parked session whose lock has come free gets it in its own next two steps.
  lemma FreedLockIsTaken(sys: System, s: Session)
    requires Reachable(sys) && s in sys.sessions && sys.sessions[s].pc.Blocked?
    requires CanTake(Get(sys.holds, sys.sessions[s].pc.key), s, sys.sessions[s].pc.shared)
    ensures Enabled(sys, Wake(s)) && Enabled(Step(sys, Wake(s)), WaitTry(s))
    ensures var pc := sys.sessions[s].pc;
            OneMore(sys.holds, Step(Step(sys, Wake(s)), WaitTry(s)).holds, Grant(s, pc.key, pc.shared))
  {
    if !Enabled(sys, Wake(s)) { NoLostWakeup(sys, s); }
    ReachableInv(sys);
    var pc := sys.sessions[s].pc;
    TryCounts(sys.holds, s, pc.key, pc.shared);
    assert Step(Step(sys, Wake(s)), WaitTry(s)).holds == TryLock(sys.holds, s, pc.key, pc.shared).0;
  }

  lemma HoldersExclude(sys: System, k: Key, holder: Session, other: Session, shared: bool)
    requires Reachable(sys) && holder != other
    requires Count(sys.holds, Grant(holder, k, false)) > 0
    ensures Count(sys.holds, Grant(other, k, shared)) == 0
  {
    ReachableInv(sys);
  }

  lemma StepReleases(sys: System, e: Event)
    requires Inv(sys) && Enabled(sys, e)
    ensures Step(sys, e).released >= sys.released
    ensures Step(sys, e).released == sys.released ==>
              forall gr: Grant :: Count(Step(sys, e).holds, gr) >= Count(sys.holds, gr)
  {
    match e
    case TryCall(s, k, shared, _) => TryCounts(sys.holds, s, k, shared);
    case WaitTry(s) => TryCounts(sys.holds, s, sys.sessions[s].pc.key, sys.sessions[s].pc.shared);
    case HoldForTx(s) => UnlockCounts(sys.holds, s, sys.sessions[s].pc.key, sys.sessions[s].pc.shared);
    case UnlockCall(s, k, shared) => UnlockCounts(sys.holds, s, k, shared);
    case ReleaseNext(s) =>
      var rest := sys.sessions[s].pc.rest;
      if rest != [] { UnlockCounts(sys.holds, s, rest[0].key, rest[0].shared); }
    case _ =>
  }

  // An open channel means no lock has been let go since it was read.
  lemma {:induction false} OpenChannelMeansNoRelease(from: System, events: seq<Event>, to: System, gr: Grant)
    requires Inv(from) && Run(from, events, to)
    ensures to.released >= from.released
    ensures to.released == from.released ==> Count(to.holds, gr) >= Count(from.holds, gr)
    decreases |events|
  {
    if events != [] {
      StepReleases(from, events[0]);
      StepKeepsInv(from, events[0]);
      OpenChannelMeansNoRelease(Step(from, events[0]), events[1..], to, gr);
    }
  }

  // -- What a lock call comes to -----------------------------------------------------------

  ghost predicate SameCounts(from: System, to: System, s: Session) {
    forall gr: Grant | gr.session == s :: Count(to.holds, gr) == Count(from.holds, gr)
  }

  lemma StepLeavesCounts(sys: System, e: Event, s: Session)
    requires Inv(sys) && Enabled(sys, e) && e.s != s
    ensures SameCounts(sys, Step(sys, e), s)
  {
    match e
    case TryCall(s, k, shared, _) => TryCounts(sys.holds, s, k, shared);
    case WaitTry(s) => TryCounts(sys.holds, s, sys.sessions[s].pc.key, sys.sessions[s].pc.shared);
    case HoldForTx(s) => UnlockCounts(sys.holds, s, sys.sessions[s].pc.key, sys.sessions[s].pc.shared);
    case UnlockCall(s, k, shared) => UnlockCounts(sys.holds, s, k, shared);
    case ReleaseNext(s) =>
      var rest := sys.sessions[s].pc.rest;
      if rest != [] { UnlockCounts(sys.holds, s, rest[0].key, rest[0].shared); }
    case UnlockAllCall(s) => ReleaseAllCounts(sys.holds, s);
    case Disconnect(s) => ReleaseAllCounts(sys.holds, s);
    case _ =>
  }

  lemma StepLeavesSessions(sys: System, e: Event, s: Session)
    requires Enabled(sys, e) && e.s != s
    ensures s in Step(sys, e).sessions <==> s in sys.sessions
    ensures s in sys.sessions ==> Step(sys, e).sessions[s] == sys.sessions[s]
    ensures forall gr: Grant | gr.session == s :: Owed(Step(sys, e), gr) == Owed(sys, gr)
  {
  }

  lemma StepLeavesOthers(sys: System, e: Event, s: Session)
    requires Inv(sys) && Enabled(sys, e) && e.s != s
    ensures s in Step(sys, e).sessions <==> s in sys.sessions
    ensures s in sys.sessions ==> Step(sys, e).sessions[s] == sys.sessions[s]
    ensures SameCounts(sys, Step(sys, e), s)
    ensures forall gr: Grant | gr.session == s :: Owed(Step(sys, e), gr) == Owed(sys, gr)
  {
    StepLeavesCounts(sys, e, s);
    StepLeavesSessions(sys, e, s);
  }

  lemma {:induction false} OthersLeaveSession(sys: System, events: seq<Event>, to: System, s: Session)
    requires Inv(sys) && Run(sys, events, to) && s in sys.sessions && forall e <- events :: e.s != s
    ensures s in to.sessions && to.sessions[s] == sys.sessions[s]
    decreases |events|
  {
    if events != [] {
      assert events[0] in events;
      StepLeavesSessions(sys, events[0], s);
      StepKeepsInv(sys, events[0]);
      OthersLeaveSession(Step(sys, events[0]), events[1..], to, s);
    }
  }

  // A session that has woken and is refused again is parked until there is another release.
  lemma RefusedParksAgain(sys: System, s: Session, events: seq<Event>, to: System)
    requires Inv(sys) && Enabled(sys, Wake(s)) && Run(Step(sys, Wake(s)), events, to)
    requires (forall e <- events :: e.s != s) && Enabled(to, WaitTry(s))
    requires !TryLock(to.holds, s, sys.sessions[s].pc.key, sys.sessions[s].pc.shared).1
    ensures Enabled(Step(to, WaitTry(s)), Wake(s)) <==> to.released != sys.released
  {
    StepKeepsInv(sys, Wake(s));
    OthersLeaveSession(Step(sys, Wake(s)), events, to, s);
  }

  // Of the session itself, nothing but the tries and wake-ups of a call that waits.
  ghost predicate OnlyWaits(events: seq<Event>, s: Session) {
    forall e <- events | e.s == s :: e.WaitTry? || e.Wake?
  }

  ghost predicate OneMoreOf(from: System, to: System, gr: Grant) {
    forall g: Grant | g.session == gr.session ::
      Count(to.holds, g) == Count(from.holds, g) + (if g == gr then 1 else 0)
  }

  predicate Asks(pc: Pc, k: Key, shared: bool, xact: bool) {
    (pc.Trying? || pc.Blocked?) && pc.key == k && pc.shared == shared && pc.xact == xact
  }

  // A call of s made in `from` still waits in `to`, for just what it asked.
  ghost predicate StillWaits(from: System, to: System, s: Session, k: Key, shared: bool, xact: bool)
    requires s in from.sessions
  {
    && s in to.sessions && Asks(to.sessions[s].pc, k, shared, xact)
    && to.sessions[s].(pc := Ready) == from.sessions[s]
    && SameCounts(from, to, s)
  }

  // It has its lock: a transaction-level one is still to be recorded, a session-level call is done.
  ghost predicate HasTaken(from: System, to: System, s: Session, k: Key, shared: bool, xact: bool)
    requires s in from.sessions
  {
    && s in to.sessions && (Enabled(to, HoldForTx(s)) <==> xact)
    && to.sessions[s] == from.sessions[s].(pc := if xact then Granted(k, shared) else Ready)
    && OneMoreOf(from, to, Grant(s, k, shared))
  }

  lemma OthersKeepCall(from: System, sys: System, e: Event, s: Session, k: Key, shared: bool, xact: bool)
    requires s in from.sessions && Inv(sys) && Enabled(sys, e) && e.s != s
    ensures StillWaits(from, sys, s, k, shared, xact) ==> StillWaits(from, Step(sys, e), s, k, shared, xact)
    ensures HasTaken(from, sys, s, k, shared, xact) ==> HasTaken(from, Step(sys, e), s, k, shared, xact)
  {
    StepLeavesOthers(sys, e, s);
  }

  lemma TryGoesOn(from: System, sys: System, s: Session, k: Key, shared: bool, xact: bool)
    requires s in from.sessions && from.sessions[s].pc.Ready? && WellFormed(sys.holds)
    requires StillWaits(from, sys, s, k, shared, xact) && Enabled(sys, WaitTry(s))
    ensures if TryLock(sys.holds, s, k, shared).1 then HasTaken(from, Step(sys, WaitTry(s)), s, k, shared, xact)
            else StillWaits(from, Step(sys, WaitTry(s)), s, k, shared, xact)
  {
    TryCounts(sys.holds, s, k, shared);
  }

  lemma WaitStep(from: System, sys: System, e: Event, s: Session, k: Key, shared: bool, xact: bool)
    requires s in from.sessions && from.sessions[s].pc.Ready? && Inv(sys) && Enabled(sys, e)
    requires e.s == s ==> e.WaitTry? || e.Wake?
    requires StillWaits(from, sys, s, k, shared, xact) || HasTaken(from, sys, s, k, shared, xact)
    ensures var sys' := Step(sys, e);
            StillWaits(from, sys', s, k, shared, xact) || HasTaken(from, sys', s, k, shared, xact)
    ensures HasTaken(from, sys, s, k, shared, xact) ==> HasTaken(from, Step(sys, e), s, k, shared, xact)
  {
    if e.s != s {
      OthersKeepCall(from, sys, e, s, k, shared, xact);
    } else if e.WaitTry? {
      TryGoesOn(from, sys, s, k, shared, xact);
    }
  }

  lemma {:induction false} WaitRun(from: System, sys: System, events: seq<Event>, to: System,
                                   s: Session, k: Key, shared: bool, xact: bool)
    requires s in from.sessions && from.sessions[s].pc.Ready?
    requires Inv(sys) && Run(sys, events, to) && OnlyWaits(events, s)
    requires StillWaits(from, sys, s, k, shared, xact) || HasTaken(from, sys, s, k, shared, xact)
    ensures Inv(to)
    ensures StillWaits(from, to, s, k, shared, xact) || HasTaken(from, to, s, k, shared, xact)
    ensures HasTaken(from, sys, s, k, shared, xact) ==> HasTaken(from, to, s, k, shared, xact)
    decreases |events|
  {
    if events != [] {
      assert events[0] in events;
      WaitStep(from, sys, events[0], s, k, shared, xact);
      StepKeepsInv(sys, events[0]);
      WaitRun(from, Step(sys, events[0]), events[1..], to, s, k, shared, xact);
    }
  }

  // Whatever the others do, a waiting call either still waits for the lock, the mode and the level
  // it was called with, or has taken just that once.
  lemma WaitCallOutcome(from: System, s: Session, k: Key, shared: bool, xact: bool, events: seq<Event>, to: System)
    requires Reachable(from) && Enabled(from, WaitCall(s, k, shared, xact))
    requires Run(Step(from, WaitCall(s, k, shared, xact)), events, to) && OnlyWaits(events, s)
    ensures StillWaits(from, to, s, k, shared, xact) || HasTaken(from, to, s, k, shared, xact)
  {
    ReachableInv(from);
    StepKeepsInv(from, WaitCall(s, k, shared, xact));
    WaitRun(from, Step(from, WaitCall(s, k, shared, xact)), events, to, s, k, shared, xact);
  }

  // One that is cancelled leaves the session as it was before the call.
  lemma CancelledCall(from: System, s: Session, k: Key, shared: bool, xact: bool, events: seq<Event>, to: System)
    requires Reachable(from) && Enabled(from, WaitCall(s, k, shared, xact))
    requires Run(Step(from, WaitCall(s, k, shared, xact)), events, to) && OnlyWaits(events, s)
    requires Enabled(to, Cancel(s))
    ensures Step(to, Cancel(s)).sessions[s] == from.sessions[s] && SameCounts(from, Step(to, Cancel(s)), s)
  {
    WaitCallOutcome(from, s, k, shared, xact, events, to);
  }

  lemma CallBegins(from: System, e: Event)
    requires Inv(from) && (e.TryCall? || e.WaitCall?) && Enabled(from, e)
    requires e.TryCall? ==> CanTake(Get(from.holds, e.key), e.s, e.shared)
    ensures e.TryCall? ==> HasTaken(from, Step(from, e), e.s, e.key, e.shared, e.xact)
    ensures e.WaitCall? ==> StillWaits(from, Step(from, e), e.s, e.key, e.shared, e.xact)
  {
    if e.TryCall? { TryCounts(from.holds, e.s, e.key, e.shared); }
  }

  // A call that only tries takes the lock exactly when it can be had, and else changes nothing.
  lemma TryCallOutcome(from: System, s: Session, k: Key, shared: bool, xact: bool)
    requires Reachable(from) && Enabled(from, TryCall(s, k, shared, xact))
    ensures var to := Step(from, TryCall(s, k, shared, xact));
            if CanTake(Get(from.holds, k), s, shared) then HasTaken(from, to, s, k, shared, xact) else to == from
  {
    ReachableInv(from);
    if CanTake(Get(from.holds, k), s, shared) { CallBegins(from, TryCall(s, k, shared, xact)); }
  }

  // A lock call, by its own arguments, that has its lock when others have moved on too.
  ghost predicate CallTakes(from: System, e: Event, events: seq<Event>, to: System) {
    && (e.TryCall? || e.WaitCall?) && Enabled(from, e)
    && Run(Step(from, e), events, to) && OnlyWaits(events, e.s)
    && (e.TryCall? ==> CanTake(Get(from.holds, e.key), e.s, e.shared))
    && (e.WaitCall? ==> e.s in to.sessions && !Asks(to.sessions[e.s].pc, e.key, e.shared, e.xact))
  }

  lemma TakenByCall(from: System, e: Event, events: seq<Event>, to: System)
    requires Reachable(from) && CallTakes(from, e, events, to)
    ensures Inv(to) && HasTaken(from, to, e.s, e.key, e.shared, e.xact)
  {
    ReachableInv(from);
    StepKeepsInv(from, e);
    CallBegins(from, e);
    WaitRun(from, Step(from, e), events, to, e.s, e.key, e.shared, e.xact);
  }

  // Outside a transaction an _xact_ call that has taken its lock, waiting for it or not, leaves the
  // session as it found it once holdForTx has run.
  lemma XactCallOutsideTransaction(from: System, e: Event, events: seq<Event>, to: System)
    requires Reachable(from) && CallTakes(from, e, events, to) && e.xact && !from.sessions[e.s].inTx
    ensures Enabled(to, HoldForTx(e.s))
    ensures Step(to, HoldForTx(e.s)).sessions[e.s] == from.sessions[e.s]
    ensures SameCounts(from, Step(to, HoldForTx(e.s)), e.s)
  {
    TakenByCall(from, e, events, to);
    UnheldFalls(to, e.s);
  }

  lemma UnheldFalls(sys: System, s: Session)
    requires Inv(sys) && s in sys.sessions && sys.sessions[s].pc.Granted? && !sys.sessions[s].inTx
    ensures Step(sys, HoldForTx(s)).sessions[s] == sys.sessions[s].(pc := Ready)
    ensures var pc := sys.sessions[s].pc;
            OneMore(Step(sys, HoldForTx(s)).holds, sys.holds, Grant(s, pc.key, pc.shared))
  {
    assert SessionOk(sys, s, sys.sessions[s]);
    UnlockCounts(sys.holds, s, sys.sessions[s].pc.key, sys.sessions[s].pc.shared);
  }

  // Inside one it keeps the lock, and notes it for the end.
  lemma XactCallInTransaction(from: System, e: Event, events: seq<Event>, to: System)
    requires Reachable(from) && CallTakes(from, e, events, to) && e.xact && from.sessions[e.s].inTx
    ensures Enabled(to, HoldForTx(e.s))
    ensures var t := from.sessions[e.s];
            Step(to, HoldForTx(e.s)).sessions[e.s]
            == t.(txAdvisory := t.txAdvisory + [TxHold(e.key, e.shared)])
    ensures OneMoreOf(from, Step(to, HoldForTx(e.s)), Grant(e.s, e.key, e.shared))
  {
    TakenByCall(from, e, events, to);
  }

  // -- Transactions ------------------------------------------------------------------------

  // A step that is no session-level lock call, no unlock, and no disconnection.
  predicate ForTransaction(e: Event) {
    match e
    case TryCall(_, _, _, xact) => xact
    case WaitCall(_, _, _, xact) => xact
    case UnlockCall(_, _, _) => false
    case UnlockAllCall(_) => false
    case Disconnect(_) => false
    case _ => true
  }

  // The session waits for nothing but transaction-level locks, and its session-level holds stay at o.
  ghost predicate KeepsLevel(sys: System, gr: Grant, o: int) {
    && gr.session in sys.sessions && !sys.sessions[gr.session].pc.Closing?
    && (var pc := sys.sessions[gr.session].pc; pc.Trying? || pc.Blocked? ==> pc.xact)
    && Max(0, Owed(sys, gr)) == Max(0, o)
  }

  lemma LevelStep(sys: System, e: Event, gr: Grant, o: int)
    requires Inv(sys) && Enabled(sys, e) && KeepsLevel(sys, gr, o)
    requires e.s == gr.session ==> ForTransaction(e)
    ensures KeepsLevel(Step(sys, e), gr, o)
  {
    if e.s != gr.session { StepLeavesOthers(sys, e, gr.session); }
  }

  lemma {:induction false} LevelRun(sys: System, events: seq<Event>, to: System, gr: Grant, o: int)
    requires Inv(sys) && Run(sys, events, to) && KeepsLevel(sys, gr, o)
    requires forall e <- events | e.s == gr.session :: ForTransaction(e)
    ensures Inv(to) && KeepsLevel(to, gr, o)
    decreases |events|
  {
    if events != [] {
      assert events[0] in events;
      LevelStep(sys, events[0], gr, o);
      StepKeepsInv(sys, events[0]);
      LevelRun(Step(sys, events[0]), events[1..], to, gr, o);
    }
  }

  // A session that takes locks for its transactions only, trying or waiting, has in the end, outside
  // a transaction, what it held in the beginning without the locks of the transaction it was then in.
  lemma TransactionsGiveBack(from: System, events: seq<Event>, to: System, s: Session, k: Key, m: bool)
    requires Reachable(from) && s in from.sessions && from.sessions[s].pc.Ready?
    requires Run(from, events, to) && forall e <- events | e.s == s :: ForTransaction(e)
    requires s in to.sessions && to.sessions[s].pc.Ready? && !to.sessions[s].inTx
    ensures var taken := TxCount(from.sessions[s].txAdvisory, k, m);
            && Count(to.holds, Grant(s, k, m)) == Max(0, Count(from.holds, Grant(s, k, m)) - taken)
            && (taken == 0 ==> Count(to.holds, Grant(s, k, m)) == Count(from.holds, Grant(s, k, m)))
  {
    ReachableInv(from);
    assert SessionOk(from, s, from.sessions[s]);
    var gr := Grant(s, k, m);
    LevelRun(from, events, to, gr, Owed(from, gr));
    assert SessionOk(to, s, to.sessions[s]);
    CountNonNegative(from.holds, gr);
    CountNonNegative(to.holds, gr);
  }

  // -- A connection that drops -----------------------------------------------------------------

  lemma CanTakeByCounts(hs: Holds, s: Session, k: Key, m: bool)
    requires WellFormed(hs)
    requires forall o: Session | o != s ::
      Count(hs, Grant(o, k, false)) == 0 && (m || Count(hs, Grant(o, k, true)) == 0)
    ensures CanTake(Get(hs, k), s, m)
  {
    if k in hs {
      var h := hs[k];
      assert h.exclusive.Some? ==> Count(hs, Grant(h.exclusive.value, k, false)) == h.exclCount;
      forall o <- h.shared.Keys ensures Count(hs, Grant(o, k, true)) == h.shared[o] {}
    }
  }

  // A connection that drops inside a transaction is the exception: a lock that only it kept from
  // another session can be taken while that transaction is still open, before its rollback.
  lemma DisconnectFreesBeforeRollback(sys: System, s: Session, other: Session, k: Key, m: bool)
    requires Reachable(sys) && Enabled(sys, Disconnect(s)) && sys.sessions[s].inTx && other != s
    requires forall o: Session | o != s && o != other ::
      Count(sys.holds, Grant(o, k, false)) == 0 && (m || Count(sys.holds, Grant(o, k, true)) == 0)
    ensures Step(sys, Disconnect(s)).sessions[s].inTx
    ensures TryLock(Step(sys, Disconnect(s)).holds, other, k, m).1
  {
    ReachableInv(sys);
    ReleaseAllCounts(sys.holds, s);
    CanTakeByCounts(Step(sys, Disconnect(s)).holds, other, k, m);
  }
}
