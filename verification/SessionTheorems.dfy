/**
 What holds of batches and of whole sessions: atomicity, aborted transactions, savepoints
 (protocol/postgres/multistatement.go, extended.go and utility.go).
 */
module SessionTheorems {
  import opened Options
  import opened SessionTx

  // -- Batches ---------------------------------------------------------------------------------

  // What the statements make of a store when each succeeds.
  ghost function Effects(s: Store, stmts: seq<Stmt>): Option<Store>
    decreases |stmts|
  {
    if stmts == [] then Some(s)
    else
      match stmts[0].kind
      case Blank => Effects(s, stmts[1..])
      case Other(effect, _, _) => if effect(s).ok then Effects(effect(s).store, stmts[1..]) else None
      case _ => None
  }

  // The statements of a batch before the first that fails, and that one.
  ghost predicate StopsAt(s: Store, stmts: seq<Stmt>, n: nat) {
    && 0 < n <= |stmts|
    && Effects(s, stmts[..n - 1]).Some?
    && Effects(s, stmts[..n]).None?
  }

  // A plain batch inside a transaction: the working copy holds every effect, or the batch stopped
  // at the first failure, or the connection went; the committed store is as it was.
  lemma {:induction false} PlainRun(c: Conn, stmts: seq<Stmt>)
    requires c.tx.Some? && !c.failed && Plain(stmts)
    ensures var r := RunAll(c, stmts);
            && r.conn.tx.Some? && r.conn.store == c.store && r.count <= |stmts|
            && (r.stopped ==> r.conn.errored) && (!r.lost && !r.stopped && stmts != [] ==> !r.conn.errored)
            && (!r.lost && !r.stopped ==>
                  !r.conn.failed && r.count == |stmts| && Effects(Now(c), stmts) == Some(Now(r.conn)))
            && (r.stopped ==> StopsAt(Now(c), stmts, r.count))
            && (r.lost ==> r.count > 0 && !stmts[r.count - 1].answered)
    decreases |stmts|
  {
    if stmts != [] {
      var c1 := RunStmt(c.(errored := false), stmts[0].kind);
      assert !ManagesTx(stmts[0].kind);
      if stmts[0].answered && !c1.errored {
        PlainRun(c1, stmts[1..]);
        var n := RunAll(c1, stmts[1..]).count;
        assert stmts[..n + 1][1..] == stmts[1..][..n];
        if n > 0 { assert stmts[..n][1..] == stmts[1..][..n - 1]; }
      } else {
        assert stmts[..1][1..] == [] && stmts[..0] == [];
      }
    }
  }

  // A batch that starts outside a transaction and leaves transactions alone has every effect or
  // none, runs nothing after its first error, leaves no transaction open, and tells the client of an
  // error just when it has none.
  lemma BatchIsAtomic(c: Conn, stmts: seq<Stmt>, beginOk: bool, endOk: bool, answered: bool)
    requires c.tx.None? && |stmts| >= 2 && Plain(stmts)
    ensures var a := HandleQuery(c, stmts, beginOk, endOk, answered);
            var all := Effects(c.store, stmts);
            && (a.lost || a.conn.tx.None?)
            && (!a.lost && AllAnswered(stmts) ==> (a.conn.errored <==> !(all.Some? && beginOk && endOk)))
            && Close(a.conn).tx.None?
            && Close(a.conn).store == (if all.Some? && beginOk && endOk && AllAnswered(stmts)
                                       then all.value else c.store)
            && (beginOk && RunAll(Begin(c), stmts).stopped ==>
                  StopsAt(c.store, stmts, RunAll(Begin(c), stmts).count))
  {
    var r := RunAll(Begin(c), stmts);
    PlainRun(Begin(c), stmts);
    LostWhenUnanswered(Begin(c), stmts);
    if r.stopped { NoEffects(c.store, stmts, r.count); }
  }

  lemma {:induction false} LostWhenUnanswered(c: Conn, stmts: seq<Stmt>)
    ensures var r := RunAll(c, stmts);
            !r.lost && !r.stopped ==> AllAnswered(stmts)
    ensures AllAnswered(stmts) ==> !RunAll(c, stmts).lost
    decreases |stmts|
  {
    if stmts != [] {
      LostWhenUnanswered(RunStmt(c.(errored := false), stmts[0].kind), stmts[1..]);
      assert stmts == [stmts[0]] + stmts[1..];
    }
  }

  lemma {:induction false} NoEffects(s: Store, stmts: seq<Stmt>, n: nat)
    requires n <= |stmts| && Effects(s, stmts[..n]).None?
    ensures Effects(s, stmts).None?
    decreases |stmts|
  {
    if n > 0 {
      assert stmts[..n][1..] == stmts[1..][..n - 1];
      match stmts[0].kind
      case Blank => NoEffects(s, stmts[1..], n - 1);
      case Other(effect, _, _) =>
        if effect(s).ok { NoEffects(effect(s).store, stmts[1..], n - 1); }
      case _ =>
    }
  }

  // -- Whole sessions ----------------------------------------------------------------------------

  datatype Message =
    | Query(stmts: seq<Stmt>, beginOk: bool, endOk: bool, answered: bool)
    | Execute(stmt: Stmt)
    | Sync

  // `skipping`: an extended cycle has failed, and its rest is passed over.
  datatype Session = Session(conn: Conn, skipping: bool, open: bool)

  function Handle(s: Session, m: Message): Session {
    if !s.open then s
    else
      match m
      case Query(stmts, beginOk, endOk, answered) =>
        var a := HandleQuery(s.conn, stmts, beginOk, endOk, answered);
        if a.lost then Session(Close(a.conn), false, false) else Session(a.conn, false, true)
      case Execute(stmt) =>
        if s.skipping then s
        else
          var c := RunStmt(s.conn.(errored := false), stmt.kind);
          if stmt.answered then Session(c, c.errored, true) else Session(Close(c), true, false)
      case Sync => s.(skipping := false)
  }

  function HandleAll(s: Session, ms: seq<Message>): Session
    decreases |ms|
  {
    if ms == [] then s else HandleAll(Handle(s, ms[0]), ms[1..])
  }

  // A transaction is aborted: marked, and neither recovered nor ended since.
  ghost predicate Aborted(log: seq<TxEvent>) { log != [] && log[|log| - 1].Marked? }

  ghost predicate InTx(log: seq<TxEvent>) {
    log != [] && !log[|log| - 1].Committed? && !log[|log| - 1].RolledBack?
  }

  // Nothing aborted is ever committed, and a transaction begins exactly outside one.
  ghost predicate Proper(log: seq<TxEvent>) {
    log == [] || (Proper(log[..|log| - 1]) && MayCome(log[..|log| - 1], log[|log| - 1]))
  }

  ghost predicate MayCome(before: seq<TxEvent>, e: TxEvent) {
    (e.Committed? ==> !Aborted(before)) && (e.Began? <==> !InTx(before))
  }

  lemma {:induction false} EachMayCome(log: seq<TxEvent>, i: nat)
    requires Proper(log) && i < |log|
    ensures MayCome(log[..i], log[i])
  {
    var before := log[..|log| - 1];
    if i < |before| {
      EachMayCome(before, i);
      assert before[..i] == log[..i] && before[i] == log[i];
    }
  }

  ghost predicate ConnOk(c: Conn) {
    && Proper(c.log)
    && (c.tx.Some? <==> InTx(c.log))
    && (c.failed <==> Aborted(c.log))
  }

  lemma OneEvent(log: seq<TxEvent>, e: TxEvent)
    requires Proper(log) && MayCome(log, e)
    ensures Proper(log + [e])
    ensures Aborted(log + [e]) == e.Marked? && InTx(log + [e]) == (!e.Committed? && !e.RolledBack?)
  {
    assert (log + [e])[..|log|] == log;
  }

  lemma EndTxKeeps(c: Conn, commit: bool, engineOk: bool)
    requires ConnOk(c)
    ensures var c' := EndTx(c, commit, engineOk);
            ConnOk(c') && c'.tx.None? && !c'.failed
  {
    if InTx(c.log) {
      OneEvent(c.log, RolledBack);
      if !Aborted(c.log) { OneEvent(c.log, Committed); }
    }
  }

  lemma MarkKeeps(c: Conn)
    requires ConnOk(c)
    ensures ConnOk(Mark(c))
  {
    if InTx(c.log) { OneEvent(c.log, Marked); }
  }

  lemma SaveKeeps(c: Conn, k: SaveKind, name: string)
    requires ConnOk(c)
    ensures ConnOk(TrySavepoint(c, k, name))
  {
    MarkKeeps(c);
    if InTx(c.log) { OneEvent(c.log, Recovered); }
  }

  lemma EffectKeeps(c: Conn, effect: Store -> Effected, guarded: bool, marks: bool)
    requires ConnOk(c)
    ensures ConnOk(RunEffect(c, effect, guarded, marks))
  {
    MarkKeeps(SetNow(c, effect(Now(c)).store));
  }

  lemma ControlKeeps(c: Conn, k: TxControl, engineOk: bool)
    requires ConnOk(c)
    ensures ConnOk(RunStmt(c, Control(k, engineOk)))
  {
    EndTxKeeps(c, k.COMMIT?, engineOk);
    if !InTx(c.log) { OneEvent(c.log, Began); }
  }

  lemma StmtKeeps(c: Conn, k: Kind)
    requires ConnOk(c)
    ensures ConnOk(RunStmt(c, k))
  {
    match k
    case Blank =>
    case Control(control, engineOk) => ControlKeeps(c, control, engineOk);
    case Save(save, name) => SaveKeeps(c, save, name);
    case Other(effect, guarded, marks) => EffectKeeps(c, effect, guarded, marks);
    case Database(effect, guarded, marks) => EffectKeeps(c, effect, guarded, marks);
  }

  lemma {:induction false} RunAllKeeps(c: Conn, stmts: seq<Stmt>)
    requires ConnOk(c)
    ensures ConnOk(RunAll(c, stmts).conn)
    decreases |stmts|
  {
    if stmts != [] {
      StmtKeeps(c.(errored := false), stmts[0].kind);
      RunAllKeeps(RunStmt(c.(errored := false), stmts[0].kind), stmts[1..]);
    }
  }

  lemma FinishKeeps(r: Ran, implicit: bool, endOk: bool, answered: bool)
    requires ConnOk(r.conn)
    ensures ConnOk(FinishBatch(r, implicit, endOk, answered).conn)
  {
    EndTxKeeps(r.conn, !r.stopped, endOk);
  }

  lemma BeginKeeps(c: Conn)
    requires ConnOk(c) && c.tx.None?
    ensures ConnOk(Begin(c))
  {
    OneEvent(c.log, Began);
  }

  lemma BatchKeeps(c: Conn, stmts: seq<Stmt>, implicit: bool, endOk: bool, answered: bool)
    requires ConnOk(c) && (implicit ==> c.tx.None?)
    ensures ConnOk(FinishBatch(RunAll(if implicit then Begin(c) else c, stmts), implicit, endOk, answered).conn)
  {
    if implicit { BeginKeeps(c); }
    var c0 := if implicit then Begin(c) else c;
    RunAllKeeps(c0, stmts);
    FinishKeeps(RunAll(c0, stmts), implicit, endOk, answered);
  }

  lemma QueryKeeps(c: Conn, stmts: seq<Stmt>, beginOk: bool, endOk: bool, answered: bool)
    requires ConnOk(c)
    ensures ConnOk(HandleQuery(c, stmts, beginOk, endOk, answered).conn)
  {
    if |stmts| == 1 {
      StmtKeeps(c, stmts[0].kind);
    } else if |stmts| > 1 {
      BatchKeeps(c, stmts, Implicit(c, stmts), endOk, answered);
    }
  }

  // In every session run: an aborted transaction is open; whatever is committed is not aborted; a
  // closed connection has nothing open.
  lemma {:induction false} SessionKeeps(s: Session, ms: seq<Message>)
    requires Proper(s.conn.log) && (s.open ==> ConnOk(s.conn)) && (!s.open ==> s.conn.tx.None?)
    ensures var s' := HandleAll(s, ms);
            && Proper(s'.conn.log)
            && (s'.open ==> ConnOk(s'.conn) && (s'.conn.failed ==> s'.conn.tx.Some?))
            && (!s'.open ==> s'.conn.tx.None?)
    decreases |ms|
  {
    if ms != [] {
      if s.open {
        match ms[0]
        case Query(stmts, beginOk, endOk, answered) => QueryKeeps(s.conn, stmts, beginOk, endOk, answered);
        case Execute(stmt) => StmtKeeps(s.conn.(errored := false), stmt.kind);
        case Sync =>
      }
      SessionKeeps(Handle(s, ms[0]), ms[1..]);
    }
  }

  // In every run from a new connection, between a mark and a later commit of the same transaction
  // a ROLLBACK TO succeeded.
  lemma CommittedAfterMark(ms: seq<Message>, i: nat, j: nat)
    requires var log := HandleAll(Session(FRESH, false, true), ms).conn.log;
             && i < j < |log| && log[i].Marked? && log[j].Committed?
             && forall k | i < k < j :: !log[k].Committed? && !log[k].RolledBack?
    ensures var log := HandleAll(Session(FRESH, false, true), ms).conn.log;
            exists k | i < k < j :: log[k].Recovered?
  {
    SessionKeeps(Session(FRESH, false, true), ms);
    LastRecovery(HandleAll(Session(FRESH, false, true), ms).conn.log, i, j);
  }

  lemma LastRecovery(log: seq<TxEvent>, i: nat, j: nat)
    requires Proper(log) && i < j < |log| && log[i].Marked? && log[j].Committed?
    requires forall k | i < k < j :: !log[k].Committed? && !log[k].RolledBack?
    ensures exists k | i < k < j :: log[k].Recovered?
  {
    EachMayCome(log, j);
    assert log[..j][j - 1] == log[j - 1] && !log[j - 1].Marked?;
    assert log[j - 1].Recovered? by {
      if log[j - 1].Began? { BeganAfterEnd(log, j - 1); }
    }
  }

  lemma BeganAfterEnd(log: seq<TxEvent>, k: nat)
    requires Proper(log) && 0 < k < |log| && log[k].Began?
    ensures log[k - 1].Committed? || log[k - 1].RolledBack?
  {
    EachMayCome(log, k);
    assert log[..k][k - 1] == log[k - 1];
  }

  // While a transaction is open nothing but COMMIT reaches the store.
  lemma OnlyCommitReachesStore(c: Conn, k: Kind)
    requires c.tx.Some?
    ensures RunStmt(c, k).store != c.store ==> k.Control? && k.control.COMMIT? && !c.failed
    ensures k.Control? && k.control.COMMIT? && k.engineOk ==>
        RunStmt(c, k).store == (if c.failed then c.store else Now(c)) && RunStmt(c, k).tx.None?
  {
  }

  // ROLLBACK TO undoes whatever plain statements did since the savepoint, failures included.
  lemma {:induction false} PlainKeepsSaves(c: Conn, stmts: seq<Stmt>)
    requires c.tx.Some? && Plain(stmts)
    ensures var c' := RunAll(c, stmts).conn;
            c'.tx.Some? && c'.tx.value.saves == c.tx.value.saves && c'.store == c.store
    decreases |stmts|
  {
    if stmts != [] {
      assert !ManagesTx(stmts[0].kind);
      PlainKeepsSaves(RunStmt(c.(errored := false), stmts[0].kind), stmts[1..]);
    }
  }

  lemma SavepointRestores(c: Conn, name: string, stmts: seq<Stmt>)
    requires c.tx.Some? && !c.failed && Plain(stmts)
    ensures var marked := RunStmt(c, Save(SAVEPOINT, name));
            var back := RunStmt(RunAll(marked, stmts).conn, Save(ROLLBACK_TO, name));
            back.tx.Some? && back.tx.value == marked.tx.value && Now(back) == Now(c) && !back.failed
  {
    var marked := RunStmt(c, Save(SAVEPOINT, name));
    PlainKeepsSaves(marked, stmts);
    var saves := marked.tx.value.saves;
    assert saves[..|saves|] == saves;
  }
}
