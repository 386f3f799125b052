/** The session's transaction fields, updated message by message, against the specification in SessionTx. */
module TxSession {
  import opened Options
  import opened SessionTx

  class TxState {
    var store: Store
    var tx: Option<Tx>
    var txFailed: bool
    var errored: bool
    ghost var log: seq<TxEvent>

    ghost function View(): Conn
      reads this
    {
      Conn(store, tx, txFailed, errored, log)
    }

    constructor ()
      ensures View() == FRESH
    {
      store, tx, txFailed, errored, log := map[], None, false, false, [];
    }

    // BEGIN, COMMIT or ROLLBACK; err when the engine refuses.
    method ApplyTxControl(k: TxControl, engineOk: bool) returns (err: bool)
      modifies this
      ensures View() == Apply(old(View()), k, engineOk) && err == ApplyFails(old(View()), k, engineOk)
    {
      match k {
        case BEGIN =>
          if tx.None? {
            if !engineOk { return true; }
            tx := Some(Tx(store, []));
            txFailed := false;
            log := log + [Began];
          }
          return false;
        case COMMIT => err := End(true, engineOk);
        case ROLLBACK => err := End(false, engineOk);
      }
    }

    // Commits or rolls back; a failed transaction rolls back even on COMMIT.
    method End(commit: bool, engineOk: bool) returns (err: bool)
      modifies this
      ensures View() == EndTx(old(View()), commit, engineOk) && err == (old(tx).Some? && !engineOk)
    {
      if tx.None? { return false; }
      var t := tx.value;
      tx := None;
      var wasFailed := txFailed;
      txFailed := false;
      if commit && !wasFailed {
        log := log + [Committed];
        if engineOk { store := t.work; }
      } else {
        log := log + [RolledBack];
      }
      return !engineOk;
    }

    method MarkFailed()
      modifies this
      ensures View() == Mark(old(View()))
    {
      if tx.Some? {
        txFailed := true;
        log := log + [Marked];
      }
    }

    method Savepoint(k: SaveKind, name: string)
      modifies this
      ensures View() == TrySavepoint(old(View()), k, name)
    {
      if tx.None? {
        errored := true;
        return;
      }
      if k.ROLLBACK_TO? {
        var t := SaveExec(tx.value, k, name);
        if t.None? {
          errored := true;
          return;
        }
        tx := t;
        txFailed := false;
        log := log + [Recovered];
        return;
      }
      if txFailed {
        errored := true;
        return;
      }
      var t := SaveExec(tx.value, k, name);
      if t.None? {
        MarkFailed();
        errored := true;
        return;
      }
      tx := t;
    }

    method Run(effect: Store -> Effected, guarded: bool, marks: bool)
      modifies this
      ensures View() == RunEffect(old(View()), effect, guarded, marks)
    {
      if guarded && tx.Some? && txFailed {
        errored := true;
        return;
      }
      var e := effect(if tx.Some? then tx.value.work else store);
      if tx.Some? {
        tx := Some(tx.value.(work := e.store));
      } else {
        store := e.store;
      }
      if !e.ok {
        if marks { MarkFailed(); }
        errored := true;
      }
    }

    method HandleSimpleQuery(st: Stmt) returns (lost: bool)
      modifies this
      ensures View() == RunStmt(old(View()), st.kind) && lost == !st.answered
    {
      match st.kind {
        case Blank =>
        case Control(k, engineOk) =>
          var err := ApplyTxControl(k, engineOk);
          if err {
            txFailed := tx.Some?;
            errored := true;
          }
        case Save(k, name) => Savepoint(k, name);
        case Other(effect, guarded, marks) => Run(effect, guarded, marks);
        case Database(effect, guarded, marks) => Run(effect, guarded, marks);
      }
      lost := !st.answered;
    }

    // Statement by statement, to the first error.
    method RunBatch(stmts: seq<Stmt>) returns (failed: bool, lost: bool, ghost count: nat)
      modifies this
      ensures Ran(View(), count, failed, lost) == RunAll(old(View()), stmts)
    {
      failed, lost, count := false, false, 0;
      for i := 0 to |stmts|
        invariant count == i && !failed && !lost
        invariant RunAll(old(View()), stmts) == Plus(i, RunAll(View(), stmts[i..]))
      {
        ghost var before := View();
        assert stmts[i..][0] == stmts[i] && stmts[i..][1..] == stmts[i + 1..];
        errored := false;
        lost := HandleSimpleQuery(stmts[i]);
        count := i + 1;
        if lost { return; }
        if errored {
          failed := true;
          return;
        }
      }
    }

    method HandleMessage(stmts: seq<Stmt>, beginOk: bool, endOk: bool, answered: bool) returns (lost: bool)
      modifies this
      ensures Answer(View(), lost) == HandleQuery(old(View()), stmts, beginOk, endOk, answered)
    {
      if |stmts| == 0 { return !answered; }
      if |stmts| == 1 {
        lost := HandleSimpleQuery(stmts[0]);
        return;
      }
      var implicit := tx.None?;
      for i := 0 to |stmts|
        invariant implicit <==> tx.None? && Plain(stmts[..i])
      {
        assert stmts[..i + 1] == stmts[..i] + [stmts[i]];
        if ManagesTx(stmts[i].kind) { implicit := false; }
      }
      assert stmts[..|stmts|] == stmts;
      if implicit {
        var err := ApplyTxControl(BEGIN, beginOk);
        if err {
          errored := true;
          return !answered;
        }
      }
      var failed;
      ghost var count;
      failed, lost, count := RunBatch(stmts);
      if lost { return; }
      if implicit && tx.Some? {
        var err := End(!failed, endOk);
        if err && !failed {
          errored := true;
          return !answered;
        }
      }
    }
  }

  ghost function Plus(n: nat, r: Ran): Ran { r.(count := n + r.count) }
}
