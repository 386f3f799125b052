/**
 What Query messages of one statement each come to, outside a transaction and between BEGIN and
 COMMIT or ROLLBACK, and a batch that manages transactions itself (handleQuery in
 protocol/postgres/multistatement.go, handleSimpleQuery in protocol/postgres/postgres.go).
 */
module SessionMessages {
  import opened Options
  import opened SessionTx
  import opened SessionTheorems

  // One message for each statement.
  ghost function Singly(stmts: seq<Stmt>): seq<Message>
    decreases |stmts|
  {
    if stmts == [] then [] else [Single(stmts[0])] + Singly(stmts[1..])
  }

  ghost function Single(st: Stmt): Message { Query([st], true, true, true) }

  ghost function Tell(k: TxControl, engineOk: bool): Message { Single(Stmt(Control(k, engineOk), true)) }

  lemma {:induction false} HandleConcat(s: Session, ms: seq<Message>, more: seq<Message>)
    ensures HandleAll(s, ms + more) == HandleAll(HandleAll(s, ms), more)
    decreases |ms|
  {
    if ms == [] {
      assert ms + more == more;
    } else {
      assert (ms + more)[0] == ms[0] && (ms + more)[1..] == ms[1..] + more;
      HandleConcat(Handle(s, ms[0]), ms[1..], more);
    }
  }

  // -- Outside a transaction ----------------------------------------------------------------------

  // What the statements leave of a store when each runs whatever became of those before it.
  ghost function Leaves(s: Store, stmts: seq<Stmt>): Store
    decreases |stmts|
  {
    if stmts == [] then s
    else
      match stmts[0].kind
      case Other(effect, _, _) => Leaves(effect(s).store, stmts[1..])
      case Database(effect, _, _) => Leaves(effect(s).store, stmts[1..])
      case _ => Leaves(s, stmts[1..])
  }

  // Neither BEGIN, COMMIT and ROLLBACK nor a savepoint statement.
  ghost predicate Undirected(stmts: seq<Stmt>) {
    forall i | 0 <= i < |stmts| :: !stmts[i].kind.Control? && !stmts[i].kind.Save?
  }

  // Each statement runs on its own and reaches the store at once, whatever failed before it.
  lemma {:induction false} SinglesOutside(s: Session, stmts: seq<Stmt>)
    requires s.open && s.conn.tx.None? && Undirected(stmts) && AllAnswered(stmts)
    ensures var s' := HandleAll(s, Singly(stmts));
            s'.open && s'.conn.tx.None? && s'.conn.store == Leaves(s.conn.store, stmts)
    ensures Effects(s.conn.store, stmts).Some? ==> Leaves(s.conn.store, stmts) == Effects(s.conn.store, stmts).value
    decreases |stmts|
  {
    if stmts != [] {
      assert !stmts[0].kind.Control? && !stmts[0].kind.Save? && stmts[0].answered;
      SinglesOutside(Handle(s, Single(stmts[0])), stmts[1..]);
    }
  }

  // -- Inside one ------------------------------------------------------------------------------------

  // Statements that are refused in an aborted transaction, and whose failure aborts one.
  ghost predicate Strict(stmts: seq<Stmt>) {
    forall i | 0 <= i < |stmts| ::
      stmts[i].kind.Blank? || (stmts[i].kind.Other? && stmts[i].kind.guarded && stmts[i].kind.marks)
  }

  // While all succeed, each finds what those before it have done, and the store does not move.
  lemma {:induction false} SinglesInside(s: Session, stmts: seq<Stmt>)
    requires s.open && s.conn.tx.Some? && !s.conn.failed && AllAnswered(stmts)
    requires Effects(Now(s.conn), stmts).Some?
    ensures var s' := HandleAll(s, Singly(stmts));
            && s'.open && s'.conn.tx.Some? && !s'.conn.failed && s'.conn.store == s.conn.store
            && Some(Now(s'.conn)) == Effects(Now(s.conn), stmts) && s'.conn.errored == s.conn.errored
    decreases |stmts|
  {
    if stmts != [] {
      assert stmts[0].answered;
      SinglesInside(Handle(s, Single(stmts[0])), stmts[1..]);
    }
  }

  // A failure leaves the transaction open, marked exactly when the statement is of those that mark.
  lemma FailureMarks(s: Session, st: Stmt)
    requires s.open && s.conn.tx.Some? && !s.conn.failed && st.answered
    requires st.kind.Other? && !st.kind.effect(Now(s.conn)).ok
    ensures var s' := Handle(s, Single(st));
            && s'.open && s'.conn.tx.Some? && s'.conn.store == s.conn.store && s'.conn.errored
            && (s'.conn.failed <==> st.kind.marks)
  {
  }

  // Once it is marked, statements that are refused then change nothing at all.
  lemma {:induction false} MarkedRefuses(s: Session, stmts: seq<Stmt>)
    requires s.open && s.conn.tx.Some? && s.conn.failed && Strict(stmts) && AllAnswered(stmts)
    ensures var s' := HandleAll(s, Singly(stmts));
            s'.open && s'.conn.(errored := s.conn.errored) == s.conn && (s.conn.errored ==> s'.conn.errored)
    decreases |stmts|
  {
    if stmts != [] {
      assert stmts[0].answered && (stmts[0].kind.Blank? || (stmts[0].kind.Other? && stmts[0].kind.guarded));
      MarkedRefuses(Handle(s, Single(stmts[0])), stmts[1..]);
    }
  }

  lemma {:induction false} FailedSingles(s: Session, stmts: seq<Stmt>)
    requires s.open && s.conn.tx.Some? && !s.conn.failed && Strict(stmts) && AllAnswered(stmts)
    requires Effects(Now(s.conn), stmts).None?
    ensures var s' := HandleAll(s, Singly(stmts));
            s'.open && s'.conn.tx.Some? && s'.conn.failed && s'.conn.errored && s'.conn.store == s.conn.store
    decreases |stmts|
  {
    assert stmts[0].answered && (stmts[0].kind.Blank? || (stmts[0].kind.Other? && stmts[0].kind.marks));
    var s1 := Handle(s, Single(stmts[0]));
    if s1.conn.failed {
      MarkedRefuses(s1, stmts[1..]);
    } else {
      FailedSingles(s1, stmts[1..]);
    }
  }

  // BEGIN, the statements one message at a time, and COMMIT: the store has every effect or none,
  // exactly as all of them, and the commit, succeed or not; and just when it has none the client has
  // been told of an error. With ROLLBACK it has none.
  lemma TransactionIsAtomic(s: Session, stmts: seq<Stmt>, endOk: bool)
    requires s.open && s.conn.tx.None? && Strict(stmts) && AllAnswered(stmts)
    ensures var all := Effects(s.conn.store, stmts);
            var s' := HandleAll(s, [Tell(BEGIN, true)] + Singly(stmts) + [Tell(COMMIT, endOk)]);
            && s'.open && s'.conn.tx.None?
            && s'.conn.store == (if all.Some? && endOk then all.value else s.conn.store)
            && (!s.conn.errored ==> (s'.conn.errored <==> !(all.Some? && endOk)))
    ensures var s' := HandleAll(s, [Tell(BEGIN, true)] + Singly(stmts) + [Tell(ROLLBACK, endOk)]);
            s'.open && s'.conn.tx.None? && s'.conn.store == s.conn.store
  {
    var s1 := Handle(s, Tell(BEGIN, true));
    HandleConcat(s, [Tell(BEGIN, true)], Singly(stmts));
    HandleConcat(s, [Tell(BEGIN, true)] + Singly(stmts), [Tell(COMMIT, endOk)]);
    HandleConcat(s, [Tell(BEGIN, true)] + Singly(stmts), [Tell(ROLLBACK, endOk)]);
    OneMessage(s, Tell(BEGIN, true));
    var s2 := HandleAll(s1, Singly(stmts));
    OneMessage(s2, Tell(COMMIT, endOk));
    OneMessage(s2, Tell(ROLLBACK, endOk));
    if Effects(s.conn.store, stmts).Some? { SinglesInside(s1, stmts); } else { FailedSingles(s1, stmts); }
  }

  lemma OneMessage(s: Session, m: Message)
    ensures HandleAll(s, [m]) == Handle(s, m)
  {
    assert [m][1..] == [];
  }

  // -- A batch outside the implicit transaction --------------------------------------------------------

  // The statements one message at a time.
  ghost function OneByOne(c: Conn, stmts: seq<Stmt>): Session {
    HandleAll(Session(c.(errored := false), false, true), Singly(stmts))
  }

  // It leaves the session where its statements would leave it one message at a time, to the first
  // that fails or cannot be answered.
  lemma BatchOneByOne(s: Session, stmts: seq<Stmt>, beginOk: bool, endOk: bool, answered: bool) returns (n: nat)
    requires s.open && |stmts| >= 2 && !Implicit(s.conn, stmts)
    ensures 0 < n <= |stmts|
    ensures Handle(s, Query(stmts, beginOk, endOk, answered)) == OneByOne(s.conn, stmts[..n])
    ensures OneByOne(s.conn, stmts[..n - 1]).open && !OneByOne(s.conn, stmts[..n - 1]).conn.errored
    ensures var s' := OneByOne(s.conn, stmts[..n]);
            n < |stmts| ==> !s'.open || s'.conn.errored
  {
    n := RunAll(s.conn, stmts).count;
    RunOneByOne(s.conn, stmts);
  }

  lemma OneByOneGoesOn(c: Conn, stmts: seq<Stmt>, n: nat)
    requires 0 < n <= |stmts|
    ensures var s1 := Handle(Session(c.(errored := false), false, true), Single(stmts[0]));
            OneByOne(c, stmts[..n]) == HandleAll(s1, Singly(stmts[1..][..n - 1]))
  {
    assert stmts[..n][1..] == stmts[1..][..n - 1];
  }

  lemma {:induction false} RunOneByOne(c: Conn, stmts: seq<Stmt>)
    requires stmts != []
    ensures var r := RunAll(c, stmts);
            && 0 < r.count <= |stmts|
            && OneByOne(c, stmts[..r.count]) == Session(if r.lost then Close(r.conn) else r.conn, false, !r.lost)
            && OneByOne(c, stmts[..r.count - 1]).open && !OneByOne(c, stmts[..r.count - 1]).conn.errored
            && (r.count < |stmts| ==> r.lost || r.conn.errored)
    decreases |stmts|
  {
    var c1 := RunStmt(c.(errored := false), stmts[0].kind);
    OneByOneGoesOn(c, stmts, 1);
    assert stmts[1..][..0] == [] && stmts[..0] == [];
    if stmts[0].answered && !c1.errored && |stmts| > 1 {
      RunOneByOne(c1, stmts[1..]);
      var n := RunAll(c1, stmts[1..]).count;
      OneByOneGoesOn(c, stmts, n + 1);
      OneByOneGoesOn(c, stmts, n);
      assert c1 == c1.(errored := false);
    }
  }

  // -- The extended protocol -----------------------------------------------------------------------------

  // A statement executed in a cycle that has not failed comes to what a Query message of it does.
  lemma ExecuteIsQuery(s: Session, st: Stmt)
    requires s.open && !s.skipping
    ensures Handle(s, Execute(st)).conn == Handle(s.(conn := s.conn.(errored := false)), Single(st)).conn
    ensures Handle(s, Execute(st)).open == Handle(s, Single(st)).open
    ensures Handle(s, Execute(st)).open ==> (Handle(s, Execute(st)).skipping <==> Handle(s, Execute(st)).conn.errored)
  {
  }

  // The rest of a cycle that has failed is passed over, to the next Sync.
  lemma {:induction false} RestOfCycleIsSkipped(s: Session, ms: seq<Message>)
    requires s.open && s.skipping && forall i | 0 <= i < |ms| :: ms[i].Execute?
    ensures HandleAll(s, ms) == s && !Handle(HandleAll(s, ms), Sync).skipping
    decreases |ms|
  {
    if ms != [] {
      assert ms[0].Execute?;
      RestOfCycleIsSkipped(s, ms[1..]);
    }
  }

  // -- Savepoints of several names ------------------------------------------------------------------------

  // The newest savepoint of the name is found, or there is none of that name.
  lemma {:induction false} FindsNewest(saves: seq<Saved>, name: string)
    ensures match FindSave(saves, name)
            case Some(i) => i < |saves| && saves[i].name == name && forall j | i < j < |saves| :: saves[j].name != name
            case None => forall j | 0 <= j < |saves| :: saves[j].name != name
    decreases |saves|
  {
    if saves != [] && saves[|saves| - 1].name != name { FindsNewest(saves[..|saves| - 1], name); }
  }

  // Plain statements, and savepoint statements that name neither this savepoint nor an older one.
  ghost predicate Beside(k: Kind, name: string, older: seq<Saved>) {
    if k.Save? then k.name != name && forall i | 0 <= i < |older| :: older[i].name != k.name
    else !ManagesTx(k)
  }

  // The savepoint stands where it stood, and those after it have other names.
  ghost predicate Stands(c: Conn, store: Store, saves: seq<Saved>, name: string) {
    && c.tx.Some? && c.store == store && saves != [] && saves <= c.tx.value.saves
    && saves[|saves| - 1].name == name
    && forall j | |saves| <= j < |c.tx.value.saves| :: c.tx.value.saves[j].name != name
  }

  lemma SaveBeside(c: Conn, k: Kind, store: Store, saves: seq<Saved>, name: string)
    requires Stands(c, store, saves, name) && k.Save? && Beside(k, name, saves[..|saves| - 1])
    ensures Stands(RunStmt(c, k), store, saves, name)
  {
    FindsNewest(c.tx.value.saves, k.name);
    if FindSave(c.tx.value.saves, k.name).Some? {
      var i := FindSave(c.tx.value.saves, k.name).value;
      forall j | 0 <= j < |saves| - 1 ensures c.tx.value.saves[j].name != k.name {
        assert saves[..|saves| - 1][j] == c.tx.value.saves[j];
      }
      assert i >= |saves|;
    }
  }

  lemma {:induction false} StandsBeside(c: Conn, stmts: seq<Stmt>, store: Store, saves: seq<Saved>, name: string)
    requires Stands(c, store, saves, name)
    requires forall i | 0 <= i < |stmts| :: Beside(stmts[i].kind, name, saves[..|saves| - 1])
    ensures Stands(RunAll(c, stmts).conn, store, saves, name)
    decreases |stmts|
  {
    if stmts != [] {
      var k := stmts[0].kind;
      assert Beside(k, name, saves[..|saves| - 1]);
      if k.Save? { SaveBeside(c.(errored := false), k, store, saves, name); }
      StandsBeside(RunStmt(c.(errored := false), k), stmts[1..], store, saves, name);
    }
  }

  // ROLLBACK TO goes back to the savepoint of its name, past those set, released and gone back to
  // since under other names.
  lemma {:induction false} NestedSavepointRestores(c: Conn, name: string, stmts: seq<Stmt>)
    requires c.tx.Some? && !c.failed
    requires forall i | 0 <= i < |stmts| :: Beside(stmts[i].kind, name, c.tx.value.saves)
    ensures var marked := RunStmt(c, Save(SAVEPOINT, name));
            var back := RunStmt(RunAll(marked, stmts).conn, Save(ROLLBACK_TO, name));
            back.tx == marked.tx && Now(back) == Now(c) && back.store == c.store && !back.failed
  {
    var marked := RunStmt(c, Save(SAVEPOINT, name));
    var saves := marked.tx.value.saves;
    assert saves[..|saves| - 1] == c.tx.value.saves;
    StandsBeside(marked, stmts, c.store, saves, name);
    var now := RunAll(marked, stmts).conn.tx.value.saves;
    FindsNewest(now, name);
    assert now[|saves| - 1] == saves[|saves| - 1] && now[..|saves|] == saves;
  }

  // RELEASE forgets the savepoint of its name and those after it, and keeps what was done since.
  lemma {:induction false} NestedReleaseForgets(c: Conn, name: string, stmts: seq<Stmt>)
    requires c.tx.Some? && !c.failed
    requires forall i | 0 <= i < |stmts| :: Beside(stmts[i].kind, name, c.tx.value.saves)
    requires !RunAll(RunStmt(c, Save(SAVEPOINT, name)), stmts).conn.failed
    ensures var done := RunAll(RunStmt(c, Save(SAVEPOINT, name)), stmts).conn;
            var released := RunStmt(done.(errored := false), Save(RELEASE, name));
            && released.tx == Some(Tx(Now(done), c.tx.value.saves)) && released.store == c.store
            && !released.failed && !released.errored
  {
    var marked := RunStmt(c, Save(SAVEPOINT, name));
    var saves := marked.tx.value.saves;
    assert saves[..|saves| - 1] == c.tx.value.saves;
    StandsBeside(marked, stmts, c.store, saves, name);
    var now := RunAll(marked, stmts).conn.tx.value.saves;
    FindsNewest(now, name);
    assert now[|saves| - 1] == saves[|saves| - 1] && now[..|saves| - 1] == saves[..|saves| - 1];
  }

  predicate HasSave(saves: seq<Saved>, name: string) { exists i | 0 <= i < |saves| :: saves[i].name == name }

  // A savepoint statement is an error exactly outside a transaction, in an aborted one unless it goes
  // back, and for a name there is no savepoint of. It then changes nothing, but an unknown name to
  // RELEASE aborts the transaction.
  lemma SavepointErrors(c: Conn, k: SaveKind, name: string)
    ensures var c' := RunStmt(c.(errored := false), Save(k, name));
            && (c'.errored <==>
                  || c.tx.None? || (c.failed && k != ROLLBACK_TO)
                  || (k != SAVEPOINT && !HasSave(c.tx.value.saves, name)))
            && (c'.errored ==> c'.tx == c.tx && c'.store == c.store)
            && (c'.errored ==> (c'.failed <==> c.failed || (c.tx.Some? && k == RELEASE)))
  {
    if c.tx.Some? { FindsNewest(c.tx.value.saves, name); }
  }
}
