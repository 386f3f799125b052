/**
 Transactions of one session, over values: single statements and batches, against an engine that
 keeps one store (handleQuery in protocol/postgres/multistatement.go, applyTxControl and endTx in
 protocol/postgres/extended.go, trySavepoint in protocol/postgres/utility.go, handleSimpleQuery in
 protocol/postgres/postgres.go).
 */
module SessionTx {
  import opened Options

  type Store = map<string, string>

  // What running a statement makes of a store. A failure may leave a part of the change behind.
  datatype Effected = Effected(store: Store, ok: bool)

  datatype TxControl = BEGIN | COMMIT | ROLLBACK
  datatype SaveKind = SAVEPOINT | RELEASE | ROLLBACK_TO

  // `engineOk` is whether the engine does what is asked of it. `guarded`: refused in an aborted
  // transaction; `marks`: its failure aborts the transaction. Both hold for most statements.
  datatype Kind =
    | Blank
    | Control(control: TxControl, engineOk: bool)
    | Save(save: SaveKind, name: string)
    | Other(effect: Store -> Effected, guarded: bool, marks: bool)
    | Database(effect: Store -> Effected, guarded: bool, marks: bool)

  // `answered` is whether writing the answer succeeds: if not, the connection is given up.
  datatype Stmt = Stmt(kind: Kind, answered: bool)

  // The engine's transaction: a working copy, and the copies the savepoints keep.
  datatype Tx = Tx(work: Store, saves: seq<Saved>)
  datatype Saved = Saved(name: string, store: Store)

  // What the session did to transactions: history, not state of the program.
  datatype TxEvent = Began | Marked | Recovered | Committed | RolledBack

  datatype Conn = Conn(store: Store, tx: Option<Tx>, failed: bool, errored: bool, log: seq<TxEvent>)

  function Now(c: Conn): Store { if c.tx.Some? then c.tx.value.work else c.store }

  function SetNow(c: Conn, s: Store): Conn {
    if c.tx.Some? then c.(tx := Some(c.tx.value.(work := s))) else c.(store := s)
  }

  function Mark(c: Conn): Conn { if c.tx.Some? then c.(failed := true, log := c.log + [Marked]) else c }

  function Begin(c: Conn): Conn {
    c.(tx := Some(Tx(c.store, [])), failed := false, log := c.log + [Began])
  }

  // A failed commit loses the transaction's work.
  function EndTx(c: Conn, commit: bool, engineOk: bool): Conn {
    if c.tx.None? then c
    else if commit && !c.failed then
      c.(store := if engineOk then c.tx.value.work else c.store, tx := None, log := c.log + [Committed])
    else
      c.(tx := None, failed := false, log := c.log + [RolledBack])
  }

  function Apply(c: Conn, k: TxControl, engineOk: bool): Conn {
    if k.BEGIN? then (if c.tx.None? && engineOk then Begin(c) else c) else EndTx(c, k.COMMIT?, engineOk)
  }

  predicate ApplyFails(c: Conn, k: TxControl, engineOk: bool) {
    !engineOk && (c.tx.None? <==> k.BEGIN?)
  }

  // The newest savepoint of a name.
  function FindSave(saves: seq<Saved>, name: string): Option<nat> {
    if saves == [] then None
    else if saves[|saves| - 1].name == name then Some(|saves| - 1)
    else FindSave(saves[..|saves| - 1], name)
  }

  // The engine's savepoints: RELEASE forgets one and all after it, ROLLBACK TO keeps it and goes
  // back to it.
  function SaveExec(t: Tx, k: SaveKind, name: string): (r: Option<Tx>)
  {
    if k.SAVEPOINT? then Some(t.(saves := t.saves + [Saved(name, t.work)]))
    else
      var i := FindSave(t.saves, name);
      if i.None? || i.value >= |t.saves| then None
      else if k.RELEASE? then Some(t.(saves := t.saves[..i.value]))
      else Some(Tx(t.saves[i.value].store, t.saves[..i.value + 1]))
  }

  function TrySavepoint(c: Conn, k: SaveKind, name: string): Conn {
    if c.tx.None? || (c.failed && !k.ROLLBACK_TO?) then c.(errored := true)
    else
      var t := SaveExec(c.tx.value, k, name);
      if t.None? then (if k.ROLLBACK_TO? then c else Mark(c)).(errored := true)
      else if k.ROLLBACK_TO? then c.(tx := t, failed := false, log := c.log + [Recovered])
      else c.(tx := t)
  }

  function RunEffect(c: Conn, effect: Store -> Effected, guarded: bool, marks: bool): Conn {
    if guarded && c.tx.Some? && c.failed then c.(errored := true)
    else
      var e := effect(Now(c));
      var c1 := SetNow(c, e.store);
      if e.ok then c1 else (if marks then Mark(c1) else c1).(errored := true)
  }

  // One statement, its answer aside.
  function RunStmt(c: Conn, k: Kind): Conn {
    match k
    case Blank => c
    case Control(control, engineOk) =>
      var c1 := Apply(c, control, engineOk);
      if ApplyFails(c, control, engineOk) then c1.(failed := c1.tx.Some?, errored := true) else c1
    case Save(save, name) => TrySavepoint(c, save, name)
    case Other(effect, guarded, marks) => RunEffect(c, effect, guarded, marks)
    case Database(effect, guarded, marks) => RunEffect(c, effect, guarded, marks)
  }

  // Statements one after another, to the first error or lost connection.
  datatype Ran = Ran(conn: Conn, count: nat, stopped: bool, lost: bool)

  function RunAll(c: Conn, stmts: seq<Stmt>): Ran
    decreases |stmts|
  {
    if stmts == [] then Ran(c, 0, false, false)
    else
      var c1 := RunStmt(c.(errored := false), stmts[0].kind);
      if !stmts[0].answered then Ran(c1, 1, false, true)
      else if c1.errored then Ran(c1, 1, true, false)
      else
        var r := RunAll(c1, stmts[1..]);
        r.(count := r.count + 1)
  }

  // Opts a batch out of the implicit transaction.
  predicate ManagesTx(k: Kind) { k.Control? || k.Save? || k.Database? }

  predicate Plain(stmts: seq<Stmt>) { forall i | 0 <= i < |stmts| :: !ManagesTx(stmts[i].kind) }

  predicate AllAnswered(stmts: seq<Stmt>) { forall i | 0 <= i < |stmts| :: stmts[i].answered }

  predicate Implicit(c: Conn, stmts: seq<Stmt>) {
    c.tx.None? && Plain(stmts)
  }

  datatype Answer = Answer(conn: Conn, lost: bool)

  // A Query message: one statement on its own, or a batch.
  function HandleQuery(c: Conn, stmts: seq<Stmt>, beginOk: bool, endOk: bool, answered: bool): Answer {
    if stmts == [] then Answer(c, !answered)
    else if |stmts| == 1 then Answer(RunStmt(c, stmts[0].kind), !stmts[0].answered)
    else
      var implicit := Implicit(c, stmts);
      if implicit && !beginOk then Answer(c.(errored := true), !answered)
      else
        FinishBatch(RunAll(if implicit then Begin(c) else c, stmts), implicit, endOk, answered)
  }

  function FinishBatch(r: Ran, implicit: bool, endOk: bool, answered: bool): Answer {
    if r.lost then Answer(r.conn, true)
    else if implicit && r.conn.tx.Some? then
      var c := EndTx(r.conn, !r.stopped, endOk);
      if !endOk && !r.stopped then Answer(c.(errored := true), !answered) else Answer(c, false)
    else Answer(r.conn, false)
  }

  // The end of the connection rolls back what is open.
  function Close(c: Conn): Conn { c.(tx := None) }

  // A new session.
  const FRESH := Conn(map[], None, false, false, [])
}
