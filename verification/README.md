# overlite, modelled and verified

overlite serves SQLite files to PostgreSQL clients. This project models the parts of it whose correctness is
an argument rather than a reading: a lock registry shared by all sessions, a pool of open databases, the
delivery of notifications, the session's transactions, the scanners that cut SQL text, exact decimal
arithmetic, sequences, range and jsonb containment, and two text formats. Each part is modelled in the form
the program gives it: objects whose methods change their fields are classes with `modifies` clauses, loops
over text and numbers are loops with invariants, and each of these is proved equal to a function, about which
the properties are then proved. Code that runs concurrently is a state machine whose steps are the critical
sections, and the properties hold in every reachable state of every interleaving.

| files | what they hold |
|---|---|
| `AdvisoryGrants`, `AdvisoryRegistry`, `AdvisorySystem`, `AdvisoryTheorems`, `AdvisoryTally` | advisory locks: as values against a multiset of grants, as records updated in place, under every interleaving of sessions, and counted from the events of a run |
| `DatabasePool` | the reference-counted pool of engines with least-recently-used eviction |
| `Notifications`, `NotifySession`, `NotifySystem`, `NotifyTheorems` | LISTEN and NOTIFY: one session's connection, the objects, all sessions together, and what a run's events alone tell of them |
| `SessionTx`, `TxSession`, `SessionTheorems`, `SessionMessages` | statements, batches, savepoints and transactions of a session, as values and as the session's fields |
| `SqlScan`, `SqlAutomaton`, `SplitStatements`, `SplitTheorems` | the scanners for SQL text, a one-character automaton, and cutting a Query into statements |
| `OpenBodies`, `TriggerBodies`, `BlankStatements` | when the body of a CREATE TRIGGER is open, that it comes out as one statement, and which pieces are dropped |
| `ColumnList`, `ColumnEdit`, `ColumnParts`, `ColumnNames`, `NamedEdits` | splitting a column list at its top-level commas, editing one column of a CREATE TABLE, where its definition parts into name, type and constraints, and what quoted names and comments do |
| `Rationals`, `DecimalDigits`, `DecimalText`, `DecimalExact`, `DecimalSums` | rationals in lowest terms, their decimal digits and text, exact sums with sliding windows, the DECIMAL collation |
| `Sequences` | nextval and its companions on wrapping 64-bit integers |
| `Ranges` | range containment and overlap against the sets of numbers that ranges denote |
| `Jsonb` | jsonb containment |
| `CopyText`, `Hstore` | COPY text format and hstore text, each with its round trip |
| `Options`, `Text` | optional values, and the library functions on strings |

## What the proofs found

Where a promise does not hold of the code on all inputs, a lemma gives the condition under which it does, in
both directions, and the bullet names a result at a failing input.

- COPY: a NULL written with the default marker `\N` comes back as the string `\N`, because the writer escapes
  the marker like any text (protocol/postgres/copy.go:253-273), and rows at the end whose line is empty are
  lost. Rows come back exactly under `CopyText.RoundTripExactly`; `CopyText.DefaultMarker` is the failing cell.
- nextval adds before it compares (protocol/postgres/sequences.go:340), so a sequence at the top of the 64-bit
  range wraps to a negative value instead of ending: exactly when is `Sequences.ExactUnlessWrapped` for one
  call, `Sequences.Ends` and `Sequences.CyclesExactly` for runs; `Sequences.DefaultSequenceWraps` is the input.
- Containment and overlap are decided rightly for a range exactly when it is written `empty`, or has numbers or
  nothing for its bounds, in order: `Ranges.ContainsRangeExactly`, `Ranges.OverlapsExactly`. Any other denotes
  nothing but is not `empty`: one out of order like `[1,1.0)`, `Ranges.EqualBoundsOutOfOrder`, and one with a
  bound that is no number, `Ranges.TextBoundNotSensible`. A range built without bounds and not closed at both
  ends comes out `empty`, and no other is built wrong: `Ranges.MakeRangeDenotes`.
- An explicit pg_advisory_unlock can take away a hold of the open transaction, whose end then finds nothing to
  let go of. Outside a transaction a session holds its session-level takes minus its unlocks exactly when no
  transaction of it has ended while that balance was negative: `AdvisoryTally.TransactionEndExactly`, with a
  failing run in `AdvisoryTally.UnlockedInTransaction`.
- A connection that drops lets its locks go before its transaction is rolled back
  (protocol/postgres/extended.go:287-294), in every case: `AdvisoryTheorems.DisconnectFreesBeforeRollback`.
- A scalar is found at any depth of nested arrays, `[[1]]` containing `1`, although the comment at
  engine/jsonfuncs.go:76-78 speaks of an array holding it. The code does what the comment says of a scalar
  exactly when it is an element of the array or no array among the elements leads to it:
  `Jsonb.HeldScalarExactly`; `Jsonb.NestedScalarIsContained` is the input.
- dec_sum shows `0` for a frame that numbers have entered and left, where sum shows NULL: NULL exactly when no
  number ever entered is `DecimalSums.DecSum.Final`, and `DecimalSums.EmptiedFrame` is the run.
- editColumn keeps the text after the column list exactly when the list is closed
  (protocol/postgres/alter.go:390-410): `ColumnEdit.RestKeptExactly`. Else the last character of the text is
  doubled, `ColumnEdit.UnclosedDoublesLast`, and an apostrophe in a quoted name leaves a list unclosed:
  `ColumnEdit.ApostropheInName`.
- splitTopLevel takes quoted names and comments for code. It cuts where a reader of SQL does exactly when the
  two agree at every comma; if no name or comment holds a parenthesis or an apostrophe, exactly when none of
  those outside parentheses holds a comma: `ColumnNames.SplitsAsSqlExactly`, with the failing lists in
  `ColumnNames.CommaInName`. Then editColumn rewrites a definition of that reader's exactly when the commas on
  both sides of it stand in code, `NamedEdits.EditsWhatSqlSeesExactly`: in a list with the one column `"a,b"`
  an edit of `b` rewrites half of a name, `NamedEdits.HalfOfNameEdited`.
- parseColDef takes a definition whose name makes it look like a table constraint for one, and no ALTER COLUMN
  finds it: exactly the names of `ColumnParts.LikeConstraint`, by `ColumnParts.ParsesAsWritten`. Any name that
  begins with CHECK is one: `ColumnParts.ChecksumIsLost` has the column `checksum text`.
- The type ends at the first of eleven words (protocol/postgres/alter.go:442-472), so the part from COLLATE on of
  a new type DECIMALTEXT COLLATE DECIMAL counts among the constraints from then on, where the next change of
  type leaves it: `ColumnParts.TypeWithConstraints`.
- openBody does not know E'...' strings, as splitStatements does (protocol/postgres/multistatement.go:74-79 and
  132): what it counts is exact for its own reading, `OpenBodies.OpenBodyCounts`, and for the splitter's where the
  text has no such string, `OpenBodies.OpenBodyCountsCode`. A trigger body with the string `E'\''` stays open past
  its END, and the statement after it is taken in: `TriggerBodies.EscapedApostropheHidesEnd`.
- A database just created is closed again at once exactly when as many databases are in use as may be open:
  `DatabasePool.CreatedIsClosed` (engine/cluster.go:229-237).
- lastval gives `0` for a sequence used and then dropped by the same session: it has no value of the sequence
  last used exactly when this session has dropped that sequence since, `Sequences.LastUse`, and then it gives
  zero, `Sequences.SequenceSession.Lastval`; `Sequences.DroppedLeavesZero` is the run. (A drop by another
  session leaves the value in place.)
- setval stores any value, and nextval then counts from outside the bounds; what it hands out lies within them
  exactly when the sum is not short of them: `Sequences.WithinBoundsExactly`, with `Sequences.SetBelowBounds`.

## Model

| member | source | states |
|---|---|---|
| AdvisoryGrants.CanTakeMeansFree | protocol/postgres/advisory.go:204-222 | The test on a lock's record allows a take exactly when no other session has a grant that conflicts, the record standing for a multiset of grants. |
| AdvisoryGrants.TryRefines | protocol/postgres/advisory.go:233-247 | A try succeeds exactly when the lock is free to the session, and then adds one grant; else nothing changes. |
| AdvisoryGrants.UnlockRefines | protocol/postgres/advisory.go:266-292 | An unlock answers true exactly when the session had such a grant, and takes one away. |
| AdvisoryGrants.ReleaseAllRefines | protocol/postgres/advisory.go:294-310 | Releasing everything removes the session's grants and no other's. |
| AdvisoryGrants.RegistryRefinesGrants | protocol/postgres/advisory.go:233-310 | Over every run of calls the registry gives the answers a plain multiset of (session, key, mode) grants gives, and ends standing for that multiset, well formed: positive counts and no empty entry. |
| AdvisoryGrants.GrantsDetermineRegistry | protocol/postgres/advisory.go:266-310 | The grants determine the whole registry, so no entry or zero count is ever left over. |
| AdvisoryRegistry.AdvisoryHold.CanTake | protocol/postgres/advisory.go:204-222 | The loop over the shared holders decides the test on the record, in whatever order it meets them. |
| AdvisoryRegistry.AdvisoryHold.Take | protocol/postgres/advisory.go:224-231 | The record after a take, updated in place. |
| AdvisoryRegistry.AdvisoryHold.LetGo | protocol/postgres/advisory.go:276-286 | One hold of the session less and true, or false and the record as it was. |
| AdvisoryRegistry.Registry.TryAdvisory | protocol/postgres/advisory.go:233-247 | The registry and the answer after a try, with hold records shared through one map and changed in place. |
| AdvisoryRegistry.Registry.UnlockAdvisory | protocol/postgres/advisory.go:266-292 | The registry and the answer after an unlock; a record left unused is deleted, and waiters are woken exactly on success. |
| AdvisoryRegistry.Registry.ReleaseAdvisoryLocks | protocol/postgres/advisory.go:294-310 | The loop that deletes from the map it walks leaves the registry without the session, in any order; the session forgets its transaction's locks and waiters are woken once. |
| AdvisoryRegistry.LockSession.HoldForTx | protocol/postgres/advisory.go:325-333 | Inside a transaction the lock is recorded for its end; outside, it is let go at once, waking waiters exactly when it was there. |
| AdvisoryRegistry.LockSession.ReleaseTxAdvisoryLocks | protocol/postgres/advisory.go:335-341 | Each recorded lock is unlocked once, the list emptied, and waiters woken as often as there was a hold to let go of. |
| AdvisoryRegistry.UnlockEachCounts | protocol/postgres/advisory.go:335-341 | Unlocking a list of holds takes from each grant as many as the list names, and never below none. |
| AdvisorySystem.StepKeepsInv | protocol/postgres/advisory.go:233-341 | Every critical section of every session keeps the invariant that ties grants, waiters' channels and transactions' locks together. |
| AdvisoryTheorems.NoLostWakeup | protocol/postgres/advisory.go:249-265 | In every reachable interleaving a parked session whose channel is still open cannot take its lock now. |
| AdvisoryTheorems.FreedLockIsTaken | protocol/postgres/advisory.go:249-265 | A parked session whose lock has come free can wake, and its next try takes the lock. |
| AdvisoryTheorems.OpenChannelMeansNoRelease | protocol/postgres/advisory.go:312-317 | As long as the channel stays open no grant of any session has been let go: other sessions only ever add. |
| AdvisoryTheorems.RefusedParksAgain | protocol/postgres/advisory.go:249-265 | A session that has woken and is refused again is parked: it can wake exactly when there has been another release since. |
| AdvisoryTheorems.WaitCallOutcome | protocol/postgres/advisory.go:249-265 | In every run, whatever other sessions do, after a waiting call the session still waits for just the lock, the mode and the level of the call, holding what it held, or has one grant more, of that lock and mode, and holdForTx is still to run exactly when the call is an _xact_ one. |
| AdvisoryTheorems.CancelledCall | protocol/postgres/advisory.go:249-265 | A waiting call that is cancelled leaves the session and its grants as they were before it. |
| AdvisoryTheorems.TryCallOutcome | protocol/postgres/advisory.go:233-247 | A call that only tries takes just its lock, at its level, exactly when it can be had, and else changes nothing. |
| AdvisoryTheorems.HoldersExclude | protocol/postgres/advisory.go:204-222 | In every reachable state a session holding a lock exclusively excludes every grant of every other session on it. |
| AdvisoryTheorems.TransactionsGiveBack | protocol/postgres/advisory.go:325-341 | In every run in which a session takes locks for its transactions only, trying or waiting, it has in the end, outside a transaction, what it held in the beginning without the locks of the transaction it was then in; so a transaction that begins without any leaves every count as it was. |
| AdvisoryTally.TransactionLeavesSessionHolds | protocol/postgres/extended.go:263-278 | In every run whose unlocks never exceed its session-level takes, counted from the calls and their answers, a session between calls and outside a transaction holds just takes minus unlocks. |
| AdvisoryTally.TransactionEndExactly | protocol/postgres/advisory.go:335-341 | In every run a session between calls and outside a transaction holds its session-level takes minus its unlocks plus what earlier ends have made up: takes minus unlocks exactly when no transaction of it has ended while they were negative. |
| AdvisoryTally.UnlockedInTransaction | protocol/postgres/advisory.go:325-341 | A run in which a transaction's lock is unlocked explicitly and takes and unlocks balance in the end, while the session holds the lock. |
| AdvisoryTally.LocksOutliveTransaction | protocol/postgres/extended.go:263-278 | In every run, from BEGIN until the commit or rollback has run, the session holds that balance and every lock that the calls of its transaction took: these are all held exactly when the balance is not negative. |
| AdvisoryTheorems.XactCallOutsideTransaction | protocol/postgres/advisory.go:325-333 | Outside a transaction an _xact_ call, by its own arguments, that takes its lock, at once or after waiting, leaves the session and its grants as it found them once holdForTx has run, whatever other sessions do in between. |
| AdvisoryTheorems.XactCallInTransaction | protocol/postgres/advisory.go:325-333 | Inside a transaction such a call leaves one grant more, of its lock and mode, noted for the transaction's end. |
| AdvisoryTally.CountedByEvents | protocol/postgres/advisory.go:233-341 | In every run, but while a transaction of the session is ending, a session holds of each lock and mode what its calls and their answers add up to: session-level takes less unlocks, what ends have made up, and the takes of the open transaction. |
| AdvisoryTheorems.DisconnectFreesBeforeRollback | protocol/postgres/extended.go:287-294 | A lock that only a dropping session kept from another can be taken by that other while the dropped transaction is still open. |
| DatabasePool.EvictionIsDetermined | engine/cluster.go:197-215 | However the map is walked, eviction has one outcome: everything in use stays, the idle databases with the smallest stamps go, and no more of them than the cap asks. |
| DatabasePool.LastUsesDiffer | engine/cluster.go:167-181 | Last uses of two databases never coincide, so stamps tell all open databases apart. |
| DatabasePool.SoundIsStamped | engine/cluster.go:167-181 | In every reachable state the stamps of open databases are pairwise distinct and at most the clock. |
| DatabasePool.HeldIff | engine/cluster.go:280-298 | Waiting for a database to be idle ends exactly when nobody holds it. |
| DatabasePool.HeldIsOpen | engine/cluster.go:186-204 | In every reachable state a database with an outstanding hold is in the map, under the engine the holder was given, not closed, and its count is the number of holds. |
| DatabasePool.Dir.GetEngine | engine/cluster.go:158-183 | Gives out the open engine or opens one, errors as the code, the whole new state, and keeps the invariant; the engine given out is never evicted by the call. |
| DatabasePool.Dir.Release | engine/cluster.go:186-193 | Takes one hold away, then evicts; of a database nobody holds it changes nothing; the invariant is kept. |
| DatabasePool.Dir.OldestIdle | engine/cluster.go:199-209 | The walk over the map in any order finds the idle database with the smallest stamp, or that there is none. |
| DatabasePool.Dir.EvictLocked | engine/cluster.go:197-215 | Ends with at most the cap open or everything open in use, having closed idle engines only. |
| DatabasePool.Dir.CreateDatabase | engine/cluster.go:218-238 | Opens the new database with no hold on it; errors as the code; it does not stay open exactly when as many databases are in use as may be open. |
| DatabasePool.CreatedIsClosed | engine/cluster.go:229-237 | Eviction after a creation closes the new database exactly when the number of databases in use has reached the cap. |
| DatabasePool.Dir.DropDatabase | engine/cluster.go:241-269 | Closes a database exactly when it exists, nobody holds it and it is none of the two protected ones; then it is gone from the map, and from the directory exactly when its file could be removed; else nothing changes. |
| Notifications.LineSteps | protocol/postgres/notify.go:77-88 | goBusy, goIdle and the session's own writes keep what has been sent followed by what is pending equal to what was enqueued, and notifications outside responses. |
| Notifications.EnqueueKeeps | protocol/postgres/notify.go:90-97 | Enqueuing keeps the same, delivering at once to an idle session. |
| NotifySession.Registry.UnregisterSession | protocol/postgres/notify.go:49-58 | The loop that deletes while it walks leaves every channel without the session and none without listeners. |
| NotifySession.Registry.RegisterListen | protocol/postgres/notify.go:29-36 | The registry with one listener more. |
| NotifySession.Registry.UnregisterListen | protocol/postgres/notify.go:38-47 | The registry with one listener less, its channel gone when that was the last. |
| NotifySession.Registry.Targets | protocol/postgres/notify.go:62-67 | Each listener of the channel once, in any order, and no one else. |
| NotifySession.Delivery.DeliverLocked | protocol/postgres/notify.go:100-112 | Every pending notification is written, in order, and none stays. |
| NotifySession.Delivery.EnqueueNotify | protocol/postgres/notify.go:90-97 | The delivery state after one more notification. |
| NotifySession.PublishNotify | protocol/postgres/notify.go:61-72 | Each session listening when the registry was read is given the notification once, in any order, and no other session is touched. |
| NotifySystem.StepKeepsInv | protocol/postgres/notify.go:29-160 | Every critical section of every session keeps the invariant of delivery and registry. |
| NotifyTheorems.DeliveredInOrder | protocol/postgres/notify.go:77-112 | In every interleaving sent followed by pending is what was enqueued; idle means nothing pending; nothing is delivered inside a response and a session writes only inside one. |
| NotifyTheorems.FinishDelivers | protocol/postgres/notify.go:84-112 | When a Query or Sync has been answered, all that was pending is sent, and the session awaits a message. |
| NotifyTheorems.NotifyFindsListeners | protocol/postgres/notify.go:61-72 | In every reachable state a NOTIFY, with its channel and payload, is to be handed to a session that is not in the middle of LISTEN or UNLISTEN exactly when that session listens on the channel and has not left. |
| NotifyTheorems.NotifyReaches | protocol/postgres/notify.go:61-72 | When it can end, whatever other sessions have done meanwhile, each of those has been given that notification once more, and of the others none has got anything from the notifying session. |
| NotifyTheorems.NothingLostRepeatedOrReordered | protocol/postgres/notify.go:61-112 | In every run a session that awaits a message has been sent exactly the notifications that the other's NOTIFYs addressed to it, as its own LISTENs and UNLISTENs stood when each was taken: each once, in order. |
| NotifyTheorems.SentIsPrefix | protocol/postgres/notify.go:61-112 | At any moment what has reached a connection from one session is a beginning of what that session's NOTIFYs addressed to it. |
| NotifyTheorems.AnswersAreWritten | protocol/postgres/notify.go:74-88 | A session's own messages reach its connection as it wrote them, whatever notifications fall between. |
| NotifyTheorems.RegisteredByEvents | protocol/postgres/notify.go:29-58 | In every run the registry lists a session under just the channels that its own LISTENs and UNLISTENs leave. |
| NotifyTheorems.RegistryAgrees | protocol/postgres/notify.go:123-155 | A connected session that is not in the middle of LISTEN or UNLISTEN is registered for exactly its own channels; one that has left, for none. |
| NotifyTheorems.OnlyTheSessionWritesWhileBusy | protocol/postgres/extended.go:296-353 | While a session is busy no run of other sessions' steps, however long, adds to its connection. |
| NotifyTheorems.PublishingGoesOn | protocol/postgres/notify.go:61-72 | A NOTIFY under way can always take its next step, whoever leaves meanwhile. |
| SessionTheorems.PlainRun | protocol/postgres/multistatement.go:42-52 | Inside a transaction a batch of plain statements has every effect in the working copy or stops at its first error; the committed store does not move. |
| SessionTheorems.BatchIsAtomic | protocol/postgres/multistatement.go:16-60 | A batch begun outside a transaction, managing none, leaves every effect or none, exactly as all statements, BEGIN, COMMIT and the connection succeed or not, and the client is told of an error just when it leaves none; it runs nothing after the first error and leaves no transaction open. |
| SessionTheorems.SessionKeeps | protocol/postgres/extended.go:243-281 | Over all session runs a failed mark implies an open transaction, and nothing marked failed is committed. |
| SessionTheorems.CommittedAfterMark | protocol/postgres/utility.go:150-174 | In every run, between a mark and a later commit of that transaction a ROLLBACK TO succeeded. |
| SessionTheorems.OnlyCommitReachesStore | protocol/postgres/extended.go:263-278 | With a transaction open only COMMIT changes the store, to the working copy, and a failed transaction's COMMIT rolls back. |
| SessionTheorems.SavepointRestores | protocol/postgres/utility.go:150-174 | ROLLBACK TO undoes whatever plain statements did since the savepoint and recovers a failed transaction. |
| SessionMessages.SinglesOutside | protocol/postgres/postgres.go:384-600 | Outside a transaction messages of one statement each reach the store at once, each finding what those before it left; when all succeed the store has all their effects. |
| SessionMessages.SinglesInside | protocol/postgres/postgres.go:384-600 | Inside one, while all succeed, the working copy has all their effects and the store does not move. |
| SessionMessages.FailureMarks | protocol/postgres/postgres.go:384-600 | A statement that fails leaves the transaction open, and aborted exactly when its kind aborts one. |
| SessionMessages.MarkedRefuses | protocol/postgres/postgres.go:421-425 | In an aborted transaction any number of messages change nothing at all. |
| SessionMessages.TransactionIsAtomic | protocol/postgres/extended.go:243-281 | BEGIN, statements one message at a time, and COMMIT: the store has every effect or none, exactly as all of them and the commit succeed or not, and the client has been told of an error just when it has none; with ROLLBACK it has none. |
| SessionMessages.BatchOneByOne | protocol/postgres/multistatement.go:30-52 | A batch that manages transactions itself, or is sent inside one, leaves the session where its statements would one message at a time, to the first that fails or cannot be answered. |
| SessionMessages.ExecuteIsQuery | protocol/postgres/extended.go:319-327 | A statement executed in a cycle that has not failed does what a Query message of it does. |
| SessionMessages.RestOfCycleIsSkipped | protocol/postgres/extended.go:319-336 | The rest of a cycle that has failed changes nothing, up to the next Sync. |
| SessionMessages.FindsNewest | protocol/postgres/utility.go:150-174 | The newest savepoint of a name is found, or there is none of that name. |
| SessionMessages.NestedSavepointRestores | protocol/postgres/utility.go:150-174 | ROLLBACK TO goes back to the savepoint of its name, past savepoints of other names set, released and gone back to since. |
| SessionMessages.NestedReleaseForgets | protocol/postgres/utility.go:150-174 | RELEASE forgets the savepoint of its name and all after it, and keeps what was done since. |
| SessionMessages.SavepointErrors | protocol/postgres/utility.go:150-174 | A savepoint statement is an error exactly outside a transaction, in an aborted one unless it goes back, or for a name there is no savepoint of; it then changes nothing, but such a RELEASE aborts the transaction. |
| TxSession.TxState.ApplyTxControl | protocol/postgres/extended.go:243-261 | The session's fields after BEGIN, COMMIT or ROLLBACK, and whether it is an error. |
| TxSession.TxState.End | protocol/postgres/extended.go:263-278 | The fields after the end of a transaction. |
| TxSession.TxState.Savepoint | protocol/postgres/utility.go:150-174 | The fields after a savepoint statement, with its order of checks. |
| TxSession.TxState.HandleSimpleQuery | protocol/postgres/postgres.go:384-600 | One statement by kind: control, savepoint, refused in an aborted transaction, or run and marked when it fails. |
| TxSession.TxState.RunBatch | protocol/postgres/multistatement.go:42-52 | The loop is the recursive run: to the first error, or the first answer that cannot be written. |
| TxSession.TxState.HandleMessage | protocol/postgres/multistatement.go:16-60 | The whole message, of one statement or a batch, is HandleQuery, of which the lemmas of SessionMessages and SessionTheorems speak: the choice of an implicit transaction, its begin, run and end. |
| SqlScan.SkipQuotedLoop | protocol/postgres/defaultexpr.go:111-126 | The loop finds the end of a quoted run, doubled quotes included. |
| SqlScan.SkipEscapeString | protocol/postgres/multistatement.go:184-198 | The loop finds the end of an E'…' string. |
| SqlScan.SkipBlockComment | protocol/postgres/blank.go:64-85 | The loop finds the end of a nested block comment, and whether it closes. |
| SqlScan.DollarTagLoop | protocol/postgres/multistatement.go:163-180 | The tag that opens a dollar-quoted body, or none. |
| SqlScan.ExecutableStartLoop | protocol/postgres/blank.go:31-55 | Where the first executable text begins. |
| SqlScan.OpenBodyLoop | protocol/postgres/multistatement.go:108-161 | Whether the text ends inside the body of a CREATE TRIGGER, FUNCTION or PROCEDURE: what that means is OpenBodies.OpenBodyCounts. |
| SqlScan.BodyTokenAt | protocol/postgres/multistatement.go:129-159 | The next token of a body, its weight, or that a dollar body stays open, as one turn of the loop takes it. |
| SqlScan.DepthLoop | protocol/postgres/multistatement.go:127-161 | The loop counts BEGIN and CASE against END outside quotes and comments, as OpenBodies.OpenBodyCounts says over positions. |
| SqlAutomaton.JumpsAgree | protocol/postgres/multistatement.go:65-106 | Where a scanner reads code, so does the one-character automaton; what the scanner jumps over holds no semicolon and no word of the code, it lands where the automaton reads code again, and the automaton is left in a dollar-quoted body exactly when that has no closing tag. |
| SplitStatements.NextIndex | protocol/postgres/multistatement.go:73-97 | Where one turn of the splitting loop goes on from a character that is no semicolon. |
| SplitStatements.Add | protocol/postgres/multistatement.go:67-71 | A piece is trimmed and kept unless nothing in it is executable. |
| SplitStatements.SplitLoop | protocol/postgres/multistatement.go:65-106 | The splitter cuts exactly at the automaton's semicolons outside an open body, and keeps the trimmed pieces that are not blank. |
| SplitTheorems.PiecesRejoin | protocol/postgres/multistatement.go:65-106 | The raw pieces joined by semicolons are the text. |
| SplitTheorems.EachStatementIsOne | protocol/postgres/multistatement.go:65-106 | Each statement returned splits to itself alone. |
| OpenBodies.OpenBodyCounts | protocol/postgres/multistatement.go:108-161 | A body is open exactly in a CREATE TRIGGER, FUNCTION or PROCEDURE in whose code the words BEGIN and CASE, counted over positions, outnumber the words END, and which does not end inside a dollar-quoted body; code being read without E'...' strings. |
| OpenBodies.OpenBodyCountsCode | protocol/postgres/multistatement.go:108-161 | The same of the code as the splitter reads it, for text without such strings. |
| OpenBodies.CreatesBodyMeans | protocol/postgres/multistatement.go:113-126 | Such a statement begins with CREATE, perhaps OR REPLACE, perhaps TEMP or TEMPORARY, and one of the three words. |
| TriggerBodies.TriggerIsOneStatement | protocol/postgres/multistatement.go:62-161 | A header, BEGIN, any number of statements with a semicolon each, END and a semicolon: the splitter returns the trigger as one statement, then what it returns for the rest. |
| TriggerBodies.EscapedApostropheHidesEnd | protocol/postgres/multistatement.go:130-133 | With an E'...' string of one escaped apostrophe in its body, the trigger counts as open after its END, where the splitter reads code. |
| BlankStatements.BlankExactly | protocol/postgres/blank.go:16-53 | A piece is dropped exactly when every character of it is white space, a semicolon or part of a comment, and no block comment is left open. |
| ColumnList.SplitTopLevelLoop | protocol/postgres/sequences.go:484-503 | The loop cuts exactly at the commas outside strings and parentheses, as the automaton sees them. |
| ColumnList.BalancedParen | protocol/postgres/rls.go:810-826 | The loop finds the parenthesis that closes the list, or takes everything. |
| ColumnList.PiecesRejoin | protocol/postgres/sequences.go:484-503 | The pieces joined by commas are the text. |
| ColumnList.DefinitionsSplitBack | protocol/postgres/sequences.go:484-503 | Balanced definitions without top-level commas, joined, split back into themselves. |
| ColumnList.PiecesAreDefinitions | protocol/postgres/sequences.go:484-503 | Each piece of a balanced list is itself balanced, without a top-level comma. |
| ColumnEdit.ParseKeepsText | protocol/postgres/alter.go:414-473 | Reading a column definition into name, type and constraints loses nothing but white space. |
| ColumnParts.TypeEndsAtFirst | protocol/postgres/alter.go:442-472 | The type ends at the first of eleven words standing outside parentheses, in any case, where no identifier goes on; or with the text. |
| ColumnParts.ParsesAsWritten | protocol/postgres/alter.go:414-473 | A plain or quoted name, a type without those words outside parentheses, and constraints that begin with one or are empty, written with white space between, are read as just these; as no column exactly when the name makes the definition look like a table constraint. |
| ColumnParts.PartsOfAny | protocol/postgres/alter.go:442-472 | Of any definition read as a column, the type holds none of the words outside parentheses and the constraints, unless empty, begin with one. |
| ColumnParts.RetypeKeepsConstraints | protocol/postgres/alter.go:190-214 | Changing a column's type rewrites one definition, which is then read as the name and the constraints it had with the new type, exactly when the name does not look like a table constraint. |
| ColumnParts.TypeWithConstraints | protocol/postgres/alter.go:190-196 | A new type that holds one of the words is read as a type up to it and constraints from it on, before those the column had. |
| ColumnParts.FoundByName | protocol/postgres/alter.go:398-402 | Any other column is found under its name without the quotes, in any case of letters, and under no other. |
| ColumnParts.LostColumn | protocol/postgres/alter.go:420-427 | A column whose name looks like a table constraint is found under no name. |
| ColumnParts.ChecksumIsLost | protocol/postgres/alter.go:420-427 | The column `checksum text` is found under no name. |
| ColumnEdit.EditFirstLoop | protocol/postgres/alter.go:398-406 | The loop edits the first definition of that name, table constraints passed over, or none. |
| ColumnEdit.EditColumn | protocol/postgres/alter.go:388-410 | The method returns what EditedTable specifies, of which the lemmas below speak; nothing when no column has the name. |
| ColumnEdit.ReadThenWrite | protocol/postgres/alter.go:388-410 | A table read and written out is the text it was read from. |
| ColumnEdit.WriteThenRead | protocol/postgres/alter.go:388-410 | Definitions written as a table are read back exactly when each is one definition. |
| ColumnEdit.EditChangesOneDefinition | protocol/postgres/alter.go:388-410 | Re-reading the edited text gives the same definitions but for the edited one, the text around the list unchanged, exactly when the edited definition is balanced with no top-level comma. |
| ColumnEdit.RestKeptExactly | protocol/postgres/alter.go:388-410 | The text after the list is kept by the edit exactly when the list is closed. |
| ColumnEdit.UnclosedDoublesLast | protocol/postgres/alter.go:388-410 | When the list is never closed the result is the text up to it, the edited definitions, and the last character once more. |
| ColumnEdit.LoneApostrophe | protocol/postgres/rls.go:810-826 | A single apostrophe in a list, in a quoted name for one, leaves it unclosed. |
| ColumnEdit.ApostropheInName | protocol/postgres/rls.go:810-826 | A CREATE TABLE with an apostrophe in a quoted column name is never closed. |
| ColumnNames.SplitsAsSqlExactly | protocol/postgres/sequences.go:484-503 | splitTopLevel cuts a list where a reader of SQL that knows quoted names and comments does, exactly when both agree at every comma; for names and comments without parentheses and apostrophes, exactly when none of them outside parentheses holds a comma. |
| ColumnNames.CommaInName | protocol/postgres/sequences.go:484-503 | A comma in a quoted name cuts it in two, and the reading that knows names does not. |
| NamedEdits.SeenExactly | protocol/postgres/sequences.go:484-503 | A definition splitTopLevel finds is one of that reader's, in the same place, exactly when it begins and ends in code. |
| NamedEdits.EditsWhatSqlSeesExactly | protocol/postgres/alter.go:388-410 | The text editColumn returns is the list as a reader of SQL cuts it, with one definition rewritten, exactly when the commas on both sides of that definition stand in code. |
| NamedEdits.SecondHalfNotInCode | protocol/postgres/alter.go:388-410 | The half of a quoted name after its first comma never is a definition of that reader's. |
| NamedEdits.HalfOfNameEdited | protocol/postgres/alter.go:388-410 | In a list with the one column "a,b", of two letters, the definition edited for a column b is the second half of that name. |
| Rationals.ReduceIsLowest | engine/decimal.go:199-208 | The exact quotient in lowest terms, as the rational library keeps it. |
| Rationals.LowestIsUnique | engine/decimal.go:199-208 | Equal rationals in lowest terms are the same. |
| Rationals.AddIsExact | engine/decimal.go:199-208 | Sums and differences have the exact value, in lowest terms. |
| Rationals.CmpComparesValues | engine/decimal.go:210-225 | Comparing by cross products is comparing values. |
| Rationals.OverIsExact | engine/decimal.go:97-100 | The mean has the exact value, in lowest terms. |
| DecimalDigits.FactorCount | engine/decimal.go:188-197 | The loop ends, having counted all factors p of a positive number. |
| DecimalDigits.DecimalDigits | engine/decimal.go:166-186 | The least number of fractional digits that makes the rational an integer when scaled, and -1 exactly when there is none. |
| DecimalText.FixedPointParses | engine/decimal.go:157-163 | A number written with a fixed number of digits, its zeros and point trimmed, reads back as that number. |
| DecimalExact.DecString | engine/decimal.go:147-164 | The text reads back as a plain decimal of at most 20 digits: the rational itself exactly when it needs no more, and within half of 10^-20 in any case. |
| DecimalSums.ParseDecValue | engine/decimal.go:138-145 | A plain decimal is read as exactly the number it denotes. |
| DecimalSums.FitsAdd | engine/decimal.go:199-208 | Sums and differences of numbers with at most k fractional digits have at most k. |
| DecimalSums.BinDec | engine/decimal.go:199-208 | dec_add and dec_sub of decimal texts of at most 20 digits give the text of the exact result; NULL exactly when an operand is no number. |
| DecimalSums.SlideSum | engine/decimal.go:80-88 | Subtracting the number that leaves a frame gives exactly the sum of those that stay. |
| DecimalSums.SumIsTotal | engine/decimal.go:60-78 | Adding a frame's numbers one by one gives its exact total. |
| DecimalSums.DecAgg.Step | engine/decimal.go:60-78 | The state stands for the frame with one more row. |
| DecimalSums.DecAgg.WindowInverse | engine/decimal.go:80-88 | The state stands for the frame without its first row. |
| DecimalSums.DecAgg.Value | engine/decimal.go:93-112 | NULL exactly for a frame without numbers; else the frame's sum or mean, the sum exact for numbers of at most 20 digits. |
| DecimalSums.DecSum.Step | engine/decimal.go:17-29 | The state stands for the frame with one more row. |
| DecimalSums.DecSum.WindowInverse | engine/decimal.go:31-38 | The state stands for the frame without its first row, and the flag stays. |
| DecimalSums.DecSum.Final | engine/decimal.go:43-48 | NULL exactly when no number has ever entered; else the frame's sum, and "0" for a frame numbers have left. |
| DecimalSums.EmptiedFrame | engine/decimal.go:31-48 | After one number has entered and left, dec_sum shows zero and sum shows NULL. |
| DecimalSums.CollationOrders | engine/decimal.go:210-225 | The DECIMAL collation is a total order, in which only equal texts and equal numbers tie and other text comes before every number. |
| Sequences.ExactUnlessWrapped | protocol/postgres/sequences.go:337-352 | For every row, whatever setval left in it, nextval hands out what unbounded arithmetic would exactly when the sum fits in 64 bits, or wraps past the bound too, or wraps to the value cycling restarts from. |
| Sequences.WithinBoundsExactly | protocol/postgres/sequences.go:337-352 | What a call hands out lies within the bounds exactly when the sum is not short of them. |
| Sequences.SetBelowBounds | protocol/postgres/sequences.go:375-401 | A sequence of 1 to 10 set to -50 hands out -49. |
| Sequences.Counts | protocol/postgres/sequences.go:337-356 | The k-th call on a fresh sequence, up or down, gives start + (k-1)·increment, within bounds, for each k up to floor((bound - start) / increment) + 1. |
| Sequences.AllDifferent | protocol/postgres/sequences.go:337-356 | Those values are all different. |
| Sequences.Ends | protocol/postgres/sequences.go:340-351 | Without CYCLE the next call fails exactly when the sum past the bound fits in 64 bits. |
| Sequences.StaysEnded | protocol/postgres/sequences.go:340-351 | Once a call has failed every later one fails, and the row does not change. |
| Sequences.Cycles | protocol/postgres/sequences.go:340-351 | With CYCLE the values go on from the other bound with period floor((max - min) / increment) + 1, up or down, when the sums past the bound do no harm. |
| Sequences.CyclesExactly | protocol/postgres/sequences.go:340-351 | They do so in every later call exactly when each sum past the bound fits in 64 bits or wraps to the value cycling restarts from. |
| Sequences.DefaultSequenceWraps | protocol/postgres/sequences.go:60-62 | At the default upper bound the next value is the lowest 64-bit integer, where an error is due. |
| Sequences.SequenceSession.Nextval | protocol/postgres/sequences.go:321-359 | The value, the row found without regard to case, and what the session has been given; nothing changes when there is no value. |
| Sequences.SequenceSession.Setval | protocol/postgres/sequences.go:375-401 | The row found without regard to case, and what the session has been given. |
| Sequences.SetThenCounts | protocol/postgres/sequences.go:375-401 | After setval within the bounds the k-th call counts k increments on, or one fewer when it was set as not called, as far as the bound. |
| Sequences.NextOf | protocol/postgres/sequences.go:337-352 | The branches of nextval choose the value that adding, bounds and CYCLE give. |
| Sequences.SequenceSession.DropSequence | protocol/postgres/sequences.go:158-173 | For each name of the list but the words of the statement, row and session value are gone, without regard to case; the sequence last used is still remembered by name. |
| Sequences.DropsExactly | protocol/postgres/sequences.go:158-173 | Just the sequences named, in any case, are dropped, the empty name, CASCADE and RESTRICT being none. |
| Sequences.SequenceSession.Currval | protocol/postgres/sequences.go:361-366 | After any run of calls, the value last handed out or set as called under any spelling of the name since the sequence was last dropped. |
| Sequences.SequenceSession.Lastval | protocol/postgres/sequences.go:368-373 | After any run of calls, the value last given of the sequence last used, or zero when that value is gone. |
| Sequences.LastUse | protocol/postgres/sequences.go:403-407 | What is left of the last use of a session is its value, or nothing exactly when the session has dropped that sequence since. |
| Sequences.RemembersUse | protocol/postgres/sequences.go:403-407 | The session maps keep standing for the history through a use and through a drop. |
| Sequences.DroppedLeavesZero | protocol/postgres/sequences.go:158-173 | nextval, DROP SEQUENCE and lastval, one after the other, give zero. |
| Sequences.NextvalTimes | protocol/postgres/sequences.go:321-359 | k calls of nextval hand out the first k values, one after another. |
| Ranges.ContainmentIsSound | engine/ranges.go:116-132 | What is found contained is a subset, for all ranges. |
| Ranges.ContainsMeans | engine/ranges.go:77-108 | A number is contained exactly when it lies between the bounds, ties as the bounds are closed or open. |
| Ranges.HasPoint | engine/ranges.go:187-203 | A range whose bounds are in order holds a number: a midpoint, or one beside its only bound. |
| Ranges.ContainsRangeExactly | engine/ranges.go:116-174 | Containment of a range in every other is decided rightly exactly when the range is written `empty`, or has numbers or nothing for its bounds, in order. |
| Ranges.MeetingOverlaps | engine/ranges.go:176-203 | Ranges with a number in common are always found to overlap. |
| Ranges.OverlapsExactly | engine/ranges.go:176-203 | Overlap of a range with every such range is decided rightly exactly when it is such a range itself, by a number in both between, beside or on the bounds. |
| Ranges.MakeRangeDenotes | engine/ranges.go:22-36 | The text built for each of the four kinds of bounds reads back as the range asked for, exactly unless both bounds are absent and it is not closed at both ends. |
| Ranges.EqualBoundsOutOfOrder | engine/ranges.go:22-36 | The range built from 1 and 1.0 closed below is not empty as written and not in order. |
| Ranges.TextBoundNotSensible | engine/ranges.go:22-75 | A range built upwards from a text without digits has no number for its lower bound and is not written `empty`. |
| Jsonb.Reflexive | engine/jsonfuncs.go:76-110 | Every value contains itself. |
| Jsonb.Transitive | engine/jsonfuncs.go:76-119 | Containment is transitive through objects, arrays and scalars in arrays. |
| Jsonb.ScalarIsLeaf | engine/jsonfuncs.go:104-119 | A scalar is contained exactly where some path of indices into arrays leads to it. |
| Jsonb.HeldScalarExactly | engine/jsonfuncs.go:76-119 | A scalar is contained just in itself and in arrays holding it, as the comment says, exactly when it is an element or no array among the elements leads to it. |
| Jsonb.PathsAreKept | engine/jsonfuncs.go:76-119 | A value containing another has each of its scalars at the same keys. |
| Jsonb.BranchIsContained | engine/jsonfuncs.go:81-90 | An object of one branch is contained exactly where its keys lead to its scalar through objects. |
| Jsonb.ArraysAsSets | engine/jsonfuncs.go:91-103 | Order and repetition in arrays do not matter. |
| Jsonb.PartIsContained | engine/jsonfuncs.go:81-90 | An object contains each part of itself, and such a part contains it only when no field is left out. |
| Jsonb.PartsInArray | engine/jsonfuncs.go:91-103 | An array of objects contains the array of parts of them. |
| Jsonb.NestedScalarIsContained | engine/jsonfuncs.go:104-119 | An array inside an array is searched for a scalar too. |
| CopyText.EscapeRoundTrip | protocol/postgres/copy.go:285-289 | Unescaping undoes escaping for every string. |
| CopyText.EscapedIsClean | protocol/postgres/copy.go:285-289 | Escaped text holds no tab, newline or carriage return, and only four letters after a backslash at its start. |
| CopyText.WrittenComesBack | protocol/postgres/copy.go:253-323 | What any rows come back as, for any NULL marker and number of columns. |
| CopyText.RoundTripExactly | protocol/postgres/copy.go:253-323 | Rows written and read come back exactly when the last line is not empty, no string is escaped to the marker, and each NULL's marker needs no escaping. |
| CopyText.StringsRoundTrip | protocol/postgres/copy.go:253-323 | With the default marker, rows of two or more strings always come back, whatever they hold. |
| CopyText.DefaultMarker | protocol/postgres/copy.go:253-273 | With the default marker every string survives and no NULL does. |
| CopyText.UnescapeLoop | protocol/postgres/copy.go:351-376 | The loop, with its short cut for text without backslashes, is the recursive unescaping. |
| CopyText.ReadRow | protocol/postgres/copy.go:311-319 | The fields of a line as cells, the marker as NULL. |
| CopyText.WriteRow | protocol/postgres/copy.go:253-273 | One row as its line. |
| CopyText.ParseCopyData | protocol/postgres/copy.go:291-323 | The loop reads lines to the end mark, and fails on a wrong number of fields. |
| CopyText.ReadToMark | protocol/postgres/copy.go:300-321 | The lines before the first end mark are read, a row each, exactly when all have as many fields as there are columns; what follows the mark does not count. |
| Hstore.QuoteReads | engine/hstore.go:132-136 | A quoted string, wherever it stands, reads as itself. |
| Hstore.PairReads | engine/hstore.go:15-46 | A written pair is read as one entry up to its comma. |
| Hstore.RoundTrip | engine/hstore.go:108-122 | Written with its keys in any order, every map of strings to string-or-NULL reads back as itself. |
| Hstore.WritingNormalises | engine/hstore.go:108-122 | Two texts are read as the same map exactly when their maps, written with sorted keys, give the same text. |
| Hstore.BarePairReads | engine/hstore.go:15-81 | A pair written without quotes reads as its key and its value, the word null in any case as NULL. |
| Hstore.BareEnds | engine/hstore.go:48-81 | A bare key ends at white space, an equals sign or a comma, a bare value at white space or a comma. |
| Hstore.ArrowIsNeeded | engine/hstore.go:15-46 | A key without a whole arrow after it gives no pair, and reading ends. |
| Hstore.QuotedLoop | engine/hstore.go:83-100 | The loop reads to the closing quote, or to the end. |
| Hstore.TokenAt | engine/hstore.go:48-63 | A quoted or bare key, and the position after it. |
| Hstore.ValueAt | engine/hstore.go:65-81 | A quoted or bare value, an unquoted null in any case as NULL. |
| Hstore.EntryAt | engine/hstore.go:18-42 | One round of the loop. |
| Hstore.HstoreIn | engine/hstore.go:15-46 | The reading loop ends on every text, each round getting past a key. |
| Hstore.HstoreOut | engine/hstore.go:108-122 | The text has the keys in ascending order and reads back as the map. |
| Hstore.SortedIsUnique | engine/hstore.go:110-117 | There is one ascending order of the keys of a map. |

## Left out

- AdvisoryTheorems.FreedLockIsTaken: waitAdvisory is its critical sections and the points between them, not a blocking method, and no fairness is claimed when several sessions wait for one lock.
- AdvisoryTheorems.WaitCallOutcome: parsing of the key arguments and replacing the call in the statement's text (protocol/postgres/advisory.go:61-202) are not modelled.
- DatabasePool.Dir.GetEngine: an open database is a value in the map, not an object shared with callers; the 64-bit stamp does not wrap; opening and removing files succeed or fail by parameters.
- DatabasePool.Dir.Release: a release, by a caller without a hold, of a database others hold is excluded.
- DatabasePool.Dir.DropDatabase: the wait in lockIdle is its outcome, and the side files next to the database are not modelled.
- NotifyTheorems.DeliveredInOrder: what is given to the connection counts as sent, as the code ignores errors of the connection there.
- SessionTheorems.BatchIsAtomic: a statement is a function of the store that may fail and leave a part of its change; statements that reach the database past the transaction, such as CREATE SCHEMA, are outside it, and a failed COMMIT is taken to lose the transaction.
- NotifySystem.StepKeepsInv: the parsing of LISTEN, UNLISTEN and NOTIFY (protocol/postgres/notify.go:115-198) is not modelled.
- TxSession.TxState.HandleMessage: the statements are given; splitting one ALTER TABLE into its actions is not modelled.
- Sequences.SequenceSession.DropSequence: the names are given; how the statement's text is cut into them is not modelled.
- SqlScan.OpenBodyLoop: text is ASCII, for case and for white space.
- TriggerBodies.TriggerIsOneStatement: the header begins with its first word, and header and statements hold no E'...' string, which `TriggerBodies.EscapedApostropheHidesEnd` shows to matter.
- ColumnParts.ParsesAsWritten: quoted names hold no doubled quotes, at which parseColDef ends a name.
- ColumnParts.RetypeKeepsConstraints: new types that hold one of the words are `ColumnParts.TypeWithConstraints`.
- NamedEdits.EditsWhatSqlSeesExactly: lists in which a quoted name or comment holds a parenthesis or an apostrophe are excluded; where splitTopLevel then cuts is `ColumnNames.SplitsAsSqlExactly`. Names quoted in other ways than with double quotes are not modelled.
- ColumnEdit.EditChangesOneDefinition: the edits themselves (addNotNull, setDefault and the others) are any function of name, type and constraints.
- DecimalSums.BinDec: numbers are plain decimals, and other texts hold no digit; surrounding space, exponents, plus signs and fraction bars, which the rational library reads too, are excluded. The library's printing is specified, not modelled.
- DecimalSums.ParseDecValue: of the texts the rational library reads, plain decimals only; the same holds of the bounds of ranges.
- DecimalSums.CollationOrders: the same texts as BinDec.
- DecimalSums.DecAgg.Value: the flags that choose an integer or floating result for integer and real columns.
- Sequences.SequenceSession.Nextval: the two SQL statements are one step and do not fail; option parsing of CREATE and ALTER SEQUENCE is not modelled.
- Hstore.HstoreOut: values are strings or NULL, and the JSON text around the map is the map.
- CopyText.WrittenComesBack: CSV format and delimiters other than tab, which the writer does not escape.
- decRound: goes through a 200-bit float.
- Dir.Close, the directory listing and single-file clusters: nothing to prove beyond closing everything.
- rebuildTable and the rest of ALTER TABLE: depend on SQLite's own schema rules.
- Sockets, TLS, authentication, message framing, the SQL dialect rewrites, the catalog views, GRANT and SET: input and output, or the meaning of other programs.
