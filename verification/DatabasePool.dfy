/**
 The pool of open databases: reference-counted engines, the idle ones closed oldest first once more
 than maxOpen are open (engine/cluster.go). Each public call is one step.
 */
module DatabasePool {
  import opened Options
  import opened Text

  type Engine = nat

  datatype OpenDB = OpenDB(eng: Engine, refs: int, used: nat)

  const MAINTENANCE := "postgres"

  predicate ValidDatabaseName(name: string) {
    && 0 < |name| <= 63 && IsIdentStart(name[0])
    && forall c <- name :: IsWordByte(c) || c == '-'
  }

  // -- History -------------------------------------------------------------------------------

  // What the callers have done, oldest first.
  datatype Event =
    | Opened(name: string, eng: Engine)
    | Released(name: string, eng: Engine)
    | Created(name: string)

  // The holds the callers still have: one per successful Engine call not yet released.
  ghost function Outstanding(log: seq<Event>): multiset<(string, Engine)> {
    if log == [] then multiset{}
    else
      var before := Outstanding(log[..|log| - 1]);
      match log[|log| - 1]
      case Opened(n, e) => before + multiset{(n, e)}
      case Released(n, e) => before - multiset{(n, e)}
      case Created(_) => before
  }

  predicate Uses(ev: Event, name: string) { ev.name == name && !ev.Released? }

  // How many uses there have been, and the number of the last use of a database, 0 if none.
  ghost function Clock(log: seq<Event>): nat {
    if log == [] then 0
    else Clock(log[..|log| - 1]) + (if log[|log| - 1].Released? then 0 else 1)
  }

  ghost function LastUse(log: seq<Event>, name: string): nat {
    if log == [] then 0
    else if Uses(log[|log| - 1], name) then Clock(log)
    else LastUse(log[..|log| - 1], name)
  }

  lemma {:induction false} LastUseByClock(log: seq<Event>, n: string)
    ensures LastUse(log, n) <= Clock(log)
  {
    if log != [] { LastUseByClock(log[..|log| - 1], n); }
  }

  lemma {:induction false} LastUsesDiffer(log: seq<Event>, n: string, m: string)
    requires n != m && LastUse(log, n) > 0
    ensures LastUse(log, n) != LastUse(log, m)
  {
    var before := log[..|log| - 1];
    LastUseByClock(before, n);
    LastUseByClock(before, m);
    if !Uses(log[|log| - 1], n) && !Uses(log[|log| - 1], m) { LastUsesDiffer(before, n, m); }
  }

  // -- Eviction ------------------------------------------------------------------------------

  predicate Idle(e: OpenDB) { e.refs <= 0 }

  // What eviction leaves: everything in use, the idle databases last used, and no fewer of them
  // than fit.
  ghost predicate EvictedTo(was: map<string, OpenDB>, max: nat, now: map<string, OpenDB>) {
    && EvictedSoFar(was, max, now)
    && (|now| <= max || forall n <- now :: !Idle(now[n]))
  }

  ghost predicate EvictedSoFar(was: map<string, OpenDB>, max: nat, now: map<string, OpenDB>) {
    && now.Keys <= was.Keys
    && (forall n <- now :: now[n] == was[n])
    && (forall n <- was | n !in now :: Idle(was[n]))
    && (forall n <- was, m <- now | n !in now && Idle(was[m]) :: was[n].used < was[m].used)
    && (now != was ==> |now| >= max)
  }

  ghost predicate Stamped(open: map<string, OpenDB>) {
    forall n <- open, m <- open | n != m :: open[n].used != open[m].used
  }

  lemma FewerKeys(a: map<string, OpenDB>, b: map<string, OpenDB>, n: string)
    requires a.Keys <= b.Keys && n in b && n !in a
    ensures |a| < |b|
  {
    assert a.Keys <= b.Keys - {n};
    SubsetSize(a.Keys, b.Keys - {n});
  }

  lemma {:induction false} SubsetSize(a: set<string>, b: set<string>)
    requires a <= b
    ensures |a| <= |b|
  {
    if x :| x in a {
      SubsetSize(a - {x}, b - {x});
    }
  }

  lemma Older(was: map<string, OpenDB>, max: nat, a: map<string, OpenDB>, n: string, m: string)
    requires EvictedSoFar(was, max, a) && n in was && n !in a && m in a
    ensures Idle(was[n]) && (Idle(was[m]) ==> was[n].used < was[m].used)
  {
  }

  // Of two outcomes, what one keeps and the other closes is older than nothing the other keeps.
  lemma KeepsMore(was: map<string, OpenDB>, max: nat, a: map<string, OpenDB>, b: map<string, OpenDB>, n: string)
    requires EvictedSoFar(was, max, a) && EvictedSoFar(was, max, b) && n in b && n !in a
    ensures a.Keys <= b.Keys && |b| > max && Idle(b[n])
  {
    forall m | m in a ensures m in b { Older(was, max, a, n, m); }
    FewerKeys(a, b, n);
  }

  lemma KeepsNoMore(was: map<string, OpenDB>, max: nat, a: map<string, OpenDB>, b: map<string, OpenDB>)
    requires EvictedTo(was, max, a) && EvictedTo(was, max, b)
    ensures b.Keys <= a.Keys
  {
    forall n | n in b ensures n in a {
      if n !in a { KeepsMore(was, max, a, b, n); }
    }
  }

  // However the map is walked, eviction ends in one place.
  lemma EvictionIsDetermined(was: map<string, OpenDB>, max: nat, a: map<string, OpenDB>, b: map<string, OpenDB>)
    requires EvictedTo(was, max, a) && EvictedTo(was, max, b)
    ensures a == b
  {
    KeepsNoMore(was, max, a, b);
    KeepsNoMore(was, max, b, a);
  }

  // -- The pool ------------------------------------------------------------------------------

  datatype Pool = Pool(open: map<string, OpenDB>, clock: nat, files: set<string>, closed: set<Engine>, engines: nat)

  // In every reachable state: an entry's count is the number of holds on it, no hold is on
  // anything but the open engine of its name, and every open engine is live and its own.
  ghost predicate Sound(p: Pool, max: nat, log: seq<Event>) {
    Ready(p, log) && Capped(p, max)
  }

  // All of that but the cap, which eviction is to restore.
  ghost predicate Ready(p: Pool, log: seq<Event>) { Conserves(p, log) && Entries(p, log) && Engines(p) }

  ghost predicate Conserves(p: Pool, log: seq<Event>) {
    forall h: (string, Engine) {:trigger Outstanding(log)[h]} ::
      Outstanding(log)[h] == Refs(p, h)
  }

  ghost function Refs(p: Pool, h: (string, Engine)): int {
    if h.0 in p.open && p.open[h.0].eng == h.1 then p.open[h.0].refs else 0
  }

  ghost predicate Entries(p: Pool, log: seq<Event>) {
    && p.clock == Clock(log)
    && forall n <- p.open ::
         && ValidDatabaseName(n) && n in p.files
         && p.open[n].refs >= 0
         && p.open[n].used == LastUse(log, n) > 0
  }

  ghost predicate Engines(p: Pool) {
    && (forall n <- p.open :: p.open[n].eng < p.engines && p.open[n].eng !in p.closed)
    && (forall n <- p.open, m <- p.open | n != m :: p.open[n].eng != p.open[m].eng)
    && (forall e <- p.closed :: e < p.engines)
  }

  ghost predicate Capped(p: Pool, max: nat) {
    |p.open| <= max || forall n <- p.open :: !Idle(p.open[n])
  }

  lemma SoundIsStamped(p: Pool, log: seq<Event>)
    requires Entries(p, log)
    ensures Stamped(p.open) && forall n <- p.open :: p.open[n].used <= p.clock
  {
    forall n, m | n in p.open && m in p.open && n != m ensures p.open[n].used != p.open[m].used {
      LastUsesDiffer(log, n, m);
    }
    forall n | n in p.open ensures p.open[n].used <= p.clock { LastUseByClock(log, n); }
  }

  // Whoever holds a database finds it open, under its name, and its engine not closed.
  lemma HeldIsOpen(p: Pool, max: nat, log: seq<Event>, name: string, eng: Engine)
    requires Sound(p, max, log) && (name, eng) in Outstanding(log)
    ensures name in p.open && p.open[name].eng == eng && eng !in p.closed
    ensures Outstanding(log)[(name, eng)] == p.open[name].refs
  {
    assert Outstanding(log)[(name, eng)] == Refs(p, (name, eng));
  }

  // The engines that closing takes away.
  ghost function Dropped(was: map<string, OpenDB>, now: map<string, OpenDB>): set<Engine> {
    set n | n in was && n !in now :: was[n].eng
  }

  // Eviction, as one step of the pool.
  ghost predicate Evicts(was: Pool, max: nat, now: Pool) {
    Evicting(was, max, now) && EvictedTo(was.open, max, now.open)
  }

  ghost predicate Evicting(was: Pool, max: nat, now: Pool) {
    && EvictedSoFar(was.open, max, now.open)
    && now == was.(open := now.open, closed := was.closed + Dropped(was.open, now.open))
  }

  lemma EvictionStarts(p: Pool, max: nat)
    ensures Evicting(p, max, p)
  {
    assert Dropped(p.open, p.open) == {};
  }

  ghost predicate IsOldestIdle(open: map<string, OpenDB>, victim: string) {
    && victim in open && Idle(open[victim])
    && forall n <- open | Idle(open[n]) :: open[victim].used <= open[n].used
  }

  function Without(p: Pool, victim: string): Pool
    requires victim in p.open
  {
    p.(open := p.open - {victim}, closed := p.closed + {p.open[victim].eng})
  }

  lemma EvictOne(was: map<string, OpenDB>, max: nat, now: map<string, OpenDB>, victim: string)
    requires EvictedSoFar(was, max, now) && |now| > max
    requires victim in now && Idle(now[victim]) && Stamped(was)
    requires forall n <- now | Idle(now[n]) :: now[victim].used <= now[n].used
    ensures EvictedSoFar(was, max, now - {victim}) && |now - {victim}| == |now| - 1
  {
    var next := now - {victim};
    assert next.Keys == now.Keys - {victim};
    forall n, m | n in was && n !in next && m in next && Idle(was[m]) ensures was[n].used < was[m].used {
      if n == victim { assert was[victim].used <= was[m].used; }
    }
  }

  lemma EvictingOn(was: Pool, max: nat, now: Pool, victim: string)
    requires Evicting(was, max, now) && |now.open| > max && Stamped(was.open)
    requires IsOldestIdle(now.open, victim)
    ensures Evicting(was, max, Without(now, victim)) && |Without(now, victim).open| < |now.open|
  {
    EvictOne(was.open, max, now.open, victim);
    var next := now.open - {victim};
    assert Dropped(was.open, next) == Dropped(was.open, now.open) + {now.open[victim].eng};
  }

  // Closing idle databases keeps everything but the cap, which eviction restores.
  lemma EvictionKeepsSound(p: Pool, max: nat, log: seq<Event>, q: Pool)
    requires Ready(p, log) && Evicting(p, max, q) && Capped(q, max)
    ensures Sound(q, max, log) && Evicts(p, max, q)
  {
    forall h: (string, Engine) ensures Outstanding(log)[h] == Refs(q, h) {
      assert Outstanding(log)[h] == Refs(p, h);
    }
  }

  // The pool once name's entry, with one more hold than before, has been used.
  function WithOpened(p: Pool, name: string): Pool {
    if name in p.open then
      var e := p.open[name];
      p.(open := p.open[name := OpenDB(e.eng, e.refs + 1, p.clock + 1)], clock := p.clock + 1)
    else
      p.(open := p.open[name := OpenDB(p.engines, 1, p.clock + 1)], clock := p.clock + 1, engines := p.engines + 1)
  }

  lemma OpenedConserves(p: Pool, log: seq<Event>, name: string, eng: Engine)
    requires Conserves(p, log) && Engines(p)
    requires eng == if name in p.open then p.open[name].eng else p.engines
    ensures Conserves(WithOpened(p, name), log + [Opened(name, eng)])
  {
    forall h: (string, Engine) ensures Outstanding(log + [Opened(name, eng)])[h] == Refs(WithOpened(p, name), h) {
      assert Outstanding(log)[h] == Refs(p, h);
    }
  }

  lemma OpenedEntries(p: Pool, log: seq<Event>, name: string, eng: Engine)
    requires Entries(p, log) && ValidDatabaseName(name) && name in p.files
    ensures Entries(WithOpened(p, name), log + [Opened(name, eng)])
  {
  }

  lemma OpenedKeeps(p: Pool, log: seq<Event>, name: string, eng: Engine)
    requires Ready(p, log) && ValidDatabaseName(name) && name in p.files
    requires eng == if name in p.open then p.open[name].eng else p.engines
    ensures Ready(WithOpened(p, name), log + [Opened(name, eng)])
  {
    OpenedConserves(p, log, name, eng);
    OpenedEntries(p, log, name, eng);
  }

  function WithCreated(p: Pool, name: string): Pool {
    p.(open := p.open[name := OpenDB(p.engines, 0, p.clock + 1)], clock := p.clock + 1,
       engines := p.engines + 1, files := p.files + {name})
  }

  lemma CreatedKeeps(p: Pool, log: seq<Event>, name: string)
    requires Ready(p, log) && ValidDatabaseName(name) && name !in p.files
    ensures Ready(WithCreated(p, name), log + [Created(name)])
  {
    var q := WithCreated(p, name);
    forall h: (string, Engine) ensures Outstanding(log + [Created(name)])[h] == Refs(q, h) {
      assert Outstanding(log)[h] == Refs(p, h);
    }
  }

  function WithReleased(p: Pool, name: string): Pool
    requires name in p.open
  {
    var e := p.open[name];
    p.(open := p.open[name := OpenDB(e.eng, e.refs - 1, e.used)])
  }

  lemma ReleasedKeeps(p: Pool, log: seq<Event>, name: string, eng: Engine)
    requires Ready(p, log) && (name, eng) in Outstanding(log)
    ensures name in p.open && p.open[name].eng == eng && p.open[name].refs > 0
    ensures Ready(WithReleased(p, name), log + [Released(name, eng)])
  {
    var ev := Released(name, eng);
    assert Outstanding(log)[(name, eng)] == Refs(p, (name, eng));
    var q := WithReleased(p, name);
    forall h: (string, Engine) ensures Outstanding(log + [ev])[h] == Refs(q, h) {
      assert Outstanding(log)[h] == Refs(p, h);
    }
  }

  function WithDropped(p: Pool, name: string, removes: bool): Pool {
    (if name in p.open then Without(p, name) else p).(files := p.files - if removes then {name} else {})
  }

  lemma DropKeepsSound(p: Pool, max: nat, log: seq<Event>, name: string, removes: bool)
    requires Sound(p, max, log) && !Held(log, name)
    ensures Sound(WithDropped(p, name, removes), max, log)
  {
    HeldIff(p, max, log, name);
  }

  ghost predicate Held(log: seq<Event>, name: string) { exists e :: (name, e) in Outstanding(log) }

  // The outcome of waiting for a database to be idle: it is in use exactly while someone holds it.
  lemma HeldIff(p: Pool, max: nat, log: seq<Event>, name: string)
    requires Sound(p, max, log)
    ensures Held(log, name) <==> name in p.open && p.open[name].refs != 0
  {
    if name in p.open {
      assert Outstanding(log)[(name, p.open[name].eng)] == Refs(p, (name, p.open[name].eng));
      assert (name, p.open[name].eng) in Outstanding(log) <==> p.open[name].refs != 0;
    }
    forall e | (name, e) in Outstanding(log) ensures name in p.open && p.open[name].refs != 0 {
      HeldIsOpen(p, max, log, name, e);
    }
  }

  lemma HitKeepsSound(p: Pool, max: nat, log: seq<Event>, name: string, eng: Engine)
    requires Sound(p, max, log) && name in p.open && eng == p.open[name].eng && name in p.files
    ensures Sound(WithOpened(p, name), max, log + [Opened(name, eng)])
  {
    OpenedKeeps(p, log, name, eng);
    assert WithOpened(p, name).open.Keys == p.open.Keys;
    SubsetSize(WithOpened(p, name).open.Keys, p.open.Keys);
  }

  lemma JustOpened(p: Pool, max: nat, log: seq<Event>, name: string, eng: Engine)
    requires Sound(p, max, log + [Opened(name, eng)])
    ensures name in p.open && p.open[name].eng == eng && eng !in p.closed
  {
    var ev := Opened(name, eng);
    assert Outstanding(log + [ev]) == Outstanding(log) + multiset{(name, eng)};
    HeldIsOpen(p, max, log + [ev], name, eng);
  }

  lemma EvictsNothing(p: Pool, max: nat, q: Pool)
    requires Capped(p, max) && Evicts(p, max, q)
    ensures q == p
  {
    EvictionStarts(p, max);
    EvictionIsDetermined(p.open, max, p.open, q.open);
  }

  // The databases someone holds.
  function BusyNames(p: Pool): set<string> { set n | n in p.open && p.open[n].refs > 0 }

  // A database just created is held by nobody and was used last: eviction closes it at once exactly
  // when as many databases are in use as may be open.
  lemma CreatedIsClosed(p: Pool, max: nat, log: seq<Event>, name: string, q: Pool)
    requires Ready(p, log) && name !in p.open && max > 0 && Evicts(WithCreated(p, name), max, q)
    ensures name !in q.open <==> |BusyNames(p)| >= max
  {
    SoundIsStamped(p, log);
    var was := WithCreated(p, name).open;
    NewestStays(p.open, was, max, name, q.open, BusyNames(p));
  }

  lemma NewestStays(open: map<string, OpenDB>, was: map<string, OpenDB>, max: nat, name: string,
                    now: map<string, OpenDB>, busy: set<string>)
    requires name !in open && name in was && was == open[name := was[name]] && Idle(was[name]) && max > 0
    requires forall n <- open :: open[n].used < was[name].used && (n in busy <==> !Idle(open[n]))
    requires busy <= open.Keys && EvictedTo(was, max, now)
    ensures name !in now <==> |busy| >= max
  {
    if name in now {
      SubsetSize(busy + {name}, now.Keys);
    } else {
      forall m | m in now ensures m in busy { Older(was, max, now, name, m); }
      SubsetSize(now.Keys, busy);
    }
  }

  datatype OpenError = NoSuchDatabase | CannotOpen
  datatype CreateError = CreatedIt | BadName | Exists | CannotCreate
  datatype DropError = DroppedIt | IsMaintenance | IsEntry | DoesNotExist | InUse | CannotRemove

  function CreateAnswer(p: Pool, name: string, opens: bool): CreateError {
    if !ValidDatabaseName(name) then BadName
    else if name in p.files then Exists
    else if !opens then CannotCreate
    else CreatedIt
  }

  function DropAnswer(p: Pool, entry: string, held: bool, name: string, removes: bool): DropError {
    if name == MAINTENANCE then IsMaintenance
    else if name == entry then IsEntry
    else if name !in p.files then DoesNotExist
    else if held then InUse
    else if removes then DroppedIt
    else CannotRemove
  }

  class Dir {
    const entry: string
    const maxOpen: nat
    var open: map<string, OpenDB>
    var clock: nat
    // The directory, the engines that have been closed, and the number ever opened.
    var files: set<string>
    var closed: set<Engine>
    var engines: nat
    ghost var log: seq<Event>

    ghost function View(): Pool
      reads this
    {
      Pool(open, clock, files, closed, engines)
    }

    ghost predicate Valid()
      reads this
    {
      maxOpen > 0 && Sound(View(), maxOpen, log)
    }

    constructor (entry: string, maxOpen: nat, files: set<string>)
      ensures Valid() && open == map[] && log == []
      ensures this.entry == entry && this.maxOpen == (if maxOpen == 0 then 64 else maxOpen) && this.files == files
    {
      this.entry, this.maxOpen := entry, if maxOpen == 0 then 64 else maxOpen;
      open, clock, this.files, closed, engines, log := map[], 0, files, {}, 0, [];
    }

    // The database to give out, or the reason there is none. A database already open is given out
    // as it is; opening another may close idle ones, never the one given out.
    method GetEngine(database: string, opens: bool) returns (eng: Engine, error: Option<OpenError>)
      requires Valid()
      modifies this
      ensures Valid()
      ensures error == if !ValidDatabaseName(database) || database !in old(files) then Some(NoSuchDatabase)
                       else if database !in old(open) && !opens then Some(CannotOpen) else None
      ensures error.Some? ==> View() == old(View()) && log == old(log)
      ensures error.None? ==> log == old(log) + [Opened(database, eng)]
      ensures error.None? && database in old(open) ==> View() == WithOpened(old(View()), database)
      ensures error.None? && database !in old(open) ==> Evicts(WithOpened(old(View()), database), maxOpen, View())
      ensures error.None? ==> database in open && open[database].eng == eng && eng !in closed
    {
      eng, error := 0, None;
      if database == "" || !ValidDatabaseName(database) || database !in files {
        error := Some(NoSuchDatabase);
      } else if database in open {
        eng := open[database].eng;
        HitKeepsSound(View(), maxOpen, log, database, eng);
        clock := clock + 1;
        open := open[database := OpenDB(eng, open[database].refs + 1, clock)];
        log := log + [Opened(database, eng)];
        assert View() == WithOpened(old(View()), database);
      } else if !opens {
        error := Some(CannotOpen);
      } else {
        eng := AddOpened(database);
      }
    }

    method AddOpened(database: string) returns (eng: Engine)
      requires Valid() && ValidDatabaseName(database) && database in files && database !in open
      modifies this
      ensures Valid() && log == old(log) + [Opened(database, eng)]
      ensures Evicts(WithOpened(old(View()), database), maxOpen, View())
      ensures database in open && open[database].eng == eng && eng !in closed
    {
      eng := engines;
      OpenedKeeps(View(), log, database, eng);
      clock := clock + 1;
      open := open[database := OpenDB(eng, 1, clock)];
      engines := engines + 1;
      log := log + [Opened(database, eng)];
      assert View() == WithOpened(old(View()), database);
      EvictLocked();
      JustOpened(View(), maxOpen, old(log), database, eng);
    }

    // Gives a hold back: the one on the engine the caller was given. A caller without a hold, of a
    // database nobody holds, changes nothing.
    method Release(database: string, ghost held: Option<Engine>)
      requires Valid()
      requires if held.Some? then (database, held.value) in Outstanding(log) else !Held(log, database)
      modifies this
      ensures Valid()
      ensures log == old(log) + if held.Some? then [Released(database, held.value)] else []
      ensures held.Some? ==> database in old(open) && Evicts(WithReleased(old(View()), database), maxOpen, View())
      ensures held.None? ==> View() == old(View())
    {
      HeldIff(View(), maxOpen, log, database);
      if database in open && open[database].refs > 0 {
        GiveBack(database, held.value);
      } else {
        EvictLocked();
        EvictsNothing(old(View()), maxOpen, View());
      }
    }

    method GiveBack(database: string, ghost eng: Engine)
      requires Valid() && (database, eng) in Outstanding(log)
      modifies this
      ensures Valid() && log == old(log) + [Released(database, eng)]
      ensures database in old(open) && Evicts(WithReleased(old(View()), database), maxOpen, View())
    {
      ReleasedKeeps(View(), log, database, eng);
      var e := open[database];
      open := open[database := OpenDB(e.eng, e.refs - 1, e.used)];
      log := log + [Released(database, eng)];
      assert View() == WithReleased(old(View()), database);
      EvictLocked();
    }

    // The idle database with the smallest stamp, or "" when all are in use.
    method OldestIdle() returns (victim: string)
      requires "" !in open
      ensures victim == "" ==> forall n <- open :: !Idle(open[n])
      ensures victim != "" ==> IsOldestIdle(open, victim)
    {
      victim := "";
      var oldest := 0;
      var names := open.Keys;
      while names != {}
        invariant names <= open.Keys
        invariant victim == "" ==> forall n <- open.Keys - names :: !Idle(open[n])
        invariant victim != "" ==>
            (&& victim in open && Idle(open[victim]) && oldest == open[victim].used
             && forall n <- open.Keys - names | Idle(open[n]) :: oldest <= open[n].used)
      {
        var name :| name in names;
        names := names - {name};
        var e := open[name];
        if e.refs > 0 { continue; }
        if victim == "" || e.used < oldest {
          victim, oldest := name, e.used;
        }
      }
    }

    method EvictLocked()
      requires Ready(View(), log) && maxOpen > 0
      modifies `open, `closed
      ensures Valid()
      ensures Evicts(old(View()), maxOpen, View())
    {
      ghost var p := View();
      SoundIsStamped(p, log);
      EvictionStarts(p, maxOpen);
      while |open| > maxOpen
        invariant Evicting(p, maxOpen, View())
        decreases |open|
      {
        var victim := OldestIdle();
        if victim == "" { break; }
        EvictingOn(p, maxOpen, View(), victim);
        closed := closed + {open[victim].eng};
        open := open - {victim};
      }
      EvictionKeepsSound(p, maxOpen, log, View());
    }

    // A new file, and its engine, which nobody holds yet: eviction may close it at once. A failed
    // open may leave the file behind.
    method CreateDatabase(database: string, opens: bool, leavesFile: bool) returns (r: CreateError)
      requires Valid()
      modifies this
      ensures Valid()
      ensures r == CreateAnswer(old(View()), database, opens)
      ensures r.CannotCreate? ==>
          View() == old(View()).(files := old(files) + if leavesFile then {database} else {})
      ensures !r.CreatedIt? && !r.CannotCreate? ==> View() == old(View())
      ensures log == old(log) + if r.CreatedIt? then [Created(database)] else []
      ensures r.CreatedIt? ==> Evicts(WithCreated(old(View()), database), maxOpen, View())
      ensures r.CreatedIt? ==> files == old(files) + {database}
      ensures r.CreatedIt? ==> (database !in open <==> |BusyNames(old(View()))| >= maxOpen)
    {
      if !ValidDatabaseName(database) {
        r := BadName;
      } else if database in files {
        r := Exists;
      } else if !opens {
        if leavesFile { files := files + {database}; }
        r := CannotCreate;
      } else {
        AddCreated(database);
        CreatedIsClosed(old(View()), maxOpen, old(log), database, View());
        r := CreatedIt;
      }
    }

    method AddCreated(database: string)
      requires Valid() && ValidDatabaseName(database) && database !in files
      modifies this
      ensures Valid() && log == old(log) + [Created(database)]
      ensures Evicts(WithCreated(old(View()), database), maxOpen, View())
    {
      CreatedKeeps(View(), log, database);
      files := files + {database};
      clock := clock + 1;
      open := open[database := OpenDB(engines, 0, clock)];
      engines := engines + 1;
      log := log + [Created(database)];
      assert View() == WithCreated(old(View()), database);
      EvictLocked();
    }

    // Drops a database nobody holds, or gives up when someone still does after the wait.
    method DropDatabase(database: string, removes: bool) returns (r: DropError)
      requires Valid()
      modifies this
      ensures Valid() && log == old(log)
      ensures r == DropAnswer(old(View()), entry, Held(old(log), database), database, removes)
      ensures View() == if r.DroppedIt? || r.CannotRemove? then WithDropped(old(View()), database, removes)
                        else old(View())
      ensures r.DroppedIt? || r.CannotRemove? <==>
                && database in old(files) && !Held(old(log), database)
                && database != MAINTENANCE && database != entry
      ensures files == if r.DroppedIt? then old(files) - {database} else old(files)
      ensures open == if r.DroppedIt? || r.CannotRemove? then old(open) - {database} else old(open)
      ensures closed == if (r.DroppedIt? || r.CannotRemove?) && database in old(open)
                        then old(closed) + {old(open)[database].eng} else old(closed)
    {
      HeldIff(View(), maxOpen, log, database);
      if database == MAINTENANCE {
        r := IsMaintenance;
      } else if database == entry {
        r := IsEntry;
      } else if database !in files {
        r := DoesNotExist;
      } else if database in open && open[database].refs != 0 {
        r := InUse;
      } else {
        CloseAndRemove(database, removes);
        r := if removes then DroppedIt else CannotRemove;
      }
    }

    method CloseAndRemove(database: string, removes: bool)
      requires Valid() && !Held(log, database)
      modifies `open, `closed, `files
      ensures Valid() && View() == WithDropped(old(View()), database, removes)
    {
      DropKeepsSound(View(), maxOpen, log, database, removes);
      if database in open {
        closed := closed + {open[database].eng};
        open := open - {database};
      }
      if removes { files := files - {database}; }
      assert View() == WithDropped(old(View()), database, removes);
    }
  }
}
