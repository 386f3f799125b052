/**
 Every interleaving of sessions that listen, notify, answer and leave: the critical sections of
 protocol/postgres/notify.go inside the message loop of protocol/postgres/extended.go.
 */
module NotifySystem {
  import opened Notifications

  // Where a session's goroutine stands between two critical sections.
  datatype Pc =
    | Waiting                                      // for the next message
    | Running                                      // handling one
    | Listening(ch: Channel)                       // in s.listens, not yet registered
    | Unlistening(ch: Channel)                     // out of s.listens, still registered
    | UnlisteningAll(channels: set<Channel>)        // channels still to unregister from
    | Publishing(note: Note, left: set<Session>)   // targets gathered, some still to hand it to
    | Left

  // `queued` is history: what has been enqueued for the session.
  datatype Sess = Sess(pc: Pc, listens: set<Channel>, line: Line, queued: seq<Note>)

  datatype System = System(channels: Channels, sessions: map<Session, Sess>)

  const INITIAL := System(map[], map[])

  datatype Event =
    | Connect(s: Session)
    | Read(s: Session)
    | Answer(s: Session, message: nat)
    | Finish(s: Session, idle: bool)     // idle: after Query and Sync; else an unfinished cycle
    | Listen(s: Session, ch: Channel)
    | Unlisten(s: Session, ch: Channel)
    | UpdateRegistry(s: Session)
    | UnlistenAll(s: Session)
    | UnlistenNext(s: Session, ch: Channel)
    | UnlistenEnd(s: Session)
    | Notify(s: Session, ch: Channel, payload: string)
    | HandTo(s: Session, target: Session)
    | NotifyEnd(s: Session)
    | Leave(s: Session)

  predicate Enabled(sys: System, e: Event) {
    if e.Connect? then e.s !in sys.sessions
    else
      && e.s in sys.sessions
      && var pc := sys.sessions[e.s].pc;
         match e
         case Connect(_) => false
         case Read(_) => pc.Waiting?
         case UpdateRegistry(_) => pc.Listening? || pc.Unlistening?
         case UnlistenNext(_, ch) => pc.UnlisteningAll? && ch in pc.channels
         case UnlistenEnd(_) => pc.UnlisteningAll? && pc.channels == {}
         case HandTo(_, t) => pc.Publishing? && t in pc.left && t in sys.sessions
         case NotifyEnd(_) => pc.Publishing? && pc.left == {}
         case Leave(_) => pc.Waiting? || pc.Running?
         case _ => pc.Running?
  }

  function With(sys: System, s: Session, t: Sess): System { sys.(sessions := sys.sessions[s := t]) }

  function Step(sys: System, e: Event): System
    requires Enabled(sys, e)
  {
    if e.Connect? then With(sys, e.s, Sess(Running, {}, START, []))
    else
      var t := sys.sessions[e.s];
      match e
      case Read(s) => With(sys, s, t.(pc := Running, line := GoBusy(t.line)))
      case Answer(s, m) => With(sys, s, t.(line := Write(t.line, m)))
      case Finish(s, idle) => With(sys, s, t.(pc := Waiting, line := if idle then GoIdle(t.line) else t.line))
      case Listen(s, ch) => With(sys, s, t.(pc := Listening(ch), listens := t.listens + {ch}))
      case Unlisten(s, ch) => With(sys, s, t.(pc := Unlistening(ch), listens := t.listens - {ch}))
      case UpdateRegistry(s) =>
        With(sys, s, t.(pc := Running)).(channels :=
          if t.pc.Listening? then Register(sys.channels, t.pc.ch, s) else Unregister(sys.channels, t.pc.ch, s))
      case UnlistenAll(s) => With(sys, s, t.(pc := UnlisteningAll(t.listens)))
      case UnlistenNext(s, ch) =>
        With(sys, s, t.(pc := UnlisteningAll(t.pc.channels - {ch}))).(channels := Unregister(sys.channels, ch, s))
      case UnlistenEnd(s) => With(sys, s, t.(pc := Running, listens := {}))
      case Notify(s, ch, payload) =>
        With(sys, s, t.(pc := Publishing(Note(s, ch, payload), Listeners(sys.channels, ch))))
      case HandTo(s, target) =>
        Handed(With(sys, s, t.(pc := Publishing(t.pc.note, t.pc.left - {target}))), t.pc.note, target)
      case NotifyEnd(s) => With(sys, s, t.(pc := Running))
      case Leave(s) => With(sys, s, t.(pc := Left)).(channels := UnregisterAll(sys.channels, s))
  }

  function Handed(sys: System, n: Note, target: Session): System
    requires target in sys.sessions
  {
    var u := sys.sessions[target];
    With(sys, target, u.(line := Enqueue(u.line, n), queued := u.queued + [n]))
  }

  ghost predicate Run(from: System, events: seq<Event>, to: System)
    decreases |events|
  {
    if events == [] then from == to
    else Enabled(from, events[0]) && Run(Step(from, events[0]), events[1..], to)
  }

  ghost predicate Reachable(sys: System) { exists events :: Run(INITIAL, events, sys) }

  // -- The invariant -------------------------------------------------------------------------

  // A session's own set of channels and the registry agree, but for a change half made.
  ghost predicate Agrees(cs: Channels, s: Session, t: Sess) {
    forall ch :: AgreesOn(t, ch, s in Listeners(cs, ch))
  }

  ghost predicate AgreesOn(t: Sess, ch: Channel, registered: bool) {
    match t.pc
    case Listening(c) => if ch == c then ch in t.listens else registered <==> ch in t.listens
    case Unlistening(c) => if ch == c then ch !in t.listens else registered <==> ch in t.listens
    case UnlisteningAll(rest) => registered <==> ch in rest
    case Left => !registered
    case _ => registered <==> ch in t.listens
  }

  ghost predicate SessOk(cs: Channels, s: Session, t: Sess) {
    && LineOk(t.line, t.queued)
    && Agrees(cs, s, t)
    && (t.pc.Publishing? ==> t.pc.note.from == s)
    && (t.line.idle ==> t.pc.Waiting? || t.pc.Left?)
  }

  ghost predicate Known(sys: System) {
    && NoneEmpty(sys.channels)
    && (forall ch, s :: s in Listeners(sys.channels, ch) ==> s in sys.sessions)
    && (forall s <- sys.sessions | sys.sessions[s].pc.Publishing? :: sys.sessions[s].pc.left <= sys.sessions.Keys)
  }

  ghost predicate EachOk(sys: System) { forall s <- sys.sessions :: SessOk(sys.channels, s, sys.sessions[s]) }

  ghost predicate Inv(sys: System) { Known(sys) && EachOk(sys) }

  // A step that changes one session and perhaps its own place in the registry.
  ghost predicate OwnStep(sys: System, s: Session, t: Sess, cs: Channels) {
    && NoneEmpty(cs)
    && (forall ch, o | o != s :: o in Listeners(cs, ch) <==> o in Listeners(sys.channels, ch))
    && SessOk(cs, s, t)
  }

  lemma OthersStillOk(sys: System, s: Session, t: Sess, cs: Channels, o: Session)
    requires EachOk(sys) && OwnStep(sys, s, t, cs) && o in sys.sessions && o != s
    ensures SessOk(cs, o, sys.sessions[o])
  {
    assert SessOk(sys.channels, o, sys.sessions[o]);
  }

  lemma OwnStepKeeps(sys: System, s: Session, t: Sess, cs: Channels)
    requires Inv(sys) && s in sys.sessions && OwnStep(sys, s, t, cs)
    requires t.pc.Publishing? ==> t.pc.left <= sys.sessions.Keys
    ensures Inv(With(sys, s, t).(channels := cs))
  {
    forall o | o in sys.sessions && o != s ensures SessOk(cs, o, sys.sessions[o]) {
      OthersStillOk(sys, s, t, cs, o);
    }
  }

  lemma ConnectKeeps(sys: System, s: Session)
    requires Inv(sys) && s !in sys.sessions
    ensures Inv(Step(sys, Connect(s)))
  {
    var sys' := Step(sys, Connect(s));
    forall o | o in sys'.sessions ensures SessOk(sys.channels, o, sys'.sessions[o]) {
      if o != s { assert SessOk(sys.channels, o, sys.sessions[o]); }
    }
  }

  lemma NotifyKeeps(sys: System, s: Session, ch: Channel, payload: string)
    requires Inv(sys) && Enabled(sys, Notify(s, ch, payload))
    ensures Inv(Step(sys, Notify(s, ch, payload)))
  {
    var t := sys.sessions[s];
    var t' := t.(pc := Publishing(Note(s, ch, payload), Listeners(sys.channels, ch)));
    assert SessOk(sys.channels, s, t);
    forall c ensures AgreesOn(t', c, s in Listeners(sys.channels, c)) {
      assert AgreesOn(t, c, s in Listeners(sys.channels, c));
    }
    OwnStepKeeps(sys, s, t', sys.channels);
  }

  // What handing the note n of s to the target makes of the session o.
  ghost predicate AfterHand(was: Sess, now: Sess, o: Session, s: Session, target: Session, n: Note) {
    && now.listens == was.listens
    && (if o == s then was.pc.Publishing? && was.pc.note == n && target in was.pc.left
                       && now.pc == Publishing(n, was.pc.left - {target})
        else now.pc == was.pc)
    && now.queued == was.queued + (if o == target then [n] else [])
    && now.line == if o == target then Enqueue(was.line, n) else was.line
  }

  lemma HandToChanges(sys: System, s: Session, target: Session)
    requires Enabled(sys, HandTo(s, target))
    ensures var sys' := Step(sys, HandTo(s, target));
            && sys'.sessions.Keys == sys.sessions.Keys && sys'.channels == sys.channels
            && forall o <- sys.sessions ::
                 AfterHand(sys.sessions[o], sys'.sessions[o], o, s, target, sys.sessions[s].pc.note)
  {
  }

  lemma HandToOne(cs: Channels, was: Sess, now: Sess, o: Session, s: Session, target: Session, n: Note)
    requires SessOk(cs, o, was) && AfterHand(was, now, o, s, target, n)
    ensures SessOk(cs, o, now)
  {
    EnqueueKeeps(was.line, was.queued, n);
    forall c ensures AgreesOn(now, c, o in Listeners(cs, c)) {
      assert AgreesOn(was, c, o in Listeners(cs, c));
    }
  }

  lemma HandToKeeps(sys: System, s: Session, target: Session)
    requires Inv(sys) && Enabled(sys, HandTo(s, target))
    ensures Inv(Step(sys, HandTo(s, target)))
  {
    var sys' := Step(sys, HandTo(s, target));
    HandToChanges(sys, s, target);
    forall o | o in sys'.sessions ensures SessOk(sys'.channels, o, sys'.sessions[o]) {
      assert SessOk(sys.channels, o, sys.sessions[o]);
      HandToOne(sys.channels, sys.sessions[o], sys'.sessions[o], o, s, target, sys.sessions[s].pc.note);
    }
  }

  lemma LineStepKeeps(sys: System, e: Event)
    requires Inv(sys) && Enabled(sys, e) && (e.Read? || e.Answer? || e.Finish?)
    ensures Inv(Step(sys, e))
  {
    var t := sys.sessions[e.s];
    assert SessOk(sys.channels, e.s, t);
    LineSteps(t.line, t.queued, if e.Answer? then e.message else 0);
    var sys' := Step(sys, e);
    OwnStepKeeps(sys, e.s, sys'.sessions[e.s], sys.channels);
  }

  lemma ListenStepKeeps(sys: System, e: Event)
    requires Inv(sys) && Enabled(sys, e)
    requires e.Listen? || e.Unlisten? || e.UnlistenAll? || e.UnlistenEnd? || e.NotifyEnd?
    ensures Inv(Step(sys, e))
  {
    var t := sys.sessions[e.s];
    var sys' := Step(sys, e);
    ListenOne(sys.channels, e.s, t, sys'.sessions[e.s], e);
    OwnStepKeeps(sys, e.s, sys'.sessions[e.s], sys.channels);
  }

  lemma ListenOne(cs: Channels, s: Session, t: Sess, t': Sess, e: Event)
    requires SessOk(cs, s, t)
    requires match e
             case Listen(_, ch) => t.pc.Running? && t' == t.(pc := Listening(ch), listens := t.listens + {ch})
             case Unlisten(_, ch) => t.pc.Running? && t' == t.(pc := Unlistening(ch), listens := t.listens - {ch})
             case UnlistenAll(_) => t.pc.Running? && t' == t.(pc := UnlisteningAll(t.listens))
             case UnlistenEnd(_) => t.pc == UnlisteningAll({}) && t' == t.(pc := Running, listens := {})
             case NotifyEnd(_) => t.pc.Publishing? && t' == t.(pc := Running)
             case _ => false
    ensures SessOk(cs, s, t')
  {
    forall c ensures AgreesOn(t', c, s in Listeners(cs, c)) {
      assert AgreesOn(t, c, s in Listeners(cs, c));
    }
  }

  lemma RegistryStepKeeps(sys: System, e: Event)
    requires Inv(sys) && Enabled(sys, e) && (e.UpdateRegistry? || e.UnlistenNext? || e.Leave?)
    ensures Inv(Step(sys, e))
  {
    var t := sys.sessions[e.s];
    var sys' := Step(sys, e);
    var ch := if e.UpdateRegistry? then t.pc.ch else if e.UnlistenNext? then e.ch else "";
    RegistryCalls(sys.channels, ch, e.s);
    RegistryOne(sys.channels, sys'.channels, e.s, t, sys'.sessions[e.s], e, ch);
    OwnStepKeeps(sys, e.s, sys'.sessions[e.s], sys'.channels);
  }

  lemma RegistryOne(cs: Channels, cs': Channels, s: Session, t: Sess, t': Sess, e: Event, ch: Channel)
    requires SessOk(cs, s, t)
    requires match e
             case UpdateRegistry(_) =>
               && (t.pc == Listening(ch) || t.pc == Unlistening(ch)) && t' == t.(pc := Running)
               && forall c :: s in Listeners(cs', c) <==> if c == ch then t.pc.Listening? else s in Listeners(cs, c)
             case UnlistenNext(_, _) =>
               && t.pc.UnlisteningAll? && t' == t.(pc := UnlisteningAll(t.pc.channels - {ch}))
               && forall c :: s in Listeners(cs', c) <==> s in Listeners(cs, c) && c != ch
             case Leave(_) => t' == t.(pc := Left) && forall c :: s !in Listeners(cs', c)
             case _ => false
    ensures SessOk(cs', s, t')
  {
    forall c ensures AgreesOn(t', c, s in Listeners(cs', c)) {
      assert AgreesOn(t, c, s in Listeners(cs, c));
    }
  }

  lemma StepKeepsInv(sys: System, e: Event)
    requires Inv(sys) && Enabled(sys, e)
    ensures Inv(Step(sys, e))
  {
    match e
    case Connect(s) => ConnectKeeps(sys, s);
    case Notify(s, ch, payload) => NotifyKeeps(sys, s, ch, payload);
    case HandTo(s, target) => HandToKeeps(sys, s, target);
    case Read(_) => LineStepKeeps(sys, e);
    case Answer(_, _) => LineStepKeeps(sys, e);
    case Finish(_, _) => LineStepKeeps(sys, e);
    case UpdateRegistry(_) => RegistryStepKeeps(sys, e);
    case UnlistenNext(_, _) => RegistryStepKeeps(sys, e);
    case Leave(_) => RegistryStepKeeps(sys, e);
    case _ => ListenStepKeeps(sys, e);
  }

  lemma {:induction false} RunKeepsInv(from: System, events: seq<Event>, to: System)
    requires Inv(from) && Run(from, events, to)
    ensures Inv(to)
    decreases |events|
  {
    if events != [] {
      StepKeepsInv(from, events[0]);
      RunKeepsInv(Step(from, events[0]), events[1..], to);
    }
  }

  lemma ReachableInv(sys: System)
    requires Reachable(sys)
    ensures Inv(sys)
  {
    var events :| Run(INITIAL, events, sys);
    RunKeepsInv(INITIAL, events, sys);
  }
}
