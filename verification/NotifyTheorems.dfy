/**
 What every interleaving of sessions that listen, notify, answer and leave gives: whoever listens is
 given every note, once and in order, and never inside a response (protocol/postgres/notify.go
 inside the message loop of protocol/postgres/extended.go).
 */
module NotifyTheorems {
  import opened Notifications
  import opened NotifySystem

  // -- What the events alone tell --------------------------------------------------------------

  ghost function From(ns: seq<Note>, s: Session): seq<Note> {
    if ns == [] then []
    else From(ns[..|ns| - 1], s) + (if ns[|ns| - 1].from == s then [ns[|ns| - 1]] else [])
  }

  datatype Doing = Nothing | Adding(ch: Channel) | Dropping(ch: Channel)

  // Of a publisher s and a listener t: the channels t is registered for, the LISTEN or UNLISTEN it
  // is in the middle of, whether it has answered and awaits a message, its answers, and the notes that
  // NOTIFYs of s addressed to it, as they were taken.
  datatype Story = Story(on: set<Channel>, doing: Doing, idle: bool, answers: seq<nat>, notes: seq<Note>)

  const BEGINNING := Story({}, Nothing, false, [], [])

  function Change(on: set<Channel>, d: Doing): set<Channel> {
    match d
    case Nothing => on
    case Adding(ch) => on + {ch}
    case Dropping(ch) => on - {ch}
  }

  // What t itself does.
  function Own(e: Event, y: Story): Story {
    match e
    case Listen(_, ch) => y.(doing := Adding(ch))
    case Unlisten(_, ch) => y.(doing := Dropping(ch))
    case UpdateRegistry(_) => y.(on := Change(y.on, y.doing), doing := Nothing)
    case UnlistenNext(_, ch) => y.(on := y.on - {ch})
    case Leave(_) => y.(on := {})
    case Read(_) => y.(idle := false)
    case Answer(_, m) => y.(answers := y.answers + [m])
    case Finish(_, idle) => if idle then y.(idle := true) else y
    case _ => y
  }

  function After(e: Event, s: Session, t: Session, y: Story): Story {
    var y' := if e.s == t then Own(e, y) else y;
    if e.Notify? && e.s == s && e.ch in y.on then y'.(notes := y.notes + [Note(s, e.ch, e.payload)]) else y'
  }

  function StoryOf(events: seq<Event>, s: Session, t: Session, y: Story): Story
    decreases |events|
  {
    if events == [] then y else StoryOf(events[1..], s, t, After(events[0], s, t, y))
  }

  // -- The state is as the events tell ------------------------------------------------------------

  ghost function InFlight(t: Sess, target: Session): seq<Note> {
    if t.pc.Publishing? && target in t.pc.left then [t.pc.note] else []
  }

  ghost predicate ToldOfListener(sys: System, t: Session, y: Story) {
    && (forall ch :: ch in y.on <==> t in Listeners(sys.channels, ch))
    && (t !in sys.sessions ==> y.doing == Nothing && !y.idle)
    && (t in sys.sessions ==>
          var u := sys.sessions[t];
          && (u.pc.Listening? ==> y.doing == Adding(u.pc.ch))
          && (u.pc.Unlistening? ==> y.doing == Dropping(u.pc.ch))
          && (u.line.idle <==> y.idle))
  }

  // What t has been given by s is what was addressed to it, but for the one note on its way.
  ghost predicate ToldOfNotes(sys: System, s: Session, t: Session, y: Story) {
    && (s !in sys.sessions || t !in sys.sessions ==> y.notes == [])
    && (s !in sys.sessions && t in sys.sessions ==> From(sys.sessions[t].queued, s) == [])
    && (s in sys.sessions && t in sys.sessions ==>
          From(sys.sessions[t].queued, s) + InFlight(sys.sessions[s], t) == y.notes)
  }

  ghost predicate ToldOfAnswers(sys: System, t: Session, y: Story) {
    if t in sys.sessions then Written(sys.sessions[t].line.log) == y.answers else y.answers == []
  }

  ghost predicate Told(sys: System, s: Session, t: Session, y: Story) {
    ToldOfListener(sys, t, y) && ToldOfAnswers(sys, t, y) && ToldOfNotes(sys, s, t, y)
  }

  lemma AnswersStep(sys: System, e: Event, s: Session, t: Session, y: Story)
    requires Enabled(sys, e) && ToldOfAnswers(sys, t, y)
    ensures ToldOfAnswers(Step(sys, e), t, After(e, s, t, y))
  {
    if e.HandTo? {
      HandToAnswers(sys, e.s, e.target, t, y);
    } else if e.s == t && t in sys.sessions {
      OwnAnswers(sys, e, t, y);
    }
  }

  lemma HandToAnswers(sys: System, p: Session, target: Session, t: Session, y: Story)
    requires Enabled(sys, HandTo(p, target)) && ToldOfAnswers(sys, t, y)
    ensures ToldOfAnswers(Step(sys, HandTo(p, target)), t, y)
  {
    HandToChanges(sys, p, target);
    LineWrites(sys.sessions[target].line, sys.sessions[p].pc.note, 0);
  }

  lemma OwnAnswers(sys: System, e: Event, t: Session, y: Story)
    requires Enabled(sys, e) && e.s == t && t in sys.sessions && !e.HandTo? && ToldOfAnswers(sys, t, y)
    ensures ToldOfAnswers(Step(sys, e), t, Own(e, y))
  {
    LineWrites(sys.sessions[t].line, Note(t, "", ""), if e.Answer? then e.message else 0);
  }

  lemma ListenerStep(sys: System, e: Event, s: Session, t: Session, y: Story)
    requires Inv(sys) && Enabled(sys, e) && ToldOfListener(sys, t, y)
    ensures ToldOfListener(Step(sys, e), t, After(e, s, t, y))
  {
    if e.s == t {
      OwnListenerStep(sys, e, t, y);
    } else {
      OtherListenerStep(sys, e, t, y);
    }
  }

  lemma OwnListenerStep(sys: System, e: Event, t: Session, y: Story)
    requires Inv(sys) && Enabled(sys, e) && e.s == t && ToldOfListener(sys, t, y)
    ensures ToldOfListener(Step(sys, e), t, Own(e, y))
  {
    match e
    case UpdateRegistry(_) => RegistryCalls(sys.channels, sys.sessions[t].pc.ch, t);
    case UnlistenNext(_, ch) => RegistryCalls(sys.channels, ch, t);
    case Leave(_) => RegistryCalls(sys.channels, "", t);
    case _ =>
  }

  lemma OtherListenerStep(sys: System, e: Event, t: Session, y: Story)
    requires Inv(sys) && Enabled(sys, e) && e.s != t && ToldOfListener(sys, t, y)
    ensures ToldOfListener(Step(sys, e), t, y)
  {
    match e
    case UpdateRegistry(s) => RegistryCalls(sys.channels, sys.sessions[s].pc.ch, s);
    case UnlistenNext(s, ch) => RegistryCalls(sys.channels, ch, s);
    case Leave(s) => RegistryCalls(sys.channels, "", s);
    case _ =>
  }

  lemma NotesStep(sys: System, e: Event, s: Session, t: Session, y: Story)
    requires Inv(sys) && Enabled(sys, e) && Told(sys, s, t, y)
    ensures ToldOfNotes(Step(sys, e), s, t, After(e, s, t, y))
  {
    match e
    case HandTo(p, target) => HandToNotes(sys, p, target, s, t, y);
    case Notify(p, ch, payload) => NotifyNotes(sys, p, ch, payload, s, t, y);
    case _ => QuietNotes(sys, e, s, t, y);
  }

  lemma QuietNotes(sys: System, e: Event, s: Session, t: Session, y: Story)
    requires Known(sys) && Enabled(sys, e) && ToldOfNotes(sys, s, t, y) && !e.HandTo? && !e.Notify?
    ensures ToldOfNotes(Step(sys, e), s, t, y)
  {
  }

  lemma NotifyNotes(sys: System, p: Session, ch: Channel, payload: string, s: Session, t: Session, y: Story)
    requires Known(sys) && Enabled(sys, Notify(p, ch, payload)) && Told(sys, s, t, y)
    ensures var e := Notify(p, ch, payload); ToldOfNotes(Step(sys, e), s, t, After(e, s, t, y))
  {
    if p == s {
      OwnNotes(sys, ch, payload, s, t, y);
    } else {
      assert After(Notify(p, ch, payload), s, t, y) == y;
    }
  }

  lemma OwnNotes(sys: System, ch: Channel, payload: string, s: Session, t: Session, y: Story)
    requires Known(sys) && Enabled(sys, Notify(s, ch, payload)) && Told(sys, s, t, y)
    ensures var e := Notify(s, ch, payload); ToldOfNotes(Step(sys, e), s, t, After(e, s, t, y))
  {
    var sys' := Step(sys, Notify(s, ch, payload));
    if t in sys.sessions {
      assert InFlight(sys.sessions[s], t) == [];
      assert InFlight(sys'.sessions[s], t) == if ch in y.on then [Note(s, ch, payload)] else [];
      assert sys'.sessions[t].queued == sys.sessions[t].queued;
    }
  }

  lemma HandToNotes(sys: System, p: Session, target: Session, s: Session, t: Session, y: Story)
    requires Inv(sys) && Enabled(sys, HandTo(p, target)) && ToldOfNotes(sys, s, t, y)
    ensures ToldOfNotes(Step(sys, HandTo(p, target)), s, t, y)
  {
    assert SessOk(sys.channels, p, sys.sessions[p]);
    HandToChanges(sys, p, target);
  }

  lemma {:induction false} RunTold(from: System, events: seq<Event>, to: System, s: Session, t: Session, y: Story)
    requires Inv(from) && Run(from, events, to) && Told(from, s, t, y)
    ensures Inv(to) && Told(to, s, t, StoryOf(events, s, t, y))
    decreases |events|
  {
    if events != [] {
      ListenerStep(from, events[0], s, t, y);
      AnswersStep(from, events[0], s, t, y);
      NotesStep(from, events[0], s, t, y);
      StepKeepsInv(from, events[0]);
      RunTold(Step(from, events[0]), events[1..], to, s, t, After(events[0], s, t, y));
    }
  }

  lemma WholeRunTold(events: seq<Event>, sys: System, s: Session, t: Session)
    requires Run(INITIAL, events, sys)
    ensures Inv(sys) && Told(sys, s, t, StoryOf(events, s, t, BEGINNING))
  {
    assert Inv(INITIAL) && Told(INITIAL, s, t, BEGINNING);
    RunTold(INITIAL, events, sys, s, t, BEGINNING);
  }

  // -- What every interleaving gives ------------------------------------------------------------

  // What a session has been sent, then what is pending for it, is what was enqueued for it; an
  // idle session has nothing pending; no notification falls inside a response, and a session
  // writes only inside one.
  lemma DeliveredInOrder(sys: System, s: Session)
    requires Reachable(sys) && s in sys.sessions
    ensures var t := sys.sessions[s];
            && Sent(t.line.log) + t.line.pending == t.queued
            && (t.line.idle ==> t.line.pending == [])
            && t.line.idle == !Busy(t.line.log)
            && forall i: nat | i < |t.line.log| :: InPlace(t.line.log[..i], t.line.log[i])
  {
    ReachableInv(sys);
    var t := sys.sessions[s];
    assert SessOk(sys.channels, s, t);
    forall i: nat | i < |t.line.log| ensures InPlace(t.line.log[..i], t.line.log[i]) { EachInPlace(t.line.log, i); }
  }

  // The answer to a Query or Sync is followed by all that was pending.
  lemma FinishDelivers(sys: System, s: Session)
    requires Reachable(sys) && Enabled(sys, Finish(s, true))
    ensures var was, now := sys.sessions[s], Step(sys, Finish(s, true)).sessions[s];
            && Enabled(Step(sys, Finish(s, true)), Read(s))
            && now.line.idle && Sent(now.line.log) == Sent(was.line.log) + was.line.pending
  {
    ReachableInv(sys);
    assert SessOk(sys.channels, s, sys.sessions[s]);
    StepKeepsInv(sys, Finish(s, true));
    assert SessOk(sys.channels, s, Step(sys, Finish(s, true)).sessions[s]);
    var now := Step(sys, Finish(s, true)).sessions[s];
    assert Sent(now.line.log) + [] == Sent(now.line.log);
  }

  // A NOTIFY is to be handed to a session that is not in the middle of LISTEN or UNLISTEN exactly
  // when that session listens on the channel and has not left.
  lemma NotifyFindsListeners(sys: System, s: Session, ch: Channel, payload: string, t: Session)
    requires Reachable(sys) && Enabled(sys, Notify(s, ch, payload)) && t in sys.sessions
    requires var pc := sys.sessions[t].pc; !pc.Listening? && !pc.Unlistening? && !pc.UnlisteningAll?
    ensures var pc := Step(sys, Notify(s, ch, payload)).sessions[s].pc;
            && pc.Publishing? && pc.note == Note(s, ch, payload)
            && (t in pc.left <==> !sys.sessions[t].pc.Left? && ch in sys.sessions[t].listens)
  {
    RegistryAgrees(sys, t, ch);
  }

  // Of the publisher itself, nothing but the handing on.
  ghost predicate OnlyHands(events: seq<Event>, s: Session) { forall e <- events | e.s == s :: e.HandTo? }

  lemma {:induction false} NoMoreNotes(events: seq<Event>, s: Session, t: Session, y: Story)
    requires OnlyHands(events, s)
    ensures StoryOf(events, s, t, y).notes == y.notes
    decreases |events|
  {
    if events != [] {
      assert events[0] in events;
      assert After(events[0], s, t, y).notes == y.notes;
      NoMoreNotes(events[1..], s, t, After(events[0], s, t, y));
    }
  }

  lemma {:induction false} SessionsStay(from: System, events: seq<Event>, to: System, t: Session)
    requires Run(from, events, to) && t in from.sessions
    ensures t in to.sessions
    decreases |events|
  {
    if events != [] { SessionsStay(Step(from, events[0]), events[1..], to, t); }
  }

  lemma ReachableTold(sys: System, s: Session, t: Session) returns (y: Story)
    requires Reachable(sys)
    ensures Inv(sys) && Told(sys, s, t, y)
  {
    var events :| Run(INITIAL, events, sys);
    WholeRunTold(events, sys, s, t);
    y := StoryOf(events, s, t, BEGINNING);
  }

  // When a NOTIFY can end, whatever others have done meanwhile, each session that listened when it
  // was taken has been given its note once more, and every other session nothing from it.
  lemma NotifyReaches(sys: System, s: Session, ch: Channel, payload: string, events: seq<Event>, to: System, t: Session)
    requires Reachable(sys) && Enabled(sys, Notify(s, ch, payload)) && t in sys.sessions
    requires var pc := sys.sessions[t].pc; !pc.Listening? && !pc.Unlistening? && !pc.UnlisteningAll?
    requires Run(Step(sys, Notify(s, ch, payload)), events, to) && OnlyHands(events, s)
    requires Enabled(to, NotifyEnd(s))
    ensures t in to.sessions && Step(to, NotifyEnd(s)).sessions[s].pc == Running
    ensures From(to.sessions[t].queued, s) == From(sys.sessions[t].queued, s) +
              (if !sys.sessions[t].pc.Left? && ch in sys.sessions[t].listens then [Note(s, ch, payload)] else [])
  {
    var e := Notify(s, ch, payload);
    var y := ReachableTold(sys, s, t);
    assert [e] + events == [e] + events && ([e] + events)[1..] == events;
    RunTold(sys, [e] + events, to, s, t, y);
    assert StoryOf([e] + events, s, t, y) == StoryOf(events, s, t, After(e, s, t, y));
    NoMoreNotes(events, s, t, After(e, s, t, y));
    SessionsStay(Step(sys, e), events, to, t);
    RegistryAgrees(sys, t, ch);
    GivenBefore(sys, s, t, y);
    GivenBy(to, s, t, StoryOf(events, s, t, After(e, s, t, y)));
  }

  lemma GivenBefore(sys: System, s: Session, t: Session, y: Story)
    requires Told(sys, s, t, y) && s in sys.sessions && t in sys.sessions && sys.sessions[s].pc.Running?
    ensures From(sys.sessions[t].queued, s) == y.notes
  {
  }

  lemma GivenBy(sys: System, s: Session, t: Session, y: Story)
    requires Told(sys, s, t, y) && s in sys.sessions && t in sys.sessions && Enabled(sys, NotifyEnd(s))
    ensures From(sys.sessions[t].queued, s) == y.notes
  {
  }

  // Between NOTIFYs of one session, another that awaits a message has been sent exactly the notes
  // the first published on channels the other was listening on: all of them, once each, in order.
  lemma NothingLostRepeatedOrReordered(events: seq<Event>, sys: System, s: Session, t: Session)
    requires Run(INITIAL, events, sys) && s in sys.sessions && t in sys.sessions
    requires !sys.sessions[s].pc.Publishing? && StoryOf(events, s, t, BEGINNING).idle
    ensures From(Sent(sys.sessions[t].line.log), s) == StoryOf(events, s, t, BEGINNING).notes
  {
    WholeRunTold(events, sys, s, t);
    assert SessOk(sys.channels, t, sys.sessions[t]);
    assert Sent(sys.sessions[t].line.log) + [] == Sent(sys.sessions[t].line.log);
  }

  lemma {:induction false} FromConcat(a: seq<Note>, b: seq<Note>, s: Session)
    ensures From(a + b, s) == From(a, s) + From(b, s)
    decreases |b|
  {
    if b == [] {
      assert a + b == a;
    } else {
      assert a + b == (a + b[..|b| - 1]) + [b[|b| - 1]];
      FromConcat(a, b[..|b| - 1], s);
    }
  }

  // Whatever has reached the connection is a beginning of what was published to it.
  lemma SentIsPrefix(events: seq<Event>, sys: System, s: Session, t: Session)
    requires Run(INITIAL, events, sys) && s in sys.sessions && t in sys.sessions
    ensures From(Sent(sys.sessions[t].line.log), s) <= StoryOf(events, s, t, BEGINNING).notes
  {
    WholeRunTold(events, sys, s, t);
    assert SessOk(sys.channels, t, sys.sessions[t]);
    FromConcat(Sent(sys.sessions[t].line.log), sys.sessions[t].line.pending, s);
  }

  // A session's own messages reach its connection as it wrote them, whatever notifications fall between.
  lemma AnswersAreWritten(events: seq<Event>, sys: System, t: Session)
    requires Run(INITIAL, events, sys) && t in sys.sessions
    ensures Written(sys.sessions[t].line.log) == StoryOf(events, t, t, BEGINNING).answers
  {
    WholeRunTold(events, sys, t, t);
  }

  // The registry lists a session under the channels its own LISTENs and UNLISTENs leave, up to the
  // last of them that has reached the registry.
  lemma RegisteredByEvents(events: seq<Event>, sys: System, t: Session, ch: Channel)
    requires Run(INITIAL, events, sys)
    ensures t in Listeners(sys.channels, ch) <==> ch in StoryOf(events, t, t, BEGINNING).on
  {
    WholeRunTold(events, sys, t, t);
  }

  // A connected session that is not in the middle of LISTEN or UNLISTEN is in the registry under
  // its own channels and no others; one that has left is nowhere in it.
  lemma RegistryAgrees(sys: System, s: Session, ch: Channel)
    requires Reachable(sys) && s in sys.sessions
    requires var pc := sys.sessions[s].pc; !pc.Listening? && !pc.Unlistening? && !pc.UnlisteningAll?
    ensures s in Listeners(sys.channels, ch) <==> !sys.sessions[s].pc.Left? && ch in sys.sessions[s].listens
    ensures forall c <- sys.channels :: sys.channels[c] != {}
  {
    ReachableInv(sys);
    var t := sys.sessions[s];
    assert SessOk(sys.channels, s, t);
    assert AgreesOn(t, ch, s in Listeners(sys.channels, ch));
  }

  // A NOTIFY always has somewhere to go on: whatever other sessions do, its targets stay known.
  lemma PublishingGoesOn(sys: System, s: Session)
    requires Reachable(sys) && s in sys.sessions && sys.sessions[s].pc.Publishing?
    ensures if sys.sessions[s].pc.left == {} then Enabled(sys, NotifyEnd(s))
            else exists t <- sys.sessions[s].pc.left :: Enabled(sys, HandTo(s, t))
  {
    ReachableInv(sys);
    var left := sys.sessions[s].pc.left;
    if t :| t in left { assert Enabled(sys, HandTo(s, t)); }
  }

  // While a session is answering, nothing is added to its connection but its own messages, however
  // long the others go on.
  lemma {:induction false} OnlyTheSessionWritesWhileBusy(from: System, events: seq<Event>, to: System, s: Session)
    requires Run(from, events, to) && s in from.sessions && !from.sessions[s].line.idle
    requires forall e <- events :: e.s != s
    ensures s in to.sessions && to.sessions[s].line.log == from.sessions[s].line.log
    decreases |events|
  {
    if events != [] {
      assert events[0] in events;
      var next := Step(from, events[0]);
      assert s in next.sessions && !next.sessions[s].line.idle;
      OnlyTheSessionWritesWhileBusy(next, events[1..], to, s);
    }
  }
}
