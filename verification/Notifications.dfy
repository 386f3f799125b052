/**
 One session's side of NOTIFY, and the registry of listeners, as values (protocol/postgres/notify.go).
 */
module Notifications {

  type Session(==) = nat
  type Channel = string

  datatype Note = Note(from: Session, channel: Channel, payload: string)

  // What happens on a connection, in order: a response region opens and closes around what the
  // session itself writes, and notifications are written by whoever holds the session's lock.
  datatype Frame = Began | Wrote(message: nat) | Ended | Notice(note: Note)

  datatype Line = Line(pending: seq<Note>, idle: bool, log: seq<Frame>)

  // A connection starts inside its start-up response.
  const START := Line([], false, [])

  function Notices(ns: seq<Note>): seq<Frame> { seq(|ns|, i requires 0 <= i < |ns| => Notice(ns[i])) }

  function Deliver(l: Line): Line { l.(pending := [], log := l.log + Notices(l.pending)) }

  function GoBusy(l: Line): Line { l.(idle := false, log := l.log + [Began]) }

  function GoIdle(l: Line): Line { Deliver(l.(idle := true, log := l.log + [Ended])) }

  function Write(l: Line, m: nat): Line { l.(log := l.log + [Wrote(m)]) }

  function Enqueue(l: Line, n: Note): Line {
    var queued := l.(pending := l.pending + [n]);
    if l.idle then Deliver(queued) else queued
  }

  // -- What a connection's log shows -------------------------------------------------------

  ghost function Sent(log: seq<Frame>): seq<Note> {
    if log == [] then []
    else Sent(log[..|log| - 1]) + (if log[|log| - 1].Notice? then [log[|log| - 1].note] else [])
  }

  // What the session itself has written.
  ghost function Written(log: seq<Frame>): seq<nat> {
    if log == [] then []
    else Written(log[..|log| - 1]) + (if log[|log| - 1].Wrote? then [log[|log| - 1].message] else [])
  }

  // Inside a response.
  ghost predicate Busy(log: seq<Frame>) {
    log == [] || log[|log| - 1].Began? || (!log[|log| - 1].Ended? && Busy(log[..|log| - 1]))
  }

  // Notifications fall between responses, and the session writes only inside them.
  ghost predicate KeptApart(log: seq<Frame>) {
    log == [] || (KeptApart(log[..|log| - 1]) && InPlace(log[..|log| - 1], log[|log| - 1]))
  }

  ghost predicate InPlace(before: seq<Frame>, f: Frame) {
    (f.Notice? ==> !Busy(before)) && (f.Wrote? ==> Busy(before))
  }

  lemma {:induction false} EachInPlace(log: seq<Frame>, i: nat)
    requires KeptApart(log) && i < |log|
    ensures InPlace(log[..i], log[i])
  {
    var before := log[..|log| - 1];
    if i < |before| {
      EachInPlace(before, i);
      assert before[..i] == log[..i] && before[i] == log[i];
    }
  }

  // Everything enqueued has been sent, in order, or is still pending, in order.
  ghost predicate LineOk(l: Line, queued: seq<Note>) {
    && Sent(l.log) + l.pending == queued
    && (l.idle ==> l.pending == [])
    && l.idle == !Busy(l.log)
    && KeptApart(l.log)
  }

  lemma {:induction false} ManyNotices(log: seq<Frame>, ns: seq<Note>)
    requires KeptApart(log) && !Busy(log)
    ensures var log' := log + Notices(ns);
            KeptApart(log') && !Busy(log') && Sent(log') == Sent(log) + ns
    decreases |ns|
  {
    if ns == [] {
      assert log + Notices(ns) == log;
    } else {
      var ns', n := ns[..|ns| - 1], ns[|ns| - 1];
      ManyNotices(log, ns');
      var before := LastNotice(log, ns);
    }
  }

  lemma LastNotice(log: seq<Frame>, ns: seq<Note>) returns (before: seq<Frame>)
    requires ns != []
    ensures before == log + Notices(ns[..|ns| - 1])
    ensures log + Notices(ns) == before + [Notice(ns[|ns| - 1])]
    ensures ns == ns[..|ns| - 1] + [ns[|ns| - 1]]
  {
    before := log + Notices(ns[..|ns| - 1]);
  }

  lemma {:induction false} NoticesWriteNothing(log: seq<Frame>, ns: seq<Note>)
    ensures Written(log + Notices(ns)) == Written(log)
    decreases |ns|
  {
    if ns == [] {
      assert log + Notices(ns) == log;
    } else {
      NoticesWriteNothing(log, ns[..|ns| - 1]);
      var before := LastNotice(log, ns);
    }
  }

  lemma LineWrites(l: Line, n: Note, m: nat)
    ensures Written(GoBusy(l).log) == Written(GoIdle(l).log) == Written(Enqueue(l, n).log) == Written(l.log)
    ensures Written(Write(l, m).log) == Written(l.log) + [m]
  {
    assert (l.log + [Ended])[..|l.log|] == l.log;
    NoticesWriteNothing(l.log + [Ended], l.pending);
    NoticesWriteNothing(l.log, l.pending + [n]);
  }

  lemma DeliverKeeps(l: Line, queued: seq<Note>)
    requires KeptApart(l.log) && !Busy(l.log) && l.idle && Sent(l.log) + l.pending == queued
    ensures LineOk(Deliver(l), queued)
  {
    ManyNotices(l.log, l.pending);
  }

  lemma LineSteps(l: Line, queued: seq<Note>, m: nat)
    requires LineOk(l, queued)
    ensures LineOk(GoBusy(l), queued) && LineOk(GoIdle(l), queued)
    ensures !l.idle ==> LineOk(Write(l, m), queued)
  {
    DeliverKeeps(l.(idle := true, log := l.log + [Ended]), queued);
  }

  lemma EnqueueKeeps(l: Line, queued: seq<Note>, n: Note)
    requires LineOk(l, queued)
    ensures LineOk(Enqueue(l, n), queued + [n])
  {
    assert Sent(l.log) + (l.pending + [n]) == queued + [n];
    if l.idle { DeliverKeeps(l.(pending := l.pending + [n]), queued + [n]); }
  }

  // -- The registry ------------------------------------------------------------------------

  // No channel is kept without listeners.
  type Channels = map<Channel, set<Session>>

  ghost predicate NoneEmpty(cs: Channels) { forall ch <- cs :: cs[ch] != {} }

  function Listeners(cs: Channels, ch: Channel): set<Session> { if ch in cs then cs[ch] else {} }

  function Register(cs: Channels, ch: Channel, s: Session): Channels { cs[ch := Listeners(cs, ch) + {s}] }

  function Unregister(cs: Channels, ch: Channel, s: Session): Channels {
    var left := Listeners(cs, ch) - {s};
    if ch !in cs then cs else if left == {} then cs - {ch} else cs[ch := left]
  }

  function UnregisterAll(cs: Channels, s: Session): Channels {
    map ch | ch in cs && cs[ch] - {s} != {} :: cs[ch] - {s}
  }

  lemma RegistryCalls(cs: Channels, ch: Channel, s: Session)
    requires NoneEmpty(cs)
    ensures NoneEmpty(Register(cs, ch, s)) && NoneEmpty(Unregister(cs, ch, s)) && NoneEmpty(UnregisterAll(cs, s))
    ensures forall c, t :: t in Listeners(Register(cs, ch, s), c) <==> t in Listeners(cs, c) || (c, t) == (ch, s)
    ensures forall c, t :: t in Listeners(Unregister(cs, ch, s), c) <==> t in Listeners(cs, c) && (c, t) != (ch, s)
    ensures forall c, t :: t in Listeners(UnregisterAll(cs, s), c) <==> t in Listeners(cs, c) && t != s
  {
  }
}
