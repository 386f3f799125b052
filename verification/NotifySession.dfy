/** The registry and a session's delivery state, updated in place (protocol/postgres/notify.go). */
module NotifySession {
  import opened Notifications

  class Registry {
    var channels: Channels

    constructor ()
      ensures channels == map[]
    {
      channels := map[];
    }

    method RegisterListen(ch: Channel, s: Session)
      modifies this
      ensures channels == Register(old(channels), ch, s)
    {
      if ch !in channels {
        channels := channels[ch := {}];
      }
      channels := channels[ch := channels[ch] + {s}];
    }

    method UnregisterListen(ch: Channel, s: Session)
      modifies this
      ensures channels == Unregister(old(channels), ch, s)
    {
      if ch in channels {
        channels := channels[ch := channels[ch] - {s}];
        if |channels[ch]| == 0 {
          channels := channels - {ch};
        }
      }
    }

    method UnregisterSession(s: Session)
      requires NoneEmpty(channels)
      modifies this
      ensures channels == UnregisterAll(old(channels), s)
    {
      ghost var was := channels;
      var rest := channels.Keys;
      while rest != {}
        invariant rest <= was.Keys
        invariant channels == map ch | ch in was && (ch in rest || was[ch] - {s} != {}) ::
                                if ch in rest then was[ch] else was[ch] - {s}
      {
        var ch :| ch in rest;
        rest := rest - {ch};
        channels := channels[ch := channels[ch] - {s}];
        if |channels[ch]| == 0 {
          channels := channels - {ch};
        }
      }
    }

    // The sessions to notify, gathered before any of them is.
    method Targets(ch: Channel) returns (targets: seq<Session>)
      ensures forall s :: s in targets <==> s in Listeners(channels, ch)
      ensures forall i, j | 0 <= i < j < |targets| :: targets[i] != targets[j]
    {
      targets := [];
      var rest := Listeners(channels, ch);
      while rest != {}
        invariant forall s :: s in Listeners(channels, ch) <==> s in rest || s in targets
        invariant forall s <- targets :: s !in rest
        invariant forall i, j | 0 <= i < j < |targets| :: targets[i] != targets[j]
      {
        var s :| s in rest;
        rest := rest - {s};
        targets := targets + [s];
      }
    }
  }

  // The part of a session that nmu guards, and its connection.
  class Delivery {
    var pending: seq<Note>
    var idle: bool
    var conn: seq<Frame>

    ghost function View(): Line
      reads this
    {
      Line(pending, idle, conn)
    }

    constructor ()
      ensures View() == START
    {
      pending, idle, conn := [], false, [];
    }

    method Busy()
      modifies this
      ensures View() == GoBusy(old(View()))
    {
      idle := false;
      conn := conn + [Began];
    }

    method Idle()
      modifies this
      ensures View() == GoIdle(old(View()))
    {
      idle := true;
      conn := conn + [Ended];
      DeliverLocked();
    }

    method EnqueueNotify(n: Note)
      modifies this
      ensures View() == Enqueue(old(View()), n)
    {
      pending := pending + [n];
      if idle {
        DeliverLocked();
      }
    }

    method DeliverLocked()
      modifies this
      ensures View() == Deliver(old(View()))
    {
      if |pending| == 0 {
        assert conn + Notices([]) == conn;
        return;
      }
      for i := 0 to |pending|
        invariant pending == old(pending) && idle == old(idle)
        invariant conn == old(conn) + Notices(pending[..i])
      {
        assert Notices(pending[..i + 1]) == Notices(pending[..i]) + [Notice(pending[i])];
        conn := conn + [Notice(pending[i])];
      }
      assert pending[..|pending|] == pending;
      pending := [];
    }
  }

  // Hands a notification to every session that listened when the registry was read: to each of
  // them once, and to no other.
  method PublishNotify(registry: Registry, sessions: map<Session, Delivery>, n: Note)
    requires forall s <- Listeners(registry.channels, n.channel) :: s in sessions
    requires forall s <- sessions, t <- sessions | s != t :: sessions[s] != sessions[t]
    modifies sessions.Values
    ensures forall s <- sessions :: s in Listeners(registry.channels, n.channel) ==>
                                      sessions[s].View() == Enqueue(old(sessions[s].View()), n)
    ensures forall s <- sessions :: s !in Listeners(registry.channels, n.channel) ==>
                                      sessions[s].View() == old(sessions[s].View())
  {
    var targets := registry.Targets(n.channel);
    for i := 0 to |targets|
      invariant forall s <- sessions :: s in targets[..i] ==>
                                          sessions[s].View() == Enqueue(old(sessions[s].View()), n)
      invariant forall s <- sessions :: s !in targets[..i] ==> sessions[s].View() == old(sessions[s].View())
    {
      assert targets[i] !in targets[..i];
      sessions[targets[i]].EnqueueNotify(n);
    }
  }
}
