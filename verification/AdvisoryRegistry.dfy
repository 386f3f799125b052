/**
 The lock registry as the server keeps it: hold records updated in place, found through one map
 (protocol/postgres/advisory.go). Each method is one critical section of advisoryLocks.mu.
 */
module AdvisoryRegistry {
  import opened Options
  import opened AdvisoryGrants
  import AdvisorySystem

  class AdvisoryHold {
    var exclusive: Option<Session>
    var exclCount: int
    var shared: map<Session, int>

    ghost function View(): Hold
      reads this
    {
      Hold(exclusive, exclCount, shared)
    }

    constructor ()
      ensures View() == NO_HOLD
    {
      exclusive, exclCount, shared := None, 0, map[];
    }

    method CanTake(s: Session, sharedMode: bool) returns (ok: bool)
      ensures ok == AdvisoryGrants.CanTake(Some(View()), s, sharedMode)
    {
      if exclusive.Some? && exclusive.value != s {
        return false;
      }
      if sharedMode {
        return true;
      }
      var holders := shared.Keys;
      while holders != {}
        invariant holders <= shared.Keys
        invariant forall o | o in shared && o !in holders :: o == s
      {
        var holder :| holder in holders;
        if holder != s {
          return false;
        }
        holders := holders - {holder};
      }
      return true;
    }

    method Take(s: Session, sharedMode: bool)
      modifies this
      ensures View() == AdvisoryGrants.Take(old(View()), s, sharedMode)
    {
      if sharedMode {
        shared := shared[s := (if s in shared then shared[s] else 0) + 1];
        return;
      }
      exclusive := Some(s);
      exclCount := exclCount + 1;
    }

    // Lets go of one hold of s, reporting whether it had one.
    method LetGo(s: Session, sharedMode: bool) returns (ok: bool)
      modifies this
      ensures ok == AdvisoryGrants.LetGo(old(View()), s, sharedMode).Some?
      ensures View() == if ok then AdvisoryGrants.LetGo(old(View()), s, sharedMode).value else old(View())
    {
      if sharedMode && s in shared && shared[s] > 0 {
        var n := shared[s] - 1;
        shared := if n == 0 then shared - {s} else shared[s := n];
      } else if !sharedMode && exclusive == Some(s) {
        exclCount := exclCount - 1;
        if exclCount == 0 {
          exclusive := None;
        }
      } else {
        return false;
      }
      return true;
    }

    method Forget(s: Session)
      modifies this
      ensures View() == AdvisoryGrants.Forget(old(View()), s)
    {
      if exclusive == Some(s) {
        exclusive, exclCount := None, 0;
      }
      shared := shared - {s};
    }
  }

  lemma StoreTwice(hs: Holds, k: Key, h: Hold)
    ensures Store(hs[k := h], k, h) == Store(hs, k, h)
  {
  }

  // The registry when s's holds on the keys are still to be let go of.
  ghost function ReleasedExcept(hs: Holds, s: Session, keys: set<Key>): Holds {
    map k | k in hs && (k in keys || !Unused(AdvisoryGrants.Forget(hs[k], s))) ::
      if k in keys then hs[k] else AdvisoryGrants.Forget(hs[k], s)
  }

  lemma OneReleased(hs: Holds, s: Session, keys: set<Key>, k: Key)
    requires k in keys && k in hs
    ensures Store(ReleasedExcept(hs, s, keys), k, AdvisoryGrants.Forget(hs[k], s))
         == ReleasedExcept(hs, s, keys - {k})
  {
  }

  class Registry {
    var holds: map<Key, AdvisoryHold>
    // How many times the `released` channel has been closed and replaced.
    var released: nat

    // No two locks share a hold record.
    ghost predicate Valid()
      reads `holds
    {
      forall k1 <- holds.Keys, k2 <- holds.Keys :: k1 != k2 ==> holds[k1] != holds[k2]
    }

    ghost function View(): Holds
      reads `holds, holds.Values
    {
      map k | k in holds :: holds[k].View()
    }

    constructor ()
      ensures Valid() && View() == map[] && released == 0
    {
      holds, released := map[], 0;
    }

    // Changing one hold record changes one entry of the registry.
    twostate lemma OneEntryChanged(k: Key)
      requires old(Valid()) && old(k in holds) && holds == old(holds)
      requires forall j <- holds.Keys :: j != k ==> holds[j].View() == old(holds[j].View())
      ensures View() == old(View())[k := holds[k].View()]
    {
    }

    method TryAdvisory(s: Session, k: Key, shared: bool) returns (ok: bool)
      requires Valid()
      modifies `holds, holds.Values
      ensures Valid() && fresh(holds.Values - old(holds.Values))
      ensures (View(), ok) == TryLock(old(View()), s, k, shared)
    {
      if k in holds {
        var h := holds[k];
        ok := h.CanTake(s, shared);
        if ok {
          h.Take(s, shared);
          OneEntryChanged(k);
        }
      } else {
        var h := new AdvisoryHold();
        h.Take(s, shared);
        holds := holds[k := h];
        assert View() == old(View())[k := h.View()];
        ok := true;
      }
    }

    // An entry that nobody holds is not kept.
    method DropIfUnused(k: Key)
      requires Valid() && k in holds
      modifies `holds
      ensures Valid() && holds.Values <= old(holds.Values) && holds.Keys + {k} == old(holds.Keys)
      ensures View() == Store(old(View()), k, old(View())[k])
    {
      var h := holds[k];
      if h.exclusive.None? && h.shared == map[] {
        holds := holds - {k};
      }
    }

    method UnlockAdvisory(s: Session, k: Key, shared: bool) returns (ok: bool)
      requires Valid()
      modifies this, holds.Values
      ensures Valid() && holds.Values <= old(holds.Values)
      ensures (View(), ok) == Unlock(old(View()), s, k, shared)
      ensures released == if ok then old(released) + 1 else old(released)
    {
      if k !in holds {
        return false;
      }
      var h := holds[k];
      ok := h.LetGo(s, shared);
      OneEntryChanged(k);
      if !ok {
        assert View() == old(View());
        return;
      }
      ghost var h' := h.View();
      DropIfUnused(k);
      StoreTwice(old(View()), k, h');
      WakeAdvisoryWaiters();
    }

    method ReleaseAdvisoryLocks(s: LockSession)
      requires Valid()
      modifies this, holds.Values, s`txAdvisory
      ensures Valid() && holds.Values <= old(holds.Values)
      ensures View() == ReleaseAll(old(View()), s.id) && s.txAdvisory == []
      ensures released == old(released) + 1
    {
      ghost var start := View();
      var keys := holds.Keys;
      while keys != {}
        invariant Valid() && keys <= holds.Keys && holds.Values <= old(holds.Values)
        invariant View() == ReleasedExcept(start, s.id, keys)
        invariant released == old(released)
      {
        var k :| k in keys;
        ForgetOne(s.id, k);
        OneReleased(start, s.id, keys, k);
        keys := keys - {k};
      }
      assert View() == ReleaseAll(start, s.id);
      s.txAdvisory := [];
      WakeAdvisoryWaiters();
    }

    method ForgetOne(s: Session, k: Key)
      requires Valid() && k in holds
      modifies `holds, holds.Values
      ensures Valid() && holds.Values <= old(holds.Values) && holds.Keys + {k} == old(holds.Keys)
      ensures View() == Store(old(View()), k, AdvisoryGrants.Forget(old(View())[k], s))
    {
      var h := holds[k];
      h.Forget(s);
      OneEntryChanged(k);
      ghost var h' := h.View();
      DropIfUnused(k);
      StoreTwice(old(View()), k, h');
    }

    method WakeAdvisoryWaiters()
      modifies `released
      ensures released == old(released) + 1
    {
      released := released + 1;
    }
  }

  // The part of a connection that holds transaction-level locks.
  class LockSession {
    const id: Session
    var inTx: bool
    var txAdvisory: seq<AdvisorySystem.TxHold>

    constructor (id: Session)
      ensures this.id == id && !inTx && txAdvisory == []
    {
      this.id := id;
      inTx, txAdvisory := false, [];
    }

    // Outside a transaction the lock goes at once, waking the waiters if it was there.
    method HoldForTx(r: Registry, k: Key, shared: bool)
      requires r.Valid()
      modifies `txAdvisory, r, r.holds.Values
      ensures r.Valid()
      ensures txAdvisory == old(txAdvisory) + if inTx then [AdvisorySystem.TxHold(k, shared)] else []
      ensures r.View() == if inTx then old(r.View()) else Unlock(old(r.View()), id, k, shared).0
      ensures r.released == old(r.released) + if !inTx && Unlock(old(r.View()), id, k, shared).1 then 1 else 0
    {
      if !inTx {
        var _ := r.UnlockAdvisory(id, k, shared);
        return;
      }
      txAdvisory := txAdvisory + [AdvisorySystem.TxHold(k, shared)];
    }

    method ReleaseTxAdvisoryLocks(r: Registry)
      requires r.Valid()
      modifies `txAdvisory, r, r.holds.Values
      ensures r.Valid() && txAdvisory == []
      ensures r.View() == UnlockEach(old(r.View()), id, old(txAdvisory))
      ensures r.released == old(r.released) + WakesOf(old(r.View()), id, old(txAdvisory))
    {
      ghost var start := r.View();
      for i := 0 to |txAdvisory|
        invariant txAdvisory == old(txAdvisory) && r.Valid() && r.holds.Values <= old(r.holds.Values)
        invariant UnlockEach(start, id, txAdvisory) == UnlockEach(r.View(), id, txAdvisory[i..])
        invariant old(r.released) + WakesOf(start, id, txAdvisory)
               == r.released + WakesOf(r.View(), id, txAdvisory[i..])
      {
        var h := txAdvisory[i];
        assert txAdvisory[i..][0] == h && txAdvisory[i..][1..] == txAdvisory[i + 1..];
        var _ := r.UnlockAdvisory(id, h.key, h.shared);
      }
      txAdvisory := [];
    }
  }

  // One unlock after another.
  ghost function UnlockEach(hs: Holds, s: Session, list: seq<AdvisorySystem.TxHold>): Holds
    decreases |list|
  {
    if list == [] then hs else UnlockEach(Unlock(hs, s, list[0].key, list[0].shared).0, s, list[1..])
  }

  // How many of them there was a hold for, each waking the waiters.
  ghost function WakesOf(hs: Holds, s: Session, list: seq<AdvisorySystem.TxHold>): nat
    decreases |list|
  {
    if list == [] then 0
    else
      var (hs', ok) := Unlock(hs, s, list[0].key, list[0].shared);
      (if ok then 1 else 0) + WakesOf(hs', s, list[1..])
  }

  // Letting go of the transaction's holds takes each once, where there is one, and nobody else's.
  lemma {:induction false} UnlockEachCounts(hs: Holds, s: Session, list: seq<AdvisorySystem.TxHold>, gr: Grant)
    requires WellFormed(hs)
    ensures WellFormed(UnlockEach(hs, s, list))
    ensures Count(UnlockEach(hs, s, list), gr) ==
              if gr.session != s then Count(hs, gr)
              else AdvisorySystem.Max(0, Count(hs, gr) - AdvisorySystem.TxCount(list, gr.key, gr.shared))
    decreases |list|
  {
    CountNonNegative(hs, gr);
    if list != [] {
      UnlockCounts(hs, s, list[0].key, list[0].shared);
      AdvisorySystem.TxCountTail(list);
      UnlockEachCounts(Unlock(hs, s, list[0].key, list[0].shared).0, s, list[1..], gr);
    }
  }
}
