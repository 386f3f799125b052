/**
 The advisory lock registry as a value, the plain multiset of grants it stands for, and the
 proof that one refines the other (protocol/postgres/advisory.go).
 */
module AdvisoryGrants {
  import opened Options

  // A connection, by identity.
  type Session = nat

  datatype Key = Key(database: string, pair: bool, a: int, b: int)

  // Who holds a lock: at most one session exclusively, any number shared, each with a count.
  datatype Hold = Hold(exclusive: Option<Session>, exclCount: int, shared: map<Session, int>)

  type Holds = map<Key, Hold>

  const NO_HOLD := Hold(None, 0, map[])

  function Get(hs: Holds, k: Key): Option<Hold> {
    if k in hs then Some(hs[k]) else None
  }

  predicate CanTake(h: Option<Hold>, s: Session, shared: bool) {
    h.None?
    || (&& (h.value.exclusive.None? || h.value.exclusive.value == s)
        && (shared || forall o <- h.value.shared.Keys :: o == s))
  }

  function Take(h: Hold, s: Session, shared: bool): Hold {
    if shared then h.(shared := h.shared[s := SharedCount(h, s) + 1])
    else h.(exclusive := Some(s), exclCount := h.exclCount + 1)
  }

  function SharedCount(h: Hold, s: Session): int {
    if s in h.shared then h.shared[s] else 0
  }

  function ExclusiveCount(h: Hold, s: Session): int {
    if h.exclusive == Some(s) then h.exclCount else 0
  }

  predicate Unused(h: Hold) {
    h.exclusive.None? && h.shared == map[]
  }

  // The registry after, and result of, one tryAdvisory.
  function TryLock(hs: Holds, s: Session, k: Key, shared: bool): (Holds, bool) {
    if !CanTake(Get(hs, k), s, shared) then (hs, false)
    else (hs[k := Take(if k in hs then hs[k] else NO_HOLD, s, shared)], true)
  }

  // One hold fewer for s, or None when it has none of that mode.
  function LetGo(h: Hold, s: Session, shared: bool): Option<Hold> {
    if shared && SharedCount(h, s) > 0 then
      Some(h.(shared := if h.shared[s] == 1 then h.shared - {s} else h.shared[s := h.shared[s] - 1]))
    else if !shared && h.exclusive == Some(s) then
      Some(if h.exclCount == 1 then h.(exclusive := None, exclCount := 0) else h.(exclCount := h.exclCount - 1))
    else None
  }

  // A registry entry that nobody holds is not kept.
  function Store(hs: Holds, k: Key, h: Hold): Holds {
    if Unused(h) then hs - {k} else hs[k := h]
  }

  function Unlock(hs: Holds, s: Session, k: Key, shared: bool): (Holds, bool) {
    if k !in hs || LetGo(hs[k], s, shared).None? then (hs, false)
    else (Store(hs, k, LetGo(hs[k], s, shared).value), true)
  }

  function Forget(h: Hold, s: Session): Hold {
    var h' := if h.exclusive == Some(s) then h.(exclusive := None, exclCount := 0) else h;
    h'.(shared := h.shared - {s})
  }

  function ReleaseAll(hs: Holds, s: Session): Holds {
    map k | k in hs && !Unused(Forget(hs[k], s)) :: Forget(hs[k], s)
  }

  // -- What the registry means ------------------------------------------------

  datatype Grant = Grant(session: Session, key: Key, shared: bool)

  function CountIn(h: Hold, s: Session, shared: bool): int {
    if shared then SharedCount(h, s) else ExclusiveCount(h, s)
  }

  // How many times a session holds a lock in a mode.
  function Count(hs: Holds, gr: Grant): int {
    if gr.key !in hs then 0 else CountIn(hs[gr.key], gr.session, gr.shared)
  }

  ghost predicate HoldOk(h: Hold) {
    && (h.exclusive.Some? <==> h.exclCount > 0)
    && (h.exclusive.None? ==> h.exclCount == 0)
    && (forall s <- h.shared.Keys :: h.shared[s] > 0)
    && (h.exclusive.Some? ==> forall s <- h.shared.Keys :: s == h.exclusive.value)
  }

  ghost predicate WellFormed(hs: Holds) {
    forall k <- hs.Keys :: HoldOk(hs[k]) && !Unused(hs[k])
  }

  ghost predicate Represents(hs: Holds, g: multiset<Grant>) {
    forall gr: Grant :: g[gr] == Count(hs, gr)
  }

  // No other session's grant on the key conflicts with the request.
  ghost predicate Free(g: multiset<Grant>, s: Session, k: Key, shared: bool) {
    forall gr <- g :: gr.key == k && gr.session != s ==> shared && gr.shared
  }

  lemma CanTakeMeansFree(hs: Holds, g: multiset<Grant>, s: Session, k: Key, shared: bool)
    requires WellFormed(hs) && Represents(hs, g)
    ensures CanTake(Get(hs, k), s, shared) <==> Free(g, s, k, shared)
  {
    if Free(g, s, k, shared) && k in hs {
      var h := hs[k];
      if h.exclusive.Some? {
        assert g[Grant(h.exclusive.value, k, false)] > 0;
      }
      forall o <- h.shared.Keys ensures o == s || shared {
        assert g[Grant(o, k, true)] > 0;
      }
    }
    if CanTake(Get(hs, k), s, shared) {
      forall gr <- g | gr.key == k && gr.session != s ensures shared && gr.shared {
        assert Count(hs, gr) > 0;
      }
    }
  }

  lemma LetGoCounts(h: Hold, s: Session, shared: bool)
    requires HoldOk(h)
    ensures LetGo(h, s, shared).Some? <==> CountIn(h, s, shared) > 0
    ensures LetGo(h, s, shared).Some? ==>
              var h' := LetGo(h, s, shared).value;
              HoldOk(h') && forall o, m ::
                CountIn(h', o, m) == if o == s && m == shared then CountIn(h, o, m) - 1 else CountIn(h, o, m)
  {
  }

  lemma ForgetCounts(h: Hold, s: Session)
    requires HoldOk(h)
    ensures HoldOk(Forget(h, s))
    ensures forall o, m :: CountIn(Forget(h, s), o, m) == if o == s then 0 else CountIn(h, o, m)
  {
  }

  // What each operation does to every count.

  lemma TryCounts(hs: Holds, s: Session, k: Key, shared: bool)
    requires WellFormed(hs)
    ensures var (hs', ok) := TryLock(hs, s, k, shared);
            && WellFormed(hs')
            && forall gr ::
              Count(hs', gr) == if ok && gr == Grant(s, k, shared) then Count(hs, gr) + 1 else Count(hs, gr)
  {
  }

  lemma UnlockCounts(hs: Holds, s: Session, k: Key, shared: bool)
    requires WellFormed(hs)
    ensures var (hs', ok) := Unlock(hs, s, k, shared);
            && WellFormed(hs')
            && (ok <==> Count(hs, Grant(s, k, shared)) > 0)
            && forall gr ::
              Count(hs', gr) == if ok && gr == Grant(s, k, shared) then Count(hs, gr) - 1 else Count(hs, gr)
  {
    if k in hs {
      LetGoCounts(hs[k], s, shared);
    }
  }

  lemma ReleaseAllCounts(hs: Holds, s: Session)
    requires WellFormed(hs)
    ensures WellFormed(ReleaseAll(hs, s))
    ensures forall gr :: Count(ReleaseAll(hs, s), gr) == if gr.session == s then 0 else Count(hs, gr)
  {
    forall k <- hs.Keys ensures HoldOk(Forget(hs[k], s)) {
      ForgetCounts(hs[k], s);
    }
    forall gr: Grant
      ensures Count(ReleaseAll(hs, s), gr) == if gr.session == s then 0 else Count(hs, gr)
    {
      if gr.key in hs {
        ForgetCounts(hs[gr.key], s);
      }
    }
  }

  lemma CountNonNegative(hs: Holds, gr: Grant)
    requires WellFormed(hs)
    ensures Count(hs, gr) >= 0
  {
  }

  // -- Refinement of the plain multiset of grants, over whole runs ---------------

  ghost function Without(g: multiset<Grant>, s: Session): (g': multiset<Grant>)
    ensures forall gr: Grant :: g'[gr] == if gr.session == s then 0 else g[gr]
    decreases |g|
  {
    if gr :| gr in g && gr.session == s then Without(g[gr := 0], s) else g
  }

  datatype Call =
    | Try(session: Session, key: Key, shared: bool)
    | Release(session: Session, key: Key, shared: bool)
    | ReleaseEverything(session: Session)

  function Apply(hs: Holds, c: Call): (Holds, bool) {
    match c
    case Try(s, k, shared) => TryLock(hs, s, k, shared)
    case Release(s, k, shared) => Unlock(hs, s, k, shared)
    case ReleaseEverything(s) => (ReleaseAll(hs, s), true)
  }

  // The reference: a multiset of grants, added to and taken from.
  ghost function ApplyToGrants(g: multiset<Grant>, c: Call): (multiset<Grant>, bool) {
    match c
    case Try(s, k, shared) =>
      if Free(g, s, k, shared) then (g + multiset{Grant(s, k, shared)}, true) else (g, false)
    case Release(s, k, shared) => (g - multiset{Grant(s, k, shared)}, Grant(s, k, shared) in g)
    case ReleaseEverything(s) => (Without(g, s), true)
  }

  function Replay(hs: Holds, calls: seq<Call>): (Holds, seq<bool>)
    decreases |calls|
  {
    if calls == [] then (hs, [])
    else
      var (hs1, ok) := Apply(hs, calls[0]);
      var (hs2, oks) := Replay(hs1, calls[1..]);
      (hs2, [ok] + oks)
  }

  ghost function ReplayOnGrants(g: multiset<Grant>, calls: seq<Call>): (multiset<Grant>, seq<bool>)
    decreases |calls|
  {
    if calls == [] then (g, [])
    else
      var (g1, ok) := ApplyToGrants(g, calls[0]);
      var (g2, oks) := ReplayOnGrants(g1, calls[1..]);
      (g2, [ok] + oks)
  }

  lemma TryRefines(hs: Holds, g: multiset<Grant>, s: Session, k: Key, shared: bool)
    requires WellFormed(hs) && Represents(hs, g)
    ensures var (hs', ok) := TryLock(hs, s, k, shared);
            && (ok <==> Free(g, s, k, shared))
            && WellFormed(hs')
            && Represents(hs', if ok then g + multiset{Grant(s, k, shared)} else g)
  {
    CanTakeMeansFree(hs, g, s, k, shared);
    TryCounts(hs, s, k, shared);
  }

  lemma UnlockRefines(hs: Holds, g: multiset<Grant>, s: Session, k: Key, shared: bool)
    requires WellFormed(hs) && Represents(hs, g)
    ensures var (hs', ok) := Unlock(hs, s, k, shared);
            && (ok <==> Grant(s, k, shared) in g)
            && WellFormed(hs')
            && Represents(hs', g - multiset{Grant(s, k, shared)})
  {
    assert g[Grant(s, k, shared)] == Count(hs, Grant(s, k, shared));
    UnlockCounts(hs, s, k, shared);
  }

  lemma ReleaseAllRefines(hs: Holds, g: multiset<Grant>, s: Session)
    requires WellFormed(hs) && Represents(hs, g)
    ensures WellFormed(ReleaseAll(hs, s)) && Represents(ReleaseAll(hs, s), Without(g, s))
  {
    ReleaseAllCounts(hs, s);
  }

  lemma CallRefines(hs: Holds, g: multiset<Grant>, c: Call)
    requires WellFormed(hs) && Represents(hs, g)
    ensures Apply(hs, c).1 == ApplyToGrants(g, c).1
    ensures WellFormed(Apply(hs, c).0)
    ensures Represents(Apply(hs, c).0, ApplyToGrants(g, c).0)
  {
    match c
    case Try(s, k, shared) => TryRefines(hs, g, s, k, shared);
    case Release(s, k, shared) => UnlockRefines(hs, g, s, k, shared);
    case ReleaseEverything(s) => ReleaseAllRefines(hs, g, s);
  }

  // Every answer of every run is the reference's, and the registry ends standing for its grants.
  lemma {:induction false} RegistryRefinesGrants(hs: Holds, g: multiset<Grant>, calls: seq<Call>)
    requires WellFormed(hs) && Represents(hs, g)
    ensures Replay(hs, calls).1 == ReplayOnGrants(g, calls).1
    ensures WellFormed(Replay(hs, calls).0)
    ensures Represents(Replay(hs, calls).0, ReplayOnGrants(g, calls).0)
    decreases |calls|
  {
    if calls != [] {
      CallRefines(hs, g, calls[0]);
      RegistryRefinesGrants(Apply(hs, calls[0]).0, ApplyToGrants(g, calls[0]).0, calls[1..]);
    }
  }

  // The grants determine the registry: no entry is kept for a lock nobody holds, and no zero count.
  lemma GrantsDetermineRegistry(a: Holds, b: Holds, g: multiset<Grant>)
    requires WellFormed(a) && WellFormed(b) && Represents(a, g) && Represents(b, g)
    ensures a == b
  {
    forall k: Key ensures (k in a <==> k in b) && (k in a && k in b ==> a[k] == b[k]) {
      SameHold(a, b, g, k);
      SameHold(b, a, g, k);
    }
  }

  lemma SameHold(a: Holds, b: Holds, g: multiset<Grant>, k: Key)
    requires WellFormed(a) && WellFormed(b) && Represents(a, g) && Represents(b, g)
    ensures k in a ==> k in b && a[k].exclusive == b[k].exclusive && a[k].exclCount == b[k].exclCount
    ensures k in a ==> k in b && a[k].shared == b[k].shared
  {
    if k in a {
      forall s: Session, m: bool
        ensures k in b ==> CountIn(a[k], s, m) == CountIn(b[k], s, m)
        ensures k !in b ==> CountIn(a[k], s, m) == 0
      {
        assert g[Grant(s, k, m)] == Count(a, Grant(s, k, m)) == Count(b, Grant(s, k, m));
      }
      if a[k].exclusive.Some? {
        assert CountIn(a[k], a[k].exclusive.value, false) > 0;
      } else {
        var s :| s in a[k].shared;
        assert CountIn(a[k], s, true) > 0;
      }
      assert k in b;
      if b[k].exclusive.Some? {
        assert CountIn(a[k], b[k].exclusive.value, false) > 0;
      }
      forall s: Session ensures s in a[k].shared <==> s in b[k].shared {
        assert CountIn(a[k], s, true) == CountIn(b[k], s, true);
      }
      forall s <- a[k].shared.Keys ensures a[k].shared[s] == b[k].shared[s] {
        assert CountIn(a[k], s, true) == CountIn(b[k], s, true);
      }
    }
  }
}
