/** Safety of the connection pool over every run. */
module PoolSafety {
  import opened Options
  import opened Sequences
  import opened PoolModel

  // ---------- Removing one idle connection ----------

  lemma {:induction false} RemoveIs<T>(s: seq<T>, x: T)
    requires NoDup(s)
    ensures NoDup(Remove(s, x)) && forall y :: y in Remove(s, x) <==> y in s && y != x
    ensures |Remove(s, x)| == |s| - if x in s then 1 else 0
    ensures multiset(Remove(s, x)) == multiset(s) - multiset{x}
  {
    if s != [] {
      var rest := s[1..];
      RemoveIs(rest, x);
      assert s == [s[0]] + rest;
      if s[0] == x {
        RemoveAbsent(rest, x);
      } else {
        assert s[0] !in Remove(rest, x);
      }
    }
  }

  lemma RemoveFirst<T>(s: seq<T>)
    requires NoDup(s) && s != []
    ensures Remove(s, s[0]) == s[1..]
  {
    RemoveAbsent(s[1..], s[0]);
  }

  lemma {:induction false} RemoveAbsent<T>(s: seq<T>, x: T)
    requires x !in s
    ensures Remove(s, x) == s
  {
    if s != [] {
      RemoveAbsent(s[1..], x);
    }
  }

  /** What removing idle connections leaves alone: the claims and the queue; what is deleted is exactly
      what leaves the available list. */
  ghost predicate Shrinks(p: Pool, q: Pool) {
    && q.claims == p.claims && q.pending == p.pending && q.queued == p.queued && q.answered == p.answered
    && |q.connections| <= |p.connections|
    && (forall c <- q.available :: c in p.available)
    && q.deleted + multiset(q.available) == p.deleted + multiset(p.available)
  }

  lemma {:induction false} DestroyIdle(p: Pool, c: Connection)
    requires ConnectionsOk(p) && c in p.available
    ensures var q := Destroy(p.(available := Remove(p.available, c)), c);
      ConnectionsOk(q) && Shrinks(p, q) && |q.connections| == |p.connections| - 1
      && forall d :: d in q.available <==> d in p.available && d != c
  {
    DestroyShrinks(p, c);
    var q := Destroy(p.(available := Remove(p.available, c)), c);
    forall id <- q.claims | q.claims[id].Owns().Some?
      ensures q.claims[id].Owns().value in q.connections && q.claims[id].Owns().value !in q.available
    {
      assert p.claims[id].Owns().value in p.connections;
    }
  }

  lemma DestroyShrinks(p: Pool, c: Connection)
    requires NoDup(p.connections) && NoDup(p.available) && c in p.available && c in p.connections
    ensures var q := Destroy(p.(available := Remove(p.available, c)), c);
      && Shrinks(p, q) && |q.connections| == |p.connections| - 1 && NoDup(q.connections) && NoDup(q.available)
      && (forall d :: d in q.connections <==> d in p.connections && d != c)
      && (forall d :: d in q.available <==> d in p.available && d != c)
      && multiset(q.connections) + q.deleted == multiset(p.connections) + p.deleted
  {
    RemoveIs(p.connections, c);
    RemoveIs(p.available, c);
    Moved(multiset(p.connections), p.deleted, c);
    Moved(multiset(p.available), p.deleted, c);
  }

  lemma Moved(from: multiset<Connection>, to: multiset<Connection>, c: Connection)
    requires c in from
    ensures (from - multiset{c}) + (to + multiset{c}) == from + to
  {
  }

  lemma {:induction false} DropDeadKeeps(p: Pool, dead: set<Connection>)
    requires ConnectionsOk(p)
    ensures ConnectionsOk(DropDead(p, dead)) && Shrinks(p, DropDead(p, dead))
    ensures DropDead(p, dead).available != [] ==> DropDead(p, dead).available[0] !in dead
    decreases p.available
  {
    if p.available != [] && p.available[0] in dead {
      var c := p.available[0];
      RemoveFirst(p.available);
      DestroyIdle(p, c);
      var q := Destroy(p.(available := p.available[1..]), c);
      DropDeadKeeps(q, dead);
    }
  }

  lemma {:induction false} DropIdleKeeps(p: Pool, idle: seq<Connection>, dead: set<Connection>)
    requires ConnectionsOk(p) && NoDup(idle) && forall c <- idle :: c in p.available
    ensures ConnectionsOk(DropIdle(p, idle, dead)) && Shrinks(p, DropIdle(p, idle, dead))
    decreases idle
  {
    if idle != [] {
      var c, rest := idle[0], idle[1..];
      assert forall d <- rest :: d in idle && d != c;
      if c in dead {
        DestroyIdle(p, c);
        var q := Destroy(p.(available := Remove(p.available, c)), c);
        DropIdleKeeps(q, rest, dead);
      } else {
        DropIdleKeeps(p, rest, dead);
      }
    }
  }

  lemma ReapOneKeeps(cfg: Config, p: Pool, c: Connection, now: Time)
    requires ConnectionsOk(p) && c in p.lastUsed
    ensures var q := ReapOne(cfg, p, c, now);
      && ConnectionsOk(q) && Shrinks(p, q)
      && |q.connections| >= (if |p.connections| < cfg.min then |p.connections| else cfg.min)
      && (forall d <- p.lastUsed :: d != c ==> d in q.lastUsed)
  {
    if c in p.available {
      DestroyIdle(p, c);
    }
  }

  /** Reaping the inactive never goes below the minimum, and removes only idle connections. */
  lemma {:induction false} ReapInactiveKeeps(cfg: Config, p: Pool, order: seq<Connection>, now: Time)
    requires ConnectionsOk(p) && NoDup(order) && forall c <- order :: c in p.lastUsed
    ensures var q := ReapInactive(cfg, p, order, now);
      && ConnectionsOk(q) && Shrinks(p, q)
      && |q.connections| >= (if |p.connections| < cfg.min then |p.connections| else cfg.min)
    decreases order
  {
    if order != [] {
      var c, rest := order[0], order[1..];
      assert forall d <- rest :: d in order && d != c;
      ReapOneKeeps(cfg, p, c, now);
      var q := ReapOne(cfg, p, c, now);
      ReapInactiveKeeps(cfg, q, rest, now);
    }
  }

  // ---------- Each step keeps the connections right ----------

  lemma TakeFirst(p: Pool, id: ClaimId, now: Time)
    requires ConnectionsOk(p) && p.available != [] && id !in p.claims
    ensures var c := p.available[0];
      ConnectionsOk(p.(available := p.available[1..], lastUsed := p.lastUsed[c := now], claims := p.claims[id := Holding(c)]))
  {
    var c := p.available[0];
    assert p.available == [c] + p.available[1..];
    OwnersAfter(p.claims, id, Holding(c));
  }

  /** Changing one claim leaves every other owner an owner. */
  lemma OwnersAfter(claims: map<ClaimId, Claim>, id: ClaimId, claim: Claim)
    ensures forall c :: IsOwned(claims, c) && (id in claims ==> claims[id].Owns() != Some(c)) ==> IsOwned(claims[id := claim], c)
    ensures forall c :: claim.Owns() == Some(c) ==> IsOwned(claims[id := claim], c)
  {
    var after := claims[id := claim];
    assert id in after && after[id] == claim;
    forall c | IsOwned(claims, c) && (id in claims ==> claims[id].Owns() != Some(c)) ensures IsOwned(after, c) {
      var a :| a in claims && claims[a].Owns() == Some(c);
      assert a in after && after[a].Owns() == Some(c);
    }
  }

  lemma CreateIdle(p: Pool, c: Connection, now: Time)
    requires ConnectionsOk(p) && c !in p.connections
    ensures ConnectionsOk(Create(p, c, now).(available := p.available + [c]))
  {
  }

  lemma CreateHeld(p: Pool, c: Connection, now: Time, id: ClaimId)
    requires ConnectionsOk(p) && c !in p.connections && id !in p.claims
    ensures ConnectionsOk(Create(p, c, now).(claims := p.claims[id := Holding(c)]))
  {
    OwnersAfter(p.claims, id, Holding(c));
  }

  /** A claim that owned nothing, or is new, goes on owning nothing. */
  lemma OwnsNothing(p: Pool, id: ClaimId, claim: Claim)
    requires ConnectionsOk(p) && claim.Owns() == None && (id in p.claims ==> p.claims[id].Owns() == None)
    ensures ConnectionsOk(p.(claims := p.claims[id := claim]))
  {
    OwnersAfter(p.claims, id, claim);
  }

  lemma {:induction false} ClaimKeeps(cfg: Config, p: Pool, id: ClaimId, dead: set<Connection>, made: Creation, now: Time)
    requires ConnectionsOk(p) && id !in p.claims && FreshCreation(DropDead(p, dead), made) && |p.connections| <= cfg.max
    ensures ConnectionsOk(ClaimNow(cfg, p, id, dead, made, now)) && |ClaimNow(cfg, p, id, dead, made, now).connections| <= cfg.max
  {
    DropDeadKeeps(p, dead);
    var q := DropDead(p, dead);
    if q.available != [] {
      TakeFirst(q, id, now);
    } else if |q.connections| >= cfg.max {
      OwnsNothing(q, id, Full);
    } else if made.Good? {
      CreateHeld(q, made.c, now, id);
    } else {
      OwnsNothing(q, id, Over);
    }
  }

  lemma {:induction false} DropDeadFrame(p: Pool, dead: set<Connection>)
    ensures var q := DropDead(p, dead);
      q.claims == p.claims && q.pending == p.pending && q.queued == p.queued && q.answered == p.answered
    decreases p.available
  {
    if p.available != [] && p.available[0] in dead {
      DropDeadFrame(Destroy(p.(available := p.available[1..]), p.available[0]), dead);
    }
  }

  lemma ClaimFrame(cfg: Config, p: Pool, id: ClaimId, dead: set<Connection>, made: Creation, now: Time)
    ensures var q := ClaimNow(cfg, p, id, dead, made, now);
      && id in q.claims && !q.claims[id].Waiting? && q.claims == p.claims[id := q.claims[id]]
      && q.pending == p.pending && q.queued == p.queued && q.answered == p.answered
  {
    DropDeadFrame(p, dead);
  }

  lemma ClaimKeepsQueue(cfg: Config, p: Pool, id: ClaimId, dead: set<Connection>, made: Creation, now: Time)
    requires QueueOk(p) && id !in p.claims
    ensures QueueOk(ClaimNow(cfg, p, id, dead, made, now))
  {
    ClaimFrame(cfg, p, id, dead, made, now);
    var q := ClaimNow(cfg, p, id, dead, made, now);
  }

  lemma PickUpKeeps(p: Pool, id: ClaimId)
    requires ConnectionsOk(p) && id in p.claims && p.claims[id].Answered?
    ensures ConnectionsOk(PickUp(p, id))
  {
    OwnersAfter(p.claims, id, PickUp(p, id).claims[id]);
  }

  /** Nobody owns what the claim gives up. */
  lemma GivenUp(p: Pool, id: ClaimId)
    requires ConnectionsOk(p) && id in p.claims && p.claims[id].Holding?
    ensures var c, claims := p.claims[id].connection, p.claims[id := Over];
      && c in p.connections && c !in p.available && !IsOwned(claims, c)
      && (forall d <- p.connections :: d in p.available || d == c || IsOwned(claims, d))
  {
    var c, claims := p.claims[id].connection, p.claims[id := Over];
    assert p.claims[id].Owns() == Some(c);
    OwnersAfter(p.claims, id, Over);
    forall a <- claims ensures claims[a].Owns() != Some(c) {
      assert a != id ==> claims[a] == p.claims[a];
    }
  }

  lemma ReleasedToFirst(p: Pool, id: ClaimId, first: ClaimId)
    requires ConnectionsOk(p) && id in p.claims && p.claims[id].Holding?
    requires first != id && first in p.claims && p.claims[first].Waiting?
    ensures ConnectionsOk(p.(claims := p.claims[id := Over][first := Answered(Some(p.claims[id].connection))]))
  {
    var c, claims := p.claims[id].connection, p.claims[id := Over];
    GivenUp(p, id);
    OwnersAfter(claims, first, Answered(Some(c)));
  }

  lemma ReleasedToIdle(p: Pool, id: ClaimId)
    requires ConnectionsOk(p) && id in p.claims && p.claims[id].Holding?
    ensures ConnectionsOk(p.(claims := p.claims[id := Over], available := p.available + [p.claims[id].connection]))
  {
    GivenUp(p, id);
  }

  lemma OtherFields(p: Pool, pending: seq<ClaimId>, answered: seq<ClaimId>)
    requires ConnectionsOk(p)
    ensures ConnectionsOk(p.(pending := pending, answered := answered))
  {
  }

  /** Handing the connection of claim `id` to the first waiting claim, or back to the available list. */
  lemma ReleaseKeeps(p: Pool, id: ClaimId)
    requires ConnectionsOk(p) && QueueOk(p) && id in p.claims && p.claims[id].Holding?
    ensures ConnectionsOk(Release(p, id))
  {
    GivenUp(p, id);
    if p.pending != [] {
      var first := p.pending[0];
      assert first in p.pending;
      ReleasedToFirst(p, id, first);
      OtherFields(p.(claims := p.claims[id := Over][first := Answered(Some(p.claims[id].connection))]),
                  p.pending[1..], p.answered + [first]);
    } else {
      ReleasedToIdle(p, id);
    }
  }

  lemma {:induction false} FillFrame(p: Pool, n: nat, made: seq<Creation>, now: Time)
    ensures var q := Fill(p, n, made, now);
      && |p.connections| <= |q.connections| <= |p.connections| + n && p.connections <= q.connections
      && q.claims == p.claims && q.pending == p.pending && q.queued == p.queued && q.answered == p.answered
    decreases n
  {
    if n > 0 && made != [] && !made[0].Broken? {
      FillFrame(if made[0].Good? then Create(p, made[0].c, now).(available := p.available + [made[0].c]) else p, n - 1, made[1..], now);
    }
  }

  lemma {:induction false} FillKeeps(p: Pool, n: nat, made: seq<Creation>, now: Time)
    requires ConnectionsOk(p) && FreshCreations(p, n, made)
    ensures ConnectionsOk(Fill(p, n, made, now))
    decreases n
  {
    if n > 0 && made != [] {
      match made[0]
      case NoConnection => FillKeeps(p, n - 1, made[1..], now);
      case Broken(c) => DiscardKeeps(p, c);
      case Good(c) =>
        FillsOne(p, n, made, now);
        FillKeeps(Create(p, c, now).(available := p.available + [c]), n - 1, made[1..], now);
    }
  }

  lemma DiscardKeeps(p: Pool, c: Connection)
    requires ConnectionsOk(p)
    ensures ConnectionsOk(Discard(p, c))
  {
  }

  lemma FillsOne(p: Pool, n: nat, made: seq<Creation>, now: Time)
    requires ConnectionsOk(p) && n > 0 && made != [] && made[0].Good? && FreshCreations(p, n, made)
    ensures var q := Create(p, made[0].c, now).(available := p.available + [made[0].c]);
            ConnectionsOk(q) && FreshCreations(q, n - 1, made[1..])
  {
    var c := made[0].c;
    CreateIdle(p, c, now);
    FreshOnConnections(Create(p, c, now).(available := p.available + [c]), p.(connections := p.connections + [c]), n - 1, made[1..]);
  }

  lemma {:induction false} FreshOnConnections(p: Pool, q: Pool, n: nat, made: seq<Creation>)
    requires p.connections == q.connections
    ensures FreshCreations(p, n, made) == FreshCreations(q, n, made)
    decreases n
  {
    if n > 0 && made != [] {
      match made[0]
      case NoConnection => FreshOnConnections(p, q, n - 1, made[1..]);
      case Broken(c) =>
      case Good(c) =>
        FreshOnConnections(p.(connections := p.connections + [c]), q.(connections := q.connections + [c]), n - 1, made[1..]);
    }
  }

  lemma TimeOutKeeps(cfg: Config, p: Pool, later: Time)
    requires ConnectionsOk(p)
    ensures ConnectionsOk(TimeOutFirst(cfg, p, later)) && TimeOutFirst(cfg, p, later).connections == p.connections
  {
    if TimeOutFirst(cfg, p, later) != p {
      OwnsNothing(p, p.pending[0], Answered(None));
    }
  }

  // ---------- Each step keeps the queue right ----------

  lemma AnswerKeepsQueue(p: Pool, answer: Option<Connection>)
    requires QueueOk(p) && p.pending != []
    ensures QueueOk(AnswerFirst(p, answer))
  {
    var q := AnswerFirst(p, answer);
    var first := p.pending[0];
    assert p.pending == [first] + q.pending;
    assert q.answered + q.pending == p.queued;
    assert p.queued[|p.answered|..] == p.pending;
    assert first !in q.pending;
    assert first in p.queued && first in p.pending;
  }

  // ---------- The invariant, step by step and over every run ----------

  /** The pool after the reaper's two removals. */
  lemma Reaped(cfg: Config, p: Pool, dead: set<Connection>, order: seq<Connection>, now: Time) returns (q: Pool)
    requires ConnectionsOk(p) && ReapOrder(DropIdle(p, p.available, dead), order)
    ensures q == ReapInactive(cfg, DropIdle(p, p.available, dead), order, now)
    ensures ConnectionsOk(q) && Shrinks(p, q)
  {
    DropIdleKeeps(p, p.available, dead);
    var idle := DropIdle(p, p.available, dead);
    ReapInactiveKeeps(cfg, idle, order, now);
    q := ReapInactive(cfg, idle, order, now);
    ShrinksTwice(p, idle, q);
  }

  lemma ShrinksTwice(p: Pool, q: Pool, r: Pool)
    requires Shrinks(p, q) && Shrinks(q, r)
    ensures Shrinks(p, r)
  {
  }

  lemma RefillFrame(cfg: Config, p: Pool, mades: seq<Creation>, now: Time)
    ensures var q := FillToMinimum(cfg, p, mades, now);
      && p.connections <= q.connections && |q.connections| <= (if |p.connections| < cfg.min then cfg.min else |p.connections|)
      && q.claims == p.claims && q.pending == p.pending && q.queued == p.queued && q.answered == p.answered
  {
    if |p.connections| < cfg.min {
      FillFrame(p, cfg.min - |p.connections|, mades, now);
    }
  }

  lemma ReapKeepsConnections(cfg: Config, p: Pool, dead: set<Connection>, order: seq<Connection>, mades: seq<Creation>, now: Time, later: Time)
    requires cfg.min <= cfg.max && ConnectionsOk(p) && |p.connections| <= cfg.max
    requires Enabled(cfg, p, DoReap(dead, order, mades, now, later))
    ensures var q := Reap(cfg, p, dead, order, mades, now, later); ConnectionsOk(q) && |q.connections| <= cfg.max
  {
    var reaped := Reaped(cfg, p, dead, order, now);
    RefillKeeps(cfg, reaped, mades, now);
    RefillFrame(cfg, reaped, mades, now);
    TimeOutKeeps(cfg, FillToMinimum(cfg, reaped, mades, now), later);
  }

  lemma RefillKeeps(cfg: Config, p: Pool, mades: seq<Creation>, now: Time)
    requires ConnectionsOk(p) && (|p.connections| < cfg.min ==> FreshCreations(p, cfg.min - |p.connections|, mades))
    ensures ConnectionsOk(FillToMinimum(cfg, p, mades, now))
  {
    if |p.connections| < cfg.min {
      FillKeeps(p, cfg.min - |p.connections|, mades, now);
    }
  }

  lemma TimeOutKeepsQueue(cfg: Config, p: Pool, later: Time)
    requires QueueOk(p)
    ensures QueueOk(TimeOutFirst(cfg, p, later))
  {
    if TimeOutFirst(cfg, p, later) != p {
      AnswerKeepsQueue(p, None);
    }
  }

  lemma SameQueue(p: Pool, q: Pool)
    requires QueueOk(p) && q.claims == p.claims && q.pending == p.pending && q.queued == p.queued && q.answered == p.answered
    ensures QueueOk(q)
  {
  }

  lemma ReapKeepsQueue(cfg: Config, p: Pool, dead: set<Connection>, order: seq<Connection>, mades: seq<Creation>, now: Time, later: Time)
    requires ConnectionsOk(p) && QueueOk(p) && ReapOrder(DropIdle(p, p.available, dead), order)
    ensures QueueOk(Reap(cfg, p, dead, order, mades, now, later))
  {
    var reaped := Reaped(cfg, p, dead, order, now);
    RefillFrame(cfg, reaped, mades, now);
    SameQueue(p, FillToMinimum(cfg, reaped, mades, now));
    TimeOutKeepsQueue(cfg, FillToMinimum(cfg, reaped, mades, now), later);
  }

  lemma StepKeepsInv(cfg: Config, p: Pool, e: Event)
    requires cfg.min <= cfg.max && Inv(cfg, p) && Enabled(cfg, p, e)
    ensures Inv(cfg, Apply(cfg, p, e))
  {
    match e
    case DoClaim(id, dead, made, now) =>
      ClaimKeeps(cfg, p, id, dead, made, now);
      ClaimKeepsQueue(cfg, p, id, dead, made, now);
    case DoEnqueue(id, started) =>
      OwnsNothing(p, id, Waiting(started));
    case DoPickUp(id) =>
      PickUpKeeps(p, id);
    case DoRelease(id) =>
      ReleaseKeeps(p, id);
      ReleaseKeepsQueue(p, id);
    case DoReap(dead, order, mades, now, later) =>
      ReapKeepsConnections(cfg, p, dead, order, mades, now, later);
      ReapKeepsQueue(cfg, p, dead, order, mades, now, later);
  }

  lemma ReleaseKeepsQueue(p: Pool, id: ClaimId)
    requires QueueOk(p) && id in p.claims && p.claims[id].Holding?
    ensures QueueOk(Release(p, id))
  {
    var q := p.(claims := p.claims[id := Over]);
    if p.pending != [] {
      AnswerKeepsQueue(q, Some(p.claims[id].connection));
    }
  }

  /** A run: the pool is filled to its minimum, and then steps are taken in any order. */
  ghost predicate IsRun(cfg: Config, states: seq<Pool>, events: seq<Event>, mades: seq<Creation>, now: Time) {
    && |states| == |events| + 1
    && FreshCreations(EMPTY, cfg.min, mades) && states[0] == FillToMinimum(cfg, EMPTY, mades, now)
    && forall i | 0 <= i < |events| :: Enabled(cfg, states[i], events[i]) && states[i + 1] == Apply(cfg, states[i], events[i])
  }

  /** In every state of every run: idle connections are distinct members of the pool, no connection has
      two owners or is idle and owned, `lastUsed` covers exactly the pool, the maximum holds, and the
      queue is answered in order. */
  lemma {:induction false} RunsAreSafe(cfg: Config, states: seq<Pool>, events: seq<Event>, mades: seq<Creation>, now: Time, i: nat)
    requires cfg.min <= cfg.max && IsRun(cfg, states, events, mades, now) && i < |states|
    ensures Inv(cfg, states[i])
  {
    if i == 0 {
      if cfg.min > 0 {
        FillKeeps(EMPTY, cfg.min, mades, now);
        FillFrame(EMPTY, cfg.min, mades, now);
      }
    } else {
      RunsAreSafe(cfg, states, events, mades, now, i - 1);
      StepKeepsInv(cfg, states[i - 1], events[i - 1]);
    }
  }

  // ---------- What the invariant means for the pool's users ----------

  /** A reaper pass takes nothing from an owner: every owned connection stays in the pool with the same
      owner, and whatever leaves the pool was idle. */
  lemma ReaperSparesOwned(cfg: Config, p: Pool, dead: set<Connection>, order: seq<Connection>, mades: seq<Creation>, now: Time, later: Time)
    requires Inv(cfg, p) && Enabled(cfg, p, DoReap(dead, order, mades, now, later))
    ensures var q := Reap(cfg, p, dead, order, mades, now, later);
      && (forall id <- p.claims | p.claims[id].Owns().Some? ::
            id in q.claims && q.claims[id].Owns() == p.claims[id].Owns() && p.claims[id].Owns().value in q.connections)
      && (forall c <- p.connections :: c in q.connections || c in p.available)
  {
    var reaped := Reaped(cfg, p, dead, order, now);
    var filled := FillToMinimum(cfg, reaped, mades, now);
    RefillFrame(cfg, reaped, mades, now);
    TimeOutSpares(cfg, filled, later);
    forall id <- p.claims | p.claims[id].Owns().Some? ensures p.claims[id].Owns().value in filled.connections {
      OwnedStays(p, reaped, id);
    }
    forall c <- p.connections ensures c in filled.connections || c in p.available {
      OnlyIdleGoes(p, reaped, c);
    }
  }

  lemma TimeOutSpares(cfg: Config, p: Pool, later: Time)
    ensures var q := TimeOutFirst(cfg, p, later);
      && q.connections == p.connections
      && forall id <- p.claims | p.claims[id].Owns().Some? :: id in q.claims && q.claims[id].Owns() == p.claims[id].Owns()
  {
  }

  lemma OwnedStays(p: Pool, q: Pool, id: ClaimId)
    requires ConnectionsOk(q) && q.claims == p.claims && id in p.claims && p.claims[id].Owns().Some?
    ensures p.claims[id].Owns().value in q.connections
  {
  }

  lemma OnlyIdleGoes(p: Pool, q: Pool, c: Connection)
    requires ConnectionsOk(p) && ConnectionsOk(q) && q.claims == p.claims && c in p.connections
    ensures c in q.connections || c in p.available
  {
    if c !in p.available {
      var id :| id in p.claims && p.claims[id].Owns() == Some(c);
      OwnedStays(p, q, id);
    }
  }

  lemma QueueOnlyGrows(cfg: Config, p: Pool, e: Event)
    requires Inv(cfg, p) && Enabled(cfg, p, e)
    ensures p.queued <= Apply(cfg, p, e).queued && p.answered <= Apply(cfg, p, e).answered
  {
    match e
    case DoClaim(id, dead, made, now) => DropDeadFrame(p, dead);
    case DoReap(dead, order, mades, now, later) => ReapQueue(cfg, p, dead, order, mades, now, later);
    case _ =>
  }

  lemma ReapQueue(cfg: Config, p: Pool, dead: set<Connection>, order: seq<Connection>, mades: seq<Creation>, now: Time, later: Time)
    requires ConnectionsOk(p) && ReapOrder(DropIdle(p, p.available, dead), order)
    ensures var q := Reap(cfg, p, dead, order, mades, now, later); q.queued == p.queued && p.answered <= q.answered
  {
    var reaped := Reaped(cfg, p, dead, order, now);
    RefillFrame(cfg, reaped, mades, now);
  }

  /** Over a whole run the queue and the answers only grow, no claim queues or is answered twice, and
      claims are answered in the order in which they queued. */
  lemma AnsweredOnceInOrder(cfg: Config, states: seq<Pool>, events: seq<Event>, mades: seq<Creation>, now: Time, i: nat, j: nat)
    requires cfg.min <= cfg.max && IsRun(cfg, states, events, mades, now) && i <= j < |states|
    ensures states[i].answered <= states[j].answered && states[i].queued <= states[j].queued
    ensures states[j].answered <= states[j].queued && NoDup(states[j].queued) && NoDup(states[j].answered)
  {
    var answers := seq(|states|, k requires 0 <= k < |states| => states[k].answered);
    var queues := seq(|states|, k requires 0 <= k < |states| => states[k].queued);
    forall k: nat | k < |events| ensures answers[k] <= answers[k + 1] && queues[k] <= queues[k + 1] {
      OneStepGrows(cfg, states, events, mades, now, k);
    }
    PrefixChain(answers, i, j);
    PrefixChain(queues, i, j);
    AnsweredSoFar(cfg, states, events, mades, now, j);
  }

  lemma {:induction false} PrefixChain(lists: seq<seq<ClaimId>>, i: nat, j: nat)
    requires i <= j < |lists| && forall k: nat | k < |lists| - 1 :: lists[k] <= lists[k + 1]
    ensures lists[i] <= lists[j]
    decreases j - i
  {
    if i < j {
      PrefixChain(lists, i, j - 1);
    }
  }

  lemma AnsweredSoFar(cfg: Config, states: seq<Pool>, events: seq<Event>, mades: seq<Creation>, now: Time, j: nat)
    requires cfg.min <= cfg.max && IsRun(cfg, states, events, mades, now) && j < |states|
    ensures states[j].answered <= states[j].queued && NoDup(states[j].queued) && NoDup(states[j].answered)
  {
    RunsAreSafe(cfg, states, events, mades, now, j);
  }

  lemma OneStepGrows(cfg: Config, states: seq<Pool>, events: seq<Event>, mades: seq<Creation>, now: Time, i: nat)
    requires cfg.min <= cfg.max && IsRun(cfg, states, events, mades, now) && i < |events|
    ensures states[i].answered <= states[i + 1].answered && states[i].queued <= states[i + 1].queued
  {
    RunsAreSafe(cfg, states, events, mades, now, i);
    QueueOnlyGrows(cfg, states[i], events[i]);
  }

  function Owners(claims: map<ClaimId, Claim>): set<ClaimId> {
    set id <- claims | claims[id].Owns().Some?
  }

  /** The connections that claims own, by claim. */
  function OwnedBy(claims: map<ClaimId, Claim>): map<ClaimId, Connection> {
    map id <- claims | claims[id].Owns().Some? :: claims[id].Owns().value
  }

  /** The number in use, total less available, is the number of claims that own a connection. */
  lemma InUseIsOwned(p: Pool)
    requires ConnectionsOk(p)
    ensures |p.connections| - |p.available| == |Owners(p.claims)|
  {
    var m := OwnedBy(p.claims);
    InjectiveCount(m);
    ElementsCount(p.connections);
    ElementsCount(p.available);
    OwnedOrIdle(p);
    SplitCount(Elements(p.connections), Elements(p.available), m.Values);
  }

  lemma SplitCount<T(!new)>(all: set<T>, a: set<T>, b: set<T>)
    requires a !! b && forall c :: c in all <==> c in a || c in b
    ensures |all| == |a| + |b|
  {
    assert all == a + b;
  }


  lemma OwnedOrIdle(p: Pool)
    requires ConnectionsOk(p)
    ensures forall c :: c in Elements(p.connections) <==> c in Elements(p.available) || c in OwnedBy(p.claims).Values
    ensures Elements(p.available) !! OwnedBy(p.claims).Values
  {
    var m := OwnedBy(p.claims);
    forall c | c in p.connections && c !in p.available ensures c in m.Values {
      assert IsOwned(p.claims, c);
      var id :| id in p.claims && p.claims[id].Owns() == Some(c);
      assert id in m && m[id] == c;
    }
    forall c | c in m.Values ensures c in p.connections && c !in p.available {
      var id :| id in m && m[id] == c;
      assert p.claims[id].Owns() == Some(c);
    }
  }

  function Elements(s: seq<Connection>): set<Connection> {
    set c <- s
  }

  lemma {:induction false} ElementsCount(s: seq<Connection>)
    requires NoDup(s)
    ensures |Elements(s)| == |s|
  {
    if s != [] {
      ElementsCount(s[1..]);
      assert Elements(s) == {s[0]} + Elements(s[1..]);
    }
  }

  lemma {:induction false} InjectiveCount<A, B>(m: map<A, B>)
    requires forall a <- m, b <- m :: a != b ==> m[a] != m[b]
    ensures |m.Values| == |m.Keys|
    decreases |m.Keys|
  {
    if m.Keys != {} {
      var a :| a in m.Keys;
      var rest := m - {a};
      InjectiveCount(rest);
      assert rest.Keys == m.Keys - {a};
      assert m.Values == rest.Values + {m[a]} by {
        forall v | v in m.Values ensures v in rest.Values + {m[a]} {
          var b :| b in m && m[b] == v;
          assert b != a ==> b in rest && rest[b] == v;
        }
      }
      assert m[a] !in rest.Values;
    }
  }

  /** A release by a caller that owns nothing is harmless if and only if it is a second release of a
      connection that is idle, with nobody waiting. */
  lemma StrayReleaseIsHarmlessIff(p: Pool, c: Connection)
    requires ConnectionsOk(p) && QueueOk(p)
    ensures ConnectionsOk(ReleaseConnection(p, c)) <==> p.pending == [] && c in p.available
  {
    var q := ReleaseConnection(p, c);
    if p.pending != [] {
      var first := p.pending[0];
      assert first in p.pending;
      assert q.claims[first].Owns() == Some(c);
      if c in p.connections && c !in p.available {
        var id :| id in p.claims && p.claims[id].Owns() == Some(c);
        assert id in q.claims && q.claims[id].Owns() == Some(c);
      }
    } else if c !in p.available {
      assert c in q.available;
      if c in p.connections {
        var id :| id in p.claims && p.claims[id].Owns() == Some(c);
        assert q.claims[id].Owns() == Some(c);
      }
    }
  }

  // ---------- Claims that wait beside idle connections ----------

  /** Somebody waits although a connection is idle. */
  predicate Stranded(p: Pool) {
    p.pending != [] && p.available != []
  }

  /** Of at most `n` creations, up to a broken one, some is good. */
  predicate CreatesGood(n: nat, made: seq<Creation>)
    decreases n
  {
    n > 0 && made != [] && (made[0].Good? || (made[0].NoConnection? && CreatesGood(n - 1, made[1..])))
  }

  /** The first waiting claim has waited too long. */
  predicate FirstTimesOut(cfg: Config, p: Pool, later: Time) {
    && p.pending != [] && p.pending[0] in p.claims && p.claims[p.pending[0]].Waiting?
    && later - p.claims[p.pending[0]].started > cfg.claimTimeout
  }

  /** A claim that was told the pool is full queues when a connection has come back meanwhile; or the reaper fills the
      pool up to its minimum, hands nothing to those waiting, and at most gives up on the first of them. */
  predicate Strands(cfg: Config, p: Pool, e: Event) {
    match e
    case DoEnqueue(_, _) => p.available != []
    case DoReap(_, _, mades, _, later) =>
      && |p.pending| > (if FirstTimesOut(cfg, p, later) then 1 else 0)
      && |p.connections| < cfg.min && CreatesGood(cfg.min - |p.connections|, mades)
    case _ => false
  }

  lemma {:induction false} FillLeavesIdle(p: Pool, n: nat, made: seq<Creation>, now: Time)
    ensures Fill(p, n, made, now).available != [] <==> p.available != [] || CreatesGood(n, made)
    decreases n
  {
    if n > 0 && made != [] {
      match made[0] {
        case NoConnection => FillLeavesIdle(p, n - 1, made[1..], now);
        case Broken(_) =>
        case Good(c) => FillLeavesIdle(Create(p, c, now).(available := p.available + [c]), n - 1, made[1..], now);
      }
    }
  }

  /** With nothing idle the reaper removes nothing. */
  lemma {:induction false} NothingIdleToReap(cfg: Config, p: Pool, order: seq<Connection>, now: Time)
    requires p.available == [] && NoDup(order) && forall c <- order :: c in p.lastUsed
    ensures var q := ReapInactive(cfg, p, order, now);
            q.available == [] && q.connections == p.connections && q.pending == p.pending && q.claims == p.claims
    decreases order
  {
    if order != [] {
      assert forall c <- order[1..] :: c != order[0];
      NothingIdleToReap(cfg, ReapOne(cfg, p, order[0], now), order[1..], now);
    }
  }

  lemma ReapStrandsIff(cfg: Config, p: Pool, dead: set<Connection>, order: seq<Connection>, mades: seq<Creation>, now: Time, later: Time)
    requires p.available == [] && ReapOrder(DropIdle(p, p.available, dead), order)
    ensures Stranded(Reap(cfg, p, dead, order, mades, now, later)) <==> Strands(cfg, p, DoReap(dead, order, mades, now, later))
  {
    NothingIdleToReap(cfg, p, order, now);
    var reaped := ReapInactive(cfg, p, order, now);
    if |p.connections| < cfg.min {
      FillFrame(reaped, cfg.min - |p.connections|, mades, now);
      FillLeavesIdle(reaped, cfg.min - |p.connections|, mades, now);
    }
  }

  lemma NothingWaitsAfterReap(cfg: Config, p: Pool, dead: set<Connection>, order: seq<Connection>, mades: seq<Creation>, now: Time, later: Time)
    requires ConnectionsOk(p) && p.pending == [] && ReapOrder(DropIdle(p, p.available, dead), order)
    ensures Reap(cfg, p, dead, order, mades, now, later).pending == []
  {
    DropIdleKeeps(p, p.available, dead);
    var idle := DropIdle(p, p.available, dead);
    ReapInactiveKeeps(cfg, idle, order, now);
    var reaped := ReapInactive(cfg, idle, order, now);
    if |reaped.connections| < cfg.min {
      FillFrame(reaped, cfg.min - |reaped.connections|, mades, now);
    }
  }

  lemma StepStrandsIff(cfg: Config, p: Pool, e: Event)
    requires Inv(cfg, p) && Enabled(cfg, p, e) && !Stranded(p)
    ensures Stranded(Apply(cfg, p, e)) <==> Strands(cfg, p, e)
  {
    match e {
      case DoClaim(id, dead, made, now) =>
        DropDeadFrame(p, dead);
      case DoReap(dead, order, mades, now, later) =>
        if p.pending == [] {
          NothingWaitsAfterReap(cfg, p, dead, order, mades, now, later);
        } else {
          ReapStrandsIff(cfg, p, dead, order, mades, now, later);
        }
      case _ =>
    }
  }

  /** In every run a step first leaves a claim waiting beside an idle connection exactly when it is one of those two. */
  lemma RunStrandsIff(cfg: Config, states: seq<Pool>, events: seq<Event>, mades: seq<Creation>, now: Time, i: nat)
    requires cfg.min <= cfg.max && IsRun(cfg, states, events, mades, now) && i < |events| && !Stranded(states[i])
    ensures Stranded(states[i + 1]) <==> Strands(cfg, states[i], events[i])
  {
    RunsAreSafe(cfg, states, events, mades, now, i);
    StepStrandsIff(cfg, states[i], events[i]);
  }

  /** Because a claim leaves the mutex before it queues, a claim can wait while a connection is idle:
      one claim takes the only connection, a second finds the pool full, the first releases, and the
      second queues. */
  lemma ClaimCanWaitBesideIdle(a: ClaimId, b: ClaimId, c: Connection)
    requires a != b
    ensures var cfg := Config(0, 1, 10, 5);
      var events := [DoClaim(a, {}, Good(c), 0), DoClaim(b, {}, NoConnection, 0), DoRelease(a), DoEnqueue(b, 1)];
      exists states: seq<Pool> :: IsRun(cfg, states, events, [], 0) && states[4].pending == [b] && states[4].available == [c]
  {
    var cfg := Config(0, 1, 10, 5);
    var events := [DoClaim(a, {}, Good(c), 0), DoClaim(b, {}, NoConnection, 0), DoRelease(a), DoEnqueue(b, 1)];
    var s0 := EMPTY;
    var s1 := Apply(cfg, s0, events[0]);
    var s2 := Apply(cfg, s1, events[1]);
    var s3 := Apply(cfg, s2, events[2]);
    var s4 := Apply(cfg, s3, events[3]);
    assert IsRun(cfg, [s0, s1, s2, s3, s4], events, [], 0);
  }

  lemma OneIdleDies(cfg: Config, p: Pool, c: Connection)
    requires p.connections == [c] == p.available && p.pending == [] && p.lastUsed.Keys == {c} && cfg.min == 1
    ensures Enabled(cfg, p, DoReap({c}, [], [NoConnection], 0, 0))
    ensures Apply(cfg, p, DoReap({c}, [], [NoConnection], 0, 0)) ==
            p.(connections := [], available := [], lastUsed := map[], deleted := p.deleted + multiset{c})
  {
    assert Remove([c], c) == [];
    var q := p.(connections := [], available := [], lastUsed := map[], deleted := p.deleted + multiset{c});
    assert p.lastUsed - {c} == map[];
    assert [c][1..] == [];
    assert DropIdle(p, [c], {c}) == q;
    assert FillToMinimum(cfg, q, [NoConnection], 0) == q;
  }

  lemma RefillStaysIdle(cfg: Config, p: Pool, d: Connection, id: ClaimId)
    requires p.connections == [] == p.available && p.pending == [id] && p.lastUsed == map[] && cfg.min == 1
    requires cfg.claimTimeout == 5 && id in p.claims && p.claims[id] == Waiting(1)
    ensures Enabled(cfg, p, DoReap({}, [], [Good(d)], 1, 1))
    ensures var q := Apply(cfg, p, DoReap({}, [], [Good(d)], 1, 1)); q.pending == [id] && q.available == [d]
  {
    assert DropIdle(p, [], {}) == p;
    var q := FillToMinimum(cfg, p, [Good(d)], 1);
    assert [Good(d)][1..] == [];
    assert q == Create(p, d, 1).(available := [d]);
    assert TimeOutFirst(cfg, q, 1) == q;
  }

  lemma RunGoesOn(cfg: Config, states: seq<Pool>, events: seq<Event>, mades: seq<Creation>, now: Time, e: Event)
    requires IsRun(cfg, states, events, mades, now) && Enabled(cfg, states[|events|], e)
    ensures IsRun(cfg, states + [Apply(cfg, states[|events|], e)], events + [e], mades, now)
  {
    var more, steps := states + [Apply(cfg, states[|events|], e)], events + [e];
    forall i | 0 <= i < |steps| ensures Enabled(cfg, more[i], steps[i]) && more[i + 1] == Apply(cfg, more[i], steps[i]) {
      assert i < |events| ==> more[i] == states[i] && more[i + 1] == states[i + 1] && steps[i] == events[i];
    }
  }

  /** The first four states: one connection, taken and given back, while a claim has found the pool full. */
  lemma FullThenBack(cfg: Config, a: ClaimId, b: ClaimId, c: Connection) returns (states: seq<Pool>)
    requires a != b && cfg == Config(1, 1, 10, 5)
    ensures IsRun(cfg, states, [DoClaim(a, {}, NoConnection, 0), DoClaim(b, {}, NoConnection, 0), DoRelease(a)], [Good(c)], 0)
    ensures states[3] == Pool([c], [c], [], map[c := 0], map[a := Over, b := Full], [], [], multiset{c}, multiset{})
  {
    var events := [DoClaim(a, {}, NoConnection, 0), DoClaim(b, {}, NoConnection, 0), DoRelease(a)];
    assert [Good(c)][1..] == [];
    var s0 := FillToMinimum(cfg, EMPTY, [Good(c)], 0);
    assert s0 == Pool([c], [c], [], map[c := 0], map[], [], [], multiset{c}, multiset{});
    var s1 := Apply(cfg, s0, events[0]);
    assert s1 == Pool([c], [], [], map[c := 0], map[a := Holding(c)], [], [], multiset{c}, multiset{});
    var s2 := Apply(cfg, s1, events[1]);
    assert s2 == Pool([c], [], [], map[c := 0], map[a := Holding(c), b := Full], [], [], multiset{c}, multiset{});
    var s3 := Apply(cfg, s2, events[2]);
    assert s3 == Pool([c], [c], [], map[c := 0], map[a := Over, b := Full], [], [], multiset{c}, multiset{});
    states := [s0, s1, s2, s3];
  }

  /** Two states on: the connection has died, and the claim has queued. */
  lemma DiedAndQueued(cfg: Config, a: ClaimId, b: ClaimId, c: Connection) returns (states: seq<Pool>, events: seq<Event>)
    requires a != b && cfg == Config(1, 1, 10, 5)
    ensures IsRun(cfg, states, events, [Good(c)], 0) && |events| == 5
    ensures states[5] == Pool([], [], [b], map[], map[a := Over, b := Waiting(1)], [b], [], multiset{c}, multiset{c})
  {
    var early := FullThenBack(cfg, a, b, c);
    var started := [DoClaim(a, {}, NoConnection, 0), DoClaim(b, {}, NoConnection, 0), DoRelease(a)];
    var dies, queues := DoReap({c}, [], [NoConnection], 0, 0), DoEnqueue(b, 1);
    OneIdleDies(cfg, early[3], c);
    RunGoesOn(cfg, early, started, [Good(c)], 0, dies);
    var s4 := Apply(cfg, early[3], dies);
    assert s4 == Pool([], [], [], map[], map[a := Over, b := Full], [], [], multiset{c}, multiset{c});
    RunGoesOn(cfg, early + [s4], started + [dies], [Good(c)], 0, queues);
    states, events := early + [s4] + [Apply(cfg, s4, queues)], started + [dies] + [queues];
  }

  /** The other way: the pool's only connection dies while a claim that found the pool full has not queued yet; the
      claim queues, and the reaper's refill stays idle beside it. */
  lemma ReaperCanStrand(a: ClaimId, b: ClaimId, c: Connection, d: Connection) returns (states: seq<Pool>, events: seq<Event>)
    requires a != b
    ensures IsRun(Config(1, 1, 10, 5), states, events, [Good(c)], 0) && |events| == 6 && events[5].DoReap?
    ensures !Stranded(states[5]) && states[6].pending == [b] && states[6].available == [d]
  {
    var cfg := Config(1, 1, 10, 5);
    var early, started := DiedAndQueued(cfg, a, b, c);
    var refill := DoReap({}, [], [Good(d)], 1, 1);
    RefillStaysIdle(cfg, early[5], d, b);
    RunGoesOn(cfg, early, started, [Good(c)], 0, refill);
    states, events := early + [Apply(cfg, early[5], refill)], started + [refill];
  }
}
