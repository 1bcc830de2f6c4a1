module PoolMeaning {
  // Which connection a claim gets, and what a pass of the pool's reaper takes and leaves, said on the order of the idle
  // connections and the times of last use.

  import opened Options
  import opened Sequences
  import opened PoolModel
  import opened PoolSafety

  // ---------- Claiming ----------

  lemma {:induction false} DropDeadSkips(p: Pool, dead: set<Connection>, k: nat)
    requires ConnectionsOk(p) && k <= |p.available| && (forall j | 0 <= j < k :: p.available[j] in dead)
    requires k < |p.available| ==> p.available[k] !in dead
    ensures var q := DropDead(p, dead);
            q.available == p.available[k..] && |q.connections| == |p.connections| - k && q.created == p.created
    decreases k
  {
    if k > 0 {
      RemoveFirst(p.available);
      DestroyIdle(p, p.available[0]);
      var next := Destroy(p.(available := p.available[1..]), p.available[0]);
      assert p.available[1..][k - 1..] == p.available[k..];
      DropDeadSkips(next, dead, k - 1);
    }
  }

  /** A claim gets the first live connection of those available, which counts as used now. */
  lemma ClaimTakes(cfg: Config, p: Pool, id: ClaimId, dead: set<Connection>, made: Creation, now: Time, k: nat)
    requires ConnectionsOk(p) && k < |p.available| && p.available[k] !in dead && forall j | 0 <= j < k :: p.available[j] in dead
    ensures var c, q := p.available[k], ClaimNow(cfg, p, id, dead, made, now);
            && q.claims == p.claims[id := Holding(c)] && q.available == p.available[k + 1..]
            && c in q.lastUsed && q.lastUsed[c] == now
  {
    DropDeadSkips(p, dead, k);
    DropDeadFrame(p, dead);
  }

  /** With no live connection available it gets a new one if there is room, also used now. */
  lemma ClaimCreates(cfg: Config, p: Pool, id: ClaimId, dead: set<Connection>, c: Connection, now: Time)
    requires ConnectionsOk(p) && (forall d <- p.available :: d in dead) && |p.connections| - |p.available| < cfg.max
    ensures var q := ClaimNow(cfg, p, id, dead, Good(c), now);
            && q.claims == p.claims[id := Holding(c)] && q.available == [] && c in q.connections
            && |q.connections| == |p.connections| - |p.available| + 1 && c in q.lastUsed && q.lastUsed[c] == now
  {
    DropDeadSkips(p, dead, |p.available|);
    DropDeadFrame(p, dead);
  }

  /** A broken one is deleted at once, and the claim gets nothing, as it does without one. */
  lemma ClaimFails(cfg: Config, p: Pool, id: ClaimId, dead: set<Connection>, made: Creation, now: Time)
    requires ConnectionsOk(p) && (forall d <- p.available :: d in dead) && |p.connections| - |p.available| < cfg.max && !made.Good?
    ensures var q := ClaimNow(cfg, p, id, dead, made, now);
            && q.claims == p.claims[id := Over] && q.available == [] && |q.connections| == |p.connections| - |p.available|
            && (made.Broken? ==> q.created == p.created + multiset{made.c} && made.c in q.deleted)
  {
    DropDeadSkips(p, dead, |p.available|);
    DropDeadFrame(p, dead);
  }

  /** And otherwise it is told that the pool is full. */
  lemma ClaimFindsFull(cfg: Config, p: Pool, id: ClaimId, dead: set<Connection>, made: Creation, now: Time)
    requires ConnectionsOk(p) && (forall d <- p.available :: d in dead) && |p.connections| - |p.available| >= cfg.max
    ensures ClaimNow(cfg, p, id, dead, made, now).claims == p.claims[id := Full]
  {
    DropDeadSkips(p, dead, |p.available|);
    DropDeadFrame(p, dead);
  }

  /** Connections are used in turn: after a release with nobody waiting, the next claim gets the connection that has been
      idle longest. */
  lemma LongestIdleFirst(cfg: Config, p: Pool, id: ClaimId, next: ClaimId, made: Creation, now: Time)
    requires id in p.claims && p.claims[id].Holding? && p.pending == [] && p.claims[id].connection !in p.available
    ensures var q := ClaimNow(cfg, Release(p, id), next, {}, made, now);
            next in q.claims && q.claims[next] == Holding(if p.available == [] then p.claims[id].connection else p.available[0])
  {
  }

  // ---------- The reaper ----------

  /** In the pool as it was: idle as before, with the same time. */
  ghost predicate AsBefore(p: Pool, q: Pool, c: Connection) {
    && c in p.lastUsed && c in q.lastUsed && q.lastUsed[c] == p.lastUsed[c]
    && (c in q.available <==> c in p.available) && (c in q.connections <==> c in p.connections)
  }

  predicate IsInactive(cfg: Config, p: Pool, c: Connection, now: Time) {
    c in p.lastUsed && now - p.lastUsed[c] >= cfg.maxInactivity
  }

  /** What becomes of a connection the reaper looks at. */
  ghost predicate Fate(cfg: Config, p: Pool, q: Pool, c: Connection, now: Time) {
    if !IsInactive(cfg, p, c, now) then AsBefore(p, q, c)
    else if c !in p.available then
      c in q.lastUsed && q.lastUsed[c] == now && c !in q.available && (c in q.connections <==> c in p.connections)
    else (c !in q.connections && c !in q.available) || (AsBefore(p, q, c) && |q.connections| <= cfg.min)
  }

  lemma OneFate(cfg: Config, p: Pool, c: Connection, now: Time)
    requires ConnectionsOk(p) && c in p.lastUsed
    ensures var q := ReapOne(cfg, p, c, now);
            Fate(cfg, p, q, c, now) && |q.connections| <= |p.connections| && forall d <- p.lastUsed :: d != c ==> AsBefore(p, q, d)
  {
    if c in p.available {
      DestroyIdle(p, c);
      DestroyShrinks(p, c);
    }
  }

  /** Nothing comes into the pool. */
  lemma WasThere(p: Pool, q: Pool, c: Connection)
    requires ConnectionsOk(p) && ConnectionsOk(q) && Shrinks(p, q) && c in q.connections
    ensures c in p.connections
  {
    if c !in q.available {
      var id :| id in q.claims && q.claims[id].Owns() == Some(c);
      assert id in p.claims && p.claims[id].Owns() == Some(c);
    }
  }

  lemma FateThenAsBefore(cfg: Config, p: Pool, next: Pool, q: Pool, c: Connection, now: Time)
    requires Fate(cfg, p, next, c, now) && |q.connections| <= |next.connections|
    requires if c in next.lastUsed then AsBefore(next, q, c) else c !in q.connections && c !in q.available
    ensures Fate(cfg, p, q, c, now)
  {
  }

  lemma AsBeforeThenFate(cfg: Config, p: Pool, next: Pool, q: Pool, c: Connection, now: Time)
    requires AsBefore(p, next, c)
    ensures AsBefore(next, q, c) ==> AsBefore(p, q, c)
    ensures Fate(cfg, next, q, c, now) ==> Fate(cfg, p, q, c, now)
  {
  }

  /** Connections in the order are dealt with once each, and no others. */
  lemma {:induction false} ReapFate(cfg: Config, p: Pool, order: seq<Connection>, now: Time, c: Connection)
    requires ConnectionsOk(p) && NoDup(order) && (forall d <- order :: d in p.lastUsed) && c in p.lastUsed
    ensures var q := ReapInactive(cfg, p, order, now);
            |q.connections| <= |p.connections| && if c in order then Fate(cfg, p, q, c, now) else AsBefore(p, q, c)
    decreases order, 0
  {
    if order != [] {
      var first, rest := order[0], order[1..];
      assert forall d <- rest :: d in order && d != first;
      ReapOneKeeps(cfg, p, first, now);
      OneFate(cfg, p, first, now);
      var next := ReapOne(cfg, p, first, now);
      RestFate(cfg, next, rest, now, c);
      var q := ReapInactive(cfg, next, rest, now);
      if c == first {
        FateThenAsBefore(cfg, p, next, q, c, now);
      } else {
        AsBeforeThenFate(cfg, p, next, q, c, now);
      }
    }
  }

  lemma {:induction false} RestFate(cfg: Config, p: Pool, order: seq<Connection>, now: Time, c: Connection)
    requires ConnectionsOk(p) && NoDup(order) && (forall d <- order :: d in p.lastUsed)
    ensures var q := ReapInactive(cfg, p, order, now);
            |q.connections| <= |p.connections| &&
            if c !in p.lastUsed then c !in q.connections && c !in q.available
            else if c in order then Fate(cfg, p, q, c, now) else AsBefore(p, q, c)
    decreases order, 1
  {
    if c in p.lastUsed {
      ReapFate(cfg, p, order, now, c);
    } else {
      ReapInactiveKeeps(cfg, p, order, now);
      var q := ReapInactive(cfg, p, order, now);
      if c in q.connections {
        WasThere(p, q, c);
      }
    }
  }

  /** Reaping the inactive: whoever goes was idle and has been inactive for the longest time allowed; whoever was used
      more recently stays as it is; whoever is in use and inactive counts as used now.  Afterwards the pool is at its
      minimum or nobody idle is inactive. */
  lemma ReapsInactive(cfg: Config, p: Pool, order: seq<Connection>, now: Time) returns (q: Pool)
    requires ConnectionsOk(p) && ReapOrder(p, order)
    ensures q == ReapInactive(cfg, p, order, now)
    ensures forall c <- p.connections :: c !in q.connections ==> c in p.available && now - p.lastUsed[c] >= cfg.maxInactivity
    ensures forall c <- p.connections :: now - p.lastUsed[c] < cfg.maxInactivity ==>
              c in q.connections && c in q.lastUsed && q.lastUsed[c] == p.lastUsed[c] && (c in q.available <==> c in p.available)
    ensures forall c <- p.connections :: c !in p.available && now - p.lastUsed[c] >= cfg.maxInactivity ==>
              c in q.connections && c in q.lastUsed && q.lastUsed[c] == now
    ensures |q.connections| <= cfg.min || forall c <- q.available :: c in q.lastUsed && now - q.lastUsed[c] < cfg.maxInactivity
  {
    q := ReapInactive(cfg, p, order, now);
    forall c <- p.connections ensures Fate(cfg, p, q, c, now) {
      ReapFate(cfg, p, order, now, c);
    }
    ReapInactiveKeeps(cfg, p, order, now);
  }

  // ---------- A whole pass ----------

  /** First the dead go that are idle, and nobody else does. */
  lemma {:induction false} DropIdleIs(p: Pool, idle: seq<Connection>, dead: set<Connection>, c: Connection)
    requires ConnectionsOk(p) && NoDup(idle) && (forall d <- idle :: d in p.available) && c in p.connections
    ensures var q := DropIdle(p, idle, dead);
            if c in idle && c in dead then c !in q.connections && c !in q.available else AsBefore(p, q, c)
    decreases idle
  {
    if idle != [] {
      var first, rest := idle[0], idle[1..];
      assert forall d <- rest :: d in idle && d != first;
      if first in dead {
        DestroyIdle(p, first);
        DestroyShrinks(p, first);
        var next := Destroy(p.(available := Remove(p.available, first)), first);
        if c == first {
          DropIdleKeeps(next, rest, dead);
          NotBack(next, DropIdle(next, rest, dead), c);
        } else {
          DropIdleIs(next, rest, dead, c);
        }
      } else {
        DropIdleIs(p, rest, dead, c);
      }
    }
  }

  lemma NotBack(p: Pool, q: Pool, c: Connection)
    requires ConnectionsOk(p) && ConnectionsOk(q) && Shrinks(p, q) && c !in p.connections
    ensures c !in q.connections && c !in q.available
  {
    if c in q.connections {
      WasThere(p, q, c);
    }
  }

  lemma {:induction false} FillLeaves(p: Pool, n: nat, made: seq<Creation>, now: Time, c: Connection)
    requires ConnectionsOk(p) && FreshCreations(p, n, made) && c in p.connections
    ensures AsBefore(p, Fill(p, n, made, now), c)
    decreases n
  {
    if n > 0 && made != [] {
      match made[0]
      case NoConnection => FillLeaves(p, n - 1, made[1..], now, c);
      case Broken(d) =>
      case Good(d) =>
        FillsOne(p, n, made, now);
        FillLeaves(Create(p, d, now).(available := p.available + [d]), n - 1, made[1..], now, c);
    }
  }

  /** If the factory gives good connections the pool comes up to its minimum. */
  lemma {:induction false} FillsUp(p: Pool, n: nat, made: seq<Creation>, now: Time)
    requires |made| >= n && forall m <- made :: m.Good?
    ensures |Fill(p, n, made, now).connections| == |p.connections| + n
    decreases n
  {
    if n > 0 {
      FillsUp(Create(p, made[0].c, now).(available := p.available + [made[0].c]), n - 1, made[1..], now);
    }
  }

  lemma RefillLeaves(cfg: Config, p: Pool, mades: seq<Creation>, now: Time, c: Connection)
    requires ConnectionsOk(p) && (|p.connections| < cfg.min ==> FreshCreations(p, cfg.min - |p.connections|, mades))
    requires c in p.connections
    ensures AsBefore(p, FillToMinimum(cfg, p, mades, now), c)
  {
    if |p.connections| < cfg.min {
      FillLeaves(p, cfg.min - |p.connections|, mades, now, c);
    }
  }

  /** What the two removals do to a connection. */
  lemma RemovalFate(cfg: Config, p: Pool, dead: set<Connection>, order: seq<Connection>, now: Time, c: Connection) returns (q: Pool)
    requires ConnectionsOk(p) && ReapOrder(DropIdle(p, p.available, dead), order) && c in p.connections
    ensures q == ReapInactive(cfg, DropIdle(p, p.available, dead), order, now) && ConnectionsOk(q)
    ensures if c in p.available && c in dead then c !in q.connections else Fate(cfg, p, q, c, now)
  {
    DropIdleKeeps(p, p.available, dead);
    DropIdleIs(p, p.available, dead, c);
    var idle := DropIdle(p, p.available, dead);
    RestFate(cfg, idle, order, now, c);
    q := Reaped(cfg, p, dead, order, now);
    if !(c in p.available && c in dead) {
      AsBeforeThenFate(cfg, p, idle, q, c, now);
    }
  }

  /** A pass: whoever goes was idle, and was dead or had been inactive; whoever was used more recently, and is not idle
      and dead, stays as it is; whoever is in use and inactive counts as used now. */
  lemma PassFate(cfg: Config, p: Pool, dead: set<Connection>, order: seq<Connection>, mades: seq<Creation>, now: Time, later: Time, c: Connection)
    returns (q: Pool)
    requires Inv(cfg, p) && Enabled(cfg, p, DoReap(dead, order, mades, now, later)) && c in p.connections
    ensures q == Reap(cfg, p, dead, order, mades, now, later)
    ensures c in q.connections || (c in p.available && (c in dead || now - p.lastUsed[c] >= cfg.maxInactivity))
    ensures now - p.lastUsed[c] < cfg.maxInactivity && !(c in p.available && c in dead) ==>
              c in q.connections && c in q.lastUsed && q.lastUsed[c] == p.lastUsed[c] && (c in q.available <==> c in p.available)
    ensures c !in p.available && now - p.lastUsed[c] >= cfg.maxInactivity ==>
              c in q.connections && c in q.lastUsed && q.lastUsed[c] == now
  {
    var reaped := RemovalFate(cfg, p, dead, order, now, c);
    var filled := FillToMinimum(cfg, reaped, mades, now);
    if c in reaped.connections {
      RefillLeaves(cfg, reaped, mades, now, c);
    }
    AfterRefill(cfg, p, dead, reaped, filled, c, now);
    q := TimedOut(cfg, filled, later);
  }

  lemma TimedOut(cfg: Config, p: Pool, later: Time) returns (q: Pool)
    ensures q == TimeOutFirst(cfg, p, later)
    ensures q.connections == p.connections && q.available == p.available && q.lastUsed == p.lastUsed
  {
    q := TimeOutFirst(cfg, p, later);
  }

  lemma AfterRefill(cfg: Config, p: Pool, dead: set<Connection>, reaped: Pool, q: Pool, c: Connection, now: Time)
    requires c in p.connections && c in p.lastUsed && (c in reaped.connections ==> AsBefore(reaped, q, c))
    requires if c in p.available && c in dead then c !in reaped.connections else Fate(cfg, p, reaped, c, now)
    ensures c in q.connections || (c in p.available && (c in dead || now - p.lastUsed[c] >= cfg.maxInactivity))
    ensures now - p.lastUsed[c] < cfg.maxInactivity && !(c in p.available && c in dead) ==>
              c in q.connections && c in q.lastUsed && q.lastUsed[c] == p.lastUsed[c] && (c in q.available <==> c in p.available)
    ensures c !in p.available && now - p.lastUsed[c] >= cfg.maxInactivity ==>
              c in q.connections && c in q.lastUsed && q.lastUsed[c] == now
  {
  }

  /** After a pass the pool is at its minimum, or nobody idle is inactive or was dead. */
  lemma PassLeaves(cfg: Config, p: Pool, dead: set<Connection>, order: seq<Connection>, mades: seq<Creation>, now: Time, later: Time)
    requires Inv(cfg, p) && Enabled(cfg, p, DoReap(dead, order, mades, now, later))
    ensures var q := Reap(cfg, p, dead, order, mades, now, later);
            |q.connections| <= cfg.min ||
            forall c <- q.available :: c in p.available && c !in dead && c in q.lastUsed && now - q.lastUsed[c] < cfg.maxInactivity
  {
    var q := Reap(cfg, p, dead, order, mades, now, later);
    var idle := DropIdle(p, p.available, dead);
    DropIdleKeeps(p, p.available, dead);
    var left := ReapsInactive(cfg, idle, order, now);
    var reaped := Reaped(cfg, p, dead, order, now);
    RefillFrame(cfg, reaped, mades, now);
    if |q.connections| > cfg.min {
      assert q.available == reaped.available && q.connections == reaped.connections && q.lastUsed == reaped.lastUsed;
      ReapInactiveKeeps(cfg, idle, order, now);
      forall c <- q.available ensures c in p.available && c !in dead {
        DropIdleIs(p, p.available, dead, c);
      }
    }
  }
}
