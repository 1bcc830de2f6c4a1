/** The connection pool's class (libs/db/pool.cc).  Each method is one section inside the mutex and is
    proved to take exactly the step of the state machine in `PoolModel`. */
module ConnectionPools {
  import opened Options
  import opened Sequences
  import opened PoolModel
  import opened PoolSafety

  class ConnectionPool {
    const cfg: Config
    var connections: seq<Connection>
    var available: seq<Connection>
    var pending: seq<ClaimId>
    var lastUsed: map<Connection, Time>
    // The request objects and how far each caller has come with its claim.
    var claims: map<ClaimId, Claim>
    ghost var queued: seq<ClaimId>
    ghost var answered: seq<ClaimId>
    ghost var created: multiset<Connection>
    ghost var deleted: multiset<Connection>

    ghost function State(): Pool
      reads this
    {
      Pool(connections, available, pending, lastUsed, claims, queued, answered, created, deleted)
    }

    ghost predicate Valid()
      reads this
    {
      cfg.min <= cfg.max && Inv(cfg, State())
    }

    constructor (cfg: Config, made: seq<Creation>, now: Time)
      requires cfg.min <= cfg.max && FreshCreations(EMPTY, cfg.min, made)
      ensures this.cfg == cfg && State() == FillToMinimum(cfg, EMPTY, made, now) && Valid()
    {
      this.cfg := cfg;
      connections, available, pending, lastUsed, claims := [], [], [], map[], map[];
      queued, answered, created, deleted := [], [], multiset{}, multiset{};
      new;
      FillUp(made, now);
      RunsAreSafe(cfg, [State()], [], made, now, 0);
    }

    /** Create connections to the minimum level. */
    method FillUp(made: seq<Creation>, now: Time)
      modifies this
      ensures State() == FillToMinimum(cfg, old(State()), made, now)
    {
      if |connections| < cfg.min {
        var i := |connections|;
        var next := 0;
        while i < cfg.min && next < |made|
          invariant i <= cfg.min && next <= |made|
          invariant Fill(State(), cfg.min - i, made[next..], now) == FillToMinimum(cfg, old(State()), made, now)
          decreases |made| - next
        {
          assert made[next..][1..] == made[next + 1..];
          var stop := FillOne(made[next], now);
          if stop {
            return;
          }
          next := next + 1;
          i := i + 1;
        }
      }
    }

    method FillOne(made: Creation, now: Time) returns (stop: bool)
      modifies this`connections, this`available, this`lastUsed, this`created, this`deleted
      ensures stop == made.Broken?
      ensures State() == match made
                         case NoConnection => old(State())
                         case Broken(c) => Discard(old(State()), c)
                         case Good(c) => Create(old(State()), c, now).(available := old(available) + [c])
    {
      stop := false;
      match made
      case NoConnection =>
      case Broken(c) =>
        created, deleted := created + multiset{c}, deleted + multiset{c};
        stop := true;
      case Good(c) =>
        connections := connections + [c];
        available := available + [c];
        lastUsed := lastUsed[c := now];
        created := created + multiset{c};
    }

    method DeleteConnection(c: Connection)
      modifies this`connections, this`lastUsed, this`deleted
      ensures State() == Destroy(old(State()), c)
    {
      lastUsed := lastUsed - {c};
      connections := Remove(connections, c);
      deleted := deleted + multiset{c};
    }

    /** The first section of a claim: a live connection, a new one, nothing, or word that the pool is
        full. */
    method Claim(id: ClaimId, dead: set<Connection>, made: Creation, now: Time) returns (r: Claim)
      requires Valid() && id !in claims && FreshCreation(DropDead(State(), dead), made)
      modifies this
      ensures Valid() && State() == ClaimNow(cfg, old(State()), id, dead, made, now) && r == claims[id]
    {
      StepKeepsInv(cfg, State(), DoClaim(id, dead, made, now));
      SkipDead(dead);
      r := ClaimLive(id, made, now);
    }

    /** With the dead ones gone from the front. */
    method ClaimLive(id: ClaimId, made: Creation, now: Time) returns (r: Claim)
      modifies this`available, this`connections, this`lastUsed, this`claims, this`created, this`deleted
      ensures State() == ClaimFrom(cfg, old(State()), id, made, now) && id in claims && r == claims[id]
    {
      if |available| > 0 {
        var c := available[0];
        available := available[1..];
        lastUsed := lastUsed[c := now];
        r := Holding(c);
      } else if |connections| < cfg.max {
        r := CreateForClaim(made, now);
      } else {
        r := Full;
      }
      claims := claims[id := r];
    }

    /** Delete dead connections from the front of the available list. */
    method SkipDead(dead: set<Connection>)
      modifies this`available, this`connections, this`lastUsed, this`deleted
      ensures State() == DropDead(old(State()), dead)
    {
      while |available| > 0 && available[0] in dead
        invariant DropDead(State(), dead) == DropDead(old(State()), dead)
        decreases |available|
      {
        var c := available[0];
        available := available[1..];
        DeleteConnection(c);
      }
    }

    method CreateForClaim(made: Creation, now: Time) returns (r: Claim)
      modifies this`connections, this`lastUsed, this`created, this`deleted
      ensures match made
              case NoConnection => State() == old(State()) && r == Over
              case Broken(c) => State() == Discard(old(State()), c) && r == Over
              case Good(c) => State() == Create(old(State()), c, now) && r == Holding(c)
    {
      r := Over;
      match made
      case NoConnection =>
      case Broken(c) =>
        created, deleted := created + multiset{c}, deleted + multiset{c};
      case Good(c) =>
        connections := connections + [c];
        lastUsed := lastUsed[c := now];
        created := created + multiset{c};
        r := Holding(c);
    }

    /** A claim that does not hold a live connection at once was refused by the factory, or found the
        pool at its maximum with nothing available. */
    lemma ClaimResult(p: Pool, id: ClaimId, dead: set<Connection>, made: Creation, now: Time)
      requires ConnectionsOk(p)
      ensures var q := ClaimNow(cfg, p, id, dead, made, now);
        && (q.claims[id].Holding? ==> q.claims[id].connection !in dead || made == Good(q.claims[id].connection))
        && (q.claims[id] == Full ==> |q.connections| >= cfg.max && q.available == [])
        && (q.claims[id] == Over ==> !made.Good?)
    {
      DropDeadKeeps(p, dead);
    }

    /** The second section of a claim that found the pool full. */
    method QueueRequest(id: ClaimId, started: Time)
      requires Valid() && id in claims && claims[id] == Full
      modifies this
      ensures Valid() && State() == Enqueue(old(State()), id, started)
    {
      StepKeepsInv(cfg, State(), DoEnqueue(id, started));
      claims := claims[id := Waiting(started)];
      pending := pending + [id];
      queued := queued + [id];
    }

    /** The claim wakes up and returns what it was answered. */
    method Wake(id: ClaimId) returns (answer: Option<Connection>)
      requires Valid() && id in claims && claims[id].Answered?
      modifies this`claims
      ensures Valid() && State() == PickUp(old(State()), id) && answer == old(claims[id].answer)
    {
      StepKeepsInv(cfg, State(), DoPickUp(id));
      answer := claims[id].answer;
      claims := claims[id := if answer.Some? then Holding(answer.value) else Over];
    }

    method ReleaseRaw(c: Connection)
      modifies this`available, this`pending, this`claims, this`answered
      ensures State() == ReleaseConnection(old(State()), c)
    {
      if |pending| > 0 {
        var first := pending[0];
        pending := pending[1..];
        claims := claims[first := Answered(Some(c))];
        answered := answered + [first];
        return;
      }
      if c !in available {
        available := available + [c];
      }
    }

    /** Release by the claim that holds the connection. */
    method Release(id: ClaimId)
      requires Valid() && id in claims && claims[id].Holding?
      modifies this`available, this`pending, this`claims, this`answered
      ensures Valid() && State() == PoolModel.Release(old(State()), id)
    {
      StepKeepsInv(cfg, State(), DoRelease(id));
      var c := claims[id].connection;
      claims := claims[id := Over];
      ReleaseRaw(c);
    }

    /** One pass of the background reaper. */
    method ReaperPass(dead: set<Connection>, order: seq<Connection>, mades: seq<Creation>, now: Time, later: Time)
      requires Valid() && Enabled(cfg, State(), DoReap(dead, order, mades, now, later))
      modifies this
      ensures Valid() && State() == Reap(cfg, old(State()), dead, order, mades, now, later)
    {
      StepKeepsInv(cfg, State(), DoReap(dead, order, mades, now, later));
      ReapDead(dead);
      ReapIdle(order, now);
      FillUp(mades, now);
      TimeOut(later);
    }

    /** Fail the first blocked claim when it has waited too long. */
    method TimeOut(later: Time)
      modifies this`claims, this`pending, this`answered
      ensures State() == TimeOutFirst(cfg, old(State()), later)
    {
      if |pending| > 0 && pending[0] in claims && claims[pending[0]].Waiting? {
        var first := pending[0];
        if later - claims[first].started > cfg.claimTimeout {
          claims := claims[first := Answered(None)];
          pending := pending[1..];
          answered := answered + [first];
        }
      }
    }

    /** Remove idle connections that have died. */
    method ReapDead(dead: set<Connection>)
      modifies this
      ensures State() == DropIdle(old(State()), old(available), dead)
    {
      var idle := available;
      for i := 0 to |idle|
        invariant DropIdle(State(), idle[i..], dead) == DropIdle(old(State()), idle, dead)
      {
        assert idle[i..][1..] == idle[i + 1..];
        if idle[i] in dead {
          available := Remove(available, idle[i]);
          DeleteConnection(idle[i]);
        }
      }
    }

    /** Reap connections that have been inactive, in the order of the map. */
    method ReapIdle(order: seq<Connection>, now: Time)
      requires NoDup(order) && forall c <- order :: c in lastUsed
      modifies this
      ensures State() == ReapInactive(cfg, old(State()), order, now)
    {
      for i := 0 to |order|
        invariant forall j :: i <= j < |order| ==> order[j] in lastUsed
        invariant ReapInactive(cfg, State(), order[i..], now) == ReapInactive(cfg, old(State()), order, now)
      {
        assert order[i..][1..] == order[i + 1..];
        ReapIfInactive(order[i], now);
      }
    }

    method ReapIfInactive(c: Connection, now: Time)
      requires c in lastUsed
      modifies this
      ensures State() == ReapOne(cfg, old(State()), c, now)
      ensures forall d <- old(lastUsed) :: d != c ==> d in lastUsed
    {
      if now - lastUsed[c] >= cfg.maxInactivity {
        if c !in available {
          lastUsed := lastUsed[c := now];
        } else if |connections| > cfg.min {
          available := Remove(available, c);
          DeleteConnection(c);
        }
      }
    }

    /** The destructor: every connection ever created has now been deleted exactly once. */
    method Close()
      requires Valid()
      modifies this`deleted
      ensures deleted == created
    {
      for i := 0 to |connections|
        invariant deleted == old(deleted) + multiset(connections[..i])
      {
        assert connections[..i + 1] == connections[..i] + [connections[i]];
        deleted := deleted + multiset{connections[i]};
      }
      assert connections[..|connections|] == connections;
    }
  }
}
