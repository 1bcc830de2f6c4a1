/** The connection pool (libs/db/pool.cc) as a state machine.  Every section that runs inside the pool's
    mutex is one step; a claim that finds the pool full queues its request in a later, separate step, so
    any other step may come in between. */
module PoolModel {
  import opened Options
  import opened Sequences

  datatype Connection = Connection(address: nat)

  datatype ClaimId = ClaimId(number: nat)

  type Time = int

  datatype Config = Config(min: nat, max: nat, maxInactivity: Time, claimTimeout: Time)

  /** How far a claim has come: told the pool is full but not yet queued, waiting since a time, answered
      with a connection or with nothing, holding a connection, or over. */
  datatype Claim =
    | Full
    | Waiting(started: Time)
    | Answered(answer: Option<Connection>)
    | Holding(connection: Connection)
    | Over
  {
    /** The connection a claim owns: one it holds, or one handed over that it has not picked up. */
    function Owns(): Option<Connection> {
      match this
      case Answered(answer) => answer
      case Holding(c) => Some(c)
      case _ => None
    }
  }

  /** What the factory gives: no connection, a broken one, or a good one. */
  datatype Creation = NoConnection | Broken(c: Connection) | Good(c: Connection)

  /** The pool's lists and map, every claim so far, the claims in the order they queued and in the order
      they were answered, and every connection ever created and deleted. */
  datatype Pool = Pool(
    connections: seq<Connection>,
    available: seq<Connection>,
    pending: seq<ClaimId>,
    lastUsed: map<Connection, Time>,
    claims: map<ClaimId, Claim>,
    queued: seq<ClaimId>,
    answered: seq<ClaimId>,
    created: multiset<Connection>,
    deleted: multiset<Connection>)

  const EMPTY := Pool([], [], [], map[], map[], [], [], multiset{}, multiset{})

  /** Remove every occurrence. */
  function Remove<T(==)>(s: seq<T>, x: T): seq<T> {
    if s == [] then [] else if s[0] == x then Remove(s[1..], x) else [s[0]] + Remove(s[1..], x)
  }

  // ---------- The steps ----------

  function Destroy(p: Pool, c: Connection): Pool {
    p.(connections := Remove(p.connections, c), lastUsed := p.lastUsed - {c}, deleted := p.deleted + multiset{c})
  }

  function Create(p: Pool, c: Connection, now: Time): Pool {
    p.(connections := p.connections + [c], lastUsed := p.lastUsed[c := now], created := p.created + multiset{c})
  }

  /** A broken connection is created and deleted at once. */
  function Discard(p: Pool, c: Connection): Pool {
    p.(created := p.created + multiset{c}, deleted := p.deleted + multiset{c})
  }

  /** Drop dead connections from the front of the available list. */
  function DropDead(p: Pool, dead: set<Connection>): Pool
    decreases p.available
  {
    if p.available == [] || p.available[0] !in dead then p
    else DropDead(Destroy(p.(available := p.available[1..]), p.available[0]), dead)
  }

  function ClaimNow(cfg: Config, p: Pool, id: ClaimId, dead: set<Connection>, made: Creation, now: Time): Pool {
    ClaimFrom(cfg, DropDead(p, dead), id, made, now)
  }

  /** With the dead ones gone from the front. */
  function ClaimFrom(cfg: Config, q: Pool, id: ClaimId, made: Creation, now: Time): Pool {
    if q.available != [] then
      var c := q.available[0];
      q.(available := q.available[1..], lastUsed := q.lastUsed[c := now], claims := q.claims[id := Holding(c)])
    else if |q.connections| < cfg.max then
      match made
      case NoConnection => q.(claims := q.claims[id := Over])
      case Broken(c) => Discard(q, c).(claims := q.claims[id := Over])
      case Good(c) => Create(q, c, now).(claims := q.claims[id := Holding(c)])
    else q.(claims := q.claims[id := Full])
  }

  function Enqueue(p: Pool, id: ClaimId, started: Time): Pool {
    p.(claims := p.claims[id := Waiting(started)], pending := p.pending + [id], queued := p.queued + [id])
  }

  function PickUp(p: Pool, id: ClaimId): Pool
    requires id in p.claims && p.claims[id].Answered?
  {
    p.(claims := p.claims[id := if p.claims[id].answer.Some? then Holding(p.claims[id].answer.value) else Over])
  }

  /** Answer the first pending request. */
  function AnswerFirst(p: Pool, answer: Option<Connection>): Pool
    requires p.pending != []
  {
    p.(claims := p.claims[p.pending[0] := Answered(answer)], pending := p.pending[1..], answered := p.answered + [p.pending[0]])
  }

  /** `release` itself, whoever calls it. */
  function ReleaseConnection(p: Pool, c: Connection): Pool {
    if p.pending != [] then AnswerFirst(p, Some(c))
    else if c !in p.available then p.(available := p.available + [c])
    else p
  }

  /** A claim gives up what it holds and releases it. */
  function Release(p: Pool, id: ClaimId): Pool
    requires id in p.claims && p.claims[id].Holding?
  {
    ReleaseConnection(p.(claims := p.claims[id := Over]), p.claims[id].connection)
  }

  /** The reaper, first: idle connections that have died. */
  function DropIdle(p: Pool, idle: seq<Connection>, dead: set<Connection>): Pool
    decreases idle
  {
    if idle == [] then p
    else if idle[0] in dead then
      DropIdle(Destroy(p.(available := Remove(p.available, idle[0])), idle[0]), idle[1..], dead)
    else DropIdle(p, idle[1..], dead)
  }

  function ReapOne(cfg: Config, p: Pool, c: Connection, now: Time): Pool
    requires c in p.lastUsed
  {
    if now - p.lastUsed[c] < cfg.maxInactivity then p
    else if c !in p.available then p.(lastUsed := p.lastUsed[c := now])
    else if |p.connections| > cfg.min then Destroy(p.(available := Remove(p.available, c)), c)
    else p
  }

  /** The reaper, second: inactive connections, in the order of the map. */
  function ReapInactive(cfg: Config, p: Pool, order: seq<Connection>, now: Time): Pool
    requires NoDup(order) && forall c <- order :: c in p.lastUsed
    decreases order
  {
    if order == [] then p
    else
      assert forall c <- order[1..] :: c != order[0];
      ReapInactive(cfg, ReapOne(cfg, p, order[0], now), order[1..], now)
  }

  /** Fill up by at most `n` creations, stopping at a broken one. */
  function Fill(p: Pool, n: nat, made: seq<Creation>, now: Time): Pool
    decreases n
  {
    if n == 0 || made == [] then p
    else match made[0]
      case NoConnection => Fill(p, n - 1, made[1..], now)
      case Broken(c) => Discard(p, c)
      case Good(c) => Fill(Create(p, c, now).(available := p.available + [c]), n - 1, made[1..], now)
  }

  function FillToMinimum(cfg: Config, p: Pool, made: seq<Creation>, now: Time): Pool {
    if |p.connections| < cfg.min then Fill(p, cfg.min - |p.connections|, made, now) else p
  }

  /** The reaper, last: the first blocked claim may have waited too long. */
  function TimeOutFirst(cfg: Config, p: Pool, later: Time): Pool {
    if p.pending != [] && p.pending[0] in p.claims && p.claims[p.pending[0]].Waiting?
       && later - p.claims[p.pending[0]].started > cfg.claimTimeout
    then AnswerFirst(p, None)
    else p
  }

  function Reap(cfg: Config, p: Pool, dead: set<Connection>, order: seq<Connection>, made: seq<Creation>, now: Time, later: Time): Pool
    requires ReapOrder(DropIdle(p, p.available, dead), order)
  {
    var idle := DropIdle(p, p.available, dead);
    var reaped := ReapInactive(cfg, idle, order, now);
    TimeOutFirst(cfg, FillToMinimum(cfg, reaped, made, now), later)
  }

  predicate ReapOrder(p: Pool, order: seq<Connection>) {
    NoDup(order) && (forall c <- order :: c in p.lastUsed) && (forall c <- p.lastUsed :: c in order)
  }

  // ---------- What the environment may do ----------

  /** The allocator never returns an address that is in use. */
  predicate FreshCreation(p: Pool, made: Creation) {
    made.Good? ==> made.c !in p.connections
  }

  predicate FreshCreations(p: Pool, n: nat, made: seq<Creation>)
    decreases n
  {
    n == 0 || made == [] ||
    (FreshCreation(p, made[0]) &&
     match made[0]
     case NoConnection => FreshCreations(p, n - 1, made[1..])
     case Broken(_) => true
     case Good(c) => FreshCreations(p.(connections := p.connections + [c]), n - 1, made[1..]))
  }

  datatype Event =
    | DoClaim(id: ClaimId, dead: set<Connection>, made: Creation, now: Time)
    | DoEnqueue(id: ClaimId, started: Time)
    | DoPickUp(id: ClaimId)
    | DoRelease(id: ClaimId)
    | DoReap(dead: set<Connection>, order: seq<Connection>, mades: seq<Creation>, now: Time, later: Time)

  predicate Enabled(cfg: Config, p: Pool, e: Event) {
    match e
    case DoClaim(id, dead, made, now) => id !in p.claims && FreshCreation(DropDead(p, dead), made)
    case DoEnqueue(id, _) => id in p.claims && p.claims[id] == Full
    case DoPickUp(id) => id in p.claims && p.claims[id].Answered?
    case DoRelease(id) => id in p.claims && p.claims[id].Holding?
    case DoReap(dead, order, mades, now, later) =>
      var idle := DropIdle(p, p.available, dead);
      && ReapOrder(idle, order)
      && var reaped := ReapInactive(cfg, idle, order, now);
         (|reaped.connections| < cfg.min ==> FreshCreations(reaped, cfg.min - |reaped.connections|, mades))
  }

  function Apply(cfg: Config, p: Pool, e: Event): Pool
    requires Enabled(cfg, p, e)
  {
    match e
    case DoClaim(id, dead, made, now) => ClaimNow(cfg, p, id, dead, made, now)
    case DoEnqueue(id, started) => Enqueue(p, id, started)
    case DoPickUp(id) => PickUp(p, id)
    case DoRelease(id) => Release(p, id)
    case DoReap(dead, order, mades, now, later) => Reap(cfg, p, dead, order, mades, now, later)
  }

  // ---------- What every step keeps ----------

  ghost predicate IsOwned(claims: map<ClaimId, Claim>, c: Connection) {
    exists id <- claims :: claims[id].Owns() == Some(c)
  }

  /** The part that concerns connections: idle ones are distinct members of the pool, `lastUsed` covers
      exactly the pool, and every member is idle or owned by exactly one claim. */
  ghost predicate ConnectionsOk(p: Pool) {
    && NoDup(p.connections) && NoDup(p.available)
    && (forall c <- p.available :: c in p.connections)
    && (forall c :: c in p.lastUsed <==> c in p.connections)
    && (forall id <- p.claims :: p.claims[id].Owns().Some? ==>
          p.claims[id].Owns().value in p.connections && p.claims[id].Owns().value !in p.available)
    && (forall a <- p.claims, b <- p.claims :: a != b && p.claims[a].Owns().Some? ==> p.claims[a].Owns() != p.claims[b].Owns())
    && (forall c <- p.connections :: c in p.available || IsOwned(p.claims, c))
    && p.created == multiset(p.connections) + p.deleted
  }

  /** The part that concerns requests: the pending ones are exactly the claims waiting, in queue order,
      and what has been answered is what was queued before them. */
  ghost predicate QueueOk(p: Pool) {
    && p.queued == p.answered + p.pending && NoDup(p.queued)
    && (forall id :: id in p.pending <==> id in p.claims && p.claims[id].Waiting?)
    && (forall id <- p.queued :: id in p.claims && p.claims[id] != Full)
  }

  ghost predicate Inv(cfg: Config, p: Pool) {
    ConnectionsOk(p) && QueueOk(p) && |p.connections| <= cfg.max
  }
}
