/** The pointer cache (libs/cache/ot-cache.h) as values: entries in the order of their IDs, and a ledger of
    what became of every pointer it accepted. */
module CacheModel {
  import opened Options
  import opened Sequences

  datatype Id = Id(key: nat)

  datatype Pointer = Pointer(address: nat)

  datatype Entry = Entry(id: Id, content: Pointer, added: nat, used: nat, uses: nat)

  datatype EvictorPolicy = NoEvictor | LeastRecentlyUsed | Oldest

  datatype TidyPolicy = NoTidy | UseTimeout(timeout: nat) | AgeTimeout(timeout: nat)

  datatype Config = Config(tidy: TidyPolicy, evictor: EvictorPolicy)

  /** The cache, the pointers it took, and those it gave back to the caller or deleted, in order. */
  datatype Cache = Cache(
    limit: nat,
    entries: seq<Entry>,
    accepted: seq<Pointer>,
    detached: seq<Pointer>,
    deleted: seq<Pointer>)

  const WIDTH := 0x1_0000_0000

  // ---------- The map ----------

  /** Where an ID is, or would go. */
  function Find(es: seq<Entry>, id: Id): (i: nat)
    ensures i <= |es|
  {
    if es == [] || es[0].id.key >= id.key then 0 else 1 + Find(es[1..], id)
  }

  predicate Has(es: seq<Entry>, id: Id) {
    var i := Find(es, id);
    i < |es| && es[i].id == id
  }

  predicate Ordered(es: seq<Entry>) {
    forall i, j | 0 <= i < j < |es| :: es[i].id.key < es[j].id.key
  }

  function Without(es: seq<Entry>, i: nat): seq<Entry>
    requires i < |es|
  {
    es[..i] + es[i + 1..]
  }

  function Put(es: seq<Entry>, e: Entry): seq<Entry> {
    var i := Find(es, e.id);
    if Has(es, e.id) then es[i := e] else es[..i] + [e] + es[i..]
  }

  function Contents(es: seq<Entry>): seq<Pointer> {
    seq(|es|, i requires 0 <= i < |es| => es[i].content)
  }

  // ---------- Policies ----------

  /** The time a policy goes by. */
  function Rank(p: EvictorPolicy, e: Entry): nat {
    if p == Oldest then e.added else e.used
  }

  /** Worse than the worst so far, which starts as something used now. */
  predicate Worse(p: EvictorPolicy, e: Entry, bound: nat) {
    p != NoEvictor && Rank(p, e) < bound
  }

  /** The entry the policy chooses: the last one it calls worse than those before it. */
  function Worst(p: EvictorPolicy, es: seq<Entry>, now: nat): (w: Option<nat>)
    ensures w.Some? ==> w.value < |es|
  {
    if es == [] then None
    else
      var n := |es| - 1;
      var w := Worst(p, es[..n], now);
      if Worse(p, es[n], if w.Some? then Rank(p, es[w.value]) else now) then Some(n) else w
  }

  predicate Keep(p: TidyPolicy, e: Entry, now: nat) {
    match p
    case NoTidy => true
    case UseTimeout(t) => t == 0 || (now as int) - e.used < t
    case AgeTimeout(t) => t == 0 || (now as int) - e.added < t
  }

  // ---------- Operations ----------

  /** Erase an entry and delete what it points to. */
  function Erase(c: Cache, i: nat): Cache
    requires i < |c.entries|
  {
    c.(entries := Without(c.entries, i), deleted := c.deleted + [c.entries[i].content])
  }

  function Remove(c: Cache, id: Id): Cache {
    if Has(c.entries, id) then Erase(c, Find(c.entries, id)) else c
  }

  function Detach(c: Cache, id: Id): Cache {
    if Has(c.entries, id) then
      var i := Find(c.entries, id);
      c.(entries := Without(c.entries, i), detached := c.detached + [c.entries[i].content])
    else c
  }

  function Touch(c: Cache, id: Id, now: nat): Cache {
    if Has(c.entries, id) then
      var i := Find(c.entries, id);
      c.(entries := c.entries[i := c.entries[i].(used := now, uses := c.entries[i].uses + 1)])
    else c
  }

  /** How many entries must go to make room for one, in the source's 32-bit unsigned arithmetic. */
  function Needed(c: Cache): nat {
    (|c.entries| - c.limit + 1) % WIDTH
  }

  /** Evict the worst entry round after round; `clock` is the time of each round, and a subclass may refuse. */
  function EvictSome(cfg: Config, c: Cache, needed: nat, clock: nat -> nat, round: nat, refuses: Id -> bool): (r: (bool, Cache))
    decreases |c.entries|
  {
    if needed == 0 then (true, c)
    else
      var w := Worst(cfg.evictor, c.entries, clock(round));
      if w.None? || refuses(c.entries[w.value].id) then (false, c)
      else EvictSome(cfg, Erase(c, w.value), needed - 1, clock, round + 1, refuses)
  }

  function Evict(cfg: Config, c: Cache, clock: nat -> nat, refuses: Id -> bool): (bool, Cache) {
    EvictSome(cfg, c, Needed(c), clock, 0, refuses)
  }

  /** Remove what is there under the ID, make room if there is a limit, and take the pointer. */
  function Add(cfg: Config, c: Cache, id: Id, content: Pointer, now: nat, clock: nat -> nat, refuses: Id -> bool): (bool, Cache) {
    var removed := Remove(c, id);
    var (room, evicted) :=
      if removed.limit > 0 && |removed.entries| >= removed.limit then Evict(cfg, removed, clock, refuses) else (true, removed);
    if !room then (false, evicted)
    else
      (true, evicted.(entries := Put(evicted.entries, Entry(id, content, now, now, 0)), accepted := evicted.accepted + [content]))
  }

  /** Remove every entry the policy does not keep and nobody refuses, from entry `i` on. */
  function TidyFrom(cfg: Config, c: Cache, i: nat, now: nat, refuses: Id -> bool): Cache
    requires i <= |c.entries|
    decreases |c.entries| - i
  {
    if i == |c.entries| then c
    else if !Keep(cfg.tidy, c.entries[i], now) && !refuses(c.entries[i].id) then TidyFrom(cfg, Erase(c, i), i, now, refuses)
    else TidyFrom(cfg, c, i + 1, now, refuses)
  }

  function Clear(c: Cache): Cache {
    c.(entries := [], deleted := c.deleted + Contents(c.entries))
  }

  function SetLimit(cfg: Config, c: Cache, limit: nat, clock: nat -> nat, refuses: Id -> bool): Cache {
    Evict(cfg, c.(limit := limit), clock, refuses).1
  }

  // ---------- Runs ----------

  datatype Event =
    | DoAdd(id: Id, content: Pointer, now: nat, clock: nat -> nat, refuses: Id -> bool)
    | DoTouch(id: Id, now: nat)
    | DoRemove(id: Id)
    | DoDetach(id: Id)
    | DoTidy(now: nat, refuses: Id -> bool)
    | DoClear

  function Apply(cfg: Config, c: Cache, e: Event): Cache {
    match e
    case DoAdd(id, content, now, clock, refuses) => Add(cfg, c, id, content, now, clock, refuses).1
    case DoTouch(id, now) => Touch(c, id, now)
    case DoRemove(id) => Remove(c, id)
    case DoDetach(id) => Detach(c, id)
    case DoTidy(now, refuses) => TidyFrom(cfg, c, 0, now, refuses)
    case DoClear => Clear(c)
  }

  function Run(cfg: Config, c: Cache, events: seq<Event>): Cache
    decreases |events|
  {
    if events == [] then c else Run(cfg, Apply(cfg, c, events[0]), events[1..])
  }

  function Empty(limit: nat): Cache {
    Cache(limit, [], [], [], [])
  }

  /** Every pointer taken is in the cache, given back or deleted, once. */
  predicate Conserved(c: Cache) {
    multiset(c.accepted) == multiset(Contents(c.entries)) + multiset(c.detached) + multiset(c.deleted)
  }

  predicate Inv(c: Cache) {
    Ordered(c.entries) && Conserved(c) && (c.limit > 0 ==> |c.entries| <= c.limit)
  }
}
