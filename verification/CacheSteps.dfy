/** Adding to the pointer cache (libs/cache/ot-cache.h) by several threads at once. */
module CacheSteps {
  import opened CacheModel
  import opened CacheSafety
  import opened Options
  import opened Sequences

  /** How far an add has come. */
  datatype Adder =
    | Removed(id: Id, content: Pointer)
    | Full(id: Id, content: Pointer)
    | Evicting(id: Id, content: Pointer, needed: nat)
    | Ready(id: Id, content: Pointer)
    | Added
    | Refused(content: Pointer)

  /** The cache, every add so far, and pointers that were overwritten in the map: nobody deletes those. */
  datatype System = System(cache: Cache, adders: seq<Adder>, lost: seq<Pointer>)

  /** One step for each time a lock is held, or the size is looked at without one.  A pointer taken out of the map counts
      as deleted at once: nobody else can reach it. */
  datatype Step =
    | Begin(id: Id, content: Pointer)
    | Look(a: nat)
    | Count(a: nat)
    | Round(a: nat, now: nat, refuses: Id -> bool)
    | Insert(a: nat, now: nat)
    | Other(e: Event)

  predicate Enabled(s: System, e: Step) {
    match e
    case Begin(_, _) => true
    case Look(a) => a < |s.adders| && s.adders[a].Removed?
    case Count(a) => a < |s.adders| && s.adders[a].Full?
    case Round(a, _, _) => a < |s.adders| && s.adders[a].Evicting? && s.adders[a].needed > 0
    case Insert(a, _) => a < |s.adders| && s.adders[a].Ready?
    case Other(e) => !e.DoAdd?
  }

  /** What an insertion overwrites. */
  function Overwritten(es: seq<Entry>, id: Id): seq<Pointer> {
    if Has(es, id) then [es[Find(es, id)].content] else []
  }

  function Apply(cfg: Config, s: System, e: Step): System
    requires Enabled(s, e)
  {
    match e
    case Begin(id, content) => s.(cache := CacheModel.Remove(s.cache, id), adders := s.adders + [Removed(id, content)])
    case Look(a) =>
      var x := s.adders[a];
      s.(adders := s.adders[a := if s.cache.limit > 0 && |s.cache.entries| >= s.cache.limit then Full(x.id, x.content)
                                 else Ready(x.id, x.content)])
    case Count(a) =>
      var x, n := s.adders[a], Needed(s.cache);
      s.(adders := s.adders[a := if n == 0 then Ready(x.id, x.content) else Evicting(x.id, x.content, n)])
    case Round(a, now, refuses) =>
      var x := s.adders[a];
      var w := Worst(cfg.evictor, s.cache.entries, now);
      if w.None? || refuses(s.cache.entries[w.value].id) then s.(adders := s.adders[a := Refused(x.content)])
      else
        s.(cache := Erase(s.cache, w.value),
           adders := s.adders[a := if x.needed == 1 then Ready(x.id, x.content) else Evicting(x.id, x.content, x.needed - 1)])
    case Insert(a, now) =>
      var x := s.adders[a];
      var c := s.cache;
      System(c.(entries := Put(c.entries, Entry(x.id, x.content, now, now, 0)), accepted := c.accepted + [x.content]),
             s.adders[a := Added], s.lost + Overwritten(c.entries, x.id))
    case Other(e) => s.(cache := CacheModel.Apply(cfg, s.cache, e))
  }

  ghost predicate IsRun(cfg: Config, states: seq<System>, steps: seq<Step>) {
    && |states| == |steps| + 1
    && forall i | 0 <= i < |steps| :: Enabled(states[i], steps[i]) && states[i + 1] == Apply(cfg, states[i], steps[i])
  }

  function Fresh(limit: nat): System {
    System(Empty(limit), [], [])
  }

  // ---------- The map and the ledger ----------

  /** Every pointer taken is in the cache, given back, deleted or lost, once. */
  predicate Accounted(s: System) {
    multiset(s.cache.accepted) ==
    multiset(Contents(s.cache.entries)) + multiset(s.cache.detached) + multiset(s.cache.deleted) + multiset(s.lost)
  }

  predicate Consistent(s: System) {
    Ordered(s.cache.entries) && Accounted(s)
  }

  lemma UpdatedMultiset(all: seq<Pointer>, i: nat, p: Pointer)
    requires i < |all|
    ensures multiset(all[i := p]) + multiset{all[i]} == multiset(all) + multiset{p}
  {
    var a, b := all[..i], all[i + 1..];
    assert all == a + [all[i]] + b && all[i := p] == a + [p] + b;
  }

  lemma ContentsOverwritten(es: seq<Entry>, e: Entry)
    requires Has(es, e.id)
    ensures multiset(Contents(Put(es, e))) + multiset(Overwritten(es, e.id)) == multiset(Contents(es)) + multiset{e.content}
  {
    var i := Find(es, e.id);
    UpdatedMultiset(Contents(es), i, e.content);
    assert Contents(Put(es, e)) == Contents(es)[i := e.content];
  }

  lemma InsertKeeps(s: System, id: Id, content: Pointer, now: nat)
    requires Consistent(s)
    ensures var c, e := s.cache, Entry(id, content, now, now, 0);
            Consistent(s.(cache := c.(entries := Put(c.entries, e), accepted := c.accepted + [content]),
                          lost := s.lost + Overwritten(c.entries, id)))
  {
    var e, es := Entry(id, content, now, now, 0), s.cache.entries;
    var over := Overwritten(es, id);
    PutKeepsOrder(es, e);
    if Has(es, id) {
      ContentsOverwritten(es, e);
    } else {
      ContentsPut(es, e);
    }
    assert multiset(Contents(Put(es, e))) + multiset(over) == multiset(Contents(es)) + multiset{content};
    assert multiset(s.lost + over) == multiset(s.lost) + multiset(over);
    assert multiset(s.cache.accepted + [content]) == multiset(s.cache.accepted) + multiset{content};
  }

  lemma ErasedKeeps(s: System, i: nat)
    requires Consistent(s) && i < |s.cache.entries|
    ensures Consistent(s.(cache := Erase(s.cache, i)))
  {
    EraseIs(s.cache, i);
    ContentsWithout(s.cache.entries, i);
  }

  lemma DetachKeeps(s: System, id: Id)
    requires Consistent(s)
    ensures Consistent(s.(cache := Detach(s.cache, id))) && |Detach(s.cache, id).entries| <= |s.cache.entries|
  {
    var c := s.cache;
    if Has(c.entries, id) {
      EraseIs(c, Find(c.entries, id));
      ContentsWithout(c.entries, Find(c.entries, id));
    }
  }

  /** The other operations add no entry, and keep the ledger whatever has been lost. */
  lemma OtherKeeps(cfg: Config, s: System, e: Event)
    requires Consistent(s) && !e.DoAdd?
    ensures Consistent(s.(cache := CacheModel.Apply(cfg, s.cache, e))) && CacheModel.Apply(cfg, s.cache, e).limit == s.cache.limit
    ensures |CacheModel.Apply(cfg, s.cache, e).entries| <= |s.cache.entries|
  {
    var c := s.cache;
    match e
    case DoTouch(id, now) =>
      assert Contents(Touch(c, id, now).entries) == Contents(c.entries);
    case DoRemove(id) =>
      if Has(c.entries, id) {
        ErasedKeeps(s, Find(c.entries, id));
      }
    case DoDetach(id) => DetachKeeps(s, id);
    case DoTidy(now, refuses) =>
      SweepKeeps(cfg, s, 0, now, refuses);
    case DoClear =>
      assert Contents([]) == [];
  }

  lemma {:induction false} SweepKeeps(cfg: Config, s: System, i: nat, now: nat, refuses: Id -> bool)
    requires Consistent(s) && i <= |s.cache.entries|
    ensures var c := TidyFrom(cfg, s.cache, i, now, refuses);
            Consistent(s.(cache := c)) && c.limit == s.cache.limit && |c.entries| <= |s.cache.entries|
    decreases |s.cache.entries| - i
  {
    var es := s.cache.entries;
    if i < |es| {
      if !Keep(cfg.tidy, es[i], now) && !refuses(es[i].id) {
        ErasedKeeps(s, i);
        SweepKeeps(cfg, s.(cache := Erase(s.cache, i)), i, now, refuses);
      } else {
        SweepKeeps(cfg, s, i + 1, now, refuses);
      }
    }
  }

  lemma StepKeeps(cfg: Config, s: System, e: Step)
    requires Consistent(s) && Enabled(s, e)
    ensures Consistent(Apply(cfg, s, e)) && Apply(cfg, s, e).cache.limit == s.cache.limit
  {
    match e
    case Begin(id, content) => OtherKeeps(cfg, s, DoRemove(id));
    case Look(a) =>
    case Count(a) =>
    case Round(a, now, refuses) =>
      var w := Worst(cfg.evictor, s.cache.entries, now);
      if w.Some? && !refuses(s.cache.entries[w.value].id) {
        ErasedKeeps(s, w.value);
      }
    case Insert(a, now) => InsertKeeps(s, s.adders[a].id, s.adders[a].content, now);
    case Other(e) => OtherKeeps(cfg, s, e);
  }

  /** In every state of every interleaving IDs are distinct, and every pointer taken is cached, given back, deleted or
      lost, once. */
  lemma {:induction false} RunsAreConsistent(cfg: Config, limit: nat, states: seq<System>, steps: seq<Step>, i: nat)
    requires IsRun(cfg, states, steps) && states[0] == Fresh(limit) && i < |states|
    ensures Consistent(states[i]) && states[i].cache.limit == limit
  {
    if i == 0 {
      assert Contents([]) == [];
    } else {
      RunsAreConsistent(cfg, limit, states, steps, i - 1);
      StepKeeps(cfg, states[i - 1], steps[i - 1]);
    }
  }

  /** A pointer is lost exactly when an add inserts under an ID that somebody has filled since it removed what was
      there. */
  lemma LosesIff(cfg: Config, s: System, e: Step)
    requires Enabled(s, e)
    ensures Apply(cfg, s, e).lost != s.lost <==> e.Insert? && Has(s.cache.entries, s.adders[e.a].id)
  {
    if e.Insert? {
      var more := Overwritten(s.cache.entries, s.adders[e.a].id);
      assert |s.lost + more| == |s.lost| + |more|;
      assert s.lost + [] == s.lost;
    }
  }

  // ---------- The limit ----------

  function ReadyCount(adders: seq<Adder>): nat {
    if adders == [] then 0 else ReadyCount(adders[..|adders| - 1]) + if adders[|adders| - 1].Ready? then 1 else 0
  }

  /** The adds that have looked at the size and not inserted yet. */
  function BusyCount(adders: seq<Adder>): nat {
    if adders == [] then 0
    else BusyCount(adders[..|adders| - 1]) + if adders[|adders| - 1].Ready? || adders[|adders| - 1].Evicting? then 1 else 0
  }

  lemma {:induction false} Counts(adders: seq<Adder>, a: nat, x: Adder)
    requires a < |adders|
    ensures ReadyCount(adders[a := x]) + (if adders[a].Ready? then 1 else 0) == ReadyCount(adders) + if x.Ready? then 1 else 0
    ensures adders[a].Evicting? || adders[a].Ready? ==> BusyCount(adders) >= 1
  {
    var n := |adders| - 1;
    assert adders[a := x][..n] == if a == n then adders[..n] else adders[..n][a := x];
    if a < n {
      Counts(adders[..n], a, x);
    }
  }

  lemma {:induction false} ReadyAreBusy(adders: seq<Adder>)
    ensures ReadyCount(adders) <= BusyCount(adders)
    ensures (exists a :: 0 <= a < |adders| && adders[a].Evicting?) ==> ReadyCount(adders) + 1 <= BusyCount(adders)
  {
    if adders != [] {
      var n := |adders| - 1;
      ReadyAreBusy(adders[..n]);
      if a :| 0 <= a < |adders| && adders[a].Evicting? {
        assert a < n ==> adders[..n][a].Evicting?;
      }
    }
  }

  lemma CountsMore(adders: seq<Adder>, x: Adder)
    requires x.Removed?
    ensures ReadyCount(adders + [x]) == ReadyCount(adders)
  {
    assert (adders + [x])[..|adders|] == adders;
  }

  /** With at most `k` adds busy: what is there and what is about to come stays within the limit and all but one of them,
      and an eviction will have made room for its own add as well. */
  predicate Bounded(s: System, k: nat) {
    && |s.cache.entries| + ReadyCount(s.adders) + 1 <= s.cache.limit + k
    && forall a | 0 <= a < |s.adders| && s.adders[a].Evicting? ::
         |s.cache.entries| + ReadyCount(s.adders) + 2 <= s.cache.limit + k + s.adders[a].needed
  }

  /** Fewer entries, and nothing else that matters. */
  lemma FewerBounded(s: System, t: System, k: nat)
    requires Bounded(s, k) && t.adders == s.adders && t.cache.limit == s.cache.limit && |t.cache.entries| <= |s.cache.entries|
    ensures Bounded(t, k)
  {
  }

  lemma BeginBounded(cfg: Config, s: System, e: Step, k: nat)
    requires Consistent(s) && Bounded(s, k) && e.Begin?
    ensures Bounded(Apply(cfg, s, e), k)
  {
    OtherKeeps(cfg, s, DoRemove(e.id));
    CountsMore(s.adders, Removed(e.id, e.content));
  }

  lemma LookBounded(cfg: Config, s: System, e: Step, k: nat)
    requires Bounded(s, k) && Enabled(s, e) && e.Look? && s.cache.limit > 0
    requires BusyCount(Apply(cfg, s, e).adders) <= k
    ensures Bounded(Apply(cfg, s, e), k)
  {
    var t := Apply(cfg, s, e);
    Counts(s.adders, e.a, t.adders[e.a]);
    ReadyAreBusy(t.adders);
  }

  lemma NeededCovers(c: Cache)
    requires 0 < c.limit < WIDTH && |c.entries| < WIDTH
    ensures |c.entries| + 1 <= c.limit + Needed(c)
  {
  }

  /** Between finding the limit reached and counting how many must go, others may remove entries: with room for more than
      one, the difference wraps, and the add evicts whatever can go only to be refused. */
  lemma CountWrapsIff(cfg: Config, s: System, a: nat)
    requires Enabled(s, Count(a)) && 0 < s.cache.limit < WIDTH && |s.cache.entries| < WIDTH
    ensures var x := Apply(cfg, s, Count(a)).adders[a];
            x.Evicting? && x.needed > |s.cache.entries| <==> |s.cache.entries| + 1 < s.cache.limit
  {
  }

  lemma CountBounded(cfg: Config, s: System, e: Step, k: nat)
    requires Bounded(s, k) && Enabled(s, e) && e.Count? && 0 < s.cache.limit < WIDTH && |s.cache.entries| < WIDTH
    requires BusyCount(Apply(cfg, s, e).adders) <= k
    ensures Bounded(Apply(cfg, s, e), k)
  {
    var t := Apply(cfg, s, e);
    NeededCovers(s.cache);
    Counts(s.adders, e.a, t.adders[e.a]);
    ReadyAreBusy(t.adders);
  }

  lemma RoundBounded(cfg: Config, s: System, e: Step, k: nat)
    requires Bounded(s, k) && Enabled(s, e) && e.Round?
    ensures Bounded(Apply(cfg, s, e), k)
  {
    Counts(s.adders, e.a, Apply(cfg, s, e).adders[e.a]);
  }

  lemma InsertBounded(cfg: Config, s: System, e: Step, k: nat)
    requires Consistent(s) && Bounded(s, k) && Enabled(s, e) && e.Insert?
    ensures Bounded(Apply(cfg, s, e), k)
  {
    var x := s.adders[e.a];
    Counts(s.adders, e.a, Added);
    PutKeepsOrder(s.cache.entries, Entry(x.id, x.content, e.now, e.now, 0));
  }

  lemma StepBounded(cfg: Config, s: System, e: Step, k: nat)
    requires Consistent(s) && Bounded(s, k) && Enabled(s, e) && 0 < s.cache.limit < WIDTH && |s.cache.entries| < WIDTH
    requires BusyCount(Apply(cfg, s, e).adders) <= k
    ensures Bounded(Apply(cfg, s, e), k)
  {
    match e
    case Begin(_, _) => BeginBounded(cfg, s, e, k);
    case Look(_) => LookBounded(cfg, s, e, k);
    case Count(_) => CountBounded(cfg, s, e, k);
    case Round(_, _, _) => RoundBounded(cfg, s, e, k);
    case Insert(_, _) => InsertBounded(cfg, s, e, k);
    case Other(o) =>
      OtherKeeps(cfg, s, o);
      FewerBounded(s, Apply(cfg, s, e), k);
  }

  /** In every interleaving in which no more than `k` adds are busy at once, the cache exceeds its limit by less than
      `k`: not at all if adds do not overlap. */
  lemma {:induction false} LimitByAdders(cfg: Config, limit: nat, k: nat, states: seq<System>, steps: seq<Step>, i: nat)
    requires IsRun(cfg, states, steps) && states[0] == Fresh(limit) && i < |states|
    requires 0 < limit && 0 < k && limit + k < WIDTH
    requires forall j | 0 <= j < |states| :: BusyCount(states[j].adders) <= k
    ensures Bounded(states[i], k) && |states[i].cache.entries| < limit + k
  {
    if i > 0 {
      LimitByAdders(cfg, limit, k, states, steps, i - 1);
      RunsAreConsistent(cfg, limit, states, steps, i - 1);
      RunsAreConsistent(cfg, limit, states, steps, i);
      StepBounded(cfg, states[i - 1], steps[i - 1], k);
    }
  }

  // ---------- Runs that overlap ----------

  /** Two adds look at the empty cache before either inserts: with a limit of one it ends up with two entries. */
  lemma TwoAddersExceed(cfg: Config, p: Pointer, q: Pointer) returns (states: seq<System>, steps: seq<Step>)
    ensures IsRun(cfg, states, steps) && states[0] == Fresh(1) && |steps| == 6
    ensures |states[6].cache.entries| == 2 && states[6].cache.limit == 1
  {
    steps := [Begin(Id(0), p), Begin(Id(1), q), Look(0), Look(1), Insert(0, 0), Insert(1, 0)];
    states := Overlapping(cfg, 1, Id(0), Id(1), p, q);
    var one := Put([], Entry(Id(0), p, 0, 0, 0));
    assert one == [Entry(Id(0), p, 0, 0, 0)];
    assert Put(one, Entry(Id(1), q, 0, 0, 0)) == [Entry(Id(0), p, 0, 0, 0), Entry(Id(1), q, 0, 0, 0)];
  }

  /** Two adds under one ID, overlapping: the first pointer is overwritten and lost. */
  lemma SameIdLoses(cfg: Config, p: Pointer, q: Pointer) returns (states: seq<System>, steps: seq<Step>)
    ensures IsRun(cfg, states, steps) && states[0] == Fresh(0) && |steps| == 6
    ensures states[6].lost == [p] && states[6].cache.deleted == []
  {
    steps := [Begin(Id(0), p), Begin(Id(0), q), Look(0), Look(1), Insert(0, 0), Insert(1, 0)];
    states := Overlapping(cfg, 0, Id(0), Id(0), p, q);
    assert Put([], Entry(Id(0), p, 0, 0, 0)) == [Entry(Id(0), p, 0, 0, 0)];
  }

  lemma Overlapping(cfg: Config, limit: nat, a: Id, b: Id, p: Pointer, q: Pointer) returns (states: seq<System>)
    requires limit <= 1
    ensures IsRun(cfg, states, [Begin(a, p), Begin(b, q), Look(0), Look(1), Insert(0, 0), Insert(1, 0)])
    ensures states[0] == Fresh(limit) && |states| == 7
    ensures var one := Put([], Entry(a, p, 0, 0, 0));
            states[6].cache == Cache(limit, Put(one, Entry(b, q, 0, 0, 0)), [p, q], [], []) && states[6].lost == Overwritten(one, b)
  {
    var s0 := Fresh(limit);
    var s4 := System(Empty(limit), [Ready(a, p), Ready(b, q)], []);
    var one := Put([], Entry(a, p, 0, 0, 0));
    var s5 := System(Cache(limit, one, [p], [], []), [Added, Ready(b, q)], []);
    var early := BothLooked(cfg, limit, a, b, p, q);
    var looked := [Begin(a, p), Begin(b, q), Look(0), Look(1)];
    FirstInserts(cfg, limit, a, b, p, q);
    RunOn(cfg, early, looked, Insert(0, 0));
    RunOn(cfg, early + [s5], looked + [Insert(0, 0)], Insert(1, 0));
    assert looked + [Insert(0, 0)] + [Insert(1, 0)] == [Begin(a, p), Begin(b, q), Look(0), Look(1), Insert(0, 0), Insert(1, 0)];
    states := early + [s5] + [Apply(cfg, s5, Insert(1, 0))];
  }

  lemma FirstInserts(cfg: Config, limit: nat, a: Id, b: Id, p: Pointer, q: Pointer)
    ensures Apply(cfg, System(Empty(limit), [Ready(a, p), Ready(b, q)], []), Insert(0, 0)) ==
            System(Cache(limit, Put([], Entry(a, p, 0, 0, 0)), [p], [], []), [Added, Ready(b, q)], [])
  {
    var adders := [Ready(a, p), Ready(b, q)];
    assert adders[0 := Added] == [Added, Ready(b, q)];
  }

  lemma BothLooked(cfg: Config, limit: nat, a: Id, b: Id, p: Pointer, q: Pointer) returns (states: seq<System>)
    requires limit <= 1
    ensures IsRun(cfg, states, [Begin(a, p), Begin(b, q), Look(0), Look(1)])
    ensures states[0] == Fresh(limit) && |states| == 5 && states[4] == System(Empty(limit), [Ready(a, p), Ready(b, q)], [])
  {
    var s1 := System(Empty(limit), [Removed(a, p)], []);
    var s2 := System(Empty(limit), [Removed(a, p), Removed(b, q)], []);
    var s3 := System(Empty(limit), [Ready(a, p), Removed(b, q)], []);
    states := [Fresh(limit), s1, s2, s3, System(Empty(limit), [Ready(a, p), Ready(b, q)], [])];
  }

  // ---------- An add that is alone ----------

  /** The rounds of one add with nothing in between are an eviction. */
  lemma {:induction false} RoundsAlone(cfg: Config, s: System, a: nat, clock: nat -> nat, round: nat, refuses: Id -> bool)
    returns (steps: seq<Step>, states: seq<System>)
    requires a < |s.adders| && s.adders[a].Evicting? && s.adders[a].needed > 0
    ensures IsRun(cfg, states, steps) && states[0] == s
    ensures var x, (ok, c) := s.adders[a], EvictSome(cfg, s.cache, s.adders[a].needed, clock, round, refuses);
            states[|steps|] == s.(cache := c, adders := s.adders[a := if ok then Ready(x.id, x.content) else Refused(x.content)])
    decreases s.adders[a].needed
  {
    var x, e := s.adders[a], Round(a, clock(round), refuses);
    var t := Apply(cfg, s, e);
    if t.adders[a].Evicting? {
      var later, rest := RoundsAlone(cfg, t, a, clock, round + 1, refuses);
      steps, states := [e] + later, [s] + rest;
      RunAfter(cfg, s, e, rest, later);
      assert t.adders[a := rest[|later|].adders[a]] == s.adders[a := rest[|later|].adders[a]];
    } else {
      steps, states := [e], [s, t];
    }
  }

  lemma RunAfter(cfg: Config, s: System, e: Step, states: seq<System>, steps: seq<Step>)
    requires Enabled(s, e) && IsRun(cfg, states, steps) && states[0] == Apply(cfg, s, e)
    ensures IsRun(cfg, [s] + states, [e] + steps) && ([s] + states)[|[e] + steps|] == states[|steps|]
  {
    var all, es := [s] + states, [e] + steps;
    forall i | 0 <= i < |es| ensures Enabled(all[i], es[i]) && all[i + 1] == Apply(cfg, all[i], es[i]) {
      assert i > 0 ==> all[i] == states[i - 1] && es[i] == steps[i - 1] && all[i + 1] == states[i];
    }
  }

  lemma RunOn(cfg: Config, states: seq<System>, steps: seq<Step>, e: Step)
    requires IsRun(cfg, states, steps) && Enabled(states[|steps|], e)
    ensures IsRun(cfg, states + [Apply(cfg, states[|steps|], e)], steps + [e])
  {
    var all, es := states + [Apply(cfg, states[|steps|], e)], steps + [e];
    forall i | 0 <= i < |es| ensures Enabled(all[i], es[i]) && all[i + 1] == Apply(cfg, all[i], es[i]) {
      assert i < |steps| ==> all[i] == states[i] && es[i] == steps[i] && all[i + 1] == states[i + 1];
    }
  }

  /** From the look at the size on: what an add without others in between makes of the cache. */
  lemma RoomAlone(cfg: Config, s: System, a: nat, clock: nat -> nat, refuses: Id -> bool) returns (steps: seq<Step>, states: seq<System>)
    requires a < |s.adders| && s.adders[a].Removed?
    ensures IsRun(cfg, states, steps) && states[0] == s
    ensures var x, c := s.adders[a], s.cache;
            var (room, evicted) := if c.limit > 0 && |c.entries| >= c.limit then Evict(cfg, c, clock, refuses) else (true, c);
            states[|steps|] == s.(cache := evicted, adders := s.adders[a := if room then Ready(x.id, x.content) else Refused(x.content)])
  {
    var t := Apply(cfg, s, Look(a));
    if t.adders[a].Full? {
      var u := Apply(cfg, t, Count(a));
      assert u.adders == s.adders[a := u.adders[a]];
      if u.adders[a].Evicting? {
        var later, rest := RoundsAlone(cfg, u, a, clock, 0, refuses);
        RunAfter(cfg, t, Count(a), rest, later);
        RunAfter(cfg, s, Look(a), [t] + rest, [Count(a)] + later);
        steps, states := [Look(a)] + ([Count(a)] + later), [s] + ([t] + rest);
        assert u.adders[a := rest[|later|].adders[a]] == s.adders[a := rest[|later|].adders[a]];
      } else {
        steps, states := [Look(a), Count(a)], [s, t, u];
      }
    } else {
      steps, states := [Look(a)], [s, t];
    }
  }

  /** The steps of one add with nothing in between come to `CacheModel.Add`. */
  lemma AloneIsAdd(cfg: Config, s: System, id: Id, content: Pointer, now: nat, clock: nat -> nat, refuses: Id -> bool)
    returns (steps: seq<Step>, states: seq<System>)
    requires Consistent(s)
    ensures IsRun(cfg, states, steps) && states[0] == s
    ensures var (ok, c) := Add(cfg, s.cache, id, content, now, clock, refuses);
            && states[|steps|].cache == c && states[|steps|].lost == s.lost
            && states[|steps|].adders == s.adders + [if ok then Added else Refused(content)]
  {
    var a, t := |s.adders|, Apply(cfg, s, Begin(id, content));
    var later, rest := RoomAlone(cfg, t, a, clock, refuses);
    RunAfter(cfg, s, Begin(id, content), rest, later);
    steps, states := [Begin(id, content)] + later, [s] + rest;
    var u := states[|steps|];
    assert u.adders == s.adders + [u.adders[a]];
    if u.adders[a].Ready? {
      RunOn(cfg, states, steps, Insert(a, now));
      NothingOverwritten(cfg, s.cache, id, clock, refuses);
      states, steps := states + [Apply(cfg, u, Insert(a, now))], steps + [Insert(a, now)];
      assert s.lost + [] == s.lost;
      assert u.adders[a := Added] == s.adders + [Added];
    }
  }

  lemma NothingOverwritten(cfg: Config, c: Cache, id: Id, clock: nat -> nat, refuses: Id -> bool)
    requires Ordered(c.entries)
    ensures var removed := CacheModel.Remove(c, id);
            && !Has(removed.entries, id) && !Has(Evict(cfg, removed, clock, refuses).1.entries, id)
  {
    var removed := CacheModel.Remove(c, id);
    if Has(c.entries, id) {
      EraseIs(c, Find(c.entries, id));
      FoundGone(c.entries, id);
    }
    var (ok, evicted) := Evict(cfg, removed, clock, refuses);
    EvictionCounts(cfg, removed, Needed(removed), clock, 0, refuses, ok, evicted);
    EvictionTakesWorst(cfg, removed, Needed(removed), clock, 0, refuses, ok, evicted);
    StillAbsent(removed.entries, evicted.entries, id);
  }
}
