module CacheMeaning {
  // What the operations and policies of the pointer cache come to, said on the entries and their times.

  import opened CacheModel
  import opened CacheSafety
  import opened Options
  import opened Sequences

  // ---------- How many must go ----------

  /** As many as leave room for one more; with room for more than one already, that is short of nothing and wraps to
      nearly 2^32. */
  lemma NeededIs(c: Cache)
    requires |c.entries| < 0x1_0000_0000 && c.limit < 0x1_0000_0000
    ensures |c.entries| + 1 < 0x1_0000_0000 + c.limit ==>
              Needed(c) == if |c.entries| + 1 >= c.limit then |c.entries| + 1 - c.limit else |c.entries| + 1 - c.limit + 0x1_0000_0000
  {
  }

  // ---------- The choice of one round ----------

  /** The least recently used: the first of those used longest ago, if that is before now; none exactly if nobody was
      used before now. */
  lemma WorstByUseIff(es: seq<Entry>, now: nat, w: nat)
    ensures Worst(LeastRecentlyUsed, es, now) == Some(w) <==>
            && w < |es| && es[w].used < now
            && (forall j | 0 <= j < |es| :: es[w].used <= es[j].used) && (forall j | 0 <= j < w :: es[w].used < es[j].used)
    ensures Worst(LeastRecentlyUsed, es, now) == None <==> forall j | 0 <= j < |es| :: now <= es[j].used
  {
    WorstIs(LeastRecentlyUsed, es, now);
  }

  /** The oldest likewise, by the time of addition. */
  lemma WorstByAgeIff(es: seq<Entry>, now: nat, w: nat)
    ensures Worst(Oldest, es, now) == Some(w) <==>
            && w < |es| && es[w].added < now
            && (forall j | 0 <= j < |es| :: es[w].added <= es[j].added) && (forall j | 0 <= j < w :: es[w].added < es[j].added)
    ensures Worst(Oldest, es, now) == None <==> forall j | 0 <= j < |es| :: now <= es[j].added
  {
    WorstIs(Oldest, es, now);
  }

  // ---------- A whole eviction ----------

  /** One round: whom the policy chooses was used, or added, before the moment at which it looks. */
  lemma ChosenIsOlder(p: EvictorPolicy, c: Cache, now: nat)
    requires Ordered(c.entries) && Worst(p, c.entries, now).Some?
    ensures var w := Worst(p, c.entries, now).value; var less := Erase(c, w);
            && p != NoEvictor && Rank(p, c.entries[w]) < now
            && Ordered(less.entries) && |less.entries| == |c.entries| - 1 && JustWithout(c.entries, c.entries[w], less.entries)
  {
    WorstIs(p, c.entries, now);
    WorstGoes(p, c, now);
  }

  /** Whoever stays out was chosen in one of the rounds. */
  lemma {:induction false} GoneWereOlder(cfg: Config, c: Cache, needed: nat, clock: nat -> nat, round: nat, refuses: Id -> bool, d: Cache, e: Entry)
    requires Ordered(c.entries) && EvictSome(cfg, c, needed, clock, round, refuses).1 == d && e in c.entries
    ensures e in d.entries || exists r: nat :: round <= r < round + |c.entries| && Rank(cfg.evictor, e) < clock(r)
    decreases |c.entries|
  {
    var w := Worst(cfg.evictor, c.entries, clock(round));
    if needed > 0 && w.Some? && !refuses(c.entries[w.value].id) {
      ChosenIsOlder(cfg.evictor, c, clock(round));
      if e != c.entries[w.value] {
        GoneWereOlder(cfg, Erase(c, w.value), needed - 1, clock, round + 1, refuses, d, e);
      }
    }
  }

  /** Evicting the least recently used: whoever goes was used no later than whoever stays; it fails when nobody left was
      used before the last moment at which it looked, or when one left that was used no later than the others refuses. */
  lemma EvictsByUse(cfg: Config, c: Cache, clock: nat -> nat, refuses: Id -> bool, ok: bool, d: Cache)
    requires cfg.evictor == LeastRecentlyUsed && Ordered(c.entries) && Evict(cfg, c, clock, refuses) == (ok, d)
    ensures |d.entries| <= |c.entries| && forall s <- d.entries :: s in c.entries
    ensures forall e <- c.entries, s <- d.entries :: e !in d.entries ==> e.used <= s.used
    ensures ok || (forall s <- d.entries :: clock(|c.entries| - |d.entries|) <= s.used)
               || exists s <- d.entries :: refuses(s.id) && forall t <- d.entries :: s.used <= t.used
  {
    EvictionIs(cfg, c, Needed(c), clock, refuses, ok, d);
    OrderByUse(c.entries, d.entries);
    if !ok {
      StuckByUse(d.entries, clock(|c.entries| - |d.entries|), refuses);
    }
  }

  lemma OrderByUse(before: seq<Entry>, after: seq<Entry>)
    requires TookWorst(LeastRecentlyUsed, before, after)
    ensures forall e <- before, s <- after :: e !in after ==> e.used <= s.used
  {
  }

  lemma StuckByUse(es: seq<Entry>, now: nat, refuses: Id -> bool)
    requires Stuck(LeastRecentlyUsed, es, now, refuses)
    ensures (forall s <- es :: now <= s.used) || exists s <- es :: refuses(s.id) && forall t <- es :: s.used <= t.used
  {
    OlderAll(LeastRecentlyUsed, es, now);
    if s :| Lowest(LeastRecentlyUsed, es, s) && refuses(s.id) {
      assert s in es && forall t <- es :: s.used <= t.used;
    }
  }

  /** Evicting the oldest: the same, by the time of addition. */
  lemma EvictsByAge(cfg: Config, c: Cache, clock: nat -> nat, refuses: Id -> bool, ok: bool, d: Cache)
    requires cfg.evictor == Oldest && Ordered(c.entries) && Evict(cfg, c, clock, refuses) == (ok, d)
    ensures |d.entries| <= |c.entries| && forall s <- d.entries :: s in c.entries
    ensures forall e <- c.entries, s <- d.entries :: e !in d.entries ==> e.added <= s.added
    ensures ok || (forall s <- d.entries :: clock(|c.entries| - |d.entries|) <= s.added)
               || exists s <- d.entries :: refuses(s.id) && forall t <- d.entries :: s.added <= t.added
  {
    EvictionIs(cfg, c, Needed(c), clock, refuses, ok, d);
    OrderByAge(c.entries, d.entries);
    if !ok {
      StuckByAge(d.entries, clock(|c.entries| - |d.entries|), refuses);
    }
  }

  lemma OrderByAge(before: seq<Entry>, after: seq<Entry>)
    requires TookWorst(Oldest, before, after)
    ensures forall e <- before, s <- after :: e !in after ==> e.added <= s.added
  {
  }

  lemma StuckByAge(es: seq<Entry>, now: nat, refuses: Id -> bool)
    requires Stuck(Oldest, es, now, refuses)
    ensures (forall s <- es :: now <= s.added) || exists s <- es :: refuses(s.id) && forall t <- es :: s.added <= t.added
  {
    OlderAll(Oldest, es, now);
    if s :| Lowest(Oldest, es, s) && refuses(s.id) {
      assert s in es && forall t <- es :: s.added <= t.added;
    }
  }

  /** And whoever goes was used, or added, before the moment of one of the rounds. */
  lemma GoneBefore(cfg: Config, c: Cache, clock: nat -> nat, refuses: Id -> bool, e: Entry)
    requires Ordered(c.entries) && e in c.entries && e !in Evict(cfg, c, clock, refuses).1.entries
    ensures cfg.evictor == LeastRecentlyUsed ==> exists r: nat :: r < |c.entries| && e.used < clock(r)
    ensures cfg.evictor == Oldest ==> exists r: nat :: r < |c.entries| && e.added < clock(r)
  {
    GoneWereOlder(cfg, c, Needed(c), clock, 0, refuses, Evict(cfg, c, clock, refuses).1, e);
  }

  /** Without an evictor nothing goes, and there is room only if none was needed. */
  lemma NothingEvicted(cfg: Config, c: Cache, clock: nat -> nat, refuses: Id -> bool)
    requires cfg.evictor == NoEvictor
    ensures Evict(cfg, c, clock, refuses) == (Needed(c) == 0, c)
  {
    NeverChosen(c.entries, clock(0));
  }

  // ---------- Single entries ----------

  lemma FoundIs(es: seq<Entry>, e: Entry)
    requires Ordered(es) && e in es
    ensures Has(es, e.id) && es[Find(es, e.id)] == e
  {
    FindSplits(es, e.id);
    var j :| 0 <= j < |es| && es[j] == e;
  }

  lemma OnlyOne(es: seq<Entry>, a: Entry, b: Entry)
    requires Ordered(es) && a in es && b in es && a.id == b.id
    ensures a == b
  {
    FoundIs(es, a);
    FoundIs(es, b);
  }

  /** Touching an entry renews its time of use and counts it, and leaves the others alone. */
  lemma TouchIs(c: Cache, e: Entry, now: nat)
    requires Ordered(c.entries) && e in c.entries
    ensures var d := Touch(c, e.id, now); var t := Entry(e.id, e.content, e.added, now, e.uses + 1);
            && d == c.(entries := d.entries) && |d.entries| == |c.entries|
            && forall s :: s in d.entries <==> s == t || (s in c.entries && s != e)
  {
    FoundIs(c.entries, e);
    var i := Find(c.entries, e.id);
    var t := Entry(e.id, e.content, e.added, now, e.uses + 1);
    UpdatedMembers(c.entries, i, t);
  }

  lemma UpdatedMembers(es: seq<Entry>, i: nat, t: Entry)
    requires Ordered(es) && i < |es|
    ensures forall s :: s in es[i := t] <==> s == t || (s in es && s != es[i])
  {
    var now := es[i := t];
    assert now[i] == t;
    forall s | s in es && s != es[i] ensures s in now {
      var j :| 0 <= j < |es| && es[j] == s;
      assert now[j] == s;
    }
    forall s | s in now ensures s == t || (s in es && s != es[i]) {
      var j :| 0 <= j < |now| && now[j] == s;
      assert j != i ==> s == es[j] && es[j].id.key != es[i].id.key;
    }
  }

  /** An entry touched after every other use is the last that an eviction of the least recently used takes. */
  lemma TouchedGoesLast(cfg: Config, c: Cache, e: Entry, now: nat, clock: nat -> nat, refuses: Id -> bool, ok: bool, d: Cache)
    requires cfg.evictor == LeastRecentlyUsed && Ordered(c.entries) && e in c.entries && forall s <- c.entries :: s.used < now
    requires Evict(cfg, Touch(c, e.id, now), clock, refuses) == (ok, d)
    ensures d.entries == [] || Entry(e.id, e.content, e.added, now, e.uses + 1) in d.entries
  {
    var touched := Touch(c, e.id, now);
    var t := Entry(e.id, e.content, e.added, now, e.uses + 1);
    TouchIs(c, e, now);
    FindSplits(c.entries, e.id);
    assert Ordered(touched.entries);
    EvictsByUse(cfg, touched, clock, refuses, ok, d);
    SomeMember(d.entries);
  }

  /** Tidying by use, or by age, leaves an entry if and only if its time is not over or it is refused; without a policy,
      or with a timeout of zero, it leaves all. */
  lemma StaysTidyIff(cfg: Config, c: Cache, now: nat, refuses: Id -> bool, e: Entry)
    requires Ordered(c.entries) && e in c.entries
    ensures e in TidyFrom(cfg, c, 0, now, refuses).entries <==>
            || refuses(e.id) || cfg.tidy == NoTidy
            || (cfg.tidy.UseTimeout? && (cfg.tidy.timeout == 0 || now < e.used + cfg.tidy.timeout))
            || (cfg.tidy.AgeTimeout? && (cfg.tidy.timeout == 0 || now < e.added + cfg.tidy.timeout))
  {
    TidyKeeps(cfg, c, 0, now, refuses);
    assert c.entries[0..] == c.entries;
    KeptIff(cfg, c.entries, now, refuses, e);
  }

  lemma {:induction false} KeptIff(cfg: Config, es: seq<Entry>, now: nat, refuses: Id -> bool, e: Entry)
    ensures e in Kept(cfg, es, now, refuses) <==> e in es && (Keep(cfg.tidy, e, now) || refuses(e.id))
  {
    if es != [] {
      KeptIff(cfg, es[1..], now, refuses, e);
    }
  }

  /** Detaching gives the pointer under the ID back, removing deletes it; the other entries stay. */
  lemma TakenOut(c: Cache, e: Entry)
    requires Ordered(c.entries) && e in c.entries
    ensures var d := Detach(c, e.id);
            JustWithout(c.entries, e, d.entries) && d.detached == c.detached + [e.content] && d.deleted == c.deleted
    ensures var d := Remove(c, e.id);
            JustWithout(c.entries, e, d.entries) && d.deleted == c.deleted + [e.content] && d.detached == c.detached
  {
    FoundIs(c.entries, e);
    EraseIs(c, Find(c.entries, e.id));
  }

  /** A pointer that is taken is there under its ID, added and used now; no other is there that was not before. */
  lemma AddedIs(cfg: Config, c: Cache, id: Id, content: Pointer, now: nat, clock: nat -> nat, refuses: Id -> bool)
    requires Inv(c) && c.limit < WIDTH
    ensures var (ok, d) := Add(cfg, c, id, content, now, clock, refuses);
            && (ok ==> Entry(id, content, now, now, 0) in d.entries)
            && (forall e <- d.entries :: e == Entry(id, content, now, now, 0) || (e in c.entries && e.id != id))
  {
    RemoveKeeps(c, id);
    LeftBehind(c, id);
    var removed := Remove(c, id);
    var e := Entry(id, content, now, now, 0);
    if removed.limit > 0 && |removed.entries| >= removed.limit {
      RoomMade(cfg, removed, e, clock, refuses);
    } else {
      PutMembers(removed.entries, e);
    }
  }

  lemma RoomMade(cfg: Config, c: Cache, e: Entry, clock: nat -> nat, refuses: Id -> bool)
    requires Ordered(c.entries) && !Has(c.entries, e.id)
    ensures var d := Evict(cfg, c, clock, refuses).1;
            && (forall s <- d.entries :: s in c.entries)
            && e in Put(d.entries, e) && forall s <- Put(d.entries, e) :: s == e || s in c.entries
  {
    var (room, d) := Evict(cfg, c, clock, refuses);
    EvictionIs(cfg, c, Needed(c), clock, refuses, room, d);
    StillAbsent(c.entries, d.entries, e.id);
    PutMembers(d.entries, e);
  }

  lemma LeftBehind(c: Cache, id: Id)
    requires Ordered(c.entries)
    ensures forall e <- Remove(c, id).entries :: e in c.entries && e.id != id
  {
    if Has(c.entries, id) {
      TakenOut(c, c.entries[Find(c.entries, id)]);
      forall e <- Remove(c, id).entries ensures e in c.entries && e.id != id {
        if e.id == id {
          OnlyOne(c.entries, e, c.entries[Find(c.entries, id)]);
        }
      }
    } else {
      AbsentIff(c.entries, id);
    }
  }

  lemma PutMembers(es: seq<Entry>, e: Entry)
    requires !Has(es, e.id)
    ensures e in Put(es, e) && forall s <- Put(es, e) :: s == e || s in es
  {
    assert Put(es, e)[Find(es, e.id)] == e;
  }
}
