/** Safety of the pointer cache over every run, and what an eviction takes. */
module CacheSafety {
  import opened CacheModel
  import opened Options
  import opened Sequences

  // ---------- The map ----------

  lemma {:induction false} FindSplits(es: seq<Entry>, id: Id)
    requires Ordered(es)
    ensures var i := Find(es, id);
            && (forall j | 0 <= j < i :: es[j].id.key < id.key)
            && (forall j | i <= j < |es| :: es[j].id.key >= id.key)
            && (forall j | i < j < |es| :: es[j].id.key > id.key)
  {
    if es != [] && es[0].id.key < id.key {
      FindSplits(es[1..], id);
      assert forall j | 1 <= j < |es| :: es[j] == es[1..][j - 1];
    }
  }

  lemma PutKeepsOrder(es: seq<Entry>, e: Entry)
    requires Ordered(es)
    ensures Ordered(Put(es, e)) && |Put(es, e)| == |es| + if Has(es, e.id) then 0 else 1
    ensures Has(es, e.id) ==> Put(es, e) == es[Find(es, e.id) := e]
  {
    FindSplits(es, e.id);
  }

  lemma WithoutMultiset(s: seq<Pointer>, i: nat)
    requires i < |s|
    ensures multiset(s) == multiset(s[..i] + s[i + 1..]) + multiset{s[i]}
  {
    assert s == s[..i] + [s[i]] + s[i + 1..];
  }

  lemma ContentsWithout(es: seq<Entry>, i: nat)
    requires i < |es|
    ensures Contents(Without(es, i)) == Contents(es)[..i] + Contents(es)[i + 1..]
    ensures multiset(Contents(es)) == multiset(Contents(Without(es, i))) + multiset{es[i].content}
  {
    assert Contents(Without(es, i)) == Contents(es)[..i] + Contents(es)[i + 1..];
    WithoutMultiset(Contents(es), i);
  }

  lemma InsertMultiset(s: seq<Pointer>, i: nat, p: Pointer)
    requires i <= |s|
    ensures multiset(s[..i] + [p] + s[i..]) == multiset(s) + multiset{p}
  {
    assert s == s[..i] + s[i..];
  }

  // ---------- Evicting ----------

  predicate FirstLowest(p: EvictorPolicy, es: seq<Entry>, w: nat) {
    && w < |es|
    && (forall j | 0 <= j < |es| :: Rank(p, es[w]) <= Rank(p, es[j]))
    && (forall j | 0 <= j < w :: Rank(p, es[w]) < Rank(p, es[j]))
  }

  predicate NoneOlder(p: EvictorPolicy, es: seq<Entry>, now: nat) {
    p == NoEvictor || forall j | 0 <= j < |es| :: Rank(p, es[j]) >= now
  }

  /** The first of those with the lowest time, and that is before now; or nobody's is. */
  predicate RightChoice(p: EvictorPolicy, es: seq<Entry>, now: nat, w: Option<nat>) {
    if w.Some? then p != NoEvictor && FirstLowest(p, es, w.value) && Rank(p, es[w.value]) < now
    else NoneOlder(p, es, now)
  }

  lemma {:induction false} WorstIs(p: EvictorPolicy, es: seq<Entry>, now: nat)
    ensures RightChoice(p, es, now, Worst(p, es, now))
  {
    if es != [] {
      var n := |es| - 1;
      WorstIs(p, es[..n], now);
      OneMore(p, es[..n], es[n], now, Worst(p, es[..n], now));
      assert es == es[..n] + [es[n]];
    }
  }

  lemma OneMore(p: EvictorPolicy, es: seq<Entry>, e: Entry, now: nat, w: Option<nat>)
    requires RightChoice(p, es, now, w)
    ensures RightChoice(p, es + [e], now,
                        if Worse(p, e, if w.Some? then Rank(p, es[w.value]) else now) then Some(|es|) else w)
  {
    assert w.Some? ==> (es + [e])[w.value] == es[w.value];
  }

  ghost predicate JustWithout(before: seq<Entry>, w: Entry, after: seq<Entry>) {
    forall e :: e in after <==> e in before && e != w
  }

  lemma EraseIs(c: Cache, i: nat)
    requires Ordered(c.entries) && i < |c.entries|
    ensures Ordered(Erase(c, i).entries) && JustWithout(c.entries, c.entries[i], Erase(c, i).entries)
    ensures Conserved(c) ==> Conserved(Erase(c, i))
  {
    var es, d := c.entries, Erase(c, i);
    forall e ensures e in d.entries <==> e in es && e != es[i] {
      if e in es && e != es[i] {
        var j :| 0 <= j < |es| && es[j] == e;
        assert j < i ==> d.entries[j] == e;
        assert j > i ==> d.entries[j - 1] == e;
      }
    }
    ContentsWithout(es, i);
  }

  /** A pure eviction order: whoever goes was used, or added, no later than whoever stays. */
  ghost predicate TookWorst(p: EvictorPolicy, before: seq<Entry>, after: seq<Entry>) {
    && (forall e <- after :: e in before)
    && (forall e <- before, s <- after :: e !in after ==> Rank(p, e) <= Rank(p, s))
  }

  lemma {:induction false} EvictionCounts(cfg: Config, c: Cache, needed: nat, clock: nat -> nat, round: nat, refuses: Id -> bool, ok: bool, d: Cache)
    requires Ordered(c.entries) && EvictSome(cfg, c, needed, clock, round, refuses) == (ok, d)
    ensures Ordered(d.entries) && (Conserved(c) ==> Conserved(d))
    ensures d.limit == c.limit && d.accepted == c.accepted && d.detached == c.detached
    ensures |d.entries| <= |c.entries|
    ensures if ok then |d.entries| == |c.entries| - needed else |c.entries| - |d.entries| < needed
    decreases |c.entries|
  {
    if needed > 0 {
      var w := Worst(cfg.evictor, c.entries, clock(round));
      if w.Some? && !refuses(c.entries[w.value].id) {
        EraseIs(c, w.value);
        EvictionCounts(cfg, Erase(c, w.value), needed - 1, clock, round + 1, refuses, ok, d);
      }
    }
  }

  ghost predicate Lowest(p: EvictorPolicy, es: seq<Entry>, w: Entry) {
    w in es && forall e <- es :: Rank(p, w) <= Rank(p, e)
  }

  /** The step of an eviction: the worst entry, if there is one, and what is left without it. */
  lemma WorstGoes(p: EvictorPolicy, c: Cache, now: nat)
    requires Ordered(c.entries)
    ensures var w := Worst(p, c.entries, now);
            if w.Some? then
              var d := Erase(c, w.value);
              && Ordered(d.entries) && |d.entries| == |c.entries| - 1
              && Lowest(p, c.entries, c.entries[w.value]) && JustWithout(c.entries, c.entries[w.value], d.entries)
            else NoneOlder(p, c.entries, now)
  {
    WorstIs(p, c.entries, now);
    var w := Worst(p, c.entries, now);
    if w.Some? {
      EraseIs(c, w.value);
    }
  }

  lemma TookOneMore(p: EvictorPolicy, before: seq<Entry>, w: Entry, middle: seq<Entry>, after: seq<Entry>)
    requires JustWithout(before, w, middle) && Lowest(p, before, w) && TookWorst(p, middle, after)
    ensures TookWorst(p, before, after)
  {
    forall e, s | e in before && s in after && e !in after ensures Rank(p, e) <= Rank(p, s) {
      assert e == w || e in middle;
    }
  }

  lemma {:induction false} EvictionTakesWorst(cfg: Config, c: Cache, needed: nat, clock: nat -> nat, round: nat, refuses: Id -> bool, ok: bool, d: Cache)
    requires Ordered(c.entries) && EvictSome(cfg, c, needed, clock, round, refuses) == (ok, d)
    ensures TookWorst(cfg.evictor, c.entries, d.entries)
    decreases |c.entries|
  {
    if needed > 0 {
      var w := Worst(cfg.evictor, c.entries, clock(round));
      WorstGoes(cfg.evictor, c, clock(round));
      if w.Some? && !refuses(c.entries[w.value].id) {
        var without := Erase(c, w.value);
        EvictionTakesWorst(cfg, without, needed - 1, clock, round + 1, refuses, ok, d);
        TookOneMore(cfg.evictor, c.entries, c.entries[w.value], without.entries, d.entries);
      }
    }
  }

  /** No entry can go: none is older than now, or the worst is refused. */
  ghost predicate Stuck(p: EvictorPolicy, es: seq<Entry>, now: nat, refuses: Id -> bool) {
    NoneOlder(p, es, now) || exists e :: Lowest(p, es, e) && refuses(e.id)
  }

  lemma {:induction false} FailedEvictionIsStuck(cfg: Config, c: Cache, needed: nat, clock: nat -> nat, round: nat, refuses: Id -> bool, end: nat, d: Cache)
    requires Ordered(c.entries) && EvictSome(cfg, c, needed, clock, round, refuses) == (false, d)
    requires end == round + |c.entries| - |d.entries|
    ensures Stuck(cfg.evictor, d.entries, clock(end), refuses)
    decreases |c.entries|
  {
    var w := Worst(cfg.evictor, c.entries, clock(round));
    WorstGoes(cfg.evictor, c, clock(round));
    if w.Some? && !refuses(c.entries[w.value].id) {
      FailedEvictionIsStuck(cfg, Erase(c, w.value), needed - 1, clock, round + 1, refuses, end, d);
    }
  }

  /** An eviction that succeeds removes exactly as many entries as needed; one that fails stops at a moment when no
      remaining entry is older than now, or when removing the worst is refused.  Either way those removed are no
      later than those left, and nothing else changes. */
  lemma EvictionIs(cfg: Config, c: Cache, needed: nat, clock: nat -> nat, refuses: Id -> bool, ok: bool, d: Cache)
    requires Ordered(c.entries) && EvictSome(cfg, c, needed, clock, 0, refuses) == (ok, d)
    ensures Ordered(d.entries) && TookWorst(cfg.evictor, c.entries, d.entries) && (Conserved(c) ==> Conserved(d))
    ensures |d.entries| <= |c.entries|
    ensures if ok then |d.entries| == |c.entries| - needed
            else Stuck(cfg.evictor, d.entries, clock(|c.entries| - |d.entries|), refuses)
  {
    EvictionCounts(cfg, c, needed, clock, 0, refuses, ok, d);
    EvictionTakesWorst(cfg, c, needed, clock, 0, refuses, ok, d);
    if !ok {
      FailedEvictionIsStuck(cfg, c, needed, clock, 0, refuses, |c.entries| - |d.entries|, d);
    }
  }

  // ---------- Tidying ----------

  /** The entries that stay, in their order. */
  function Kept(cfg: Config, es: seq<Entry>, now: nat, refuses: Id -> bool): seq<Entry> {
    if es == [] then []
    else
      var rest := Kept(cfg, es[1..], now, refuses);
      if Keep(cfg.tidy, es[0], now) || refuses(es[0].id) then [es[0]] + rest else rest
  }

  lemma {:induction false} TidyKeeps(cfg: Config, c: Cache, i: nat, now: nat, refuses: Id -> bool)
    requires Ordered(c.entries) && i <= |c.entries|
    ensures var d := TidyFrom(cfg, c, i, now, refuses);
            && d.entries == c.entries[..i] + Kept(cfg, c.entries[i..], now, refuses)
            && Ordered(d.entries) && |d.entries| <= |c.entries| && (Conserved(c) ==> Conserved(d))
            && d.limit == c.limit && d.accepted == c.accepted && d.detached == c.detached
    decreases |c.entries| - i
  {
    var es := c.entries;
    if i < |es| {
      assert es[i..][1..] == es[i + 1..];
      if !Keep(cfg.tidy, es[i], now) && !refuses(es[i].id) {
        EraseIs(c, i);
        TidyKeeps(cfg, Erase(c, i), i, now, refuses);
        assert Erase(c, i).entries[..i] == es[..i] && Erase(c, i).entries[i..] == es[i + 1..];
      } else {
        TidyKeeps(cfg, c, i + 1, now, refuses);
        Assoc(es[..i], [es[i]], Kept(cfg, es[i + 1..], now, refuses));
        assert es[..i + 1] == es[..i] + [es[i]];
      }
    } else {
      assert es[..i] + [] == es;
    }
  }

  // ---------- Every run ----------

  lemma RemoveKeeps(c: Cache, id: Id)
    requires Inv(c)
    ensures Inv(Remove(c, id)) && Inv(Detach(c, id)) && !Has(Remove(c, id).entries, id)
    ensures Has(c.entries, id) ==> |Remove(c, id).entries| == |c.entries| - 1
  {
    if Has(c.entries, id) {
      var i := Find(c.entries, id);
      EraseIs(c, i);
      ContentsWithout(c.entries, i);
      FoundGone(c.entries, id);
    }
  }

  lemma FoundGone(es: seq<Entry>, id: Id)
    requires Ordered(es) && Has(es, id)
    ensures !Has(Without(es, Find(es, id)), id)
  {
    var i := Find(es, id);
    FindSplits(es, id);
    var rest := Without(es, i);
    assert forall j | 0 <= j < |rest| :: rest[j] == es[if j < i then j else j + 1];
    assert forall j | 0 <= j < |rest| :: rest[j].id != id;
  }

  lemma TouchKeeps(c: Cache, id: Id, now: nat)
    requires Inv(c)
    ensures Inv(Touch(c, id, now))
  {
    assert Contents(Touch(c, id, now).entries) == Contents(c.entries);
  }

  lemma ContentsPut(es: seq<Entry>, e: Entry)
    requires !Has(es, e.id)
    ensures multiset(Contents(Put(es, e))) == multiset(Contents(es)) + multiset{e.content}
  {
    var i := Find(es, e.id);
    InsertMultiset(Contents(es), i, e.content);
    assert Contents(Put(es, e)) == Contents(es)[..i] + [e.content] + Contents(es)[i..];
  }

  lemma TakeKeeps(c: Cache, e: Entry)
    requires Ordered(c.entries) && Conserved(c) && !Has(c.entries, e.id)
    ensures var d := c.(entries := Put(c.entries, e), accepted := c.accepted + [e.content]);
            Ordered(d.entries) && Conserved(d) && |d.entries| == |c.entries| + 1
  {
    PutKeepsOrder(c.entries, e);
    ContentsPut(c.entries, e);
  }

  lemma AbsentIff(es: seq<Entry>, id: Id)
    requires Ordered(es)
    ensures Has(es, id) <==> exists e :: e in es && e.id == id
  {
    FindSplits(es, id);
    if Has(es, id) {
      assert es[Find(es, id)] in es;
    }
  }

  lemma StillAbsent(before: seq<Entry>, after: seq<Entry>, id: Id)
    requires Ordered(before) && Ordered(after) && !Has(before, id) && forall e <- after :: e in before
    ensures !Has(after, id)
  {
    AbsentIff(before, id);
    AbsentIff(after, id);
  }

  /** Adding keeps the limit and the ledger; if it fails, what was under the ID is gone all the same. */
  lemma AddKeeps(cfg: Config, c: Cache, id: Id, content: Pointer, now: nat, clock: nat -> nat, refuses: Id -> bool)
    requires Inv(c) && c.limit < WIDTH
    ensures var (ok, d) := Add(cfg, c, id, content, now, clock, refuses);
            && Inv(d) && d.limit == c.limit && d.detached == c.detached
            && d.accepted == (if ok then c.accepted + [content] else c.accepted)
            && (!ok ==> !Has(d.entries, id))
            && (Has(c.entries, id) ==> ok)
  {
    RemoveKeeps(c, id);
    var removed := Remove(c, id);
    if removed.limit > 0 && |removed.entries| >= removed.limit {
      assert Needed(removed) == 1;
      var (room, evicted) := Evict(cfg, removed, clock, refuses);
      EvictionCounts(cfg, removed, 1, clock, 0, refuses, room, evicted);
      EvictionTakesWorst(cfg, removed, 1, clock, 0, refuses, room, evicted);
      StillAbsent(removed.entries, evicted.entries, id);
      if room {
        TakeKeeps(evicted, Entry(id, content, now, now, 0));
      }
    } else {
      TakeKeeps(removed, Entry(id, content, now, now, 0));
    }
  }

  lemma ApplyKeeps(cfg: Config, c: Cache, e: Event)
    requires Inv(c) && c.limit < WIDTH
    ensures Inv(Apply(cfg, c, e)) && Apply(cfg, c, e).limit == c.limit
  {
    if e.DoAdd? {
      AddKeeps(cfg, c, e.id, e.content, e.now, e.clock, e.refuses);
    } else if e.DoTouch? {
      TouchKeeps(c, e.id, e.now);
    } else if e.DoRemove? || e.DoDetach? {
      RemoveKeeps(c, e.id);
    } else if e.DoTidy? {
      TidyKeeps(cfg, c, 0, e.now, e.refuses);
    } else {
      assert Contents([]) == [];
    }
  }

  /** Over every run the cache stays within its limit, its IDs stay distinct, and every pointer it took is cached,
      given back or deleted. */
  lemma {:induction false} RunsAreSafe(cfg: Config, limit: nat, c: Cache, events: seq<Event>)
    requires Inv(c) && c.limit == limit < WIDTH
    ensures Inv(Run(cfg, c, events)) && Run(cfg, c, events).limit == limit
    decreases |events|
  {
    if events != [] {
      ApplyKeeps(cfg, c, events[0]);
      RunsAreSafe(cfg, limit, Apply(cfg, c, events[0]), events[1..]);
    }
  }

  lemma EmptyIsSafe(limit: nat)
    ensures Inv(Empty(limit))
  {
    assert Contents([]) == [];
  }

  lemma {:induction false} CountOnce(s: seq<Pointer>, p: Pointer)
    requires NoDup(s)
    ensures multiset(s)[p] == if p in s then 1 else 0
  {
    if s != [] {
      assert s == [s[0]] + s[1..];
      CountOnce(s[1..], p);
    }
  }

  /** If each pointer is handed in once, each is in exactly one of the cache, the callers' hands and the dead, once;
      and after the cache is destroyed none is left in it. */
  lemma EachPointerOnce(cfg: Config, limit: nat, events: seq<Event>, p: Pointer)
    requires limit < WIDTH
    requires NoDup(Run(cfg, Empty(limit), events).accepted) && p in Run(cfg, Empty(limit), events).accepted
    ensures var c := Run(cfg, Empty(limit), events);
            multiset(Contents(c.entries))[p] + multiset(c.detached)[p] + multiset(c.deleted)[p] == 1
    ensures var d := Clear(Run(cfg, Empty(limit), events));
            d.entries == [] && multiset(d.detached)[p] + multiset(d.deleted)[p] == 1
  {
    EmptyIsSafe(limit);
    RunsAreSafe(cfg, limit, Empty(limit), events);
    var c := Run(cfg, Empty(limit), events);
    CountOnce(c.accepted, p);
    ApplyKeeps(cfg, c, DoClear);
    assert Contents([]) == [];
  }

  // ---------- Changing the limit ----------

  /** Every entry was used, or added, before any moment of the clock. */
  ghost predicate AllBefore(p: EvictorPolicy, es: seq<Entry>, clock: nat -> nat) {
    forall e <- es, r: nat :: Rank(p, e) < clock(r)
  }

  /** Nobody refuses and everything is in the past: as many entries go as needed, or all of them. */
  lemma {:induction false} AllNeededGo(cfg: Config, c: Cache, needed: nat, clock: nat -> nat, round: nat, refuses: Id -> bool, ok: bool, d: Cache)
    requires Ordered(c.entries) && cfg.evictor != NoEvictor && AllBefore(cfg.evictor, c.entries, clock) && NobodyRefuses(refuses)
    requires EvictSome(cfg, c, needed, clock, round, refuses) == (ok, d)
    ensures |d.entries| == if needed < |c.entries| then |c.entries| - needed else 0
    decreases |c.entries|
  {
    if needed > 0 && |c.entries| > 0 {
      SomebodyGoes(cfg.evictor, c, clock, round);
      OneGoes(cfg, c, needed, clock, round, refuses);
      var less := Erase(c, Worst(cfg.evictor, c.entries, clock(round)).value);
      AllNeededGo(cfg, less, needed - 1, clock, round + 1, refuses, ok, d);
    } else {
      NoneToGo(cfg, c, needed, clock, round, refuses);
    }
  }

  ghost predicate NobodyRefuses(refuses: Id -> bool) {
    forall id :: !refuses(id)
  }

  lemma OneGoes(cfg: Config, c: Cache, needed: nat, clock: nat -> nat, round: nat, refuses: Id -> bool)
    requires needed > 0 && NobodyRefuses(refuses) && Worst(cfg.evictor, c.entries, clock(round)).Some?
    ensures EvictSome(cfg, c, needed, clock, round, refuses) ==
            EvictSome(cfg, Erase(c, Worst(cfg.evictor, c.entries, clock(round)).value), needed - 1, clock, round + 1, refuses)
  {
  }

  lemma SomebodyGoes(p: EvictorPolicy, c: Cache, clock: nat -> nat, round: nat)
    requires Ordered(c.entries) && |c.entries| > 0 && p != NoEvictor && AllBefore(p, c.entries, clock)
    ensures Worst(p, c.entries, clock(round)).Some?
    ensures var d := Erase(c, Worst(p, c.entries, clock(round)).value);
            Ordered(d.entries) && |d.entries| == |c.entries| - 1 && AllBefore(p, d.entries, clock)
  {
    WorstGoes(p, c, clock(round));
    OlderThanNow(p, c.entries, clock, round);
    var w := Worst(p, c.entries, clock(round)).value;
    StillBefore(p, c.entries, c.entries[w], Erase(c, w).entries, clock);
  }

  lemma NoneToGo(cfg: Config, c: Cache, needed: nat, clock: nat -> nat, round: nat, refuses: Id -> bool)
    requires needed == 0 || c.entries == []
    ensures EvictSome(cfg, c, needed, clock, round, refuses).1 == c
  {
  }

  lemma StillBefore(p: EvictorPolicy, before: seq<Entry>, w: Entry, after: seq<Entry>, clock: nat -> nat)
    requires AllBefore(p, before, clock) && JustWithout(before, w, after)
    ensures AllBefore(p, after, clock)
  {
  }

  lemma OlderThanNow(p: EvictorPolicy, es: seq<Entry>, clock: nat -> nat, round: nat)
    requires AllBefore(p, es, clock) && |es| > 0 && p != NoEvictor
    ensures !NoneOlder(p, es, clock(round))
  {
    assert es[0] in es;
  }

  /** Nothing goes if everybody refuses, or nothing is ever chosen. */
  lemma NothingGoes(cfg: Config, c: Cache, needed: nat, clock: nat -> nat, refuses: Id -> bool)
    requires cfg.evictor == NoEvictor || forall id :: refuses(id)
    ensures EvictSome(cfg, c, needed, clock, 0, refuses).1 == c
  {
    NeverChosen(c.entries, clock(0));
  }

  lemma {:induction false} NeverChosen(es: seq<Entry>, now: nat)
    ensures Worst(NoEvictor, es, now) == None
  {
    if es != [] {
      NeverChosen(es[..|es| - 1], now);
    }
  }

  /** What setting a limit is for: no more entries than that; 0 stands for no limit. */
  function Wanted(entries: nat, limit: nat): nat {
    if limit == 0 || entries <= limit then entries else limit
  }

  /** Whom an eviction on setting the limit leaves alone whatever happens: an empty cache, one with room for exactly one
      more, and one that never evicts and is not over the limit. */
  predicate LimitIsHarmless(cfg: Config, entries: nat, limit: nat) {
    || entries == 0
    || entries + 1 == limit
    || (limit == 0 && entries + 1 == WIDTH)
    || (cfg.evictor == NoEvictor && Wanted(entries, limit) == entries)
  }

  lemma NeededIsZero(c: Cache)
    requires c.limit < WIDTH && |c.entries| < WIDTH
    ensures Needed(c) == 0 <==> |c.entries| + 1 == c.limit || (c.limit == 0 && |c.entries| + 1 == WIDTH)
  {
  }

  /** Some moment after every entry. */
  lemma {:induction false} LateEnough(p: EvictorPolicy, es: seq<Entry>) returns (now: nat)
    ensures forall e <- es :: Rank(p, e) < now
  {
    if es == [] {
      now := 0;
    } else {
      var n := |es| - 1;
      now := LateEnough(p, es[..n]);
      now := if now > Rank(p, es[n]) then now else Rank(p, es[n]) + 1;
      assert es == es[..n] + [es[n]];
    }
  }

  /** Setting the limit leaves as many entries as it is for, at any time and whoever refuses, exactly if the cache is
      one of those: otherwise it takes entries of a cache that is not over the limit, or one more than it should. */
  lemma SetLimitIsRightIff(cfg: Config, c: Cache, limit: nat)
    requires Ordered(c.entries) && limit < WIDTH && |c.entries| < WIDTH
    ensures (forall clock: nat -> nat, refuses: Id -> bool ::
               |SetLimit(cfg, c, limit, clock, refuses).entries| == Wanted(|c.entries|, limit)) <==>
            LimitIsHarmless(cfg, |c.entries|, limit)
  {
    var d := c.(limit := limit);
    NeededIsZero(d);
    if LimitIsHarmless(cfg, |c.entries|, limit) {
      forall clock: nat -> nat, refuses: Id -> bool
        ensures |SetLimit(cfg, c, limit, clock, refuses).entries| == Wanted(|c.entries|, limit)
      {
        HarmlessLimit(cfg, d, clock, refuses);
      }
    } else {
      var clock, refuses := HarmfulLimit(cfg, d);
      assert |SetLimit(cfg, c, limit, clock, refuses).entries| != Wanted(|c.entries|, limit);
    }
  }

  lemma HarmlessLimit(cfg: Config, c: Cache, clock: nat -> nat, refuses: Id -> bool)
    requires Ordered(c.entries) && c.limit < WIDTH && |c.entries| < WIDTH && LimitIsHarmless(cfg, |c.entries|, c.limit)
    ensures |Evict(cfg, c, clock, refuses).1.entries| == Wanted(|c.entries|, c.limit)
  {
    NeededIsZero(c);
    var n := Needed(c);
    var (ok, d) := Evict(cfg, c, clock, refuses);
    EvictionCounts(cfg, c, n, clock, 0, refuses, ok, d);
    if cfg.evictor == NoEvictor {
      NothingGoes(cfg, c, n, clock, refuses);
    }
  }

  lemma HarmfulLimit(cfg: Config, c: Cache) returns (clock: nat -> nat, refuses: Id -> bool)
    requires Ordered(c.entries) && c.limit < WIDTH && |c.entries| < WIDTH && !LimitIsHarmless(cfg, |c.entries|, c.limit)
    ensures |Evict(cfg, c, clock, refuses).1.entries| != Wanted(|c.entries|, c.limit)
  {
    NeededIsZero(c);
    var n := Needed(c);
    if Wanted(|c.entries|, c.limit) < |c.entries| {
      clock, refuses := _ => 0, _ => true;
      NothingGoes(cfg, c, n, clock, refuses);
    } else {
      var now := LateEnough(cfg.evictor, c.entries);
      clock, refuses := _ => now, _ => false;
      var (ok, d) := EvictSome(cfg, c, n, clock, 0, refuses);
      AllNeededGo(cfg, c, n, clock, 0, refuses, ok, d);
    }
  }

  /** With everything in the past and nobody refusing: a limit reached or passed leaves one entry less than it allows, a
      limit more than one place away empties the cache. */
  lemma SetLimitUsually(cfg: Config, c: Cache, limit: nat, clock: nat -> nat, refuses: Id -> bool)
    requires Ordered(c.entries) && 0 < limit < WIDTH && |c.entries| < WIDTH
    requires cfg.evictor != NoEvictor && AllBefore(cfg.evictor, c.entries, clock) && NobodyRefuses(refuses)
    ensures |SetLimit(cfg, c, limit, clock, refuses).entries| ==
            if |c.entries| + 1 >= limit then limit - 1 else 0
  {
    var d := c.(limit := limit);
    var n := Needed(d);
    assert n == if |c.entries| + 1 >= limit then |c.entries| + 1 - limit else |c.entries| + 1 - limit + WIDTH;
    var (ok, e) := EvictSome(cfg, d, n, clock, 0, refuses);
    AllNeededGo(cfg, d, n, clock, 0, refuses, ok, e);
  }

  /** More than a place short of the limit, evicting says that there is no room, and takes everything that can go. */
  lemma EvictFarBelowLimit(cfg: Config, c: Cache, clock: nat -> nat, refuses: Id -> bool, ok: bool, d: Cache)
    requires Ordered(c.entries) && |c.entries| + 1 < c.limit < WIDTH && Evict(cfg, c, clock, refuses) == (ok, d)
    ensures !ok && |d.entries| <= |c.entries| && TookWorst(cfg.evictor, c.entries, d.entries)
    ensures Stuck(cfg.evictor, d.entries, clock(|c.entries| - |d.entries|), refuses)
  {
    var n := Needed(c);
    assert n > |c.entries|;
    EvictionCounts(cfg, c, n, clock, 0, refuses, ok, d);
    EvictionIs(cfg, c, n, clock, refuses, ok, d);
  }

  /** So raising the limit empties a cache whose entries are all in the past. */
  lemma RaisingLimitEmpties(cfg: Config, c: Cache, limit: nat, clock: nat -> nat)
    requires Inv(c) && |c.entries| + 1 < limit < WIDTH && cfg.evictor != NoEvictor
    requires forall e <- c.entries, r: nat :: Rank(cfg.evictor, e) < clock(r)
    ensures SetLimit(cfg, c, limit, clock, _ => false).entries == []
  {
    var raised := c.(limit := limit);
    var (ok, d) := Evict(cfg, raised, clock, _ => false);
    EvictFarBelowLimit(cfg, raised, clock, _ => false, ok, d);
    NotStuck(cfg.evictor, d.entries, clock(|c.entries| - |d.entries|), _ => false);
  }

  lemma NotStuck(p: EvictorPolicy, es: seq<Entry>, now: nat, refuses: Id -> bool)
    requires Stuck(p, es, now, refuses) && p != NoEvictor
    requires (forall e <- es :: Rank(p, e) < now) && forall id :: !refuses(id)
    ensures es == []
  {
    OlderAll(p, es, now);
    SomeMember(es);
  }

  lemma OlderAll(p: EvictorPolicy, es: seq<Entry>, now: nat)
    ensures NoneOlder(p, es, now) && p != NoEvictor ==> forall e <- es :: Rank(p, e) >= now
  {
  }

  lemma SomeMember(es: seq<Entry>)
    ensures es == [] || exists e :: e in es
  {
    if es != [] {
      assert es[0] in es;
    }
  }
}
