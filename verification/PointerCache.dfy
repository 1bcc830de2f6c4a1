/** The pointer cache's class (libs/cache/ot-cache.h); each method is proved to compute the operation of
    `CacheModel` and to keep its invariant.  The map is held as its entries in the order of their IDs. */
module PointerCaches {
  import opened CacheModel
  import opened CacheSafety
  import opened Options
  import opened Sequences

  class PointerCache {
    const cfg: Config
    var limit: nat
    var entries: seq<Entry>
    // What became of the pointers; the source keeps no record of it.
    ghost var accepted: seq<Pointer>
    ghost var detached: seq<Pointer>
    ghost var deleted: seq<Pointer>

    ghost function Now(): Cache
      reads this
    {
      Cache(limit, entries, accepted, detached, deleted)
    }

    ghost predicate Valid()
      reads this
    {
      limit < WIDTH && Inv(Now())
    }

    constructor (cfg: Config, limit: nat)
      requires limit < WIDTH
      ensures this.cfg == cfg && Valid() && Now() == Empty(limit)
    {
      this.cfg, this.limit := cfg, limit;
      entries, accepted, detached, deleted := [], [], [], [];
      new;
      EmptyIsSafe(limit);
    }

    /** Show the policy all the entries, and let it choose the worst. */
    method FindWorst(now: nat) returns (worst: Option<nat>)
      ensures worst == Worst(cfg.evictor, entries, now)
    {
      worst := None;
      var bound := now;
      var p := 0;
      while p < |entries|
        invariant 0 <= p <= |entries| && worst == Worst(cfg.evictor, entries[..p], now)
        invariant bound == if worst.Some? then Rank(cfg.evictor, entries[worst.value]) else now
      {
        assert entries[..p + 1][..p] == entries[..p];
        if cfg.evictor != NoEvictor && Rank(cfg.evictor, entries[p]) < bound {
          worst, bound := Some(p), Rank(cfg.evictor, entries[p]);
        }
        p := p + 1;
      }
      assert entries[..p] == entries;
    }

    /** Take an entry out of the map and delete what it points to. */
    method EraseAt(i: nat)
      requires i < |entries|
      modifies this`entries, this`deleted
      ensures Now() == Erase(old(Now()), i)
    {
      deleted := deleted + [entries[i].content];
      entries := entries[..i] + entries[i + 1..];
    }

    /** Evict the worst entry again and again, until as many are gone as needed. */
    method EvictWorst(needed: nat, clock: nat -> nat, refuses: Id -> bool) returns (room: bool)
      modifies this`entries, this`deleted
      ensures (room, Now()) == EvictSome(cfg, old(Now()), needed, clock, 0, refuses)
    {
      var left, round := needed, 0;
      while left > 0
        invariant 0 <= left && 0 <= round
        invariant EvictSome(cfg, old(Now()), needed, clock, 0, refuses) == EvictSome(cfg, Now(), left, clock, round, refuses)
      {
        var worst := FindWorst(clock(round));
        if worst.None? || refuses(entries[worst.value].id) {
          return false;
        }
        EraseAt(worst.value);
        left, round := left - 1, round + 1;
      }
      return true;
    }

    method Evict(clock: nat -> nat, refuses: Id -> bool) returns (room: bool)
      modifies this`entries, this`deleted
      ensures (room, Now()) == CacheModel.Evict(cfg, old(Now()), clock, refuses)
    {
      room := EvictWorst((|entries| - limit + 1) % WIDTH, clock, refuses);
    }

    /** Take a pointer under an ID; what was there is deleted.  Fails if the limit is reached and nothing can go. */
    method Add(id: Id, content: Pointer, now: nat, clock: nat -> nat, refuses: Id -> bool) returns (ok: bool)
      requires Valid()
      modifies this`entries, this`accepted, this`deleted
      ensures Valid() && (ok, Now()) == CacheModel.Add(cfg, old(Now()), id, content, now, clock, refuses)
      ensures limit > 0 ==> |entries| <= limit
    {
      AddKeeps(cfg, Now(), id, content, now, clock, refuses);
      ok := Take(id, content, now, clock, refuses);
    }

    method Take(id: Id, content: Pointer, now: nat, clock: nat -> nat, refuses: Id -> bool) returns (ok: bool)
      modifies this`entries, this`accepted, this`deleted
      ensures (ok, Now()) == CacheModel.Add(cfg, old(Now()), id, content, now, clock, refuses)
    {
      Drop(id);
      if limit > 0 && |entries| >= limit {
        var room := Evict(clock, refuses);
        if !room {
          return false;
        }
      }
      entries := Put(entries, Entry(id, content, now, now, 0));
      accepted := accepted + [content];
      return true;
    }

    method Drop(id: Id)
      modifies this`entries, this`deleted
      ensures Now() == CacheModel.Remove(old(Now()), id)
    {
      if Has(entries, id) {
        EraseAt(Find(entries, id));
      }
    }

    method Remove(id: Id)
      requires Valid()
      modifies this`entries, this`deleted
      ensures Valid() && Now() == CacheModel.Remove(old(Now()), id) && !Has(entries, id)
    {
      RemoveKeeps(Now(), id);
      Drop(id);
    }

    /** Give a pointer back to the caller. */
    method Detach(id: Id) returns (r: Option<Pointer>)
      requires Valid()
      modifies this`entries, this`detached
      ensures Valid() && Now() == CacheModel.Detach(old(Now()), id)
      ensures detached == old(detached) + if r.Some? then [r.value] else []
    {
      RemoveKeeps(Now(), id);
      r := TakeOut(id);
    }

    method TakeOut(id: Id) returns (r: Option<Pointer>)
      modifies this`entries, this`detached
      ensures Now() == CacheModel.Detach(old(Now()), id)
      ensures detached == old(detached) + if r.Some? then [r.value] else []
    {
      if Has(entries, id) {
        var i := Find(entries, id);
        r := Some(entries[i].content);
        entries := entries[..i] + entries[i + 1..];
        detached := detached + [r.value];
      } else {
        r := None;
        assert detached + [] == detached;
      }
    }

    method Touch(id: Id, now: nat) returns (found: bool)
      requires Valid()
      modifies this`entries
      ensures Valid() && found == Has(old(entries), id) && Now() == CacheModel.Touch(old(Now()), id, now)
    {
      TouchKeeps(Now(), id, now);
      found := MarkUsed(id, now);
    }

    method MarkUsed(id: Id, now: nat) returns (found: bool)
      modifies this`entries
      ensures found == Has(old(entries), id) && Now() == CacheModel.Touch(old(Now()), id, now)
    {
      found := Has(entries, id);
      if found {
        var i := Find(entries, id);
        entries := entries[i := entries[i].(used := now, uses := entries[i].uses + 1)];
      }
    }

    /** Remove what the policy does not keep, going through the map once. */
    method Tidy(now: nat, refuses: Id -> bool)
      requires Valid()
      modifies this`entries, this`deleted
      ensures Valid() && Now() == TidyFrom(cfg, old(Now()), 0, now, refuses)
      ensures entries == Kept(cfg, old(entries), now, refuses)
    {
      TidyKeeps(cfg, Now(), 0, now, refuses);
      ApplyKeeps(cfg, Now(), DoTidy(now, refuses));
      assert entries[0..] == entries && entries[..0] + Kept(cfg, entries, now, refuses) == Kept(cfg, entries, now, refuses);
      Sweep(now, refuses);
    }

    method Sweep(now: nat, refuses: Id -> bool)
      modifies this`entries, this`deleted
      ensures Now() == TidyFrom(cfg, old(Now()), 0, now, refuses)
    {
      ghost var goal := TidyFrom(cfg, Now(), 0, now, refuses);
      var p := 0;
      while p < |entries|
        invariant 0 <= p <= |entries| && TidyFrom(cfg, Now(), p, now, refuses) == goal
        decreases |entries| - p
      {
        if !Keep(cfg.tidy, entries[p], now) && !refuses(entries[p].id) {
          EraseAt(p);
        } else {
          p := p + 1;
        }
      }
    }

    /** Delete every pointer and empty the map. */
    method Clear()
      requires Valid()
      modifies this`entries, this`deleted
      ensures Valid() && Now() == CacheModel.Clear(old(Now()))
    {
      ApplyKeeps(cfg, Now(), DoClear);
      DeleteAll();
      entries := [];
    }

    method DeleteAll()
      modifies this`deleted
      ensures deleted == old(deleted) + Contents(entries)
    {
      ghost var all := Contents(entries);
      var p := 0;
      assert deleted + [] == deleted;
      while p < |entries|
        invariant 0 <= p <= |all| && deleted == old(deleted) + all[..p]
      {
        Assoc(old(deleted), all[..p], [entries[p].content]);
        assert all[..p + 1] == all[..p] + [entries[p].content];
        deleted := deleted + [entries[p].content];
        p := p + 1;
      }
      assert all[..p] == all;
    }

    /** Set the limit, evicting as the unsigned difference says. */
    method SetLimit(newLimit: nat, clock: nat -> nat, refuses: Id -> bool)
      requires newLimit < WIDTH
      modifies this`limit, this`entries, this`deleted
      ensures Now() == CacheModel.SetLimit(cfg, old(Now()), newLimit, clock, refuses)
    {
      limit := newLimit;
      var room := Evict(clock, refuses);
    }
  }
}
