/**
 * The GlobalCache class: a table from string keys to cache entries that
 * callers read and write, and that a housekeeping sweep reconciles.
 *
 * The housekeeping thread, its sleep interval and the lock are not
 * modelled: every operation here runs to completion on its own.
 */
module GlobalCacheModel {
  import opened CachedObjects
  import opened Sweep

  class GlobalCache<V> {
    /** The table of entries (a `Hashtable` in the source). */
    var cache: Store<V>

    /** Creating the cache and calling `init()`: the table starts empty. */
    constructor ()
      ensures cache == map[]
    {
      cache := map[];
    }

    /**
     * `get(id)`: the contents of the entry under `id`, touching it first if it
     * is refreshable. Staleness is not checked. The source dereferences the
     * entry without a null check, so the key must be present.
     */
    method Get(id: string) returns (o: V)
      requires id in cache
      modifies this
      ensures o == old(cache)[id].contents
      ensures cache.Keys == old(cache).Keys
      ensures cache == old(cache)[id := Accessed(old(cache)[id])]
      ensures old(cache)[id].Cached? ==> cache == old(cache)
      ensures old(cache)[id].RefreshableCached? ==> !cache[id].untouched
    {
      var obj := cache[id];
      if obj.RefreshableCached? {
        cache := cache[id := Touch(obj)];
      }
      o := obj.contents;
    }

    /** `put(String, CachedObject)`: the entry `e` replaces whatever was under `id`. */
    method PutEntry(id: string, e: Entry<V>)
      modifies this
      ensures id in cache && cache[id] == e
      ensures cache.Keys == old(cache).Keys + {id}
      ensures forall k :: k in old(cache) && k != id ==> cache[k] == old(cache)[k]
    {
      if id in cache {
        cache := cache - {id};
      }
      cache := cache[id := e];
    }

    /** `put(String, Object)`: a fresh plain entry wrapping `o` replaces whatever was under `id`. */
    method Put(id: string, o: V)
      modifies this
      ensures id in cache && cache[id] == Wrap(o)
      ensures cache.Keys == old(cache).Keys + {id}
      ensures forall k :: k in old(cache) && k != id ==> cache[k] == old(cache)[k]
    {
      if id in cache {
        cache := cache - {id};
      }
      cache := cache[id := Wrap(o)];
    }

    /** `contains(id)`: membership only; nothing is touched. */
    method Contains(id: string) returns (b: bool)
      ensures b <==> id in cache
    {
      b := id in cache;
    }

    /**
     * Time passing between operations (the housekeeping thread sleeps
     * between sweeps): some entries go stale and some refreshable ones stop
     * counting as recently read. No key is added or removed.
     */
    method Elapse(staleNow: set<string>, untouchedNow: set<string>)
      modifies this
      ensures cache == Elapsed(old(cache), staleNow, untouchedNow)
      ensures cache.Keys == old(cache).Keys
    {
      cache := Elapsed(cache, staleNow, untouchedNow);
    }

    /**
     * Phase one of `clearCache`, the part run under the lock: enumerate a
     * snapshot of the keys in an unspecified order, remove evicted entries
     * at once and record the keys due for refresh.
     */
    method SweepLocked() returns (refreshThese: seq<string>)
      modifies this
      ensures cache == Retain(old(cache))
      ensures Distinct(refreshThese)
      ensures (set k | k in refreshThese) == Worklist(old(cache))
      ensures |refreshThese| == |Worklist(old(cache))|
    {
      ghost var m := cache;
      ghost var order: seq<string> := [];
      var keys := cache.Keys;
      refreshThese := [];
      while keys != {}
        invariant Distinct(order)
        invariant forall i :: 0 <= i < |order| ==> order[i] in m
        invariant forall k :: k in m <==> k in keys || k in order
        invariant forall k :: k in keys ==> k !in order
        invariant (cache, refreshThese) == Evict(m, order)
        decreases keys
      {
        var key :| key in keys;
        EvictSnoc(m, order, key);
        var co := cache[key];
        if co.RefreshableCached? {
          if co.untouched {
            cache := cache - {key};
          } else if co.stale {
            refreshThese := refreshThese + [key];
          }
        } else if co.stale {
          cache := cache - {key};
        }
        keys := keys - {key};
        order := order + [key];
      }
      EvictEnumeration(m, order);
      WorklistLength(m, order);
    }

    /**
     * Phase two of `clearCache`: refresh the entry under each recorded key.
     * Looking a key up and casting its entry to a refreshable one must
     * succeed, which is what the precondition demands.
     */
    method RefreshWorklist(refreshThese: seq<string>)
      requires Distinct(refreshThese)
      requires forall k :: k in refreshThese ==> k in cache && cache[k].RefreshableCached?
      modifies this
      ensures cache == RefreshAll(old(cache), set k | k in refreshThese)
    {
      ghost var m := cache;
      var i := 0;
      while i < |refreshThese|
        invariant 0 <= i <= |refreshThese|
        invariant cache.Keys == m.Keys
        invariant forall k :: k in m ==> cache[k] == if k in refreshThese[..i] then Refresh(m[k]) else m[k]
      {
        var key := refreshThese[i];
        assert forall j :: i < j < |refreshThese| ==> refreshThese[j] != key;
        assert refreshThese[..i + 1] == refreshThese[..i] + [key];
        var co := cache[key];
        cache := cache[key := Refresh(co)];
        i := i + 1;
      }
      assert refreshThese[..i] == refreshThese;
      ghost var ks := set k | k in refreshThese;
      assert cache.Keys == RefreshAll(m, ks).Keys;
    }

    /** `clearCache()`: both phases, one after the other. */
    method ClearCache()
      modifies this
      ensures cache == Swept(old(cache))
      ensures cache.Keys <= old(cache).Keys
      ensures forall k :: k in cache ==> !Evicted(cache[k])
    {
      ghost var m := cache;
      var refreshThese := SweepLocked();
      WorklistSafe(m);
      RefreshWorklist(refreshThese);
      TwoPhases(m);
    }
  }

  /**
   * A plain entry's life: readable while fresh, still readable once stale,
   * and gone after the first sweep that finds it stale.
   */
  method PlainLifecycle<V>(o: V) returns (before: V, staleRead: V, afterSweep: bool)
    ensures before == o && staleRead == o
    ensures !afterSweep
  {
    var c := new GlobalCache<V>();
    c.Put("k", o);
    c.ClearCache();
    before := c.Get("k");
    c.Elapse({"k"}, {});
    staleRead := c.Get("k");
    c.ClearCache();
    afterSweep := c.Contains("k");
  }

  /**
   * A refreshable entry's life: read and gone stale, the sweep refreshes it;
   * left unread afterwards, the next sweep reclaims it.
   */
  method RefreshableLifecycle<V>(o: V) returns (refreshed: bool, reclaimed: bool)
    ensures refreshed && reclaimed
  {
    var c := new GlobalCache<V>();
    c.PutEntry("k", RefreshableCached(o, false, true, 0));
    var _ := c.Get("k");
    c.Elapse({"k"}, {});
    c.ClearCache();
    refreshed := "k" in c.cache && c.cache["k"].RefreshableCached? && c.cache["k"].refreshes == 1 && !c.cache["k"].stale;
    c.Elapse({}, {"k"});
    c.ClearCache();
    var present := c.Contains("k");
    reclaimed := !present;
  }
}
