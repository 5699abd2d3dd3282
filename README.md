# GlobalCache: a time-aware key/value cache and its housekeeping sweep

This project models `org.apache.velocity.util.cache.GlobalCache`, an
in-process cache that maps string keys to cache entries. Callers `put`,
`get` and ask whether the cache `contains` a key. A housekeeping thread
calls `clearCache` at intervals. That sweep drops refreshable entries
nobody has read and plain entries that have gone stale. It also collects the
keys of refreshable entries that are stale but were read. After leaving
the locked enumeration it refreshes those entries.

Files:

- `cached_object.dfy` (module `CachedObjects`): the two kinds of entry as
  one closed datatype, `Entry<V>`. A `Cached` entry is a plain
  `CachedObject`; a `RefreshableCached` entry is a `RefreshableCachedObject`.
  The module also holds the effect of `touch()`, `refresh()` and passing
  time (`Age`) and the
  sweep's per-entry decisions (`Evicted`, `NeedsRefresh`).
- `sweep.dfy` (module `Sweep`): what one sweep does to a map of entries.
  `Retain` is the map phase one leaves, `Worklist` the keys it collects,
  `RefreshAll` phase two and `Swept` the whole sweep. `Visit` and `Evict`
  replay phase one in one given enumeration order; the lemmas show that the
  order does not matter. `Elapsed` is time passing over the table, and the
  lifecycle lemmas follow entries across several sweeps.
- `global_cache.dfy` (module `GlobalCacheModel`): the class `GlobalCache`
  with its `cache` map field and the operations that update it in place.
  `clearCache` is split into its locked phase (`SweepLocked`, which builds
  the worklist) and its refresh phase (`RefreshWorklist`). `ClearCache` runs
  the two in order.

Modelling choices:

- An entry's `stale` flag stands for the answer `isStale()` would give now,
  and its `untouched` flag for the answer of `isUntouched()`. No clock is
  modelled. Instead, `Elapse` makes time pass between operations: it names
  the entries that have gone stale and the refreshable entries that have not
  been read recently enough. Time only sets the two flags; `touch()` clears
  `untouched` and `refresh()` clears `stale`. A plain entry made by
  `put(String, Object)` is taken to be fresh when it is made.
- `touch()` makes a refreshable entry count as read. `refresh()` clears
  `stale` and counts one more refresh in `refreshes`; the payload object
  keeps its identity and `untouched` is left as it was.
- Phase one enumerates a snapshot of the key set with a nondeterministic
  choice (`:|`), so its proof holds for every enumeration order.
- `get` on a missing key dereferences a null entry in the source. The null
  check there is commented out. `Get` therefore requires the key to be
  present. Callers must use `contains` first.
- The Javadoc of `get` (GlobalCache.java:138-139) promises an
  `ObjectExpiredException` for a missing key, but the check that would throw
  it is commented out (149-155). The model follows the code, not the Javadoc.
- Phase two (271-273) looks each recorded key up and casts its entry without
  any check. The model proves that, run alone, the lookup and the cast always
  succeed.

## Model

| member | source | states |
|---|---|---|
| `CachedObjects.Wrap` | src/java/org/apache/velocity/util/cache/GlobalCache.java:206 | the entry `put(String, Object)` stores is a plain entry holding exactly `o`, fresh when made, so no sweep evicts it until time makes it stale |
| `CachedObjects.Touch` | src/java/org/apache/velocity/util/cache/GlobalCache.java:165-170 | touching a refreshable entry makes it read (not untouched) and changes neither its contents nor its staleness nor its refresh count |
| `CachedObjects.Refresh` | src/java/org/apache/velocity/util/cache/GlobalCache.java:271-273 | refreshing a refreshable entry makes it not stale, counts one more refresh, and keeps its contents and its touched state |
| `CachedObjects.Accessed` | src/java/org/apache/velocity/util/cache/GlobalCache.java:165-170 | the entry after a `get`: same contents and kind; a plain entry exactly as it was; a refreshable one read, with its staleness and refresh count kept |
| `CachedObjects.AccessedKeepsEntry` | src/java/org/apache/velocity/util/cache/GlobalCache.java:157-172 | a read refreshable entry is not evictable, and it is due for refresh exactly when stale, because `get` does not check staleness |
| `CachedObjects.Age` | src/java/org/apache/velocity/util/cache/GlobalCache.java:227 | time passing can only make an entry stale or, if refreshable, untouched; contents, kind and refresh count stay, and with nothing elapsed the entry is unchanged |
| `CachedObjects.Evicted` | src/java/org/apache/velocity/util/cache/GlobalCache.java:251-264 | the condition under which phase one removes an entry at once; a read refreshable entry and a fresh plain entry are never removed |
| `CachedObjects.NeedsRefresh` | src/java/org/apache/velocity/util/cache/GlobalCache.java:256-259 | the condition under which phase one records a key; such an entry is refreshable and never also removed, and a plain entry never qualifies |
| `CachedObjects.RefreshSettles` | src/java/org/apache/velocity/util/cache/GlobalCache.java:268-274 | after a refresh an entry is no longer due for refresh; a refresh is not a read, so once time makes the refreshed entry untouched it is evictable; read after the refresh it is kept, and due for refresh again once stale |
| `Sweep.Retain` | src/java/org/apache/velocity/util/cache/GlobalCache.java:247-265 | phase one keeps a key exactly when its entry is not evicted, keeps that entry unchanged, and adds no key |
| `Sweep.Worklist` | src/java/org/apache/velocity/util/cache/GlobalCache.java:256-259 | a key is recorded for refresh exactly when its entry is refreshable, read and stale; every recorded key survives phase one |
| `Sweep.RefreshAll` | src/java/org/apache/velocity/util/cache/GlobalCache.java:268-274 | phase two keeps the key set; each listed entry becomes refreshable, not stale, with the same contents; every other entry is unchanged |
| `Sweep.Swept` | src/java/org/apache/velocity/util/cache/GlobalCache.java:240-275 | after a sweep, a key remains exactly when its entry was not evicted; no untouched refreshable entry, no stale plain entry and no entry due for refresh remains; contents and kinds are kept |
| `Sweep.Visit` | src/java/org/apache/velocity/util/cache/GlobalCache.java:249-264 | one loop step removes the visited key exactly when its entry is evicted, touches no other key, and appends the key to the worklist exactly when its entry is due for refresh |
| `Sweep.Evict` | src/java/org/apache/velocity/util/cache/GlobalCache.java:247-265 | phase one run in a given order filters the map key by key (visited evicted keys go, all else stays unchanged) and builds a duplicate-free worklist of exactly the visited keys due for refresh |
| `Sweep.EvictEnumeration` | src/java/org/apache/velocity/util/cache/GlobalCache.java:247-265 | a full enumeration leaves `Retain(m)` and collects exactly `Worklist(m)` |
| `Sweep.EvictOrderIndependent` | src/java/org/apache/velocity/util/cache/GlobalCache.java:247-265 | any two enumeration orders give the same map and the same worklist keys |
| `Sweep.WorklistLength` | src/java/org/apache/velocity/util/cache/GlobalCache.java:256-259 | in any full enumeration the worklist has exactly as many elements as there are entries due for refresh: each such key is recorded once |
| `Sweep.WorklistSafe` | src/java/org/apache/velocity/util/cache/GlobalCache.java:268-274 | every recorded key is still present after phase one and holds a refreshable entry, so the lookup and the cast in phase two succeed |
| `Sweep.TwoPhases` | src/java/org/apache/velocity/util/cache/GlobalCache.java:240-275 | phase one followed by phase two on its worklist is the whole sweep `Swept` |
| `Sweep.SweptIdempotent` | src/java/org/apache/velocity/util/cache/GlobalCache.java:240-275 | a second sweep with nothing read or gone stale in between changes nothing |
| `Sweep.SweptPointwise` | src/java/org/apache/velocity/util/cache/GlobalCache.java:247-265 | sweeping two disjoint parts of a map separately and joining them equals sweeping the whole map: each key's fate depends only on its own entry |
| `Sweep.ReadKeepsAlive` | src/java/org/apache/velocity/util/cache/GlobalCache.java:251-259 | a refreshable entry read before a sweep survives it, refreshed if stale; one never read does not survive |
| `Sweep.Elapsed` | src/java/org/apache/velocity/util/cache/GlobalCache.java:227 | time passing over the whole table: the key set, contents and kinds stay; the named entries become stale or untouched; every other entry is unchanged |
| `Sweep.ExpiredPlainEvicted` | src/java/org/apache/velocity/util/cache/GlobalCache.java:261-264 | a plain entry that has gone stale is gone after the next sweep |
| `Sweep.UnreadRefreshableReclaimed` | src/java/org/apache/velocity/util/cache/GlobalCache.java:251-255 | a refreshable entry not read recently enough is reclaimed by the next sweep, stale or not; one `get` before that sweep keeps it |
| `Sweep.RefreshedUnreadReclaimed` | src/java/org/apache/velocity/util/cache/GlobalCache.java:254-259 | an entry refreshed by one sweep is kept with one more refresh, and if it then goes unread the following sweep reclaims it |
| `Sweep.UnchangedEntriesKept` | src/java/org/apache/velocity/util/cache/GlobalCache.java:247-265 | an entry kept by one sweep that time has not changed is kept by the next sweep unchanged |
| `GlobalCacheModel.GlobalCache.constructor` | src/java/org/apache/velocity/util/cache/GlobalCache.java:112-117 | the cache starts with an empty table |
| `GlobalCacheModel.GlobalCache.Get` | src/java/org/apache/velocity/util/cache/GlobalCache.java:142-173 | on a present key, returns that entry's contents whether stale or not; keeps the key set; touches a refreshable entry and changes nothing else; leaves the table unchanged for a plain entry |
| `GlobalCacheModel.GlobalCache.PutEntry` | src/java/org/apache/velocity/util/cache/GlobalCache.java:181-190 | afterwards the key holds exactly the given entry, the key set grows by at most that key, and every other entry is unchanged |
| `GlobalCacheModel.GlobalCache.Put` | src/java/org/apache/velocity/util/cache/GlobalCache.java:198-207 | afterwards the key holds exactly a fresh plain entry wrapping the value, the key set grows by at most that key, and every other entry is unchanged |
| `GlobalCacheModel.GlobalCache.Contains` | src/java/org/apache/velocity/util/cache/GlobalCache.java:209-212 | returns true exactly when the key is present, and changes nothing |
| `GlobalCacheModel.GlobalCache.Elapse` | src/java/org/apache/velocity/util/cache/GlobalCache.java:227 | the table becomes `Elapsed` of the old one and keeps its key set |
| `GlobalCacheModel.GlobalCache.SweepLocked` | src/java/org/apache/velocity/util/cache/GlobalCache.java:242-266 | in any enumeration order, leaves `Retain` of the old table and returns a duplicate-free worklist holding exactly `Worklist` of the old table, one element per key |
| `GlobalCacheModel.GlobalCache.RefreshWorklist` | src/java/org/apache/velocity/util/cache/GlobalCache.java:268-274 | given distinct present keys of refreshable entries, refreshes exactly those entries and nothing else |
| `GlobalCacheModel.GlobalCache.ClearCache` | src/java/org/apache/velocity/util/cache/GlobalCache.java:240-275 | the table becomes `Swept` of the old one: its key set shrinks or stays, and no evictable entry remains |
| `GlobalCacheModel.PlainLifecycle` | src/java/org/apache/velocity/util/cache/GlobalCache.java:198-235 | a value put into a fresh cache survives a sweep, is still returned by `get` once stale, and is gone after the next sweep |
| `GlobalCacheModel.RefreshableLifecycle` | src/java/org/apache/velocity/util/cache/GlobalCache.java:142-274 | a refreshable entry that is read and goes stale is refreshed by the sweep; left unread afterwards, it is reclaimed by the next sweep |

## Left out

- `run()`: the endless loop, the `Thread.sleep` call itself and the ignored `InterruptedException` are thread plumbing and are left out. The time that passes while the thread sleeps (227) is modelled by `Elapse`, and so is the clock that `isStale()` and `isUntouched()` read at 254, 256 and 261.
- The housekeeping thread started by `init()`: the constructor models only the creation of the table.
- The `synchronized (this)` block and all concurrency: every operation, and each sweep phase, runs atomically and alone. A `put` or a sweep running between the two phases could remove a recorded key or replace its entry by a plain one. The source would then fail in phase two; the model does not capture that. Nor does the lock protect phase one: `put`, `get` and `contains` (181-212) never synchronize on the cache, so they can change the table while phase one enumerates it, whatever the comment at 243-244 says.
- `setCacheCheckFrequency`, the `cacheCheckFrequency` field and the constants `EXPIRABLE`, `REFRESHABLE` and `PERMANENT`: the interval only feeds the sleep, and the constants are never used.
- The commented-out `ObjectExpiredException` checks in `get`: they are not current behaviour.
- `GlobalCacheModel.GlobalCache.PutEntry`: entries are values, so Java's object sharing is not modelled. In the source, one `RefreshableCachedObject` stored under two keys is a single object, so a `get` through one key touches it under both; in the model each key holds its own copy. Likewise a caller that keeps the object it stored can touch or refresh it later, outside the cache. Storing `null`, which makes `Hashtable.put` at 189 throw `NullPointerException`, is not modelled either. Nor is calling any operation before `init()`, when the table is still null (83, 96-98) and every operation throws. A second `init()` would replace the table with an empty one (117); that is not modelled.
- `GlobalCacheModel.GlobalCache.ClearCache`: the entry calls `isStale()`, `isUntouched()`, `touch()` and `refresh()` are taken to return normally. In the source, phase two (268-274) has no try/catch. If `refresh()` throws for one key, the keys after it in the worklist are not refreshed and `clearCache` ends with that exception. `run()` catches only the `InterruptedException` around the sleep (225-231), so the exception also ends the housekeeping thread, and no sweep runs after that. `ClearCache`'s promise that every recorded key is refreshed holds only when no entry call throws. A throwing `isStale()` or `isUntouched()` in phase one, or a throwing `touch()` in `get`, is not modelled either.
- Null keys: keys are Dafny strings, which cannot be null. In the source, a null key makes the table's `get` and `containsKey` throw `NullPointerException` (147, 185, 202, 211).
- `GlobalCacheModel.GlobalCache.Elapse`: which entries go stale or unread is chosen by the caller rather than computed from timestamps and times to live, because those live in the entry classes, which are not part of this model.
- The internals of `CachedObject` and `RefreshableCachedObject` (`isStale`, `isUntouched`, `touch`, `refresh`, `getContents`): those classes are not part of this model. Staleness and touch state are flags; refresh does not recompute the payload here.
- The Hashtable's initial capacity (20) and the worklist's initial capacity (20): they do not affect behaviour.
- `StrictAlternateValuesTestCase.java`: it tests template evaluation in a different component and has no logic of its own to model.
