/**
 * The two kinds of entry a GlobalCache stores, and the per-entry decisions
 * its housekeeping sweep makes.
 *
 * `CachedObject` and `RefreshableCachedObject` are not part of this model;
 * only the way GlobalCache uses them is. An entry's `stale` flag stands for
 * the answer `isStale()` gives at the moment it is asked (no clock is
 * modelled), `untouched` for the answer of `isUntouched()`, and `refreshes`
 * counts how often `refresh()` has been applied.
 */
module CachedObjects {

  datatype Entry<V> =
    | Cached(contents: V, stale: bool)
    | RefreshableCached(contents: V, stale: bool, untouched: bool, refreshes: nat)

  /** The plain entry that `put(String, Object)` wraps a value in; a new entry is fresh. */
  function Wrap<V>(o: V): (e: Entry<V>)
    ensures e.Cached? && e.contents == o && !Evicted(e)
  {
    Cached(o, false)
  }

  /** `touch()` on a refreshable entry: it now counts as read. */
  function Touch<V>(e: Entry<V>): (r: Entry<V>)
    requires e.RefreshableCached?
    ensures r.RefreshableCached? && !r.untouched
    ensures r.contents == e.contents && r.stale == e.stale && r.refreshes == e.refreshes
  {
    e.(untouched := false)
  }

  /**
   * `refresh()` on a refreshable entry: the entry recomputes its own payload
   * (the payload object keeps its identity) and its staleness clock restarts.
   * A refresh is not a read, so `untouched` is left as it was.
   */
  function Refresh<V>(e: Entry<V>): (r: Entry<V>)
    requires e.RefreshableCached?
    ensures r.RefreshableCached? && !r.stale && r.refreshes == e.refreshes + 1
    ensures r.contents == e.contents && r.untouched == e.untouched
  {
    e.(stale := false, refreshes := e.refreshes + 1)
  }

  /** What a `get` does to the entry it reads: refreshable entries are touched, plain ones are left alone. */
  function Accessed<V>(e: Entry<V>): (r: Entry<V>)
    ensures r.contents == e.contents && r.Cached? == e.Cached?
    ensures e.Cached? ==> r == e
    ensures e.RefreshableCached? ==> !r.untouched && r.stale == e.stale && r.refreshes == e.refreshes
  {
    if e.RefreshableCached? then Touch(e) else e
  }

  /**
   * Time passing for one entry: it may go stale, and a refreshable one may
   * fall back to untouched because it has not been read recently enough.
   * Passing time never makes an entry fresh or read; the payload, the kind
   * and the refresh count stay as they are.
   */
  function Age<V>(e: Entry<V>, goesStale: bool, goesUntouched: bool): (r: Entry<V>)
    ensures r.contents == e.contents && r.Cached? == e.Cached?
    ensures e.stale ==> r.stale
    ensures goesStale ==> r.stale
    ensures e.RefreshableCached? ==> r.refreshes == e.refreshes && (e.untouched || goesUntouched ==> r.untouched)
    ensures !goesStale && !goesUntouched ==> r == e
  {
    match e
    case Cached(c, s) => Cached(c, s || goesStale)
    case RefreshableCached(c, s, u, n) => RefreshableCached(c, s || goesStale, u || goesUntouched, n)
  }

  /**
   * The sweep removes an entry at once: a refreshable one nobody read, or a
   * stale plain one. Staleness alone never removes a refreshable entry.
   */
  predicate Evicted<V>(e: Entry<V>)
    ensures e.RefreshableCached? && !e.untouched ==> !Evicted(e)
    ensures e.Cached? && !e.stale ==> !Evicted(e)
  {
    match e
    case RefreshableCached(_, _, untouched, _) => untouched
    case Cached(_, stale) => stale
  }

  /**
   * The sweep puts the entry's key on its refresh worklist: refreshable, read,
   * and stale. Such an entry is never also evicted, and it is refreshable, so
   * the cast before `refresh()` succeeds.
   */
  predicate NeedsRefresh<V>(e: Entry<V>)
    ensures NeedsRefresh(e) ==> e.RefreshableCached? && !Evicted(e)
    ensures e.Cached? ==> !NeedsRefresh(e)
  {
    e.RefreshableCached? && !e.untouched && e.stale
  }

  /** A read refreshable entry is not evicted, and is due for refresh exactly when stale. */
  lemma AccessedKeepsEntry<V>(e: Entry<V>)
    requires e.RefreshableCached?
    ensures !Evicted(Accessed(e))
    ensures NeedsRefresh(Accessed(e)) == e.stale
  {
  }

  /**
   * After a refresh the entry is no longer due for refresh. Refreshing is not
   * a read: once time makes the refreshed entry untouched again (no read
   * since), the next sweep reclaims it; read and gone stale again, it is
   * refreshed again.
   */
  lemma RefreshSettles<V>(e: Entry<V>)
    requires e.RefreshableCached?
    ensures !NeedsRefresh(Refresh(e))
    ensures Evicted(Refresh(e)) == Evicted(e)
    ensures Evicted(Age(Refresh(e), false, true))
    ensures !Evicted(Touch(Refresh(e))) && !NeedsRefresh(Touch(Refresh(e)))
    ensures NeedsRefresh(Age(Touch(Refresh(e)), true, false))
  {
  }
}
