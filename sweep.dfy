/**
 * One housekeeping sweep of a GlobalCache (`clearCache`), stated on the map
 * of entries it starts from.
 *
 * Phase one walks the keys in whatever order the table enumerates them,
 * removes the entries `Evicted` picks, and collects the keys of the entries
 * `NeedsRefresh` picks; phase two refreshes each collected key. `Visit` and
 * `Evict` replay phase one in one given order; `Retain`, `Worklist` and
 * `Swept` say what the sweep produces without any order.
 */
module Sweep {
  import opened CachedObjects

  type Store<V> = map<string, Entry<V>>

  predicate Distinct(s: seq<string>)
  {
    forall i, j :: 0 <= i < j < |s| ==> s[i] != s[j]
  }

  /** What phase one leaves in the map: every entry the sweep does not evict, unchanged. */
  function Retain<V>(m: Store<V>): (r: Store<V>)
    ensures r.Keys <= m.Keys
    ensures forall k :: k in m ==> (k in r <==> !Evicted(m[k]))
    ensures forall k :: k in r ==> r[k] == m[k]
  {
    map k | k in m && !Evicted(m[k]) :: m[k]
  }

  /** The keys phase one records for refreshing. */
  function Worklist<V>(m: Store<V>): (ks: set<string>)
    ensures ks <= Retain(m).Keys
    ensures forall k :: k in ks <==> k in m && m[k].RefreshableCached? && !m[k].untouched && m[k].stale
  {
    set k | k in m && NeedsRefresh(m[k])
  }

  /** Phase two: refresh the entry under each key of `ks`; every other entry stays as it is. */
  function RefreshAll<V>(m: Store<V>, ks: set<string>): (r: Store<V>)
    requires forall k :: k in ks && k in m ==> m[k].RefreshableCached?
    ensures r.Keys == m.Keys
    ensures forall k :: k in m && k !in ks ==> r[k] == m[k]
    ensures forall k :: k in m && k in ks ==> r[k].RefreshableCached? && !r[k].stale && r[k].contents == m[k].contents
  {
    map k | k in m :: if k in ks then Refresh(m[k]) else m[k]
  }

  /** The map after a whole sweep. */
  function Swept<V>(m: Store<V>): (r: Store<V>)
    ensures r.Keys <= m.Keys
    ensures forall k :: k in m ==> (k in r <==> !Evicted(m[k]))
    ensures forall k :: k in r ==> !Evicted(r[k]) && !NeedsRefresh(r[k])
    ensures forall k :: k in r ==> r[k].contents == m[k].contents && r[k].Cached? == m[k].Cached?
  {
    map k | k in m && !Evicted(m[k]) :: if NeedsRefresh(m[k]) then Refresh(m[k]) else m[k]
  }

  /**
   * One step of phase one on the key `key`, as the body of the enumeration
   * loop takes it: the current map `c` and worklist `work` become `r`.
   */
  function Visit<V>(c: Store<V>, work: seq<string>, key: string): (r: (Store<V>, seq<string>))
    requires key in c
    ensures key in r.0 <==> !Evicted(c[key])
    ensures key in r.0 ==> r.0[key] == c[key]
    ensures forall k :: k != key ==> (k in r.0 <==> k in c) && (k in r.0 ==> r.0[k] == c[k])
    ensures r.1 == if NeedsRefresh(c[key]) then work + [key] else work
  {
    var co := c[key];
    if co.RefreshableCached? then
      if co.untouched then (c - {key}, work)
      else if co.stale then (c, work + [key])
      else (c, work)
    else if co.stale then (c - {key}, work)
    else (c, work)
  }

  /**
   * Phase one run on `m` visiting the keys in `order` (each once): the map
   * it leaves and the worklist it builds. Whatever the order, the map is `m`
   * filtered entry by entry, and the worklist holds exactly the visited
   * keys due for refresh, each once.
   */
  function Evict<V>(m: Store<V>, order: seq<string>): (r: (Store<V>, seq<string>))
    requires Distinct(order)
    requires forall i :: 0 <= i < |order| ==> order[i] in m
    ensures r.0.Keys <= m.Keys
    ensures forall k :: k in m ==> (k in r.0 <==> k !in order || !Evicted(m[k]))
    ensures forall k :: k in r.0 ==> r.0[k] == m[k]
    ensures Distinct(r.1)
    ensures forall k :: k in r.1 <==> k in order && NeedsRefresh(m[k])
    decreases |order|
  {
    if order == [] then (m, [])
    else
      var prefix := order[..|order| - 1];
      var last := order[|order| - 1];
      SplitLast(order);
      var (c, work) := Evict(m, prefix);
      assert last in c;
      Visit(c, work, last)
  }

  /** Taking the last key off a duplicate-free order leaves a duplicate-free prefix without that key. */
  lemma SplitLast(order: seq<string>)
    requires Distinct(order) && order != []
    ensures Distinct(order[..|order| - 1])
    ensures forall i :: 0 <= i < |order| - 1 ==> order[..|order| - 1][i] == order[i]
    ensures order[|order| - 1] !in order[..|order| - 1]
    ensures forall k :: k in order <==> k in order[..|order| - 1] || k == order[|order| - 1]
  {
    assert order == order[..|order| - 1] + [order[|order| - 1]];
  }

  /** Visiting one more key extends phase one by one loop step. */
  lemma EvictSnoc<V>(m: Store<V>, order: seq<string>, key: string)
    requires Distinct(order) && (forall i :: 0 <= i < |order| ==> order[i] in m)
    requires key in m && key !in order
    ensures Distinct(order + [key]) && (forall i :: 0 <= i < |order + [key]| ==> (order + [key])[i] in m)
    ensures key in Evict(m, order).0
    ensures Evict(m, order + [key]) == Visit(Evict(m, order).0, Evict(m, order).1, key)
  {
    var next := order + [key];
    assert next[..|next| - 1] == order;
  }

  /** A visit order that enumerates every key of `m` exactly once. */
  predicate Enumerates<V>(m: Store<V>, order: seq<string>)
  {
    Distinct(order) && (forall i :: 0 <= i < |order| ==> order[i] in m) && (forall k :: k in m ==> k in order)
  }

  /** A full phase one, in any enumeration order, leaves `Retain(m)` and collects `Worklist(m)`. */
  lemma EvictEnumeration<V>(m: Store<V>, order: seq<string>)
    requires Enumerates(m, order)
    ensures Evict(m, order).0 == Retain(m)
    ensures (set k | k in Evict(m, order).1) == Worklist(m)
  {
  }

  /** A duplicate-free worklist has one element per distinct key it records. */
  lemma {:induction false} DistinctSize(s: seq<string>)
    requires Distinct(s)
    ensures |set k | k in s| == |s|
  {
    if s != [] {
      var rest := s[1..];
      assert Distinct(rest) by {
        forall i, j | 0 <= i < j < |rest| ensures rest[i] != rest[j] {
          assert rest[i] == s[i + 1] && rest[j] == s[j + 1];
        }
      }
      DistinctSize(rest);
      assert s[0] !in rest by {
        forall i | 0 <= i < |rest| ensures rest[i] != s[0] {
          assert rest[i] == s[i + 1];
        }
      }
      assert (set k | k in s) == (set k | k in rest) + {s[0]};
    }
  }

  /** Phase one records each key due for refresh exactly once. */
  lemma WorklistLength<V>(m: Store<V>, order: seq<string>)
    requires Enumerates(m, order)
    ensures |Evict(m, order).1| == |Worklist(m)|
  {
    EvictEnumeration(m, order);
    DistinctSize(Evict(m, order).1);
  }

  /** Two enumeration orders give the same map and the same worklist keys. */
  lemma EvictOrderIndependent<V>(m: Store<V>, order1: seq<string>, order2: seq<string>)
    requires Enumerates(m, order1) && Enumerates(m, order2)
    ensures Evict(m, order1).0 == Evict(m, order2).0
    ensures forall k :: k in Evict(m, order1).1 <==> k in Evict(m, order2).1
  {
    EvictEnumeration(m, order1);
    EvictEnumeration(m, order2);
  }

  /** Every worklist key is still present after phase one and holds a refreshable entry. */
  lemma WorklistSafe<V>(m: Store<V>)
    ensures forall k :: k in Worklist(m) ==> k in Retain(m) && Retain(m)[k].RefreshableCached?
  {
  }

  /** Phase one followed by phase two is the whole sweep. */
  lemma TwoPhases<V>(m: Store<V>)
    ensures RefreshAll(Retain(m), Worklist(m)) == Swept(m)
  {
  }

  /** Sweeping again, with nothing read or gone stale in between, changes nothing. */
  lemma SweptIdempotent<V>(m: Store<V>)
    ensures Swept(Swept(m)) == Swept(m)
  {
  }

  /**
   * Each key's fate depends on its own entry only: sweeping two parts of a
   * map separately and joining the results is sweeping the map.
   */
  lemma SweptPointwise<V>(m1: Store<V>, m2: Store<V>)
    requires m1.Keys !! m2.Keys
    ensures Swept(m1 + m2) == Swept(m1) + Swept(m2)
  {
  }

  /**
   * A refreshable entry read (by `get`) since the last sweep is kept by the
   * next one, and refreshed by it if it is stale; one never read is dropped.
   */
  lemma ReadKeepsAlive<V>(m: Store<V>, id: string)
    requires id in m && m[id].RefreshableCached?
    ensures id in Swept(m[id := Accessed(m[id])])
    ensures Swept(m[id := Accessed(m[id])])[id] == if m[id].stale then Refresh(Touch(m[id])) else Touch(m[id])
    ensures m[id].untouched ==> id !in Swept(m)
  {
  }

  /**
   * Time passing between operations: the entries under `staleNow` go stale,
   * and the refreshable ones under `untouchedNow` have not been read
   * recently enough and count as untouched. Keys, kinds, payloads and
   * refresh counts are unchanged, and so is every entry under neither set.
   */
  function Elapsed<V>(m: Store<V>, staleNow: set<string>, untouchedNow: set<string>): (r: Store<V>)
    ensures r.Keys == m.Keys
    ensures forall k :: k in m ==> r[k].contents == m[k].contents && r[k].Cached? == m[k].Cached?
    ensures forall k :: k in m && (k in staleNow || m[k].stale) ==> r[k].stale
    ensures forall k :: k in m && k in untouchedNow && m[k].RefreshableCached? ==> r[k].untouched
    ensures forall k :: k in m && k !in staleNow && k !in untouchedNow ==> r[k] == m[k]
  {
    map k | k in m :: Age(m[k], k in staleNow, k in untouchedNow)
  }

  /** A plain entry whose time to live has run out is gone after the next sweep. */
  lemma ExpiredPlainEvicted<V>(m: Store<V>, staleNow: set<string>, untouchedNow: set<string>, k: string)
    requires k in m && m[k].Cached? && k in staleNow
    ensures k !in Swept(Elapsed(m, staleNow, untouchedNow))
  {
  }

  /**
   * A refreshable entry not read recently enough is reclaimed by the next
   * sweep, stale or not; read once before that sweep, it is kept instead.
   */
  lemma UnreadRefreshableReclaimed<V>(m: Store<V>, staleNow: set<string>, untouchedNow: set<string>, k: string)
    requires k in m && m[k].RefreshableCached? && k in untouchedNow
    ensures k !in Swept(Elapsed(m, staleNow, untouchedNow))
    ensures var aged := Elapsed(m, staleNow, untouchedNow);
      k in Swept(aged[k := Accessed(aged[k])])
  {
  }

  /**
   * An entry the sweep refreshed is kept and counted as refreshed, but the
   * refresh is not a read: if it then goes unread, the following sweep
   * reclaims it.
   */
  lemma RefreshedUnreadReclaimed<V>(m: Store<V>, staleNow: set<string>, untouchedNow: set<string>, k: string)
    requires k in m && NeedsRefresh(m[k]) && k in untouchedNow
    ensures k in Swept(m) && Swept(m)[k].refreshes == m[k].refreshes + 1
    ensures k !in Swept(Elapsed(Swept(m), staleNow, untouchedNow))
  {
  }

  /** Between two sweeps, only the entries time has changed can change their fate. */
  lemma UnchangedEntriesKept<V>(m: Store<V>, staleNow: set<string>, untouchedNow: set<string>, k: string)
    requires k in Swept(m) && k !in staleNow && k !in untouchedNow
    ensures k in Swept(Elapsed(Swept(m), staleNow, untouchedNow))
    ensures Swept(Elapsed(Swept(m), staleNow, untouchedNow))[k] == Swept(m)[k]
  {
  }
}
