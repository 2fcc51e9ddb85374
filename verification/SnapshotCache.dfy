/** The shared cache of encoded answers and the operations that change it (src/dns/cache_snapshot.rs). */
module SnapshotCache {
  import opened Prelude
  import opened Maps

  /** Instants, in nanoseconds. */
  type Instant = nat

  const SENTINEL_AGE := 50 * 365 * 24 * 3600 * NANOS

  type Key = nat

  datatype Entry = Entry(payload: seq<byte>, expiresAt: Instant)

  type Cache = map<Key, Entry>

  predicate IsSentinel(e: Entry, now: Instant) {
    e.expiresAt > now + SENTINEL_AGE
  }

  function Evictable(c: Cache, now: Instant): set<Key> {
    set k | k in c && !IsSentinel(c[k], now)
  }

  lemma EvictableAfter(c: Cache, gone: set<Key>, now: Instant)
    ensures Evictable(c - gone, now) == Evictable(c, now) - gone && Evictable(c, now) <= c.Keys
  {
  }

  /** What is left of `c` while the keys outside `rest` are gone. */
  ghost predicate Removed(c: Cache, live: Cache, keys: set<Key>, rest: set<Key>, removed: nat) {
    rest <= keys && live == c - (keys - rest) && removed == |keys - rest|
  }

  lemma RemoveOne(c: Cache, live: Cache, keys: set<Key>, rest: set<Key>, removed: nat, k: Key)
    requires Removed(c, live, keys, rest, removed) && k in rest
    ensures Removed(c, live - {k}, keys, rest - {k}, removed + 1)
  {
    var gone := keys - rest;
    assert keys - (rest - {k}) == gone + {k};
    assert (c - gone) - {k} == c - (gone + {k});
  }

  lemma RemovedNothing(c: Cache, keys: set<Key>)
    ensures Removed(c, c, keys, keys, 0)
  {
    assert keys - keys == {} && c - {} == c;
  }

  lemma RemovedAll(c: Cache, live: Cache, keys: set<Key>, removed: nat)
    requires keys <= c.Keys && Removed(c, live, keys, {}, removed)
    ensures live == c - keys && removed == |keys| && |live| == |c| - removed
  {
    assert keys - {} == keys;
    RemoveSize(c, keys);
  }

  /** The entries a reader may still use. */
  function Unexpired(c: Cache, now: Instant): Cache {
    map k | k in c && c[k].expiresAt > now :: c[k]
  }

  class LiveCache {
    var live: Cache
    var gen: nat

    constructor ()
      ensures live == map[] && gen == 0
    {
      live, gen := map[], 0;
    }

    /** Some expired entry that is no sentinel, in the map's own order. */
    method FindExpired(now: Instant) returns (victim: Option<Key>)
      ensures victim.Some? ==> victim.value in live && live[victim.value].expiresAt <= now
      ensures victim.None? ==> forall k :: k in live ==> live[k].expiresAt > now
    {
      var rest := live.Keys;
      while rest != {}
        invariant rest <= live.Keys
        invariant forall k :: k in live && k !in rest ==> live[k].expiresAt > now
      {
        var k :| k in rest;
        if live[k].expiresAt <= now && !IsSentinel(live[k], now) {
          return Some(k);
        }
        rest := rest - {k};
      }
      return None;
    }

    /**
     A full cache gives up one expired entry for a new key, or refuses it. No other entry changes,
     the size stays within the larger of its old value and the cap, and the generation moves
     exactly when the map is written.
     */
    method Insert(key: Key, entry: Entry, cap: nat, now: Instant)
      modifies this
      ensures |live| <= Max(|old(live)|, cap)
      ensures |old(live)| >= cap && key !in old(live) && (forall k :: k in old(live) ==> old(live)[k].expiresAt > now)
        ==> live == old(live) && gen == old(gen)
      ensures !(|old(live)| >= cap && key !in old(live) && forall k :: k in old(live) ==> old(live)[k].expiresAt > now)
        ==> key in live && live[key] == entry && gen == old(gen) + 1
      ensures forall k :: k in live && k != key ==> k in old(live) && live[k] == old(live)[k]
      ensures forall k :: k in old(live) && k !in live ==> old(live)[k].expiresAt <= now
      ensures |old(live).Keys - live.Keys| <= 1
      ensures |old(live)| < cap || key in old(live) ==> old(live).Keys <= live.Keys
    {
      InsertSize(live, key, entry);
      assert live.Keys - live[key := entry].Keys == {};
      assert live.Keys - live.Keys == {};
      if |live| >= cap && key !in live {
        var victim := FindExpired(now);
        if victim.None? {
          return;
        }
        assert live.Keys - (live - {victim.value})[key := entry].Keys == {victim.value};
        RemoveSize(live, {victim.value});
        live := live - {victim.value};
        InsertSize(live, key, entry);
      }
      live := live[key := entry];
      gen := gen + 1;
    }

    method InsertLocal(key: Key, entry: Entry)
      modifies this
      ensures live == old(live)[key := entry] && gen == old(gen) + 1
    {
      live := live[key := entry];
      gen := gen + 1;
    }

    /** The `n` candidates that expire first. */
    method Soonest(candidates: set<Key>, n: nat) returns (chosen: set<Key>)
      requires candidates <= live.Keys && n <= |candidates|
      ensures chosen <= candidates && |chosen| == n
      ensures forall c, k :: c in chosen && k in candidates - chosen ==> live[c].expiresAt <= live[k].expiresAt
    {
      chosen := {};
      for i := 0 to n
        invariant chosen <= candidates && |chosen| == i
        invariant forall c, k :: c in chosen && k in candidates - chosen ==> live[c].expiresAt <= live[k].expiresAt
      {
        if candidates == chosen {
          assert false;
        }
        var k := First(candidates - chosen);
        chosen := chosen + {k};
      }
    }

    method First(candidates: set<Key>) returns (first: Key)
      requires candidates <= live.Keys && candidates != {}
      ensures first in candidates && forall k :: k in candidates ==> live[first].expiresAt <= live[k].expiresAt
    {
      first :| first in candidates;
      var rest := candidates - {first};
      while rest != {}
        invariant rest <= candidates && first in candidates
        invariant forall k :: k in candidates - rest ==> live[first].expiresAt <= live[k].expiresAt
      {
        var k :| k in rest;
        if live[k].expiresAt < live[first].expiresAt {
          first := k;
        }
        rest := rest - {k};
      }
    }

    /**
     Memory pressure: removes exactly as many entries as asked for, or every entry that is no
     sentinel if there are fewer; the removed ones expire no later than any kept non-sentinel.
     */
    method EvictOldest(target: nat, now: Instant) returns (evicted: nat, ghost gone: set<Key>)
      modifies this
      ensures gone <= Evictable(old(live), now) && live == old(live) - gone
      ensures evicted == |gone| == Min(Max(|old(live)| - target, 0), |Evictable(old(live), now)|)
      ensures |live| == |old(live)| - evicted
      ensures forall g, k :: g in gone && k in Evictable(live, now) ==> old(live)[g].expiresAt <= live[k].expiresAt
      ensures gen == if evicted > 0 then old(gen) + 1 else old(gen)
    {
      hide Evictable;
      evicted, gone := 0, {};
      assert live - {} == live;
      if |live| <= target {
        return;
      }
      EvictableAfter(live, {}, now);
      var candidates := Evictable(live, now);
      var chosen := Soonest(candidates, Min(|live| - target, |candidates|));
      gone := chosen;
      EvictableAfter(live, gone, now);
      evicted := RemoveAll(chosen);
      if evicted > 0 {
        gen := gen + 1;
      }
    }

    method RemoveAll(keys: set<Key>) returns (removed: nat)
      requires keys <= live.Keys
      modifies this
      ensures live == old(live) - keys && removed == |keys| && |live| == |old(live)| - removed && gen == old(gen)
    {
      hide Removed;
      var rest := keys;
      removed := 0;
      RemovedNothing(live, keys);
      while rest != {}
        invariant Removed(old(live), live, keys, rest, removed) && gen == old(gen)
      {
        var k :| k in rest;
        RemoveOne(old(live), live, keys, rest, removed, k);
        live := live - {k};
        rest, removed := rest - {k}, removed + 1;
      }
      RemovedAll(old(live), live, keys, removed);
    }
  }
}
