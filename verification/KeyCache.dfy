/** The bounded cache of validated DNSKEY sets (src/dns/infra_cache.rs). */
module KeyCache {
  import opened Prelude
  import opened Maps
  import opened Names
  import opened Messages

  const TTL_CAP := 172_800
  const TTL_FLOOR := 60
  const U32_MAX := 0xFFFF_FFFF
  const EVICT_SAMPLE := 16

  datatype Entry = Entry(expiry: nat, used: nat, keys: seq<Bytes>)

  function ClampTtl(ttl: nat): nat {
    Min(Max(ttl, TTL_FLOOR), TTL_CAP)
  }

  function Expiry(clock: nat, ttl: nat): nat {
    Min(clock + ClampTtl(ttl), U32_MAX)
  }

  /** Every sampled entry is live, and none was used before `v`. */
  ghost predicate OldestOf(entries: map<Name, Entry>, clock: nat, sample: set<Name>, v: Name)
    requires v in entries && sample <= entries.Keys
  {
    forall n :: n in sample ==> entries[n].expiry > clock && entries[v].used <= entries[n].used
  }

  lemma SampleGrows(all: set<Name>, sample: set<Name>, rest: set<Name>, n: Name)
    requires n in rest && rest <= all && sample == all - rest
    ensures sample + {n} == all - (rest - {n}) && |sample + {n}| == |sample| + 1 && rest - {n} <= all
  {
  }

  lemma OldestGrows(entries: map<Name, Entry>, clock: nat, sample: set<Name>, v: Name, n: Name)
    requires v in entries && sample <= entries.Keys && OldestOf(entries, clock, sample, v)
    requires n in entries && entries[n].expiry > clock
    ensures OldestOf(entries, clock, sample + {n}, if sample == {} || entries[n].used < entries[v].used then n else v)
  {
  }

  class KeyCache {
    var entries: map<Name, Entry>
    var tick: nat
    const cap: nat

    ghost predicate Valid()
      reads this
    {
      cap > 0 && |entries| <= cap
    }

    constructor (capacity: nat)
      requires capacity > 0
      ensures Valid() && entries == map[] && cap == capacity
    {
      entries, tick, cap := map[], 0, capacity;
    }

    /** A fresh value, or none; an expired entry is dropped, nothing else changes but usage marks. */
    method Get(zone: Name, clock: nat) returns (r: Option<seq<Bytes>>)
      requires Valid()
      modifies this
      ensures Valid()
      ensures r == if zone in old(entries) && old(entries)[zone].expiry > clock then Some(old(entries)[zone].keys) else None
      ensures entries.Keys == if r.None? then old(entries).Keys - {zone} else old(entries).Keys
      ensures forall n :: n in entries ==> entries[n].keys == old(entries)[n].keys && entries[n].expiry == old(entries)[n].expiry
    {
      tick := tick + 1;
      if zone !in entries {
        return None;
      }
      var e := entries[zone];
      if e.expiry > clock {
        InsertSize(entries, zone, e.(used := tick));
        entries := entries[zone := e.(used := tick)];
        return Some(e.keys);
      }
      RemoveSize(entries, {zone});
      entries := entries - {zone};
      return None;
    }

    /** Remember a validated set; an empty one is ignored, a full cache gives up one other entry. */
    method Learn(zone: Name, keys: seq<Bytes>, ttl: nat, clock: nat)
      requires Valid()
      modifies this
      ensures Valid()
      ensures keys == [] ==> entries == old(entries)
      ensures keys != [] ==> zone in entries && entries[zone].keys == keys && entries[zone].expiry == Expiry(clock, ttl)
      ensures forall n :: n in entries && n != zone ==> n in old(entries) && entries[n] == old(entries)[n]
      ensures |old(entries).Keys - entries.Keys| <= 1
    {
      assert old(entries).Keys - entries.Keys == {};
      if keys == [] {
        return;
      }
      tick := tick + 1;
      var kept, entry := entries, Entry(Expiry(clock, ttl), tick, keys);
      if |entries| >= cap && zone !in entries {
        var victim, _ := Victim(clock);
        RemoveSize(entries, {victim});
        kept := entries - {victim};
        assert old(entries).Keys - kept[zone := entry].Keys == {victim};
      } else {
        assert old(entries).Keys - kept[zone := entry].Keys == {};
      }
      InsertSize(kept, zone, entry);
      entries := kept[zone := entry];
    }

    /**
     The entry to give up, from a bounded sample of the map in its own order: an expired one if
     the sample has one, else the least recently used of the sample.
     */
    method Victim(clock: nat) returns (v: Name, ghost sample: set<Name>)
      requires entries != map[]
      ensures v in entries
      ensures v in sample && sample <= entries.Keys && |sample| <= EVICT_SAMPLE
      ensures entries[v].expiry > clock ==>
        OldestOf(entries, clock, sample, v) && (|sample| == EVICT_SAMPLE || sample == entries.Keys)
    {
      var rest, count := entries.Keys, 0;
      v :| v in rest;
      sample := {};
      assert OldestOf(entries, clock, sample, v);
      hide OldestOf;
      while rest != {} && count < EVICT_SAMPLE
        invariant sample == entries.Keys - rest && rest <= entries.Keys && v in entries
        invariant count == |sample| <= EVICT_SAMPLE
        invariant sample != {} ==> v in sample
        invariant OldestOf(entries, clock, sample, v)
        decreases rest
      {
        var n :| n in rest;
        var first := count == 0;
        ghost var before := sample;
        SampleGrows(entries.Keys, sample, rest, n);
        rest, sample, count := rest - {n}, sample + {n}, count + 1;
        if entries[n].expiry <= clock {
          return n, sample;
        }
        OldestGrows(entries, clock, before, v, n);
        if first || entries[n].used < entries[v].used {
          v := n;
        }
      }
    }
  }
}
