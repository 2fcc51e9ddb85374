/**
 The generation-gated publisher of the cache's read-only copy (src/dns/cache_snapshot.rs), as a
 step system: writers change the live map and bump the generation afterwards; the publisher reads
 the generation, then possibly purges and copies key by key while writers go on.
 */
module Publisher {
  import opened SnapshotCache

  const FORCE_EVERY := 256

  datatype Phase =
    | Idle
    | Loaded(force: bool)                                   // generation read, clock not yet
    | Purging(now: Instant, todo: set<Key>)                 // dropping expired entries from the live map
    | Copying(now: Instant, todo: set<Key>, next: Cache)    // collecting the new copy

  /** `pending` writers are between their first write and their bump; `dirty` records a write since the last load. */
  datatype Sys = Sys(live: Cache, gen: nat, pending: nat, snap: Cache, lastGen: nat, ticks: nat,
                     clock: Instant, phase: Phase, dirty: bool)

  ghost predicate Init(s: Sys) {
    s.live == map[] && s.snap == map[] && s.gen == 0 && s.lastGen == 0 && s.ticks == 0 && s.pending == 0
    && s.phase == Idle && !s.dirty
  }

  predicate Wait(a: Sys, b: Sys) {
    b.clock >= a.clock && b == a.(clock := b.clock)
  }

  /** A writer's first or further write, whatever it does to the map. */
  predicate Write(a: Sys, b: Sys) {
    b.pending > 0 && a.pending <= b.pending <= a.pending + 1 &&
    b == a.(live := b.live, pending := b.pending, dirty := true)
  }

  predicate Bump(a: Sys, b: Sys) {
    a.pending > 0 && b == a.(pending := a.pending - 1, gen := a.gen + 1)
  }

  predicate Tick(a: Sys, b: Sys) {
    a.phase.Idle? &&
    var ticks := (a.ticks + 1) % FORCE_EVERY;
    if a.gen == a.lastGen && ticks != 0 then b == a.(ticks := ticks)
    else b == a.(ticks := ticks, lastGen := a.gen, phase := Loaded(ticks == 0), dirty := false)
  }

  predicate ReadClock(a: Sys, b: Sys) {
    a.phase.Loaded? &&
    b == a.(phase := if a.phase.force then Purging(a.clock, a.live.Keys) else Copying(a.clock, a.live.Keys, map[]))
  }

  /** The purge looks at one key: one still to visit, or one that appeared meanwhile. */
  predicate PurgeKey(a: Sys, b: Sys, k: Key) {
    a.phase.Purging? &&
    var gone := k in a.live && a.live[k].expiresAt <= a.phase.now && !IsSentinel(a.live[k], a.clock);
    b == a.(live := if gone then a.live - {k} else a.live, phase := Purging(a.phase.now, a.phase.todo - {k}))
  }

  predicate StartCopy(a: Sys, b: Sys) {
    a.phase.Purging? && a.phase.todo == {} && b == a.(phase := Copying(a.phase.now, a.live.Keys, map[]))
  }

  predicate CopyKey(a: Sys, b: Sys, k: Key) {
    a.phase.Copying? &&
    var found := k in a.live && a.live[k].expiresAt > a.phase.now;
    b == a.(phase := Copying(a.phase.now, a.phase.todo - {k},
                             if found then a.phase.next[k := a.live[k]] else a.phase.next))
  }

  predicate Store(a: Sys, b: Sys) {
    a.phase.Copying? && a.phase.todo == {} && b == a.(snap := a.phase.next, phase := Idle)
  }

  ghost predicate Next(a: Sys, b: Sys) {
    || Wait(a, b) || Write(a, b) || Bump(a, b) || Tick(a, b) || ReadClock(a, b) || StartCopy(a, b) || Store(a, b)
    || (exists k :: PurgeKey(a, b, k)) || (exists k :: CopyKey(a, b, k))
  }

  /** The part of the copy already made agrees with a map nobody has written to. */
  ghost predicate CopiedSoFar(s: Sys)
    requires s.phase.Copying?
  {
    && (forall k :: k in s.phase.next ==> k in s.live && s.phase.next[k] == s.live[k])
    && (forall k :: k in s.live && k !in s.phase.todo && s.live[k].expiresAt > s.phase.now ==> k in s.phase.next)
  }

  /** A write since the load still shows: its bump is to come or has moved the generation. */
  ghost predicate Inv(s: Sys) {
    && s.lastGen <= s.gen
    && (s.dirty ==> s.pending > 0 || s.lastGen < s.gen)
    && match s.phase
       case Idle => !s.dirty ==> Unexpired(s.snap, s.clock) == Unexpired(s.live, s.clock)
       case Loaded(_) => true
       case Purging(now, _) => now <= s.clock
       case Copying(now, _, _) => now <= s.clock && (!s.dirty ==> CopiedSoFar(s))
  }

  lemma UnexpiredLater(a: Cache, b: Cache, now: Instant, later: Instant)
    requires Unexpired(a, now) == Unexpired(b, now) && now <= later
    ensures Unexpired(a, later) == Unexpired(b, later)
  {
    forall k ensures k in Unexpired(a, later) <==> k in Unexpired(b, later) {
      assert k in Unexpired(a, now) <==> k in Unexpired(b, now);
    }
    forall k | k in Unexpired(a, later) ensures a[k] == b[k] {
      assert Unexpired(a, now)[k] == Unexpired(b, now)[k];
    }
  }

  lemma StoreKeeps(a: Sys, b: Sys)
    requires Inv(a) && Store(a, b)
    ensures Inv(b)
  {
    if !a.dirty {
      assert Unexpired(b.snap, b.clock) == Unexpired(b.live, b.clock);
    }
  }

  lemma NextKeeps(a: Sys, b: Sys)
    requires Inv(a) && Next(a, b)
    ensures Inv(b)
  {
    if Wait(a, b) {
      if a.phase.Idle? && !a.dirty {
        UnexpiredLater(a.snap, a.live, a.clock, b.clock);
      }
    } else if Store(a, b) {
      StoreKeeps(a, b);
    }
  }

  /** Any interleaving of writers, clock and publisher. */
  ghost predicate Behaviour(run: seq<Sys>) {
    run != [] && Init(run[0]) && forall i :: 0 <= i < |run| - 1 ==> Next(run[i], run[i + 1])
  }

  lemma {:induction false} Reachable(run: seq<Sys>, i: nat)
    requires Behaviour(run) && i < |run|
    ensures Inv(run[i])
  {
    if i > 0 {
      Reachable(run, i - 1);
      NextKeeps(run[i - 1], run[i]);
    }
  }

  /** No update is lost: an idle publisher that has seen the current generation serves the live map. */
  lemma NoLostUpdate(run: seq<Sys>, i: nat)
    requires Behaviour(run) && i < |run|
    requires run[i].phase.Idle? && run[i].lastGen == run[i].gen && run[i].pending == 0
    ensures Unexpired(run[i].snap, run[i].clock) == Unexpired(run[i].live, run[i].clock)
  {
    Reachable(run, i);
  }
}
