/**
 Master/slave replication (src/sync.rs) as a two-party step system. The master changes a store
 first and appends to the journal afterwards, one writer at a time; a full sync reads the journal
 position first and each store later at its own moment; a delta is served with a position read
 before the events; events may be replayed over a store that already contains their effect.
 */
module Replication {
  import opened Prelude
  import opened SyncJournal

  // ---- the master's stores over time ----

  /** Store `k` after the first `n` changes, feeds without their refresh data. */
  function At(s0: Stores, k: Kind, log: seq<SyncOp>, n: nat): Table
    requires n <= |log|
  {
    Run(Visible(k, s0.Of(k)), k, log[..n])
  }

  predicate Touches(op: SyncOp, k: Kind, id: string) {
    (op.Add? || op.Delete?) && op.kind == k && op.id == id
  }

  /** Ids are never reused, and only existing entries are deleted. */
  ghost predicate FreshAt(s0: Stores, log: seq<SyncOp>, i: nat)
    requires i < |log|
  {
    match log[i]
    case Add(k, id, _) => id !in s0.Of(k) && forall j :: 0 <= j < i ==> !(log[j].Add? && Touches(log[j], k, id))
    case Delete(k, id) => id in At(s0, k, log, i)
    case _ => true
  }

  ghost predicate WellFormed(s0: Stores, log: seq<SyncOp>) {
    forall i :: 0 <= i < |log| ==> FreshAt(s0, log, i)
  }

  predicate Same(t: Table, u: Table, id: string) {
    (id in t <==> id in u) && (id in t ==> t[id] == u[id])
  }

  predicate Created(op: SyncOp, k: Kind, id: string, e: Entry) {
    op.Add? && Touches(op, k, id) && Mask(k, op.entry) == e
  }

  /** The entry of `id`, if any, is the one it was created with. */
  ghost predicate GenuineAt(s0: Stores, k: Kind, log: seq<SyncOp>, t: Table, id: string) {
    id in t ==>
      || (id in s0.Of(k) && t[id] == Mask(k, s0.Of(k)[id]))
      || (exists j :: 0 <= j < |log| && Created(log[j], k, id, t[id]))
  }

  lemma AtStep(s0: Stores, k: Kind, log: seq<SyncOp>, n: nat)
    requires n < |log|
    ensures At(s0, k, log, n + 1) == Put(At(s0, k, log, n), k, log[n])
  {
    assert log[..n + 1][..n] == log[..n];
  }

  lemma RunStep(t: Table, k: Kind, log: seq<SyncOp>, from: nat, j: nat)
    requires from <= j < |log|
    ensures Run(t, k, log[from..j + 1]) == Put(Run(t, k, log[from..j]), k, log[j])
  {
    assert log[from..j + 1][..j - from] == log[from..j];
  }

  lemma PutGenuine(s0: Stores, k: Kind, log: seq<SyncOp>, t: Table, i: nat, id: string)
    requires i < |log| && GenuineAt(s0, k, log, t, id)
    ensures GenuineAt(s0, k, log, Put(t, k, log[i]), id)
  {
    if id in Put(t, k, log[i]) && id !in t {
      assert Created(log[i], k, id, Put(t, k, log[i])[id]);
    }
  }

  lemma {:induction false} AtGenuine(s0: Stores, k: Kind, log: seq<SyncOp>, n: nat, id: string)
    requires n <= |log|
    ensures GenuineAt(s0, k, log, At(s0, k, log, n), id)
  {
    if n > 0 {
      AtGenuine(s0, k, log, n - 1, id);
      AtStep(s0, k, log, n - 1);
      PutGenuine(s0, k, log, At(s0, k, log, n - 1), n - 1, id);
    }
  }

  lemma {:induction false} ReplayGenuine(s0: Stores, k: Kind, log: seq<SyncOp>, t: Table, from: nat, j: nat, id: string)
    requires from <= j <= |log| && GenuineAt(s0, k, log, t, id)
    ensures GenuineAt(s0, k, log, Run(t, k, log[from..j]), id)
  {
    if from < j {
      ReplayGenuine(s0, k, log, t, from, j - 1, id);
      RunStep(t, k, log, from, j - 1);
      PutGenuine(s0, k, log, Run(t, k, log[from..j - 1]), j - 1, id);
    }
  }

  /** Before its creation an id is absent. */
  lemma {:induction false} FreshAbsent(s0: Stores, k: Kind, log: seq<SyncOp>, i: nat, n: nat)
    requires i < |log| && FreshAt(s0, log, i) && log[i].Add? && log[i].kind == k && n <= i
    ensures log[i].id !in At(s0, k, log, n)
  {
    if n > 0 {
      FreshAbsent(s0, k, log, i, n - 1);
      AtStep(s0, k, log, n - 1);
    }
  }

  /** An id not touched between two moments looks the same at both. */
  lemma {:induction false} Untouched(s0: Stores, k: Kind, log: seq<SyncOp>, n: nat, m: nat, id: string)
    requires n <= m <= |log| && forall i :: n <= i < m ==> !Touches(log[i], k, id)
    ensures Same(At(s0, k, log, n), At(s0, k, log, m), id)
  {
    if n < m {
      Untouched(s0, k, log, n, m - 1, id);
      AtStep(s0, k, log, m - 1);
    }
  }

  /** A genuine entry of an id created at `i` is the one created there. */
  lemma GenuineValue(s0: Stores, k: Kind, log: seq<SyncOp>, t: Table, i: nat, id: string)
    requires WellFormed(s0, log) && i < |log| && log[i].Add? && Touches(log[i], k, id)
    requires GenuineAt(s0, k, log, t, id) && id in t
    ensures t[id] == Mask(k, log[i].entry)
  {
    assert FreshAt(s0, log, i);
    var j :| 0 <= j < |log| && Created(log[j], k, id, t[id]);
    assert FreshAt(s0, log, j);
    assert i == j;
  }

  /** Replaying `log[from..j]` over the store of moment `p`: whatever is not touched again by `p` is right. */
  lemma PutElsewhere(t: Table, k: Kind, op: SyncOp, id: string)
    requires !Touches(op, k, id)
    ensures Same(Put(t, k, op), t, id)
  {
  }

  lemma PutDecides(t: Table, k: Kind, op: SyncOp, id: string)
    requires Touches(op, k, id)
    ensures op.Delete? ==> id !in Put(t, k, op)
    ensures op.Add? ==> id in Put(t, k, op) && Put(t, k, op)[id] == if id in t then t[id] else Mask(k, op.entry)
  {
  }

  lemma {:induction false} ReplayAgrees(s0: Stores, k: Kind, log: seq<SyncOp>, from: nat, j: nat, p: nat, id: string)
    requires WellFormed(s0, log) && from <= j <= p <= |log|
    requires forall i :: j <= i < p ==> !Touches(log[i], k, id)
    ensures Same(Run(At(s0, k, log, p), k, log[from..j]), At(s0, k, log, p), id)
  {
    if from < j {
      hide Run;
      hide At;
      hide WellFormed;
      hide Put;
      var op, t := log[j - 1], Run(At(s0, k, log, p), k, log[from..j - 1]);
      RunStep(At(s0, k, log, p), k, log, from, j - 1);
      if !Touches(op, k, id) {
        PutElsewhere(t, k, op, id);
        ReplayAgrees(s0, k, log, from, j - 1, p, id);
      } else {
        LastTouch(s0, k, log, j - 1, p, id);
        PutDecides(t, k, op, id);
        if op.Add? && id in t {
          AtGenuine(s0, k, log, p, id);
          ReplayGenuine(s0, k, log, At(s0, k, log, p), from, j - 1, id);
          GenuineValue(s0, k, log, t, j - 1, id);
        }
      }
    }
  }

  /** The last operation on an id decides its state. */
  lemma LastTouch(s0: Stores, k: Kind, log: seq<SyncOp>, i: nat, p: nat, id: string)
    requires WellFormed(s0, log) && i < p <= |log| && Touches(log[i], k, id)
    requires forall x :: i < x < p ==> !Touches(log[x], k, id)
    ensures log[i].Delete? ==> id !in At(s0, k, log, p)
    ensures log[i].Add? ==> id in At(s0, k, log, p) && At(s0, k, log, p)[id] == Mask(k, log[i].entry)
  {
    assert FreshAt(s0, log, i);
    AtStep(s0, k, log, i);
    Untouched(s0, k, log, i + 1, p, id);
    if log[i].Add? {
      FreshAbsent(s0, k, log, i, i);
    }
  }

  lemma SameEverywhere(t: Table, u: Table)
    requires forall id :: Same(t, u, id)
    ensures t == u
  {
    forall id ensures (id in t <==> id in u) && (id in t ==> t[id] == u[id]) {
      assert Same(t, u, id);
    }
  }

  /** Replaying what a snapshot already contains changes nothing. */
  lemma ReplayIdempotent(s0: Stores, k: Kind, log: seq<SyncOp>, from: nat, p: nat)
    requires WellFormed(s0, log) && from <= p <= |log|
    ensures Run(At(s0, k, log, p), k, log[from..p]) == At(s0, k, log, p)
  {
    forall id ensures Same(Run(At(s0, k, log, p), k, log[from..p]), At(s0, k, log, p), id) {
      ReplayAgrees(s0, k, log, from, p, p, id);
    }
    SameEverywhere(Run(At(s0, k, log, p), k, log[from..p]), At(s0, k, log, p));
  }

  /** Replaying past the snapshot gives the later state. */
  lemma {:induction false} ReplayForward(s0: Stores, k: Kind, log: seq<SyncOp>, from: nat, p: nat, m: nat)
    requires WellFormed(s0, log) && from <= p <= m <= |log|
    ensures Run(At(s0, k, log, p), k, log[from..m]) == At(s0, k, log, m)
  {
    hide Run;
    hide At;
    hide WellFormed;
    if p == m {
      ReplayIdempotent(s0, k, log, from, p);
    } else {
      ReplayForward(s0, k, log, from, p, m - 1);
      RunStep(At(s0, k, log, p), k, log, from, m - 1);
      AtStep(s0, k, log, m - 1);
    }
  }

  /** A snapshot one change ahead of the journal: the replay ends before or after that change. */
  lemma ReplayBehind(s0: Stores, k: Kind, log: seq<SyncOp>, from: nat, p: nat)
    requires WellFormed(s0, log) && from < p <= |log|
    ensures var t := Run(At(s0, k, log, p), k, log[from..p - 1]);
            t == At(s0, k, log, p - 1) || t == At(s0, k, log, p)
  {
    var t := Run(At(s0, k, log, p), k, log[from..p - 1]);
    var before, after := At(s0, k, log, p - 1), At(s0, k, log, p);
    var op := log[p - 1];
    assert FreshAt(s0, log, p - 1);
    AtStep(s0, k, log, p - 1);
    forall id | !Touches(op, k, id) ensures Same(t, after, id) && Same(t, before, id) {
      ReplayAgrees(s0, k, log, from, p - 1, p, id);
    }
    if (op.Add? || op.Delete?) && op.kind == k {
      ToggledId(s0, k, log, from, p);
      if Same(t, before, op.id) {
        SameEverywhere(t, before);
      } else {
        SameEverywhere(t, after);
      }
    } else {
      SameEverywhere(t, after);
    }
  }

  lemma ToggledId(s0: Stores, k: Kind, log: seq<SyncOp>, from: nat, p: nat)
    requires WellFormed(s0, log) && from < p <= |log|
    requires (log[p - 1].Add? || log[p - 1].Delete?) && log[p - 1].kind == k
    ensures var t := Run(At(s0, k, log, p), k, log[from..p - 1]);
            Same(t, At(s0, k, log, p - 1), log[p - 1].id) || Same(t, At(s0, k, log, p), log[p - 1].id)
  {
    var t := Run(At(s0, k, log, p), k, log[from..p - 1]);
    var before, after := At(s0, k, log, p - 1), At(s0, k, log, p);
    var op := log[p - 1];
    assert FreshAt(s0, log, p - 1);
    AtStep(s0, k, log, p - 1);
    AtGenuine(s0, k, log, p, op.id);
    AtGenuine(s0, k, log, p - 1, op.id);
    ReplayGenuine(s0, k, log, after, from, p - 1, op.id);
    if op.Add? {
      FreshAbsent(s0, k, log, p - 1, p - 1);
      if op.id in t {
        GenuineValue(s0, k, log, t, p - 1, op.id);
      }
    } else if op.id in t {
      OneGenuineValue(s0, k, log, t, before, op.id);
    }
  }

  /** Two genuine entries of one id are equal. */
  lemma OneGenuineValue(s0: Stores, k: Kind, log: seq<SyncOp>, t: Table, u: Table, id: string)
    requires WellFormed(s0, log) && id in t && id in u
    requires GenuineAt(s0, k, log, t, id) && GenuineAt(s0, k, log, u, id)
    ensures t[id] == u[id]
  {
    if id in s0.Of(k) {
      if j :| 0 <= j < |log| && log[j].Add? && Touches(log[j], k, id) {
        assert FreshAt(s0, log, j);
      }
    } else {
      var j :| 0 <= j < |log| && Created(log[j], k, id, t[id]);
      GenuineValue(s0, k, log, u, j, id);
    }
  }

  // ---- the step system ----

  const KINDS: seq<Kind> := [Dns, Blacklist, Feeds]

  datatype Phase =
    | Starting
    | Idle
    | Reading(at: nat, tables: seq<Table>) // answering a full sync: position read, then one store after the other
    | Asked                                // the master's position was ahead; a delta is requested
    | Positioned(at: nat)                  // answering the delta: position read, events not yet
    | Replied(at: nat, events: seq<SyncEvent>)
    | Lagging                              // 410: the delta is gone

  /**
   The last three are history: the feeds of the slave's snapshot, and the ids refreshed on either
   side since that snapshot, or the one under way, read them.
   */
  datatype Sys = Sys(master: Stores, log: seq<SyncOp>, published: nat,
                     slave: Stores, lastSeq: nat, synced: bool, phase: Phase,
                     base: Table, since: set<string>, sinceRead: set<string>)

  function Ops(events: seq<SyncEvent>): seq<SyncOp> {
    seq(|events|, i requires 0 <= i < |events| => events[i].op)
  }

  ghost predicate Init(s0: Stores, s: Sys) {
    s.master == s0 && s.log == [] && s.published == 0 && s.lastSeq == 0 && !s.synced && s.phase == Starting
    && s.base == map[] && s.since == {} && s.sinceRead == {}
  }

  function Renews(op: SyncOp): set<string> {
    if op.UpdateFeed? then {op.id} else {}
  }

  function RenewsAll(ops: seq<SyncOp>): set<string> {
    set i | 0 <= i < |ops| && ops[i].UpdateFeed? :: ops[i].id
  }

  /** A writer saves a store; its journal entry follows before the next writer's turn. */
  ghost predicate Mutate(s0: Stores, a: Sys, b: Sys) {
    a.published == |a.log| && exists op, found :: Mutated(s0, a, b, op, found)
  }

  ghost predicate Mutated(s0: Stores, a: Sys, b: Sys, op: SyncOp, found: string) {
    && b == a.(master := Apply(a.master, op, found), log := a.log + [op],
               since := a.since + Renews(op), sinceRead := a.sinceRead + Renews(op))
    && FreshAt(s0, b.log, |a.log|)
  }

  /** The master refreshes a feed on its own, without an event. */
  ghost predicate RefreshMaster(a: Sys, b: Sys) {
    exists id, found ::
      b == a.(master := a.master.(feeds := Refreshed(a.master.feeds, id, found)),
              since := a.since + {id}, sinceRead := a.sinceRead + {id})
  }

  /** So does the slave. */
  ghost predicate RefreshSlave(a: Sys, b: Sys) {
    exists id, found :: b == a.(slave := a.slave.(feeds := Refreshed(a.slave.feeds, id, found)), since := a.since + {id})
  }

  predicate Publish(a: Sys, b: Sys) {
    a.published < |a.log| && b == a.(published := a.published + 1)
  }

  predicate BeginFull(a: Sys, b: Sys) {
    (a.phase.Starting? || a.phase.Lagging?) && b == a.(phase := Reading(a.published, []))
  }

  predicate ReadStore(a: Sys, b: Sys) {
    a.phase.Reading? && |a.phase.tables| < 3 &&
    b == a.(phase := Reading(a.phase.at, a.phase.tables + [a.master.Of(KINDS[|a.phase.tables|])]),
            sinceRead := if KINDS[|a.phase.tables|] == Feeds then {} else a.sinceRead)
  }

  predicate Commit(a: Sys, b: Sys) {
    a.phase.Reading? && |a.phase.tables| == 3 &&
    b == a.(slave := Stores(a.phase.tables[0], a.phase.tables[1], a.phase.tables[2]),
            lastSeq := a.phase.at, synced := true, phase := Idle, base := a.phase.tables[2], since := a.sinceRead)
  }

  predicate Ask(a: Sys, b: Sys) {
    a.phase.Idle? && b == a.(phase := if a.published <= a.lastSeq then Idle else Asked)
  }

  predicate Position(a: Sys, b: Sys) {
    a.phase.Asked? && b == a.(phase := Positioned(a.published))
  }

  predicate Reply(a: Sys, b: Sys)
    requires a.published <= |a.log|
  {
    a.phase.Positioned? &&
    b == a.(phase := match Delta(a.log[..a.published], a.lastSeq)
                     case None => Lagging
                     case Some(events) => Replied(a.phase.at, events))
  }

  /** The events in order; each download is the slave's own. */
  ghost predicate ApplyReply(a: Sys, b: Sys) {
    a.phase.Replied? && exists found: seq<string> :: Replayed(a, b, found)
  }

  ghost predicate Replayed(a: Sys, b: Sys, found: seq<string>)
    requires a.phase.Replied?
  {
    |found| == |a.phase.events| &&
    b == a.(slave := ApplyEach(a.slave, Ops(a.phase.events), found), lastSeq := Max(a.lastSeq, a.phase.at), phase := Idle,
            since := a.since + RenewsAll(Ops(a.phase.events)))
  }

  predicate Fail(a: Sys, b: Sys) {
    b == a.(phase := Idle)
  }

  ghost predicate Next(s0: Stores, a: Sys, b: Sys)
    requires a.published <= |a.log|
  {
    || Mutate(s0, a, b) || Publish(a, b) || BeginFull(a, b) || ReadStore(a, b) || Commit(a, b)
    || Ask(a, b) || Position(a, b) || Reply(a, b) || ApplyReply(a, b) || Fail(a, b)
    || RefreshMaster(a, b) || RefreshSlave(a, b)
  }

  // ---- the invariant ----

  /** `t` is store `k` at a moment between `lo` and `hi`. */
  ghost predicate Between(s0: Stores, log: seq<SyncOp>, k: Kind, t: Table, lo: nat, hi: nat) {
    exists n: nat :: lo <= n <= hi && n <= |log| && t == At(s0, k, log, n)
  }

  ghost predicate SlaveBetween(s0: Stores, s: Sys, hi: nat) {
    forall k :: Between(s0, s.log, k, Visible(k, s.slave.Of(k)), s.lastSeq, hi)
  }

  ghost predicate PhaseInv(s0: Stores, s: Sys)
    requires s.published <= |s.log|
  {
    match s.phase
    case Reading(at, tables) =>
      at <= s.published && |tables| <= 3 &&
      forall i :: 0 <= i < |tables| ==> Between(s0, s.log, KINDS[i], Visible(KINDS[i], tables[i]), at, |s.log|)
    case Positioned(at) => at <= s.published
    case Replied(at, events) =>
      exists m: nat :: RepliedAt(s0, s, at, events, m)
    case _ => true
  }

  /** The reply holds the changes up to `m`; the slave is at most one change ahead of it. */
  ghost predicate RepliedAt(s0: Stores, s: Sys, at: nat, events: seq<SyncEvent>, m: nat) {
    s.lastSeq <= m && at <= m <= s.published <= |s.log| && Ops(events) == s.log[s.lastSeq..m] &&
    (s.synced ==> SlaveBetween(s0, s, m + 1))
  }

  ghost predicate Inv(s0: Stores, s: Sys) {
    && WellFormed(s0, s.log)
    && s.published <= |s.log| <= s.published + 1 && s.lastSeq <= s.published
    && (forall k :: Visible(k, s.master.Of(k)) == At(s0, k, s.log, |s.log|))
    && (s.synced ==> SlaveBetween(s0, s, |s.log|))
    && PhaseInv(s0, s)
  }

  lemma AtExtend(s0: Stores, k: Kind, log: seq<SyncOp>, op: SyncOp, n: nat)
    requires n <= |log|
    ensures At(s0, k, log + [op], n) == At(s0, k, log, n)
  {
    assert (log + [op])[..n] == log[..n];
  }

  lemma BetweenExtend(s0: Stores, log: seq<SyncOp>, op: SyncOp, k: Kind, t: Table, lo: nat, hi: nat)
    requires Between(s0, log, k, t, lo, hi)
    ensures Between(s0, log + [op], k, t, lo, hi) && Between(s0, log + [op], k, t, lo, hi + 1)
  {
    var n: nat :| lo <= n <= hi && n <= |log| && t == At(s0, k, log, n);
    AtExtend(s0, k, log, op, n);
  }

  lemma WellFormedExtend(s0: Stores, log: seq<SyncOp>, op: SyncOp)
    requires WellFormed(s0, log) && FreshAt(s0, log + [op], |log|)
    ensures WellFormed(s0, log + [op])
  {
    forall i | 0 <= i <= |log| ensures FreshAt(s0, log + [op], i) {
      if i < |log| {
        assert FreshAt(s0, log, i);
        if log[i].Delete? {
          AtExtend(s0, log[i].kind, log, op, i);
        }
      }
    }
  }

  lemma ApplyOf(s: Stores, op: SyncOp, k: Kind, found: string)
    ensures Apply(s, op, found).Of(k) == Write(s.Of(k), k, op, found)
  {
  }

  lemma MutateKeeps(s0: Stores, a: Sys, b: Sys)
    requires Inv(s0, a) && Mutate(s0, a, b)
    ensures Inv(s0, b)
  {
    hide Write;
    hide Put;
    hide Run;
    hide Visible;
    var op, found :| Mutated(s0, a, b, op, found);
    WellFormedExtend(s0, a.log, op);
    forall k ensures Visible(k, b.master.Of(k)) == At(s0, k, b.log, |b.log|) {
      AtStep(s0, k, b.log, |a.log|);
      AtExtend(s0, k, a.log, op, |a.log|);
      ApplyOf(a.master, op, k, found);
      VisibleWrite(a.master.Of(k), k, op, found);
    }
    SlaveExtend(s0, a, b, op);
    match a.phase
    case Reading(at, tables) =>
      forall i | 0 <= i < |tables| ensures Between(s0, b.log, KINDS[i], Visible(KINDS[i], tables[i]), at, |b.log|) {
        BetweenExtend(s0, a.log, op, KINDS[i], Visible(KINDS[i], tables[i]), at, |a.log|);
      }
    case Replied(at, events) =>
      var m: nat :| RepliedAt(s0, a, at, events, m);
      assert b.log[b.lastSeq..m] == a.log[a.lastSeq..m];
      assert RepliedAt(s0, b, at, events, m);
    case _ =>
  }

  lemma RefreshedInvisible(k: Kind, s: Stores, id: string, found: string)
    ensures Visible(k, s.(feeds := Refreshed(s.feeds, id, found)).Of(k)) == Visible(k, s.Of(k))
  {
  }

  lemma RefreshKeeps(s0: Stores, a: Sys, b: Sys)
    requires Inv(s0, a) && (RefreshMaster(a, b) || RefreshSlave(a, b))
    ensures Inv(s0, b)
  {
    hide Visible;
    hide Run;
    forall k
      ensures Visible(k, b.master.Of(k)) == Visible(k, a.master.Of(k)) && Visible(k, b.slave.Of(k)) == Visible(k, a.slave.Of(k))
    {
      if RefreshMaster(a, b) {
        var id, found :| b.master == a.master.(feeds := Refreshed(a.master.feeds, id, found)) && b.slave == a.slave;
        RefreshedInvisible(k, a.master, id, found);
      } else {
        var id, found :| b.slave == a.slave.(feeds := Refreshed(a.slave.feeds, id, found)) && b.master == a.master;
        RefreshedInvisible(k, a.slave, id, found);
      }
    }
    assert forall hi: nat :: SlaveBetween(s0, a, hi) ==> SlaveBetween(s0, b, hi);
    if a.phase.Replied? {
      var m: nat :| RepliedAt(s0, a, a.phase.at, a.phase.events, m);
      assert RepliedAt(s0, b, b.phase.at, b.phase.events, m);
    }
  }

  lemma SlaveExtend(s0: Stores, a: Sys, b: Sys, op: SyncOp)
    requires b.slave == a.slave && b.lastSeq == a.lastSeq && b.log == a.log + [op]
    ensures forall hi: nat :: SlaveBetween(s0, a, hi) ==> SlaveBetween(s0, b, hi) && SlaveBetween(s0, b, hi + 1)
  {
    forall hi: nat | SlaveBetween(s0, a, hi) ensures SlaveBetween(s0, b, hi) && SlaveBetween(s0, b, hi + 1) {
      forall k ensures Between(s0, b.log, k, Visible(k, b.slave.Of(k)), b.lastSeq, hi)
        && Between(s0, b.log, k, Visible(k, b.slave.Of(k)), b.lastSeq, hi + 1) {
        assert Between(s0, a.log, k, Visible(k, a.slave.Of(k)), a.lastSeq, hi);
        BetweenExtend(s0, a.log, op, k, Visible(k, a.slave.Of(k)), a.lastSeq, hi);
      }
    }
  }

  lemma PublishKeeps(s0: Stores, a: Sys, b: Sys)
    requires Inv(s0, a) && Publish(a, b)
    ensures Inv(s0, b)
  {
    assert forall hi: nat :: SlaveBetween(s0, a, hi) ==> SlaveBetween(s0, b, hi);
    if a.phase.Replied? {
      var m: nat :| RepliedAt(s0, a, a.phase.at, a.phase.events, m);
      assert RepliedAt(s0, b, b.phase.at, b.phase.events, m);
    }
  }

  lemma FullSyncKeeps(s0: Stores, a: Sys, b: Sys)
    requires Inv(s0, a) && (BeginFull(a, b) || ReadStore(a, b) || Commit(a, b))
    ensures Inv(s0, b)
  {
    if ReadStore(a, b) {
      var k := KINDS[|a.phase.tables|];
      assert Between(s0, a.log, k, Visible(k, a.master.Of(k)), a.phase.at, |a.log|);
      assert a.synced ==> SlaveBetween(s0, a, |a.log|);
      assert b.synced ==> SlaveBetween(s0, b, |b.log|);
    } else if Commit(a, b) {
      forall k ensures Between(s0, b.log, k, Visible(k, b.slave.Of(k)), b.lastSeq, |b.log|) {
        assert exists i :: 0 <= i < 3 && KINDS[i] == k && a.phase.tables[i] == b.slave.Of(k) by {
          assert KINDS[0] == Dns && KINDS[1] == Blacklist && KINDS[2] == Feeds;
        }
      }
    } else {
      assert a.synced ==> SlaveBetween(s0, a, |a.log|);
      assert b.synced ==> SlaveBetween(s0, b, |b.log|);
    }
  }

  lemma AskKeeps(s0: Stores, a: Sys, b: Sys)
    requires Inv(s0, a) && (Ask(a, b) || Position(a, b) || Fail(a, b))
    ensures Inv(s0, b)
  {
    assert forall hi: nat :: SlaveBetween(s0, a, hi) ==> SlaveBetween(s0, b, hi);
  }

  lemma ReplyKeeps(s0: Stores, a: Sys, b: Sys)
    requires Inv(s0, a) && Reply(a, b)
    ensures Inv(s0, b)
  {
    assert forall hi: nat :: SlaveBetween(s0, a, hi) ==> SlaveBetween(s0, b, hi);
    if b.phase.Replied? {
      var m := a.published;
      SlaveWiden(s0, b, |b.log|, m + 1);
      assert Ops(b.phase.events) == a.log[a.lastSeq..m];
      assert RepliedAt(s0, b, b.phase.at, b.phase.events, m);
    }
  }

  lemma SlaveWiden(s0: Stores, s: Sys, lo: nat, hi: nat)
    requires lo <= hi
    ensures SlaveBetween(s0, s, lo) ==> SlaveBetween(s0, s, hi)
  {
    if SlaveBetween(s0, s, lo) {
      forall k ensures Between(s0, s.log, k, Visible(k, s.slave.Of(k)), s.lastSeq, hi) {
        assert Between(s0, s.log, k, Visible(k, s.slave.Of(k)), s.lastSeq, lo);
      }
    }
  }

  lemma ApplyEachOf(s: Stores, ops: seq<SyncOp>, k: Kind, found: seq<string>)
    requires |found| == |ops|
    ensures ApplyEach(s, ops, found).Of(k) == WriteAll(s.Of(k), k, ops, found)
  {
  }

  lemma ApplyKeeps(s0: Stores, a: Sys, b: Sys)
    requires Inv(s0, a) && ApplyReply(a, b)
    ensures Inv(s0, b)
  {
    hide Run;
    hide WriteAll;
    hide Visible;
    hide FreshAt;
    var m: nat :| RepliedAt(s0, a, a.phase.at, a.phase.events, m);
    var found :| Replayed(a, b, found);
    if a.synced {
      forall k ensures Between(s0, b.log, k, Visible(k, b.slave.Of(k)), b.lastSeq, |b.log|) {
        assert Between(s0, a.log, k, Visible(k, a.slave.Of(k)), a.lastSeq, m + 1);
        ApplyEachOf(a.slave, Ops(a.phase.events), k, found);
        VisibleWriteAll(a.slave.Of(k), k, Ops(a.phase.events), found);
        var n: nat :| a.lastSeq <= n <= m + 1 && n <= |a.log| && Visible(k, a.slave.Of(k)) == At(s0, k, a.log, n);
        if n <= m {
          ReplayForward(s0, k, a.log, a.lastSeq, n, m);
        } else {
          ReplayBehind(s0, k, a.log, a.lastSeq, n);
        }
      }
    }
  }

  lemma NextKeeps(s0: Stores, a: Sys, b: Sys)
    requires Inv(s0, a) && Next(s0, a, b)
    ensures Inv(s0, b)
  {
    if Mutate(s0, a, b) {
      MutateKeeps(s0, a, b);
    } else if Publish(a, b) {
      PublishKeeps(s0, a, b);
    } else if BeginFull(a, b) || ReadStore(a, b) || Commit(a, b) {
      FullSyncKeeps(s0, a, b);
    } else if Ask(a, b) || Position(a, b) || Fail(a, b) {
      AskKeeps(s0, a, b);
    } else if Reply(a, b) {
      ReplyKeeps(s0, a, b);
    } else if RefreshMaster(a, b) || RefreshSlave(a, b) {
      RefreshKeeps(s0, a, b);
    } else {
      ApplyKeeps(s0, a, b);
    }
  }

  /** Any interleaving of the two parties. */
  ghost predicate Behaviour(s0: Stores, run: seq<Sys>) {
    run != [] && Init(s0, run[0]) &&
    forall i :: 0 <= i < |run| - 1 ==> run[i].published <= |run[i].log| && Next(s0, run[i], run[i + 1])
  }

  lemma {:induction false} Reachable(s0: Stores, run: seq<Sys>, i: nat)
    requires Behaviour(s0, run) && i < |run|
    ensures Inv(s0, run[i])
  {
    if i > 0 {
      Reachable(s0, run, i - 1);
      NextKeeps(s0, run[i - 1], run[i]);
    }
  }

  /**
   After a full sync and any number of ticks, every store of the slave is the master's store at a
   moment no earlier than the slave's own position, feeds up to their refresh data.
   */
  lemma Converges(s0: Stores, run: seq<Sys>, i: nat, k: Kind)
    requires Behaviour(s0, run) && i < |run| && run[i].synced
    ensures exists n: nat :: run[i].lastSeq <= n <= |run[i].log| &&
              Visible(k, run[i].slave.Of(k)) == At(s0, k, run[i].log, n)
  {
    Reachable(s0, run, i);
    assert Between(s0, run[i].log, k, Visible(k, run[i].slave.Of(k)), run[i].lastSeq, |run[i].log|);
  }

  lemma WholeOrConfigured(s: Stores, t: Stores)
    requires forall k :: Visible(k, s.Of(k)) == Visible(k, t.Of(k))
    ensures s.dns == t.dns && s.blacklist == t.blacklist && Visible(Feeds, s.feeds) == Visible(Feeds, t.feeds)
  {
    assert Visible(Dns, s.Of(Dns)) == s.dns && Visible(Dns, t.Of(Dns)) == t.dns;
    assert Visible(Blacklist, s.Of(Blacklist)) == s.blacklist && Visible(Blacklist, t.Of(Blacklist)) == t.blacklist;
    assert Visible(Feeds, s.Of(Feeds)) == Visible(Feeds, t.Of(Feeds));
  }

  /**
   A slave whose position is the end of the log holds the master's DNS entries and blacklist
   exactly, and its feeds as configured.
   */
  lemma CaughtUp(s0: Stores, run: seq<Sys>, i: nat)
    requires Behaviour(s0, run) && i < |run| && run[i].synced && run[i].lastSeq == |run[i].log|
    ensures run[i].slave.dns == run[i].master.dns && run[i].slave.blacklist == run[i].master.blacklist
    ensures Visible(Feeds, run[i].slave.feeds) == Visible(Feeds, run[i].master.feeds)
  {
    hide Visible;
    Reachable(s0, run, i);
    var s := run[i];
    forall k ensures Visible(k, s.slave.Of(k)) == Visible(k, s.master.Of(k)) {
      assert Between(s0, s.log, k, Visible(k, s.slave.Of(k)), s.lastSeq, |s.log|);
    }
    WholeOrConfigured(s.slave, s.master);
  }

  ghost predicate SameStores(s: Sys) {
    s.slave.dns == s.master.dns && s.slave.blacklist == s.master.blacklist &&
    Visible(Feeds, s.slave.feeds) == Visible(Feeds, s.master.feeds)
  }

  /** The four steps of a tick, up to where it ends. */
  ghost predicate IsTick(run: seq<Sys>, i: nat)
    requires i + 4 < |run|
  {
    && Ask(run[i], run[i + 1])
    && (run[i + 1].phase.Asked? ==>
          && Position(run[i + 1], run[i + 2]) && run[i + 2].published <= |run[i + 2].log| && Reply(run[i + 2], run[i + 3])
          && (run[i + 3].phase.Replied? ==> ApplyReply(run[i + 3], run[i + 4])))
  }

  lemma TickPositions(s0: Stores, run: seq<Sys>, i: nat)
    requires i + 4 < |run| && Inv(s0, run[i]) && run[i].phase.Idle? && run[i].synced && run[i].published == |run[i].log|
    requires IsTick(run, i)
    ensures run[i + 1].phase.Idle? ==> run[i + 1].synced && run[i + 1].lastSeq == |run[i + 1].log|
    ensures run[i + 1].phase.Asked? && run[i + 3].phase.Replied? ==> run[i + 4].synced && run[i + 4].lastSeq == |run[i + 4].log|
    ensures run[i + 1].phase.Asked? && run[i + 3].phase.Lagging? ==> run[i].lastSeq < |run[i].log| - JOURNAL_CAPACITY
  {
    hide SlaveBetween;
    hide WellFormed;
    hide At;
    hide ApplyEach;
    hide RenewsAll;
  }

  /** One tick against a quiet master copies it, or finds that a full sync is due. */
  lemma QuietTick(s0: Stores, run: seq<Sys>, i: nat)
    requires Behaviour(s0, run) && i + 4 < |run| && run[i].phase.Idle? && run[i].synced && run[i].published == |run[i].log|
    requires IsTick(run, i)
    ensures run[i + 1].phase.Idle? ==> SameStores(run[i + 1])
    ensures run[i + 1].phase.Asked? && run[i + 3].phase.Replied? ==> SameStores(run[i + 4])
    ensures run[i + 1].phase.Asked? && run[i + 3].phase.Lagging? ==> run[i].lastSeq < |run[i].log| - JOURNAL_CAPACITY
  {
    hide Behaviour;
    hide Inv;
    hide IsTick;
    hide Visible;
    Reachable(s0, run, i);
    TickPositions(s0, run, i);
    if run[i + 1].phase.Idle? {
      CaughtUp(s0, run, i + 1);
    }
    if run[i + 1].phase.Asked? && run[i + 3].phase.Replied? {
      CaughtUp(s0, run, i + 4);
    }
  }
}
