/**
 The refresh data of feeds under replication (src/sync.rs, src/feeds/mod.rs): each side downloads for
 itself, so whole feed entries agree exactly as long as nobody refreshes.
 */
module FeedData {
  import opened SyncJournal
  import opened Replication

  ghost predicate Deleted(log: seq<SyncOp>, id: string) {
    exists j :: 0 <= j < |log| && log[j] == Delete(Feeds, id)
  }

  /** Where an entry nobody refreshed comes from: the snapshot, or the operation that created it. */
  ghost predicate Origin(base: Table, log: seq<SyncOp>, id: string, e: Entry) {
    if id in base then e == base[id] else exists j :: 0 <= j < |log| && log[j] == Add(Feeds, id, e)
  }

  /** Whatever `t` holds, outside `since`, comes from the snapshot `base` or the log. */
  ghost predicate FromOrigin(t: Table, base: Table, log: seq<SyncOp>, since: set<string>) {
    forall id :: id in t && id !in since && !Deleted(log, id) ==> Origin(base, log, id, t[id])
  }

  /** Only a deletion removes what the snapshot held. */
  ghost predicate KeepsBase(t: Table, base: Table, log: seq<SyncOp>) {
    forall id :: id in base && !Deleted(log, id) ==> id in t
  }

  /** Ids of the snapshot existed when it was taken. */
  ghost predicate BaseKnown(s0: Stores, base: Table, log: seq<SyncOp>) {
    exists n :: 0 <= n <= |log| && Visible(Feeds, base) == At(s0, Feeds, log, n)
  }

  ghost predicate Settled(s0: Stores, s: Sys) {
    && BaseKnown(s0, s.base, s.log)
    && FromOrigin(s.master.feeds, s.base, s.log, s.since)
    && FromOrigin(s.slave.feeds, s.base, s.log, s.since) && KeepsBase(s.slave.feeds, s.base, s.log)
  }

  /** The same for a snapshot under way whose feeds have been read. */
  ghost predicate Read(s0: Stores, s: Sys) {
    s.phase.Reading? && |s.phase.tables| == 3 ==>
      BaseKnown(s0, s.phase.tables[2], s.log) && FromOrigin(s.master.feeds, s.phase.tables[2], s.log, s.sinceRead)
  }

  ghost predicate FeedInv(s0: Stores, s: Sys) {
    (s.synced ==> Settled(s0, s)) && Read(s0, s)
  }

  // ---- one write ----

  lemma OriginGrows(base: Table, log: seq<SyncOp>, op: SyncOp, id: string, e: Entry)
    requires Origin(base, log, id, e)
    ensures Origin(base, log + [op], id, e)
  {
    if id !in base {
      var j :| 0 <= j < |log| && log[j] == Add(Feeds, id, e);
      assert (log + [op])[j] == log[j];
    }
  }

  lemma DeletedGrows(log: seq<SyncOp>, op: SyncOp, id: string)
    ensures Deleted(log + [op], id) <==> Deleted(log, id) || op == Delete(Feeds, id)
  {
    if Deleted(log, id) {
      var j :| 0 <= j < |log| && log[j] == Delete(Feeds, id);
      assert (log + [op])[j] == log[j];
    }
    assert (log + [op])[|log|] == op;
  }

  lemma FromOriginGrows(t: Table, base: Table, log: seq<SyncOp>, op: SyncOp, since: set<string>)
    requires FromOrigin(t, base, log, since)
    ensures FromOrigin(t, base, log + [op], since)
  {
    hide Origin;
    hide Deleted;
    forall id | id in t && id !in since && !Deleted(log + [op], id) ensures Origin(base, log + [op], id, t[id]) {
      DeletedGrows(log, op, id);
      OriginGrows(base, log, op, id, t[id]);
    }
  }

  /** Writing an operation of the log; `absent` says that what it adds is not in the snapshot. */
  lemma WriteKeepsOrigin(t: Table, base: Table, log: seq<SyncOp>, since: set<string>, i: nat, found: string)
    requires i < |log| && FromOrigin(t, base, log, since)
    requires log[i].Add? && log[i].kind == Feeds && log[i].id !in t && !Deleted(log, log[i].id) ==> log[i].id !in base
    ensures FromOrigin(Write(t, Feeds, log[i], found), base, log, since + Renews(log[i]))
  {
    hide Deleted;
    var op, u := log[i], Write(t, Feeds, log[i], found);
    forall id | id in u && id !in since + Renews(op) && !Deleted(log, id) ensures Origin(base, log, id, u[id]) {
      if id in t {
        assert u[id] == t[id];
      } else {
        assert log[i] == Add(Feeds, id, u[id]);
      }
    }
  }

  lemma WriteKeepsBase(t: Table, base: Table, log: seq<SyncOp>, i: nat, found: string)
    requires i < |log| && KeepsBase(t, base, log)
    ensures KeepsBase(Write(t, Feeds, log[i], found), base, log)
  {
    forall id | id in base && !Deleted(log, id) ensures id in Write(t, Feeds, log[i], found) {
      assert log[i] != Delete(Feeds, id);
    }
  }

  // ---- steps ----

  lemma BaseKnownGrows(s0: Stores, base: Table, log: seq<SyncOp>, op: SyncOp)
    requires BaseKnown(s0, base, log)
    ensures BaseKnown(s0, base, log + [op])
  {
    hide At;
    hide Visible;
    var n :| 0 <= n <= |log| && Visible(Feeds, base) == At(s0, Feeds, log, n);
    AtExtend(s0, Feeds, log, op, n);
  }

  lemma NewIdNotInBase(s0: Stores, base: Table, log: seq<SyncOp>, op: SyncOp)
    requires BaseKnown(s0, base, log) && op.Add? && op.kind == Feeds && FreshAt(s0, log + [op], |log|)
    ensures op.id !in base
  {
    hide At;
    var all := log + [op];
    var n :| 0 <= n <= |log| && Visible(Feeds, base) == At(s0, Feeds, log, n);
    assert all[|log|] == op;
    FreshAbsent(s0, Feeds, all, |log|, n);
    AtExtend(s0, Feeds, log, op, n);
    assert base.Keys == Visible(Feeds, base).Keys;
  }

  /** The master's own change, seen from a snapshot. */
  lemma MasterWrites(s0: Stores, t: Table, base: Table, log: seq<SyncOp>, op: SyncOp, since: set<string>, found: string)
    requires BaseKnown(s0, base, log) && FromOrigin(t, base, log, since) && FreshAt(s0, log + [op], |log|)
    ensures BaseKnown(s0, base, log + [op]) && FromOrigin(Write(t, Feeds, op, found), base, log + [op], since + Renews(op))
  {
    hide FromOrigin;
    hide BaseKnown;
    hide Write;
    hide Deleted;
    BaseKnownGrows(s0, base, log, op);
    FromOriginGrows(t, base, log, op, since);
    if op.Add? && op.kind == Feeds {
      NewIdNotInBase(s0, base, log, op);
    }
    assert (log + [op])[|log|] == op;
    WriteKeepsOrigin(t, base, log + [op], since, |log|, found);
  }

  lemma KeepsBaseGrows(t: Table, base: Table, log: seq<SyncOp>, op: SyncOp)
    requires KeepsBase(t, base, log)
    ensures KeepsBase(t, base, log + [op])
  {
    hide Deleted;
    forall id | id in base && !Deleted(log + [op], id) ensures id in t {
      DeletedGrows(log, op, id);
    }
  }

  lemma MoreSince(t: Table, base: Table, log: seq<SyncOp>, since: set<string>, more: set<string>)
    requires FromOrigin(t, base, log, since)
    ensures FromOrigin(t, base, log, since + more)
  {
  }

  lemma MutateFeeds(s0: Stores, a: Sys, b: Sys)
    requires FeedInv(s0, a) && Mutate(s0, a, b)
    ensures FeedInv(s0, b)
  {
    hide FromOrigin;
    hide BaseKnown;
    hide KeepsBase;
    hide FreshAt;
    hide Write;
    hide Renews;
    var op, found :| Mutated(s0, a, b, op, found);
    assert b.master.feeds == Write(a.master.feeds, Feeds, op, found);
    if a.synced {
      MasterWrites(s0, a.master.feeds, a.base, a.log, op, a.since, found);
      FromOriginGrows(a.slave.feeds, a.base, a.log, op, a.since);
      MoreSince(a.slave.feeds, a.base, b.log, a.since, Renews(op));
      KeepsBaseGrows(a.slave.feeds, a.base, a.log, op);
    }
    if a.phase.Reading? && |a.phase.tables| == 3 {
      MasterWrites(s0, a.master.feeds, a.phase.tables[2], a.log, op, a.sinceRead, found);
    }
  }

  lemma RefreshedOrigin(t: Table, base: Table, log: seq<SyncOp>, since: set<string>, id: string, found: string)
    requires FromOrigin(t, base, log, since)
    ensures FromOrigin(Refreshed(t, id, found), base, log, since + {id})
  {
  }

  lemma RefreshedBase(t: Table, base: Table, log: seq<SyncOp>, id: string, found: string)
    requires KeepsBase(t, base, log)
    ensures KeepsBase(Refreshed(t, id, found), base, log)
  {
  }

  lemma RefreshFeeds(s0: Stores, a: Sys, b: Sys)
    requires FeedInv(s0, a) && (RefreshMaster(a, b) || RefreshSlave(a, b))
    ensures FeedInv(s0, b)
  {
    hide FromOrigin;
    hide BaseKnown;
    hide KeepsBase;
    hide Refreshed;
    if RefreshMaster(a, b) {
      var id, found :|
        b == a.(master := a.master.(feeds := Refreshed(a.master.feeds, id, found)),
                since := a.since + {id}, sinceRead := a.sinceRead + {id});
      if a.synced {
        RefreshedOrigin(a.master.feeds, a.base, a.log, a.since, id, found);
        MoreSince(a.slave.feeds, a.base, a.log, a.since, {id});
      }
      if a.phase.Reading? && |a.phase.tables| == 3 {
        RefreshedOrigin(a.master.feeds, a.phase.tables[2], a.log, a.sinceRead, id, found);
      }
    } else {
      var id, found :| b == a.(slave := a.slave.(feeds := Refreshed(a.slave.feeds, id, found)), since := a.since + {id});
      if a.synced {
        RefreshedOrigin(a.slave.feeds, a.base, a.log, a.since, id, found);
        RefreshedBase(a.slave.feeds, a.base, a.log, id, found);
        MoreSince(a.master.feeds, a.base, a.log, a.since, {id});
      }
    }
  }

  /** What has just been read is its own origin. */
  lemma SelfOrigin(t: Table, log: seq<SyncOp>, since: set<string>)
    ensures FromOrigin(t, t, log, since) && KeepsBase(t, t, log)
  {
  }

  lemma SnapshotFeeds(s0: Stores, a: Sys, b: Sys)
    requires Inv(s0, a) && FeedInv(s0, a) && (ReadStore(a, b) || Commit(a, b))
    ensures FeedInv(s0, b)
  {
    hide FromOrigin;
    hide KeepsBase;
    hide At;
    hide Visible;
    if ReadStore(a, b) && |b.phase.tables| == 3 {
      var t := a.master.feeds;
      assert KINDS[2] == Feeds && b.phase.tables[2] == a.master.Of(Feeds) == t;
      assert Visible(Feeds, a.master.Of(Feeds)) == At(s0, Feeds, a.log, |a.log|);
      assert BaseKnown(s0, t, b.log);
      SelfOrigin(t, b.log, {});
    } else if Commit(a, b) {
      SelfOrigin(b.base, b.log, b.since);
    }
  }

  // ---- replaying a reply ----

  /** Every operation is one of the log. */
  ghost predicate Logged(ops: seq<SyncOp>, log: seq<SyncOp>) {
    forall i :: 0 <= i < |ops| ==> ops[i] in log
  }

  lemma {:induction false} ReplayOrigin(t: Table, base: Table, log: seq<SyncOp>, since: set<string>, ops: seq<SyncOp>,
                                        found: seq<string>)
    requires |found| == |ops| && Logged(ops, log) && FromOrigin(t, base, log, since) && KeepsBase(t, base, log)
    ensures FromOrigin(WriteAll(t, Feeds, ops, found), base, log, since + RenewsAll(ops))
    ensures KeepsBase(WriteAll(t, Feeds, ops, found), base, log)
  {
    hide FromOrigin;
    hide Write;
    if ops == [] {
      assert since + RenewsAll(ops) == since;
    } else {
      var n := |ops| - 1;
      var u := WriteAll(t, Feeds, ops[..n], found[..n]);
      ReplayOrigin(t, base, log, since, ops[..n], found[..n]);
      assert ops[n] in log;
      var i :| 0 <= i < |log| && log[i] == ops[n];
      WriteKeepsOrigin(u, base, log, since + RenewsAll(ops[..n]), i, found[n]);
      WriteKeepsBase(u, base, log, i, found[n]);
      RenewsStep(ops);
      assert since + RenewsAll(ops[..n]) + Renews(ops[n]) == since + RenewsAll(ops);
    }
  }

  lemma RenewsStep(ops: seq<SyncOp>)
    requires ops != []
    ensures RenewsAll(ops) == RenewsAll(ops[..|ops| - 1]) + Renews(ops[|ops| - 1])
  {
    var n := |ops| - 1;
    forall id ensures id in RenewsAll(ops) <==> id in RenewsAll(ops[..n]) + Renews(ops[n]) {
      if id in RenewsAll(ops[..n]) {
        var i :| 0 <= i < n && ops[..n][i].UpdateFeed? && ops[..n][i].id == id;
        assert ops[i].UpdateFeed? && ops[i].id == id;
      }
      if id in RenewsAll(ops) {
        var i :| 0 <= i <= n && ops[i].UpdateFeed? && ops[i].id == id;
        assert i < n ==> ops[..n][i].UpdateFeed? && ops[..n][i].id == id;
      }
    }
  }

  lemma ReplyFeeds(s0: Stores, a: Sys, b: Sys)
    requires Inv(s0, a) && FeedInv(s0, a) && ApplyReply(a, b)
    ensures FeedInv(s0, b)
  {
    hide FromOrigin;
    hide KeepsBase;
    hide BaseKnown;
    hide WriteAll;
    hide RenewsAll;
    hide SlaveBetween;
    hide WellFormed;
    hide At;
    var found :| Replayed(a, b, found);
    var m: nat :| RepliedAt(s0, a, a.phase.at, a.phase.events, m);
    var ops := Ops(a.phase.events);
    assert Logged(ops, a.log) by {
      forall i | 0 <= i < |ops| ensures ops[i] in a.log {
        assert ops[i] == a.log[a.lastSeq + i];
      }
    }
    if a.synced {
      ReplayOrigin(a.slave.feeds, a.base, a.log, a.since, ops, found);
      MoreSince(a.master.feeds, a.base, a.log, a.since, RenewsAll(ops));
    }
  }

  lemma NextFeeds(s0: Stores, a: Sys, b: Sys)
    requires a.published <= |a.log| && Inv(s0, a) && FeedInv(s0, a) && Next(s0, a, b)
    ensures FeedInv(s0, b)
  {
    hide Inv;
    hide Settled;
    if Mutate(s0, a, b) {
      MutateFeeds(s0, a, b);
    } else if RefreshMaster(a, b) || RefreshSlave(a, b) {
      RefreshFeeds(s0, a, b);
    } else if ReadStore(a, b) || Commit(a, b) {
      SnapshotFeeds(s0, a, b);
    } else if ApplyReply(a, b) {
      ReplyFeeds(s0, a, b);
    } else {
      OtherFeeds(s0, a, b);
    }
  }

  lemma OtherFeeds(s0: Stores, a: Sys, b: Sys)
    requires a.published <= |a.log| && FeedInv(s0, a)
    requires Publish(a, b) || BeginFull(a, b) || Ask(a, b) || Position(a, b) || Reply(a, b) || Fail(a, b)
    ensures FeedInv(s0, b)
  {
    hide FromOrigin;
    hide KeepsBase;
    hide BaseKnown;
  }

  lemma {:induction false} FeedsReachable(s0: Stores, run: seq<Sys>, i: nat)
    requires Behaviour(s0, run) && i < |run|
    ensures FeedInv(s0, run[i])
  {
    hide Inv;
    hide FeedInv;
    if i == 0 {
      StartsSettled(s0, run[0]);
    } else {
      FeedsReachable(s0, run, i - 1);
      Reachable(s0, run, i - 1);
      NextFeeds(s0, run[i - 1], run[i]);
    }
  }

  lemma StartsSettled(s0: Stores, s: Sys)
    requires Init(s0, s)
    ensures FeedInv(s0, s)
  {
  }

  // ---- agreement ----

  /** What the master still has was never deleted. */
  lemma {:induction false} GoneForGood(s0: Stores, log: seq<SyncOp>, j: nat, n: nat, id: string)
    requires WellFormed(s0, log) && j < n <= |log| && log[j] == Delete(Feeds, id)
    ensures id !in At(s0, Feeds, log, n)
  {
    hide Run;
    AtStep(s0, Feeds, log, n - 1);
    if n - 1 == j {
    } else {
      GoneForGood(s0, log, j, n - 1, id);
      assert FreshAt(s0, log, n - 1) && FreshAt(s0, log, j);
      NotAddedAgain(s0, log, j, n - 1, id);
    }
  }

  lemma NotAddedAgain(s0: Stores, log: seq<SyncOp>, j: nat, i: nat, id: string)
    requires j < i < |log| && FreshAt(s0, log, i) && FreshAt(s0, log, j) && log[j] == Delete(Feeds, id)
    ensures !(log[i].Add? && Touches(log[i], Feeds, id))
  {
    if log[i].Add? && Touches(log[i], Feeds, id) {
      FreshAbsent(s0, Feeds, log, i, j);
    }
  }

  /**
   A feed that neither side has refreshed since the slave's snapshot read it is the same on both
   sides, data included.
   */
  lemma UnrefreshedAgree(s0: Stores, run: seq<Sys>, i: nat, id: string)
    requires Behaviour(s0, run) && i < |run| && run[i].synced
    requires id in run[i].slave.feeds && id in run[i].master.feeds && id !in run[i].since
    ensures run[i].slave.feeds[id] == run[i].master.feeds[id]
  {
    hide Next;
    var s := run[i];
    Reachable(s0, run, i);
    FeedsReachable(s0, run, i);
    assert id in Visible(Feeds, s.master.Of(Feeds));
    if Deleted(s.log, id) {
      var j :| 0 <= j < |s.log| && s.log[j] == Delete(Feeds, id);
      GoneForGood(s0, s.log, j, |s.log|, id);
    }
    OneOrigin(s0, s.base, s.log, id, s.slave.feeds[id], s.master.feeds[id]);
  }

  lemma OneOrigin(s0: Stores, base: Table, log: seq<SyncOp>, id: string, d: Entry, e: Entry)
    requires WellFormed(s0, log) && Origin(base, log, id, d) && Origin(base, log, id, e)
    ensures d == e
  {
    if id !in base {
      var i :| 0 <= i < |log| && log[i] == Add(Feeds, id, d);
      var j :| 0 <= j < |log| && log[j] == Add(Feeds, id, e);
      assert FreshAt(s0, log, i) && FreshAt(s0, log, j);
    }
  }

  /** A refresh settles it: the entries then agree exactly if it brought what the other side already had. */
  lemma RefreshDecides(s: Stores, t: Stores, id: string, found: string)
    requires id in s.feeds && id in t.feeds && Visible(Feeds, s.feeds) == Visible(Feeds, t.feeds)
    ensures Refreshed(s.feeds, id, found)[id] == t.feeds[id] <==> found == t.feeds[id].data
  {
    assert Visible(Feeds, s.feeds)[id] == Visible(Feeds, t.feeds)[id];
  }

  /** From wherever a run has come, one refresh makes the two entries differ. */
  lemma OneRefreshSuffices(s0: Stores, run: seq<Sys>, id: string) returns (next: Sys)
    requires Behaviour(s0, run) && run[|run| - 1].synced
    requires id in run[|run| - 1].slave.feeds && id in run[|run| - 1].master.feeds
    ensures Behaviour(s0, run + [next]) && next.since == run[|run| - 1].since + {id}
    ensures id in next.slave.feeds && id in next.master.feeds && next.slave.feeds[id] != next.master.feeds[id]
  {
    var s := run[|run| - 1];
    var found := if s.master.feeds[id].data == "" then "0" else "";
    next := s.(slave := s.slave.(feeds := Refreshed(s.slave.feeds, id, found)), since := s.since + {id});
    assert RefreshSlave(s, next);
    Reachable(s0, run, |run| - 1);
    Extended(s0, run, next);
  }

  lemma Extended(s0: Stores, run: seq<Sys>, next: Sys)
    requires Behaviour(s0, run) && run[|run| - 1].published <= |run[|run| - 1].log| && Next(s0, run[|run| - 1], next)
    ensures Behaviour(s0, run + [next])
  {
    hide Next;
    hide Init;
  }

  // ---- a refresh and its replay ----

  const FEED := "f"
  const STOCK := Stores(map[], map[], map[FEED := Entry("url", "0")])
  const START := Sys(STOCK, [], 0, Stores(map[], map[], map[]), 0, false, Starting, map[], {}, {})

  /** A full sync, a refresh on the master with its event, and a tick of the slave. */
  function RefreshRun(): seq<Sys> {
    var r0 := START.(phase := Reading(0, []));
    var r1 := r0.(phase := Reading(0, [map[]]));
    var r2 := r0.(phase := Reading(0, [map[], map[]]));
    var r3 := r0.(phase := Reading(0, [map[], map[], STOCK.feeds]));
    var c := r3.(slave := STOCK, synced := true, phase := Idle, base := STOCK.feeds);
    var m := c.(master := Apply(STOCK, UpdateFeed(FEED), "1"), log := [UpdateFeed(FEED)], since := {FEED}, sinceRead := {FEED});
    var p := m.(published := 1);
    var q := p.(phase := Asked);
    var at := p.(phase := Positioned(1));
    var events := [SyncEvent(0, UpdateFeed(FEED))];
    var got := p.(phase := Replied(1, events));
    var done := got.(slave := ApplyEach(STOCK, [UpdateFeed(FEED)], ["2"]), lastSeq := 1, phase := Idle);
    [START, r0, r1, r2, r3, c, m, p, q, at, got, done]
  }

  lemma SnapshotSteps()
    ensures var run := RefreshRun();
      && Init(STOCK, run[0]) && BeginFull(run[0], run[1]) && ReadStore(run[1], run[2]) && ReadStore(run[2], run[3])
      && ReadStore(run[3], run[4]) && Commit(run[4], run[5])
  {
    assert KINDS[0] == Dns && KINDS[1] == Blacklist && KINDS[2] == Feeds;
    var none: Table := map[];
    assert [] + [none] == [none] && [none] + [none] == [none, none] && [none, none] + [STOCK.feeds] == [none, none, STOCK.feeds];
  }

  lemma MasterSteps()
    ensures var run := RefreshRun();
      && Mutate(STOCK, run[5], run[6]) && Publish(run[6], run[7]) && Ask(run[7], run[8]) && Position(run[8], run[9])
  {
    var run := RefreshRun();
    var op := UpdateFeed(FEED);
    assert [] + [op] == [op];
    assert Mutated(STOCK, run[5], run[6], op, "1");
  }

  lemma ReplySteps()
    ensures var run := RefreshRun(); Reply(run[9], run[10]) && ApplyReply(run[10], run[11])
  {
    var run := RefreshRun();
    var op := UpdateFeed(FEED);
    assert [op][..1] == [op] && EventsFrom([op], 0) == [SyncEvent(0, op)];
    assert Ops([SyncEvent(0, op)]) == [op];
    assert RenewsAll([op]) == {FEED} by {
      assert [op][0].id in RenewsAll([op]);
    }
    assert {FEED} + {FEED} == {FEED};
    assert Replayed(run[10], run[11], ["2"]);
  }

  lemma WriteOne(t: Table, op: SyncOp, found: string)
    ensures WriteAll(t, Feeds, [op], [found]) == Write(t, Feeds, op, found)
  {
    assert [op][..0] == [] && [found][..0] == [];
    assert WriteAll(t, Feeds, [op][..0], [found][..0]) == t;
  }

  /** After one refresh and its replay both sides are at the end of the log and the entries differ. */
  lemma RefreshDiverges()
    ensures var run := RefreshRun();
      && Behaviour(STOCK, run) && run[11].synced && run[11].lastSeq == |run[11].log|
      && FEED in run[11].slave.feeds && FEED in run[11].master.feeds
      && run[11].slave.feeds[FEED] != run[11].master.feeds[FEED]
  {
    hide Init, Mutate, Publish, BeginFull, ReadStore, Commit, Ask, Position, Reply, ApplyReply, Fail, RefreshMaster, RefreshSlave;
    SnapshotSteps();
    MasterSteps();
    ReplySteps();
    var run := RefreshRun();
    WriteOne(STOCK.feeds, UpdateFeed(FEED), "2");
    assert run[11].slave.feeds == Refreshed(STOCK.feeds, FEED, "2") && run[11].master.feeds == Refreshed(STOCK.feeds, FEED, "1");
    assert "1"[0] != "2"[0];
  }
}
