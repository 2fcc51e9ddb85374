/** What alert counting keeps over whole runs (src/alerts.rs). */
module AlertProofs {
  import opened Prelude
  import opened Maps
  import opened Alerts

  // ---- runs ----

  const NOTHING_YET := State(map[], map[], map[], [], [])

  function After(rules: seq<Rule>, qs: seq<Query>, collect: bool): State {
    if qs == [] then NOTHING_YET
    else Recorded(After(rules, qs[..|qs| - 1], collect), rules, qs[|qs| - 1], collect).state
  }

  /** The clock reading of each query's counting never goes back. */
  ghost predicate InOrder(qs: seq<Query>) {
    forall i, j :: 0 <= i < j < |qs| ==> qs[i].now <= qs[j].now
  }

  // ---- a stale bucket counts like a missing one ----

  predicate Named(rules: seq<Rule>, name: string) {
    exists i :: 0 <= i < |rules| && Counts(rules[i]) && rules[i].name == name
  }

  predicate Known(b: Bucket, rules: seq<Rule>) {
    forall name :: name in b ==> Named(rules, name)
  }

  lemma NamedStep(rules: seq<Rule>, name: string)
    requires rules != []
    ensures var r := rules[|rules| - 1];
            Named(rules, name) <==> Named(rules[..|rules| - 1], name) || (Counts(r) && r.name == name)
  {
    var k := |rules| - 1;
    if Named(rules[..k], name) {
      var i :| 0 <= i < k && Counts(rules[..k][i]) && rules[..k][i].name == name;
      assert Counts(rules[i]);
    }
    if Named(rules, name) {
      var i :| 0 <= i < |rules| && Counts(rules[i]) && rules[i].name == name;
      assert i < k ==> Counts(rules[..k][i]);
    }
  }

  ghost predicate SameAt(b: Bucket, c: Bucket, name: string) {
    (name in b <==> name in c) && (name in b ==> b[name] == c[name])
  }

  /** Windows at least as old as every rule's length start over, as missing ones start. */
  lemma {:induction false} StaleStartsOver(b: Bucket, rules: seq<Rule>, now: Instant, longest: nat, name: string)
    requires forall n :: n in b ==> Age(now, b[n].start) >= longest
    requires forall i :: 0 <= i < |rules| ==> rules[i].window <= longest
    ensures Named(rules, name) ==> SameAt(Counted(b, rules, now), Counted(map[], rules, now), name)
    ensures !Named(rules, name) ==> SameAt(Counted(b, rules, now), b, name) && name !in Counted(map[], rules, now)
  {
    if rules != [] {
      var k := |rules| - 1;
      NamedStep(rules, name);
      StaleStartsOver(b, rules[..k], now, longest, name);
    }
  }

  lemma {:induction false} StaleFires(b: Bucket, rules: seq<Rule>, now: Instant, longest: nat)
    requires forall n :: n in b ==> Age(now, b[n].start) >= longest
    requires forall i :: 0 <= i < |rules| ==> rules[i].window <= longest
    ensures Fired(b, rules, now) == Fired(map[], rules, now)
  {
    if rules != [] {
      var k := |rules| - 1;
      StaleFires(b, rules[..k], now, longest);
      StaleStartsOver(b, rules, now, longest, rules[k].name);
      NamedStep(rules, rules[k].name);
    }
  }

  lemma {:induction false} MaxWindowIsMax(rules: seq<Rule>, i: nat)
    requires i < |rules|
    ensures rules[i].window <= MaxWindow(rules)
  {
    if i < |rules| - 1 {
      MaxWindowIsMax(rules[..|rules| - 1], i);
    }
  }

  lemma StaleLikeMissing(b: Bucket, rules: seq<Rule>, now: Instant)
    requires Stale(b, rules, now) && Known(b, rules)
    ensures Counted(b, rules, now) == Counted(map[], rules, now) && Fired(b, rules, now) == Fired(map[], rules, now)
  {
    hide Counted;
    hide Fired;
    var longest := MaxWindow(rules);
    forall i | 0 <= i < |rules| ensures rules[i].window <= longest {
      MaxWindowIsMax(rules, i);
    }
    var x, y := Counted(b, rules, now), Counted(map[], rules, now);
    forall name ensures SameAt(x, y, name) {
      StaleStartsOver(b, rules, now, longest, name);
      if !Named(rules, name) {
        assert name !in b;
      }
    }
    forall name ensures (name in x <==> name in y) && (name in x ==> x[name] == y[name]) {
      assert SameAt(x, y, name);
    }
    StaleFires(b, rules, now, longest);
  }

  lemma {:induction false} CountedKnown(b: Bucket, rules: seq<Rule>, now: Instant, all: seq<Rule>)
    requires Known(b, all) && forall r :: r in rules ==> r in all
    ensures Known(Counted(b, rules, now), all)
  {
    if rules != [] {
      var r := rules[|rules| - 1];
      CountedKnown(b, rules[..|rules| - 1], now, all);
      if Counts(r) {
        assert r in rules;
        var i :| 0 <= i < |all| && all[i] == r;
        assert Named(all, r.name);
      }
    }
  }

  // ---- collection is invisible ----

  /** The collecting tracker misses only buckets that are stale. */
  ghost predicate CountsAgree(a: map<Ip, Bucket>, b: map<Ip, Bucket>, rules: seq<Rule>, clock: Instant) {
    && (forall ip :: ip in a ==> ip in b && a[ip] == b[ip])
    && (forall ip :: ip in b ==> Known(b[ip], rules))
    && (forall ip :: ip in b && ip !in a ==> Stale(b[ip], rules, clock))
  }

  ghost predicate Agree(a: State, b: State, rules: seq<Rule>, clock: Instant) {
    a.(counts := map[]) == b.(counts := map[]) && CountsAgree(a.counts, b.counts, rules, clock)
  }

  lemma AgeGrows(early: Instant, late: Instant, start: Instant)
    requires early <= late
    ensures Age(early, start) <= Age(late, start)
  {
  }

  lemma StaleStays(b: Bucket, rules: seq<Rule>, early: Instant, late: Instant)
    requires early <= late && Stale(b, rules, early)
    ensures Stale(b, rules, late)
  {
    forall name | name in b ensures Age(late, b[name].start) >= MaxWindow(rules) * 2 {
      AgeGrows(early, late, b[name].start);
    }
  }

  lemma AgreeLater(a: map<Ip, Bucket>, b: map<Ip, Bucket>, rules: seq<Rule>, early: Instant, late: Instant)
    requires CountsAgree(a, b, rules, early) && early <= late
    ensures CountsAgree(a, b, rules, late) && CountsAgree(Collected(a, rules, late), b, rules, late)
  {
    forall ip | ip in b && ip !in a ensures Stale(b[ip], rules, late) {
      StaleStays(b[ip], rules, early, late);
    }
  }

  /** Firing a rule neither reads nor changes the counters. */
  lemma TriggeredSplit(s: State, c: map<Ip, Bucket>, ip: Ip, r: Rule, now: Instant, epoch: nat)
    ensures Triggered(s.(counts := c), ip, r, now, epoch) == Triggered(s, ip, r, now, epoch).(counts := c)
    ensures Triggered(s, ip, r, now, epoch).counts == s.counts
  {
    hide Banned;
    hide Remembered;
    hide BanExempt;
  }

  lemma TriggeredSame(a: State, b: State, ip: Ip, r: Rule, now: Instant, epoch: nat)
    requires a.(counts := map[]) == b.(counts := map[])
    ensures Triggered(a, ip, r, now, epoch).(counts := map[]) == Triggered(b, ip, r, now, epoch).(counts := map[])
    ensures Triggered(a, ip, r, now, epoch).counts == a.counts && Triggered(b, ip, r, now, epoch).counts == b.counts
  {
    TriggeredSplit(a, map[], ip, r, now, epoch);
    TriggeredSplit(b, map[], ip, r, now, epoch);
  }

  /** Firing rules act on everything but the counts. */
  lemma {:induction false} TriggeredAllSame(a: State, b: State, ip: Ip, fired: seq<Rule>, now: Instant, epoch: nat)
    requires a.(counts := map[]) == b.(counts := map[])
    ensures TriggeredAll(a, ip, fired, now, epoch).(counts := map[]) == TriggeredAll(b, ip, fired, now, epoch).(counts := map[])
    ensures TriggeredAll(a, ip, fired, now, epoch).counts == a.counts && TriggeredAll(b, ip, fired, now, epoch).counts == b.counts
  {
    hide Triggered;
    if fired != [] {
      var k := |fired| - 1;
      TriggeredAllSame(a, b, ip, fired[..k], now, epoch);
      TriggeredSame(TriggeredAll(a, ip, fired[..k], now, epoch), TriggeredAll(b, ip, fired[..k], now, epoch),
                    ip, fired[k], now, epoch);
    }
  }

  lemma JudgedSame(a: State, b: State, q: Query, fired: seq<Rule>)
    requires a.(counts := map[]) == b.(counts := map[])
    ensures Judged(a, q, fired).verdict == Judged(b, q, fired).verdict
    ensures Judged(a, q, fired).state.(counts := map[]) == Judged(b, q, fired).state.(counts := map[])
    ensures Judged(a, q, fired).state.counts == a.counts && Judged(b, q, fired).state.counts == b.counts
    ensures Judged(a, q, fired).fired == fired == Judged(b, q, fired).fired
  {
    TriggeredAllSame(a, b, q.ip, fired, q.now, q.epoch);
  }

  lemma CountedAgree(a: map<Ip, Bucket>, b: map<Ip, Bucket>, rules: seq<Rule>, q: Query)
    requires CountsAgree(a, b, rules, q.now)
    ensures Counted(BucketOf(a, q.ip), rules, q.now) == Counted(BucketOf(b, q.ip), rules, q.now)
    ensures Fired(BucketOf(a, q.ip), rules, q.now) == Fired(BucketOf(b, q.ip), rules, q.now)
    ensures var c := Counted(BucketOf(b, q.ip), rules, q.now); CountsAgree(a[q.ip := c], b[q.ip := c], rules, q.now)
  {
    hide Counted;
    hide Fired;
    var x := BucketOf(b, q.ip);
    if q.ip in b && q.ip !in a {
      StaleLikeMissing(x, rules, q.now);
    }
    CountedKnown(x, rules, q.now, rules);
  }

  lemma RecordedAgree(a: State, b: State, rules: seq<Rule>, q: Query, clock: Instant)
    requires Agree(a, b, rules, clock) && clock <= q.now
    ensures Recorded(a, rules, q, true).verdict == Recorded(b, rules, q, false).verdict
    ensures Recorded(a, rules, q, true).fired == Recorded(b, rules, q, false).fired
    ensures Agree(Recorded(a, rules, q, true).state, Recorded(b, rules, q, false).state, rules, q.now)
  {
    hide Judged;
    hide CountsAgree;
    AgreeLater(a.counts, b.counts, rules, clock, q.now);
    if IsCounted(a, rules, q) {
      var x := Tabled(a, rules, q, true);
      CountedAgree(x, b.counts, rules, q);
      var c := Counted(BucketOf(b.counts, q.ip), rules, q.now);
      var swept := Swept(a.blocked, q.ip, q.arrival);
      JudgedSame(a.(blocked := swept, counts := x[q.ip := c]), b.(blocked := swept, counts := b.counts[q.ip := c]),
                 q, Fired(BucketOf(b.counts, q.ip), rules, q.now));
    }
  }

  lemma {:induction false} RunsAgree(rules: seq<Rule>, qs: seq<Query>)
    requires InOrder(qs)
    ensures Agree(After(rules, qs, true), After(rules, qs, false), rules, if qs == [] then 0 else qs[|qs| - 1].now)
  {
    if qs != [] {
      var init := qs[..|qs| - 1];
      RunsAgree(rules, init);
      RecordedAgree(After(rules, init, true), After(rules, init, false), rules, qs[|qs| - 1],
                    if init == [] then 0 else init[|init| - 1].now);
    }
  }

  /**
   After any run, the next query gets the same verdict and fires the same rules, and bans, recent
   alerts and notifications are the same, as in a tracker that never collects.
   */
  lemma CollectionIsInvisible(rules: seq<Rule>, qs: seq<Query>, q: Query)
    requires InOrder(qs + [q])
    ensures var (a, b) := (After(rules, qs, true), After(rules, qs, false));
            && a.(counts := map[]) == b.(counts := map[])
            && Recorded(a, rules, q, true).verdict == Recorded(b, rules, q, false).verdict
            && Recorded(a, rules, q, true).fired == Recorded(b, rules, q, false).fired
  {
    hide Recorded;
    assert forall i :: 0 <= i < |qs| ==> (qs + [q])[i] == qs[i];
    assert (qs + [q])[|qs|] == q;
    RunsAgree(rules, qs);
    RecordedAgree(After(rules, qs, true), After(rules, qs, false), rules, q, if qs == [] then 0 else qs[|qs| - 1].now);
  }

  // ---- each rule fires once per window ----

  ghost predicate DistinctNames(rules: seq<Rule>) {
    forall i, j :: 0 <= i < j < |rules| ==> rules[i].name != rules[j].name
  }

  lemma {:induction false} CountedElsewhere(b: Bucket, rules: seq<Rule>, now: Instant, name: string)
    requires forall i :: 0 <= i < |rules| ==> rules[i].name != name
    ensures SameAt(Counted(b, rules, now), b, name)
  {
    if rules != [] {
      CountedElsewhere(b, rules[..|rules| - 1], now, name);
    }
  }

  /** Other rules leave a rule's window alone. */
  lemma {:induction false} CountedOwn(b: Bucket, rules: seq<Rule>, now: Instant, j: nat)
    requires DistinctNames(rules) && j < |rules|
    ensures SameAt(Counted(b, rules, now), Bumped(b, rules[j], now), rules[j].name)
  {
    var k := |rules| - 1;
    if j < k {
      CountedOwn(b, rules[..k], now, j);
    } else {
      CountedElsewhere(b, rules[..k], now, rules[j].name);
    }
  }

  lemma {:induction false} FiredElsewhere(b: Bucket, rules: seq<Rule>, now: Instant, r: Rule)
    requires forall i :: 0 <= i < |rules| ==> rules[i].name != r.name
    ensures r !in Fired(b, rules, now)
  {
    if rules != [] {
      FiredElsewhere(b, rules[..|rules| - 1], now, r);
    }
  }

  lemma {:induction false} FiredOwn(b: Bucket, rules: seq<Rule>, now: Instant, j: nat)
    requires DistinctNames(rules) && j < |rules|
    ensures rules[j] in Fired(b, rules, now) <==> Crossed(Bumped(b, rules[j], now), rules[j])
  {
    var k := |rules| - 1;
    if j < k {
      FiredOwn(b, rules[..k], now, j);
    } else {
      FiredElsewhere(b, rules[..k], now, rules[j]);
      CountedOwn(b, rules, now, j);
    }
  }

  /** The times of the counted queries of one client. */
  function Times(rules: seq<Rule>, qs: seq<Query>, ip: Ip): seq<Instant> {
    if qs == [] then []
    else
      var init, q := qs[..|qs| - 1], qs[|qs| - 1];
      Times(rules, init, ip) + if q.ip == ip && IsCounted(After(rules, init, false), rules, q) then [q.now] else []
  }

  /** The query that opened the window of the last one: the first starts a window, and so does any that comes too late. */
  function Opened(ts: seq<Instant>, window: nat): (o: nat)
    requires ts != []
    ensures o < |ts|
  {
    if |ts| == 1 then 0
    else
      var o := Opened(ts[..|ts| - 1], window);
      if Age(ts[|ts| - 1], ts[o]) >= window then |ts| - 1 else o
  }

  ghost predicate Tracks(b: Bucket, r: Rule, ts: seq<Instant>) {
    if ts == [] then r.name !in b
    else r.name in b && b[r.name] == Window(|ts| - Opened(ts, r.window), ts[Opened(ts, r.window)])
  }

  lemma BumpTracks(b: Bucket, r: Rule, ts: seq<Instant>, now: Instant)
    requires Counts(r) && Tracks(b, r, ts)
    ensures Tracks(Bumped(b, r, now), r, ts + [now])
  {
    assert (ts + [now])[..|ts|] == ts;
  }

  lemma {:induction false} RunTracks(rules: seq<Rule>, qs: seq<Query>, ip: Ip, j: nat)
    requires DistinctNames(rules) && j < |rules| && Counts(rules[j])
    ensures Tracks(BucketOf(After(rules, qs, false).counts, ip), rules[j], Times(rules, qs, ip))
  {
    if qs != [] {
      var init, q := qs[..|qs| - 1], qs[|qs| - 1];
      RunTracks(rules, init, ip, j);
      RecordTracks(After(rules, init, false), rules, q, ip, j, Times(rules, init, ip));
    }
  }

  lemma RecordTracks(s: State, rules: seq<Rule>, q: Query, ip: Ip, j: nat, ts: seq<Instant>)
    requires DistinctNames(rules) && j < |rules| && Counts(rules[j]) && Tracks(BucketOf(s.counts, ip), rules[j], ts)
    ensures Tracks(BucketOf(Recorded(s, rules, q, false).state.counts, ip), rules[j],
                   ts + if q.ip == ip && IsCounted(s, rules, q) then [q.now] else [])
  {
    hide Judged;
    hide Counted;
    assert ts + [] == ts;
    if IsCounted(s, rules, q) {
      var b := BucketOf(s.counts, q.ip);
      var t := s.(blocked := Swept(s.blocked, q.ip, q.arrival), counts := s.counts[q.ip := Counted(b, rules, q.now)]);
      JudgedSame(t, t, q, Fired(b, rules, q.now));
      if q.ip == ip {
        CountedOwn(b, rules, q.now, j);
        BumpTracks(b, rules[j], ts, q.now);
      }
    }
  }

  /**
   A rule fires at a query exactly if the query is counted and is number `threshold + 1` of its
   window, whatever the other rules are and whether or not buckets are collected.
   */
  lemma FiresExactly(rules: seq<Rule>, qs: seq<Query>, q: Query, j: nat)
    requires DistinctNames(rules) && j < |rules| && Counts(rules[j]) && InOrder(qs + [q])
    ensures var ts := Times(rules, qs + [q], q.ip);
            rules[j] in Recorded(After(rules, qs, true), rules, q, true).fired <==>
              && IsCounted(After(rules, qs, true), rules, q)
              && ts != [] && |ts| - Opened(ts, rules[j].window) == rules[j].threshold + 1
  {
    hide Recorded;
    hide After;
    hide Bumped;
    var s := After(rules, qs, false);
    CollectionIsInvisible(rules, qs, q);
    RunTracks(rules, qs, q.ip, j);
    assert (qs + [q])[..|qs|] == qs;
    FiredAt(s, rules, q, j);
    if IsCounted(s, rules, q) {
      var ts := Times(rules, qs, q.ip);
      BumpTracks(BucketOf(s.counts, q.ip), rules[j], ts, q.now);
      assert Times(rules, qs + [q], q.ip) == ts + [q.now];
    }
  }

  lemma FiredAt(s: State, rules: seq<Rule>, q: Query, j: nat)
    requires DistinctNames(rules) && j < |rules|
    ensures rules[j] in Recorded(s, rules, q, false).fired <==>
            IsCounted(s, rules, q) && Crossed(Bumped(BucketOf(s.counts, q.ip), rules[j], q.now), rules[j])
  {
    hide Judged;
    if IsCounted(s, rules, q) {
      var b := BucketOf(s.counts, q.ip);
      var t := s.(blocked := Swept(s.blocked, q.ip, q.arrival), counts := s.counts[q.ip := Counted(b, rules, q.now)]);
      JudgedSame(t, t, q, Fired(b, rules, q.now));
      FiredOwn(b, rules, q.now, j);
    }
  }

  /** A later window opens later than anything of an earlier one. */
  lemma {:induction false} WindowsAreRuns(ts: seq<Instant>, window: nat, m: nat)
    requires 0 < m <= |ts|
    ensures Opened(ts, window) >= m || Opened(ts, window) == Opened(ts[..m], window)
  {
    if m < |ts| {
      var init := ts[..|ts| - 1];
      WindowsAreRuns(init, window, m);
      assert init[..m] == ts[..m];
    } else {
      assert ts[..m] == ts;
    }
  }

  /** Firing twice takes a new window in between. */
  lemma FiresInNewWindow(ts: seq<Instant>, window: nat, m: nat, threshold: nat)
    requires 0 < m < |ts| && m - Opened(ts[..m], window) == threshold + 1
    requires |ts| - Opened(ts, window) == threshold + 1
    ensures Opened(ts, window) >= m
  {
    WindowsAreRuns(ts, window, m);
  }

  lemma {:induction false} TimesGrow(rules: seq<Rule>, qs: seq<Query>, ip: Ip, n: nat)
    requires n <= |qs|
    ensures Times(rules, qs[..n], ip) <= Times(rules, qs, ip)
  {
    hide After;
    hide IsCounted;
    if n < |qs| {
      var init := qs[..|qs| - 1];
      TimesGrow(rules, init, ip, n);
      assert init[..n] == qs[..n];
    } else {
      assert qs[..n] == qs;
    }
  }

  /** Rule `j` fires at query `i` of the run. */
  ghost predicate FiresAt(rules: seq<Rule>, qs: seq<Query>, i: nat, j: nat)
    requires i < |qs| && j < |rules|
  {
    rules[j] in Recorded(After(rules, qs[..i], true), rules, qs[i], true).fired
  }

  lemma FiringPosition(rules: seq<Rule>, qs: seq<Query>, i: nat, j: nat)
    requires DistinctNames(rules) && j < |rules| && Counts(rules[j]) && InOrder(qs) && i < |qs| && FiresAt(rules, qs, i, j)
    ensures var ts := Times(rules, qs[..i + 1], qs[i].ip);
            ts != [] && |ts| - Opened(ts, rules[j].window) == rules[j].threshold + 1
    ensures Times(rules, qs[..i], qs[i].ip) < Times(rules, qs[..i + 1], qs[i].ip)
  {
    hide Recorded;
    hide After;
    hide Opened;
    assert qs[..i] + [qs[i]] == qs[..i + 1];
    FiresExactly(rules, qs[..i], qs[i], j);
    CollectionIsInvisible(rules, qs[..i], qs[i]);
    assert qs[..i + 1][..i] == qs[..i];
  }

  lemma PrefixOf(a: seq<Instant>, b: seq<Instant>, c: seq<Instant>)
    requires a <= b && b < c
    ensures |a| < |c| && c[..|a|] == a
  {
  }

  /**
   Over any run, a rule fires at most once per window of a client: if it fires at two queries, the
   window of the second was opened after the first.
   */
  lemma OncePerWindow(rules: seq<Rule>, qs: seq<Query>, first: nat, second: nat, j: nat)
    requires DistinctNames(rules) && j < |rules| && Counts(rules[j]) && InOrder(qs)
    requires first < second < |qs| && qs[first].ip == qs[second].ip
    requires FiresAt(rules, qs, first, j) && FiresAt(rules, qs, second, j)
    ensures var ip := qs[first].ip; var (early, late) := (Times(rules, qs[..first + 1], ip), Times(rules, qs[..second + 1], ip));
            late != [] && Opened(late, rules[j].window) >= |early|
  {
    hide FiresAt;
    hide Times;
    hide Opened;
    hide InOrder;
    hide DistinctNames;
    hide Counts;
    var ip := qs[first].ip;
    var early, late := Times(rules, qs[..first + 1], ip), Times(rules, qs[..second + 1], ip);
    FiringPosition(rules, qs, first, j);
    FiringPosition(rules, qs, second, j);
    TimesGrow(rules, qs[..second], ip, first + 1);
    assert qs[..second][..first + 1] == qs[..first + 1];
    PrefixOf(early, Times(rules, qs[..second], ip), late);
    FiresInNewWindow(late, rules[j].window, |early|, rules[j].threshold);
  }

  // ---- bounds ----

  ghost predicate Bounded(s: State) {
    && |s.blocked| <= MAX_BLOCKED && |s.tarpitted| <= MAX_BLOCKED && |s.recent| <= RECENT_CAP
    && forall ip :: ip in s.blocked ==> !BanExempt(ip)
  }

  lemma BannedSize(bans: map<Ip, Ban>, ip: Ip, r: Rule, now: Instant)
    requires |bans| <= MAX_BLOCKED
    ensures |Banned(bans, ip, r, now)| <= MAX_BLOCKED
  {
    InsertSize(bans, ip, Ban(if r.duration == 0 then None else Some(now + r.duration * NANOS), r.name));
  }

  lemma SweptSize(bans: map<Ip, Ban>, ip: Ip, now: Instant)
    ensures |Swept(bans, ip, now)| <= |bans|
  {
    SubmapSize(Swept(bans, ip, now), bans);
  }

  lemma TriggeredBounded(s: State, ip: Ip, r: Rule, now: Instant, epoch: nat)
    requires Bounded(s)
    ensures Bounded(Triggered(s, ip, r, now, epoch))
  {
    BannedSize(s.blocked, ip, r, now);
    BannedSize(s.tarpitted, ip, r, now);
  }

  lemma {:induction false} TriggeredAllBounded(s: State, ip: Ip, fired: seq<Rule>, now: Instant, epoch: nat)
    requires Bounded(s)
    ensures Bounded(TriggeredAll(s, ip, fired, now, epoch))
  {
    hide Bounded;
    hide Triggered;
    if fired != [] {
      var k := |fired| - 1;
      TriggeredAllBounded(s, ip, fired[..k], now, epoch);
      TriggeredBounded(TriggeredAll(s, ip, fired[..k], now, epoch), ip, fired[k], now, epoch);
    }
  }

  lemma RecordedBounded(s: State, rules: seq<Rule>, q: Query, collect: bool)
    requires Bounded(s)
    ensures Bounded(Recorded(s, rules, q, collect).state)
  {
    hide Counted;
    hide Fired;
    SweptSize(s.blocked, q.ip, q.arrival);
    if IsCounted(s, rules, q) {
      var counts := Tabled(s, rules, q, collect);
      var b := BucketOf(counts, q.ip);
      var t := s.(blocked := Swept(s.blocked, q.ip, q.arrival), counts := counts[q.ip := Counted(b, rules, q.now)]);
      TriggeredAllBounded(t, q.ip, Fired(b, rules, q.now), q.now, q.epoch);
      var u := TriggeredAll(t, q.ip, Fired(b, rules, q.now), q.now, q.epoch);
      SweptSize(u.blocked, q.ip, q.blockCheck);
      SweptSize(u.tarpitted, q.ip, q.tarpitCheck);
    }
  }

  /** The tables stay within their caps, and loopback and unspecified addresses are never banned. */
  lemma {:induction false} AlwaysBounded(rules: seq<Rule>, qs: seq<Query>, collect: bool)
    ensures Bounded(After(rules, qs, collect))
  {
    if qs != [] {
      AlwaysBounded(rules, qs[..|qs| - 1], collect);
      RecordedBounded(After(rules, qs[..|qs| - 1], collect), rules, qs[|qs| - 1], collect);
    }
  }
}
