/** Per-client alert thresholds (src/alerts.rs). */
module Alerts {
  import opened Prelude

  const MAX_CLIENT_BUCKETS := 100_000
  const RECENT_CAP := 200
  const MAX_BLOCKED := 50_000
  const COUNTED_METRIC := "client-qps"

  type Instant = nat

  datatype Ip = V4(addr: nat) | V6(addr: nat)

  datatype Action = Block | Tarpit | Notify(url: Option<string>) | Log

  datatype Rule = Rule(name: string, metric: string, window: nat, threshold: nat, action: Action, duration: nat)

  datatype Window = Window(count: nat, start: Instant)

  type Bucket = map<string, Window>

  datatype Ban = Ban(expires: Option<Instant>, rule: string)

  datatype Event = Event(ts: nat, rule: string, client: Ip, count: nat, action: Action)

  datatype Verdict = Serve | Delay | Drop

  datatype State = State(counts: map<Ip, Bucket>, blocked: map<Ip, Ban>, tarpitted: map<Ip, Ban>,
                         recent: seq<Event>, notified: seq<(string, Event)>)

  /** A query with the clock readings taken while it is handled. */
  datatype Query = Query(ip: Ip, verified: bool, arrival: Instant, now: Instant, blockCheck: Instant,
                         tarpitCheck: Instant, epoch: nat)

  function Age(now: Instant, start: Instant): nat {
    if now >= start then (now - start) / NANOS else 0
  }

  predicate BanExempt(ip: Ip) {
    match ip
    case V4(a) => a / 0x1_000_000 == 127 || a == 0
    case V6(a) => a == 1 || a == 0
  }

  // ---- counting ----

  predicate Counts(r: Rule) {
    r.metric == COUNTED_METRIC
  }

  /** One counted query, in the rule's own window. */
  function Bumped(b: Bucket, r: Rule, now: Instant): Bucket {
    if !Counts(r) then b
    else
      var w := if r.name in b && Age(now, b[r.name].start) < r.window then b[r.name] else Window(0, now);
      b[r.name := Window(w.count + 1, w.start)]
  }

  function Counted(b: Bucket, rules: seq<Rule>, now: Instant): Bucket {
    if rules == [] then b else Bumped(Counted(b, rules[..|rules| - 1], now), rules[|rules| - 1], now)
  }

  predicate Crossed(b: Bucket, r: Rule) {
    Counts(r) && r.name in b && b[r.name].count == r.threshold + 1
  }

  /** The rules that fire, in order. */
  function Fired(b: Bucket, rules: seq<Rule>, now: Instant): seq<Rule> {
    if rules == [] then []
    else
      var r := rules[|rules| - 1];
      Fired(b, rules[..|rules| - 1], now) + if Crossed(Counted(b, rules, now), r) then [r] else []
  }

  function MaxWindow(rules: seq<Rule>): nat {
    if rules == [] then 0 else Max(MaxWindow(rules[..|rules| - 1]), rules[|rules| - 1].window)
  }

  predicate Stale(b: Bucket, rules: seq<Rule>, now: Instant) {
    forall name :: name in b ==> Age(now, b[name].start) >= MaxWindow(rules) * 2
  }

  /** The table without the buckets whose every window is long over. */
  function Collected(counts: map<Ip, Bucket>, rules: seq<Rule>, now: Instant): map<Ip, Bucket> {
    map ip | ip in counts && !Stale(counts[ip], rules, now) :: counts[ip]
  }

  // ---- consequences ----

  predicate Active(bans: map<Ip, Ban>, ip: Ip, now: Instant) {
    ip in bans && (bans[ip].expires.None? || now < bans[ip].expires.value)
  }

  /** A look-up drops the ban it finds expired. */
  function Swept(bans: map<Ip, Ban>, ip: Ip, now: Instant): map<Ip, Ban> {
    if Active(bans, ip, now) then bans else bans - {ip}
  }

  function Banned(bans: map<Ip, Ban>, ip: Ip, r: Rule, now: Instant): map<Ip, Ban> {
    if ip !in bans && |bans| >= MAX_BLOCKED then bans
    else bans[ip := Ban(if r.duration == 0 then None else Some(now + r.duration * NANOS), r.name)]
  }

  function Remembered(recent: seq<Event>, e: Event): seq<Event> {
    (if |recent| >= RECENT_CAP then recent[1..] else recent) + [e]
  }

  function Triggered(s: State, ip: Ip, r: Rule, now: Instant, epoch: nat): State {
    var e := Event(epoch, r.name, ip, r.threshold + 1, r.action);
    var s' := s.(recent := Remembered(s.recent, e));
    match r.action
    case Block => if BanExempt(ip) then s' else s'.(blocked := Banned(s.blocked, ip, r, now))
    case Tarpit => s'.(tarpitted := Banned(s.tarpitted, ip, r, now))
    case Notify(url) => if url.Some? then s'.(notified := s.notified + [(url.value, e)]) else s'
    case Log => s'
  }

  function TriggeredAll(s: State, ip: Ip, fired: seq<Rule>, now: Instant, epoch: nat): State {
    if fired == [] then s
    else Triggered(TriggeredAll(s, ip, fired[..|fired| - 1], now, epoch), ip, fired[|fired| - 1], now, epoch)
  }

  // ---- one query ----

  datatype Outcome = Outcome(state: State, verdict: Verdict, fired: seq<Rule>)

  predicate IsCounted(s: State, rules: seq<Rule>, q: Query) {
    !Active(s.blocked, q.ip, q.arrival) && rules != [] && q.verified
  }

  function BucketOf(counts: map<Ip, Bucket>, ip: Ip): Bucket {
    if ip in counts then counts[ip] else map[]
  }

  function Tabled(s: State, rules: seq<Rule>, q: Query, collect: bool): map<Ip, Bucket> {
    if collect && |s.counts| >= MAX_CLIENT_BUCKETS then Collected(s.counts, rules, q.now) else s.counts
  }

  /** What follows the counting: the rules that fired act, then the bans are looked up again. */
  function Judged(s: State, q: Query, fired: seq<Rule>): Outcome {
    var t := TriggeredAll(s, q.ip, fired, q.now, q.epoch);
    var u := t.(blocked := Swept(t.blocked, q.ip, q.blockCheck));
    if Active(t.blocked, q.ip, q.blockCheck) then Outcome(u, Drop, fired)
    else
      var v := u.(tarpitted := Swept(u.tarpitted, q.ip, q.tarpitCheck));
      Outcome(v, if Active(u.tarpitted, q.ip, q.tarpitCheck) then Delay else Serve, fired)
  }

  /** `collect` is false for the reference tracker, which never drops a bucket. */
  function Recorded(s: State, rules: seq<Rule>, q: Query, collect: bool): Outcome {
    if !IsCounted(s, rules, q) then
      Outcome(s.(blocked := Swept(s.blocked, q.ip, q.arrival)),
              if Active(s.blocked, q.ip, q.arrival) then Drop else Serve, [])
    else
      var counts := Tabled(s, rules, q, collect);
      var b := BucketOf(counts, q.ip);
      Judged(s.(blocked := Swept(s.blocked, q.ip, q.arrival), counts := counts[q.ip := Counted(b, rules, q.now)]),
             q, Fired(b, rules, q.now))
  }

  // ---- the tracker ----

  class AlertTracker {
    const rules: seq<Rule>
    var counts: map<Ip, Bucket>
    var blocked: map<Ip, Ban>
    var tarpitted: map<Ip, Ban>
    var recent: seq<Event>
    var notified: seq<(string, Event)>

    ghost function Now(): State
      reads this
    {
      State(counts, blocked, tarpitted, recent, notified)
    }

    constructor (configured: seq<Rule>)
      ensures rules == configured && Now() == State(map[], map[], map[], [], [])
    {
      rules, counts, blocked, tarpitted, recent, notified := configured, map[], map[], map[], [], [];
    }

    method IsBlocked(ip: Ip, now: Instant) returns (r: bool)
      modifies this
      ensures r == Active(old(blocked), ip, now)
      ensures Now() == old(Now()).(blocked := Swept(old(blocked), ip, now))
    {
      if ip in blocked {
        match blocked[ip].expires
        case None => return true;
        case Some(expires) =>
          if now < expires {
            return true;
          }
          blocked := blocked - {ip};
      }
      assert old(blocked) - {ip} == blocked;
      return false;
    }

    method IsTarpitted(ip: Ip, now: Instant) returns (r: bool)
      modifies this
      ensures r == Active(old(tarpitted), ip, now)
      ensures Now() == old(Now()).(tarpitted := Swept(old(tarpitted), ip, now))
    {
      if ip in tarpitted {
        match tarpitted[ip].expires
        case None => return true;
        case Some(expires) =>
          if now < expires {
            return true;
          }
          tarpitted := tarpitted - {ip};
      }
      assert old(tarpitted) - {ip} == tarpitted;
      return false;
    }

    method Trigger(ip: Ip, r: Rule, now: Instant, epoch: nat)
      modifies this
      ensures Now() == Triggered(old(Now()), ip, r, now, epoch)
    {
      var e := Event(epoch, r.name, ip, r.threshold + 1, r.action);
      var ban := Ban(if r.duration == 0 then None else Some(now + r.duration * NANOS), r.name);
      match r.action {
        case Block =>
          if !BanExempt(ip) && (ip in blocked || |blocked| < MAX_BLOCKED) {
            blocked := blocked[ip := ban];
          }
        case Tarpit =>
          if ip in tarpitted || |tarpitted| < MAX_BLOCKED {
            tarpitted := tarpitted[ip := ban];
          }
        case Notify(url) =>
          if url.Some? {
            notified := notified + [(url.value, e)];
          }
        case Log =>
      }
      if |recent| >= RECENT_CAP {
        recent := recent[1..];
      }
      recent := recent + [e];
    }

    /** The longest window of the rules, 60 seconds when there are none. */
    method LongestWindow() returns (longest: nat)
      ensures longest == if rules == [] then 60 else MaxWindow(rules)
    {
      if rules == [] {
        return 60;
      }
      longest := 0;
      for i := 0 to |rules|
        invariant longest == MaxWindow(rules[..i])
      {
        assert rules[..i + 1][..i] == rules[..i];
        longest := Max(longest, rules[i].window);
      }
      assert rules[..|rules|] == rules;
    }

    method Count(bucket: Bucket, now: Instant) returns (b: Bucket, toFire: seq<Rule>)
      ensures b == Counted(bucket, rules, now) && toFire == Fired(bucket, rules, now)
    {
      b, toFire := bucket, [];
      for i := 0 to |rules|
        invariant b == Counted(bucket, rules[..i], now) && toFire == Fired(bucket, rules[..i], now)
      {
        assert rules[..i + 1][..i] == rules[..i];
        var rule := rules[i];
        if rule.metric == COUNTED_METRIC {
          var w := if rule.name in b then b[rule.name] else Window(0, now);
          if Age(now, w.start) >= rule.window {
            w := Window(0, now);
          }
          w := w.(count := w.count + 1);
          b := b[rule.name := w];
          if w.count == rule.threshold + 1 {
            toFire := toFire + [rule];
          }
        }
      }
      assert rules[..|rules|] == rules;
    }

    method TriggerAll(ip: Ip, toFire: seq<Rule>, now: Instant, epoch: nat)
      modifies this
      ensures Now() == TriggeredAll(old(Now()), ip, toFire, now, epoch)
    {
      hide Triggered;
      for i := 0 to |toFire|
        invariant Now() == TriggeredAll(old(Now()), ip, toFire[..i], now, epoch)
      {
        assert toFire[..i + 1][..i] == toFire[..i];
        Trigger(ip, toFire[i], now, epoch);
      }
      assert toFire[..|toFire|] == toFire;
    }

    method Record(q: Query) returns (verdict: Verdict)
      modifies this
      ensures verdict == Recorded(old(Now()), rules, q, true).verdict
      ensures Now() == Recorded(old(Now()), rules, q, true).state
    {
      hide Counted, Fired, Triggered, MaxWindow, Swept, Active;
      var already := IsBlocked(q.ip, q.arrival);
      if already {
        return Drop;
      }
      if rules == [] || !q.verified {
        return Serve;
      }
      if |counts| >= MAX_CLIENT_BUCKETS {
        var longest := LongestWindow();
        counts := map ip | ip in counts && exists name :: name in counts[ip] && Age(q.now, counts[ip][name].start) < longest * 2
                         :: counts[ip];
        assert counts == Collected(old(counts), rules, q.now);
      }
      var bucket, toFire := Count(if q.ip in counts then counts[q.ip] else map[], q.now);
      counts := counts[q.ip := bucket];
      TriggerAll(q.ip, toFire, q.now, q.epoch);
      var dropped := IsBlocked(q.ip, q.blockCheck);
      if dropped {
        return Drop;
      }
      var delayed := IsTarpitted(q.ip, q.tarpitCheck);
      return if delayed then Delay else Serve;
    }
  }
}
