/** The echo responder's per-source limiter (ebpf/dns_xdp.c). */
module IcmpLimiter {
  import opened Prelude

  const U64_RANGE := 0x1_0000_0000_0000_0000

  type Source = nat

  datatype Config = Config(enabled: bool, rate: nat, burst: nat)

  datatype Entry = Entry(count: nat, window: nat, burstLeft: nat)

  datatype Verdict = Pass | Dropped | Replied

  /** Unsigned 64-bit subtraction. */
  function Elapsed(now: nat, since: nat): int {
    if now >= since then now - since else now - since + U64_RANGE
  }

  /** The entry after an echo request; none if the request is over the limit. */
  function Admitted(cfg: Config, entry: Option<Entry>, now: nat): Option<Entry> {
    match entry
    case None => Some(Entry(0, now, if cfg.burst > 0 then cfg.burst - 1 else 0))
    case Some(r) =>
      if r.burstLeft > 0 then Some(r.(burstLeft := r.burstLeft - 1))
      else if Elapsed(now, r.window) < NANOS then
        if r.count >= cfg.rate then None else Some(Entry(r.count + 1, r.window, 0))
      else Some(Entry(1, now, 0))
  }

  /** The entry kept afterwards: a refused request changes nothing. */
  function Kept(cfg: Config, entry: Option<Entry>, now: nat): Option<Entry> {
    if Admitted(cfg, entry, now).Some? then Admitted(cfg, entry, now) else entry
  }

  // ---- one source over a whole run ----

  function Final(cfg: Config, times: seq<nat>): Option<Entry> {
    if times == [] then None else Kept(cfg, Final(cfg, times[..|times| - 1]), times[|times| - 1])
  }

  function Replies(cfg: Config, times: seq<nat>): nat {
    if times == [] then 0
    else
      var init, now := times[..|times| - 1], times[|times| - 1];
      Replies(cfg, init) + if Admitted(cfg, Final(cfg, init), now).Some? then 1 else 0
  }

  predicate InOrder(times: seq<nat>) {
    forall i, j :: 0 <= i < j < |times| ==> times[i] <= times[j]
  }

  /** What `t` nanoseconds allow: the burst, and one allowance per second begun. */
  function Allowance(cfg: Config, t: nat): nat {
    Max(1, cfg.burst) + (t / NANOS + 1) * Max(cfg.rate, 1)
  }

  /** Replies are covered by the burst used, the seconds before the current window, and its count. */
  ghost predicate Covered(cfg: Config, times: seq<nat>) {
    times != [] ==>
      && Final(cfg, times).Some?
      && var r := Final(cfg, times).value;
         && times[0] <= r.window <= times[|times| - 1] && r.count <= Max(cfg.rate, 1)
         && Replies(cfg, times) <=
              Max(1, cfg.burst) - r.burstLeft + (r.window - times[0]) / NANOS * Max(cfg.rate, 1) + r.count
  }

  lemma MoreSeconds(x: nat, y: nat, m: nat)
    requires x + NANOS <= y
    ensures x / NANOS * m + m <= y / NANOS * m
  {
    var a, b := x / NANOS, y / NANOS;
    assert a + 1 <= b;
    assert a * m + m == (a + 1) * m;
    assert (b - (a + 1)) * m >= 0;
  }

  lemma {:induction false} RunCovered(cfg: Config, times: seq<nat>)
    requires InOrder(times)
    ensures Covered(cfg, times)
  {
    if |times| > 1 {
      var init, now := times[..|times| - 1], times[|times| - 1];
      RunCovered(cfg, init);
      assert times[0] == init[0] && init[|init| - 1] <= now;
      var r := Final(cfg, init).value;
      if r.burstLeft == 0 && now - r.window >= NANOS {
        MoreSeconds(r.window - times[0], now - times[0], Max(cfg.rate, 1));
      }
    }
  }

  lemma SecondsGrow(x: nat, y: nat, m: nat)
    requires x <= y
    ensures x / NANOS * m <= y / NANOS * m
  {
    assert (y / NANOS - x / NANOS) * m >= 0;
  }

  /** Over any run, the replies to a source within `t` nanoseconds of its first request stay within the allowance. */
  lemma RepliesBounded(cfg: Config, times: seq<nat>, t: nat)
    requires InOrder(times) && (times != [] ==> times[|times| - 1] - times[0] <= t)
    ensures Replies(cfg, times) <= Allowance(cfg, t)
  {
    var m := Max(cfg.rate, 1);
    assert (t / NANOS + 1) * m == t / NANOS * m + m;
    assert t / NANOS * m >= 0;
    if times != [] {
      RunCovered(cfg, times);
      SecondsGrow(Final(cfg, times).value.window - times[0], t, m);
    }
  }

  /** With burst tokens left every request is answered, and none is left over after the burst. */
  lemma {:induction false} BurstIsServed(cfg: Config, times: seq<nat>)
    requires InOrder(times) && |times| <= Max(1, cfg.burst)
    ensures Replies(cfg, times) == |times|
    ensures times != [] ==> Final(cfg, times) == Some(Entry(0, times[0], Max(1, cfg.burst) - |times|))
  {
    if |times| > 0 {
      BurstIsServed(cfg, times[..|times| - 1]);
    }
  }

  // ---- the responder ----

  datatype Request = Request(source: Source, now: nat)

  function TimesOf(log: seq<Request>, s: Source): seq<nat> {
    if log == [] then []
    else TimesOf(log[..|log| - 1], s) + if log[|log| - 1].source == s then [log[|log| - 1].now] else []
  }

  class Responder {
    const cfg: Config
    var entries: map<Source, Entry>
    var banned: set<Source>
    var handled: nat
    var replied: nat
    var bannedDrop: nat
    var rateLimited: nat
    var limitedHits: map<Source, nat>
    ghost var log: seq<Request> // requests that reached the limiter

    ghost function EntryOf(s: Source): Option<Entry>
      reads this
    {
      if s in entries then Some(entries[s]) else None
    }

    ghost predicate Valid()
      reads this
    {
      && handled == |log| == replied + rateLimited
      && forall s :: EntryOf(s) == Final(cfg, TimesOf(log, s))
    }

    constructor (config: Config)
      ensures Valid() && cfg == config && log == [] && banned == {}
    {
      cfg, entries, banned, log, limitedHits := config, map[], {}, [], map[];
      handled, replied, bannedDrop, rateLimited := 0, 0, 0, 0;
    }

    ghost method Note(q: Request)
      modifies this`log
      ensures log == old(log) + [q]
      ensures forall s :: Final(cfg, TimesOf(log, s)) ==
                if q.source == s then Kept(cfg, Final(cfg, TimesOf(old(log), s)), q.now) else Final(cfg, TimesOf(old(log), s))
      ensures Replies(cfg, TimesOf(log, q.source)) == Replies(cfg, TimesOf(old(log), q.source)) +
                if Admitted(cfg, Final(cfg, TimesOf(old(log), q.source)), q.now).Some? then 1 else 0
    {
      hide Final;
      hide Replies;
      hide Admitted;
      hide Kept;
      forall s ensures Final(cfg, TimesOf(log + [q], s)) ==
          if q.source == s then Kept(cfg, Final(cfg, TimesOf(log, s)), q.now) else Final(cfg, TimesOf(log, s)) {
        LogGrows(cfg, log, q, s);
      }
      LogGrows(cfg, log, q, q.source);
      log := log + [q];
    }

    /** One echo request; a request turned away leaves every limiter entry as it was. */
    method Handle(q: Request) returns (verdict: Verdict)
      requires Valid()
      modifies this
      ensures Valid() && banned == old(banned)
      ensures verdict == Pass <==> !cfg.enabled
      ensures !cfg.enabled || q.source in banned ==> log == old(log) && entries == old(entries) && verdict != Replied
      ensures cfg.enabled && q.source !in banned ==>
        && log == old(log) + [q]
        && (verdict == Replied <==> Admitted(cfg, Final(cfg, TimesOf(old(log), q.source)), q.now).Some?)
        && Replies(cfg, TimesOf(log, q.source)) == Replies(cfg, TimesOf(old(log), q.source)) + if verdict == Replied then 1 else 0
      ensures verdict != Replied ==> entries == old(entries)
      ensures replied == old(replied) + if verdict == Replied then 1 else 0
    {
      hide Final;
      hide TimesOf;
      hide Replies;
      if !cfg.enabled {
        return Pass;
      }
      if q.source in banned {
        bannedDrop := bannedDrop + 1;
        return Dropped;
      }
      handled := handled + 1;
      var updated: Entry;
      if q.source in entries {
        var r := entries[q.source];
        if r.burstLeft > 0 {
          updated := r.(burstLeft := r.burstLeft - 1);
        } else if Elapsed(q.now, r.window) < NANOS {
          if r.count >= cfg.rate {
            rateLimited := rateLimited + 1;
            limitedHits := limitedHits[q.source := if q.source in limitedHits then limitedHits[q.source] + 1 else 1];
            Note(q);
            return Dropped;
          }
          updated := Entry(r.count + 1, r.window, 0);
        } else {
          updated := Entry(1, q.now, 0);
        }
      } else {
        updated := Entry(0, q.now, if cfg.burst > 0 then cfg.burst - 1 else 0);
      }
      entries := entries[q.source := updated];
      replied := replied + 1;
      Note(q);
      return Replied;
    }
  }

  lemma LogGrows(cfg: Config, log: seq<Request>, q: Request, s: Source)
    ensures Final(cfg, TimesOf(log + [q], s)) ==
            if q.source == s then Kept(cfg, Final(cfg, TimesOf(log, s)), q.now) else Final(cfg, TimesOf(log, s))
    ensures Replies(cfg, TimesOf(log + [q], s)) == Replies(cfg, TimesOf(log, s)) +
            if q.source == s && Admitted(cfg, Final(cfg, TimesOf(log, s)), q.now).Some? then 1 else 0
  {
    hide Kept;
    hide Admitted;
    assert (log + [q])[..|log|] == log;
    var times := TimesOf(log, s);
    assert times + [] == times && (times + [q.now])[..|times|] == times;
  }
}
