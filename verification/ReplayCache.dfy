/** The cache of signatures already used on the replication channel (src/sync.rs). */
module ReplayCache {
  import opened Prelude
  import opened Maps

  const WINDOW := 30
  const CAPACITY := 16384

  /** Signature to the timestamp it was made for. */
  type Seen = map<string, nat>

  /** What is signed. */
  datatype Request = Request(verb: string, path: string, ts: nat, body: seq<byte>)

  function Distance(a: nat, b: nat): nat {
    if a >= b then a - b else b - a
  }

  function Pruned(seen: Seen, now: nat): Seen {
    map s | s in seen && Distance(now, seen[s]) <= WINDOW :: seen[s]
  }

  ghost predicate OldestIn(seen: Seen, v: string) {
    v in seen && forall s :: s in seen ==> seen[v] <= seen[s]
  }

  ghost predicate Evicts(seen: Seen, now: nat, v: string, sig: string, ts: nat, after: Seen) {
    OldestIn(Pruned(seen, now), v) && after == (Pruned(seen, now) - {v})[sig := ts]
  }

  /** What one check may answer and leave behind; at the cap any oldest entry goes. */
  ghost predicate Recorded(seen: Seen, sig: string, ts: nat, now: nat, ok: bool, after: Seen) {
    var kept := Pruned(seen, now);
    if sig in kept then !ok && after == kept
    else ok && if |kept| < CAPACITY then after == kept[sig := ts]
               else exists v :: Evicts(seen, now, v, sig, ts, after)
  }

  ghost predicate Verified(sign: Request -> string, seen: Seen, r: Request, sig: string, now: nat, ok: bool, after: Seen) {
    if Distance(now, r.ts) > WINDOW || sign(r) != sig then !ok && after == seen
    else Recorded(seen, sig, r.ts, now, ok, after)
  }

  class Cache {
    var seen: Seen

    constructor ()
      ensures seen == map[]
    {
      seen := map[];
    }

    method Oldest() returns (v: string)
      requires seen != map[]
      ensures OldestIn(seen, v)
    {
      v :| v in seen;
      var rest := seen.Keys - {v};
      while rest != {}
        invariant rest <= seen.Keys && v in seen
        invariant forall s :: s in seen && s !in rest ==> seen[v] <= seen[s]
      {
        var s :| s in rest;
        if seen[s] < seen[v] {
          v := s;
        }
        rest := rest - {s};
      }
    }

    method CheckAndRecord(sig: string, ts: nat, now: nat) returns (ok: bool)
      requires |seen| <= CAPACITY
      modifies this
      ensures Recorded(old(seen), sig, ts, now, ok, seen)
      ensures |seen| <= CAPACITY
    {
      SubmapSize(Pruned(seen, now), seen);
      seen := Pruned(seen, now);
      if sig in seen {
        return false;
      }
      if |seen| >= CAPACITY {
        NonEmpty(seen);
        var v := Oldest();
        RemoveSize(seen, {v});
        seen := seen - {v};
        assert Evicts(old(seen), now, v, sig, ts, seen[sig := ts]);
      }
      InsertSize(seen, sig, ts);
      seen := seen[sig := ts];
      return true;
    }

    method Verify(sign: Request -> string, r: Request, sig: string, now: nat) returns (ok: bool)
      requires |seen| <= CAPACITY
      modifies this
      ensures Verified(sign, old(seen), r, sig, now, ok, seen)
      ensures |seen| <= CAPACITY
    {
      if Distance(now, r.ts) > WINDOW || sign(r) != sig {
        return false;
      }
      ok := CheckAndRecord(sig, r.ts, now);
    }
  }

  lemma NonEmpty(seen: Seen)
    requires |seen| > 0
    ensures exists s :: s in seen
  {
    assert |seen.Keys| == |seen|;
    var s :| s in seen.Keys;
  }

  // ---- whole runs ----

  datatype Call = Call(seen: Seen, request: Request, sig: string, now: nat, ok: bool)

  ghost predicate StepOk(sign: Request -> string, calls: seq<Call>, i: nat)
    requires i + 1 < |calls|
  {
    calls[i].now <= calls[i + 1].now &&
    Verified(sign, calls[i].seen, calls[i].request, calls[i].sig, calls[i].now, calls[i].ok, calls[i + 1].seen)
  }

  /** Calls one after the other, the clock never going back; `seen` is the cache before each call. */
  ghost predicate IsRun(sign: Request -> string, calls: seq<Call>) {
    forall i: nat :: i + 1 < |calls| ==> StepOk(sign, calls, i)
  }

  lemma {:induction false} ClockOrder(sign: Request -> string, calls: seq<Call>, i: nat, j: nat)
    requires IsRun(sign, calls) && i <= j < |calls|
    ensures calls[i].now <= calls[j].now
  {
    if i < j {
      ClockOrder(sign, calls, i, j - 1);
      assert StepOk(sign, calls, j - 1);
    }
  }

  ghost predicate EvictedAt(calls: seq<Call>, m: nat, sig: string)
    requires m + 1 < |calls|
  {
    |Pruned(calls[m].seen, calls[m].now)| >= CAPACITY && sig in Pruned(calls[m].seen, calls[m].now) && sig !in calls[m + 1].seen
  }

  /** A recorded signature stays recorded while its timestamp is acceptable, unless it is evicted. */
  lemma {:induction false} StaysRecorded(sign: Request -> string, calls: seq<Call>, i: nat, j: nat, limit: nat)
    requires IsRun(sign, calls) && i < j <= limit < |calls|
    requires calls[i].ok && Distance(calls[limit].now, calls[i].request.ts) <= WINDOW
    requires forall m: nat :: i < m < limit ==> !EvictedAt(calls, m, calls[i].sig)
    ensures calls[i].sig in calls[j].seen && calls[j].seen[calls[i].sig] == calls[i].request.ts
  {
    if i + 1 == j {
      assert StepOk(sign, calls, i);
    } else {
      StaysRecorded(sign, calls, i, j - 1, limit);
      assert StepOk(sign, calls, i);
      assert StepOk(sign, calls, j - 1);
      ClockOrder(sign, calls, i, j - 1);
      ClockOrder(sign, calls, j - 1, limit);
      assert calls[i].sig in Pruned(calls[j - 1].seen, calls[j - 1].now);
      assert !EvictedAt(calls, j - 1, calls[i].sig);
    }
  }

  lemma {:induction false} StaysForgotten(sign: Request -> string, calls: seq<Call>, sig: string, m: nat, j: nat)
    requires IsRun(sign, calls) && m <= j < |calls| && sig !in calls[m].seen
    requires forall x: nat :: m <= x < j && calls[x].ok ==> calls[x].sig != sig
    ensures sig !in calls[j].seen
  {
    if m < j {
      StaysForgotten(sign, calls, sig, m, j - 1);
      assert StepOk(sign, calls, j - 1);
    }
  }

  /**
   A signature presented again in its window, for the same timestamp and for the first time since
   it was accepted, is accepted if and only if the cap evicted it in between.
   */
  lemma ReplayExact(sign: Request -> string, calls: seq<Call>, i: nat, j: nat)
    requires IsRun(sign, calls) && i < j && j + 1 < |calls|
    requires calls[i].ok && calls[i].sig == calls[j].sig && calls[i].request.ts == calls[j].request.ts
    requires Distance(calls[j].now, calls[j].request.ts) <= WINDOW && sign(calls[j].request) == calls[j].sig
    requires forall x: nat :: i < x < j && calls[x].ok ==> calls[x].sig != calls[j].sig
    ensures calls[j].ok <==> exists m: nat :: i < m < j && EvictedAt(calls, m, calls[i].sig)
  {
    assert StepOk(sign, calls, j);
    if m: nat :| i < m < j && EvictedAt(calls, m, calls[i].sig) {
      StaysForgotten(sign, calls, calls[i].sig, m + 1, j);
    } else {
      StaysRecorded(sign, calls, i, j, j);
    }
  }

  /** Acceptance of the same signature for the same timestamp twice means the cap evicted it in between. */
  lemma AcceptedTwiceMeansEvicted(sign: Request -> string, calls: seq<Call>, i: nat, j: nat)
    requires IsRun(sign, calls) && i < j && j + 1 < |calls|
    requires calls[i].ok && calls[j].ok && calls[i].sig == calls[j].sig && calls[i].request.ts == calls[j].request.ts
    ensures exists m: nat :: i < m < j && EvictedAt(calls, m, calls[i].sig)
  {
    assert StepOk(sign, calls, j);
    if forall m: nat :: i < m < j ==> !EvictedAt(calls, m, calls[i].sig) {
      StaysRecorded(sign, calls, i, j, j);
    }
  }

  /** Below the cap every signature is accepted at most once, if signatures fix their timestamp. */
  lemma AcceptedOnce(sign: Request -> string, calls: seq<Call>, i: nat, j: nat)
    requires IsRun(sign, calls) && i < j && j + 1 < |calls|
    requires forall m: nat :: m < |calls| ==> |Pruned(calls[m].seen, calls[m].now)| < CAPACITY
    requires sign(calls[i].request) == sign(calls[j].request) ==> calls[i].request.ts == calls[j].request.ts
    ensures !(calls[i].ok && calls[j].ok && calls[i].sig == calls[j].sig)
  {
    if calls[i].ok && calls[j].ok && calls[i].sig == calls[j].sig {
      assert StepOk(sign, calls, i);
      assert StepOk(sign, calls, j);
      AcceptedTwiceMeansEvicted(sign, calls, i, j);
    }
  }

  /** From an empty cache the cap is never exceeded. */
  lemma {:induction false} Bounded(sign: Request -> string, calls: seq<Call>, i: nat)
    requires IsRun(sign, calls) && i < |calls| && calls[0].seen == map[]
    ensures |calls[i].seen| <= CAPACITY
  {
    if i > 0 {
      Bounded(sign, calls, i - 1);
      assert StepOk(sign, calls, i - 1);
      var c := calls[i - 1];
      RecordedSize(sign, c.seen, c.request, c.sig, c.now, c.ok, calls[i].seen);
    }
  }

  lemma RecordedSize(sign: Request -> string, seen: Seen, r: Request, sig: string, now: nat, ok: bool, after: Seen)
    requires Verified(sign, seen, r, sig, now, ok, after) && |seen| <= CAPACITY
    ensures |after| <= CAPACITY
  {
    SubmapSize(Pruned(seen, now), seen);
    var kept := Pruned(seen, now);
    if ok {
      if |kept| < CAPACITY {
        InsertSize(kept, sig, r.ts);
      } else {
        var v :| Evicts(seen, now, v, sig, r.ts, after);
        RemoveSize(kept, {v});
        InsertSize(kept - {v}, sig, r.ts);
      }
    }
  }
}
