/**
 Writers that push to the journal in another order than they saved (src/api/mod.rs releases the store
 before it pushes an addition). Replaying the journal then still gives the master's stores exactly if
 the operations on each id kept their order.
 */
module JournalOrder {
  import opened SyncJournal
  import opened Replication

  /** The operations on one entry, in order. */
  function On(ops: seq<SyncOp>, k: Kind, id: string): seq<SyncOp> {
    if ops == [] then []
    else On(ops[..|ops| - 1], k, id) + if Touches(ops[|ops| - 1], k, id) then [ops[|ops| - 1]] else []
  }

  lemma {:induction false} RunAtId(t: Table, k: Kind, ops: seq<SyncOp>, id: string)
    ensures Same(Run(t, k, ops), Run(t, k, On(ops, k, id)), id)
  {
    if ops != [] {
      var n := |ops| - 1;
      var init, op := On(ops[..n], k, id), ops[n];
      RunAtId(t, k, ops[..n], id);
      if Touches(op, k, id) {
        assert (init + [op])[..|init|] == init;
      } else {
        assert init + [] == init;
      }
    }
  }

  lemma OnSnoc(a: seq<SyncOp>, x: SyncOp, k: Kind, id: string)
    ensures On(a + [x], k, id) == if Touches(x, k, id) then On(a, k, id) + [x] else On(a, k, id)
  {
    assert (a + [x])[..|a|] == a;
    assert On(a, k, id) + [] == On(a, k, id);
  }

  lemma BagSnoc(a: seq<SyncOp>, x: SyncOp, op: SyncOp)
    ensures multiset(a + [x])[op] == multiset(a)[op] + if x == op then 1 else 0
  {
  }

  lemma {:induction false} OnBag(a: seq<SyncOp>, k: Kind, id: string, op: SyncOp)
    ensures multiset(On(a, k, id))[op] == if Touches(op, k, id) then multiset(a)[op] else 0
  {
    if a == [] {
      assert On(a, k, id) == [];
    } else {
      var n := |a| - 1;
      hide On;
      OnBag(a[..n], k, id, op);
      OnSnoc(a[..n], a[n], k, id);
      BagSnoc(a[..n], a[n], op);
      BagSnoc(On(a[..n], k, id), a[n], op);
      assert a[..n] + [a[n]] == a;
    }
  }

  lemma OnSameBag(a: seq<SyncOp>, b: seq<SyncOp>, k: Kind, id: string)
    requires multiset(a) == multiset(b)
    ensures multiset(On(a, k, id)) == multiset(On(b, k, id))
  {
    forall op ensures multiset(On(a, k, id))[op] == multiset(On(b, k, id))[op] {
      OnBag(a, k, id, op);
      OnBag(b, k, id, op);
    }
  }

  ghost predicate OrderKept(a: seq<SyncOp>, b: seq<SyncOp>) {
    forall k, id :: On(a, k, id) == On(b, k, id)
  }

  // ---- the life of an entry ----

  /** With ids never reused: created at most once, deleted at most once, in this order. */
  ghost predicate Life(s0: Stores, k: Kind, id: string, ops: seq<SyncOp>, present: bool) {
    if id in s0.Of(k) then (ops == [] && present) || (ops == [Delete(k, id)] && !present)
    else
      || (ops == [] && !present)
      || (|ops| == 1 && ops[0].Add? && present)
      || (|ops| == 2 && ops[0].Add? && ops[1] == Delete(k, id) && !present)
  }

  lemma {:induction false} LifeOf(s0: Stores, k: Kind, log: seq<SyncOp>, n: nat, id: string)
    requires WellFormed(s0, log) && n <= |log|
    ensures Life(s0, k, id, On(log[..n], k, id), id in At(s0, k, log, n))
    ensures forall op :: op in On(log[..n], k, id) ==> op in log[..n] && Touches(op, k, id)
  {
    hide Run;
    hide Life;
    if n == 0 {
      hide FreshAt;
      LifeBegins(s0, k, id);
      assert log[..0] == [];
      assert At(s0, k, log, 0) == Visible(k, s0.Of(k)) by {
        StartsAt(s0, k, log);
      }
    } else {
      LifeOf(s0, k, log, n - 1, id);
      AtStep(s0, k, log, n - 1);
      assert log[..n][..n - 1] == log[..n - 1];
      assert FreshAt(s0, log, n - 1);
      if log[n - 1].Add? && Touches(log[n - 1], k, id) {
        NoneBefore(s0, k, log, n - 1, id);
      }
      LifeStep(s0, k, id, On(log[..n - 1], k, id), At(s0, k, log, n - 1), log[n - 1]);
    }
  }

  lemma LifeStep(s0: Stores, k: Kind, id: string, ops: seq<SyncOp>, t: Table, op: SyncOp)
    requires Life(s0, k, id, ops, id in t)
    requires Touches(op, k, id) && op.Add? ==> id !in s0.Of(k) && forall o :: o in ops ==> !o.Add?
    requires Touches(op, k, id) && op.Delete? ==> id in t
    ensures Life(s0, k, id, ops + if Touches(op, k, id) then [op] else [], id in Put(t, k, op))
  {
    assert ops + [] == ops;
    assert |ops| > 0 ==> ops[0] in ops;
  }

  lemma LifeBegins(s0: Stores, k: Kind, id: string)
    ensures Life(s0, k, id, [], id in Visible(k, s0.Of(k)))
  {
  }

  lemma StartsAt(s0: Stores, k: Kind, log: seq<SyncOp>)
    ensures At(s0, k, log, 0) == Visible(k, s0.Of(k))
  {
    assert log[..0] == [];
  }

  lemma NoneBefore(s0: Stores, k: Kind, log: seq<SyncOp>, n: nat, id: string)
    requires n < |log| && FreshAt(s0, log, n) && log[n].Add? && Touches(log[n], k, id)
    requires forall op :: op in On(log[..n], k, id) ==> op in log[..n] && Touches(op, k, id)
    ensures forall op :: op in On(log[..n], k, id) ==> !op.Add?
  {
    forall op | op in On(log[..n], k, id) ensures !op.Add? {
      var j :| 0 <= j < n && log[..n][j] == op;
      assert log[j] == op;
    }
  }

  /** An entry whose operations come in another order ends up in another state. */
  lemma OtherOrderShows(s0: Stores, k: Kind, id: string, t: Table, a: seq<SyncOp>, b: seq<SyncOp>)
    requires Life(s0, k, id, a, id in Run(t, k, a)) && multiset(a) == multiset(b) && a != b
    requires forall op :: op in a ==> Touches(op, k, id)
    ensures id in Run(t, k, b) && id !in Run(t, k, a)
  {
    SameBagSize(a, b);
    if |a| <= 2 {
      SwappedIfDifferent(a, b);
      assert b[..1] == [b[0]] && b[..1][..0] == [] && a[0] in a;
      assert Run(t, k, b[..1]) == Put(t, k, b[0]) == t - {id};
      assert Run(t, k, b) == Put(Run(t, k, b[..1]), k, b[1]);
    }
  }

  lemma SameBagSize(a: seq<SyncOp>, b: seq<SyncOp>)
    requires multiset(a) == multiset(b)
    ensures |a| == |b|
  {
    assert |multiset(a)| == |multiset(b)|;
  }

  lemma SwappedIfDifferent(a: seq<SyncOp>, b: seq<SyncOp>)
    requires |a| == |b| <= 2 && multiset(a) == multiset(b) && a != b
    ensures |a| == 2 && b == [a[1], a[0]]
  {
    if |a| == 2 {
      assert a == [a[0], a[1]] && b == [b[0], b[1]];
      assert b[0] in multiset(a) && a[0] in multiset(b) && a[1] in multiset(b);
      assert multiset(a) - multiset{a[0]} == multiset{a[1]};
    } else {
      OneAlike(a, b);
    }
  }

  lemma OneAlike(a: seq<SyncOp>, b: seq<SyncOp>)
    requires |a| == |b| <= 1 && multiset(a) == multiset(b)
    ensures a == b
  {
    if |a| == 1 {
      assert a[0] in multiset(b);
    }
  }

  // ---- replaying the journal ----

  /**
   A journal with the same operations as the stores saw rebuilds them from their start if and only if
   it has the operations on every entry in the order they were saved.
   */
  lemma ReplayExactIffOrderKept(s0: Stores, log: seq<SyncOp>, journal: seq<SyncOp>)
    requires WellFormed(s0, log) && multiset(journal) == multiset(log)
    ensures (forall k :: Run(Visible(k, s0.Of(k)), k, journal) == At(s0, k, log, |log|)) <==> OrderKept(log, journal)
  {
    hide Run;
    if OrderKept(log, journal) {
      forall k ensures Run(Visible(k, s0.Of(k)), k, journal) == At(s0, k, log, |log|) {
        KeptOrderRebuilds(s0, k, log, journal);
      }
    } else {
      var k, id :| On(log, k, id) != On(journal, k, id);
      LostOrderShows(s0, k, log, journal, id);
    }
  }

  lemma KeptOrderRebuilds(s0: Stores, k: Kind, log: seq<SyncOp>, journal: seq<SyncOp>)
    requires OrderKept(log, journal)
    ensures Run(Visible(k, s0.Of(k)), k, journal) == At(s0, k, log, |log|)
  {
    hide Run;
    hide Visible;
    var t := Visible(k, s0.Of(k));
    assert log[..|log|] == log;
    forall id ensures Same(Run(t, k, journal), Run(t, k, log), id) {
      assert On(log, k, id) == On(journal, k, id);
      RunAtId(t, k, journal, id);
      RunAtId(t, k, log, id);
    }
    SameEverywhere(Run(t, k, journal), Run(t, k, log));
  }

  lemma LostOrderShows(s0: Stores, k: Kind, log: seq<SyncOp>, journal: seq<SyncOp>, id: string)
    requires WellFormed(s0, log) && multiset(journal) == multiset(log) && On(log, k, id) != On(journal, k, id)
    ensures id in Run(Visible(k, s0.Of(k)), k, journal) && id !in At(s0, k, log, |log|)
  {
    hide Run;
    hide Visible;
    var t, a, b := Visible(k, s0.Of(k)), On(log, k, id), On(journal, k, id);
    assert log[..|log|] == log;
    LifeOf(s0, k, log, |log|, id);
    RunAtId(t, k, log, id);
    RunAtId(t, k, journal, id);
    OnSameBag(log, journal, k, id);
    OtherOrderShows(s0, k, id, t, a, b);
  }

  /** An addition pushed after the deletion of the same entry leaves it on the slave for good. */
  lemma LateAdditionStays(e: Entry)
    ensures var (s0, log) := (Stores(map[], map[], map[]), [Add(Dns, "x", e), Delete(Dns, "x")]);
      && WellFormed(s0, log) && "x" !in At(s0, Dns, log, 2)
      && "x" in Run(Visible(Dns, s0.Of(Dns)), Dns, [Delete(Dns, "x"), Add(Dns, "x", e)])
  {
    var s0, log := Stores(map[], map[], map[]), [Add(Dns, "x", e), Delete(Dns, "x")];
    AtStep(s0, Dns, log, 0);
    AtStep(s0, Dns, log, 1);
    StartsAt(s0, Dns, log);
    assert FreshAt(s0, log, 0) && FreshAt(s0, log, 1);
    var late := [Delete(Dns, "x"), Add(Dns, "x", e)];
    assert late[..1] == [Delete(Dns, "x")] && late[..1][..0] == [];
    assert Run(map[], Dns, late[..1]) == map[];
  }

  // ---- changes relayed beside the journal ----

  /** The last operation on the entry is its deletion. */
  ghost predicate EndsDeleted(ops: seq<SyncOp>, k: Kind, id: string) {
    On(ops, k, id) != [] && On(ops, k, id)[|On(ops, k, id)| - 1] == Delete(k, id)
  }

  lemma {:induction false} OnMembers(ops: seq<SyncOp>, k: Kind, id: string, op: SyncOp)
    ensures op in On(ops, k, id) <==> op in ops && Touches(op, k, id)
  {
    OnBag(ops, k, id, op);
    assert op in multiset(On(ops, k, id)) <==> op in On(ops, k, id);
    assert op in multiset(ops) <==> op in ops;
  }

  /** Additions and deletions of one entry: the last one decides. */
  lemma {:induction false} LastDecides(t: Table, k: Kind, id: string, e: Entry, ops: seq<SyncOp>)
    requires forall op :: op in ops ==> op == Add(k, id, e) || op == Delete(k, id)
    requires id in t ==> t[id] == Mask(k, e)
    ensures var r := Run(t, k, ops);
      && (id in r ==> r[id] == Mask(k, e))
      && (ops != [] ==> (id in r <==> ops[|ops| - 1] == Add(k, id, e)))
  {
    if ops != [] {
      var n := |ops| - 1;
      forall op | op in ops[..n] ensures op == Add(k, id, e) || op == Delete(k, id) {
        assert op in ops;
      }
      LastDecides(t, k, id, e, ops[..n]);
      assert ops[n] in ops;
    }
  }

  lemma {:induction false} OnlyDeleted(t: Table, k: Kind, id: string, ops: seq<SyncOp>)
    requires ops != [] && forall op :: op in ops ==> op == Delete(k, id)
    ensures id !in Run(t, k, ops)
  {
    var n := |ops| - 1;
    assert ops[n] in ops;
  }

  /** What the slave applied are operations of the log, each at least once, in any order and any number. */
  ghost predicate Covers(applied: seq<SyncOp>, log: seq<SyncOp>) {
    forall op :: op in applied <==> op in log
  }

  lemma AppliedOn(applied: seq<SyncOp>, log: seq<SyncOp>, k: Kind, id: string, op: SyncOp)
    requires Covers(applied, log)
    ensures op in On(applied, k, id) <==> op in On(log, k, id)
  {
    OnMembers(applied, k, id, op);
    OnMembers(log, k, id, op);
  }

  /** At one entry: the stores agree exactly if a deleted entry is deleted last. */
  lemma AgreesIffDeletedLast(s0: Stores, k: Kind, log: seq<SyncOp>, applied: seq<SyncOp>, id: string)
    requires WellFormed(s0, log) && Covers(applied, log)
    ensures Same(Run(Visible(k, s0.Of(k)), k, applied), At(s0, k, log, |log|), id) <==>
      (Delete(k, id) in log ==> EndsDeleted(applied, k, id))
  {
    hide Run;
    hide Visible;
    hide Life;
    var t, a, b := Visible(k, s0.Of(k)), On(log, k, id), On(applied, k, id);
    assert log[..|log|] == log;
    LifeOf(s0, k, log, |log|, id);
    RunAtId(t, k, log, id);
    RunAtId(t, k, applied, id);
    OnMembers(log, k, id, Delete(k, id));
    forall op ensures op in b <==> op in a {
      AppliedOn(applied, log, k, id, op);
    }
    VisibleIds(s0, k, id);
    EntryAgrees(s0, k, id, t, a, b);
  }

  lemma VisibleIds(s0: Stores, k: Kind, id: string)
    ensures id in Visible(k, s0.Of(k)) <==> id in s0.Of(k)
  {
  }

  lemma FirstIn(b: seq<SyncOp>)
    ensures b == [] || b[0] in b
  {
  }

  lemma EntryAgrees(s0: Stores, k: Kind, id: string, t: Table, a: seq<SyncOp>, b: seq<SyncOp>)
    requires Life(s0, k, id, a, id in Run(t, k, a)) && (forall op :: op in b <==> op in a)
    requires (forall op :: op in a ==> Touches(op, k, id)) && (id in t <==> id in s0.Of(k))
    ensures Same(Run(t, k, b), Run(t, k, a), id) <==> (Delete(k, id) in a ==> b != [] && b[|b| - 1] == Delete(k, id))
  {
    hide Run;
    if a == [] {
      FirstIn(b);
    } else {
      assert a[0] in a && a[0] in b;
      assert forall op :: op in b ==> op in a;
      if a == [Delete(k, id)] {
        OnlyDeleted(t, k, id, b);
        assert b[|b| - 1] in b;
      } else {
        var e := a[0].entry;
        LastDecides(t, k, id, e, a);
        LastDecides(t, k, id, e, b);
        assert b[|b| - 1] in b;
        assert |a| == 2 ==> a[1] in a;
      }
    }
  }

  /**
   A slave that is also sent the changes directly, beside the journal and in any order, ends with the
   master's stores if and only if for every deleted entry the last thing applied is a deletion.
   */
  lemma RelayExactIffDeletedLast(s0: Stores, log: seq<SyncOp>, applied: seq<SyncOp>)
    requires WellFormed(s0, log) && Covers(applied, log)
    ensures (forall k :: Run(Visible(k, s0.Of(k)), k, applied) == At(s0, k, log, |log|)) <==>
      (forall k, id :: Delete(k, id) in log ==> EndsDeleted(applied, k, id))
  {
    hide Run;
    hide Visible;
    hide EndsDeleted;
    hide At;
    if forall k, id :: Delete(k, id) in log ==> EndsDeleted(applied, k, id) {
      forall k ensures Run(Visible(k, s0.Of(k)), k, applied) == At(s0, k, log, |log|) {
        forall id ensures Same(Run(Visible(k, s0.Of(k)), k, applied), At(s0, k, log, |log|), id) {
          AgreesIffDeletedLast(s0, k, log, applied, id);
        }
        SameEverywhere(Run(Visible(k, s0.Of(k)), k, applied), At(s0, k, log, |log|));
      }
    } else {
      var k, id :| Delete(k, id) in log && !EndsDeleted(applied, k, id);
      AgreesIffDeletedLast(s0, k, log, applied, id);
    }
  }

  /** An addition relayed after the tick applied the deletion leaves the entry on the slave. */
  lemma RelayedAdditionStays(e: Entry)
    ensures var (s0, log) := (Stores(map[], map[], map[]), [Add(Dns, "x", e), Delete(Dns, "x")]);
      && WellFormed(s0, log) && Covers(log + [Add(Dns, "x", e)], log) && "x" !in At(s0, Dns, log, 2)
      && "x" in Run(Visible(Dns, s0.Of(Dns)), Dns, log + [Add(Dns, "x", e)])
  {
    LateAdditionStays(e);
    var s0, log, late := Stores(map[], map[], map[]), [Add(Dns, "x", e), Delete(Dns, "x")], Add(Dns, "x", e);
    forall op ensures op in log + [late] <==> op in log {
      assert log[0] == late;
    }
    assert (log + [late])[..2] == log && log[..2] == log;
  }
}
