/** Sixteen rings filled in turn (src/logbuffer.rs): together they are one bounded history. */
module ShardedLog {
  import opened Prelude
  import opened Order
  import opened Arithmetic
  import opened Calendar
  import opened LogRing

  const COUNTER_RANGE := 0x1_0000_0000_0000_0000

  // ---- dealing entries out in turn ----

  /** What shard `i` receives of `s` when the counter stands at `start` before it. */
  function Share<T>(s: seq<T>, start: nat, i: nat): seq<T> {
    if s == [] then []
    else Share(s[..|s| - 1], start, i) + if (start + |s| - 1) % 16 == i then [s[|s| - 1]] else []
  }

  lemma {:induction false} ShareConcat<T>(a: seq<T>, b: seq<T>, start: nat, i: nat)
    ensures Share(a + b, start, i) == Share(a, start, i) + Share(b, start + |a|, i)
  {
    if b == [] {
      assert a + b == a;
    } else {
      var init := b[..|b| - 1];
      ShareConcat(a, init, start, i);
      assert (a + b)[..|a + b| - 1] == a + init;
    }
  }

  /** How many numbers below `n` fall on shard `i`. */
  function Hits(n: nat, i: nat): int {
    (n + 15 - i) / 16
  }

  lemma HitsStep(n: nat, i: nat)
    requires i < 16
    ensures Hits(n + 1, i) == Hits(n, i) + if n % 16 == i then 1 else 0
  {
  }

  lemma {:induction false} ShareLength<T>(s: seq<T>, start: nat, i: nat)
    requires i < 16
    ensures |Share(s, start, i)| == Hits(start + |s|, i) - Hits(start, i)
  {
    hide Hits;
    if s != [] {
      ShareLength(s[..|s| - 1], start, i);
      HitsStep(start + |s| - 1, i);
    }
  }

  /** A shard's last `k` entries are its share of the last `16 * k` entries overall. */
  lemma LastOfShare<T>(s: seq<T>, start: nat, i: nat, k: nat)
    requires i < 16
    ensures Last(Share(s, start, i), k) == Share(Last(s, 16 * k), start + |s| - |Last(s, 16 * k)|, i)
  {
    var last := Last(s, 16 * k);
    var first := s[..|s| - |last|];
    assert s == first + last;
    ShareConcat(first, last, start, i);
    ShareLength(last, start + |first|, i);
  }

  /** All the entries held by the first `n` shards. */
  ghost function Held<T>(s: seq<T>, start: nat, n: nat): multiset<T> {
    if n == 0 then multiset{} else Held(s, start, n - 1) + multiset(Share(s, start, n - 1))
  }

  lemma ShareStep<T>(s: seq<T>, x: T, start: nat, i: nat)
    ensures multiset(Share(s + [x], start, i)) ==
            multiset(Share(s, start, i)) + if (start + |s|) % 16 == i then multiset{x} else multiset{}
  {
    assert (s + [x])[..|s|] == s;
  }

  lemma {:induction false} HeldStep<T>(s: seq<T>, x: T, start: nat, n: nat)
    ensures Held(s + [x], start, n) == Held(s, start, n) + if (start + |s|) % 16 < n then multiset{x} else multiset{}
  {
    hide Share;
    if n > 0 {
      HeldStep(s, x, start, n - 1);
      ShareStep(s, x, start, n - 1);
    }
  }

  lemma {:induction false} HeldNothing<T>(start: nat, n: nat)
    ensures Held<T>([], start, n) == multiset{}
  {
    if n > 0 {
      HeldNothing<T>(start, n - 1);
    }
  }

  /** Dealing out loses nothing and duplicates nothing. */
  lemma {:induction false} HeldAll<T>(s: seq<T>, start: nat)
    ensures Held(s, start, 16) == multiset(s)
  {
    if s == [] {
      HeldNothing<T>(start, 16);
    } else {
      var init := s[..|s| - 1];
      HeldAll(init, start);
      HeldStep(init, s[|s| - 1], start, 16);
      assert s == init + [s[|s| - 1]];
    }
  }

  lemma {:induction false} RecentBag<T>(s: seq<T>, k: nat)
    ensures multiset(Recent(s, k)) == multiset(Last(s, k))
  {
    if s == [] || k == 0 {
      assert Recent(s, k) == [] && Last(s, k) == [];
    } else {
      var init, x := s[..|s| - 1], s[|s| - 1];
      RecentBag(init, k - 1);
      assert Recent(s, k) == [x] + Recent(init, k - 1);
      assert Last(s, k) == Last(init, k - 1) + [x];
    }
  }

  /** What the first `n` rings of `k` slots hold, ring after ring, each newest first. */
  function Rings<T>(s: seq<T>, start: nat, k: nat, n: nat): seq<T> {
    if n == 0 then [] else Rings(s, start, k, n - 1) + Recent(Share(s, start, n - 1), k)
  }

  lemma {:induction false} RingsBag<T>(s: seq<T>, start: nat, k: nat, n: nat)
    requires n <= 16
    ensures multiset(Rings(s, start, k, n)) == Held(Last(s, 16 * k), start + |s| - |Last(s, 16 * k)|, n)
  {
    if n > 0 {
      RingsBag(s, start, k, n - 1);
      RecentBag(Share(s, start, n - 1), k);
      LastOfShare(s, start, n - 1, k);
    }
  }

  /** The rings together hold exactly the last `16 * k` entries pushed. */
  lemma RingsActAsOne<T>(s: seq<T>, start: nat, k: nat)
    ensures multiset(Rings(s, start, k, 16)) == multiset(Last(s, 16 * k))
    ensures |Rings(s, start, k, 16)| == Min(|s|, 16 * k)
  {
    hide Held;
    hide Rings;
    var last := Last(s, 16 * k);
    RingsBag(s, start, k, 16);
    HeldAll(last, start + |s| - |last|);
    assert |multiset(Rings(s, start, k, 16))| == |multiset(last)|;
  }

  // ---- filtering and sorting the merged rings ----

  lemma {:induction false} FilteredConcat(q: Query, a: seq<Entry>, b: seq<Entry>)
    ensures Filtered(q, a + b) == Filtered(q, a) + Filtered(q, b)
  {
    hide Viewed;
    if b == [] {
      assert a + b == a;
    } else {
      FilteredConcat(q, a, b[..|b| - 1]);
      assert (a + b)[..|a + b| - 1] == a + b[..|b| - 1];
    }
  }

  lemma FilteredWithout(q: Query, l: seq<Entry>, x: Entry, r: seq<Entry>)
    ensures multiset(Filtered(q, l + ([x] + r))) == multiset(Filtered(q, l + r)) + multiset(Filtered(q, [x]))
  {
    FilteredConcat(q, l, [x] + r);
    FilteredConcat(q, [x], r);
    FilteredConcat(q, l, r);
  }

  lemma BagWithout<T>(a: seq<T>, l: seq<T>, x: T, r: seq<T>)
    requires multiset(a + [x]) == multiset(l + ([x] + r))
    ensures multiset(a) == multiset(l + r)
  {
    assert multiset(a) == multiset(a + [x]) - multiset{x};
    assert multiset(l + r) == multiset(l + ([x] + r)) - multiset{x};
  }

  /** Filtering does not depend on the order. */
  lemma {:induction false} FilteredBag(q: Query, a: seq<Entry>, b: seq<Entry>)
    requires multiset(a) == multiset(b)
    ensures multiset(Filtered(q, a)) == multiset(Filtered(q, b))
  {
    hide Filtered;
    if a == [] {
      assert |multiset(b)| == 0;
    } else {
      var init, x := a[..|a| - 1], a[|a| - 1];
      assert a == init + [x] && x in multiset(b);
      var i :| 0 <= i < |b| && b[i] == x;
      var l, r := b[..i], b[i + 1..];
      assert b == l + ([x] + r);
      BagWithout(init, l, x, r);
      FilteredBag(q, init, l + r);
      FilteredConcat(q, init, [x]);
      FilteredWithout(q, l, x, r);
    }
  }

  ghost predicate NewestFirst(s: seq<View>) {
    forall i, j :: 0 <= i < j < |s| ==> !TextLess(s[i].ts, s[j].ts)
  }

  lemma NotLessTransitive(a: string, b: string, c: string)
    requires !TextLess(a, b) && !TextLess(b, c)
    ensures !TextLess(a, c)
  {
    LexConnected(CharLess, a, b);
    LexConnected(CharLess, b, c);
    TextTotal(a, c);
    if TextLess(b, a) && TextLess(c, b) {
      LexTransitive(CharLess, c, b, a);
    }
  }

  /** Where a view goes in an ordered list. */
  function Inserted(s: seq<View>, v: View): seq<View> {
    if s == [] || !TextLess(s[|s| - 1].ts, v.ts) then s + [v]
    else Inserted(s[..|s| - 1], v) + [s[|s| - 1]]
  }

  function Ordered(s: seq<View>): seq<View> {
    if s == [] then [] else Inserted(Ordered(s[..|s| - 1]), s[|s| - 1])
  }

  lemma OrderedSnoc(s: seq<View>, v: View)
    requires NewestFirst(s) && forall i :: 0 <= i < |s| ==> !TextLess(s[i].ts, v.ts)
    ensures NewestFirst(s + [v])
  {
    hide TextLess;
  }

  lemma AllBefore(s: seq<View>, x: View, v: View)
    requires NewestFirst(s + [x]) && !TextLess(x.ts, v.ts)
    ensures forall i :: 0 <= i < |s + [x]| ==> !TextLess((s + [x])[i].ts, v.ts)
  {
    hide TextLess;
    TextTotal(x.ts, x.ts);
    assert (s + [x])[|s|] == x;
    forall i | 0 <= i < |s + [x]| ensures !TextLess((s + [x])[i].ts, v.ts) {
      NotLessTransitive((s + [x])[i].ts, x.ts, v.ts);
    }
  }

  lemma {:induction false} InsertedCorrect(s: seq<View>, v: View)
    requires NewestFirst(s)
    ensures NewestFirst(Inserted(s, v)) && multiset(Inserted(s, v)) == multiset(s) + multiset{v}
  {
    if s != [] {
      hide TextLess;
      var init, x := s[..|s| - 1], s[|s| - 1];
      assert s == init + [x];
      if TextLess(x.ts, v.ts) {
        InsertedCorrect(init, v);
        var r := Inserted(init, v);
        TextTotal(x.ts, v.ts);
        forall i | 0 <= i < |r| ensures !TextLess(r[i].ts, x.ts) {
          assert r[i] in multiset(init) + multiset{v};
          if r[i] != v {
            assert r[i] in init;
          }
        }
        OrderedSnoc(r, x);
      } else {
        AllBefore(init, x, v);
        OrderedSnoc(s, v);
      }
    }
  }

  lemma {:induction false} OrderedCorrect(s: seq<View>)
    ensures NewestFirst(Ordered(s)) && multiset(Ordered(s)) == multiset(s)
  {
    hide Inserted;
    if s != [] {
      OrderedCorrect(s[..|s| - 1]);
      InsertedCorrect(Ordered(s[..|s| - 1]), s[|s| - 1]);
      assert s == s[..|s| - 1] + [s[|s| - 1]];
    }
  }

  /** Any sort by time text, newest first; how it breaks ties is its own affair. */
  ghost predicate IsSort(sort: seq<View> -> seq<View>) {
    forall s :: NewestFirst(sort(s)) && multiset(sort(s)) == multiset(s)
  }

  lemma InsertionIsSort()
    ensures IsSort(s => Ordered(s))
  {
    forall s ensures NewestFirst(Ordered(s)) && multiset(Ordered(s)) == multiset(s) {
      OrderedCorrect(s);
    }
  }

  /** Everything a query sees, before paging. */
  function Answer(sort: seq<View> -> seq<View>, q: Query, s: seq<Entry>, start: nat, k: nat): seq<View> {
    sort(Filtered(q, Rings(s, start, k, 16)))
  }

  /** It is the matching part of the last `16 * k` entries, each once, ordered by time text. */
  lemma AnswerIsExact(sort: seq<View> -> seq<View>, q: Query, s: seq<Entry>, start: nat, k: nat)
    requires IsSort(sort)
    ensures multiset(Answer(sort, q, s, start, k)) == multiset(Filtered(q, Last(s, 16 * k)))
    ensures NewestFirst(Answer(sort, q, s, start, k))
  {
    RingsActAsOne(s, start, k);
    FilteredBag(q, Rings(s, start, k, 16), Last(s, 16 * k));
  }

  /** Before the year 10000 that order is newest first. */
  lemma AnswerNewestFirst(sort: seq<View> -> seq<View>, q: Query, s: seq<Entry>, start: nat, k: nat,
                          i: nat, j: nat, a: Entry, b: Entry)
    requires IsSort(sort) && i < j < |Answer(sort, q, s, start, k)|
    requires Answer(sort, q, s, start, k)[i] == Viewed(a) && Answer(sort, q, s, start, k)[j] == Viewed(b)
    requires a.ts < YEAR_10000 && b.ts < YEAR_10000
    ensures a.ts >= b.ts
  {
    hide FormatTs;
    AnswerIsExact(sort, q, s, start, k);
    TextOrderIsTimeOrder(a.ts, b.ts);
  }

  /** Turning pages until they run out shows every matching entry exactly once. */
  lemma PagesShowAll(sort: seq<View> -> seq<View>, q: Query, s: seq<Entry>, start: nat, k: nat, limit: nat, n: nat)
    requires IsSort(sort) && n * limit >= |Answer(sort, q, s, start, k)|
    ensures multiset(Pages(Answer(sort, q, s, start, k), limit, n)) == multiset(Filtered(q, Last(s, 16 * k)))
  {
    AnswerIsExact(sort, q, s, start, k);
    PagesAreWhole(Answer(sort, q, s, start, k), limit, n);
  }

  // ---- the sharded buffer ----

  function PerShard(capacity: nat): nat {
    Min(Max((capacity + 15) / 16, 1), LOG_CAP)
  }

  class ShardedLogBuffer {
    const shards: seq<LogBuffer>
    var counter: nat
    const totalCapacity: nat
    const logClientIp: bool
    ghost var pushed: seq<Entry> // since the last clear
    ghost var start: nat         // pushes before the last clear

    ghost predicate Valid()
      reads this, shards
    {
      && |shards| == 16
      && (forall i, j :: 0 <= i < j < 16 ==> shards[i] != shards[j])
      && counter == (start + |pushed|) % COUNTER_RANGE
      && forall i :: 0 <= i < 16 ==> ShardOk(i)
    }

    ghost predicate ShardOk(i: nat)
      requires i < |shards|
      reads this, shards
    {
      shards[i].Valid() && shards[i].capacity == PerShard(totalCapacity) && shards[i].logClientIp == logClientIp &&
      shards[i].history == Share(pushed, start, i)
    }

    constructor (capacity: nat, clientIp: bool)
      ensures Valid() && pushed == [] && totalCapacity == capacity && logClientIp == clientIp && fresh(shards)
    {
      var all: seq<LogBuffer> := [];
      for i := 0 to 16
        invariant |all| == i && forall j :: 0 <= j < i ==> fresh(all[j]) && all[j].Valid()
        invariant forall j :: 0 <= j < i ==>
          all[j].capacity == PerShard(capacity) && all[j].logClientIp == clientIp && all[j].history == []
        invariant forall j, l :: 0 <= j < l < i ==> all[j] != all[l]
      {
        var ring := new LogBuffer(Max((capacity + 15) / 16, 1), clientIp);
        all := all + [ring];
      }
      shards, counter, totalCapacity, logClientIp, pushed, start := all, 0, capacity, clientIp, [], 0;
    }

    /** The entry joins the common history, whichever ring takes it. */
    method PushQuery(ts: nat, name: string, client: string, qtype: u16, action: Action, elapsed: nat) returns (stored: string)
      requires Valid()
      modifies this, shards
      ensures Valid() && start == old(start)
      ensures pushed == old(pushed) + [Entry(ts, name, stored, qtype, action, elapsed)]
      ensures stored == if logClientIp then client else REDACTED
    {
      hide Share;
      var idx := counter % 16;
      NextShard(start + |pushed|);
      assert ShardOk(idx);
      counter := (counter + 1) % COUNTER_RANGE;
      stored := shards[idx].PushQuery(ts, name, client, qtype, action, elapsed);
      ghost var entry := Entry(ts, name, stored, qtype, action, elapsed);
      pushed := pushed + [entry];
      forall i | 0 <= i < 16 ensures ShardOk(i) {
        assert old(ShardOk(i)) && (i != idx ==> shards[i] != shards[idx]);
        ShareNext(old(pushed), entry, start, i);
      }
    }

    /** A page of the merged answer. */
    method RunQuery(q: Query, sort: seq<View> -> seq<View>) returns (page: seq<View>, total: nat)
      requires Valid()
      ensures var answer := Answer(sort, q, pushed, start, PerShard(totalCapacity));
              page == Page(answer, q.page, q.limit) && total == |answer|
    {
      var fetchAll := q.(limit := LOG_CAP, page := 0);
      var merged: seq<View> := [];
      ghost var k := PerShard(totalCapacity);
      for i := 0 to 16
        invariant merged == Filtered(q, Rings(pushed, start, k, i))
      {
        assert ShardOk(i);
        var entries, _ := shards[i].RunQuery(fetchAll);
        FetchesAll(q, Recent(shards[i].history, k));
        FilteredConcat(q, Rings(pushed, start, k, i), Recent(Share(pushed, start, i), k));
        merged := merged + entries;
      }
      var sorted := sort(merged);
      total := |sorted|;
      page := Page(sorted, q.page, q.limit);
    }

    ghost predicate Emptied(i: nat)
      requires i < |shards|
      reads this, shards
    {
      shards[i].Valid() && shards[i].capacity == PerShard(totalCapacity) && shards[i].logClientIp == logClientIp &&
      shards[i].history == []
    }

    /** Empties every ring and counts what they held. */
    method Clear() returns (deleted: nat)
      requires Valid()
      modifies this, shards
      ensures Valid() && pushed == [] && deleted == Min(|old(pushed)|, 16 * PerShard(totalCapacity))
    {
      hide Share;
      deleted := 0;
      ghost var k := PerShard(totalCapacity);
      for i := 0 to 16
        invariant |shards| == 16 && forall a, b :: 0 <= a < b < 16 ==> shards[a] != shards[b]
        invariant pushed == old(pushed) && start == old(start) && counter == old(counter)
        invariant deleted == |Rings(pushed, start, k, i)|
        invariant forall j :: 0 <= j < i ==> Emptied(j)
        invariant forall j :: i <= j < 16 ==> ShardOk(j)
      {
        assert ShardOk(i);
        label Before:
        var d := shards[i].Clear();
        deleted := deleted + d;
        forall j | i < j < 16 ensures ShardOk(j) {
          assert old@Before(ShardOk(j)) && shards[i] != shards[j];
        }
        forall j | 0 <= j < i ensures Emptied(j) {
          assert old@Before(Emptied(j)) && shards[j] != shards[i];
        }
      }
      RingsActAsOne(pushed, start, k);
      label Empty:
      start := start + |pushed|;
      pushed := [];
      forall i | 0 <= i < 16 ensures ShardOk(i) {
        assert old@Empty(Emptied(i));
        ShareOfNothing<Entry>(start, i);
      }
    }
  }

  /** The wrapping counter deals out in turn: its range is a multiple of sixteen. */
  lemma NextShard(n: nat)
    ensures n % COUNTER_RANGE % 16 == n % 16 && (n % COUNTER_RANGE + 1) % COUNTER_RANGE == (n + 1) % COUNTER_RANGE
  {
    var d := COUNTER_RANGE;
    var k, r := n / d, n % d;
    assert n == r + k * d;
    Shifted(r, 16, k * (d / 16));
    assert k * d == k * (d / 16) * 16;
    Shifted(r + 1, d, k);
  }

  lemma ShareNext<T>(s: seq<T>, x: T, start: nat, i: nat)
    ensures Share(s + [x], start, i) == if (start + |s|) % 16 == i then Share(s, start, i) + [x] else Share(s, start, i)
  {
    assert (s + [x])[..|s|] == s;
  }

  lemma ShareOfNothing<T>(start: nat, i: nat)
    ensures Share<T>([], start, i) == []
  {
  }

  lemma {:induction false} FilteredIgnoresPaging(q: Query, limit: nat, page: nat, s: seq<Entry>)
    ensures Filtered(q.(limit := limit, page := page), s) == Filtered(q, s)
  {
    if s != [] {
      FilteredIgnoresPaging(q, limit, page, s[..|s| - 1]);
    }
  }

  lemma FetchesAll(q: Query, s: seq<Entry>)
    requires |s| <= LOG_CAP
    ensures Page(Filtered(q.(limit := LOG_CAP, page := 0), s), 0, LOG_CAP) == Filtered(q, s)
  {
    FilteredIgnoresPaging(q, LOG_CAP, 0, s);
  }
}
