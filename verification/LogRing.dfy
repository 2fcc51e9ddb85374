/** One ring of the query log (src/logbuffer.rs). */
module LogRing {
  import opened Prelude
  import opened Arithmetic
  import opened Calendar

  const LOG_CAP := 10_000
  const REDACTED := "[redacted]"

  datatype Action = Forwarded | Cached | Local | Blocked | Nxdomain | Refused | Servfail | Recursed

  datatype Entry = Entry(ts: nat, name: string, client: string, qtype: u16, action: Action, elapsed: nat)

  datatype View = View(ts: string, name: string, client: string, qtype: u16, action: Action, elapsed: nat)

  datatype Query = Query(limit: nat, page: nat, action: Option<Action>, client: Option<string>, since: Option<nat>)

  function Viewed(e: Entry): View {
    View(FormatTs(e.ts), e.name, e.client, e.qtype, e.action, e.elapsed)
  }

  predicate Matches(q: Query, e: Entry) {
    && (q.action.Some? ==> e.action == q.action.value)
    && (q.client.Some? ==> e.client == q.client.value)
    && (q.since.Some? ==> e.ts >= q.since.value)
  }

  /** The entries that match, as shown to the reader. */
  function Filtered(q: Query, s: seq<Entry>): (r: seq<View>)
    ensures |r| <= |s|
  {
    if s == [] then []
    else Filtered(q, s[..|s| - 1]) + if Matches(q, s[|s| - 1]) then [Viewed(s[|s| - 1])] else []
  }

  /** The last `k` of `s`, or all of it. */
  function Last<T>(s: seq<T>, k: nat): (r: seq<T>)
    ensures |r| == Min(|s|, k)
  {
    s[|s| - Min(|s|, k)..]
  }

  /** The last `k` of `s`, newest first. */
  function Recent<T>(s: seq<T>, k: nat): (r: seq<T>)
    ensures |r| == Min(|s|, k) && forall i :: 0 <= i < |r| ==> r[i] == s[|s| - 1 - i]
  {
    seq(Min(|s|, k), i requires 0 <= i < |s| => s[|s| - 1 - i])
  }

  // ---- pages ----

  function Page<T>(s: seq<T>, page: nat, limit: nat): seq<T> {
    var start := Min(page * limit, |s|);
    s[start..Min(start + limit, |s|)]
  }

  lemma PageOfNothing<T>(page: nat, limit: nat)
    ensures Page<T>([], page, limit) == []
  {
  }

  function Pages<T>(s: seq<T>, limit: nat, n: nat): seq<T> {
    if n == 0 then [] else Pages(s, limit, n - 1) + Page(s, n - 1, limit)
  }

  lemma {:induction false} PagesPrefix<T>(s: seq<T>, limit: nat, n: nat)
    ensures Pages(s, limit, n) == s[..Min(n * limit, |s|)]
  {
    if n > 0 {
      PagesPrefix(s, limit, n - 1);
      assert n * limit == (n - 1) * limit + limit;
    } else {
      assert n * limit == 0;
    }
  }

  /** Reading pages until they run out gives the whole result, nothing twice and nothing missed. */
  lemma PagesAreWhole<T>(s: seq<T>, limit: nat, n: nat)
    requires n * limit >= |s|
    ensures Pages(s, limit, n) == s
  {
    PagesPrefix(s, limit, n);
  }

  // ---- the ring ----

  lemma Behind(n: nat, head: nat, cap: nat, i: nat)
    requires cap > 0 && head == n % cap && i < n && i < cap
    ensures (head + cap - 1 - i) % cap == (n - 1 - i) % cap
  {
    assert head + cap - 1 - i == (n - 1 - i) + (1 - n / cap) * cap;
    Shifted(n - 1 - i, cap, 1 - n / cap);
  }

  lemma Ahead(n: nat, cap: nat)
    requires cap > 0
    ensures (n % cap + 1) % cap == (n + 1) % cap
  {
    assert n % cap + 1 == n + 1 + (-(n / cap)) * cap;
    Shifted(n + 1, cap, -(n / cap));
  }

  class LogBuffer {
    var slots: seq<Option<Entry>>
    var head: nat
    var count: nat
    const capacity: nat
    const logClientIp: bool
    ghost var history: seq<Entry> // pushed since the last clear

    ghost predicate Valid()
      reads this
    {
      && |slots| == capacity <= LOG_CAP && count == Min(|history|, capacity)
      && (if capacity == 0 then head == 0 else head == |history| % capacity)
      && forall j :: |history| - count <= j < |history| ==> slots[j % capacity] == Some(history[j])
    }

    constructor (cap: nat, clientIp: bool)
      ensures Valid() && history == [] && capacity == Min(cap, LOG_CAP) && logClientIp == clientIp
    {
      capacity := Min(cap, LOG_CAP);
      slots := seq(Min(cap, LOG_CAP), _ => None);
      head, count, history, logClientIp := 0, 0, [], clientIp;
    }

    /** The entry joins the history; the slots then hold its last `capacity` entries. */
    method Push(entry: Entry)
      requires Valid()
      modifies this
      ensures Valid() && history == old(history) + [entry]
    {
      ghost var n := |history|;
      if capacity == 0 {
        history := history + [entry];
        return;
      }
      slots := slots[head := Some(entry)];
      Ahead(n, capacity);
      head := (head + 1) % capacity;
      if count < capacity {
        count := count + 1;
      }
      history := history + [entry];
      forall j | |history| - count <= j < |history| ensures slots[j % capacity] == Some(history[j]) {
        if j < n && j % capacity == n % capacity {
          SameRemainder(j, n, capacity);
        }
      }
    }

    method PushQuery(ts: nat, name: string, client: string, qtype: u16, action: Action, elapsed: nat) returns (stored: string)
      requires Valid()
      modifies this
      ensures Valid() && stored == if logClientIp then client else REDACTED
      ensures history == old(history) + [Entry(ts, name, stored, qtype, action, elapsed)]
    {
      stored := if logClientIp then client else REDACTED;
      Push(Entry(ts, name, stored, qtype, action, elapsed));
    }

    method Clear() returns (deleted: nat)
      requires Valid()
      modifies this
      ensures Valid() && history == [] && deleted == Min(|old(history)|, capacity)
    {
      deleted := count;
      slots := seq(capacity, _ => None);
      head, count, history := 0, 0, [];
    }

    /** Walking back from the head meets the history newest first. */
    lemma SlotAt(i: nat)
      requires Valid() && i < count
      ensures 0 <= (head + capacity - 1 - i) % capacity < capacity
      ensures slots[(head + capacity - 1 - i) % capacity] == Some(Recent(history, capacity)[i])
    {
      Behind(|history|, head, capacity, i);
    }

    /** The requested page of the matching entries among the last `capacity`, newest first. */
    method RunQuery(q: Query) returns (page: seq<View>, total: nat)
      requires Valid()
      ensures var matched := Filtered(q, Recent(history, capacity));
              page == Page(matched, q.page, q.limit) && total == |matched|
    {
      hide Viewed;
      hide Page;
      var filled := Min(count, capacity);
      if filled == 0 {
        PageOfNothing<View>(q.page, q.limit);
        return [], 0;
      }
      var matched: seq<View> := [];
      ghost var recent := Recent(history, capacity);
      for i := 0 to filled
        invariant matched == Filtered(q, recent[..i])
      {
        SlotAt(i);
        var idx := (head + capacity - 1 - i) % capacity;
        assert recent[..i + 1][..i] == recent[..i];
        match slots[idx]
        case None =>
        case Some(entry) =>
          if Matches(q, entry) {
            matched := matched + [Viewed(entry)];
          }
      }
      assert recent[..filled] == recent;
      total := |matched|;
      page := Page(matched, q.page, q.limit);
    }
  }
}
