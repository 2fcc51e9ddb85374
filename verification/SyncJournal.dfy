/** The master's bounded journal and the slave's stores (src/sync.rs). */
module SyncJournal {
  import opened Prelude

  const JOURNAL_CAPACITY := 1000

  datatype Kind = Dns | Blacklist | Feeds

  /**
   An entry of a store. `data` is what refreshing a feed rewrites: the number of domains, the time of
   the download and the last error; entries of the other stores have none.
   */
  datatype Entry = Entry(config: string, data: string)

  /** Journal operations; `Other` stands for those on upstreams and bans. */
  datatype SyncOp = Add(kind: Kind, id: string, entry: Entry) | Delete(kind: Kind, id: string) | UpdateFeed(id: string) | Other

  datatype SyncEvent = SyncEvent(seqNo: nat, op: SyncOp)

  /** The events of `history` from sequence number `since` on. */
  function EventsFrom(history: seq<SyncOp>, since: nat): (r: seq<SyncEvent>)
    ensures |r| == Max(|history| - since, 0)
    ensures forall i :: 0 <= i < |r| ==> r[i] == SyncEvent(since + i, history[since + i])
  {
    seq(Max(|history| - since, 0), i requires 0 <= i < |history| - since => SyncEvent(since + i, history[since + i]))
  }

  function OldestKept(history: seq<SyncOp>): nat {
    Max(|history| - JOURNAL_CAPACITY, 0)
  }

  /** Everything since `since`, or nothing once `since` has fallen out of the last 1000 events. */
  function Delta(history: seq<SyncOp>, since: nat): Option<seq<SyncEvent>> {
    if since < OldestKept(history) then None else Some(EventsFrom(history, since))
  }

  class Journal {
    var events: seq<SyncEvent>
    var seqNo: nat
    ghost var history: seq<SyncOp>

    ghost predicate Valid()
      reads this
    {
      seqNo == |history| && events == EventsFrom(history, OldestKept(history))
    }

    constructor ()
      ensures Valid() && history == []
    {
      events, seqNo, history := [], 0, [];
    }

    method Push(op: SyncOp) returns (number: nat)
      requires Valid()
      modifies this
      ensures Valid() && history == old(history) + [op] && number == |old(history)|
    {
      number := seqNo;
      seqNo := seqNo + 1;
      if |events| >= JOURNAL_CAPACITY {
        events := events[1..];
      }
      events := events + [SyncEvent(number, op)];
      history := history + [op];
    }

    method DeltaSince(since: nat) returns (r: Option<seq<SyncEvent>>)
      requires Valid()
      ensures r == Delta(history, since)
    {
      if events != [] && since < events[0].seqNo {
        return None;
      }
      var out: seq<SyncEvent> := [];
      ghost var oldest := OldestKept(history);
      for i := 0 to |events|
        invariant out == EventsFrom(history[..oldest + i], since)
      {
        if events[i].seqNo >= since {
          out := out + [events[i]];
        }
      }
      assert history[..|history|] == history;
      return Some(out);
    }
  }

  // ---- the slave's stores ----

  type Table = map<string, Entry>

  datatype Stores = Stores(dns: Table, blacklist: Table, feeds: Table) {
    function Of(k: Kind): Table {
      match k case Dns => dns case Blacklist => blacklist case Feeds => feeds
    }
  }

  /** The node's own download replaces the refresh data of a feed it knows. */
  function Refreshed(t: Table, id: string, found: string): Table {
    if id in t then t[id := t[id].(data := found)] else t
  }

  /** An entry is added unless its id is present; a deletion removes it; `found` is what a refresh brings. */
  function Write(t: Table, k: Kind, op: SyncOp, found: string): Table {
    match op
    case Add(kind, id, entry) => if kind != k || id in t then t else t[id := entry]
    case Delete(kind, id) => if kind != k then t else t - {id}
    case UpdateFeed(id) => if k == Feeds then Refreshed(t, id, found) else t
    case Other => t
  }

  function Apply(s: Stores, op: SyncOp, found: string): Stores {
    Stores(Write(s.dns, Dns, op, found), Write(s.blacklist, Blacklist, op, found), Write(s.feeds, Feeds, op, found))
  }

  function WriteAll(t: Table, k: Kind, ops: seq<SyncOp>, found: seq<string>): Table
    requires |found| == |ops|
  {
    if ops == [] then t
    else Write(WriteAll(t, k, ops[..|ops| - 1], found[..|ops| - 1]), k, ops[|ops| - 1], found[|ops| - 1])
  }

  function ApplyEach(s: Stores, ops: seq<SyncOp>, found: seq<string>): Stores
    requires |found| == |ops|
  {
    Stores(WriteAll(s.dns, Dns, ops, found), WriteAll(s.blacklist, Blacklist, ops, found), WriteAll(s.feeds, Feeds, ops, found))
  }

  // ---- what the two sides share ----

  /** A feed without its refresh data; the other entries whole. */
  function Mask(k: Kind, e: Entry): Entry {
    if k == Feeds then Entry(e.config, "") else e
  }

  function Visible(k: Kind, t: Table): Table {
    map id | id in t :: Mask(k, t[id])
  }

  function Put(t: Table, k: Kind, op: SyncOp): Table {
    match op
    case Add(kind, id, entry) => if kind != k || id in t then t else t[id := Mask(k, entry)]
    case Delete(kind, id) => if kind != k then t else t - {id}
    case _ => t
  }

  function Run(t: Table, k: Kind, ops: seq<SyncOp>): Table {
    if ops == [] then t else Put(Run(t, k, ops[..|ops| - 1]), k, ops[|ops| - 1])
  }

  /** Refreshes aside, what an operation does to a store is determined. */
  lemma VisibleWrite(t: Table, k: Kind, op: SyncOp, found: string)
    ensures Visible(k, Write(t, k, op, found)) == Put(Visible(k, t), k, op)
  {
  }

  lemma {:induction false} VisibleWriteAll(t: Table, k: Kind, ops: seq<SyncOp>, found: seq<string>)
    requires |found| == |ops|
    ensures Visible(k, WriteAll(t, k, ops, found)) == Run(Visible(k, t), k, ops)
  {
    hide Visible;
    hide Write;
    hide Put;
    if ops != [] {
      var n := |ops| - 1;
      VisibleWriteAll(t, k, ops[..n], found[..n]);
      VisibleWrite(WriteAll(t, k, ops[..n], found[..n]), k, ops[n], found[n]);
    }
  }

  datatype Item = Item(id: string, entry: Entry)

  predicate HasId(items: seq<Item>, id: string) {
    exists i :: 0 <= i < |items| && items[i].id == id
  }

  ghost predicate UniqueIds(items: seq<Item>) {
    forall i, j :: 0 <= i < j < |items| ==> items[i].id != items[j].id
  }

  function Contents(items: seq<Item>): Table {
    if items == [] then map[]
    else Contents(items[..|items| - 1])[items[|items| - 1].id := items[|items| - 1].entry]
  }

  lemma {:induction false} ContentsIds(items: seq<Item>, id: string)
    ensures id in Contents(items) <==> HasId(items, id)
  {
    if items != [] {
      var k := |items| - 1;
      ContentsIds(items[..k], id);
      assert HasId(items, id) <==> HasId(items[..k], id) || id == items[k].id;
    }
  }

  /** `retain(|e| e.id != id)` */
  function Without(items: seq<Item>, id: string): seq<Item> {
    if items == [] then []
    else Without(items[..|items| - 1], id) + (if items[|items| - 1].id != id then [items[|items| - 1]] else [])
  }

  lemma {:induction false} WithoutContents(items: seq<Item>, id: string)
    ensures Contents(Without(items, id)) == Contents(items) - {id}
  {
    if items != [] {
      var k := |items| - 1;
      var rest, last := Without(items[..k], id), items[k];
      WithoutContents(items[..k], id);
      if last.id != id {
        assert (rest + [last])[..|rest|] == rest;
      } else {
        assert rest + [] == rest;
      }
    }
  }

  lemma {:induction false} WithoutSubset(items: seq<Item>, id: string, x: Item)
    requires x in Without(items, id)
    ensures x in items
  {
    var k := |items| - 1;
    if x in Without(items[..k], id) {
      WithoutSubset(items[..k], id, x);
    }
  }

  lemma UniqueSnoc(items: seq<Item>, x: Item)
    requires UniqueIds(items) && forall i :: 0 <= i < |items| ==> items[i].id != x.id
    ensures UniqueIds(items + [x])
  {
  }

  lemma {:induction false} WithoutKeepsUnique(items: seq<Item>, id: string)
    requires UniqueIds(items)
    ensures UniqueIds(Without(items, id))
  {
    if items != [] {
      var k := |items| - 1;
      var rest := Without(items[..k], id);
      WithoutKeepsUnique(items[..k], id);
      forall i | 0 <= i < |rest| ensures rest[i].id != items[k].id {
        WithoutSubset(items[..k], id, rest[i]);
      }
      UniqueSnoc(rest, items[k]);
      assert rest + [] == rest;
    }
  }

  /** The entry with the id gets new refresh data. */
  function Renewed(items: seq<Item>, id: string, found: string): (r: seq<Item>)
    ensures |r| == |items|
    ensures forall i :: 0 <= i < |r| ==>
      r[i] == if items[i].id == id then Item(id, items[i].entry.(data := found)) else items[i]
  {
    seq(|items|, i requires 0 <= i < |items| =>
      if items[i].id == id then Item(id, items[i].entry.(data := found)) else items[i])
  }

  lemma {:induction false} RenewedContents(items: seq<Item>, id: string, found: string)
    ensures Contents(Renewed(items, id, found)) == Refreshed(Contents(items), id, found)
  {
    if items != [] {
      var k := |items| - 1;
      RenewedContents(items[..k], id, found);
      assert Renewed(items, id, found)[..k] == Renewed(items[..k], id, found);
    }
  }

  /** One list after one operation. */
  function Revised(items: seq<Item>, k: Kind, op: SyncOp, found: string): seq<Item> {
    match op
    case Add(kind, id, entry) => if kind == k && !HasId(items, id) then items + [Item(id, entry)] else items
    case Delete(kind, id) => if kind == k then Without(items, id) else items
    case UpdateFeed(id) => if k == Feeds then Renewed(items, id, found) else items
    case Other => items
  }

  lemma RevisedContents(items: seq<Item>, k: Kind, op: SyncOp, found: string)
    requires UniqueIds(items)
    ensures UniqueIds(Revised(items, k, op, found)) && Contents(Revised(items, k, op, found)) == Write(Contents(items), k, op, found)
  {
    hide Contents;
    hide Without;
    match op
    case Add(kind, id, entry) =>
      ContentsIds(items, id);
      ContentsAdd(items, Item(id, entry));
    case Delete(kind, id) =>
      WithoutContents(items, id);
      WithoutKeepsUnique(items, id);
    case UpdateFeed(id) =>
      RenewedContents(items, id, found);
    case Other =>
  }

  lemma ContentsAdd(items: seq<Item>, x: Item)
    ensures Contents(items + [x]) == Contents(items)[x.id := x.entry]
  {
    assert (items + [x])[..|items|] == items;
  }

  /** The slave's three lists of entries, rewritten in place by each event. */
  class Replica {
    var dns: seq<Item>
    var blacklist: seq<Item>
    var feeds: seq<Item>

    ghost predicate Valid()
      reads this
    {
      UniqueIds(dns) && UniqueIds(blacklist) && UniqueIds(feeds)
    }

    ghost function Tables(): Stores
      reads this
    {
      Stores(Contents(dns), Contents(blacklist), Contents(feeds))
    }

    /** `found` is the outcome of the slave's own download, if the event asks for one. */
    method ApplyEvent(e: SyncEvent, found: string)
      requires Valid()
      modifies this
      ensures Valid() && Tables() == Apply(old(Tables()), e.op, found)
    {
      hide UniqueIds;
      hide Contents;
      hide Revised;
      RevisedContents(dns, Dns, e.op, found);
      RevisedContents(blacklist, Blacklist, e.op, found);
      RevisedContents(feeds, Feeds, e.op, found);
      RevisedElsewhere(dns, Dns, e.op, found);
      RevisedElsewhere(blacklist, Blacklist, e.op, found);
      RevisedElsewhere(feeds, Feeds, e.op, found);
      match e.op
      case Other =>
      case UpdateFeed(id) => feeds := Revised(feeds, Feeds, e.op, found);
      case _ =>
        match e.op.kind
        case Dns => dns := Revised(dns, Dns, e.op, found);
        case Blacklist => blacklist := Revised(blacklist, Blacklist, e.op, found);
        case Feeds => feeds := Revised(feeds, Feeds, e.op, found);
    }

    method ApplyAll(events: seq<SyncEvent>, found: seq<string>, ghost ops: seq<SyncOp>)
      requires Valid() && |ops| == |events| == |found| && forall i :: 0 <= i < |events| ==> events[i].op == ops[i]
      modifies this
      ensures Valid() && Tables() == ApplyEach(old(Tables()), ops, found)
    {
      hide Write;
      hide Contents;
      hide UniqueIds;
      for i := 0 to |events|
        invariant Valid() && Tables() == ApplyEach(old(Tables()), ops[..i], found[..i])
      {
        assert ops[..i + 1][..i] == ops[..i] && found[..i + 1][..i] == found[..i];
        ApplyEvent(events[i], found[i]);
      }
      assert ops[..|ops|] == ops && found[..|found|] == found;
    }
  }

  /** An operation leaves the lists of the other stores as they are. */
  lemma RevisedElsewhere(items: seq<Item>, k: Kind, op: SyncOp, found: string)
    ensures (op.Add? || op.Delete?) && op.kind != k ==> Revised(items, k, op, found) == items
    ensures op.UpdateFeed? && k != Feeds ==> Revised(items, k, op, found) == items
    ensures op.Other? ==> Revised(items, k, op, found) == items
  {
  }
}
