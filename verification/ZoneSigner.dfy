/**
 The authoritative signer (src/dns/zone_signer.rs): it completes the zone's names with empty
 non-terminals, sorts their hashes into a ring, and answers a negative query with the records
 that deny it.
 */
module ZoneSigner {
  import opened Prelude
  import opened Names
  import opened Ring
  import opened Denial
  import opened Zones
  import RecordTypes
  import TypeBitmap

  datatype Entry = Entry(name: Name, types: set<u16>)

  const APEX_TYPES: set<u16> := {RecordTypes.SOA, RecordTypes.DNSKEY, RecordTypes.NSEC3PARAM}

  // ---- the owner names of the zone ----

  /** `n` is the folded name `f` or an ancestor of it with at least `depth` labels. */
  predicate Ancestor(f: Name, depth: nat, n: Name) {
    depth <= |n| <= |f| && n == f[|f| - |n|..]
  }

  predicate Places(e: Entry, apex: Name, n: Name) {
    InZone(e.name, apex) && Ancestor(Fold(e.name), |apex|, n)
  }

  predicate Contributes(e: Entry, apex: Name, n: Name, t: u16) {
    InZone(e.name, apex) && Fold(e.name) == n && t in e.types
  }

  /** `n` is the apex, or one of the first `k` entries inside the zone, or lies between the two. */
  ghost predicate Existing(entries: seq<Entry>, k: nat, apex: Name, n: Name)
    requires k <= |entries|
  {
    || n == Fold(apex)
    || exists i :: 0 <= i < k && Places(entries[i], apex, n)
  }

  ghost predicate Owns(entries: seq<Entry>, k: nat, apex: Name, n: Name, t: u16)
    requires k <= |entries|
  {
    || (n == Fold(apex) && t in APEX_TYPES)
    || exists i :: 0 <= i < k && Contributes(entries[i], apex, n, t)
  }

  /** `m` with the ancestors of `f` longer than `len` labels. */
  ghost predicate Filled(m: map<Name, set<u16>>, r: map<Name, set<u16>>, f: Name, depth: nat, len: nat) {
    && (forall n :: n in r <==> n in m || (Ancestor(f, depth, n) && |n| > len))
    && (forall n :: n in r ==> r[n] == if n in m then m[n] else {})
  }

  lemma FillOne(m: map<Name, set<u16>>, r: map<Name, set<u16>>, f: Name, depth: nat, cur: Name)
    requires depth < |cur| && Ancestor(f, depth, cur) && Filled(m, r, f, depth, |cur|)
    ensures Filled(m, if cur in r then r else r[cur := {}], f, depth, |cur| - 1)
  {
    assert forall n :: Ancestor(f, depth, n) && |n| == |cur| ==> n == cur;
  }

  lemma FilledWhole(m: map<Name, set<u16>>, r: map<Name, set<u16>>, f: Name, apex: Name, types: set<u16>)
    requires Ancestor(f, |apex|, apex) && apex in m && Filled(m, r, f, |apex|, |apex|)
    ensures f in r && Extends(m, r[f := r[f] + types], f, |apex|, types)
  {
    assert forall n :: Ancestor(f, |apex|, n) && |n| == |apex| ==> n == apex;
    assert Ancestor(f, |apex|, f);
  }

  /** Add the missing ancestors of `f`, down to the apex, then its own types. */
  method AddEntry(m: map<Name, set<u16>>, f: Name, types: set<u16>, apex: Name) returns (r: map<Name, set<u16>>)
    requires |apex| <= |f| && f[|f| - |apex|..] == apex && apex in m
    ensures Extends(m, r, f, |apex|, types)
  {
    r := m;
    var cur := f;
    assert Filled(m, r, f, |apex|, |cur|);
    hide Filled;
    hide Extends;
    while |cur| > |apex|
      invariant Ancestor(f, |apex|, cur) && Filled(m, r, f, |apex|, |cur|)
    {
      FillOne(m, r, f, |apex|, cur);
      if cur !in r {
        r := r[cur := {}];
      }
      cur := cur[1..];
    }
    FilledWhole(m, r, f, apex, types);
    r := r[f := r[f] + types];
  }

  /** The map holds exactly the names and types of the apex and the first `k` entries. */
  ghost predicate Summarises(m: map<Name, set<u16>>, entries: seq<Entry>, k: nat, apex: Name)
    requires k <= |entries|
  {
    && (forall n :: n in m <==> Existing(entries, k, apex, n))
    && (forall n :: n in m ==> OwnsExactly(m[n], entries, k, apex, n))
  }

  ghost predicate OwnsExactly(types: set<u16>, entries: seq<Entry>, k: nat, apex: Name, n: Name)
    requires k <= |entries|
  {
    forall t: u16 :: t in types <==> Owns(entries, k, apex, n, t)
  }

  lemma SkipEntry(m: map<Name, set<u16>>, entries: seq<Entry>, k: nat, apex: Name)
    requires k < |entries| && !InZone(entries[k].name, apex) && Summarises(m, entries, k, apex)
    ensures Summarises(m, entries, k + 1, apex)
  {
    ExistingStep(entries, apex, k);
    OwnsStep(entries, apex, k);
  }

  ghost predicate Extends(m: map<Name, set<u16>>, r: map<Name, set<u16>>, f: Name, depth: nat, types: set<u16>) {
    && (forall n :: n in r <==> n in m || Ancestor(f, depth, n))
    && (forall n :: n in r ==> r[n] == (if n in m then m[n] else {}) + (if n == f then types else {}))
  }

  lemma TakeEntryNames(m: map<Name, set<u16>>, r: map<Name, set<u16>>, entries: seq<Entry>, k: nat, apex: Name)
    requires k < |entries| && InZone(entries[k].name, apex)
    requires forall n :: n in m <==> Existing(entries, k, apex, n)
    requires Extends(m, r, Fold(entries[k].name), |apex|, entries[k].types)
    ensures forall n :: n in r <==> Existing(entries, k + 1, apex, n)
  {
    ExistingStep(entries, apex, k);
  }

  lemma TakeEntryTypes(m: map<Name, set<u16>>, r: map<Name, set<u16>>, entries: seq<Entry>, k: nat, apex: Name, n: Name)
    requires k < |entries| && InZone(entries[k].name, apex) && Summarises(m, entries, k, apex)
    requires Extends(m, r, Fold(entries[k].name), |apex|, entries[k].types) && n in r
    ensures OwnsExactly(r[n], entries, k + 1, apex, n)
  {
    OwnsStep(entries, apex, k);
    OwnsMeansExisting(entries, k, apex);
    assert Existing(entries, k, apex, n) <==> n in m;
    assert n in m ==> OwnsExactly(m[n], entries, k, apex, n);
    forall t: u16 ensures t in r[n] <==> Owns(entries, k + 1, apex, n, t) {
      assert Owns(entries, k + 1, apex, n, t) <==> Owns(entries, k, apex, n, t) || Contributes(entries[k], apex, n, t);
    }
  }

  lemma TakeEntry(m: map<Name, set<u16>>, r: map<Name, set<u16>>, entries: seq<Entry>, k: nat, apex: Name)
    requires k < |entries| && InZone(entries[k].name, apex) && Summarises(m, entries, k, apex)
    requires Extends(m, r, Fold(entries[k].name), |apex|, entries[k].types)
    ensures Summarises(r, entries, k + 1, apex)
  {
    TakeEntryNames(m, r, entries, k, apex);
    forall n | n in r ensures OwnsExactly(r[n], entries, k + 1, apex, n) {
      TakeEntryTypes(m, r, entries, k, apex, n);
    }
  }

  lemma StartOwners(entries: seq<Entry>, apex: Name)
    ensures Summarises(map[Fold(apex) := APEX_TYPES], entries, 0, apex)
  {
  }

  method ZoneOwners(entries: seq<Entry>, apex: Name) returns (owners: map<Name, set<u16>>)
    requires ValidName(apex) && forall i :: 0 <= i < |entries| ==> ValidName(entries[i].name)
    ensures Summarises(owners, entries, |entries|, apex)
    ensures Published(apex, owners).Valid()
  {
    hide Summarises;
    hide Published;
    hide Places;
    hide Contributes;
    owners := map[Fold(apex) := APEX_TYPES];
    StartOwners(entries, apex);
    for i := 0 to |entries|
      invariant Fold(apex) in owners && Summarises(owners, entries, i, apex)
    {
      var e := entries[i];
      if InZone(e.name, apex) {
        assert Fold(e.name)[|e.name| - |apex|..] == Fold(apex);
        var more := AddEntry(owners, Fold(e.name), e.types, Fold(apex));
        TakeEntry(owners, more, entries, i, apex);
        owners := more;
      } else {
        SkipEntry(owners, entries, i, apex);
      }
    }
    OwnersFormZone(entries, apex, owners);
  }

  lemma OwnsMeansExisting(entries: seq<Entry>, k: nat, apex: Name)
    requires k <= |entries|
    ensures forall n, t :: Owns(entries, k, apex, n, t) ==> Existing(entries, k, apex, n)
  {
    forall n, t | Owns(entries, k, apex, n, t) ensures Existing(entries, k, apex, n) {
      if n != Fold(apex) {
        var i :| 0 <= i < k && Contributes(entries[i], apex, n, t);
        assert Places(entries[i], apex, n);
      }
    }
  }

  lemma ExistingStep(entries: seq<Entry>, apex: Name, i: nat)
    requires i < |entries|
    ensures forall n :: Existing(entries, i + 1, apex, n)
                    <==> || Existing(entries, i, apex, n)
                         || Places(entries[i], apex, n)
  {
  }

  lemma OwnsStep(entries: seq<Entry>, apex: Name, i: nat)
    requires i < |entries|
    ensures forall n, t :: Owns(entries, i + 1, apex, n, t)
                       <==> || Owns(entries, i, apex, n, t)
                            || Contributes(entries[i], apex, n, t)
  {
  }

  /** The zone as published: every name also lists its signatures. */
  function Published(apex: Name, owners: map<Name, set<u16>>): Zone {
    Zone(Fold(apex), map n | n in owners :: owners[n] + {RecordTypes.RRSIG}, {})
  }

  lemma SuffixOfSuffix<T>(s: seq<T>, a: nat, b: nat)
    requires a + b <= |s|
    ensures s[a..][b..] == s[a + b..]
  {
  }

  lemma PlacesProper(e: Entry, apex: Name, n: Name)
    requires ValidName(e.name) && Places(e, apex, n)
    ensures ValidName(n) && Fold(n) == n && n[|n| - |apex|..] == Fold(apex)
    ensures |n| > |apex| ==> Places(e, apex, n[1..])
  {
    hide ValidName;
    hide Fold;
    var f := Fold(e.name);
    var k := |f| - |n|;
    SuffixOfSuffix(f, k, |n| - |apex|);
    assert ValidName(n) by {
      ValidFold(e.name);
      ValidSuffix(f, k);
    }
    assert Fold(n) == n by {
      FoldSuffix(f, k);
      FoldIdempotent(e.name);
    }
    if |n| > |apex| {
      SuffixOfSuffix(f, k, 1);
    }
  }

  lemma ExistingProper(entries: seq<Entry>, apex: Name, n: Name)
    requires ValidName(apex) && forall i :: 0 <= i < |entries| ==> ValidName(entries[i].name)
    requires Existing(entries, |entries|, apex, n)
    ensures ValidName(n) && Fold(n) == n && |apex| <= |n| && n[|n| - |apex|..] == Fold(apex)
    ensures n != Fold(apex) ==> |apex| < |n| && Existing(entries, |entries|, apex, n[1..])
  {
    if i :| 0 <= i < |entries| && Places(entries[i], apex, n) {
      PlacesProper(entries[i], apex, n);
      assert n[0..] == n;
    } else {
      ValidFold(apex);
      FoldIdempotent(apex);
    }
  }

  /** Whatever the entries are, the completed owner set is a proper tree of names. */
  lemma OwnersFormZone(entries: seq<Entry>, apex: Name, owners: map<Name, set<u16>>)
    requires ValidName(apex) && forall i :: 0 <= i < |entries| ==> ValidName(entries[i].name)
    requires Summarises(owners, entries, |entries|, apex)
    ensures Published(apex, owners).Valid()
  {
    hide ValidName;
    hide Fold;
    hide OwnsExactly;
    hide Places;
    var z := Published(apex, owners);
    assert Existing(entries, |entries|, apex, Fold(apex));
    hide Existing;
    forall n: Name ensures z.WellPlaced(n) {
      if n in z.types {
        ExistingProper(entries, apex, n);
      }
    }
  }

  // ---- the ring of hashes ----

  datatype Node = Node(hash: seq<byte>, types: set<u16>)

  const PARAMS := Params([], 0)

  function Hashes(nodes: seq<Node>): (r: seq<seq<int>>)
    ensures |r| == |nodes| && forall i :: 0 <= i < |nodes| ==> r[i] == nodes[i].hash
  {
    seq(|nodes|, i requires 0 <= i < |nodes| => nodes[i].hash)
  }

  /** Keep the ring sorted; of two equal hashes the first one stays. */
  function InsertNode(nodes: seq<Node>, x: Node): seq<Node> {
    if nodes == [] then [x]
    else if nodes[0].hash == x.hash then nodes
    else if BytesLess(x.hash, nodes[0].hash) then [x] + nodes
    else [nodes[0]] + InsertNode(nodes[1..], x)
  }

  function NodeOf(h: Hasher, e: Entry): Node {
    Node(HashName(h, PARAMS, e.name), e.types + {RecordTypes.RRSIG})
  }

  function BuildNodes(h: Hasher, owners: seq<Entry>): seq<Node> {
    if owners == [] then []
    else InsertNode(BuildNodes(h, owners[..|owners| - 1]), NodeOf(h, owners[|owners| - 1]))
  }

  lemma {:induction false} InsertNodeMembers(nodes: seq<Node>, x: Node)
    ensures forall n :: n in InsertNode(nodes, x) ==> n in nodes || n == x
    ensures forall n :: n in nodes ==> n in InsertNode(nodes, x)
    ensures exists n :: n in InsertNode(nodes, x) && n.hash == x.hash
  {
    if nodes == [] {
      assert x in InsertNode(nodes, x);
    } else if nodes[0].hash == x.hash {
      assert nodes[0] in InsertNode(nodes, x);
    } else if BytesLess(x.hash, nodes[0].hash) {
      assert x in InsertNode(nodes, x);
    } else {
      InsertNodeMembers(nodes[1..], x);
      assert nodes == [nodes[0]] + nodes[1..];
    }
  }

  ghost predicate Ascending(nodes: seq<Node>) {
    Sorted(BytesLess, Hashes(nodes))
  }

  lemma ConsAscending(x: Node, nodes: seq<Node>)
    requires Ascending(nodes) && forall n :: n in nodes ==> BytesLess(x.hash, n.hash)
    ensures Ascending([x] + nodes)
  {
    var r := [x] + nodes;
    forall i, j | 0 <= i < j < |r| ensures BytesLess(Hashes(r)[i], Hashes(r)[j]) {
      assert r[j] == nodes[j - 1] && r[j] in nodes;
      if i > 0 {
        assert BytesLess(Hashes(nodes)[i - 1], Hashes(nodes)[j - 1]);
      }
    }
  }

  lemma TailAscending(nodes: seq<Node>)
    requires Ascending(nodes) && nodes != []
    ensures Ascending(nodes[1..]) && forall n :: n in nodes[1..] ==> BytesLess(nodes[0].hash, n.hash)
  {
    forall i, j | 0 <= i < j < |nodes[1..]| ensures BytesLess(Hashes(nodes[1..])[i], Hashes(nodes[1..])[j]) {
      assert BytesLess(Hashes(nodes)[i + 1], Hashes(nodes)[j + 1]);
    }
    forall n | n in nodes[1..] ensures BytesLess(nodes[0].hash, n.hash) {
      var j :| 0 <= j < |nodes[1..]| && nodes[1..][j] == n;
      assert BytesLess(Hashes(nodes)[0], Hashes(nodes)[j + 1]);
    }
  }

  lemma {:induction false} InsertNodeAscending(nodes: seq<Node>, x: Node)
    requires Ascending(nodes)
    ensures Ascending(InsertNode(nodes, x))
  {
    if nodes != [] && nodes[0].hash != x.hash {
      var rest := nodes[1..];
      TailAscending(nodes);
      if BytesLess(x.hash, nodes[0].hash) {
        forall n | n in nodes ensures BytesLess(x.hash, n.hash) {
          assert n == nodes[0] || n in rest;
          if n in rest {
            BytesTransitive(x.hash, nodes[0].hash, n.hash);
          }
        }
        ConsAscending(x, nodes);
      } else {
        BytesConnected(x.hash, nodes[0].hash);
        InsertNodeAscending(rest, x);
        InsertNodeMembers(rest, x);
        ConsAscending(nodes[0], InsertNode(rest, x));
      }
    }
  }

  lemma BytesTransitive(a: seq<int>, b: seq<int>, c: seq<int>)
    requires BytesLess(a, b) && BytesLess(b, c)
    ensures BytesLess(a, c)
  {
    BytesLessTotal();
  }

  lemma BytesConnected(a: seq<int>, b: seq<int>)
    ensures a == b || BytesLess(a, b) || BytesLess(b, a)
  {
    BytesLessTotal();
  }

  lemma {:induction false} BuildNodesAscending(h: Hasher, owners: seq<Entry>)
    ensures Ascending(BuildNodes(h, owners))
  {
    if owners != [] {
      var k := |owners| - 1;
      BuildNodesAscending(h, owners[..k]);
      InsertNodeAscending(BuildNodes(h, owners[..k]), NodeOf(h, owners[k]));
    }
  }

  /** Sorting and deduplicating invents no node ... */
  lemma {:induction false} NodeHasOwner(h: Hasher, owners: seq<Entry>, n: Node) returns (i: nat)
    requires n in BuildNodes(h, owners)
    ensures i < |owners| && n == NodeOf(h, owners[i])
  {
    var k := |owners| - 1;
    var prefix := BuildNodes(h, owners[..k]);
    InsertNodeMembers(prefix, NodeOf(h, owners[k]));
    if n in prefix {
      i := NodeHasOwner(h, owners[..k], n);
    } else {
      i := k;
    }
  }

  /** ... and loses no hash. */
  lemma {:induction false} OwnerHasNode(h: Hasher, owners: seq<Entry>, i: nat) returns (n: Node)
    requires i < |owners|
    ensures n in BuildNodes(h, owners) && n.hash == HashName(h, PARAMS, owners[i].name)
  {
    var k := |owners| - 1;
    var prefix := BuildNodes(h, owners[..k]);
    InsertNodeMembers(prefix, NodeOf(h, owners[k]));
    if i < k {
      n := OwnerHasNode(h, owners[..k], i);
    } else {
      n :| n in InsertNode(prefix, NodeOf(h, owners[k])) && n.hash == NodeOf(h, owners[k]).hash;
    }
  }

  /** The NSEC3 record of node `i`, before signing. */
  function RecordAt(nodes: seq<Node>, i: nat): Nsec3
    requires i < |nodes|
  {
    Nsec3(1, 0, PARAMS.iterations, PARAMS.salt, nodes[i].hash, nodes[Successor(i, |nodes|)].hash,
          TypeBitmap.Encoded(nodes[i].types))
  }

  function Chain(nodes: seq<Node>): (r: seq<Nsec3>)
    ensures |r| == |nodes| && forall i :: 0 <= i < |nodes| ==> r[i] == RecordAt(nodes, i)
  {
    seq(|nodes|, i requires 0 <= i < |nodes| => RecordAt(nodes, i))
  }

  /** `owners` lists every name of the map once more, in some order. */
  ghost predicate Listing(owners: seq<Entry>, m: map<Name, set<u16>>) {
    && (forall i :: 0 <= i < |owners| ==> owners[i].name in m && m[owners[i].name] == owners[i].types)
    && (forall n :: n in m ==> exists i :: 0 <= i < |owners| && owners[i].name == n)
  }

  lemma NodeDescribes(apex: Name, m: map<Name, set<u16>>, h: Hasher, owners: seq<Entry>, r: Nsec3, i: nat)
    requires Listing(owners, m) && i < |owners|
    requires r.ownerHash == NodeOf(h, owners[i]).hash
    requires r.bitmap == TypeBitmap.Encoded(NodeOf(h, owners[i]).types)
    ensures Describes(Published(apex, m), h, PARAMS, r, owners[i].name)
  {
    forall t: u16 ensures r.Lists(t) <==> t in NodeOf(h, owners[i]).types {
      TypeBitmap.Membership(NodeOf(h, owners[i]).types, t);
    }
  }

  lemma ChainLinked(nodes: seq<Node>)
    requires Ascending(nodes)
    ensures Linked(Chain(nodes)) && Owners(Chain(nodes)) == Hashes(nodes)
  {
    assert Owners(Chain(nodes)) == Hashes(nodes);
  }

  lemma ChainRecordHonest(apex: Name, m: map<Name, set<u16>>, h: Hasher, owners: seq<Entry>, r: Nsec3)
    requires Listing(owners, m) && r in Chain(BuildNodes(h, owners))
    ensures Honest(Published(apex, m), h, PARAMS, r)
  {
    var nodes := BuildNodes(h, owners);
    var k :| 0 <= k < |nodes| && Chain(nodes)[k] == r;
    var i := NodeHasOwner(h, owners, nodes[k]);
    NodeDescribes(apex, m, h, owners, r, i);
  }

  lemma ChainAccounts(apex: Name, m: map<Name, set<u16>>, h: Hasher, owners: seq<Entry>, n: Name)
    requires Listing(owners, m)
    ensures Accounted(Published(apex, m), h, PARAMS, Chain(BuildNodes(h, owners)), n)
  {
    var nodes := BuildNodes(h, owners);
    if n in m {
      var i :| 0 <= i < |owners| && owners[i].name == n;
      var x := OwnerHasNode(h, owners, i);
      var k :| 0 <= k < |nodes| && nodes[k] == x;
      assert Owners(Chain(nodes))[k] == HashName(h, PARAMS, n);
    }
  }

  /** What the signer builds is the honest chain of the published zone. */
  lemma SignerChainHonest(apex: Name, m: map<Name, set<u16>>, h: Hasher, owners: seq<Entry>)
    requires Listing(owners, m)
    ensures HonestChain(Published(apex, m), h, PARAMS, Chain(BuildNodes(h, owners)))
  {
    var nodes := BuildNodes(h, owners);
    BuildNodesAscending(h, owners);
    ChainLinked(nodes);
    forall r | r in Chain(nodes) ensures Honest(Published(apex, m), h, PARAMS, r) {
      ChainRecordHonest(apex, m, h, owners, r);
    }
    forall n: Name ensures Accounted(Published(apex, m), h, PARAMS, Chain(nodes), n) {
      ChainAccounts(apex, m, h, owners, n);
    }
  }
}
