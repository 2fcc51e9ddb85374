/** Signing any family of linked zones: the networks of `ReferenceNet` exist for all of them. */
module Families {
  import opened Prelude
  import opened Names
  import opened Ring
  import opened Denial
  import opened Zones
  import opened NsecProofs
  import opened ExpandedDenial
  import opened Messages
  import opened ChainOfTrust
  import opened HonestNet
  import opened ReferenceNet
  import opened ZoneTree
  import RecordTypes
  import TypeBitmap

  // ---- an NSEC chain for any zone ----

  function InsertName(r: seq<Name>, x: Name): seq<Name> {
    if r == [] || NameLess(x, r[0]) then [x] + r else [r[0]] + InsertName(r[1..], x)
  }

  ghost predicate InOrder(r: seq<Name>) {
    forall i, j :: 0 <= i < j < |r| ==> NameLess(r[i], r[j])
  }

  lemma {:induction false} InsertKeepsNames(r: seq<Name>, x: Name)
    ensures forall n :: n in InsertName(r, x) <==> n in r || n == x
  {
    hide NameLess;
    if !(r == [] || NameLess(x, r[0])) {
      InsertKeepsNames(r[1..], x);
      assert r == [r[0]] + r[1..];
    }
  }

  lemma ConsInOrder(x: Name, r: seq<Name>)
    requires InOrder(r) && forall n :: n in r ==> NameLess(x, n)
    ensures InOrder([x] + r)
  {
    hide NameLess;
    var s := [x] + r;
    forall i, j | 0 <= i < j < |s| ensures NameLess(s[i], s[j]) {
      assert s[j] == r[j - 1] && (i > 0 ==> s[i] == r[i - 1]);
    }
  }

  lemma {:induction false} InsertKeepsOrder(r: seq<Name>, x: Name)
    requires InOrder(r) && x !in r
    ensures InOrder(InsertName(r, x))
  {
    hide NameLess;
    NameLessTotal();
    if r == [] {
      assert InsertName(r, x) == [x];
    } else if NameLess(x, r[0]) {
      forall n | n in r ensures NameLess(x, n) {
        var i :| 0 <= i < |r| && r[i] == n;
        assert i == 0 || NameLess(r[0], r[i]);
      }
      ConsInOrder(x, r);
    } else {
      var rest := r[1..];
      assert InOrder(rest);
      InsertKeepsOrder(rest, x);
      InsertKeepsNames(rest, x);
      assert NameLess(r[0], x);
      forall n | n in InsertName(rest, x) ensures NameLess(r[0], n) {
        if n != x {
          var i :| 0 <= i < |rest| && rest[i] == n;
          assert NameLess(r[0], r[i + 1]);
        }
      }
      ConsInOrder(r[0], InsertName(rest, x));
    }
  }

  lemma {:induction false} SortNames(names: set<Name>) returns (r: seq<Name>)
    ensures InOrder(r) && forall n :: n in r <==> n in names
  {
    hide NameLess;
    if names == {} {
      r := [];
    } else {
      var x :| x in names;
      var rest := SortNames(names - {x});
      InsertKeepsOrder(rest, x);
      InsertKeepsNames(rest, x);
      r := InsertName(rest, x);
    }
  }

  ghost function NsecRing(z: Zone, owners: seq<Name>): (r: seq<Nsec>)
    requires forall n :: n in owners ==> n in z.types
    ensures |r| == |owners|
    ensures forall i :: 0 <= i < |r| ==>
      r[i] == Nsec(owners[i], owners[Successor(i, |owners|)], TypeBitmap.Encoded(z.types[owners[i]]))
  {
    seq(|owners|, i requires 0 <= i < |owners| =>
      Nsec(owners[i], owners[Successor(i, |owners|)], TypeBitmap.Encoded(z.types[owners[i]])))
  }

  /** Every zone has an honest NSEC chain. */
  lemma NsecChainExists(z: Zone) returns (chain: seq<Nsec>)
    ensures HonestNsecChain(z, chain)
  {
    hide NameLess;
    var owners := SortNames(set n | n in z.types && z.types[n] != {});
    chain := NsecRing(z, owners);
    forall i | 0 <= i < |chain| ensures Owner(z, chain[i].owner)
      && forall t: u16 :: TypeBitmap.Has(chain[i].bitmap, t) <==> t in z.types[chain[i].owner]
    {
      assert owners[i] in owners;
      forall t: u16 ensures TypeBitmap.Has(chain[i].bitmap, t) <==> t in z.types[chain[i].owner] {
        TypeBitmap.Membership(z.types[owners[i]], t);
      }
    }
    assert NsecOwners(chain) == owners;
  }

  // ---- signing ----

  /** How a zone is signed: with NSEC, or with a given NSEC3 chain. */
  datatype Plan = ByNsec(zone: Zone) | ByNsec3(zone: Zone, params: Params, chain: seq<Nsec3>)

  predicate Owned(nsecs: seq<Nsec>, n: Name) {
    exists k :: 0 <= k < |nsecs| && nsecs[k].owner == n
  }

  ghost function RecordFor(nsecs: seq<Nsec>, n: Name): (r: Nsec)
    requires Owned(nsecs, n)
    ensures r in nsecs && r.owner == n
  {
    var k :| 0 <= k < |nsecs| && nsecs[k].owner == n;
    nsecs[k]
  }

  ghost function DataOf(nsecs: seq<Nsec>, n: Name, t: u16): set<Rdata> {
    if t == RecordTypes.NSEC && Owned(nsecs, n) then {Unknown(NsecData(RecordFor(nsecs, n)))} else {Unknown(Token(n))}
  }

  ghost function Publication(z: Zone, nsecs: seq<Nsec>): map<(Name, u16), set<Rdata>> {
    map n, t | n in z.types && t in z.types[n] :: (n, t) := DataOf(nsecs, n, t)
  }

  ghost predicate WellPlanned(h: Hasher, apex: Name, p: Plan) {
    && p.zone.Valid() && p.zone.apex == apex
    && match p
       case ByNsec(z) => forall n :: Owner(z, n) ==> RecordTypes.NSEC in z.types[n]
       case ByNsec3(z, params, chain) =>
         HonestChain(z, h, params, chain) && forall n :: n in z.types ==> RecordTypes.NSEC !in z.types[n]
  }

  ghost predicate SignedBy(h: Hasher, apex: Name, p: Plan, s: SignedZone) {
    && s.data == p.zone && s.keys == [Token(apex)] && s.published == Publication(p.zone, s.nsecs)
    && (p.ByNsec? ==> s.chain == [] && HonestNsecChain(s.data, s.nsecs))
    && (p.ByNsec3? ==> s.chain == p.chain && s.params == p.params && s.nsecs == [])
    && HonestZone(h, apex, s) && NsecsPublished(s)
  }

  lemma CanBeSigned(h: Hasher, apex: Name, p: Plan)
    requires WellPlanned(h, apex, p)
    ensures exists s :: SignedBy(h, apex, p, s)
  {
    hide HonestNsecChain;
    hide HonestChain;
    match p {
      case ByNsec(z) =>
        var chain := NsecChainExists(z);
        SignedWithNsec(h, apex, z, chain);
      case ByNsec3(z, params, chain) =>
        var s := SignedZone(z, Publication(z, []), [Token(apex)], params, chain, []);
        assert SignedBy(h, apex, p, s);
    }
  }

  lemma SignedWithNsec(h: Hasher, apex: Name, z: Zone, chain: seq<Nsec>)
    requires WellPlanned(h, apex, ByNsec(z)) && HonestNsecChain(z, chain)
    ensures SignedBy(h, apex, ByNsec(z), SignedZone(z, Publication(z, chain), [Token(apex)], Params([], 0), [], chain))
  {
    hide HonestNsecChain;
    hide Token;
    hide NsecData;
    var s := SignedZone(z, Publication(z, chain), [Token(apex)], Params([], 0), [], chain);
    forall n | (n, RecordTypes.NSEC) in s.published ensures exists k :: NsecPublished(s, n, k) {
      var k := RecordOf(z, chain, n);
      var r := RecordFor(chain, n);
      var j :| 0 <= j < |chain| && chain[j] == r;
      assert NsecPublished(s, n, j);
    }
  }

  ghost function Signed(h: Hasher, apex: Name, p: Plan): (s: SignedZone)
    requires WellPlanned(h, apex, p)
    ensures SignedBy(h, apex, p, s)
  {
    CanBeSigned(h, apex, p);
    var s :| SignedBy(h, apex, p, s);
    s
  }

  // ---- families ----

  /** Well-planned zones from the root down, each with a DS record in the zone above. */
  ghost predicate Family(h: Hasher, plans: map<Name, Plan>) {
    && [] in plans
    && (forall a :: a in plans ==> WellPlanned(h, a, plans[a]))
    && (forall a :: a in plans && a != [] ==> HasDs(plans, Deepest(plans.Keys, a[1..]), a))
  }

  predicate HasDs(plans: map<Name, Plan>, parent: Name, a: Name) {
    parent in plans && a in plans[parent].zone.types && RecordTypes.DS in plans[parent].zone.types[a]
  }

  ghost function NetOf(h: Hasher, plans: map<Name, Plan>): (net: Net)
    requires Family(h, plans)
    ensures net.Keys == plans.Keys && forall a :: a in plans ==> SignedBy(h, a, plans[a], net[a])
  {
    map a | a in plans :: Signed(h, a, plans[a])
  }

  lemma TokensDiffer(a: Name, b: Name)
    requires ValidName(a) && ValidName(b) && Token(a) == Token(b)
    ensures a == b
  {
    ParsesBack(a, []);
    ParsesBack(b, []);
    assert WireBytes(a) + [] == WireBytes(a) && WireBytes(b) + [] == WireBytes(b);
  }

  lemma ProperApex(h: Hasher, plans: map<Name, Plan>, a: Name)
    requires Family(h, plans) && a in plans
    ensures ValidName(a) && Fold(a) == a
  {
    hide HonestChain;
    assert WellPlanned(h, a, plans[a]);
    assert plans[a].zone.WellPlaced(a);
  }

  lemma KeysDiffer(h: Hasher, plans: map<Name, Plan>, y: Name, z: Name)
    requires Family(h, plans) && y in plans && z in plans && NetOf(h, plans)[y].keys == NetOf(h, plans)[z].keys
    ensures y == z
  {
    hide HonestZone;
    hide NsecsPublished;
    hide HonestNsecChain;
    hide Family;
    hide Token;
    ProperApex(h, plans, y);
    ProperApex(h, plans, z);
    assert [Token(y)][0] == [Token(z)][0];
    TokensDiffer(y, z);
  }

  lemma ZonesDelegated(h: Hasher, plans: map<Name, Plan>, c: Name)
    requires Family(h, plans) && c in plans && c != []
    ensures DelegatedFrom(NetOf(h, plans), Deepest(plans.Keys, c[1..]), c)
  {
    hide HonestZone;
    hide NsecsPublished;
    hide HonestNsecChain;
    hide WellPlanned;
    var net, parent := NetOf(h, plans), Deepest(plans.Keys, c[1..]);
    assert HasDs(plans, parent, c) && SignedBy(h, parent, plans[parent], net[parent]);
    assert net[parent].published[(c, RecordTypes.DS)] == {Unknown(Token(c))};
  }

  lemma FamilyIsWellSigned(h: Hasher, plans: map<Name, Plan>)
    requires Family(h, plans)
    ensures WellSigned(h, NetOf(h, plans)) && Delegated(NetOf(h, plans))
  {
    hide HonestZone;
    hide NsecsPublished;
    hide Family;
    hide HonestNsecChain;
    hide DelegatedFrom;
    var net := NetOf(h, plans);
    assert [] in net by {
      RootPlanned(h, plans);
    }
    forall y, z | y in net && z in net && net[y].keys == net[z].keys ensures y == z {
      KeysDiffer(h, plans, y, z);
    }
    forall c | c in net && c != [] ensures Fold(c) == c && DelegatedFrom(net, Deepest(net.Keys, c[1..]), c) {
      ProperApex(h, plans, c);
      ZonesDelegated(h, plans, c);
    }
  }

  lemma RootPlanned(h: Hasher, plans: map<Name, Plan>)
    requires Family(h, plans)
    ensures [] in plans
  {
  }

  // ---- relaying NSEC records ----

  const NSEC_SIG: Bytes := [0, 47]

  /** `n`, delivered with a signature of the zone, validates. */
  ghost predicate Relayed(w: World, z: SignedZone, apex: Name, n: Nsec, d: Bytes, sig: Bytes) {
    && ParseNsec(w, n.owner, d) == Some(n) && SigCovers(Record(n.owner, RecordTypes.RRSIG, 3600, Unknown(sig)), RecordTypes.NSEC)
    && w.rrsigSigner(sig) == Some(apex) && w.validateRrset(n.owner, RecordTypes.NSEC, [Unknown(d)], [sig], z.keys).Some?
  }

  /** Every record the zone's signatures validate can be delivered. */
  ghost predicate Relays(w: World, z: SignedZone, apex: Name) {
    forall n: Nsec :: FoldNsec(n) == n && ValidName(n.owner) && Presented(z.nsecs, n) ==>
      exists d, sig :: Relayed(w, z, apex, n, d, sig)
  }

  lemma SignerParses(apex: Name)
    requires ValidName(apex)
    ensures RefSigner(NSEC_SIG + Token(apex)) == Some(apex)
  {
    ParsesBack(apex, []);
    assert WireBytes(apex) + [] == WireBytes(apex);
    assert (NSEC_SIG + Token(apex))[2..] == Token(apex);
  }

  lemma OneRecordPerOwner(z: Zone, nsecs: seq<Nsec>, j: nat, k: nat)
    requires HonestNsecChain(z, nsecs) && j < |nsecs| && k < |nsecs| && nsecs[j].owner == nsecs[k].owner
    ensures j == k
  {
    hide NameLess;
    NameLessTotal();
    assert NsecOwners(nsecs)[j] == NsecOwners(nsecs)[k];
  }

  /** A zone signed with NSEC: every owner has its record, listed in its own types. */
  ghost predicate NsecSigned(z: SignedZone) {
    z.data.Valid() && HonestNsecChain(z.data, z.nsecs) && forall n :: Owner(z.data, n) ==> RecordTypes.NSEC in z.data.types[n]
  }

  lemma PublishedData(h: Hasher, apex: Name, z: SignedZone, k: nat)
    requires NsecSigned(z) && HonestZone(h, apex, z) && NsecsPublished(z) && k < |z.nsecs|
    ensures PublishedAt(z, z.nsecs[k].owner, RecordTypes.NSEC, [Unknown(NsecData(z.nsecs[k]))])
  {
    hide HonestNsecChain;
    hide HonestChain;
    hide NsecData;
    RecordAtIndex(z.data, z.nsecs, k);
    var n := z.nsecs[k].owner;
    assert (n, RecordTypes.NSEC) in z.published;
    var j :| NsecPublished(z, n, j);
    OneRecordPerOwner(z.data, z.nsecs, j, k);
  }

  lemma RecordRelayed(w: World, net: Net, a: Name, n: Nsec)
    requires WellSigned(w.hash, net) && Follows(w, net) && a in net && NsecSigned(net[a]) && ValidName(a)
    requires FoldNsec(n) == n && Presented(net[a].nsecs, n)
    ensures Relayed(w, net[a], a, n, NsecData(n), NSEC_SIG + Token(a))
  {
    hide Follows;
    hide HonestNsecChain;
    hide Presented;
    hide PublishedAt;
    hide HonestZone;
    hide NsecsPublished;
    var z, sig, rdatas := net[a], NSEC_SIG + Token(a), [Unknown(NsecData(n))];
    SignerParses(a);
    var i, k := SourceIndex(z.nsecs, n);
    NextIsProper(z.data, z.nsecs, k);
    PublishedData(w.hash, a, z, k);
    SameData(n, z.nsecs[k]);
    NsecDataParses(w, net, n.owner, n);
    SetValidates(net, a, n, i, k);
    FollowsHere(w, net, n.owner, rdatas, sig, z.keys);
  }

  lemma SameData(n: Nsec, m: Nsec)
    requires n.next == m.next && n.bitmap == m.bitmap
    ensures NsecData(n) == NsecData(m)
  {
  }

  lemma SourceIndex(nsecs: seq<Nsec>, n: Nsec) returns (i: nat, k: nat)
    requires FoldNsec(n) == n && Presented(nsecs, n)
    ensures i <= |n.owner| && k < |nsecs| && nsecs[k].next == n.next && nsecs[k].bitmap == n.bitmap
    ensures nsecs[k].owner == if i == 0 then n.owner else [STAR] + n.owner[i..]
  {
    if n in nsecs {
      i := 0;
      k :| 0 <= k < |nsecs| && nsecs[k] == n;
    } else {
      i :| ExpandedAt(nsecs, n, i);
      k :| 0 <= k < |nsecs| && nsecs[k] == Unexpanded(n, i);
    }
  }

  lemma SetValidates(net: Net, a: Name, n: Nsec, i: nat, k: nat)
    requires a in net && i <= |n.owner| && FoldNsec(n) == n && k < |net[a].nsecs|
    requires net[a].nsecs[k].owner == if i == 0 then n.owner else [STAR] + n.owner[i..]
    requires PublishedAt(net[a], net[a].nsecs[k].owner, RecordTypes.NSEC, [Unknown(NsecData(n))])
    ensures RefValidates(net, n.owner, RecordTypes.NSEC, [Unknown(NsecData(n))], net[a].keys).Some?
  {
    hide PublishedAt;
    var rdatas := [Unknown(NsecData(n))];
    if i == 0 {
      assert Standing(net, n.owner, RecordTypes.NSEC, rdatas, net[a].keys, a);
    } else {
      assert ExpandedAnswer(net[a], n.owner, RecordTypes.NSEC, rdatas, i);
      assert ByExpansion(net, n.owner, RecordTypes.NSEC, rdatas, net[a].keys, a);
    }
  }

  lemma FollowsHere(w: World, net: Net, owner: Name, rdatas: seq<Rdata>, sig: Bytes, keys: seq<Bytes>)
    requires Follows(w, net)
    ensures w.validateRrset(owner, RecordTypes.NSEC, rdatas, [sig], keys) == RefValidates(net, owner, RecordTypes.NSEC, rdatas, keys)
    ensures w.rrsigSigner(sig) == RefSigner(sig)
  {
  }

  lemma RecordsRelayed(w: World, h: Hasher, plans: map<Name, Plan>, a: Name)
    requires Family(h, plans) && a in plans && plans[a].ByNsec? && w.hash == h && Follows(w, NetOf(h, plans))
    ensures Relays(w, NetOf(h, plans)[a], a)
  {
    hide Follows;
    hide HonestNsecChain;
    hide HonestZone;
    hide NsecsPublished;
    hide Relayed;
    hide Presented;
    var net := NetOf(h, plans);
    assert NsecSigned(net[a]) by {
      assert SignedBy(h, a, plans[a], net[a]) && WellPlanned(h, a, plans[a]);
    }
    FamilyIsWellSigned(h, plans);
    ProperApex(h, plans, a);
    forall n: Nsec | FoldNsec(n) == n && ValidName(n.owner) && Presented(net[a].nsecs, n)
      ensures exists d, sig :: Relayed(w, net[a], a, n, d, sig)
    {
      RecordRelayed(w, net, a, n);
    }
  }

  /**
   For every family of linked zones there is an honest network over which every zone's keys are
   trusted and every NSEC record, genuine or expanded, can be delivered.
   */
  lemma NetworkExists(h: Hasher, plans: map<Name, Plan>) returns (w: World)
    requires Family(h, plans)
    ensures w.hash == h && HonestNet.Honest(w, NetOf(h, plans)) && Serves(w, NetOf(h, plans))
    ensures forall a :: a in plans ==> Walk(w, a) == Trusted(NetOf(h, plans)[a].keys)
    ensures forall a :: a in plans && plans[a].ByNsec? ==> Relays(w, NetOf(h, plans)[a], a)
  {
    hide Follows;
    hide Relayed;
    hide Family;
    hide HonestNet.Honest;
    hide WellSigned;
    hide Presented;
    hide NsecSigned;
    var net := NetOf(h, plans);
    w := Reference(h, net, (n: Name, t: u16) => Delivers(net, n, t));
    ReferenceFollows(h, net, (n: Name, t: u16) => Delivers(net, n, t));
    FamilyIsWellSigned(h, plans);
    ReferenceIsHonest(w, net);
    forall a | a in plans ensures Walk(w, a) == Trusted(net[a].keys) {
      WalkArrives(w, net, a);
    }
    forall a | a in plans && plans[a].ByNsec? ensures Relays(w, net[a], a) {
      RecordsRelayed(w, h, plans, a);
    }
  }
}
