/**
 Networks that behave as DNSSEC intends: every zone's keys validate exactly what the zone published,
 and its wildcard expansions. They show that the assumptions of `HonestNet` can be met by any family
 of linked zones, and give the inputs on which the validator's checks and the zones differ.
 */
module ReferenceNet {
  import opened Prelude
  import opened Names
  import opened Denial
  import opened Zones
  import opened NsecProofs
  import opened ExpandedDenial
  import opened Messages
  import opened ChainOfTrust
  import opened Verdicts
  import opened HonestNet
  import opened ZoneTree
  import RecordTypes

  // ---- names on the wire ----

  function WireBytes(n: Name): Bytes
    requires forall i :: 0 <= i < |n| ==> |n[i]| < 256
  {
    if n == [] then [0] else [|n[0]|] + n[0] + WireBytes(n[1..])
  }

  /** The name at the front of `d` and its length in octets. */
  function ParseWire(d: Bytes): Option<(Name, nat)> {
    if d == [] then None
    else if d[0] == 0 then Some(([], 1))
    else if |d| - 1 < d[0] then None
    else
      match ParseWire(d[1 + d[0] as int..])
      case None => None
      case Some((rest, used)) => Some(([d[1..1 + d[0] as int]] + rest, 1 + d[0] as int + used))
  }

  lemma Parts(x: byte, a: Bytes, b: Bytes)
    ensures var d := [x] + (a + b); d[0] == x && d[1..1 + |a|] == a && d[1 + |a|..] == b
  {
  }

  lemma LabelInFront(n: Name, rest: Bytes)
    requires n != [] && forall i :: 0 <= i < |n| ==> |n[i]| < 256
    ensures WireBytes(n) + rest == [|n[0]|] + (n[0] + (WireBytes(n[1..]) + rest))
    ensures |WireBytes(n)| == 1 + |n[0]| + |WireBytes(n[1..])|
  {
    var l: Bytes := [|n[0]|];
    assert ((l + n[0]) + WireBytes(n[1..])) + rest == l + (n[0] + (WireBytes(n[1..]) + rest));
  }

  lemma ParseStep(d: Bytes, a: Bytes, b: Bytes)
    requires 0 < |a| < |d| && d[0] == |a| && d[1..1 + |a|] == a && d[1 + |a|..] == b && ParseWire(b).Some?
    ensures ParseWire(d) == Some(([a] + ParseWire(b).value.0, 1 + |a| + ParseWire(b).value.1))
  {
  }

  lemma ParseNothing(rest: Bytes)
    ensures WireBytes([]) == [0] && ParseWire([0] + rest) == Some(([], 1))
  {
  }

  lemma {:induction false} ParsesBack(n: Name, rest: Bytes)
    requires ValidName(n)
    ensures ParseWire(WireBytes(n) + rest) == Some((n, |WireBytes(n)|))
  {
    hide WireBytes;
    hide ParseWire;
    if n == [] {
      ParseNothing(rest);
    } else {
      ValidSuffix(n, 1);
      ParsesBack(n[1..], rest);
      LabelInFront(n, rest);
      Parts(|n[0]|, n[0], WireBytes(n[1..]) + rest);
      ParseStep(WireBytes(n) + rest, n[0], WireBytes(n[1..]) + rest);
      assert n == [n[0]] + n[1..];
    }
  }

  /** What a DS record commits to, and the plain record data of the other types. */
  function Token(n: Name): Bytes {
    if ValidName(n) then WireBytes(n) else []
  }

  /** The record data of an NSEC. */
  function NsecData(n: Nsec): Bytes {
    Token(n.next) + n.bitmap
  }

  // ---- the network ----

  ghost predicate Standing(net: Net, owner: Name, t: u16, rdatas: seq<Rdata>, keys: seq<Bytes>, z: Name) {
    z in net && net[z].keys == keys &&
    if t == RecordTypes.NSEC3 then FromChain(owner, rdatas, net[z].chain) else PublishedAt(net[z], Fold(owner), t, rdatas)
  }

  ghost predicate ByExpansion(net: Net, owner: Name, t: u16, rdatas: seq<Rdata>, keys: seq<Bytes>, z: Name) {
    z in net && net[z].keys == keys && t != RecordTypes.NSEC3 && exists i :: ExpandedAnswer(net[z], owner, t, rdatas, i)
  }

  /** Everything in the set comes from the chain. */
  ghost predicate FromChain(owner: Name, rdatas: seq<Rdata>, chain: seq<Nsec3>) {
    forall d: Bytes :: Unknown(d) in rdatas && ParseNsec3(owner, d).Some? ==> ParseNsec3(owner, d).value in chain
  }

  ghost function RefValidates(net: Net, owner: Name, t: u16, rdatas: seq<Rdata>, keys: seq<Bytes>): Option<bool> {
    if exists z :: Standing(net, owner, t, rdatas, keys, z) then Some(false)
    else if exists z :: ByExpansion(net, owner, t, rdatas, keys, z) then Some(true)
    else None
  }

  function RefKeys(net: Net, owner: Name, ds: seq<Ds>): Option<seq<Bytes>> {
    if owner in net && ds == [Token(owner)] then Some(net[owner].keys) else None
  }

  function RefSigner(sig: Bytes): Option<Name> {
    if |sig| < 2 || ParseWire(sig[2..]).None? then None else Some(ParseWire(sig[2..]).value.0)
  }

  /** The checks of `w` are those of the network; what is fetched is left open. */
  ghost predicate Follows(w: World, net: Net) {
    && (forall owner, dnskeys, sigs, ds :: w.validateKeys(owner, dnskeys, sigs, ds) == RefKeys(net, owner, ds))
    && (forall owner, t, rdatas, sigs, keys ::
          w.validateRrset(owner, t, rdatas, sigs, keys) == RefValidates(net, owner, t, rdatas, keys))
    && (forall d :: w.parseDs(d) == Some(d))
    && (forall d :: w.parseName(d) == ParseWire(d))
    && (forall sig :: w.rrsigSigner(sig) == RefSigner(sig))
    && w.anchors == [Token([])]
  }

  ghost function Reference(h: Hasher, net: Net, fetch: (Name, u16) -> Option<Message>): World {
    World(
      fetch,
      (owner: Name, dnskeys: seq<Bytes>, sigs: seq<Bytes>, ds: seq<Ds>) => RefKeys(net, owner, ds),
      (owner: Name, t: u16, rdatas: seq<Rdata>, sigs: seq<Bytes>, keys: seq<Bytes>) => RefValidates(net, owner, t, rdatas, keys),
      (d: Bytes) => Some(d),
      (d: Bytes) => ParseWire(d),
      (sig: Bytes) => RefSigner(sig),
      h,
      [Token([])],
      0)
  }

  lemma ReferenceFollows(h: Hasher, net: Net, fetch: (Name, u16) -> Option<Message>)
    ensures Follows(Reference(h, net, fetch), net)
    ensures Reference(h, net, fetch).hash == h && Reference(h, net, fetch).fetch == fetch
  {
  }

  // ---- the network is honest ----

  /** The NSEC data published at an owner is its record. */
  ghost predicate NsecsPublished(z: SignedZone) {
    forall n :: (n, RecordTypes.NSEC) in z.published ==> exists k :: NsecPublished(z, n, k)
  }

  ghost predicate NsecPublished(z: SignedZone, n: Name, k: nat) {
    (n, RecordTypes.NSEC) in z.published && k < |z.nsecs| && z.nsecs[k].owner == n &&
    z.published[(n, RecordTypes.NSEC)] == {Unknown(NsecData(z.nsecs[k]))}
  }

  ghost predicate WellSigned(h: Hasher, net: Net) {
    && [] in net
    && (forall y, z :: y in net && z in net && net[y].keys == net[z].keys ==> y == z)
    && (forall z :: z in net ==> HonestZone(h, z, net[z]) && NsecsPublished(net[z]))
  }

  lemma NsecDataParses(w: World, net: Net, owner: Name, n: Nsec)
    requires Follows(w, net) && ValidName(n.next)
    ensures ParseNsec(w, owner, NsecData(n)) == Some(Nsec(owner, n.next, n.bitmap))
  {
    ParsesBack(n.next, n.bitmap);
    var d := NsecData(n);
    assert d[|WireBytes(n.next)|..] == n.bitmap;
  }

  /** A published NSEC: its data parses, and the record is folded. */
  lemma PublishedNsec(h: Hasher, net: Net, z: Name, n: Name, rdatas: seq<Rdata>, d: Bytes) returns (k: nat)
    requires WellSigned(h, net) && z in net && PublishedAt(net[z], n, RecordTypes.NSEC, rdatas) && Unknown(d) in rdatas
    ensures k < |net[z].nsecs| && net[z].nsecs[k].owner == n && d == NsecData(net[z].nsecs[k])
    ensures ValidName(net[z].nsecs[k].next) && Fold(net[z].nsecs[k].next) == net[z].nsecs[k].next
  {
    hide HonestNsecChain;
    assert HonestZone(h, z, net[z]) && NsecsPublished(net[z]);
    k :| NsecPublished(net[z], n, k);
    NextIsProper(net[z].data, net[z].nsecs, k);
  }

  lemma NextIsProper(z: Zone, chain: seq<Nsec>, k: nat)
    requires z.Valid() && HonestNsecChain(z, chain) && k < |chain|
    ensures ValidName(chain[k].next) && Fold(chain[k].next) == chain[k].next
  {
    hide HonestNsecChain;
    RecordAtIndex(z, chain, k);
    var j := if k + 1 == |chain| then 0 else k + 1;
    RecordAtIndex(z, chain, j);
    assert z.WellPlaced(chain[j].owner);
  }

  lemma OneZone(h: Hasher, net: Net, y: Name, z: Name)
    requires WellSigned(h, net) && y in net && z in net && net[y].keys == net[z].keys
    ensures y == z
  {
  }

  /** What the network says of a set under a zone's keys is about that zone. */
  lemma VerdictIsZones(h: Hasher, net: Net, z: Name, owner: Name, t: u16, rdatas: seq<Rdata>)
    requires WellSigned(h, net) && z in net
    ensures var v := RefValidates(net, owner, t, rdatas, net[z].keys);
      && (v == Some(false) <==> Standing(net, owner, t, rdatas, net[z].keys, z))
      && (v == Some(true) ==> ByExpansion(net, owner, t, rdatas, net[z].keys, z))
  {
    hide WellSigned;
    if y :| Standing(net, owner, t, rdatas, net[z].keys, y) {
      OneZone(h, net, y, z);
    } else if y :| ByExpansion(net, owner, t, rdatas, net[z].keys, y) {
      OneZone(h, net, y, z);
    }
  }

  lemma StandingNsecs(w: World, net: Net, z: Name, owner: Name, rdatas: seq<Rdata>, d: Bytes)
    requires WellSigned(w.hash, net) && Follows(w, net) && z in net
    requires PublishedAt(net[z], Fold(owner), RecordTypes.NSEC, rdatas) && Unknown(d) in rdatas
    ensures ParseNsec(w, owner, d).Some? && FoldNsec(ParseNsec(w, owner, d).value) in net[z].nsecs
  {
    hide WellSigned;
    hide Follows;
    hide PublishedAt;
    var k := PublishedNsec(w.hash, net, z, Fold(owner), rdatas, d);
    NsecDataParses(w, net, owner, net[z].nsecs[k]);
    assert FoldNsec(ParseNsec(w, owner, d).value) == net[z].nsecs[k];
  }

  lemma ExpandedNsecs(w: World, net: Net, z: Name, owner: Name, rdatas: seq<Rdata>, i: nat)
    requires WellSigned(w.hash, net) && Follows(w, net) && z in net && ExpandedAnswer(net[z], owner, RecordTypes.NSEC, rdatas, i)
    ensures ExpandedGenuine(w, net[z], owner, rdatas, i)
  {
    hide WellSigned;
    hide Follows;
    hide PublishedAt;
    hide ParseNsec;
    forall d: Bytes | Unknown(d) in rdatas && ParseNsec(w, owner, d).Some?
      ensures ExpandedAt(net[z].nsecs, ParseNsec(w, owner, d).value, i)
    {
      var k := PublishedNsec(w.hash, net, z, [STAR] + Fold(owner)[i..], rdatas, d);
      NsecDataParses(w, net, owner, net[z].nsecs[k]);
      assert Unexpanded(ParseNsec(w, owner, d).value, i) == net[z].nsecs[k];
    }
  }

  lemma NsecsAreGenuine(w: World, net: Net, z: Name, owner: Name, rdatas: seq<Rdata>, sigs: seq<Bytes>)
    requires WellSigned(w.hash, net) && Follows(w, net) && z in net
    ensures NsecGenuine(w, net[z], owner, rdatas, sigs)
  {
    hide WellSigned;
    hide PublishedAt;
    hide ParseNsec;
    hide RefValidates;
    hide ExpandedGenuine;
    hide ExpandedAnswer;
    VerdictIsZones(w.hash, net, z, owner, RecordTypes.NSEC, rdatas);
    match RefValidates(net, owner, RecordTypes.NSEC, rdatas, net[z].keys)
    case None =>
    case Some(false) =>
      forall d: Bytes | Unknown(d) in rdatas
        ensures ParseNsec(w, owner, d).Some? && FoldNsec(ParseNsec(w, owner, d).value) in net[z].nsecs
      {
        StandingNsecs(w, net, z, owner, rdatas, d);
      }
    case Some(true) =>
      var i :| ExpandedAnswer(net[z], owner, RecordTypes.NSEC, rdatas, i);
      ExpandedNsecs(w, net, z, owner, rdatas, i);
  }

  lemma Nsec3sAreGenuine(w: World, net: Net, z: Name, owner: Name, rdatas: seq<Rdata>, sigs: seq<Bytes>)
    requires WellSigned(w.hash, net) && Follows(w, net) && z in net
    ensures Nsec3Genuine(w, net[z], owner, rdatas, sigs)
  {
    hide WellSigned;
    hide RefValidates;
    hide ParseNsec3;
    VerdictIsZones(w.hash, net, z, owner, RecordTypes.NSEC3, rdatas);
    var v := RefValidates(net, owner, RecordTypes.NSEC3, rdatas, net[z].keys);
    if v.Some? && !v.value {
      assert v == Some(false);
    }
    assert v.Some? && v.value ==> v == Some(true);
  }

  lemma AnswersAreGenuine(w: World, net: Net, z: Name, owner: Name, t: u16, rdatas: seq<Rdata>, sigs: seq<Bytes>)
    requires WellSigned(w.hash, net) && Follows(w, net) && z in net
    ensures AnswerGenuine(w, net[z], owner, t, rdatas, sigs)
  {
    hide WellSigned;
    hide RefValidates;
    hide PublishedAt;
    hide FromChain;
    VerdictIsZones(w.hash, net, z, owner, t, rdatas);
  }

  lemma CutsAreGenuine(w: World, net: Net, child: Name, parent: seq<Bytes>, keys: seq<Bytes>)
    requires Follows(w, net) && SignedCut(w, child, parent, keys)
    ensures child in net && net[child].keys == keys
  {
    hide RefValidates;
  }

  /** Whatever is fetched over it, a network that validates what was published is honest. */
  lemma ReferenceIsHonest(w: World, net: Net)
    requires WellSigned(w.hash, net) && Follows(w, net)
    ensures HonestNet.Honest(w, net)
  {
    hide HonestZone;
    hide NsecsPublished;
    hide RefValidates;
    hide NsecGenuine;
    hide Nsec3Genuine;
    hide AnswerGenuine;
    hide SignedCut;
    forall z, child, keys {:trigger SignedCut(w, child, net[z].keys, keys)} |
      z in net && SignedCut(w, child, net[z].keys, keys) ensures child in net && net[child].keys == keys {
      CutsAreGenuine(w, net, child, net[z].keys, keys);
    }
    forall z, owner, rdatas, sigs | z in net ensures Nsec3Genuine(w, net[z], owner, rdatas, sigs) {
      Nsec3sAreGenuine(w, net, z, owner, rdatas, sigs);
    }
    forall z, owner, rdatas, sigs | z in net ensures NsecGenuine(w, net[z], owner, rdatas, sigs) {
      NsecsAreGenuine(w, net, z, owner, rdatas, sigs);
    }
    forall z, owner, t, rdatas, sigs | z in net ensures AnswerGenuine(w, net[z], owner, t, rdatas, sigs) {
      AnswersAreGenuine(w, net, z, owner, t, rdatas, sigs);
    }
  }

  // ---- every zone of a linked family is reached ----

  /** Every zone but the root has its DS record in the zone above. */
  ghost predicate Delegated(net: Net) {
    [] in net && forall c :: c in net && c != [] ==> Fold(c) == c && DelegatedFrom(net, Deepest(net.Keys, c[1..]), c)
  }

  ghost predicate DelegatedFrom(net: Net, parent: Name, c: Name) {
    parent in net && PublishedAt(net[parent], c, RecordTypes.DS, [Unknown(Token(c))])
  }

  const NOTHING := Message(0, [], [])

  function DsAnswer(n: Name): Message {
    Message(0, [Record(n, RecordTypes.DS, 3600, Unknown(Token(n)))], [])
  }

  function KeyAnswer(n: Name): Message {
    Message(0, [Record(n, RecordTypes.DNSKEY, 3600, Unknown([]))], [])
  }

  /** Keys and DS records are delivered, and no other cut is claimed. */
  function Delivers(net: Net, n: Name, t: u16): Option<Message> {
    if t == RecordTypes.DNSKEY then if n in net then Some(KeyAnswer(n)) else None
    else if t == RecordTypes.DS then Some(if n in net && n != [] then DsAnswer(n) else NOTHING)
    else None
  }

  ghost predicate Serves(w: World, net: Net) {
    Follows(w, net) && forall n, t :: w.fetch(n, t) == Delivers(net, n, t)
  }

  /** The same for names of at most `len` labels. */
  ghost predicate ServesTo(w: World, net: Net, len: nat) {
    Follows(w, net) && forall n: Name, t :: |n| <= len ==> w.fetch(n, t) == Delivers(net, n, t)
  }

  /** The walk arrives at every name with the keys of the deepest zone at or above it. */
  lemma {:induction false} WalkArrives(w: World, net: Net, n: Name)
    requires ServesTo(w, net, |n|) && Delegated(net)
    ensures Deepest(net.Keys, n) in net && Walk(w, n) == Trusted(net[Deepest(net.Keys, n)].keys)
  {
    hide RefValidates;
    DeepestIsZone(net.Keys, n);
    if n == [] {
      assert w.fetch([], RecordTypes.DNSKEY) == Some(KeyAnswer([]));
    } else {
      WalkArrives(w, net, n[1..]);
      StepArrives(w, net, n);
    }
  }

  lemma StepArrives(w: World, net: Net, n: Name)
    requires ServesTo(w, net, |n|) && Delegated(net) && n != [] && Deepest(net.Keys, n[1..]) in net
    ensures var keys := net[Deepest(net.Keys, n[1..])].keys;
            Step(w, n, keys) == Trusted(if n in net then net[n].keys else keys)
  {
    hide PublishedAt;
    var keys := net[Deepest(net.Keys, n[1..])].keys;
    assert w.fetch(n, RecordTypes.DS) == Delivers(net, n, RecordTypes.DS);
    assert w.fetch(n, RecordTypes.NS) == Delivers(net, n, RecordTypes.NS);
    if n in net {
      DsAccepted(w, net, n);
      assert w.fetch(n, RecordTypes.DNSKEY) == Some(KeyAnswer(n));
    }
  }

  lemma DsAccepted(w: World, net: Net, n: Name)
    requires Follows(w, net) && Delegated(net) && n in net && n != []
    ensures RdatasOf(DsAnswer(n).answers, RecordTypes.DS) == [Token(n)]
    ensures DsSigned(w, n, DsAnswer(n), net[Deepest(net.Keys, n[1..])].keys) && ParseAllDs(w, [Token(n)]) == [Token(n)]
  {
    var keys, ds := net[Deepest(net.Keys, n[1..])].keys, DsAnswer(n).answers;
    assert ds[1..] == [] && RdatasOf(ds, RecordTypes.DS) == [Token(n)] + RdatasOf([], RecordTypes.DS);
    assert AsUnknown([Token(n)]) == [Unknown(Token(n))];
    assert Standing(net, n, RecordTypes.DS, [Unknown(Token(n))], keys, Deepest(net.Keys, n[1..]));
    assert [Token(n)][1..] == [] && ParseAllDs(w, [Token(n)]) == [Token(n)] + ParseAllDs(w, []);
  }
}
