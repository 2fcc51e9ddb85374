/**
 From the signer to the verdict: what src/dns/zone_signer.rs publishes, validated as a whole
 message by src/dns/dnssec_chain.rs.
 */
module EndToEnd {
  import opened Prelude
  import opened Names
  import opened Denial
  import opened Zones
  import opened DenialProofs
  import opened ZoneSigner
  import opened NegativeAnswers
  import opened Messages
  import opened ChainOfTrust
  import opened Verdicts
  import opened HonestNet
  import opened ReferenceNet
  import opened Families
  import RecordTypes

  /** The NSEC3 records of a section. */
  function Nsec3Part(section: seq<Record>): seq<RR> {
    if section == [] then []
    else
      var r := section[|section| - 1];
      Nsec3Part(section[..|section| - 1])
      + if r.rtype == RecordTypes.NSEC3 && r.rdata.Unknown? then [RR(r.name, r.rdata.data)] else []
  }

  /** The message carries `recs`, validly signed, and no NSEC. */
  ghost predicate Delivered(w: World, msg: Message, keys: seq<Bytes>, recs: seq<Nsec3>) {
    && Carries(Nsec3Part(msg.authority), recs)
    && forall i :: 0 <= i < |msg.authority| ==>
         && msg.authority[i].rtype != RecordTypes.NSEC
         && (msg.authority[i].rtype == RecordTypes.NSEC3 ==>
               RrsetValidated(w, msg, msg.authority[i].name, RecordTypes.NSEC3, keys))
  }

  lemma CarriesLast(rrs: seq<RR>, rr: RR, recs: seq<Nsec3>)
    requires Carries(rrs + [rr], recs)
    ensures recs != [] && Carries(rrs, recs[..|recs| - 1]) && ParseNsec3(rr.owner, rr.rdata) == Some(recs[|recs| - 1])
  {
    hide ParseNsec3;
    assert (rrs + [rr])[|rrs|] == rr;
    forall k | 0 <= k < |rrs| ensures ParseNsec3(rrs[k].owner, rrs[k].rdata) == Some(recs[k]) {
      assert (rrs + [rr])[k] == rrs[k];
    }
  }

  lemma {:induction false} CollectsDelivered(w: World, msg: Message, keys: seq<Bytes>, recs: seq<Nsec3>, k: nat)
    requires k <= |msg.authority| && Carries(Nsec3Part(msg.authority[..k]), recs)
    requires forall i :: 0 <= i < |msg.authority| && msg.authority[i].rtype == RecordTypes.NSEC3 ==>
      RrsetValidated(w, msg, msg.authority[i].name, RecordTypes.NSEC3, keys)
    ensures CollectNsec3(w, msg, keys, k) == recs
  {
    hide RrsetValidated;
    hide ParseNsec3;
    if k > 0 {
      var r := msg.authority[k - 1];
      assert msg.authority[..k][..k - 1] == msg.authority[..k - 1];
      if r.rtype == RecordTypes.NSEC3 && r.rdata.Unknown? {
        var init, last := recs[..|recs| - 1], recs[|recs| - 1];
        CarriesLast(Nsec3Part(msg.authority[..k - 1]), RR(r.name, r.rdata.data), recs);
        hide Carries;
        CollectsDelivered(w, msg, keys, init, k - 1);
        assert recs == init + [last];
      } else {
        CollectsDelivered(w, msg, keys, recs, k - 1);
      }
    }
  }

  lemma {:induction false} CollectsNoNsec(w: World, msg: Message, keys: seq<Bytes>, k: nat)
    requires k <= |msg.authority| && forall i :: 0 <= i < k ==> msg.authority[i].rtype != RecordTypes.NSEC
    ensures CollectNsec(w, msg, keys, k) == []
  {
    if k > 0 {
      CollectsNoNsec(w, msg, keys, k - 1);
    }
  }

  lemma DeliveredRecords(w: World, msg: Message, keys: seq<Bytes>, recs: seq<Nsec3>)
    requires Delivered(w, msg, keys, recs)
    ensures Nsecs(w, msg, keys) == [] && Nsec3s(w, msg, keys) == recs
  {
    assert msg.authority[..|msg.authority|] == msg.authority;
    CollectsDelivered(w, msg, keys, recs, |msg.authority|);
    CollectsNoNsec(w, msg, keys, |msg.authority|);
  }

  /** The verdict on a delivered NXDOMAIN is the verdict of the records it carries. */
  lemma VerdictOfRecords(w: World, q: Name, t: u16, msg: Message, zone: Name, keys: seq<Bytes>, recs: seq<Nsec3>)
    requires JudgedUnder(w, q, msg, zone, keys) && Delivered(w, msg, keys, recs)
    requires AnsweredType(msg, q, t).None? && msg.rcode == RecordTypes.NXDOMAIN
    ensures Nsecs(w, msg, keys) == [] && Nsec3s(w, msg, keys) == recs
    ensures Validated(w, q, t, msg).0 == if Nsec3Nxdomain(w.hash, recs, q, zone) then Secure else Bogus
  {
    DeliveredRecords(w, msg, keys, recs);
    if Nsec3Nxdomain(w.hash, recs, q, zone) {
      var i :| ClosestMatch(w.hash, recs, q, zone, i) && DeniesNextCloser(w.hash, recs, q, i) && DeniesWildcard(w.hash, recs, q, i);
      assert recs != [];
    }
  }

  /** The signer's selection of records, delivered under trusted keys, is judged secure exactly if the name is absent. */
  lemma SignedDenialIsJudgedRight(w: World, z: Zone, nodes: seq<Node>, picks: seq<nat>, i: nat,
                                  q: Name, t: u16, msg: Message, apex: Name, keys: seq<Bytes>)
    requires z.Valid() && z.optedOut == {} && z.apex == Fold(apex) && HonestChain(z, w.hash, PARAMS, Chain(nodes))
    requires ValidName(q) && InZone(q, apex) && NoQueryCollision(z, w.hash, PARAMS, Fold(q))
    requires nodes != [] && EnclosedAt(w.hash, nodes, q, i) && Picked(w.hash, nodes, q, i, picks)
    requires JudgedUnder(w, q, msg, apex, keys) && Delivered(w, msg, keys, Records(nodes, picks))
    requires AnsweredType(msg, q, t).None? && msg.rcode == RecordTypes.NXDOMAIN
    ensures Validated(w, q, t, msg).0 == if Lookup(z, Fold(q)) == NoSuchName then Secure else Bogus
  {
    VerdictOfRecords(w, q, t, msg, apex, keys, Records(nodes, picks));
    SelectionDecides(z, w.hash, nodes, q, apex, i, picks);
  }

  // ---- the whole chain in one message ----

  lemma {:induction false} OwnedComesFrom(section: seq<Record>, owner: Name, t: u16, d: Rdata)
    requires d in OwnedRdatas(section, owner, t)
    ensures exists k :: 0 <= k < |section| && Messages.Owned(section[k], owner, t) && section[k].rdata == d
  {
    if !(Messages.Owned(section[0], owner, t) && section[0].rdata == d) {
      OwnedComesFrom(section[1..], owner, t, d);
      var k :| 0 <= k < |section[1..]| && Messages.Owned(section[1..][k], owner, t) && section[1..][k].rdata == d;
      assert section[k + 1] == section[1..][k];
    }
  }

  const NSEC3_SIG: Bytes := [0, 50]

  function SignerRecord(apex: Name): Record {
    Record(apex, RecordTypes.RRSIG, 3600, Unknown(NSEC3_SIG + Token(apex)))
  }

  /** A denial message: a signature naming the signer, then the records. */
  ghost function DenialMessage(rcode: nat, apex: Name, rrs: seq<RR>): Message {
    Message(rcode, [], DenialSection(apex, rrs))
  }

  ghost function DenialSection(apex: Name, rrs: seq<RR>): seq<Record> {
    [SignerRecord(apex)]
    + seq(|rrs|, i requires 0 <= i < |rrs| => Record(rrs[i].owner, RecordTypes.NSEC3, 3600, Unknown(rrs[i].rdata)))
  }

  lemma {:induction false} MessagePart(apex: Name, rrs: seq<RR>, k: nat)
    requires k <= |rrs|
    ensures Nsec3Part(DenialSection(apex, rrs)[..k + 1]) == rrs[..k]
  {
    hide SignerRecord;
    var a := DenialSection(apex, rrs);
    assert a[..k + 1][..k] == a[..k];
    if k == 0 {
      assert Nsec3Part(a[..0]) == [];
      assert SignerRecord(apex).rtype == RecordTypes.RRSIG by {
        SignerIsRrsig(apex);
      }
    } else {
      MessagePart(apex, rrs, k - 1);
    }
  }

  lemma SignerIsRrsig(apex: Name)
    ensures SignerRecord(apex).rtype == RecordTypes.RRSIG
  {
  }

  lemma ParseIgnoresCase(a: Name, b: Name, d: Bytes)
    requires SameName(a, b)
    ensures ParseNsec3(a, d) == ParseNsec3(b, d)
  {
    if a != [] {
      assert Fold(a)[0] == Fold(b)[0];
      assert LowerLabel(a[0]) == LowerLabel(b[0]);
    }
  }

  lemma MessageFromChain(apex: Name, rrs: seq<RR>, chain: seq<Nsec3>, owner: Name, d: Bytes)
    requires Carries(rrs, chain) && Unknown(d) in OwnedRdatas(DenialSection(apex, rrs), owner, RecordTypes.NSEC3)
    ensures ParseNsec3(owner, d).Some? && ParseNsec3(owner, d).value in chain
  {
    hide ParseNsec3;
    var a := DenialSection(apex, rrs);
    OwnedComesFrom(a, owner, RecordTypes.NSEC3, Unknown(d));
    var k :| 0 <= k < |a| && Messages.Owned(a[k], owner, RecordTypes.NSEC3) && a[k].rdata == Unknown(d);
    ParseIgnoresCase(owner, a[k].name, d);
    assert ParseNsec3(rrs[k - 1].owner, rrs[k - 1].rdata) == Some(chain[k - 1]);
  }

  lemma SetValidates(w: World, net: Net, rcode: nat, apex: Name, rrs: seq<RR>, owner: Name)
    requires Follows(w, net) && apex in net && Carries(rrs, net[apex].chain)
    ensures RrsetValidated(w, DenialMessage(rcode, apex, rrs), owner, RecordTypes.NSEC3, net[apex].keys)
  {
    hide ParseNsec3;
    hide OwnedRdatas;
    hide DenialSection;
    var rdatas := OwnedRdatas(DenialSection(apex, rrs), owner, RecordTypes.NSEC3);
    forall d: Bytes | Unknown(d) in rdatas ensures ParseNsec3(owner, d).Some? && ParseNsec3(owner, d).value in net[apex].chain {
      MessageFromChain(apex, rrs, net[apex].chain, owner, d);
    }
    assert Standing(net, owner, RecordTypes.NSEC3, rdatas, net[apex].keys, apex);
  }

  lemma MessageDelivers(w: World, net: Net, rcode: nat, apex: Name, rrs: seq<RR>)
    requires Follows(w, net) && apex in net && Carries(rrs, net[apex].chain)
    ensures Delivered(w, DenialMessage(rcode, apex, rrs), net[apex].keys, net[apex].chain)
  {
    hide Follows;
    hide Carries;
    hide RrsetValidated;
    var msg := DenialMessage(rcode, apex, rrs);
    MessagePart(apex, rrs, |rrs|);
    assert msg.authority[..|rrs| + 1] == msg.authority && rrs[..|rrs|] == rrs;
    forall i | 0 <= i < |msg.authority| ensures RrsetValidated(w, msg, msg.authority[i].name, RecordTypes.NSEC3, net[apex].keys) {
      SetValidates(w, net, rcode, apex, rrs, msg.authority[i].name);
    }
  }

  lemma SectionSigned(w: World, net: Net, a: Name, rrs: seq<RR>)
    requires Follows(w, net) && ValidName(a)
    ensures FirstSigner(w, DenialSection(a, rrs)) == Some(a)
  {
    hide RefValidates;
    ParsesBack(a, []);
    assert WireBytes(a) + [] == WireBytes(a);
    assert (NSEC3_SIG + Token(a))[2..] == Token(a);
    assert SignerOf(w, DenialSection(a, rrs)[0]) == Some(a);
  }

  lemma MessageIsJudged(w: World, net: Net, rcode: nat, apex: Name, rrs: seq<RR>, q: Name, t: u16)
    requires Follows(w, net) && apex in net && Walk(w, apex) == Trusted(net[apex].keys)
    requires ValidName(apex) && Fold(apex) == apex && InZone(q, apex)
    ensures var msg := DenialMessage(rcode, apex, rrs);
            && JudgedUnder(w, q, msg, apex, net[apex].keys)
            && AnsweredType(msg, q, t).None? && msg.rcode == rcode
  {
    hide Walk;
    hide RefValidates;
    var msg := DenialMessage(rcode, apex, rrs);
    SectionSigned(w, net, apex, rrs);
    assert [] + msg.authority == msg.authority;
  }

  /** Over any network of linked zones, the verdict on a zone's whole chain is the verdict of the chain. */
  lemma ChainIsJudged(h: Hasher, plans: map<Name, Plan>, a: Name, rrs: seq<RR>, q: Name, t: u16) returns (w: World, msg: Message)
    requires Family(h, plans) && a in plans && plans[a].ByNsec3? && Carries(rrs, plans[a].chain) && InZone(q, a)
    ensures HonestNet.Honest(w, NetOf(h, plans)) && w.hash == h && NetOf(h, plans)[a].data == plans[a].zone
    ensures JudgedUnder(w, q, msg, a, NetOf(h, plans)[a].keys) && Nsecs(w, msg, NetOf(h, plans)[a].keys) == []
    ensures AnsweredType(msg, q, t).None? && msg.rcode == RecordTypes.NXDOMAIN
    ensures Validated(w, q, t, msg).0 == if Nsec3Nxdomain(h, plans[a].chain, q, a) then Secure else Bogus
  {
    hide Family;
    hide HonestNet.Honest;
    hide Walk;
    hide Follows;
    hide JudgedUnder;
    hide Validated;
    hide AnsweredType;
    hide Nsecs;
    hide Nsec3s;
    hide Delivered;
    hide Nsec3Nxdomain;
    hide DenialMessage;
    hide HonestZone;
    hide NsecsPublished;
    hide HonestNsecChain;
    hide Carries;
    w := NetworkExists(h, plans);
    var net := NetOf(h, plans);
    assert SignedBy(h, a, plans[a], net[a]);
    assert Follows(w, net) by {
      ServesFollows(w, net);
    }
    ProperApex(h, plans, a);
    msg := DenialMessage(RecordTypes.NXDOMAIN, a, rrs);
    MessageDelivers(w, net, RecordTypes.NXDOMAIN, a, rrs);
    MessageIsJudged(w, net, RecordTypes.NXDOMAIN, a, rrs, q, t);
    VerdictOfRecords(w, q, t, msg, a, net[a].keys, net[a].chain);
  }

  lemma ServesFollows(w: World, net: Net)
    requires Serves(w, net)
    ensures Follows(w, net)
  {
  }

  lemma ChainRecords(nodes: seq<Node>, apex: Name) returns (rrs: seq<RR>)
    requires TwentyOctetNodes(nodes) && Fits(apex)
    ensures Carries(rrs, Chain(nodes))
  {
    forall k | 0 <= k < |nodes| ensures ToRR(RecordAt(nodes, k), apex).Some? {
      OwnerFits(RecordAt(nodes, k), apex);
    }
    rrs := seq(|nodes|, k requires 0 <= k < |nodes| => ToRR(RecordAt(nodes, k), apex).value);
    forall k | 0 <= k < |nodes| ensures ParseNsec3(rrs[k].owner, rrs[k].rdata) == Some(Chain(nodes)[k]) {
      WireRoundTrip(RecordAt(nodes, k), apex);
    }
  }

  /**
   For every family of linked zones and every zone in it that the signer signed, there is an honest
   network, and in it for every name a message that is judged secure exactly if the name is absent.
   */
  lemma HonestNetworksExist(h: Hasher, plans: map<Name, Plan>, a: Name, m: map<Name, set<u16>>, owners: seq<Entry>, q: Name, t: u16)
      returns (w: World, msg: Message)
    requires Family(h, plans) && TwentyOctets(h) && Listing(owners, m)
    requires a in plans && plans[a] == ByNsec3(Published(a, m), PARAMS, Chain(BuildNodes(h, owners)))
    requires Fits(a)
    requires ValidName(q) && InZone(q, a) && NoQueryCollision(Published(a, m), h, PARAMS, Fold(q))
    ensures HonestNet.Honest(w, NetOf(h, plans)) && w.hash == h && NetOf(h, plans)[a].data == Published(a, m)
    ensures JudgedUnder(w, q, msg, a, NetOf(h, plans)[a].keys) && Nsecs(w, msg, NetOf(h, plans)[a].keys) == []
    ensures AnsweredType(msg, q, t).None? && msg.rcode == RecordTypes.NXDOMAIN
    ensures Validated(w, q, t, msg).0 == if Lookup(Published(a, m), Fold(q)) == NoSuchName then Secure else Bogus
  {
    hide Validated;
    hide HonestNet.Honest;
    hide HonestChain;
    hide JudgedUnder;
    hide AnsweredType;
    hide Nsecs;
    hide BuildNodes;
    hide Lookup;
    hide Chain;
    hide NoQueryCollision;
    hide TwentyOctets;
    hide TwentyOctetNodes;
    hide Carries;
    hide Nsec3Nxdomain;
    var nodes := BuildNodes(h, owners);
    BuiltNodes(h, m, owners);
    var rrs := ChainRecords(nodes, a);
    w, msg := ChainIsJudged(h, plans, a, rrs, q, t);
    assert WellPlanned(h, a, plans[a]);
    FoldedApex(Published(a, m));
    ProperApex(h, plans, a);
    NxdomainExact(Published(a, m), h, PARAMS, Chain(nodes), q);
  }
}
