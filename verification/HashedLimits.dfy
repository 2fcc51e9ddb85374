/**
 Where verdicts of a zone signed with NSEC3 stop being true of the names below it: the counterpart of
 `VerdictLimits` for hashed denial.
 */
module HashedLimits {
  import opened Prelude
  import opened Names
  import opened Denial
  import opened Zones
  import opened DenialProofs
  import opened NsecLookup
  import opened ExpandedDenial
  import opened NegativeAnswers
  import opened Messages
  import opened ChainOfTrust
  import opened Verdicts
  import opened HonestNet
  import opened ZoneTree
  import opened ReferenceNet
  import opened Families
  import opened EndToEnd
  import opened VerdictLimits
  import RecordTypes

  // ---- a message with the whole chain ----

  ghost predicate Conveyed(w: World, z: SignedZone, apex: Name, rcode: nat, msg: Message) {
    && msg.rcode == rcode && msg.answers == [] && FirstSigner(w, msg.authority) == Some(apex)
    && Nsecs(w, msg, z.keys) == [] && Nsec3s(w, msg, z.keys) == z.chain
  }

  ghost predicate Conveys(w: World, z: SignedZone, apex: Name, rcode: nat) {
    exists msg :: Conveyed(w, z, apex, rcode, msg)
  }

  /** The zone `apex` is signed with NSEC3, reached with its own keys, and its chain can be delivered. */
  ghost predicate Hashed(w: World, net: Net, apex: Name)
    requires apex in net
  {
    && HonestNet.Honest(w, net) && net[apex].nsecs == [] && net[apex].chain != [] && Walk(w, apex) == Trusted(net[apex].keys)
    && Conveys(w, net[apex], apex, 0) && Conveys(w, net[apex], apex, RecordTypes.NXDOMAIN)
  }

  lemma HashedZone(w: World, net: Net, apex: Name)
    requires apex in net && Hashed(w, net, apex)
    ensures net[apex].data.Valid() && net[apex].data.apex == apex && Fold(apex) == apex
    ensures HonestChain(net[apex].data, w.hash, net[apex].params, net[apex].chain)
  {
    hide HonestChain;
    hide HonestNsecChain;
    hide Unforgeable;
    hide Conveys;
    assert HonestZone(w.hash, apex, net[apex]);
    FoldedApex(net[apex].data);
  }

  /** The verdict on such a message is that of the chain. */
  lemma ConveyedVerdict(w: World, net: Net, apex: Name, msg: Message, rcode: nat, q: Name, t: u16)
    requires apex in net && Hashed(w, net, apex) && Conveyed(w, net[apex], apex, rcode, msg) && InZone(q, apex) && ValidName(q)
    ensures rcode == RecordTypes.NXDOMAIN && Nsec3Nxdomain(w.hash, net[apex].chain, q, apex) ==> SecureDenial(w, apex, q, t, msg)
    ensures rcode != RecordTypes.NXDOMAIN && Nsec3ProvesNodata(w.hash, net[apex].chain, q, t) ==> SecureDenial(w, apex, q, t, msg)
  {
    hide HonestNet.Honest;
    hide HonestChain;
    hide Walk;
    hide ValidName;
    hide Nsec3Nxdomain;
    hide Nsec3ProvesNodata;
    hide Conveys;
    hide Nsecs;
    hide Nsec3s;
    HashedZone(w, net, apex);
    assert [] + msg.authority == msg.authority;
    assert SigningZone(w, msg, q) == Some(apex);
  }

  /** A denial rests on records of the chain. */
  lemma HashedRests(w: World, net: Net, apex: Name, q: Name, t: u16, msg: Message)
    requires apex in net && Hashed(w, net, apex) && SecureDenial(w, apex, q, t, msg)
    ensures var recs := Nsec3s(w, msg, net[apex].keys);
      && Shown(recs, net[apex].chain) && InZone(q, apex) && ValidName(q)
      && (msg.rcode == RecordTypes.NXDOMAIN ==> Nsec3Nxdomain(w.hash, recs, q, apex))
      && (msg.rcode != RecordTypes.NXDOMAIN ==> Nsec3ProvesNodata(w.hash, recs, q, t))
  {
    hide HonestChain;
    hide HonestNsecChain;
    hide Conveys;
    hide Walk;
    hide ValidName;
    hide Nsec3Nxdomain;
    hide Nsec3ProvesNodata;
    HashedZone(w, net, apex);
    CollectedShown(w, net, apex, msg);
    if Nsecs(w, msg, net[apex].keys) != [] {
      SomeNsec(w, net, apex, msg);
    }
    NothingByNsec(q, t, apex);
    assert DenialValid(w, msg, q, t, apex, net[apex].keys);
  }

  lemma NothingByNsec(q: Name, t: u16, zone: Name)
    ensures !NsecNxdomain([], q, zone) && !AnyNsecNodata([], q, t)
  {
  }

  // ---- the exact conditions ----

  ghost predicate Clear(w: World, z: SignedZone, m: Name) {
    NoQueryCollision(z.data, w.hash, z.params, m)
  }

  /** The name is not signed, and neither is the wildcard at its closest signed ancestor, `i` labels up. */
  predicate HashDenied(z: Zone, m: Name, i: nat) {
    && 1 <= i <= |m| - |z.apex| && z.Signed(m[i..]) && !z.Signed([STAR] + m[i..])
    && forall j :: 0 <= j < i ==> !z.Signed(m[j..])
  }

  /**
   Over a network that delivers the chain of a zone signed with NSEC3, every secure NXDOMAIN of the
   zone is true if and only if every name below the apex that owns records is signed there, or the
   wildcard at its closest signed ancestor is.
   */
  lemma HashedNxdomainsTrueIff(w: World, net: Net, tree: Tree, apex: Name)
    requires apex in net && Hashed(w, net, apex) && Planted(net, tree)
    ensures (forall q, t, msg :: Clear(w, net[apex], Fold(q)) ==> !FalseNxdomain(w, tree, apex, q, t, msg)) <==>
      (forall m, i: nat :: Lives(tree, m) && Above(apex, m) && Clear(w, net[apex], m) ==> !HashDenied(net[apex].data, m, i))
  {
    hide Hashed;
    hide FalseNxdomain;
    hide HashDenied;
    hide Lives;
    hide Clear;
    hide Planted;
    if m, i: nat :| Lives(tree, m) && Above(apex, m) && Clear(w, net[apex], m) && HashDenied(net[apex].data, m, i) {
      HashedMisjudged(w, net, tree, apex, m, i);
    }
    if q, t, msg :| Clear(w, net[apex], Fold(q)) && FalseNxdomain(w, tree, apex, q, t, msg) {
      var i := HashedNxdomainMeans(w, net, tree, apex, q, t, msg);
    }
  }

  lemma HashedNxdomainMeans(w: World, net: Net, tree: Tree, apex: Name, q: Name, t: u16, msg: Message) returns (i: nat)
    requires apex in net && Hashed(w, net, apex) && Clear(w, net[apex], Fold(q)) && FalseNxdomain(w, tree, apex, q, t, msg)
    ensures Above(apex, Fold(q)) && Lives(tree, Fold(q)) && HashDenied(net[apex].data, Fold(q), i)
  {
    hide Hashed;
    hide SecureDenial;
    hide Lives;
    hide HonestChain;
    hide ValidName;
    HashedZone(w, net, apex);
    HashedRests(w, net, apex, q, t, msg);
    InsideIsBelow(q, apex);
    i := DeniedByHash(net[apex].data, w.hash, net[apex].params, net[apex].chain, Nsec3s(w, msg, net[apex].keys), q);
  }

  lemma DeniedByHash(z: Zone, h: Hasher, p: Params, chain: seq<Nsec3>, recs: seq<Nsec3>, q: Name) returns (i: nat)
    requires z.Valid() && HonestChain(z, h, p, chain) && Shown(recs, chain) && ValidName(q) && InZone(q, z.apex)
    requires NoQueryCollision(z, h, p, Fold(q)) && Nsec3Nxdomain(h, recs, q, z.apex)
    ensures HashDenied(z, Fold(q), i)
  {
    hide HonestChain;
    hide NoCollision;
    hide ValidName;
    i :| ClosestMatch(h, recs, q, z.apex, i) && DeniesNextCloser(h, recs, q, i) && DeniesWildcard(h, recs, q, i);
    ApexInside(z);
    NextCloserUnsigned(z, h, p, chain, recs, q, z.apex, i);
    var r := MatchedAncestor(z, h, p, chain, recs, q, i);
    WildcardUnsigned(z, h, p, chain, recs, q, i);
  }

  lemma ApexInside(z: Zone)
    requires z.Valid()
    ensures InZone(z.apex, z.apex)
  {
    assert Fold(z.apex)[0..] == Fold(z.apex);
  }

  lemma HashedMisjudged(w: World, net: Net, tree: Tree, apex: Name, m: Name, i: nat)
    requires apex in net && Hashed(w, net, apex) && Planted(net, tree) && Lives(tree, m) && Above(apex, m)
    requires Clear(w, net[apex], m) && HashDenied(net[apex].data, m, i)
    ensures exists msg :: FalseNxdomain(w, tree, apex, m, RecordTypes.NS, msg) && Fold(m) == m
  {
    hide HonestNet.Honest;
    hide HonestChain;
    hide Walk;
    hide Conveyed;
    hide SecureDenial;
    hide Nsec3Nxdomain;
    hide NoQueryCollision;
    hide ValidName;
    var u :| Holds(tree, m, u);
    PlantedZone(net, tree, apex);
    HoldsIsProper(tree, m, u);
    HashedZone(w, net, apex);
    UnderIsInside(net[apex].data, m);
    DenialAt(net[apex].data, w.hash, net[apex].params, net[apex].chain, m, i);
    var msg :| Conveyed(w, net[apex], apex, RecordTypes.NXDOMAIN, msg);
    ConveyedVerdict(w, net, apex, msg, RecordTypes.NXDOMAIN, m, RecordTypes.NS);
    ConveyedCode(w, net[apex], apex, RecordTypes.NXDOMAIN, msg);
    assert FalseNxdomain(w, tree, apex, m, RecordTypes.NS, msg);
  }

  lemma ConveyedCode(w: World, z: SignedZone, apex: Name, rcode: nat, msg: Message)
    requires Conveyed(w, z, apex, rcode, msg)
    ensures msg.rcode == rcode
  {
  }

  /** What lies below a signed delegation is denied that way. */
  lemma BelowCutIsDenied(z: Zone, c: Name, m: Name)
    requires z.Valid() && Tidy(z) && z.Signed(c) && Delegates(z, c) && StrictlyBelow(m, c)
    ensures HashDenied(z, m, |m| - |c|)
  {
    var i := |m| - |c|;
    assert z.WellPlaced(c);
    forall j | 0 <= j < i ensures !z.Signed(m[j..]) {
      assert m[j..][|m[j..]| - |c|..] == m[i..];
      assert StrictlyBelow(m[j..], c);
    }
    AboveItself(c);
    WildcardBelow(c, c);
  }

  /**
   ... and every secure NODATA for a type is true if and only if the record of every signed name below
   the apex that has the type shows it or an alias.
   */
  lemma HashedNodatasTrueIff(w: World, net: Net, tree: Tree, apex: Name, t: u16)
    requires apex in net && Hashed(w, net, apex) && Planted(net, tree)
    ensures (forall q, msg :: Clear(w, net[apex], Fold(q)) ==> !FalseNodata(w, tree, apex, q, t, msg)) <==>
      (forall m :: Holds(tree, m, t) && Above(apex, m) && Clear(w, net[apex], m) && net[apex].data.Signed(m) ==>
         Shows(net[apex].data.types[m], t))
  {
    hide Hashed;
    hide FalseNodata;
    hide Holds;
    hide Clear;
    hide Planted;
    hide Shows;
    if m :| Holds(tree, m, t) && Above(apex, m) && Clear(w, net[apex], m) && net[apex].data.Signed(m) &&
            !Shows(net[apex].data.types[m], t) {
      HashedTypeMisjudged(w, net, tree, apex, m, t);
    }
    if q, msg :| Clear(w, net[apex], Fold(q)) && FalseNodata(w, tree, apex, q, t, msg) {
      HashedNodataMeans(w, net, tree, apex, q, t, msg);
    }
  }

  lemma HashedNodataMeans(w: World, net: Net, tree: Tree, apex: Name, q: Name, t: u16, msg: Message)
    requires apex in net && Hashed(w, net, apex) && Clear(w, net[apex], Fold(q)) && FalseNodata(w, tree, apex, q, t, msg)
    ensures Holds(tree, Fold(q), t) && Above(apex, Fold(q)) && net[apex].data.Signed(Fold(q))
    ensures !Shows(net[apex].data.types[Fold(q)], t)
  {
    hide Hashed;
    hide SecureDenial;
    hide Holds;
    hide HonestChain;
    hide ValidName;
    HashedZone(w, net, apex);
    HashedRests(w, net, apex, q, t, msg);
    InsideIsBelow(q, apex);
    assert Fold(q)[0..] == Fold(q);
    NodataSound(net[apex].data, w.hash, net[apex].params, net[apex].chain, Nsec3s(w, msg, net[apex].keys), q, t);
  }

  lemma HashedTypeMisjudged(w: World, net: Net, tree: Tree, apex: Name, m: Name, t: u16)
    requires apex in net && Hashed(w, net, apex) && Planted(net, tree) && Holds(tree, m, t) && Above(apex, m)
    requires Clear(w, net[apex], m) && net[apex].data.Signed(m) && !Shows(net[apex].data.types[m], t)
    ensures exists msg :: FalseNodata(w, tree, apex, m, t, msg) && Fold(m) == m
  {
    hide HonestNet.Honest;
    hide HonestChain;
    hide Walk;
    hide Conveyed;
    hide SecureDenial;
    hide Nsec3ProvesNodata;
    hide ValidName;
    PlantedZone(net, tree, apex);
    HoldsIsProper(tree, m, t);
    hide Holds;
    HashedZone(w, net, apex);
    UnderIsInside(net[apex].data, m);
    assert m[0..] == m;
    NodataExact(net[apex].data, w.hash, net[apex].params, net[apex].chain, m, t);
    var msg :| Conveyed(w, net[apex], apex, 0, msg);
    ConveyedVerdict(w, net, apex, msg, 0, m, t);
    ConveyedCode(w, net[apex], apex, 0, msg);
    assert FalseNodata(w, tree, apex, m, t, msg);
  }

  /** Every zone of a family that is signed with NSEC3 is reached so over some honest network. */
  lemma FamilyIsHashed(h: Hasher, plans: map<Name, Plan>, a: Name, rrs: seq<RR>) returns (w: World)
    requires Family(h, plans) && a in plans && plans[a].ByNsec3? && plans[a].chain != [] && Carries(rrs, plans[a].chain)
    ensures Hashed(w, NetOf(h, plans), a) && w.hash == h && NetOf(h, plans)[a].data == plans[a].zone
  {
    hide HonestNet.Honest;
    hide Walk;
    hide HonestNsecChain;
    hide Family;
    hide HonestZone;
    hide NsecsPublished;
    hide Follows;
    hide Carries;
    hide Conveyed;
    w := NetworkExists(h, plans);
    var net := NetOf(h, plans);
    assert SignedBy(h, a, plans[a], net[a]);
    assert Follows(w, net) by {
      ServesFollows(w, net);
    }
    ProperApex(h, plans, a);
    ChainConveyed(w, net, a, rrs, 0);
    ChainConveyed(w, net, a, rrs, RecordTypes.NXDOMAIN);
  }

  lemma ChainConveyed(w: World, net: Net, a: Name, rrs: seq<RR>, rcode: nat)
    requires Follows(w, net) && a in net && Carries(rrs, net[a].chain) && ValidName(a)
    ensures Conveyed(w, net[a], a, rcode, DenialMessage(rcode, a, rrs))
  {
    hide RefValidates;
    hide Carries;
    hide Delivered;
    hide Nsecs;
    hide Nsec3s;
    var msg := DenialMessage(rcode, a, rrs);
    MessageDelivers(w, net, rcode, a, rrs);
    DeliveredRecords(w, msg, net[a].keys, net[a].chain);
    SectionSigned(w, net, a, rrs);
  }
}
