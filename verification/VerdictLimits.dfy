/**
 Exactly how far secure denials of src/dns/dnssec_chain.rs reach: for which zones every one of them
 is true, and for the others a message on which the verdict and the zone differ.
 */
module VerdictLimits {
  import opened Prelude
  import opened Names
  import opened Denial
  import opened Zones
  import opened NsecProofs
  import opened NsecLookup
  import opened ExpandedDenial
  import opened Messages
  import opened ChainOfTrust
  import opened Verdicts
  import opened HonestNet
  import opened ReferenceNet
  import opened ZoneTree
  import opened Families
  import RecordTypes
  import TypeBitmap

  // ---- a message with one NSEC record ----

  function NsecMessage(rcode: nat, owner: Name, d: Bytes, sig: Bytes): Message {
    Message(rcode, [], [Record(owner, RecordTypes.NSEC, 3600, Unknown(d)), Record(owner, RecordTypes.RRSIG, 3600, Unknown(sig))])
  }

  lemma MessageSets(rcode: nat, owner: Name, d: Bytes, sig: Bytes)
    requires SigCovers(Record(owner, RecordTypes.RRSIG, 3600, Unknown(sig)), RecordTypes.NSEC)
    ensures var a := NsecMessage(rcode, owner, d, sig).authority;
            OwnedRdatas(a, owner, RecordTypes.NSEC) == [Unknown(d)] && OwnedSigs(a, owner, RecordTypes.NSEC) == [sig]
  {
    var a := NsecMessage(rcode, owner, d, sig).authority;
    assert a[1..][1..] == [];
    assert OwnedRdatas(a[1..], owner, RecordTypes.NSEC) == OwnedRdatas(a[1..][1..], owner, RecordTypes.NSEC) == [];
    assert OwnedSigs(a[1..], owner, RecordTypes.NSEC) == [sig] + OwnedSigs(a[1..][1..], owner, RecordTypes.NSEC) == [sig];
  }

  lemma MessageRecords(w: World, z: SignedZone, apex: Name, rcode: nat, n: Nsec, d: Bytes, sig: Bytes)
    requires Relayed(w, z, apex, n, d, sig)
    ensures var msg := NsecMessage(rcode, n.owner, d, sig);
            Nsecs(w, msg, z.keys) == [n] && Nsec3s(w, msg, z.keys) == []
  {
    hide ParseNsec;
    hide ParseNsec3;
    var msg := NsecMessage(rcode, n.owner, d, sig);
    MessageSets(rcode, n.owner, d, sig);
    assert CollectNsec(w, msg, z.keys, 0) == [] && CollectNsec3(w, msg, z.keys, 0) == [];
    assert CollectNsec(w, msg, z.keys, 1) == [n] && CollectNsec3(w, msg, z.keys, 1) == [];
    assert CollectNsec(w, msg, z.keys, 2) == [n] && CollectNsec3(w, msg, z.keys, 2) == [];
  }

  lemma MessageZone(w: World, z: SignedZone, apex: Name, rcode: nat, n: Nsec, d: Bytes, sig: Bytes, q: Name)
    requires Relayed(w, z, apex, n, d, sig) && InZone(q, apex)
    ensures SigningZone(w, NsecMessage(rcode, n.owner, d, sig), q) == Some(apex)
  {
    hide ParseNsec;
    var msg := NsecMessage(rcode, n.owner, d, sig);
    var a := msg.authority;
    assert [] + a == a && a[1..][0] == a[1];
    assert FirstSigner(w, a[1..]) == Some(apex);
  }

  /** The verdict on such a message is that of its record. */
  lemma MessageVerdict(w: World, z: SignedZone, apex: Name, rcode: nat, n: Nsec, d: Bytes, sig: Bytes, q: Name, t: u16)
    requires Relayed(w, z, apex, n, d, sig) && InZone(q, apex) && Fold(apex) == apex && Walk(w, apex) == Trusted(z.keys)
    ensures var msg := NsecMessage(rcode, n.owner, d, sig);
      && AnsweredType(msg, q, t).None? && SigningZone(w, msg, q) == Some(apex)
      && (rcode == RecordTypes.NXDOMAIN && NsecNxdomain([n], q, apex) ==> Validated(w, q, t, msg).0 == Secure)
      && (rcode != RecordTypes.NXDOMAIN && NsecProvesNodata(n, q, t) ==> Validated(w, q, t, msg).0 == Secure)
  {
    hide Relayed;
    hide Walk;
    hide NsecNxdomain;
    hide NsecProvesNodata;
    var msg := NsecMessage(rcode, n.owner, d, sig);
    MessageRecords(w, z, apex, rcode, n, d, sig);
    MessageZone(w, z, apex, rcode, n, d, sig, q);
    if rcode != RecordTypes.NXDOMAIN && NsecProvesNodata(n, q, t) {
      assert NsecProvesNodata([n][0], q, t);
    }
  }

  // ---- every secure denial of a zone signed with NSEC ----

  /** The zone `apex` is signed with NSEC, reached with its own keys, and its records can be delivered. */
  ghost predicate Reached(w: World, net: Net, apex: Name)
    requires apex in net
  {
    && HonestNet.Honest(w, net) && net[apex].chain == [] && net[apex].nsecs != []
    && Walk(w, apex) == Trusted(net[apex].keys) && Relays(w, net[apex], apex)
  }

  ghost predicate SecureDenial(w: World, apex: Name, q: Name, t: u16, msg: Message) {
    && ValidName(q) && SigningZone(w, msg, q) == Some(apex) && AnsweredType(msg, q, t).None?
    && Validated(w, q, t, msg).0 == Secure
  }

  /** A secure NXDOMAIN for a name that owns records in the zone it belongs to. */
  ghost predicate FalseNxdomain(w: World, tree: Tree, apex: Name, q: Name, t: u16, msg: Message) {
    SecureDenial(w, apex, q, t, msg) && msg.rcode == RecordTypes.NXDOMAIN && Lives(tree, Fold(q))
  }

  /** A secure NODATA for a type that the name has. */
  ghost predicate FalseNodata(w: World, tree: Tree, apex: Name, q: Name, t: u16, msg: Message) {
    SecureDenial(w, apex, q, t, msg) && msg.rcode != RecordTypes.NXDOMAIN && Holds(tree, Fold(q), t)
  }

  lemma ReachedZone(w: World, net: Net, apex: Name)
    requires apex in net && Reached(w, net, apex)
    ensures net[apex].data.Valid() && net[apex].data.apex == apex && Fold(apex) == apex
    ensures HonestNsecChain(net[apex].data, net[apex].nsecs)
  {
    hide HonestNsecChain;
    hide HonestChain;
    assert HonestZone(w.hash, apex, net[apex]);
    FoldedApex(net[apex].data);
  }

  /** A denial rests on records the zone's signatures validate. */
  lemma DenialRests(w: World, net: Net, apex: Name, q: Name, t: u16, msg: Message)
    requires apex in net && Reached(w, net, apex) && SecureDenial(w, apex, q, t, msg)
    ensures var nsecs := Nsecs(w, msg, net[apex].keys);
      && AllPresented(net[apex].nsecs, nsecs)
      && (msg.rcode == RecordTypes.NXDOMAIN ==> NsecNxdomain(nsecs, q, apex))
      && (msg.rcode != RecordTypes.NXDOMAIN ==> AnyNsecNodata(nsecs, q, t))
  {
    hide NsecNxdomain;
    hide AllPresented;
    hide Relays;
    hide Walk;
    hide HonestNsecChain;
    ReachedZone(w, net, apex);
    CollectedNsecs(w, net, apex, msg);
    CollectedShown(w, net, apex, msg);
    NoNsec3(w, net, apex, msg);
    assert DenialValid(w, msg, q, t, apex, net[apex].keys);
  }

  lemma NoNsec3(w: World, net: Net, apex: Name, msg: Message)
    requires Unforgeable(w, net) && apex in net && net[apex].chain == []
    ensures Nsec3s(w, msg, net[apex].keys) == []
  {
    if Nsec3s(w, msg, net[apex].keys) != [] {
      CollectedNsec3(w, net, apex, msg, Nsec3s(w, msg, net[apex].keys)[0]);
    }
  }

  lemma CanRelay(w: World, net: Net, apex: Name, n: Nsec) returns (d: Bytes, sig: Bytes)
    requires apex in net && Reached(w, net, apex)
    requires FoldNsec(n) == n && ValidName(n.owner) && Presented(net[apex].nsecs, n)
    ensures Relayed(w, net[apex], apex, n, d, sig) && Fold(apex) == apex && Walk(w, apex) == Trusted(net[apex].keys)
  {
    hide Presented;
    hide Relayed;
    hide HonestNet.Honest;
    assert Relays(w, net[apex], apex);
    d, sig :| Relayed(w, net[apex], apex, n, d, sig);
    ReachedZone(w, net, apex);
  }

  /** Some message denies an existing wildcard name. */
  lemma WildcardMisjudged(w: World, net: Net, apex: Name, k: nat, s: Name, t: u16) returns (msg: Message)
    requires apex in net && Reached(w, net, apex) && Owner(net[apex].data, apex) && !WildcardName(apex)
    requires k < |net[apex].nsecs| && net[apex].nsecs[k].owner == [STAR] + s
    ensures SecureDenial(w, apex, [STAR] + s, t, msg) && msg.rcode == RecordTypes.NXDOMAIN
    ensures Owner(net[apex].data, [STAR] + s) && Fold([STAR] + s) == [STAR] + s
  {
    hide HonestNsecChain;
    hide Relayed;
    hide NsecNxdomain;
    hide Presented;
    hide Reached;
    hide ValidName;
    hide NsecCovers;
    hide Validated;
    hide SigningZone;
    hide AnsweredType;
    hide Walk;
    ReachedZone(w, net, apex);
    var z := net[apex];
    var n, q := AtFirstChild(s, z.nsecs[k]), [STAR] + s;
    ExpansionCoversWildcard(z.data, z.nsecs, k, s);
    WildcardIsDenied(z.data, z.nsecs, k, s);
    WildcardPlace(z.data, s);
    var d, sig := CanRelay(w, net, apex, n);
    msg := NsecMessage(RecordTypes.NXDOMAIN, n.owner, d, sig);
    WildcardUnder(z.data, s);
    UnderIsInside(z.data, q);
    MessageVerdict(w, z, apex, RecordTypes.NXDOMAIN, n, d, sig, q, t);
  }

  /** Some message with one record of the chain as it stands denies a name that a wildcard answers. */
  lemma AnswerMisjudged(w: World, net: Net, apex: Name, s: Name, b: Label, t: u16) returns (n: Nsec, msg: Message)
    requires apex in net && Reached(w, net, apex) && s in net[apex].data.types && [STAR] + s in net[apex].data.types
    requires [b] + s !in net[apex].data.types && ValidName([STAR] + ([b] + s)) && Fold([STAR] + ([b] + s)) == [STAR] + ([b] + s)
    ensures n in net[apex].nsecs && Nsecs(w, msg, net[apex].keys) == [n] && msg.rcode == RecordTypes.NXDOMAIN
    ensures SecureDenial(w, apex, [STAR] + ([b] + s), t, msg)
    ensures Lookup(net[apex].data, [STAR] + ([b] + s)) == Expanded([STAR] + s)
  {
    hide HonestNsecChain;
    hide Relayed;
    hide NsecNxdomain;
    hide Reached;
    hide ValidName;
    hide NsecCovers;
    hide Validated;
    hide SigningZone;
    hide AnsweredType;
    hide Walk;
    hide Lookup;
    ReachedZone(w, net, apex);
    var z, q := net[apex], [STAR] + ([b] + s);
    MissingChild(z.data, s, b);
    UnderIsInside(z.data, q);
    var k := CoveredAt(w, net, apex, q);
    n := z.nsecs[k];
    WildcardOverlooked(z.data, n, s, b);
    FoldedRecord(z.data, z.nsecs, n);
    RecordAtIndex(z.data, z.nsecs, k);
    assert z.data.WellPlaced(n.owner);
    var d, sig := CanRelay(w, net, apex, n);
    msg := NsecMessage(RecordTypes.NXDOMAIN, n.owner, d, sig);
    MessageRecords(w, z, apex, RecordTypes.NXDOMAIN, n, d, sig);
    MessageVerdict(w, z, apex, RecordTypes.NXDOMAIN, n, d, sig, q, t);
  }

  lemma CoveredAt(w: World, net: Net, apex: Name, q: Name) returns (k: nat)
    requires apex in net && Reached(w, net, apex) && !Owner(net[apex].data, q) && Fold(q) == q
    ensures k < |net[apex].nsecs| && NsecCovers(net[apex].nsecs[k].owner, net[apex].nsecs[k].next, q)
  {
    hide HonestNsecChain;
    hide NsecCovers;
    ReachedZone(w, net, apex);
    NonexistenceComplete(net[apex].data, net[apex].nsecs, q);
    k :| 0 <= k < |net[apex].nsecs| && NsecCovers(net[apex].nsecs[k].owner, net[apex].nsecs[k].next, q);
  }

  // ---- every secure NXDOMAIN ----

  /** Some message with the record of a delegation as it stands denies a name below it. */
  lemma ChildMisjudged(w: World, net: Net, apex: Name, c: Name, m: Name, t: u16) returns (n: Nsec, msg: Message)
    requires apex in net && Reached(w, net, apex) && Tidy(net[apex].data) && Delegates(net[apex].data, c)
    requires StrictlyBelow(m, c) && ValidName(m) && Fold(m) == m
    ensures n in net[apex].nsecs && Nsecs(w, msg, net[apex].keys) == [n] && n.owner == c
    ensures SecureDenial(w, apex, m, t, msg) && msg.rcode == RecordTypes.NXDOMAIN
  {
    hide HonestNsecChain;
    hide Relayed;
    hide NsecNxdomain;
    hide Reached;
    hide ValidName;
    hide NsecCovers;
    hide Validated;
    hide SigningZone;
    hide AnsweredType;
    hide Walk;
    hide Tidy;
    ReachedZone(w, net, apex);
    var z := net[apex];
    var k := RecordOf(z.data, z.nsecs, c);
    n := z.nsecs[k];
    CutDenies(z.data, z.nsecs, k, m);
    FoldedRecord(z.data, z.nsecs, n);
    assert z.data.WellPlaced(c);
    AboveTransitive(apex, c, m);
    UnderIsInside(z.data, m);
    var d, sig := CanRelay(w, net, apex, n);
    msg := NsecMessage(RecordTypes.NXDOMAIN, n.owner, d, sig);
    MessageRecords(w, z, apex, RecordTypes.NXDOMAIN, n, d, sig);
    MessageVerdict(w, z, apex, RecordTypes.NXDOMAIN, n, d, sig, m, t);
  }

  lemma CutDenies(z: Zone, chain: seq<Nsec>, k: nat, m: Name)
    requires z.Valid() && HonestNsecChain(z, chain) && Tidy(z) && k < |chain| && Delegates(z, chain[k].owner)
    requires StrictlyBelow(m, chain[k].owner) && ValidName(m) && Fold(m) == m
    ensures NsecNxdomain([chain[k]], m, z.apex)
  {
    hide HonestNsecChain;
    hide NsecCovers;
    hide ValidName;
    hide Tidy;
    hide Above;
    hide Fold;
    hide InZone;
    hide NsecNxdomain;
    var c := chain[k].owner;
    ParentBelowCut(z, c, m);
    CutCovers(z, chain, k, m);
    CutCovers(z, chain, k, [STAR] + m[1..]);
    UnderIsInside(z, m[1..]);
    OneRecordDeniesBoth(chain[k], m, z.apex);
  }

  lemma ParentBelowCut(z: Zone, c: Name, m: Name)
    requires z.Valid() && c in z.types && StrictlyBelow(m, c) && Fold(m) == m
    ensures Above(z.apex, m[1..]) && Fold(m[1..]) == m[1..]
    ensures StrictlyBelow([STAR] + m[1..], c) && Fold([STAR] + m[1..]) == [STAR] + m[1..]
  {
    AboveStep(c, m);
    assert z.WellPlaced(c);
    hide ValidName;
    FoldSuffix(m, 1);
    hide Fold;
    FoldWildcard(m[1..]);
    WildcardBelow(c, m[1..]);
    AboveTransitive(z.apex, c, m[1..]);
  }

  lemma OneRecordDeniesBoth(n: Nsec, m: Name, apex: Name)
    requires ValidName(m) && m != [] && InZone(m[1..], apex)
    requires NsecCovers(n.owner, n.next, m) && NsecCovers(n.owner, n.next, [STAR] + m[1..])
    ensures NsecNxdomain([n], m, apex)
  {
    hide NsecCovers;
    hide ValidName;
    hide InZone;
    WildcardFits(m, 1);
    assert [n][0] == n;
    assert NsecDeniesWildcard([n], m, apex, 1);
  }

  lemma WildcardBelow(c: Name, s: Name)
    requires Above(c, s)
    ensures StrictlyBelow([STAR] + s, c)
  {
    assert ([STAR] + s)[|s| + 1 - |c|..] == s[|s| - |c|..];
  }

  /** Every name below the apex that owns records is one the zone lists. */
  ghost predicate ListsAll(tree: Tree, z: Zone) {
    forall m, t :: Holds(tree, m, t) && Above(z.apex, m) ==> Owner(z, m)
  }

  /**
   Over a network that delivers what a zone's signatures validate, every secure NXDOMAIN of the
   zone is true if and only if the zone has no wildcard and no zone below it owns a name that it
   does not own itself.
   */
  lemma NxdomainsTrueIff(w: World, net: Net, tree: Tree, apex: Name)
    requires apex in net && Reached(w, net, apex) && Planted(net, tree) && !WildcardName(apex)
    ensures (forall q, t, msg :: !FalseNxdomain(w, tree, apex, q, t, msg)) <==>
      NoWildcard(net[apex].nsecs) && ListsAll(tree, net[apex].data)
  {
    hide Reached;
    hide FalseNxdomain;
    hide ListsAll;
    if NoWildcard(net[apex].nsecs) && ListsAll(tree, net[apex].data) {
      forall q, t, msg ensures !FalseNxdomain(w, tree, apex, q, t, msg) {
        NxdomainIsTrue(w, net, tree, apex, q, t, msg);
      }
    } else {
      NxdomainIsFalse(w, net, tree, apex);
    }
  }

  lemma NxdomainIsFalse(w: World, net: Net, tree: Tree, apex: Name)
    requires apex in net && Reached(w, net, apex) && Planted(net, tree) && !WildcardName(apex)
    requires !NoWildcard(net[apex].nsecs) || !ListsAll(tree, net[apex].data)
    ensures exists q, t, msg :: FalseNxdomain(w, tree, apex, q, t, msg)
  {
    hide Reached;
    hide Grown;
    hide SecureDenial;
    hide Lives;
    PlantedZone(net, tree, apex);
    ApexOwns(tree, apex);
    if !NoWildcard(net[apex].nsecs) {
      var k :| 0 <= k < |net[apex].nsecs| && WildcardName(net[apex].nsecs[k].owner);
      var s := net[apex].nsecs[k].owner[1..];
      assert net[apex].nsecs[k].owner == [STAR] + s;
      var msg := WildcardMisjudged(w, net, apex, k, s, RecordTypes.NS);
      OwnerLives(tree, apex, [STAR] + s);
      assert FalseNxdomain(w, tree, apex, [STAR] + s, RecordTypes.NS, msg);
    } else {
      var m, t :| Holds(tree, m, t) && Above(apex, m) && !Owner(net[apex].data, m);
      var c := HiddenBelowCut(tree, apex, m, t);
      HoldsIsProper(tree, m, t);
      var _, msg := ChildMisjudged(w, net, apex, c, m, t);
      assert Lives(tree, m) by {
        HeldLives(tree, m, t);
      }
      assert FalseNxdomain(w, tree, apex, m, t, msg);
    }
  }

  lemma HeldLives(tree: Tree, m: Name, t: u16)
    requires Holds(tree, m, t)
    ensures Lives(tree, m)
  {
  }

  lemma NxdomainIsTrue(w: World, net: Net, tree: Tree, apex: Name, q: Name, t: u16, msg: Message)
    requires apex in net && Reached(w, net, apex) && NoWildcard(net[apex].nsecs) && ListsAll(tree, net[apex].data)
    ensures !FalseNxdomain(w, tree, apex, q, t, msg)
  {
    hide Reached;
    hide HonestNsecChain;
    hide AllPresented;
    hide SecureDenial;
    hide NsecNxdomain;
    hide NoWildcard;
    hide Holds;
    ReachedZone(w, net, apex);
    if SecureDenial(w, apex, q, t, msg) && msg.rcode == RecordTypes.NXDOMAIN {
      ValidQuery(w, apex, q, t, msg);
      DenialRests(w, net, apex, q, t, msg);
      NoneDenied(net[apex].data, net[apex].nsecs, Nsecs(w, msg, net[apex].keys), q);
      InsideIsBelow(q, apex);
    }
  }

  // ---- every secure NODATA ----

  /** No record the zone's signatures validate at `m` denies `t`. */
  ghost predicate Reads(z: Zone, m: Name, t: u16) {
    && (Owner(z, m) ==> Shows(z.types[m], t))
    && forall s :: Owner(z, [STAR] + s) && StrictlyBelow(m, s) ==> Shows(z.types[[STAR] + s], t)
  }

  ghost predicate ReadsAll(tree: Tree, z: Zone, t: u16) {
    forall m :: Holds(tree, m, t) && Above(z.apex, m) ==> Reads(z, m, t)
  }

  lemma RecordMisjudges(w: World, net: Net, apex: Name, n: Nsec, t: u16) returns (msg: Message)
    requires apex in net && Reached(w, net, apex) && Above(apex, n.owner)
    requires FoldNsec(n) == n && ValidName(n.owner) && Presented(net[apex].nsecs, n) && NoData(n.bitmap, t)
    ensures SecureDenial(w, apex, n.owner, t, msg) && msg.rcode != RecordTypes.NXDOMAIN
    ensures Nsecs(w, msg, net[apex].keys) == [n]
  {
    hide HonestNsecChain;
    hide Relayed;
    hide Presented;
    hide Reached;
    hide ValidName;
    hide NoData;
    hide Validated;
    hide SigningZone;
    hide AnsweredType;
    hide Walk;
    ReachedZone(w, net, apex);
    var d, sig := CanRelay(w, net, apex, n);
    msg := NsecMessage(0, n.owner, d, sig);
    UnderIsInside(net[apex].data, n.owner);
    MessageRecords(w, net[apex], apex, 0, n, d, sig);
    MessageVerdict(w, net[apex], apex, 0, n, d, sig, n.owner, t);
  }

  /** A record that does not show a type denies it. */
  lemma UnshownIsDenied(bitmap: seq<byte>, types: set<u16>, t: u16)
    requires (forall u: u16 :: TypeBitmap.Has(bitmap, u) <==> u in types)
    ensures NoData(bitmap, t) <==> !Shows(types, t)
  {
  }

  lemma TypeMisjudged(w: World, net: Net, apex: Name, m: Name, t: u16) returns (msg: Message)
    requires apex in net && Reached(w, net, apex) && Above(apex, m) && ValidName(m) && Fold(m) == m
    requires !Reads(net[apex].data, m, t)
    ensures SecureDenial(w, apex, m, t, msg) && msg.rcode != RecordTypes.NXDOMAIN
  {
    hide HonestNsecChain;
    hide Presented;
    hide Reached;
    hide ValidName;
    hide SecureDenial;
    hide NoData;
    hide Shows;
    ReachedZone(w, net, apex);
    var z := net[apex];
    if Owner(z.data, m) && !Shows(z.data.types[m], t) {
      var k := RecordOf(z.data, z.nsecs, m);
      FoldedRecord(z.data, z.nsecs, z.nsecs[k]);
      PresentsItself(z.nsecs, k);
      UnshownIsDenied(z.nsecs[k].bitmap, z.data.types[m], t);
      msg := RecordMisjudges(w, net, apex, z.nsecs[k], t);
    } else {
      var s :| Owner(z.data, [STAR] + s) && StrictlyBelow(m, s) && !Shows(z.data.types[[STAR] + s], t);
      var k := RecordOf(z.data, z.nsecs, [STAR] + s);
      ExpansionAtName(z.data, z.nsecs, k, s, m);
      UnshownIsDenied(z.nsecs[k].bitmap, z.data.types[[STAR] + s], t);
      msg := RecordMisjudges(w, net, apex, AtName(m, z.nsecs[k]), t);
    }
  }

  lemma PresentsItself(chain: seq<Nsec>, k: nat)
    requires k < |chain| && FoldNsec(chain[k]) == chain[k]
    ensures Presented(chain, chain[k])
  {
  }

  /**
   ... and every secure NODATA for a type is true if and only if, at every name below the apex that
   has the type, the zone's own record and those of the wildcards above show it or an alias.
   */
  lemma NodatasTrueIff(w: World, net: Net, tree: Tree, apex: Name, t: u16)
    requires apex in net && Reached(w, net, apex) && Planted(net, tree)
    ensures (forall q, msg :: !FalseNodata(w, tree, apex, q, t, msg)) <==> ReadsAll(tree, net[apex].data, t)
  {
    hide Reached;
    hide Reads;
    hide Holds;
    hide SecureDenial;
    hide Planted;
    hide HonestNsecChain;
    ReachedZone(w, net, apex);
    if ReadsAll(tree, net[apex].data, t) {
      forall q, msg ensures !FalseNodata(w, tree, apex, q, t, msg) {
        NodataIsTrue(w, net, tree, apex, q, t, msg);
      }
    } else {
      var m :| Holds(tree, m, t) && Above(apex, m) && !Reads(net[apex].data, m, t);
      PlantedZone(net, tree, apex);
      HoldsIsProper(tree, m, t);
      var msg := TypeMisjudged(w, net, apex, m, t);
      assert FalseNodata(w, tree, apex, m, t, msg);
    }
  }

  lemma NodataIsTrue(w: World, net: Net, tree: Tree, apex: Name, q: Name, t: u16, msg: Message)
    requires apex in net && Reached(w, net, apex) && ReadsAll(tree, net[apex].data, t)
    ensures !FalseNodata(w, tree, apex, q, t, msg)
  {
    hide Reached;
    hide HonestNsecChain;
    hide Presented;
    hide SecureDenial;
    hide Holds;
    hide Reads;
    ReachedZone(w, net, apex);
    if SecureDenial(w, apex, q, t, msg) && msg.rcode != RecordTypes.NXDOMAIN && Holds(tree, Fold(q), t) {
      DenialRests(w, net, apex, q, t, msg);
      var nsecs := Nsecs(w, msg, net[apex].keys);
      var k :| 0 <= k < |nsecs| && NsecProvesNodata(nsecs[k], q, t);
      assert nsecs[k] in nsecs;
      ValidQuery(w, apex, q, t, msg);
      InsideIsBelow(q, apex);
      ReadIsNotDenied(net[apex].data, net[apex].nsecs, nsecs[k], q, t);
    }
  }

  lemma ReadIsNotDenied(z: Zone, chain: seq<Nsec>, n: Nsec, q: Name, t: u16)
    requires HonestNsecChain(z, chain) && Presented(chain, n) && Reads(z, Fold(q), t)
    ensures !NsecProvesNodata(n, q, t)
  {
    hide HonestNsecChain;
    if SameName(n.owner, q) {
      if FoldNsec(n) in chain {
        MatchingNsec(z, chain, n, q);
        UnshownIsDenied(n.bitmap, z.types[Fold(q)], t);
      } else {
        var i :| ExpandedAt(chain, n, i);
        var s := SourceOfExpansion(z, chain, n, i);
        UnshownIsDenied(n.bitmap, z.types[[STAR] + s], t);
      }
    }
  }

  lemma ValidQuery(w: World, apex: Name, q: Name, t: u16, msg: Message)
    requires SecureDenial(w, apex, q, t, msg)
    ensures ValidName(q) && InZone(q, apex)
  {
  }

  /** Every zone of a family that is signed with NSEC is reached over some honest network. */
  lemma FamilyIsReached(h: Hasher, plans: map<Name, Plan>, a: Name) returns (w: World)
    requires Family(h, plans) && a in plans && plans[a].ByNsec? && Owner(plans[a].zone, a)
    ensures Reached(w, NetOf(h, plans), a) && w.hash == h && NetOf(h, plans)[a].data == plans[a].zone
  {
    hide HonestNet.Honest;
    hide Relays;
    hide Walk;
    hide HonestNsecChain;
    hide Family;
    hide HonestZone;
    hide NsecsPublished;
    w := NetworkExists(h, plans);
    var z := NetOf(h, plans)[a];
    assert SignedBy(h, a, plans[a], z);
    var k := RecordOf(z.data, z.nsecs, a);
  }
}
