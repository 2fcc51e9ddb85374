/**
 Where a secure answer made from a wildcard stops being the answer: the check asks that the name own
 nothing, not that the wildcard stand at its closest encloser.
 */
module AnswerLimits {
  import opened Prelude
  import opened Names
  import opened Denial
  import opened Zones
  import opened NsecProofs
  import opened NsecLookup
  import opened ExpandedDenial
  import opened Messages
  import opened ChainOfTrust
  import opened Verdicts
  import opened HonestNet
  import opened ZoneTree
  import opened ReferenceNet
  import opened Families
  import opened VerdictLimits
  import RecordTypes

  /** What lookup in the zone answers with. */
  ghost predicate AnswerIs(z: SignedZone, q: Name, t: u16, rdatas: seq<Rdata>) {
    match Lookup(z.data, q)
    case Found(n) => PublishedAt(z, n, t, rdatas)
    case Expanded(wildcard) => PublishedAt(z, wildcard, t, rdatas)
    case NoSuchName => false
  }

  /** The name belongs to the zone, and that is its answer. */
  ghost predicate TrueAnswer(tree: Tree, z: SignedZone, q: Name, t: u16, rdatas: seq<Rdata>) {
    Deepest(tree.Keys, q) == z.data.apex && AnswerIs(z, q, t, rdatas)
  }

  ghost predicate SecureExpansion(w: World, z: SignedZone, q: Name, t: u16, msg: Message) {
    && ValidName(q) && SigningZone(w, msg, q) == Some(z.data.apex) && AnsweredType(msg, q, t) == Some(t)
    && AnswerCheck(w, msg, q, t, z.keys) == Some(true) && Validated(w, q, t, msg).0 == Secure
  }

  /** A secure expanded answer, with denial records as they were signed, that is not the answer. */
  ghost predicate FalseExpansion(w: World, tree: Tree, z: SignedZone, q: Name, t: u16, msg: Message) {
    && SecureExpansion(w, z, q, t, msg) && NoExpandedNsec(w, msg, z.keys) && Plain(t)
    && !TrueAnswer(tree, z, Fold(q), t, OwnedRdatas(msg.answers, q, t))
  }

  predicate Plain(t: u16) {
    t != RecordTypes.NSEC3 && t != RecordTypes.RRSIG
  }

  /** Data of the wildcard at `s`, for a name below `s` that owns nothing. */
  ghost predicate Offered(z: SignedZone, s: Name, q: Name, t: u16, d: Rdata) {
    && ([STAR] + s, t) in z.published && d in z.published[([STAR] + s, t)] && Plain(t)
    && StrictlyBelow(q, s) && ValidName(q) && Fold(q) == q && !Owner(z.data, q)
  }

  ghost predicate ExpandsRight(tree: Tree, z: SignedZone) {
    forall s, q, t, d :: Offered(z, s, q, t, d) ==> TrueAnswer(tree, z, q, t, [d])
  }

  /** The checks of the network, and the zone `a` reached with its own keys. */
  ghost predicate Followed(w: World, h: Hasher, plans: map<Name, Plan>, a: Name) {
    && Family(h, plans) && a in plans && plans[a].ByNsec? && Owner(plans[a].zone, a)
    && w.hash == h && Follows(w, NetOf(h, plans)) && Walk(w, a) == Trusted(NetOf(h, plans)[a].keys)
  }

  lemma FollowedZone(w: World, h: Hasher, plans: map<Name, Plan>, a: Name)
    requires Followed(w, h, plans, a)
    ensures var net := NetOf(h, plans);
      && HonestNet.Honest(w, net) && WellSigned(h, net) && NsecSigned(net[a]) && net[a].chain == []
      && net[a].data.Valid() && net[a].data.apex == a && net[a].nsecs != []
      && ValidName(a) && Fold(a) == a
  {
    hide Walk;
    hide Follows;
    hide HonestNet.Honest;
    hide WellSigned;
    hide HonestNsecChain;
    hide Family;
    hide NsecsPublished;
    hide HonestZone;
    var net := NetOf(h, plans);
    FamilyIsWellSigned(h, plans);
    ReferenceIsHonest(w, net);
    ProperApex(h, plans, a);
    PlannedByNsec(h, plans, a);
    var k := RecordOf(net[a].data, net[a].nsecs, a);
  }

  lemma PlannedByNsec(h: Hasher, plans: map<Name, Plan>, a: Name)
    requires Family(h, plans) && a in plans && plans[a].ByNsec?
    ensures NsecSigned(NetOf(h, plans)[a]) && NetOf(h, plans)[a].chain == []
    ensures NetOf(h, plans)[a].data == plans[a].zone && plans[a].zone.apex == a
  {
    hide HonestNsecChain;
    hide HonestZone;
    hide NsecsPublished;
    assert SignedBy(h, a, plans[a], NetOf(h, plans)[a]) && WellPlanned(h, a, plans[a]);
  }

  // ---- an accepted expansion ----

  /** Its data are those of a wildcard above, and the name owns nothing. */
  lemma ExpansionRests(w: World, net: Net, a: Name, q: Name, t: u16, msg: Message) returns (s: Name)
    requires HonestNet.Honest(w, net) && a in net && net[a].chain == [] && Walk(w, a) == Trusted(net[a].keys)
    requires net[a].data.apex == a && Fold(a) == a
    requires SecureExpansion(w, net[a], q, t, msg) && NoExpandedNsec(w, msg, net[a].keys) && Plain(t)
    ensures PublishedAt(net[a], [STAR] + s, t, OwnedRdatas(msg.answers, q, t)) && StrictlyBelow(Fold(q), s)
    ensures !Owner(net[a].data, Fold(q))
  {
    hide HonestNet.Honest;
    hide Unforgeable;
    hide PublishedAt;
    hide OwnedRdatas;
    hide Walk;
    hide ValidName;
    hide Validated;
    hide SigningZone;
    hide AnsweredType;
    hide AnswerCheck;
    s := ExpansionSource(w, net, a, q, t, msg);
    ExpansionAbsent(w, net, a, q, t, msg);
  }

  lemma ExpansionAbsent(w: World, net: Net, a: Name, q: Name, t: u16, msg: Message)
    requires HonestNet.Honest(w, net) && a in net && net[a].chain == [] && Walk(w, a) == Trusted(net[a].keys)
    requires net[a].data.apex == a && Fold(a) == a
    requires SecureExpansion(w, net[a], q, t, msg) && NoExpandedNsec(w, msg, net[a].keys)
    ensures !Owner(net[a].data, Fold(q))
  {
    hide HonestNet.Honest;
    hide Unforgeable;
    hide HonestNsecChain;
    hide HonestChain;
    hide NsecShown;
    hide AnyNsecCovers;
    hide Nsec3NameAbsent;
    hide Walk;
    hide ValidName;
    hide SigningZone;
    hide AnswerCheck;
    hide NoExpandedNsec;
    hide Nsecs;
    hide Nsec3s;
    hide Fold;
    HonestSigns(w, net);
    CollectedShown(w, net, a, msg);
    NoNsec3(w, net, a, msg);
    NoneByHash(w.hash, q, a);
    assert NoExactMatch(w, msg, q, a, net[a].keys);
    NothingCovers(q);
    NonexistenceSound(net[a].data, net[a].nsecs, Nsecs(w, msg, net[a].keys), q);
  }

  lemma NothingCovers(q: Name)
    ensures !AnyNsecCovers([], q)
  {
  }

  lemma NoneByHash(h: Hasher, q: Name, zone: Name)
    ensures !Nsec3NameAbsent(h, [], q, zone)
  {
  }

  lemma AnsweredHasData(msg: Message, q: Name, t: u16)
    requires AnsweredType(msg, q, t) == Some(t)
    ensures OwnedRdatas(msg.answers, q, t) != []
  {
    var k :| 0 <= k < |msg.answers| && Messages.Owned(msg.answers[k], q, t);
    assert msg.answers[k].rdata in OwnedRdatas(msg.answers, q, t);
  }

  lemma RightOnes(tree: Tree, z: SignedZone, s: Name, q: Name, t: u16, rdatas: seq<Rdata>)
    requires ExpandsRight(tree, z) && PublishedAt(z, [STAR] + s, t, rdatas) && rdatas != [] && Plain(t)
    requires StrictlyBelow(q, s) && ValidName(q) && Fold(q) == q && !Owner(z.data, q)
    ensures TrueAnswer(tree, z, q, t, rdatas)
  {
    hide Lookup;
    forall d | d in rdatas ensures TrueAnswer(tree, z, q, t, [d]) && d in [d] {
      assert Offered(z, s, q, t, d);
    }
    assert rdatas[0] in rdatas;
  }

  // ---- an expansion that is accepted ----

  function TypeSig(t: u16, apex: Name): Bytes {
    [t / 256, t % 256] + Token(apex)
  }

  function ExpandedMessage(q: Name, t: u16, d: Rdata, apex: Name, n: Nsec): Message {
    Message(0, [Record(q, t, 3600, d), Record(q, RecordTypes.RRSIG, 3600, Unknown(TypeSig(t, apex)))],
            NsecMessage(0, n.owner, NsecData(n), NSEC_SIG + Token(apex)).authority)
  }

  lemma {:induction false} SameAuthority(w: World, a: Message, b: Message, keys: seq<Bytes>, k: nat)
    requires a.authority == b.authority && k <= |a.authority|
    ensures CollectNsec(w, a, keys, k) == CollectNsec(w, b, keys, k)
  {
    if k > 0 {
      SameAuthority(w, a, b, keys, k - 1);
    }
  }

  lemma SigParses(t: u16, apex: Name)
    requires ValidName(apex)
    ensures RefSigner(TypeSig(t, apex)) == Some(apex)
  {
    ParsesBack(apex, []);
    assert WireBytes(apex) + [] == WireBytes(apex);
    assert TypeSig(t, apex)[2..] == Token(apex);
  }

  lemma AnswerSection(q: Name, t: u16, d: Rdata, apex: Name, n: Nsec)
    requires t != RecordTypes.RRSIG
    ensures var msg := ExpandedMessage(q, t, d, apex, n);
      && OwnedRdatas(msg.answers, q, t) == [d] && AnsweredType(msg, q, t) == Some(t)
  {
    var a := ExpandedMessage(q, t, d, apex, n).answers;
    assert a[1..][1..] == [] && a[1..][0] == a[1];
    assert OwnedRdatas(a[1..], q, t) == OwnedRdatas(a[1..][1..], q, t) == [];
    assert Messages.Owned(a[0], q, t);
  }

  lemma ExpansionSigned(w: World, net: Net, q: Name, t: u16, d: Rdata, apex: Name, n: Nsec)
    requires Follows(w, net) && ValidName(apex) && InZone(q, apex) && t != RecordTypes.RRSIG
    ensures SigningZone(w, ExpandedMessage(q, t, d, apex, n), q) == Some(apex)
  {
    hide RefValidates;
    var a := ExpandedMessage(q, t, d, apex, n).answers;
    SigParses(t, apex);
    assert a[1..][0] == a[1];
    assert SignerOf(w, a[0]) == None && SignerOf(w, a[1]) == Some(apex);
    assert AnswerZone(w, a[1..], q) == Some(apex);
  }

  /** The expanded set validates as an expansion. */
  lemma ExpansionValidates(w: World, net: Net, a: Name, s: Name, q: Name, t: u16, d: Rdata, sigs: seq<Bytes>)
    requires WellSigned(w.hash, net) && Follows(w, net) && a in net && HonestZone(w.hash, a, net[a]) && Offered(net[a], s, q, t, d)
    ensures w.validateRrset(q, t, [d], sigs, net[a].keys) == Some(true)
  {
    hide WellSigned;
    hide HonestChain;
    hide HonestNsecChain;
    hide ValidName;
    VerdictIsZones(w.hash, net, a, q, t, [d]);
    assert !Standing(net, q, t, [d], net[a].keys, a);
    assert ExpandedAnswer(net[a], q, t, [d], |q| - |s|);
    assert ByExpansion(net, q, t, [d], net[a].keys, a);
  }

  /** A record of the chain, delivered as it stands. */
  lemma PlainValidates(w: World, net: Net, a: Name, k: nat, sigs: seq<Bytes>)
    requires WellSigned(w.hash, net) && Follows(w, net) && a in net && NsecSigned(net[a]) && HonestZone(w.hash, a, net[a])
    requires k < |net[a].nsecs| && NsecsPublished(net[a]) && FoldNsec(net[a].nsecs[k]) == net[a].nsecs[k]
    ensures var n := net[a].nsecs[k];
            w.validateRrset(n.owner, RecordTypes.NSEC, [Unknown(NsecData(n))], sigs, net[a].keys) == Some(false)
  {
    hide WellSigned;
    hide HonestNsecChain;
    hide HonestChain;
    hide NsecData;
    var n := net[a].nsecs[k];
    PublishedData(w.hash, a, net[a], k);
    VerdictIsZones(w.hash, net, a, n.owner, RecordTypes.NSEC, [Unknown(NsecData(n))]);
  }

  lemma OnlyPlain(w: World, rcode: nat, owner: Name, d: Bytes, sig: Bytes, msg: Message, keys: seq<Bytes>)
    requires SigCovers(Record(owner, RecordTypes.RRSIG, 3600, Unknown(sig)), RecordTypes.NSEC)
    requires msg.authority == NsecMessage(rcode, owner, d, sig).authority
    requires w.validateRrset(owner, RecordTypes.NSEC, [Unknown(d)], [sig], keys) == Some(false)
    ensures NoExpandedNsec(w, msg, keys)
  {
    MessageSets(rcode, owner, d, sig);
  }

  lemma OfferedIsSecure(w: World, h: Hasher, plans: map<Name, Plan>, a: Name, s: Name, q: Name, t: u16, d: Rdata)
      returns (msg: Message)
    requires Followed(w, h, plans, a) && Offered(NetOf(h, plans)[a], s, q, t, d) && Above(a, q)
    ensures SecureExpansion(w, NetOf(h, plans)[a], q, t, msg) && NoExpandedNsec(w, msg, NetOf(h, plans)[a].keys)
    ensures OwnedRdatas(msg.answers, q, t) == [d]
  {
    hide HonestNet.Honest;
    hide Walk;
    hide ValidName;
    hide Family;
    hide Follows;
    hide WellSigned;
    hide SignedBy;
    hide HonestZone;
    hide NsecsPublished;
    hide NsecSigned;
    hide SecureExpansion;
    hide OwnedRdatas;
    var net := NetOf(h, plans);
    FollowedZone(w, h, plans, a);
    ZoneParts(h, plans, a);
    msg := OfferedInZone(w, net, a, s, q, t, d);
  }

  lemma OfferedInZone(w: World, net: Net, a: Name, s: Name, q: Name, t: u16, d: Rdata) returns (msg: Message)
    requires WellSigned(w.hash, net) && Follows(w, net) && a in net && NsecSigned(net[a]) && HonestZone(w.hash, a, net[a])
    requires NsecsPublished(net[a]) && net[a].nsecs != [] && Walk(w, a) == Trusted(net[a].keys) && ValidName(a) && Fold(a) == a
    requires net[a].data.Valid() && net[a].data.apex == a && Offered(net[a], s, q, t, d) && Above(a, q)
    ensures SecureExpansion(w, net[a], q, t, msg) && NoExpandedNsec(w, msg, net[a].keys) && OwnedRdatas(msg.answers, q, t) == [d]
  {
    hide Walk;
    hide ValidName;
    hide Follows;
    hide WellSigned;
    hide HonestZone;
    hide NsecsPublished;
    hide NsecSigned;
    hide NsecCovers;
    hide SecureExpansion;
    hide NoExpandedNsec;
    hide OwnedRdatas;
    hide AnsweredType;
    hide SigningZone;
    hide Nsecs;
    hide SigsOf;
    hide Above;
    hide InZone;
    hide Fold;
    hide StrictlyBelow;
    hide NsecMessage;
    hide TypeSig;
    hide NsecData;
    hide Token;
    var k := GapCovers(net[a], q);
    var n := net[a].nsecs[k];
    msg := ExpandedMessage(q, t, d, a, n);
    UnderIsInside(net[a].data, q);
    AnswerSection(q, t, d, a, n);
    ExpansionSigned(w, net, q, t, d, a, n);
    ExpansionValidates(w, net, a, s, q, t, d, SigsOf(msg.answers, t));
    PlainValidates(w, net, a, k, [NSEC_SIG + Token(a)]);
    PlainCollected(w, net, a, k, msg);
    assert [n][0] == n;
    assert AnyNsecCovers(Nsecs(w, msg, net[a].keys), q);
    ExpansionJudged(w, net[a], a, q, t, msg);
  }

  lemma ZoneParts(h: Hasher, plans: map<Name, Plan>, a: Name)
    requires Family(h, plans) && a in plans
    ensures HonestZone(h, a, NetOf(h, plans)[a]) && NsecsPublished(NetOf(h, plans)[a])
  {
    hide HonestZone;
    hide NsecsPublished;
    hide HonestNsecChain;
    assert SignedBy(h, a, plans[a], NetOf(h, plans)[a]);
  }

  lemma GapCovers(z: SignedZone, q: Name) returns (k: nat)
    requires NsecSigned(z) && z.nsecs != [] && !Owner(z.data, q) && Fold(q) == q
    ensures k < |z.nsecs| && NsecCovers(z.nsecs[k].owner, z.nsecs[k].next, q) && FoldNsec(z.nsecs[k]) == z.nsecs[k]
  {
    hide HonestNsecChain;
    hide NsecCovers;
    NonexistenceComplete(z.data, z.nsecs, q);
    k :| 0 <= k < |z.nsecs| && NsecCovers(z.nsecs[k].owner, z.nsecs[k].next, q);
    FoldedRecord(z.data, z.nsecs, z.nsecs[k]);
  }

  lemma PlainCollected(w: World, net: Net, a: Name, k: nat, msg: Message)
    requires WellSigned(w.hash, net) && Follows(w, net) && a in net && NsecSigned(net[a]) && ValidName(a)
    requires k < |net[a].nsecs| && FoldNsec(net[a].nsecs[k]) == net[a].nsecs[k]
    requires var n := net[a].nsecs[k];
      && msg.authority == NsecMessage(0, n.owner, NsecData(n), NSEC_SIG + Token(a)).authority
      && w.validateRrset(n.owner, RecordTypes.NSEC, [Unknown(NsecData(n))], [NSEC_SIG + Token(a)], net[a].keys) == Some(false)
    ensures Nsecs(w, msg, net[a].keys) == [net[a].nsecs[k]] && NoExpandedNsec(w, msg, net[a].keys)
  {
    hide WellSigned;
    hide Follows;
    hide NsecSigned;
    hide NsecData;
    hide Presented;
    var n, sig := net[a].nsecs[k], NSEC_SIG + Token(a);
    PresentsItself(net[a].nsecs, k);
    RecordRelayed(w, net, a, n);
    MessageRecords(w, net[a], a, 0, n, NsecData(n), sig);
    SameAuthority(w, msg, NsecMessage(0, n.owner, NsecData(n), sig), net[a].keys, |msg.authority|);
    OnlyPlain(w, 0, n.owner, NsecData(n), sig, msg, net[a].keys);
  }

  lemma ExpansionJudged(w: World, z: SignedZone, a: Name, q: Name, t: u16, msg: Message)
    requires Walk(w, a) == Trusted(z.keys) && Fold(a) == a && z.data.apex == a && ValidName(q)
    requires SigningZone(w, msg, q) == Some(a) && AnsweredType(msg, q, t) == Some(t)
    requires AnswerCheck(w, msg, q, t, z.keys) == Some(true) && AnyNsecCovers(Nsecs(w, msg, z.keys), q)
    ensures SecureExpansion(w, z, q, t, msg)
  {
    hide Walk;
    hide SigningZone;
    hide AnsweredType;
    hide AnswerCheck;
    hide ValidName;
    hide AnyNsecCovers;
    assert NoExactMatch(w, msg, q, a, z.keys);
  }

  /**
   Every secure expanded answer of a zone signed with NSEC is the answer if and only if every wildcard
   is the answer for all the names below its parent that own nothing.
   */
  lemma ExpansionsTrueIff(w: World, h: Hasher, plans: map<Name, Plan>, tree: Tree, a: Name)
    requires Followed(w, h, plans, a) && !WildcardName(a)
    ensures var z := NetOf(h, plans)[a];
            (forall q, t, msg :: !FalseExpansion(w, tree, z, q, t, msg)) <==> ExpandsRight(tree, z)
  {
    hide TrueAnswer;
    hide FalseExpansion;
    hide Family;
    hide Follows;
    hide Walk;
    hide SignedBy;
    hide ExpandsRight;
    var z := NetOf(h, plans)[a];
    if ExpandsRight(tree, z) {
      forall q, t, msg ensures !FalseExpansion(w, tree, z, q, t, msg) {
        ExpansionIsTrue(w, h, plans, tree, a, q, t, msg);
      }
    } else {
      ExpansionIsFalse(w, h, plans, tree, a);
    }
  }

  lemma ExpansionIsTrue(w: World, h: Hasher, plans: map<Name, Plan>, tree: Tree, a: Name, q: Name, t: u16, msg: Message)
    requires Followed(w, h, plans, a) && ExpandsRight(tree, NetOf(h, plans)[a])
    ensures !FalseExpansion(w, tree, NetOf(h, plans)[a], q, t, msg)
  {
    hide HonestNet.Honest;
    hide Walk;
    hide WellSigned;
    hide NsecSigned;
    hide Follows;
    hide Family;
    hide TrueAnswer;
    hide ExpandsRight;
    var net := NetOf(h, plans);
    FollowedZone(w, h, plans, a);
    if SecureExpansion(w, net[a], q, t, msg) && NoExpandedNsec(w, msg, net[a].keys) && Plain(t) {
      var s := ExpansionRests(w, net, a, q, t, msg);
      AnsweredHasData(msg, q, t);
      ValidFold(q);
      FoldIdempotent(q);
      RightOnes(tree, net[a], s, Fold(q), t, OwnedRdatas(msg.answers, q, t));
    }
  }

  lemma ExpansionIsFalse(w: World, h: Hasher, plans: map<Name, Plan>, tree: Tree, a: Name)
    requires Followed(w, h, plans, a) && !WildcardName(a) && !ExpandsRight(tree, NetOf(h, plans)[a])
    ensures exists q, t, msg :: FalseExpansion(w, tree, NetOf(h, plans)[a], q, t, msg)
  {
    hide HonestNet.Honest;
    hide Walk;
    hide WellSigned;
    hide NsecSigned;
    hide Follows;
    hide Family;
    hide TrueAnswer;
    hide SecureExpansion;
    hide HonestZone;
    hide NsecsPublished;
    var z := NetOf(h, plans)[a];
    FollowedZone(w, h, plans, a);
    ZoneParts(h, plans, a);
    var s, q, t, d :| Offered(z, s, q, t, d) && !TrueAnswer(tree, z, q, t, [d]);
    OfferedBelow(h, a, z, s, q, t, d);
    var msg := OfferedIsSecure(w, h, plans, a, s, q, t, d);
    assert FalseExpansion(w, tree, z, q, t, msg);
  }

  lemma OfferedBelow(h: Hasher, a: Name, z: SignedZone, s: Name, q: Name, t: u16, d: Rdata)
    requires HonestZone(h, a, z) && Offered(z, s, q, t, d) && !WildcardName(a)
    ensures Above(a, q)
  {
    hide HonestChain;
    hide HonestNsecChain;
    assert Owner(z.data, [STAR] + s);
    WildcardPlace(z.data, s);
    AboveTransitive(a, s, q);
  }
}
