/**
 What a verdict says about the signed zones themselves, when only their owners can sign. The
 network stays arbitrary: `fetch` may answer anything.
 */
module HonestNet {
  import opened Prelude
  import opened Names
  import opened Denial
  import opened Messages
  import opened ChainOfTrust
  import opened Verdicts
  import opened Zones
  import opened DenialProofs
  import opened NsecProofs
  import opened NsecLookup
  import opened ExpandedDenial
  import opened ZoneTree
  import RecordTypes
  import TypeBitmap

  /** A signed zone: its content and record data, its keys, and the denial chain it published. */
  datatype SignedZone = SignedZone(data: Zone, published: map<(Name, u16), set<Rdata>>, keys: seq<Bytes>,
                                   params: Params, chain: seq<Nsec3>, nsecs: seq<Nsec>)

  type Net = map<Name, SignedZone>

  ghost predicate HonestZone(h: Hasher, apex: Name, z: SignedZone) {
    && z.data.Valid() && z.data.apex == apex
    && (forall n, t :: (n, t) in z.published <==> n in z.data.types && t in z.data.types[n])
    && (z.chain != [] ==> HonestChain(z.data, h, z.params, z.chain))
    && (z.nsecs != [] ==> HonestNsecChain(z.data, z.nsecs))
  }

  ghost predicate Nsec3Genuine(w: World, z: SignedZone, owner: Name, rdatas: seq<Rdata>, sigs: seq<Bytes>) {
    w.validateRrset(owner, RecordTypes.NSEC3, rdatas, sigs, z.keys).Some? ==>
      forall d: Bytes :: Unknown(d) in rdatas && ParseNsec3(owner, d).Some? ==> ParseNsec3(owner, d).value in z.chain
  }

  /** A set validated as it stands is the zone's; one validated as an expansion is that of a wildcard above. */
  ghost predicate NsecGenuine(w: World, z: SignedZone, owner: Name, rdatas: seq<Rdata>, sigs: seq<Bytes>) {
    match w.validateRrset(owner, RecordTypes.NSEC, rdatas, sigs, z.keys)
    case None => true
    case Some(false) =>
      forall d: Bytes :: Unknown(d) in rdatas && ParseNsec(w, owner, d).Some? ==> FoldNsec(ParseNsec(w, owner, d).value) in z.nsecs
    case Some(true) => exists i :: ExpandedGenuine(w, z, owner, rdatas, i)
  }

  ghost predicate ExpandedGenuine(w: World, z: SignedZone, owner: Name, rdatas: seq<Rdata>, i: nat) {
    1 <= i <= |owner| &&
    forall d: Bytes :: Unknown(d) in rdatas && ParseNsec(w, owner, d).Some? ==> ExpandedAt(z.nsecs, ParseNsec(w, owner, d).value, i)
  }

  ghost predicate PublishedAt(z: SignedZone, n: Name, t: u16, rdatas: seq<Rdata>) {
    (n, t) in z.published && forall d :: d in rdatas ==> d in z.published[(n, t)]
  }

  /** The hashed owners of NSEC3 records are not names of the zone. */
  ghost predicate AnswerGenuine(w: World, z: SignedZone, owner: Name, t: u16, rdatas: seq<Rdata>, sigs: seq<Bytes>) {
    t == RecordTypes.NSEC3 ||
    match w.validateRrset(owner, t, rdatas, sigs, z.keys)
    case None => true
    case Some(false) => PublishedAt(z, Fold(owner), t, rdatas)
    case Some(true) => exists i :: ExpandedAnswer(z, owner, t, rdatas, i)
  }

  ghost predicate ExpandedAnswer(z: SignedZone, owner: Name, t: u16, rdatas: seq<Rdata>, i: nat) {
    1 <= i <= |owner| && PublishedAt(z, [STAR] + Fold(owner)[i..], t, rdatas)
  }

  /** A zone's keys validate only what that zone published; DS sets and the anchor commit to the true keys. */
  ghost predicate Unforgeable(w: World, net: Net) {
    && (forall keys :: Anchored(w, keys) ==> [] in net && net[[]].keys == keys)
    && (forall z, child, keys {:trigger SignedCut(w, child, net[z].keys, keys)} ::
          z in net && SignedCut(w, child, net[z].keys, keys) ==> child in net && net[child].keys == keys)
    && (forall z, owner, rdatas, sigs :: z in net ==> Nsec3Genuine(w, net[z], owner, rdatas, sigs))
    && (forall z, owner, rdatas, sigs :: z in net ==> NsecGenuine(w, net[z], owner, rdatas, sigs))
    && (forall z, owner, t, rdatas, sigs :: z in net ==> AnswerGenuine(w, net[z], owner, t, rdatas, sigs))
  }

  ghost predicate Honest(w: World, net: Net) {
    Unforgeable(w, net) && forall z :: z in net ==> HonestZone(w.hash, z, net[z])
  }

  /** Chained keys are the true keys of some zone at or above. */
  lemma {:induction false} ChainedIsGenuine(w: World, net: Net, zone: Name, keys: seq<Bytes>) returns (z: Name)
    requires Unforgeable(w, net) && Chained(w, zone, keys)
    ensures z in net && net[z].keys == keys && Above(z, zone)
  {
    if zone == [] {
      z := [];
    } else {
      var parent :| Chained(w, zone[1..], parent) && (keys == parent || SignedCut(w, zone, parent, keys));
      z := ChainedIsGenuine(w, net, zone[1..], parent);
      if keys == parent {
        assert zone[1..][|zone| - 1 - |z|..] == zone[|zone| - |z|..];
      } else {
        assert SignedCut(w, zone, net[z].keys, keys);
        z := zone;
        assert zone[0..] == zone;
      }
    }
  }

  lemma TrustedIsGenuine(w: World, net: Net, zone: Name) returns (z: Name)
    requires Unforgeable(w, net) && Walk(w, zone).Trusted?
    ensures z in net && net[z].keys == Walk(w, zone).keys && Above(z, zone)
  {
    SecureIsEarned(w, zone);
    z := ChainedIsGenuine(w, net, zone, Walk(w, zone).keys);
  }

  // ---- collected records are the zone's own ----

  lemma CollectedNsec3(w: World, net: Net, z: Name, msg: Message, n: Nsec3)
    requires Unforgeable(w, net) && z in net && n in Nsec3s(w, msg, net[z].keys)
    ensures n in net[z].chain
  {
    var keys := net[z].keys;
    var i :| 0 <= i < |msg.authority| && Nsec3At(w, msg, keys, msg.authority[i]) == Some(n);
    var r := msg.authority[i];
    var rdatas := OwnedRdatas(msg.authority, r.name, RecordTypes.NSEC3);
    assert Owned(r, r.name, RecordTypes.NSEC3);
    assert Nsec3Genuine(w, net[z], r.name, rdatas, OwnedSigs(msg.authority, r.name, RecordTypes.NSEC3));
    assert Unknown(r.rdata.data) in rdatas;
  }

  /** No NSEC RRset of the message validates as a wildcard expansion. */
  ghost predicate NoExpandedNsec(w: World, msg: Message, keys: seq<Bytes>) {
    forall i :: 0 <= i < |msg.authority| && msg.authority[i].rtype == RecordTypes.NSEC ==>
      w.validateRrset(msg.authority[i].name, RecordTypes.NSEC,
                      OwnedRdatas(msg.authority, msg.authority[i].name, RecordTypes.NSEC),
                      OwnedSigs(msg.authority, msg.authority[i].name, RecordTypes.NSEC), keys) != Some(true)
  }

  /** The message has no expanded NSEC set, or the zone has no wildcard to expand. */
  ghost predicate Direct(w: World, msg: Message, z: SignedZone) {
    NoExpandedNsec(w, msg, z.keys) || NoWildcard(z.nsecs)
  }

  lemma CollectedNsec(w: World, net: Net, z: Name, msg: Message, n: Nsec)
    requires Unforgeable(w, net) && z in net && n in Nsecs(w, msg, net[z].keys)
    ensures Presented(net[z].nsecs, n)
    ensures NoExpandedNsec(w, msg, net[z].keys) ==> FoldNsec(n) in net[z].nsecs
  {
    var keys := net[z].keys;
    var k :| 0 <= k < |msg.authority| && NsecAt(w, msg, keys, msg.authority[k]) == Some(n);
    var r := msg.authority[k];
    var rdatas := OwnedRdatas(msg.authority, r.name, RecordTypes.NSEC);
    var sigs := OwnedSigs(msg.authority, r.name, RecordTypes.NSEC);
    assert Owned(r, r.name, RecordTypes.NSEC);
    assert Unknown(r.rdata.data) in rdatas;
    assert NsecGenuine(w, net[z], r.name, rdatas, sigs);
    var check := w.validateRrset(r.name, RecordTypes.NSEC, rdatas, sigs, keys);
    if check.value {
      assert check == Some(true);
      var i :| ExpandedGenuine(w, net[z], r.name, rdatas, i);
      assert ExpandedAt(net[z].nsecs, n, i);
    } else {
      assert check == Some(false);
    }
  }

  lemma CollectedNsecs(w: World, net: Net, z: Name, msg: Message)
    requires Unforgeable(w, net) && z in net
    ensures AllPresented(net[z].nsecs, Nsecs(w, msg, net[z].keys))
    ensures Direct(w, msg, net[z]) ==> NsecShown(Nsecs(w, msg, net[z].keys), net[z].nsecs)
  {
    var nsecs := Nsecs(w, msg, net[z].keys);
    forall n | n in nsecs ensures Presented(net[z].nsecs, n) {
      CollectedNsec(w, net, z, msg, n);
    }
    if NoExpandedNsec(w, msg, net[z].keys) {
      forall n | n in nsecs ensures FoldNsec(n) in net[z].nsecs {
        CollectedNsec(w, net, z, msg, n);
      }
    } else if NoWildcard(net[z].nsecs) {
      PresentedIsShown(net[z].nsecs, nsecs);
    }
  }

  lemma CollectedShown(w: World, net: Net, z: Name, msg: Message)
    requires Honest(w, net) && z in net
    ensures Shown(Nsec3s(w, msg, net[z].keys), net[z].chain)
    ensures Direct(w, msg, net[z]) ==> NsecShown(Nsecs(w, msg, net[z].keys), net[z].nsecs)
    ensures net[z].data.Valid() && net[z].data.apex == z
    ensures Nsec3s(w, msg, net[z].keys) != [] ==> HonestChain(net[z].data, w.hash, net[z].params, net[z].chain)
    ensures Nsecs(w, msg, net[z].keys) != [] ==> HonestNsecChain(net[z].data, net[z].nsecs)
  {
    hide HonestChain;
    hide HonestNsecChain;
    assert HonestZone(w.hash, z, net[z]);
    forall n | n in Nsec3s(w, msg, net[z].keys) ensures n in net[z].chain {
      CollectedNsec3(w, net, z, msg, n);
    }
    CollectedNsecs(w, net, z, msg);
    if Nsec3s(w, msg, net[z].keys) != [] {
      assert Nsec3s(w, msg, net[z].keys)[0] in net[z].chain;
    }
    if Nsecs(w, msg, net[z].keys) != [] {
      SomeNsec(w, net, z, msg);
    }
  }

  lemma SomeNsec(w: World, net: Net, z: Name, msg: Message)
    requires Unforgeable(w, net) && z in net && Nsecs(w, msg, net[z].keys) != []
    ensures net[z].nsecs != []
  {
    var n := Nsecs(w, msg, net[z].keys)[0];
    CollectedNsec(w, net, z, msg, n);
    if FoldNsec(n) !in net[z].nsecs {
      var i :| ExpandedAt(net[z].nsecs, n, i);
    }
  }

  // ---- the zone a name belongs to ----

  /** The signed zones are zones of the tree. */
  ghost predicate Planted(net: Net, tree: Tree) {
    Grown(tree) && forall a :: a in net ==> a in tree && tree[a] == net[a].data
  }

  /** A record at the queried name, or above it, that speaks for the side of the cut asked about. */
  predicate Speaks(bitmap: seq<byte>, here: bool, t: u16) {
    if here && t == RecordTypes.DS then !TypeBitmap.Has(bitmap, RecordTypes.SOA) else !DelegationBits(bitmap)
  }

  /** Section 4.1 of RFC 6840: no denial record at or above the name is that of a delegation, save for its DS. */
  ghost predicate OwnSide(w: World, msg: Message, q: Name, t: u16, keys: seq<Bytes>) {
    && (forall n :: n in Nsecs(w, msg, keys) && Above(Fold(n.owner), Fold(q)) ==> Speaks(n.bitmap, SameName(n.owner, q), t))
    && HashSpeaks(w.hash, Nsec3s(w, msg, keys), q, t)
  }

  ghost predicate HashSpeaks(h: Hasher, recs: seq<Nsec3>, q: Name, t: u16) {
    forall r, i :: r in recs && 0 <= i <= |q| && r.Matches(h, q[i..]) ==> Speaks(r.bitmap, i == 0, t)
  }

  /** An opted-out delegation of the zone at or above the name. */
  ghost predicate Hidden(z: Zone, n: Name) {
    exists c :: c in z.optedOut && Above(c, n)
  }

  lemma PlantedZone(net: Net, tree: Tree, z: Name)
    requires Planted(net, tree) && z in net
    ensures Grown(tree) && z in tree && tree[z] == net[z].data && Tidy(net[z].data)
  {
  }

  lemma OwnAndUnlisted(tree: Tree, a: Name, m: Name)
    requires Grown(tree) && a in tree && Above(a, m) && Authoritative(tree[a], m) && !Owner(tree[a], m)
    ensures !Lives(tree, m)
  {
    hide Grown;
    if t :| Holds(tree, m, t) {
      var c := HiddenBelowCut(tree, a, m, t);
    }
  }

  lemma NsecSpeaksForZone(z: Zone, nsecs: seq<Nsec>, shown: seq<Nsec>, n: Nsec, q: Name, t: u16)
    requires z.Valid() && Tidy(z) && HonestNsecChain(z, nsecs) && NsecShown(shown, nsecs)
    requires n in shown && NsecCovers(n.owner, n.next, q)
    requires Above(Fold(n.owner), Fold(q)) ==> Speaks(n.bitmap, SameName(n.owner, q), t)
    ensures Authoritative(z, Fold(q)) && !Owner(z, Fold(q))
  {
    hide HonestNsecChain;
    hide Tidy;
    hide NsecCovers;
    hide DelegationBits;
    var k :| 0 <= k < |shown| && shown[k] == n;
    NonexistenceSound(z, nsecs, shown, q);
    var j :| 0 <= j < |nsecs| && nsecs[j] == FoldNsec(n);
    RecordAtIndex(z, nsecs, j);
    CoverMeansOwn(z, nsecs, n, q);
  }

  /** A no-exact-match proof that speaks for the name's side: nothing is there, or an opted-out delegation is above. */
  lemma AbsenceInTree(w: World, net: Net, tree: Tree, z: Name, q: Name, t: u16, msg: Message, zone: Name)
    requires Honest(w, net) && z in net && Above(z, Fold(zone)) && ValidName(q) && InZone(q, zone) && Planted(net, tree)
    requires NoQueryCollision(net[z].data, w.hash, net[z].params, Fold(q))
    requires Direct(w, msg, net[z]) && NoExactMatch(w, msg, q, zone, net[z].keys) && OwnSide(w, msg, q, t, net[z].keys)
    ensures Lives(tree, Fold(q)) ==> Hidden(net[z].data, Fold(q))
    ensures Deepest(tree.Keys, Fold(q)) == z || Hidden(net[z].data, Fold(q))
  {
    hide HonestChain;
    hide HonestNsecChain;
    hide Grown;
    hide Tidy;
    hide Lives;
    CollectedShown(w, net, z, msg);
    PlantedZone(net, tree, z);
    QueryUnder(w, net, z, q, zone);
    var nsecs, recs := Nsecs(w, msg, net[z].keys), Nsec3s(w, msg, net[z].keys);
    if AnyNsecCovers(nsecs, q) {
      var k :| 0 <= k < |nsecs| && NsecCovers(nsecs[k].owner, nsecs[k].next, q);
      NsecSpeaksForZone(net[z].data, net[z].nsecs, nsecs, nsecs[k], q, t);
      OwnAndUnlisted(tree, z, Fold(q));
      AuthoritativeIsDeepest(tree, z, Fold(q));
    } else {
      HashedAbsenceInTree(net[z].data, w.hash, net[z].params, net[z].chain, recs, tree, q, t, zone);
    }
  }

  lemma QueryUnder(w: World, net: Net, z: Name, q: Name, zone: Name)
    requires Honest(w, net) && z in net && Above(z, Fold(zone)) && InZone(q, zone)
    ensures net[z].data.Valid() && net[z].data.apex == z && InZone(zone, z) && InZone(q, z) && Above(z, Fold(q))
  {
    hide HonestChain;
    hide HonestNsecChain;
    hide Unforgeable;
    assert HonestZone(w.hash, z, net[z]);
    FoldedApex(net[z].data);
    hide InZone;
    hide Fold;
    hide Above;
    ZoneAboveQuery(z, zone);
    QueryInZone(q, zone, z);
    InsideIsBelow(q, z);
  }

  lemma InsideIsBelow(q: Name, z: Name)
    requires InZone(q, z) && Fold(z) == z
    ensures Above(z, Fold(q))
  {
  }

  lemma HashedAbsenceInTree(z: Zone, h: Hasher, p: Params, chain: seq<Nsec3>, recs: seq<Nsec3>, tree: Tree,
                            q: Name, t: u16, zone: Name)
    requires z.Valid() && Tidy(z) && HonestChain(z, h, p, chain) && Shown(recs, chain) && ValidName(q) && InZone(zone, z.apex)
    requires NoQueryCollision(z, h, p, Fold(q)) && Nsec3NameAbsent(h, recs, q, zone)
    requires HashSpeaks(h, recs, q, t)
    requires Grown(tree) && z.apex in tree && tree[z.apex] == z && Above(z.apex, Fold(q))
    ensures Lives(tree, Fold(q)) ==> Hidden(z, Fold(q))
    ensures Deepest(tree.Keys, Fold(q)) == z.apex || Hidden(z, Fold(q))
  {
    hide HonestChain;
    hide Grown;
    hide Tidy;
    hide Lives;
    hide DelegationBits;
    hide HashSpeaks;
    hide NoCollision;
    hide ValidName;
    var i: nat :| ClosestMatch(h, recs, q, zone, i) && DeniesNextCloser(h, recs, q, i);
    NameAbsentSound(z, h, p, chain, recs, q, zone);
    SpeaksAbove(h, recs, q, t, i);
    HashCoverMeansOwn(z, h, p, chain, recs, q, zone, i);
    AboveSuffix(Fold(q), i - 1);
    if Authoritative(z, Fold(q)) {
      OwnOrHidden(tree, z.apex, Fold(q));
    }
  }

  lemma SpeaksAbove(h: Hasher, recs: seq<Nsec3>, q: Name, t: u16, i: nat)
    requires HashSpeaks(h, recs, q, t) && 1 <= i <= |q|
    ensures forall r :: r in recs && r.Matches(h, q[i..]) ==> !DelegationBits(r.bitmap)
  {
  }

  lemma OwnOrHidden(tree: Tree, a: Name, m: Name)
    requires Grown(tree) && a in tree && Above(a, m) && Authoritative(tree[a], m)
    requires m in tree[a].types ==> m in tree[a].optedOut
    ensures (Lives(tree, m) ==> Hidden(tree[a], m)) && Deepest(tree.Keys, m) == a
  {
    hide Grown;
    hide Lives;
    hide Authoritative;
    AboveItself(m);
    AuthoritativeIsDeepest(tree, a, m);
    if !Owner(tree[a], m) {
      OwnAndUnlisted(tree, a, m);
    }
  }

  /** The guard costs nothing: over a name's own zone every genuine record passes it. */
  lemma OwnRecordsSpeak(w: World, net: Net, tree: Tree, z: Name, q: Name, t: u16, msg: Message)
    requires Honest(w, net) && z in net && ValidName(q) && Planted(net, tree) && Direct(w, msg, net[z])
    requires NoQueryCollision(net[z].data, w.hash, net[z].params, Fold(q))
    requires Authoritative(net[z].data, Fold(q)) && (t != RecordTypes.DS || Fold(q) != z)
    ensures OwnSide(w, msg, q, t, net[z].keys)
  {
    hide HonestChain;
    hide HonestNsecChain;
    hide Honest;
    var nsecs, recs := Nsecs(w, msg, net[z].keys), Nsec3s(w, msg, net[z].keys);
    CollectedShown(w, net, z, msg);
    hide NsecShown;
    PlantedZone(net, tree, z);
    forall n | n in nsecs && Above(Fold(n.owner), Fold(q)) ensures Speaks(n.bitmap, SameName(n.owner, q), t) {
      ShownLists(net[z].data, net[z].nsecs, nsecs, n);
      ListedSpeaks(tree, z, Fold(n.owner), Fold(q), n.bitmap, t);
    }
    forall r, i | r in recs && 0 <= i <= |q| && r.Matches(w.hash, q[i..]) ensures Speaks(r.bitmap, i == 0, t) {
      HashedLists(net[z].data, w.hash, net[z].params, net[z].chain, r, q, i);
      AboveSuffix(Fold(q), i);
      ListedSpeaks(tree, z, Fold(q)[i..], Fold(q), r.bitmap, t);
    }
  }

  /** `bitmap` lists exactly the types of the name. */
  ghost predicate Lists(z: Zone, n: Name, bitmap: seq<byte>) {
    n in z.types && forall t: u16 :: TypeBitmap.Has(bitmap, t) <==> t in z.types[n]
  }

  lemma ShownLists(z: Zone, chain: seq<Nsec>, shown: seq<Nsec>, n: Nsec)
    requires HonestNsecChain(z, chain) && NsecShown(shown, chain) && n in shown
    ensures Lists(z, Fold(n.owner), n.bitmap)
  {
    hide HonestNsecChain;
    var k :| 0 <= k < |chain| && chain[k] == FoldNsec(n);
    RecordAtIndex(z, chain, k);
  }

  lemma HashedLists(z: Zone, h: Hasher, p: Params, chain: seq<Nsec3>, r: Nsec3, q: Name, i: nat)
    requires HonestChain(z, h, p, chain) && r in chain && ValidName(q) && i <= |q| && r.Matches(h, q[i..])
    requires NoCollision(z, h, p, Fold(q)[i..])
    ensures Lists(z, Fold(q)[i..], r.bitmap)
  {
    ValidSuffix(q, i);
    FoldSuffix(q, i);
    MatchMeansSigned(z, h, p, chain, r, q[i..]);
    forall u: u16 ensures TypeBitmap.Has(r.bitmap, u) <==> u in z.types[Fold(q)[i..]] {
      assert r.Lists(u) <==> u in z.types[Fold(q)[i..]];
    }
  }

  lemma ListedSpeaks(tree: Tree, a: Name, n: Name, q: Name, bitmap: seq<byte>, t: u16)
    requires Grown(tree) && a in tree && Lists(tree[a], n, bitmap) && Above(n, q) && Authoritative(tree[a], q)
    requires t != RecordTypes.DS || q != a
    ensures Speaks(bitmap, n == q, t)
  {
  }

  // ---- the theorems ----

  /** `q` is judged under the keys `keys` of `zone`. */
  ghost predicate JudgedUnder(w: World, q: Name, msg: Message, zone: Name, keys: seq<Bytes>) {
    SigningZone(w, msg, q) == Some(zone) && Walk(w, Fold(zone)) == Trusted(keys)
  }

  lemma ZoneAboveQuery(z: Name, zone: Name)
    requires Above(z, Fold(zone)) && Fold(z) == z
    ensures InZone(zone, z)
  {
  }

  /** Only an opted-out delegation escapes an accepted no-exact-match proof. */
  lemma AbsenceIsTrue(w: World, net: Net, z: Name, q: Name, msg: Message, zone: Name)
    requires Honest(w, net) && z in net && Above(z, Fold(zone)) && ValidName(q)
    requires Direct(w, msg, net[z]) && NoExactMatch(w, msg, q, zone, net[z].keys)
    ensures Owner(net[z].data, Fold(q)) ==> Fold(q) in net[z].data.optedOut
  {
    hide HonestChain;
    hide HonestNsecChain;
    CollectedShown(w, net, z, msg);
    if AnyNsecCovers(Nsecs(w, msg, net[z].keys), q) {
      NonexistenceSound(net[z].data, net[z].nsecs, Nsecs(w, msg, net[z].keys), q);
    } else {
      FoldedApex(net[z].data);
      ZoneAboveQuery(z, zone);
      NameAbsentSound(net[z].data, w.hash, net[z].params, net[z].chain, Nsec3s(w, msg, net[z].keys), q, zone);
    }
  }

  lemma NxdomainImpliesAbsence(w: World, msg: Message, q: Name, zone: Name, keys: seq<Bytes>)
    requires NsecNxdomain(Nsecs(w, msg, keys), q, zone) || Nsec3Nxdomain(w.hash, Nsec3s(w, msg, keys), q, zone)
    ensures NoExactMatch(w, msg, q, zone, keys)
  {
    if !NsecNxdomain(Nsecs(w, msg, keys), q, zone) {
      var recs := Nsec3s(w, msg, keys);
      var i :| ClosestMatch(w.hash, recs, q, zone, i) && DeniesNextCloser(w.hash, recs, q, i) && DeniesWildcard(w.hash, recs, q, i);
      assert ClosestMatch(w.hash, recs, q, zone, i) && DeniesNextCloser(w.hash, recs, q, i);
    }
  }

  /**
   A secure NXDOMAIN: in the zone whose keys were used only an opted-out delegation can own records
   under the denied name; if the records speak for the name's side of every cut, the same is true
   of the zone the name belongs to.
   */
  lemma SecureNxdomainIsTrue(w: World, net: Net, tree: Tree, q: Name, t: u16, msg: Message, zone: Name, keys: seq<Bytes>)
      returns (z: Name)
    requires Honest(w, net) && ValidName(q) && JudgedUnder(w, q, msg, zone, keys)
    requires AnsweredType(msg, q, t).None? && msg.rcode == RecordTypes.NXDOMAIN
    requires Validated(w, q, t, msg).0 == Secure
    ensures z in net && net[z].keys == keys && Above(z, Fold(zone))
    ensures Direct(w, msg, net[z]) && Owner(net[z].data, Fold(q)) ==> Fold(q) in net[z].data.optedOut
    ensures AbsencePlaced(w, net, tree, z, msg, q, t)
  {
    hide Lives;
    hide Hidden;
    hide OwnSide;
    hide Planted;
    hide NoQueryCollision;
    z := TrustedIsGenuine(w, net, Fold(zone));
    assert DenialValid(w, msg, q, t, zone, keys);
    NxdomainImpliesAbsence(w, msg, q, zone, keys);
    if Direct(w, msg, net[z]) {
      AbsenceIsTrue(w, net, z, q, msg, zone);
      if Settled(w, net, tree, z, q, t, msg) {
        AbsenceInTree(w, net, tree, z, q, t, msg, zone);
      }
    }
  }

  /** The records speak for the name's side of every cut, and its hashes do not collide. */
  ghost predicate Settled(w: World, net: Net, tree: Tree, z: Name, q: Name, t: u16, msg: Message)
    requires z in net
  {
    && Planted(net, tree) && OwnSide(w, msg, q, t, net[z].keys)
    && NoQueryCollision(net[z].data, w.hash, net[z].params, Fold(q))
  }

  /**
   Where the proof is by NSEC3: lookup in that zone gives no such name, wildcards included, if and
   only if no opted-out delegation hides in the intervals used; if besides the records speak for the
   name's side of every cut, that is the zone the name belongs to.
   */
  lemma SecureNsec3NxdomainIsTrue(w: World, net: Net, tree: Tree, q: Name, t: u16, msg: Message, zone: Name, keys: seq<Bytes>)
      returns (z: Name, i: nat)
    requires Honest(w, net) && ValidName(q) && JudgedUnder(w, q, msg, zone, keys) && Nsecs(w, msg, keys) == []
    requires forall z :: z in net ==> NoQueryCollision(net[z].data, w.hash, net[z].params, Fold(q))
    requires AnsweredType(msg, q, t).None? && msg.rcode == RecordTypes.NXDOMAIN
    requires Validated(w, q, t, msg).0 == Secure
    ensures z in net && net[z].keys == keys && Above(z, Fold(zone))
    ensures ClosestMatch(w.hash, Nsec3s(w, msg, keys), q, zone, i)
    ensures (ClosestEncloser(net[z].data, Fold(q)) == Fold(q)[i..] && Lookup(net[z].data, Fold(q)) == NoSuchName)
            <==> NothingHidden(net[z].data, q, i)
    ensures (forall r :: r in Nsec3s(w, msg, keys) ==> !r.OptOut()) ==> NothingHidden(net[z].data, q, i)
    ensures Settled(w, net, tree, z, q, t, msg) && NothingHidden(net[z].data, q, i) ==>
      Deepest(tree.Keys, Fold(q)) == z && !Lives(tree, Fold(q))
  {
    hide HonestChain;
    hide Settled;
    hide Lives;
    z := TrustedIsGenuine(w, net, Fold(zone));
    assert DenialValid(w, msg, q, t, zone, keys);
    CollectedShown(w, net, z, msg);
    FoldedApex(net[z].data);
    ZoneAboveQuery(z, zone);
    var recs := Nsec3s(w, msg, keys);
    i := NxdomainSound(net[z].data, w.hash, net[z].params, net[z].chain, recs, q, zone);
    if forall r :: r in recs ==> !r.OptOut() {
      FlagClearMeansNothingHidden(net[z].data, w.hash, net[z].params, net[z].chain, recs, q, i);
    }
    if Settled(w, net, tree, z, q, t, msg) && NothingHidden(net[z].data, q, i) {
      UnhiddenInTree(w, net, tree, z, q, t, msg, zone, i);
    }
  }

  lemma UnhiddenInTree(w: World, net: Net, tree: Tree, z: Name, q: Name, t: u16, msg: Message, zone: Name, i: nat)
    requires Honest(w, net) && z in net && Above(z, Fold(zone)) && ValidName(q) && Settled(w, net, tree, z, q, t, msg)
    requires var recs := Nsec3s(w, msg, net[z].keys);
             ClosestMatch(w.hash, recs, q, zone, i) && DeniesNextCloser(w.hash, recs, q, i)
    requires Lookup(net[z].data, Fold(q)) == NoSuchName && Fold(q)[i - 1..] !in net[z].data.optedOut
    ensures Deepest(tree.Keys, Fold(q)) == z && !Lives(tree, Fold(q))
  {
    hide HonestChain;
    hide HonestNsecChain;
    hide Grown;
    hide Tidy;
    hide Lives;
    hide HashSpeaks;
    hide DelegationBits;
    hide NoCollision;
    hide Authoritative;
    var recs := Nsec3s(w, msg, net[z].keys);
    CollectedShown(w, net, z, msg);
    PlantedZone(net, tree, z);
    QueryUnder(w, net, z, q, zone);
    SpeaksAbove(w.hash, recs, q, t, i);
    HashCoverMeansOwn(net[z].data, w.hash, net[z].params, net[z].chain, recs, q, zone, i);
    AuthoritativeIsDeepest(tree, z, Fold(q));
    OwnAndUnlisted(tree, z, Fold(q));
  }

  lemma QueryInZone(q: Name, zone: Name, z: Name)
    requires InZone(q, zone) && InZone(zone, z)
    ensures InZone(q, z)
  {
    assert Fold(q)[|q| - |zone|..][|zone| - |z|..] == Fold(q)[|q| - |z|..];
  }

  /**
   Proven by NSEC alone: the covering record decides the closest encloser, and lookup gives no such
   name if and only if it shows nothing below the name and the wildcard there does not exist. If the
   records speak for the name's side of every cut, that is the zone the name belongs to.
   */
  lemma SecureNsecNxdomainIsTrue(w: World, net: Net, tree: Tree, q: Name, t: u16, msg: Message, zone: Name, keys: seq<Bytes>)
      returns (z: Name, n: Nsec)
    requires Honest(w, net) && ValidName(q) && JudgedUnder(w, q, msg, zone, keys) && Nsec3s(w, msg, keys) == []
    requires AnsweredType(msg, q, t).None? && msg.rcode == RecordTypes.NXDOMAIN
    requires Validated(w, q, t, msg).0 == Secure
    ensures z in net && net[z].keys == keys && Above(z, Fold(zone))
    ensures n in Nsecs(w, msg, keys) && NsecCovers(n.owner, n.next, q)
    ensures Direct(w, msg, net[z]) && Peopled(net[z].data) ==>
      (Lookup(net[z].data, Fold(q)) == NoSuchName <==>
         !Seen(FoldNsec(n), Fold(q)) && [STAR] + EncloserOf(FoldNsec(n), Fold(q)) !in net[z].data.types)
    ensures Direct(w, msg, net[z]) && Peopled(net[z].data) && Denied(Nsecs(w, msg, keys), q) ==>
      Lookup(net[z].data, Fold(q)) == NoSuchName
    ensures Direct(w, msg, net[z]) && Planted(net, tree) && OwnSide(w, msg, q, t, keys) ==>
      Deepest(tree.Keys, Fold(q)) == z && !Lives(tree, Fold(q))
  {
    hide Planted;
    hide OwnSide;
    hide Lives;
    hide HonestChain;
    hide HonestNsecChain;
    hide Peopled;
    hide Denied;
    hide NsecCovers;
    hide Seen;
    z := TrustedIsGenuine(w, net, Fold(zone));
    assert DenialValid(w, msg, q, t, zone, keys);
    CollectedShown(w, net, z, msg);
    var nsecs := Nsecs(w, msg, keys);
    var k :| 0 <= k < |nsecs| && NsecCovers(nsecs[k].owner, nsecs[k].next, q);
    n := nsecs[k];
    FoldedApex(net[z].data);
    ZoneAboveQuery(z, zone);
    QueryInZone(q, zone, z);
    if Direct(w, msg, net[z]) && Peopled(net[z].data) {
      LookupRead(net[z].data, net[z].nsecs, nsecs, n, q);
      if Denied(nsecs, q) {
        DeniedIsAbsent(net[z].data, net[z].nsecs, nsecs, q);
      }
    }
    if Direct(w, msg, net[z]) && Planted(net, tree) && OwnSide(w, msg, q, t, keys) {
      CoveredInTree(w, net, tree, z, q, t, msg, zone, n);
    }
  }

  lemma CoveredInTree(w: World, net: Net, tree: Tree, z: Name, q: Name, t: u16, msg: Message, zone: Name, n: Nsec)
    requires Honest(w, net) && z in net && Above(z, Fold(zone)) && InZone(q, zone)
    requires Direct(w, msg, net[z]) && Planted(net, tree) && OwnSide(w, msg, q, t, net[z].keys)
    requires n in Nsecs(w, msg, net[z].keys) && NsecCovers(n.owner, n.next, q)
    ensures Deepest(tree.Keys, Fold(q)) == z && !Lives(tree, Fold(q))
  {
    hide HonestChain;
    hide HonestNsecChain;
    hide Grown;
    hide Tidy;
    hide Lives;
    hide HashSpeaks;
    hide NsecCovers;
    hide Authoritative;
    CollectedShown(w, net, z, msg);
    PlantedZone(net, tree, z);
    QueryUnder(w, net, z, q, zone);
    NsecSpeaksForZone(net[z].data, net[z].nsecs, Nsecs(w, msg, net[z].keys), n, q, t);
    AuthoritativeIsDeepest(tree, z, Fold(q));
    OwnAndUnlisted(tree, z, Fold(q));
  }

  /**
   A secure NODATA: the name exists in the zone whose keys were used, without the type; if the record
   speaks for the right side of the cut, the type is nowhere at that name.
   */
  lemma SecureNodataIsTrue(w: World, net: Net, tree: Tree, q: Name, t: u16, msg: Message, zone: Name, keys: seq<Bytes>)
      returns (z: Name)
    requires Honest(w, net) && ValidName(q) && JudgedUnder(w, q, msg, zone, keys)
    requires forall z :: z in net ==> NoCollision(net[z].data, w.hash, net[z].params, Fold(q))
    requires AnsweredType(msg, q, t).None? && msg.rcode != RecordTypes.NXDOMAIN
    requires Validated(w, q, t, msg).0 == Secure
    ensures z in net && net[z].keys == keys && Above(z, Fold(zone))
    ensures Direct(w, msg, net[z]) ==> Fold(q) in net[z].data.types && t !in net[z].data.types[Fold(q)]
    ensures Direct(w, msg, net[z]) && Planted(net, tree) && OwnSide(w, msg, q, t, keys) ==> !Holds(tree, Fold(q), t)
  {
    hide HonestChain;
    hide HonestNsecChain;
    hide Planted;
    hide Holds;
    hide NsecProvesNodata;
    z := TrustedIsGenuine(w, net, Fold(zone));
    var nsecs, nsec3s := Nsecs(w, msg, keys), Nsec3s(w, msg, keys);
    CollectedShown(w, net, z, msg);
    assert DenialValid(w, msg, q, t, zone, keys);
    if Nsec3ProvesNodata(w.hash, nsec3s, q, t) {
      var r := HashedNodata(net[z].data, w.hash, net[z].params, net[z].chain, nsec3s, q, t);
      assert q[0..] == q;
      if Planted(net, tree) && OwnSide(w, msg, q, t, keys) {
        NodataInTree(net, tree, z, Fold(q), t, r.bitmap);
      }
    } else if Direct(w, msg, net[z]) {
      var k :| 0 <= k < |nsecs| && NsecProvesNodata(nsecs[k], q, t);
      assert nsecs[k] in nsecs;
      PlainNodata(net[z].data, net[z].nsecs, nsecs[k], q, t);
      AboveItself(Fold(q));
      if Planted(net, tree) && OwnSide(w, msg, q, t, keys) {
        NodataInTree(net, tree, z, Fold(q), t, nsecs[k].bitmap);
      }
    }
  }

  lemma HashedNodata(z: Zone, h: Hasher, p: Params, chain: seq<Nsec3>, recs: seq<Nsec3>, q: Name, t: u16) returns (r: Nsec3)
    requires HonestChain(z, h, p, chain) && Shown(recs, chain) && ValidName(q) && NoCollision(z, h, p, Fold(q))
    requires Nsec3ProvesNodata(h, recs, q, t)
    ensures r in recs && r.Matches(h, q) && Lists(z, Fold(q), r.bitmap) && t !in z.types[Fold(q)]
  {
    var k :| 0 <= k < |recs| && recs[k].Matches(h, q) && NoData(recs[k].bitmap, t);
    r := recs[k];
    assert q[0..] == q && Fold(q)[0..] == Fold(q);
    HashedLists(z, h, p, chain, r, q, 0);
  }

  lemma PlainNodata(z: Zone, chain: seq<Nsec>, n: Nsec, q: Name, t: u16)
    requires HonestNsecChain(z, chain) && FoldNsec(n) in chain && NsecProvesNodata(n, q, t)
    ensures SameName(n.owner, q) && Lists(z, Fold(q), n.bitmap) && t !in z.types[Fold(q)]
  {
    hide HonestNsecChain;
    MatchingNsec(z, chain, n, q);
  }

  lemma NodataInTree(net: Net, tree: Tree, z: Name, m: Name, t: u16, bitmap: seq<byte>)
    requires Planted(net, tree) && z in net && Lists(net[z].data, m, bitmap) && t !in net[z].data.types[m]
    requires Speaks(bitmap, true, t)
    ensures !Holds(tree, m, t)
  {
    hide Grown;
    hide Holds;
    PlantedZone(net, tree, z);
    UnlistedIsAbsent(tree, z, m, t);
  }

  /**
   A secure positive answer is record data the zone published at the name, or at the wildcard of
   an ancestor for a name that owns nothing there; NSEC3 answers are records of the chain. The zone is
   the one the name belongs to, or the one above the cut at the name; an expansion is for a name that
   owns nothing anywhere, if its proof speaks for the name's side of every cut.
   */
  lemma SecureAnswerIsTrue(w: World, net: Net, tree: Tree, q: Name, t: u16, msg: Message, zone: Name, keys: seq<Bytes>)
      returns (z: Name)
    requires Honest(w, net) && ValidName(q) && JudgedUnder(w, q, msg, zone, keys)
    requires AnsweredType(msg, q, t).Some?
    requires Validated(w, q, t, msg).0 == Secure
    ensures z in net && net[z].keys == keys && Above(z, Fold(zone))
    ensures AnswerTrue(w, net[z], msg, q, AnsweredType(msg, q, t).value)
    ensures AnswerPlaced(w, net, tree, z, msg, q, t)
  {
    hide HonestChain;
    hide HonestNsecChain;
    hide Planted;
    hide Settled;
    hide Hidden;
    z := TrustedIsGenuine(w, net, Fold(zone));
    var answered := AnsweredType(msg, q, t).value;
    var rdatas := OwnedRdatas(msg.answers, q, answered);
    var check := AnswerCheck(w, msg, q, answered, keys);
    assert AnswerGenuine(w, net[z], q, answered, rdatas, SigsOf(msg.answers, answered));
    assert Nsec3Genuine(w, net[z], q, rdatas, SigsOf(msg.answers, answered));
    assert check.Some?;
    if check.value {
      assert check == Some(true);
      if Direct(w, msg, net[z]) {
        AbsenceIsTrue(w, net, z, q, msg, zone);
        if Settled(w, net, tree, z, q, t, msg) {
          SettledAbsence(w, net, tree, z, q, t, msg, zone);
        }
      }
    } else {
      assert check == Some(false);
      if Planted(net, tree) && answered != RecordTypes.NSEC3 {
        ListedInTree(w, net, tree, z, Fold(q), answered);
      }
    }
  }

  ghost predicate AnswerPlaced(w: World, net: Net, tree: Tree, z: Name, msg: Message, q: Name, t: u16)
    requires z in net && AnsweredType(msg, q, t).Some?
  {
    var answered := AnsweredType(msg, q, t).value;
    && (AnswerCheck(w, msg, q, answered, net[z].keys) == Some(false) && answered != RecordTypes.NSEC3 && Planted(net, tree) ==>
          Deepest(tree.Keys, Fold(q)) == z || DelegatedIn(tree, z, Fold(q)))
    && (AnswerCheck(w, msg, q, answered, net[z].keys) == Some(true) ==> AbsencePlaced(w, net, tree, z, msg, q, t))
  }

  ghost predicate AbsencePlaced(w: World, net: Net, tree: Tree, z: Name, msg: Message, q: Name, t: u16)
    requires z in net
  {
    Direct(w, msg, net[z]) && Settled(w, net, tree, z, q, t, msg) && Lives(tree, Fold(q)) ==> Hidden(net[z].data, Fold(q))
  }

  lemma SettledAbsence(w: World, net: Net, tree: Tree, z: Name, q: Name, t: u16, msg: Message, zone: Name)
    requires Honest(w, net) && z in net && Above(z, Fold(zone)) && ValidName(q) && InZone(q, zone)
    requires Direct(w, msg, net[z]) && NoExactMatch(w, msg, q, zone, net[z].keys) && Settled(w, net, tree, z, q, t, msg)
    ensures Lives(tree, Fold(q)) ==> Hidden(net[z].data, Fold(q))
  {
    hide Lives;
    hide Hidden;
    hide Honest;
    hide OwnSide;
    hide Planted;
    hide NoQueryCollision;
    AbsenceInTree(w, net, tree, z, q, t, msg, zone);
  }

  /** A name that a zone lists belongs to it, or is where another zone is delegated. */
  lemma ListedInTree(w: World, net: Net, tree: Tree, z: Name, m: Name, t: u16)
    requires Honest(w, net) && Planted(net, tree) && z in net && (m, t) in net[z].published
    ensures Deepest(tree.Keys, m) == z || DelegatedIn(tree, z, m)
  {
    hide HonestChain;
    hide HonestNsecChain;
    hide Grown;
    assert HonestZone(w.hash, z, net[z]);
    PlantedZone(net, tree, z);
    assert net[z].data.WellPlaced(m);
    if !Delegation(net[z].data.types[m]) {
      ListedMeansOwn(net[z].data, m);
      AuthoritativeIsDeepest(tree, z, m);
    }
  }

  ghost predicate AnswerTrue(w: World, z: SignedZone, msg: Message, q: Name, t: u16) {
    var rdatas, check := OwnedRdatas(msg.answers, q, t), AnswerCheck(w, msg, q, t, z.keys);
    if t == RecordTypes.NSEC3 then
      forall d: Bytes :: Unknown(d) in rdatas && ParseNsec3(q, d).Some? ==> ParseNsec3(q, d).value in z.chain
    else
      || (check == Some(false) && PublishedAt(z, Fold(q), t, rdatas))
      || (check == Some(true) && (exists i :: ExpandedAnswer(z, q, t, rdatas, i))
          && (Direct(w, msg, z) && Owner(z.data, Fold(q)) ==> Fold(q) in z.data.optedOut))
  }

  /**
   A secure expanded answer is what lookup in that zone gives if and only if the wildcard stands at the
   closest encloser: the one that a covering NSEC record shows, or the matched ancestor of an NSEC3 proof.
   */
  lemma SecureExpansionIsTrue(w: World, net: Net, q: Name, t: u16, msg: Message, zone: Name, keys: seq<Bytes>)
      returns (z: Name, s: Name)
    requires Honest(w, net) && ValidName(q) && JudgedUnder(w, q, msg, zone, keys) && Validated(w, q, t, msg).0 == Secure
    requires AnsweredType(msg, q, t).Some? && AnsweredType(msg, q, t).value != RecordTypes.NSEC3
    requires AnswerCheck(w, msg, q, AnsweredType(msg, q, t).value, keys) == Some(true)
    ensures z in net && net[z].keys == keys && Above(z, Fold(zone)) && StrictlyBelow(Fold(q), s)
    ensures var answered := AnsweredType(msg, q, t).value;
            PublishedAt(net[z], [STAR] + s, answered, OwnedRdatas(msg.answers, q, answered))
    ensures Direct(w, msg, net[z]) && Peopled(net[z].data) ==> PlacedByNsec(net[z].data, Nsecs(w, msg, keys), q, s)
    ensures NoQueryCollision(net[z].data, w.hash, net[z].params, Fold(q)) ==>
      PlacedByHash(net[z].data, w.hash, Nsec3s(w, msg, keys), q, zone, s)
  {
    hide Honest;
    hide Unforgeable;
    hide NoQueryCollision;
    hide Peopled;
    hide Validated;
    hide AnswerCheck;
    hide OwnedRdatas;
    hide PublishedAt;
    hide Walk;
    hide SigningZone;
    hide AnsweredType;
    hide Direct;
    hide PlacedByNsec;
    hide PlacedByHash;
    HonestSigns(w, net);
    z := TrustedIsGenuine(w, net, Fold(zone));
    s := ExpansionSource(w, net, z, q, AnsweredType(msg, q, t).value, msg);
    SignerEncloses(w, msg, q, zone);
    QueryUnder(w, net, z, q, zone);
    if Direct(w, msg, net[z]) && Peopled(net[z].data) {
      PlacedIfCovered(w, net, z, q, msg, s);
    }
    if NoQueryCollision(net[z].data, w.hash, net[z].params, Fold(q)) {
      PlacedIfMatched(w, net, z, q, msg, zone, s);
    }
  }

  lemma HonestSigns(w: World, net: Net)
    requires Honest(w, net)
    ensures Unforgeable(w, net)
  {
    hide Unforgeable;
  }

  lemma SignerEncloses(w: World, msg: Message, q: Name, zone: Name)
    requires SigningZone(w, msg, q) == Some(zone)
    ensures InZone(q, zone)
  {
  }

  /** The wildcard that an expanded answer comes from. */
  lemma ExpansionSource(w: World, net: Net, z: Name, q: Name, t: u16, msg: Message) returns (s: Name)
    requires Honest(w, net) && z in net && t != RecordTypes.NSEC3 && AnswerCheck(w, msg, q, t, net[z].keys) == Some(true)
    ensures PublishedAt(net[z], [STAR] + s, t, OwnedRdatas(msg.answers, q, t)) && StrictlyBelow(Fold(q), s)
    ensures [STAR] + s in net[z].data.types
  {
    hide HonestZone;
    hide PublishedAt;
    hide OwnedRdatas;
    var rdatas := OwnedRdatas(msg.answers, q, t);
    assert AnswerGenuine(w, net[z], q, t, rdatas, SigsOf(msg.answers, t));
    var k: nat :| ExpandedAnswer(net[z], q, t, rdatas, k);
    s := Fold(q)[k..];
    ListedIfPublished(net[z], [STAR] + s, t, rdatas);
    WildcardListed(w, net, z, s, t);
  }

  lemma ListedIfPublished(z: SignedZone, n: Name, t: u16, rdatas: seq<Rdata>)
    requires PublishedAt(z, n, t, rdatas)
    ensures (n, t) in z.published
  {
  }

  lemma PlacedIfCovered(w: World, net: Net, z: Name, q: Name, msg: Message, s: Name)
    requires Honest(w, net) && z in net && InZone(q, z) && [STAR] + s in net[z].data.types
    requires Direct(w, msg, net[z]) && Peopled(net[z].data)
    ensures PlacedByNsec(net[z].data, Nsecs(w, msg, net[z].keys), q, s)
  {
    hide HonestChain;
    hide HonestNsecChain;
    hide Honest;
    hide Peopled;
    hide Direct;
    hide NsecShown;
    hide NsecCovers;
    hide NsecPlaces;
    hide Nsecs;
    var nsecs := Nsecs(w, msg, net[z].keys);
    CollectedShown(w, net, z, msg);
    forall n | n in nsecs && NsecCovers(n.owner, n.next, q) ensures NsecPlaces(net[z].data, n, q, s) {
      ExpansionRead(net[z].data, net[z].nsecs, nsecs, n, q, s);
    }
  }

  lemma PlacedIfMatched(w: World, net: Net, z: Name, q: Name, msg: Message, zone: Name, s: Name)
    requires Honest(w, net) && z in net && InZone(zone, z) && [STAR] + s in net[z].data.types && ValidName(q)
    requires NoQueryCollision(net[z].data, w.hash, net[z].params, Fold(q))
    ensures PlacedByHash(net[z].data, w.hash, Nsec3s(w, msg, net[z].keys), q, zone, s)
  {
    hide HonestChain;
    hide HonestNsecChain;
    hide Honest;
    hide NoQueryCollision;
    hide HashPlaces;
    hide Nsec3s;
    hide ValidName;
    var recs := Nsec3s(w, msg, net[z].keys);
    CollectedShown(w, net, z, msg);
    forall i: nat | ClosestMatch(w.hash, recs, q, zone, i) && DeniesNextCloser(w.hash, recs, q, i)
      ensures HashPlaces(net[z].data, q, i, s)
    {
      SomeMatch(w.hash, recs, q, zone, i);
      ExpansionMatched(net[z].data, w.hash, net[z].params, net[z].chain, recs, q, zone, i, s);
    }
  }

  lemma SomeMatch(h: Hasher, recs: seq<Nsec3>, q: Name, zone: Name, i: nat)
    requires ClosestMatch(h, recs, q, zone, i)
    ensures recs != []
  {
  }

  ghost predicate PlacedByNsec(z: Zone, nsecs: seq<Nsec>, q: Name, s: Name) {
    forall n :: n in nsecs && NsecCovers(n.owner, n.next, q) ==> NsecPlaces(z, n, q, s)
  }

  ghost predicate PlacedByHash(z: Zone, h: Hasher, recs: seq<Nsec3>, q: Name, zone: Name, s: Name) {
    forall i: nat {:trigger ClosestMatch(h, recs, q, zone, i)} ::
      ClosestMatch(h, recs, q, zone, i) && DeniesNextCloser(h, recs, q, i) ==> HashPlaces(z, q, i, s)
  }

  lemma WildcardListed(w: World, net: Net, z: Name, s: Name, t: u16)
    requires Honest(w, net) && z in net && ([STAR] + s, t) in net[z].published
    ensures [STAR] + s in net[z].data.types
  {
    hide HonestChain;
    hide HonestNsecChain;
    assert HonestZone(w.hash, z, net[z]);
  }

  /** Insecure: at some cut above, the zone whose keys were used has no DS record. */
  lemma InsecureIsTrue(w: World, net: Net, zone: Name) returns (k: nat, z: Name, ds: Message)
    requires Honest(w, net) && Walk(w, zone) == Unsigned && Fold(zone) == zone && ValidName(zone)
    requires forall z, i :: z in net && 0 <= i <= |zone| ==> NoCollision(net[z].data, w.hash, net[z].params, zone[i..])
    ensures k < |zone| && z in net && Above(z, zone[k + 1..]) && w.fetch(zone[k..], RecordTypes.DS) == Some(ds)
    ensures Direct(w, ds, net[z]) && zone[k..] in net[z].data.types ==> RecordTypes.DS !in net[z].data.types[zone[k..]]
  {
    var keys;
    k, keys, ds := InsecureIsEarned(w, zone);
    z := ChainedIsGenuine(w, net, zone[k + 1..], keys);
    ValidSuffix(zone, k);
    FoldSuffix(zone, k);
    if Direct(w, ds, net[z]) {
      NoDsIsTrue(w, net, z, ds, zone[k..]);
    }
  }

  lemma NoDsIsTrue(w: World, net: Net, z: Name, ds: Message, child: Name)
    requires Honest(w, net) && z in net && Direct(w, ds, net[z]) && DenialSecure(w, ds, child, net[z].keys)
    requires ValidName(child) && Fold(child) == child && NoCollision(net[z].data, w.hash, net[z].params, child)
    ensures child in net[z].data.types ==> RecordTypes.DS !in net[z].data.types[child]
    ensures CutAt(net[z].data, child) || !net[z].data.Signed(child)
  {
    hide HonestChain;
    hide HonestNsecChain;
    CollectedShown(w, net, z, ds);
    if Nsecs(w, ds, net[z].keys) != [] {
      NsecNoDsSound(net[z].data, net[z].nsecs, Nsecs(w, ds, net[z].keys), child);
    } else {
      NoDsSound(net[z].data, w.hash, net[z].params, net[z].chain, Nsec3s(w, ds, net[z].keys), child);
    }
  }

  /** Any SOA served with a secure verdict validated under the zone's keys. */
  lemma ServedSoaIsValidated(w: World, q: Name, t: u16, msg: Message, zone: Name, keys: seq<Bytes>, r: Record)
    requires JudgedUnder(w, q, msg, zone, keys)
    requires r in Validated(w, q, t, msg).1
    ensures Validated(w, q, t, msg).0 == Secure
    ensures r in msg.authority && InZone(r.name, zone)
    ensures r.rtype == RecordTypes.SOA ==> SoaValidated(w, msg, zone, keys) && SameName(r.name, zone)
  {
  }
}
