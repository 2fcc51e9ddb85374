/**
 Negative answers end to end: the signer of src/dns/zone_signer.rs chooses and serialises NSEC3
 records, the validator of src/dns/dnssec_denial.rs parses them back and decides. The two agree
 with lookup in the published zone.
 */
module NegativeAnswers {
  import opened Prelude
  import opened Names
  import opened Ring
  import opened Denial
  import opened Zones
  import opened DenialProofs
  import opened ZoneSigner
  import Bits
  import RecordTypes
  import Base32Hex

  // ---- serialisation ----

  datatype RR = RR(owner: Name, rdata: seq<byte>)

  function PrependLabel(first: Label, name: Name): Option<Name> {
    if |first| <= MAX_LABEL && |Wire([first] + name)| <= MAX_NAME_WIRE then Some([first] + name) else None
  }

  function OwnerLabel(hash: seq<byte>): Label {
    LowerLabel(Base32Hex.Encoded(hash))
  }

  function Rdata(r: Nsec3): seq<byte>
    requires |r.salt| < 256 && |r.nextHash| < 256
  {
    [r.hashAlg, r.flags, r.iterations / 256, r.iterations % 256, |r.salt|] + r.salt + [|r.nextHash|] + r.nextHash + r.bitmap
  }

  function ToRR(r: Nsec3, apex: Name): Option<RR>
    requires |r.salt| < 256 && |r.nextHash| < 256
  {
    match PrependLabel(OwnerLabel(r.ownerHash), apex)
    case None => None
    case Some(owner) => Some(RR(owner, Rdata(r)))
  }

  lemma LabelRoundTrip(hash: seq<byte>)
    ensures Base32Hex.Decoded(LowerLabel(OwnerLabel(hash))) == Some(hash)
  {
    var e := Base32Hex.Encoded(hash);
    Base32Hex.RoundTrip(hash);
    Base32Hex.DecodedIgnoresCase(e, LowerLabel(OwnerLabel(hash)));
  }

  lemma RdataFields(r: Nsec3)
    requires |r.salt| < 256 && |r.nextHash| < 256
    ensures var d, a, b := Rdata(r), |r.salt|, |r.nextHash|;
      && |d| == 6 + a + b + |r.bitmap| && d[0] == r.hashAlg && d[1] == r.flags && d[4] == a && d[5 + a] == b
      && d[2] == r.iterations / 256 && d[3] == r.iterations % 256
      && d[5..5 + a] == r.salt && d[6 + a..6 + a + b] == r.nextHash && d[6 + a + b..] == r.bitmap
  {
    var d, a, b := Rdata(r), |r.salt|, |r.nextHash|;
    assert d[5..5 + a] == r.salt;
    assert d[6 + a..6 + a + b] == r.nextHash;
    assert d[6 + a + b..] == r.bitmap;
  }

  /** Every record survives its wire form. */
  lemma WireRoundTrip(r: Nsec3, apex: Name)
    requires |r.salt| < 256 && |r.nextHash| < 256
    requires ToRR(r, apex).Some?
    ensures var rr := ToRR(r, apex).value; ParseNsec3(rr.owner, rr.rdata) == Some(r)
  {
    hide Rdata;
    hide OwnerLabel;
    LabelRoundTrip(r.ownerHash);
    RdataFields(r);
    assert ToRR(r, apex).value.owner[0] == OwnerLabel(r.ownerHash);
  }

  // ---- the signer's choice of records ----

  /** The digest of a name as received, under the signer's parameters. */
  function Digest(h: Hasher, n: Name): seq<byte> {
    h(Lower(Wire(n)), PARAMS.salt, PARAMS.iterations)
  }

  /** Node `i` covers `x`, with ring wraparound. */
  predicate NodeCovers(nodes: seq<Node>, i: nat, x: seq<byte>)
    requires i < |nodes|
  {
    CoverHash(nodes[i].hash, nodes[Successor(i, |nodes|)].hash, x)
  }

  /** The closest existing proper ancestor of `q`, judged by hash. */
  ghost predicate EnclosedAt(h: Hasher, nodes: seq<Node>, q: Name, i: nat) {
    && 1 <= i <= |q| && Digest(h, q[i..]) in Hashes(nodes)
    && forall j :: 1 <= j < i ==> Digest(h, q[j..]) !in Hashes(nodes)
  }

  predicate InRange(nodes: seq<Node>, picks: seq<nat>) {
    forall k :: 0 <= k < |picks| ==> picks[k] < |nodes|
  }

  ghost predicate PicksMatch(nodes: seq<Node>, picks: seq<nat>, x: seq<byte>) {
    exists k :: k in picks && k < |nodes| && nodes[k].hash == x
  }

  /** If any node covers `x`, a picked one does. */
  ghost predicate PicksCover(nodes: seq<Node>, picks: seq<nat>, x: seq<byte>) {
    forall i :: 0 <= i < |nodes| && NodeCovers(nodes, i, x) ==>
      exists k :: k in picks && k < |nodes| && NodeCovers(nodes, k, x)
  }

  ghost predicate Picked(h: Hasher, nodes: seq<Node>, q: Name, i: nat, picks: seq<nat>)
    requires 1 <= i <= |q|
  {
    && InRange(nodes, picks)
    && PicksMatch(nodes, picks, Digest(h, q[i..]))
    && PicksCover(nodes, picks, Digest(h, q[i - 1..]))
    && PicksCover(nodes, picks, Digest(h, [STAR] + q[i..]))
  }

  method FindHash(nodes: seq<Node>, x: seq<byte>) returns (i: nat)
    requires x in Hashes(nodes)
    ensures i < |nodes| && nodes[i].hash == x
  {
    i := 0;
    while nodes[i].hash != x
      invariant i < |nodes| && forall j :: 0 <= j < i ==> nodes[j].hash != x
      decreases |nodes| - i
    {
      if i + 1 == |nodes| {
        assert forall j :: 0 <= j < |nodes| ==> Hashes(nodes)[j] != x;
      }
      i := i + 1;
    }
  }

  method FindCover(nodes: seq<Node>, x: seq<byte>) returns (r: Option<nat>)
    ensures FoundCover(nodes, x, r)
  {
    for i := 0 to |nodes|
      invariant forall j :: 0 <= j < i ==> !NodeCovers(nodes, j, x)
    {
      if NodeCovers(nodes, i, x) {
        return Some(i);
      }
    }
    return None;
  }

  function Adjoin(picks: seq<nat>, x: Option<nat>): (r: seq<nat>)
    ensures forall k :: k in r <==> k in picks || Some(k) == x
  {
    if x.Some? && x.value !in picks then picks + [x.value] else picks
  }

  ghost predicate FoundCover(nodes: seq<Node>, x: seq<byte>, r: Option<nat>) {
    && (r.Some? ==> r.value < |nodes| && NodeCovers(nodes, r.value, x))
    && (r.None? ==> forall i :: 0 <= i < |nodes| ==> !NodeCovers(nodes, i, x))
  }

  lemma ThreePicks(nodes: seq<Node>, ceI: nat, ncI: Option<nat>, wcI: Option<nat>, nc: seq<byte>, wc: seq<byte>)
    requires ceI < |nodes| && FoundCover(nodes, nc, ncI) && FoundCover(nodes, wc, wcI)
    ensures var picks := Adjoin(Adjoin([ceI], ncI), wcI);
            && InRange(nodes, picks) && PicksMatch(nodes, picks, nodes[ceI].hash)
            && PicksCover(nodes, picks, nc) && PicksCover(nodes, picks, wc)
  {
    var picks := Adjoin(Adjoin([ceI], ncI), wcI);
    assert ceI in picks && (ncI.Some? ==> ncI.value in picks) && (wcI.Some? ==> wcI.value in picks);
    forall k | 0 <= k < |picks| ensures picks[k] < |nodes| {
      assert picks[k] in picks;
    }
  }

  /** Match the closest encloser, cover the next closer name and the wildcard, each node once. */
  method SelectNodes(h: Hasher, nodes: seq<Node>, q: Name) returns (r: Option<seq<nat>>, ghost i: nat)
    requires ValidName(q)
    ensures r.None? ==> forall j :: 1 <= j <= |q| ==> Digest(h, q[j..]) !in Hashes(nodes)
    ensures r.Some? ==> EnclosedAt(h, nodes, q, i) && Picked(h, nodes, q, i, r.value)
  {
    var child := q;
    i := 1;
    while child != [] && Digest(h, child[1..]) !in Hashes(nodes)
      invariant 1 <= i <= |q| + 1 && child == q[i - 1..]
      invariant forall j :: 1 <= j < i ==> Digest(h, q[j..]) !in Hashes(nodes)
      decreases |child|
    {
      assert child[1..] == q[i..];
      child := child[1..];
      i := i + 1;
    }
    if child == [] {
      return None, i;
    }
    var ce := child[1..];
    assert ce == q[i..];
    WildcardFits(q, i);
    var wc := WildcardOf(ce).value;
    var ceI := FindHash(nodes, Digest(h, ce));
    var ncI := FindCover(nodes, Digest(h, child));
    var wcI := FindCover(nodes, Digest(h, wc));
    ThreePicks(nodes, ceI, ncI, wcI, Digest(h, child), Digest(h, wc));
    r := Some(Adjoin(Adjoin([ceI], ncI), wcI));
  }

  // ---- signer and validator agree ----

  function Records(nodes: seq<Node>, picks: seq<nat>): (r: seq<Nsec3>)
    requires InRange(nodes, picks)
    ensures |r| == |picks| && forall k :: 0 <= k < |picks| ==> r[k] == RecordAt(nodes, picks[k])
  {
    seq(|picks|, k requires 0 <= k < |picks| => RecordAt(nodes, picks[k]))
  }

  lemma DigestIsHash(h: Hasher, n: Name)
    requires ValidName(n)
    ensures Digest(h, n) == HashName(h, PARAMS, Fold(n))
  {
    LowerWire(n);
  }

  lemma RecordsShown(nodes: seq<Node>, picks: seq<nat>)
    requires InRange(nodes, picks)
    ensures Shown(Records(nodes, picks), Chain(nodes))
    ensures forall r :: r in Records(nodes, picks) ==> !r.OptOut()
  {
    forall r | r in Records(nodes, picks) ensures r in Chain(nodes) && !r.OptOut() {
      var k :| 0 <= k < |picks| && Records(nodes, picks)[k] == r;
      assert Chain(nodes)[picks[k]] == r;
    }
  }

  lemma PickedMatches(h: Hasher, nodes: seq<Node>, picks: seq<nat>, n: Name)
    requires InRange(nodes, picks)
    requires PicksMatch(nodes, picks, Digest(h, n))
    ensures AnyMatches(h, Records(nodes, picks), n)
  {
    var k :| k in picks && k < |nodes| && nodes[k].hash == Digest(h, n);
    var j :| 0 <= j < |picks| && picks[j] == k;
    assert Records(nodes, picks)[j].Matches(h, n);
  }

  lemma PickedCovers(h: Hasher, nodes: seq<Node>, picks: seq<nat>, n: Name, i: nat)
    requires InRange(nodes, picks)
    requires PicksCover(nodes, picks, Digest(h, n))
    requires i < |nodes| && Chain(nodes)[i].Covers(h, n)
    ensures AnyCovers(h, Records(nodes, picks), n)
  {
    assert NodeCovers(nodes, i, Digest(h, n));
    var k :| k in picks && k < |nodes| && NodeCovers(nodes, k, Digest(h, n));
    var j :| 0 <= j < |picks| && picks[j] == k;
    assert Records(nodes, picks)[j].Covers(h, n);
  }

  /** An absent name's digest is no node, and some record of the ring covers it. */
  lemma AbsentDigest(z: Zone, h: Hasher, nodes: seq<Node>, n: Name) returns (i: nat)
    requires HonestChain(z, h, PARAMS, Chain(nodes)) && nodes != [] && ValidName(n)
    requires Fold(n) !in z.types && NoCollision(z, h, PARAMS, Fold(n))
    ensures Digest(h, n) !in Hashes(nodes)
    ensures i < |nodes| && Chain(nodes)[i].Covers(h, n)
    ensures !AnyMatches(h, Chain(nodes), n)
  {
    AbsentIsCovered(z, h, PARAMS, Chain(nodes), n);
    i :| 0 <= i < |Chain(nodes)| && Chain(nodes)[i].Covers(h, n);
    NoNodeMatches(h, nodes, n);
  }

  lemma NoNodeMatches(h: Hasher, nodes: seq<Node>, n: Name)
    requires !AnyMatches(h, Chain(nodes), n)
    ensures Digest(h, n) !in Hashes(nodes)
  {
    forall k | 0 <= k < |nodes| ensures Hashes(nodes)[k] != Digest(h, n) {
      assert !Chain(nodes)[k].Matches(h, n);
    }
  }

  lemma ExistingDigest(z: Zone, h: Hasher, nodes: seq<Node>, n: Name)
    requires HonestChain(z, h, PARAMS, Chain(nodes)) && ValidName(n) && z.Signed(Fold(n))
    ensures Digest(h, n) in Hashes(nodes)
  {
    DigestIsHash(h, n);
    assert Accounted(z, h, PARAMS, Chain(nodes), Fold(n));
    assert Owners(Chain(nodes)) == Hashes(nodes);
  }

  /** For a denied name the signer stops at the true closest encloser. */
  lemma SignerFindsEncloser(z: Zone, h: Hasher, nodes: seq<Node>, q: Name, i: nat, e: nat)
    requires z.Valid() && z.optedOut == {} && HonestChain(z, h, PARAMS, Chain(nodes)) && nodes != []
    requires ValidName(q) && NoQueryCollision(z, h, PARAMS, Fold(q))
    requires 1 <= e <= |q| && Fold(q)[e..] in z.types
    requires forall j :: 0 <= j < e ==> Fold(q)[j..] !in z.types
    requires EnclosedAt(h, nodes, q, i)
    ensures i == e
  {
    FoldSuffix(q, e);
    ValidSuffix(q, e);
    ExistingDigest(z, h, nodes, q[e..]);
    if i < e {
      FoldSuffix(q, i);
      ValidSuffix(q, i);
      var _ := AbsentDigest(z, h, nodes, q[i..]);
    }
  }

  lemma NoRecordMatches(h: Hasher, nodes: seq<Node>, picks: seq<nat>, n: Name)
    requires InRange(nodes, picks)
    requires !AnyMatches(h, Chain(nodes), n)
    ensures !AnyMatches(h, Records(nodes, picks), n)
  {
    forall k | 0 <= k < |picks| ensures !Records(nodes, picks)[k].Matches(h, n) {
      assert picks[k] in picks;
      assert Chain(nodes)[picks[k]] == Records(nodes, picks)[k];
    }
  }

  /** The chosen records prove every true denial. */
  lemma SelectionSuffices(z: Zone, h: Hasher, nodes: seq<Node>, q: Name, apex: Name, i: nat, picks: seq<nat>)
    requires z.Valid() && z.optedOut == {} && z.apex == Fold(apex) && HonestChain(z, h, PARAMS, Chain(nodes))
    requires ValidName(q) && InZone(q, apex) && NoQueryCollision(z, h, PARAMS, Fold(q))
    requires nodes != [] && EnclosedAt(h, nodes, q, i) && Picked(h, nodes, q, i, picks)
    requires Lookup(z, Fold(q)) == NoSuchName
    ensures Nsec3Nxdomain(h, Records(nodes, picks), q, apex)
  {
    var e := DeniedEncloser(z, Fold(q));
    SignerFindsEncloser(z, h, nodes, q, i, e);
    NextCloserPicked(z, h, nodes, q, i, picks);
    WildcardPicked(z, h, nodes, q, i, picks);
    PickedMatches(h, nodes, picks, q[i..]);
    AssembleNxdomain(h, Records(nodes, picks), q, apex, i);
  }

  lemma NextCloserPicked(z: Zone, h: Hasher, nodes: seq<Node>, q: Name, i: nat, picks: seq<nat>)
    requires HonestChain(z, h, PARAMS, Chain(nodes)) && nodes != []
    requires ValidName(q) && NoQueryCollision(z, h, PARAMS, Fold(q))
    requires 1 <= i <= |q| && Picked(h, nodes, q, i, picks)
    requires forall j :: 0 <= j < i ==> Fold(q)[j..] !in z.types
    ensures DeniesNextCloser(h, Records(nodes, picks), q, i)
    ensures forall j :: 0 <= j < i ==> !AnyMatches(h, Records(nodes, picks), q[j..])
  {
    forall j | 0 <= j < i
      ensures !AnyMatches(h, Records(nodes, picks), q[j..])
      ensures j == i - 1 ==> AnyCovers(h, Records(nodes, picks), q[j..])
    {
      FoldSuffix(q, j);
      ValidSuffix(q, j);
      var k := AbsentDigest(z, h, nodes, q[j..]);
      NoRecordMatches(h, nodes, picks, q[j..]);
      if j == i - 1 {
        PickedCovers(h, nodes, picks, q[j..], k);
      }
    }
  }

  lemma WildcardPicked(z: Zone, h: Hasher, nodes: seq<Node>, q: Name, i: nat, picks: seq<nat>)
    requires HonestChain(z, h, PARAMS, Chain(nodes)) && nodes != []
    requires ValidName(q) && NoQueryCollision(z, h, PARAMS, Fold(q))
    requires 1 <= i <= |q| && Picked(h, nodes, q, i, picks)
    requires [STAR] + Fold(q)[i..] !in z.types
    ensures DeniesWildcard(h, Records(nodes, picks), q, i)
  {
    WildcardFits(q, i);
    FoldSuffix(q, i);
    ValidSuffix(q, i);
    ValidWildcard(q[i..]);
    FoldWildcard(q[i..]);
    var k := AbsentDigest(z, h, nodes, [STAR] + q[i..]);
    PickedCovers(h, nodes, picks, [STAR] + q[i..], k);
  }

  /** ... and no false one. */
  lemma SelectionDecides(z: Zone, h: Hasher, nodes: seq<Node>, q: Name, apex: Name, i: nat, picks: seq<nat>)
    requires z.Valid() && z.optedOut == {} && z.apex == Fold(apex) && HonestChain(z, h, PARAMS, Chain(nodes))
    requires ValidName(q) && InZone(q, apex) && NoQueryCollision(z, h, PARAMS, Fold(q))
    requires nodes != [] && EnclosedAt(h, nodes, q, i) && Picked(h, nodes, q, i, picks)
    ensures Nsec3Nxdomain(h, Records(nodes, picks), q, apex) <==> Lookup(z, Fold(q)) == NoSuchName
  {
    hide HonestChain;
    hide Nsec3Nxdomain;
    hide Lookup;
    if Lookup(z, Fold(q)) == NoSuchName {
      SelectionSuffices(z, h, nodes, q, apex, i, picks);
    }
    if Nsec3Nxdomain(h, Records(nodes, picks), q, apex) {
      RecordsShown(nodes, picks);
      FoldIdempotent(apex);
      assert Fold(apex)[0..] == Fold(apex);
      var _ := NxdomainSound(z, h, PARAMS, Chain(nodes), Records(nodes, picks), q, apex);
    }
  }

  // ---- the whole exchange ----

  /** SHA-1 digests are 20 octets. */
  ghost predicate TwentyOctets(h: Hasher) {
    forall x, salt, iterations :: |h(x, salt, iterations)| == 20
  }

  ghost predicate TwentyOctetNodes(nodes: seq<Node>) {
    forall i :: 0 <= i < |nodes| ==> |nodes[i].hash| == 20
  }

  lemma LabelLength(hash: seq<byte>)
    requires |hash| == 20
    ensures |OwnerLabel(hash)| == 32
  {
    var bits := Base32Hex.OctetBits(hash) + Bits.Zeros(Base32Hex.Padding(8 * |hash|));
    Bits.FlattenRegroup(bits, 5, 32);
  }

  /** The hashed owner names of the zone are not too long. */
  predicate Fits(apex: Name) {
    |Wire(apex)| + 33 <= MAX_NAME_WIRE
  }

  /** An owner name exists exactly when 33 more octets fit above the apex. */
  lemma OwnerFits(r: Nsec3, apex: Name)
    requires |r.ownerHash| == 20 && |r.salt| < 256 && |r.nextHash| < 256
    ensures ToRR(r, apex).Some? <==> Fits(apex)
  {
    LabelLength(r.ownerHash);
    var first := OwnerLabel(r.ownerHash);
    assert ([first] + apex)[1..] == apex;
  }

  method ListOwners(m: map<Name, set<u16>>) returns (owners: seq<Entry>)
    ensures Listing(owners, m)
  {
    owners := [];
    var todo := m.Keys;
    while todo != {}
      invariant todo <= m.Keys
      invariant forall i :: 0 <= i < |owners| ==> owners[i].name in m && m[owners[i].name] == owners[i].types
      invariant forall n :: n in m && n !in todo ==> exists i :: 0 <= i < |owners| && owners[i].name == n
      decreases todo
    {
      var n :| n in todo;
      ghost var before := owners;
      owners := owners + [Entry(n, m[n])];
      assert owners[|before|].name == n && forall i :: 0 <= i < |before| ==> owners[i] == before[i];
      todo := todo - {n};
    }
  }

  function WireRecord(nodes: seq<Node>, i: nat, apex: Name): Option<RR>
    requires i < |nodes| && |nodes[Successor(i, |nodes|)].hash| < 256
  {
    ToRR(RecordAt(nodes, i), apex)
  }

  lemma WireRecordFits(nodes: seq<Node>, i: nat, apex: Name)
    requires i < |nodes| && TwentyOctetNodes(nodes)
    ensures WireRecord(nodes, i, apex).Some? <==> Fits(apex)
  {
    OwnerFits(RecordAt(nodes, i), apex);
  }

  method Serialise(nodes: seq<Node>, picks: seq<nat>, apex: Name) returns (r: Option<seq<RR>>)
    requires InRange(nodes, picks) && TwentyOctetNodes(nodes)
    ensures r.Some? ==>
      |r.value| == |picks| && forall k :: 0 <= k < |picks| ==> WireRecord(nodes, picks[k], apex) == Some(r.value[k])
    ensures r.None? ==> !Fits(apex)
    ensures r.Some? && picks != [] ==> Fits(apex)
  {
    hide WireRecord;
    hide Fits;
    var out: seq<RR> := [];
    for k := 0 to |picks|
      invariant |out| == k && forall j :: 0 <= j < k ==> WireRecord(nodes, picks[j], apex) == Some(out[j])
      invariant k > 0 ==> Fits(apex)
    {
      var rr := WireRecord(nodes, picks[k], apex);
      WireRecordFits(nodes, picks[k], apex);
      if rr.None? {
        return None;
      }
      out := out + [rr.value];
    }
    return Some(out);
  }

  /** The wire records parse to exactly `recs`. */
  ghost predicate Carries(rrs: seq<RR>, recs: seq<Nsec3>) {
    |rrs| == |recs| && forall k :: 0 <= k < |rrs| ==> ParseNsec3(rrs[k].owner, rrs[k].rdata) == Some(recs[k])
  }

  /** The validator's side: records that do not parse are dropped. */
  method ParseAll(rrs: seq<RR>) returns (recs: seq<Nsec3>)
    ensures forall expected :: Carries(rrs, expected) ==> recs == expected
  {
    recs := [];
    for k := 0 to |rrs|
      invariant forall expected :: Carries(rrs, expected) ==> recs == expected[..k]
    {
      var p := ParseNsec3(rrs[k].owner, rrs[k].rdata);
      if p.Some? {
        recs := recs + [p.value];
      }
    }
  }

  lemma BuiltNodes(h: Hasher, m: map<Name, set<u16>>, owners: seq<Entry>)
    requires TwentyOctets(h) && Listing(owners, m)
    ensures TwentyOctetNodes(BuildNodes(h, owners))
    ensures m != map[] ==> BuildNodes(h, owners) != []
  {
    var nodes := BuildNodes(h, owners);
    forall i | 0 <= i < |nodes| ensures |nodes[i].hash| == 20 {
      var _ := NodeHasOwner(h, owners, nodes[i]);
    }
    if m != map[] {
      var n :| n in m;
      var i :| 0 <= i < |owners| && owners[i].name == n;
      var _ := OwnerHasNode(h, owners, i);
    }
  }

  lemma ParsedBack(nodes: seq<Node>, picks: seq<nat>, apex: Name, rrs: seq<RR>)
    requires InRange(nodes, picks) && TwentyOctetNodes(nodes) && |rrs| == |picks|
    requires forall k :: 0 <= k < |picks| ==> WireRecord(nodes, picks[k], apex) == Some(rrs[k])
    ensures Carries(rrs, Records(nodes, picks))
  {
    forall k | 0 <= k < |rrs| ensures ParseNsec3(rrs[k].owner, rrs[k].rdata) == Some(Records(nodes, picks)[k]) {
      WireRoundTrip(RecordAt(nodes, picks[k]), apex);
    }
  }

  /** The signer's NXDOMAIN answer: the selected records of the ring, serialised. */
  method SignDenial(h: Hasher, owners: map<Name, set<u16>>, apex: Name, q: Name)
      returns (rrs: Option<seq<RR>>, ghost nodes: seq<Node>, ghost picks: seq<nat>, ghost i: nat)
    requires TwentyOctets(h) && ValidName(q)
    ensures HonestChain(Published(apex, owners), h, PARAMS, Chain(nodes)) && (owners != map[] ==> nodes != [])
    ensures rrs.Some? ==> Fits(apex)
    ensures rrs.None? && Fits(apex) ==> forall j :: 1 <= j <= |q| ==> Digest(h, q[j..]) !in Hashes(nodes)
    ensures rrs.Some? ==> EnclosedAt(h, nodes, q, i) && Picked(h, nodes, q, i, picks) && Carries(rrs.value, Records(nodes, picks))
  {
    var list := ListOwners(owners);
    var ring := BuildNodes(h, list);
    nodes, picks := ring, [];
    SignerChainHonest(apex, owners, h, list);
    BuiltNodes(h, owners, list);
    var chosen;
    chosen, i := SelectNodes(h, ring, q);
    if chosen.None? {
      return None, nodes, picks, i;
    }
    picks := chosen.value;
    rrs := Serialise(ring, chosen.value, apex);
    if rrs.Some? {
      ParsedBack(ring, chosen.value, apex, rrs.value);
    }
  }

  /**
   The signer's answer to an NXDOMAIN query, parsed and checked by the validator, is accepted
   exactly when the hashed owners fit and the published zone has no such name.
   */
  method DenyName(h: Hasher, owners: map<Name, set<u16>>, apex: Name, q: Name) returns (accepted: bool)
    requires TwentyOctets(h) && ValidName(q) && InZone(q, apex)
    requires Published(apex, owners).Valid()
    requires NoQueryCollision(Published(apex, owners), h, PARAMS, Fold(q))
    ensures accepted <==> Fits(apex) && Lookup(Published(apex, owners), Fold(q)) == NoSuchName
  {
    ghost var z := Published(apex, owners);
    var rrs, nodes, picks, i := SignDenial(h, owners, apex, q);
    if rrs.None? {
      if Fits(apex) {
        SignerAlwaysAnswers(z, h, nodes, q, apex);
      }
      return false;
    }
    var recs := ParseAll(rrs.value);
    SelectionDecides(z, h, nodes, q, apex, i, picks);
    assert recs == Records(nodes, picks);
    accepted := Nsec3ProvesNxdomain(h, recs, q, apex);
  }

  /** For a denied name some ancestor's digest is a node. */
  lemma SignerAlwaysAnswers(z: Zone, h: Hasher, nodes: seq<Node>, q: Name, apex: Name)
    requires z.Valid() && z.optedOut == {} && z.apex == Fold(apex) && HonestChain(z, h, PARAMS, Chain(nodes))
    requires ValidName(q) && InZone(q, apex)
    requires forall j :: 1 <= j <= |q| ==> Digest(h, q[j..]) !in Hashes(nodes)
    ensures Lookup(z, Fold(q)) != NoSuchName
  {
    if Lookup(z, Fold(q)) == NoSuchName {
      var e := DeniedEncloser(z, Fold(q));
      FoldSuffix(q, e);
      ValidSuffix(q, e);
      ExistingDigest(z, h, nodes, q[e..]);
    }
  }

  lemma SingleRecordDecides(z: Zone, h: Hasher, nodes: seq<Node>, q: Name, t: u16, i: nat)
    requires HonestChain(z, h, PARAMS, Chain(nodes)) && ValidName(q) && NoCollision(z, h, PARAMS, Fold(q))
    requires i < |nodes| && nodes[i].hash == Digest(h, q)
    ensures Nsec3ProvesNodata(h, [RecordAt(nodes, i)], q, t) <==> EmptyAt(z, Fold(q), t)
  {
    var r := RecordAt(nodes, i);
    assert Chain(nodes)[i] == r && r.Matches(h, q);
    MatchMeansSigned(z, h, PARAMS, Chain(nodes), r, q);
    assert r.Lists(t) <==> t in z.types[Fold(q)];
    assert r.Lists(RecordTypes.CNAME) <==> RecordTypes.CNAME in z.types[Fold(q)];
    assert [r][0] == r;
  }

  /** The same exchange for a missing type: accepted exactly when the name exists without it. */
  method DenyType(h: Hasher, owners: map<Name, set<u16>>, apex: Name, q: Name, t: u16) returns (accepted: bool)
    requires TwentyOctets(h) && ValidName(q)
    requires NoCollision(Published(apex, owners), h, PARAMS, Fold(q))
    ensures accepted <==> Fits(apex) && EmptyAt(Published(apex, owners), Fold(q), t)
  {
    ghost var z := Published(apex, owners);
    var list := ListOwners(owners);
    var nodes := BuildNodes(h, list);
    SignerChainHonest(apex, owners, h, list);
    BuiltNodes(h, owners, list);
    if Digest(h, q) !in Hashes(nodes) {
      if z.Signed(Fold(q)) {
        ExistingDigest(z, h, nodes, q);
      }
      return false;
    }
    var i := FindHash(nodes, Digest(h, q));
    var rrs := Serialise(nodes, [i], apex);
    if rrs.None? {
      return false;
    }
    ParsedBack(nodes, [i], apex, rrs.value);
    var recs := ParseAll(rrs.value);
    assert recs == Records(nodes, [i]) == [RecordAt(nodes, i)];
    SingleRecordDecides(z, h, nodes, q, t, i);
    return Nsec3ProvesNodata(h, recs, q, t);
  }
}
