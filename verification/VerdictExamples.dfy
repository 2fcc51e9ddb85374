/** Small zones on which secure verdicts of the validator and the zones differ. */
module VerdictExamples {
  import opened Prelude
  import opened Names
  import opened Denial
  import opened Zones
  import opened DenialProofs
  import opened ExpandedDenial
  import opened Messages
  import opened ChainOfTrust
  import opened Verdicts
  import opened HonestNet
  import opened ReferenceNet
  import opened ZoneTree
  import opened Families
  import opened VerdictLimits
  import opened NegativeAnswers
  import opened EndToEnd
  import opened InsecureCuts
  import opened AnswerLimits
  import TypeBitmap
  import RecordTypes

  const A: u16 := 1
  const TXT: u16 := 16
  const C: Label := [99]
  const W: Label := [119]
  const B: Label := [98]

  // ---- a wildcard beside a name, in a zone below a signed cut ----

  const ROOT := Zone([], map[
    [] := {RecordTypes.SOA, RecordTypes.NSEC},
    [C] := {RecordTypes.NS, RecordTypes.DS, RecordTypes.NSEC}], {})

  const CHILD := Zone([C], map[
    [C] := {RecordTypes.SOA, RecordTypes.NSEC},
    [STAR, C] := {TXT, RecordTypes.NSEC},
    [W, C] := {A, RecordTypes.NSEC}], {})

  const PLANS: map<Name, Plan> := map[[] := ByNsec(ROOT), [C] := ByNsec(CHILD)]

  lemma ProperNames()
    ensures ValidName([]) && ValidName([C]) && ValidName([STAR, C]) && ValidName([W, C])
    ensures Fold([]) == [] && Fold([C]) == [C] && Fold([STAR, C]) == [STAR, C] && Fold([W, C]) == [W, C]
  {
    assert LowerLabel(C) == C && LowerLabel(W) == W && LowerLabel(STAR) == STAR;
    assert Wire([]) == [0] && [C][1..] == [] && [STAR, C][1..] == [C] && [W, C][1..] == [C];
    assert |Wire([C])| == 3 && |Wire([STAR, C])| == 5 && |Wire([W, C])| == 5;
  }

  /** A root zone with one name below it. */
  lemma PairValid(z: Zone, c: Name)
    requires z.apex == [] && z.types.Keys == {[], c} && |c| == 1 && ValidName(c) && Fold(c) == c && ValidName([])
    requires z.optedOut <= {c} && (z.optedOut == {} || RecordTypes.DS !in z.types[c])
    ensures z.Valid()
  {
    hide ValidName;
    forall n: Name ensures z.WellPlaced(n) {
      if n in z.types {
        assert n in {[], c};
        assert n == [] ==> Fold(n) == [];
        assert n == c ==> n[1..] == [];
        assert n[|n|..] == [];
      }
    }
  }

  /** A zone with two children of its apex. */
  lemma TripleValid(z: Zone, a: Name, b: Name)
    requires z.types.Keys == {z.apex, a, b} && z.optedOut == {} && |a| == |b| == |z.apex| + 1
    requires a[1..] == z.apex && b[1..] == z.apex
    requires ValidName(z.apex) && ValidName(a) && ValidName(b) && Fold(z.apex) == z.apex && Fold(a) == a && Fold(b) == b
    ensures z.Valid()
  {
    hide ValidName;
    hide Fold;
    forall n: Name ensures z.WellPlaced(n) {
      if n in z.types {
        assert n in {z.apex, a, b};
        assert z.apex[0..] == z.apex;
      }
    }
  }

  lemma ZonesValid()
    ensures ROOT.Valid() && CHILD.Valid()
  {
    hide ValidName;
    hide Fold;
    ProperNames();
    PairValid(ROOT, [C]);
    assert [STAR, C][1..] == [C] && [W, C][1..] == [C];
    TripleValid(CHILD, [STAR, C], [W, C]);
  }

  lemma PlansAreFamily(h: Hasher)
    ensures Family(h, PLANS) && PLANS[[]] == ByNsec(ROOT) && PLANS[[C]] == ByNsec(CHILD)
    ensures Owner(ROOT, []) && Owner(CHILD, [C])
  {
    ZonesValid();
    assert WellPlanned(h, [], PLANS[[]]) && WellPlanned(h, [C], PLANS[[C]]);
    assert [C][1..] == [] && Deepest(PLANS.Keys, []) == [];
    assert HasDs(PLANS, [], [C]);
  }

  const TREE: Tree := map[[] := ROOT, [C] := CHILD]

  lemma TreeGrown()
    ensures Grown(TREE)
  {
    ZonesValid();
    RootTidy();
    ChildTidy();
    assert [C][1..] == [] && Deepest(TREE.Keys, []) == [];
    assert Delegates(ROOT, [C]);
  }

  lemma RootTidy()
    ensures Tidy(ROOT)
  {
    forall c, m | Delegates(ROOT, c) && StrictlyBelow(m, c) ensures m !in ROOT.types {
      assert c in {[], [C]} && |m| >= 2;
    }
  }

  lemma ChildTidy()
    ensures Tidy(CHILD)
  {
    forall c ensures !Delegates(CHILD, c) {
      assert c in CHILD.types ==> c in {[C], [STAR, C], [W, C]};
    }
  }

  lemma PlannedData(h: Hasher, a: Name, p: Plan, s: SignedZone)
    requires SignedBy(h, a, p, s)
    ensures s.data == p.zone
  {
  }

  lemma PlansListed()
    ensures PLANS.Keys == {[], [C]} && PLANS[[]] == ByNsec(ROOT) && PLANS[[C]] == ByNsec(CHILD)
  {
    hide ROOT;
    hide CHILD;
  }

  lemma TreeListed()
    ensures TREE.Keys == {[], [C]} && TREE[[]] == ROOT && TREE[[C]] == CHILD
  {
    hide ROOT;
    hide CHILD;
  }

  lemma PairPlanted(net: Net, tree: Tree, a: Name, b: Name)
    requires Grown(tree) && net.Keys == {a, b} && tree.Keys == {a, b} && net[a].data == tree[a] && net[b].data == tree[b]
    ensures Planted(net, tree)
  {
    hide Grown;
    forall c | c in net ensures c in tree && tree[c] == net[c].data {
      assert c in {a, b};
    }
  }

  lemma NetPlanted(h: Hasher, net: Net)
    requires Family(h, PLANS) && net == NetOf(h, PLANS)
    ensures Planted(net, TREE) && net.Keys == {[], [C]} && net[[]].data == ROOT && net[[C]].data == CHILD
  {
    hide Grown;
    hide Family;
    hide SignedBy;
    TreeGrown();
    PlansListed();
    TreeListed();
    hide PLANS;
    hide TREE;
    hide ROOT;
    hide CHILD;
    PlannedData(h, [], PLANS[[]], net[[]]);
    PlannedData(h, [C], PLANS[[C]], net[[C]]);
    PairPlanted(net, TREE, [], [C]);
  }

  /** The network of the two zones, with the zone `a` of it reached. */
  lemma ZoneReached(h: Hasher, a: Name) returns (w: World, net: Net)
    requires a == [] || a == [C]
    ensures HonestNet.Honest(w, net) && net.Keys == {[], [C]} && Reached(w, net, a)
    ensures Planted(net, TREE) && net[[]].data == ROOT && net[[C]].data == CHILD
  {
    hide HonestNet.Honest;
    hide Family;
    hide Relays;
    hide Walk;
    hide SignedBy;
    hide Reached;
    hide Planted;
    hide CHILD;
    hide ROOT;
    PlansAreFamily(h);
    net := NetOf(h, PLANS);
    NetPlanted(h, net);
    w := FamilyIsReached(h, PLANS, a);
    ReachedIsHonest(w, net, a);
  }

  lemma ReachedIsHonest(w: World, net: Net, apex: Name)
    requires apex in net && Reached(w, net, apex)
    ensures HonestNet.Honest(w, net)
  {
  }

  lemma ChildOfZone(zones: set<Name>, b: Label)
    requires [C] in zones && [b, C] !in zones
    ensures Deepest(zones, [b, C]) == [C]
  {
    assert [b, C][1..] == [C];
  }

  lemma NamesHold()
    ensures Holds(TREE, [W, C], A) && Holds(TREE, [C], RecordTypes.SOA) && Holds(TREE, [C], RecordTypes.DS)
    ensures Lives(TREE, [STAR, C]) && Lives(TREE, [W, C])
  {
    assert [C][1..] == [];
    ChildOfZone(TREE.Keys, W);
    ChildOfZone(TREE.Keys, STAR);
    assert Holds(TREE, [STAR, C], TXT);
    assert Holds(TREE, [W, C], A);
  }

  /** Over an honest network an existing wildcard name, and an existing type, are denied as secure. */
  lemma ExpansionsMislead(h: Hasher) returns (w: World, net: Net, denied: Message, empty: Message)
    ensures HonestNet.Honest(w, net) && Planted(net, TREE)
    ensures FalseNxdomain(w, TREE, [C], [STAR, C], A, denied)
    ensures FalseNodata(w, TREE, [C], [W, C], A, empty)
  {
    hide Reached;
    hide SecureDenial;
    hide HonestNsecChain;
    hide Planted;
    hide Lives;
    hide Holds;
    hide HonestNet.Honest;
    w, net := ZoneReached(h, [C]);
    ReachedZone(w, net, [C]);
    NamesHold();
    ProperNames();
    assert [STAR] + [C] == [STAR, C];
    var k := RecordOf(CHILD, net[[C]].nsecs, [STAR] + [C]);
    denied := WildcardMisjudged(w, net, [C], k, [C], A);
    assert [W, C][1..] == [C];
    assert StrictlyBelow([W, C], [C]) && !Reads(CHILD, [W, C], A);
    empty := TypeMisjudged(w, net, [C], [W, C], A);
  }

  /**
   Over an honest network, in a zone without wildcards, its record of a signed delegation as it stands
   denies a name and a type that the delegated zone has.
   */
  lemma ParentsMislead(h: Hasher) returns (w: World, net: Net, denied: Message, empty: Message)
    ensures HonestNet.Honest(w, net) && Planted(net, TREE) && [] in net && NoWildcard(net[[]].nsecs)
    ensures FalseNxdomain(w, TREE, [], [W, C], A, denied) && FalseNodata(w, TREE, [], [C], RecordTypes.SOA, empty)
    ensures exists n :: n in net[[]].nsecs && Nsecs(w, denied, net[[]].keys) == [n]
  {
    hide Reached;
    hide SecureDenial;
    hide HonestNsecChain;
    hide Planted;
    hide Lives;
    hide Holds;
    hide HonestNet.Honest;
    w, net := ZoneReached(h, []);
    ReachedZone(w, net, []);
    NamesHold();
    ProperNames();
    RootTidy();
    RootHasNoWildcard(net[[]].nsecs);
    assert [W, C][1..] == [C];
    var n;
    n, denied := ChildMisjudged(w, net, [], [C], [W, C], A);
    assert !Reads(ROOT, [C], RecordTypes.SOA);
    empty := TypeMisjudged(w, net, [], [C], RecordTypes.SOA);
  }

  lemma RootHasNoWildcard(nsecs: seq<Nsec>)
    requires HonestNsecChain(ROOT, nsecs)
    ensures NoWildcard(nsecs)
  {
    hide HonestNsecChain;
    forall k | 0 <= k < |nsecs| ensures !WildcardName(nsecs[k].owner) {
      RecordAtIndex(ROOT, nsecs, k);
      assert nsecs[k].owner in {[], [C]};
    }
  }

  /** Over an honest network a zone's record of its own apex denies the DS that the zone above has for it. */
  lemma ChildrenMislead(h: Hasher) returns (w: World, net: Net, empty: Message)
    ensures HonestNet.Honest(w, net) && Planted(net, TREE) && FalseNodata(w, TREE, [C], [C], RecordTypes.DS, empty)
  {
    hide Reached;
    hide SecureDenial;
    hide HonestNsecChain;
    hide Planted;
    hide Holds;
    hide HonestNet.Honest;
    w, net := ZoneReached(h, [C]);
    NamesHold();
    ProperNames();
    AboveItself([C]);
    assert !Reads(CHILD, [C], RecordTypes.DS);
    empty := TypeMisjudged(w, net, [C], [C], RecordTypes.DS);
  }

  // ---- a wildcard expanded past an existing name ----

  lemma DeepName()
    ensures ValidName([B, W, C]) && Fold([B, W, C]) == [B, W, C] && StrictlyBelow([B, W, C], [C])
    ensures Lookup(CHILD, [B, W, C]) == NoSuchName
  {
    var q := [B, W, C];
    assert LowerLabel(B) == B && LowerLabel(C) == C && LowerLabel(W) == W;
    assert q[1..] == [W, C] && q[2..] == [C] && [W, C][1..] == [C] && [C][1..] == [];
    assert Wire([]) == [0] && |Wire([C])| == 3 && |Wire([W, C])| == 5 && |Wire(q)| == 7;
    assert q !in CHILD.types && ClosestEncloser(CHILD, q) == [W, C];
    assert ([STAR] + [W, C])[1] == W && |[STAR] + [W, C]| == 3;
  }

  /** Over an honest network a wildcard's data are a secure answer for a name that does not exist. */
  lemma WildcardsMislead(h: Hasher) returns (w: World, net: Net, msg: Message)
    ensures HonestNet.Honest(w, net) && Planted(net, TREE) && [C] in net
    ensures FalseExpansion(w, TREE, net[[C]], [B, W, C], TXT, msg) && Lookup(CHILD, [B, W, C]) == NoSuchName
  {
    hide HonestNet.Honest;
    hide Family;
    hide Relays;
    hide Walk;
    hide SignedBy;
    hide Planted;
    hide Follows;
    hide SecureExpansion;
    hide NoExpandedNsec;
    hide Lookup;
    hide CHILD;
    hide ROOT;
    PlansAreFamily(h);
    net := NetOf(h, PLANS);
    NetPlanted(h, net);
    w := NetworkExists(h, PLANS);
    ServesFollows(w, net);
    DeepName();
    TextOffered(h, net);
    assert Followed(w, h, PLANS, [C]);
    AboveItself([C]);
    msg := OfferedIsSecure(w, h, PLANS, [C], [C], [B, W, C], TXT, Unknown(Token([STAR] + [C])));
    assert !AnswerIs(net[[C]], [B, W, C], TXT, [Unknown(Token([STAR] + [C]))]);
  }

  lemma TextOffered(h: Hasher, net: Net)
    requires Family(h, PLANS) && net == NetOf(h, PLANS) && net[[C]].data == CHILD && PLANS[[C]] == ByNsec(CHILD)
    ensures Offered(net[[C]], [C], [B, W, C], TXT, Unknown(Token([STAR] + [C])))
  {
    hide Family;
    hide HonestNsecChain;
    hide HonestZone;
    hide NsecsPublished;
    hide Token;
    hide ValidName;
    DeepName();
    hide Lookup;
    assert SignedBy(h, [C], PLANS[[C]], net[[C]]);
    assert [STAR] + [C] == [STAR, C];
    assert TXT in CHILD.types[[STAR] + [C]] && [B, W, C] !in CHILD.types;
    hide CHILD;
    assert Publication(CHILD, net[[C]].nsecs)[([STAR] + [C], TXT)] == {Unknown(Token([STAR] + [C]))};
  }

  // ---- an unsigned delegation in an opt-out interval ----

  /** A digest that is the length of its input, in 20 octets. */
  function LengthDigest(x: seq<int>): seq<byte> {
    [|x| % 256] + seq(19, _ => 0)
  }

  const H: Hasher := (x: seq<int>, salt: seq<byte>, iterations: int) => LengthDigest(x)
  const P := Params([], 0)

  const OPEN := Zone([], map[[] := {RecordTypes.SOA}, [C] := {RecordTypes.NS}], {[C]})

  const SPAN := Nsec3(1, 1, 0, [], LengthDigest([0]), LengthDigest([0]), TypeBitmap.Encoded({RecordTypes.SOA}))

  lemma OpenValid()
    ensures OPEN.Valid()
  {
    hide ValidName;
    hide Fold;
    ProperNames();
    PairValid(OPEN, [C]);
  }

  lemma Digests()
    ensures Wire([]) == [0] && Wire([C]) == [1, 99, 0] && Wire([STAR]) == [1, 42, 0]
    ensures Lower(Wire([])) == Wire([]) && Lower(Wire([C])) == Wire([C]) && Lower(Wire([STAR])) == Wire([STAR])
    ensures CoverHash(LengthDigest([0]), LengthDigest([0]), LengthDigest([1, 99, 0]))
    ensures CoverHash(LengthDigest([0]), LengthDigest([0]), LengthDigest([1, 42, 0]))
  {
    hide LengthDigest;
    hide BytesLess;
    assert [C][1..] == [] && [STAR][1..] == [];
    DigestOrder([0], [1, 99, 0]);
    DigestOrder([0], [1, 42, 0]);
    NotBothWays(LengthDigest([0]), LengthDigest([0]));
  }

  lemma NotBothWays(a: seq<int>, b: seq<int>)
    ensures !(BytesLess(a, b) && BytesLess(b, a))
  {
    BytesLessTotal();
    assert BytesLess(a, b) && BytesLess(b, a) ==> BytesLess(a, a);
  }

  lemma SpanCovers()
    ensures SPAN.Matches(H, []) && SPAN.Covers(H, [C]) && SPAN.Covers(H, [STAR])
  {
    Digests();
  }

  lemma OpenChainHonest()
    ensures HonestChain(OPEN, H, P, [SPAN])
  {
    Digests();
    SpanCovers();
    assert HashName(H, P, []) == SPAN.ownerHash;
    forall t: u16 ensures SPAN.Lists(t) <==> t in OPEN.types[[]] {
      TypeBitmap.Membership({RecordTypes.SOA}, t);
    }
    assert Describes(OPEN, H, P, SPAN, []);
    assert Owners([SPAN])[0] == SPAN.ownerHash && [SPAN][0].OptOut() && [SPAN][0].Covers(H, [C]);
    forall n: Name ensures Accounted(OPEN, H, P, [SPAN], n) {
    }
  }

  lemma DelegationIsDenied()
    ensures Nsec3Nxdomain(H, [SPAN], [C], [])
  {
    SpanCovers();
    ProperNames();
    assert [C][1..] == [] && [C][0..] == [C];
    assert AnyMatches(H, [SPAN], []) && AnyCovers(H, [SPAN], [C]) && AnyCovers(H, [SPAN], [STAR]) by {
      assert [SPAN][0].Matches(H, []) && [SPAN][0].Covers(H, [C]) && [SPAN][0].Covers(H, [STAR]);
    }
    assert |Wire([STAR])| <= MAX_NAME_WIRE by {
      Digests();
    }
    assert [STAR] + [] == [STAR] && WildcardOf([]) == Some([STAR]);
    assert ClosestMatch(H, [SPAN], [C], [], 1) && DeniesNextCloser(H, [SPAN], [C], 1) && DeniesWildcard(H, [SPAN], [C], 1);
  }

  lemma OpenFamily()
    ensures Family(H, map[[] := ByNsec3(OPEN, P, [SPAN])])
  {
    OpenValid();
    OpenChainHonest();
  }

  lemma MissingName()
    ensures ValidName([STAR] + ([B] + [C])) && Fold([STAR] + ([B] + [C])) == [STAR] + ([B] + [C])
  {
    var q := [STAR] + ([B] + [C]);
    assert LowerLabel(B) == B && LowerLabel(C) == C && LowerLabel(STAR) == STAR;
    assert q == [STAR, B, C] && q[1..] == [B, C] && [B, C][1..] == [C] && [C][1..] == [];
    assert Wire([]) == [0] && |Wire([C])| == 3 && |Wire([B, C])| == 5 && |Wire(q)| == 7;
  }

  /** Over an honest network a name that a wildcard answers is denied as secure, by a record as it was signed. */
  lemma AncestorsMislead(h: Hasher) returns (w: World, net: Net, n: Nsec, msg: Message)
    ensures HonestNet.Honest(w, net) && [C] in net && net[[C]].data == CHILD
    ensures n in net[[C]].nsecs && Nsecs(w, msg, net[[C]].keys) == [n]
    ensures SecureDenial(w, [C], [STAR] + ([B] + [C]), A, msg) && msg.rcode == RecordTypes.NXDOMAIN
    ensures Lookup(CHILD, [STAR] + ([B] + [C])) == Expanded([STAR] + [C])
  {
    hide Reached;
    hide SecureDenial;
    hide Lookup;
    w, net := ZoneReached(h, [C]);
    MissingName();
    assert [STAR] + [C] == [STAR, C] && [B] + [C] == [B, C];
    n, msg := AnswerMisjudged(w, net, [C], [C], B, A);
  }

  /** Over an honest network an unsigned delegation inside an opt-out interval is denied as secure. */
  lemma OptOutMisleads() returns (w: World, net: Net, msg: Message)
    ensures HonestNet.Honest(w, net) && [] in net && net[[]].data == OPEN
    ensures SecureDenial(w, [], [C], A, msg) && msg.rcode == RecordTypes.NXDOMAIN
    ensures Lookup(OPEN, [C]) == Found([C]) && Owner(OPEN, [C])
  {
    hide Family;
    hide HonestNet.Honest;
    hide Validated;
    hide Nsec3Nxdomain;
    hide SPAN;
    var plans: map<Name, Plan> := map[[] := ByNsec3(OPEN, P, [SPAN])];
    OpenFamily();
    DelegationIsDenied();
    ProperNames();
    var rr := SpanRecord();
    net := NetOf(H, plans);
    w, msg := ChainIsJudged(H, plans, [], [rr], [C], A);
  }

  lemma SpanRecord() returns (rr: RR)
    ensures Carries([rr], [SPAN])
  {
    hide ParseNsec3;
    rr := RecordOnWire(SPAN);
  }

  // ---- a signed zone whose DS and NS answers come back empty ----

  const TOP := Zone([], map[[] := {RecordTypes.SOA}, [C] := {RecordTypes.NS, RecordTypes.DS}], {})

  /** The two intervals of the root's chain, both with the opt-out flag. */
  const FIRST := Nsec3(1, 1, 0, [], LengthDigest([0]), LengthDigest([1, 99, 0]), TypeBitmap.Encoded({RecordTypes.SOA}))
  const SECOND := Nsec3(1, 1, 0, [], LengthDigest([1, 99, 0]), LengthDigest([0]),
                        TypeBitmap.Encoded({RecordTypes.NS, RecordTypes.DS}))

  const TWO_ZONES: map<Name, Plan> := map[[] := ByNsec3(TOP, P, [FIRST, SECOND]), [C] := ByNsec(CHILD)]

  lemma TopValid()
    ensures TOP.Valid()
  {
    hide ValidName;
    hide Fold;
    ProperNames();
    PairValid(TOP, [C]);
  }

  lemma SecondCovers()
    ensures Wire([W, C]) == [1, 119, 1, 99, 0] && Lower(Wire([W, C])) == Wire([W, C]) && SECOND.Covers(H, [W, C])
  {
    hide LengthDigest;
    hide BytesLess;
    Digests();
    assert [W, C][1..] == [C];
    DigestOrder([1, 99, 0], [1, 119, 1, 99, 0]);
    DigestOrder([0], [1, 99, 0]);
    NotBothWays(LengthDigest([0]), LengthDigest([1, 99, 0]));
  }

  lemma TopTypes(t: u16)
    ensures FIRST.Lists(t) <==> t in TOP.types[[]]
    ensures SECOND.Lists(t) <==> t in TOP.types[[C]]
  {
    TypeBitmap.Membership({RecordTypes.SOA}, t);
    TypeBitmap.Membership({RecordTypes.NS, RecordTypes.DS}, t);
  }

  lemma DigestOrder(x: seq<int>, y: seq<int>)
    requires |x| % 256 < |y| % 256
    ensures BytesLess(LengthDigest(x), LengthDigest(y))
  {
    assert LengthDigest(x)[0] == |x| % 256 && LengthDigest(y)[0] == |y| % 256;
  }

  lemma PairLinked(a: Nsec3, b: Nsec3)
    requires BytesLess(a.ownerHash, b.ownerHash) && a.nextHash == b.ownerHash && b.nextHash == a.ownerHash
    ensures Linked([a, b]) && Owners([a, b]) == [a.ownerHash, b.ownerHash]
  {
    hide BytesLess;
  }

  lemma TopHashes()
    ensures HashName(H, P, []) == FIRST.ownerHash == SECOND.nextHash
    ensures HashName(H, P, [C]) == SECOND.ownerHash == FIRST.nextHash
  {
    Digests();
  }

  lemma TopRecordsHonest()
    ensures Zones.Honest(TOP, H, P, FIRST) && Zones.Honest(TOP, H, P, SECOND)
  {
    TopHashes();
    forall t: u16 ensures (FIRST.Lists(t) <==> t in TOP.types[[]]) && (SECOND.Lists(t) <==> t in TOP.types[[C]]) {
      TopTypes(t);
    }
    assert Describes(TOP, H, P, FIRST, []) && Describes(TOP, H, P, SECOND, [C]);
  }

  lemma PairHonest(z: Zone, h: Hasher, p: Params, c: Name, a: Nsec3, b: Nsec3)
    requires z.types.Keys == {[], c} && z.optedOut == {} && Zones.Honest(z, h, p, a) && Zones.Honest(z, h, p, b)
    requires Linked([a, b]) && Owners([a, b]) == [a.ownerHash, b.ownerHash]
    requires a.ownerHash == HashName(h, p, []) && b.ownerHash == HashName(h, p, c)
    ensures HonestChain(z, h, p, [a, b])
  {
    hide Zones.Honest;
    hide Linked;
    hide HashName;
    forall n: Name ensures Accounted(z, h, p, [a, b], n) {
      assert z.Signed(n) ==> n == [] || n == c;
      assert Owners([a, b])[0] == a.ownerHash && Owners([a, b])[1] == b.ownerHash;
    }
  }

  lemma TopChainHonest()
    ensures HonestChain(TOP, H, P, [FIRST, SECOND])
  {
    hide BytesLess;
    hide HashName;
    hide Linked;
    hide Zones.Honest;
    hide LengthDigest;
    hide HonestChain;
    TopHashes();
    TopRecordsHonest();
    DigestOrder([0], [1, 99, 0]);
    PairLinked(FIRST, SECOND);
    PairHonest(TOP, H, P, [C], FIRST, SECOND);
  }

  lemma TwoZonesFamily()
    ensures Family(H, TWO_ZONES)
  {
    hide HonestChain;
    hide FIRST;
    hide SECOND;
    TopValid();
    ZonesValid();
    TopChainHonest();
    assert WellPlanned(H, [], ByNsec3(TOP, P, [FIRST, SECOND])) && WellPlanned(H, [C], ByNsec(CHILD));
    assert [C][1..] == [] && Deepest(TWO_ZONES.Keys, []) == [];
    assert HasDs(TWO_ZONES, [], [C]);
  }

  lemma RecordOnWire(r: Nsec3) returns (rr: RR)
    requires |r.ownerHash| == 20 && |r.salt| < 256 && |r.nextHash| < 256
    ensures ParseNsec3(rr.owner, rr.rdata) == Some(r)
  {
    hide ParseNsec3;
    OwnerFits(r, []);
    assert Wire([]) == [0];
    rr := ToRR(r, []).value;
    WireRoundTrip(r, []);
  }

  lemma TopRecords() returns (rrs: seq<RR>)
    ensures Carries(rrs, [FIRST, SECOND])
  {
    hide ParseNsec3;
    var a := RecordOnWire(FIRST);
    var b := RecordOnWire(SECOND);
    rrs := [a, b];
  }

  /** The root's keys, nothing for the signed zone, and below it a cut denied by the root's records. */
  ghost function Stripping(denial: Message, n: Name, t: u16): Option<Message> {
    if n == [] && t == RecordTypes.DNSKEY then Some(KeyAnswer([]))
    else if n == [C] && t == RecordTypes.DS then Some(NOTHING)
    else if n == [W, C] && t == RecordTypes.DS then Some(denial)
    else if n == [W, C] && t == RecordTypes.NS then Some(Message(0, [Record([W, C], RecordTypes.NS, 3600, Unknown([]))], []))
    else None
  }

  lemma DenialAccepted(w: World, net: Net, rrs: seq<RR>)
    requires Follows(w, net) && w.hash == H && [] in net && net[[]].chain == [FIRST, SECOND] && Carries(rrs, [FIRST, SECOND])
    ensures DenialSecure(w, DenialMessage(RecordTypes.NXDOMAIN, [], rrs), [W, C], net[[]].keys)
  {
    hide Follows;
    hide Carries;
    hide Delivered;
    hide FIRST;
    var msg, recs := DenialMessage(RecordTypes.NXDOMAIN, [], rrs), [FIRST, SECOND];
    MessageDelivers(w, net, RecordTypes.NXDOMAIN, [], rrs);
    assert msg.authority[..|msg.authority|] == msg.authority;
    DeliveredRecords(w, msg, net[[]].keys, recs);
    SecondCovers();
    assert recs[1].OptOut() && recs[1].Covers(H, [W, C]);
  }

  lemma WalkStops(w: World, net: Net, denial: Message)
    requires Follows(w, net) && [] in net && forall n, t :: w.fetch(n, t) == Stripping(denial, n, t)
    requires denial.answers == [] && DenialSecure(w, denial, [W, C], net[[]].keys)
    ensures Walk(w, [W, C]) == Unsigned
  {
    hide RefValidates;
    hide DenialSecure;
    var keys := net[[]].keys;
    assert [W, C][1..] == [C] && [C][1..] == [];
    assert w.fetch([], RecordTypes.DNSKEY) == Some(KeyAnswer([]));
    assert Walk(w, []) == Trusted(keys);
    assert w.fetch([C], RecordTypes.DS) == Some(NOTHING) && w.fetch([C], RecordTypes.NS) == None;
    assert Step(w, [C], keys) == Trusted(keys);
    assert Walk(w, [C]) == Trusted(keys);
    var ns := w.fetch([W, C], RecordTypes.NS).value;
    assert Messages.Owned(ns.answers[0], [W, C], RecordTypes.NS);
    assert w.fetch([W, C], RecordTypes.DS) == Some(denial);
    assert Step(w, [W, C], keys) == Unsigned;
  }

  lemma TwoZonesNet()
    ensures Family(H, TWO_ZONES)
    ensures var net := NetOf(H, TWO_ZONES);
            && net.Keys == {[], [C]} && net[[]].chain == [FIRST, SECOND] && net[[C]].data == CHILD
            && WellSigned(H, net)
  {
    hide Family;
    hide HonestZone;
    hide NsecsPublished;
    hide HonestNsecChain;
    hide WellSigned;
    hide FIRST;
    hide SECOND;
    hide TOP;
    hide CHILD;
    TwoZonesFamily();
    FamilyIsWellSigned(H, TWO_ZONES);
    var net := NetOf(H, TWO_ZONES);
    assert SignedBy(H, [], TWO_ZONES[[]], net[[]]) && SignedBy(H, [C], TWO_ZONES[[C]], net[[C]]);
  }

  lemma OwnNameProtected(net: Net)
    requires net.Keys == {[], [C]} && net[[C]].data == CHILD
    ensures Protected(net, [W, C])
  {
    ChildOfZone(net.Keys, W);
    assert [W, C][0..] == [W, C];
    assert CHILD.Signed([W, C]) && !CutAt(CHILD, [W, C]);
    hide CHILD;
  }

  /** Over an honest network a name of a signed zone is judged insecure once that zone is stripped. */
  lemma StrippingMisleads() returns (w: World, net: Net)
    ensures HonestNet.Honest(w, net) && Protected(net, [W, C])
    ensures Stripped(w, [C]) && Validated(w, [W, C], A, NOTHING).0 == Insecure
  {
    hide Family;
    hide HonestNet.Honest;
    hide Walk;
    hide Follows;
    hide WellSigned;
    hide DenialSecure;
    hide SignedBy;
    hide Carries;
    hide FIRST;
    hide SECOND;
    hide CHILD;
    hide TWO_ZONES;
    TwoZonesNet();
    var rrs := TopRecords();
    net := NetOf(H, TWO_ZONES);
    var denial := DenialMessage(RecordTypes.NXDOMAIN, [], rrs);
    var fetch := (n: Name, t: u16) => Stripping(denial, n, t);
    w := Reference(H, net, fetch);
    ReferenceFollows(H, net, fetch);
    ReferenceIsHonest(w, net);
    DenialAccepted(w, net, rrs);
    WalkStops(w, net, denial);
    assert w.fetch([C], RecordTypes.DS) == Some(NOTHING) && w.fetch([C], RecordTypes.NS) == None;
    OwnNameProtected(net);
    ProperNames();
    UnsignedIsInsecure(w, [W, C], A);
  }
}
