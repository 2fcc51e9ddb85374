/**
 Exactly which names can be brought to an insecure verdict, when the answers fetched are arbitrary
 and only the signatures are honest.
 */
module InsecureLimits {
  import opened Prelude
  import opened Names
  import opened Denial
  import opened Zones
  import opened NsecProofs
  import opened ExpandedDenial
  import opened NegativeAnswers
  import opened Messages
  import opened ChainOfTrust
  import opened Verdicts
  import opened HonestNet
  import opened ReferenceNet
  import opened Families
  import opened EndToEnd
  import opened VerdictLimits
  import opened InsecureCuts
  import RecordTypes

  // ---- what a zone's signatures can deny ----

  ghost predicate NsecDenies(z: SignedZone, n: Name, r: Nsec) {
    r.owner == n && FoldNsec(r) == r && Presented(z.nsecs, r) && UnsignedCut(r.bitmap)
  }

  /** Some records of the zone, or expansions of them, prove that `n` has no DS. */
  ghost predicate Denies(h: Hasher, z: SignedZone, n: Name) {
    Nsec3ProvesNoDs(h, z.chain, n) || exists r :: NsecDenies(z, n, r)
  }

  /** A zone above `n[k..]` denies the DS at `n[k..]`. */
  ghost predicate DeniedAt(h: Hasher, net: Net, n: Name, k: nat, y: Name) {
    k < |n| && y in net && Above(y, n[k + 1..]) && Denies(h, net[y], n[k..])
  }

  lemma MoreRecordsDeny(h: Hasher, recs: seq<Nsec3>, chain: seq<Nsec3>, n: Name)
    requires (forall r :: r in recs ==> r in chain) && Nsec3ProvesNoDs(h, recs, n)
    ensures Nsec3ProvesNoDs(h, chain, n)
  {
    if i :| 0 <= i < |recs| && recs[i].Matches(h, n) && UnsignedCut(recs[i].bitmap) {
      assert recs[i] in recs;
      var j :| 0 <= j < |chain| && chain[j] == recs[i];
    } else {
      var i :| 0 <= i < |recs| && recs[i].OptOut() && recs[i].Covers(h, n);
      assert recs[i] in recs;
      var j :| 0 <= j < |chain| && chain[j] == recs[i];
    }
  }

  lemma FoldedDenies(z: SignedZone, n: Name, r: Nsec)
    requires Fold(n) == n && SameName(r.owner, n) && Presented(z.nsecs, r) && UnsignedCut(r.bitmap)
    ensures NsecDenies(z, n, Nsec(n, Fold(r.next), r.bitmap))
  {
    hide UnsignedCut;
    FoldIdempotent(r.next);
    var f := Nsec(n, Fold(r.next), r.bitmap);
    assert FoldNsec(f) == f == FoldNsec(r);
    if i :| ExpandedAt(z.nsecs, r, i) {
      assert Unexpanded(f, i) == Unexpanded(r, i);
      assert ExpandedAt(z.nsecs, f, i);
    }
  }

  /** An accepted denial comes from the zone whose keys were used. */
  lemma AcceptedIsDenied(w: World, net: Net, y: Name, msg: Message, n: Name)
    requires Unforgeable(w, net) && y in net && Fold(n) == n && DenialSecure(w, msg, n, net[y].keys)
    ensures Denies(w.hash, net[y], n)
  {
    hide Unforgeable;
    hide UnsignedCut;
    hide NsecDenies;
    hide Presented;
    hide Nsec3ProvesNoDs;
    var nsecs, recs := Nsecs(w, msg, net[y].keys), Nsec3s(w, msg, net[y].keys);
    if nsecs != [] {
      CollectedNsecs(w, net, y, msg);
      var i :| 0 <= i < |nsecs| && SameName(nsecs[i].owner, n) && UnsignedCut(nsecs[i].bitmap);
      assert nsecs[i] in nsecs;
      FoldedDenies(net[y], n, nsecs[i]);
    } else {
      forall r | r in recs ensures r in net[y].chain {
        CollectedNsec3(w, net, y, msg, r);
      }
      MoreRecordsDeny(w.hash, recs, net[y].chain, n);
    }
  }

  lemma StepDenies(w: World, child: Name, keys: seq<Bytes>)
    requires Step(w, child, keys) == Unsigned
    ensures w.fetch(child, RecordTypes.DS).Some? && DenialSecure(w, w.fetch(child, RecordTypes.DS).value, child, keys)
  {
    hide DenialSecure;
  }

  lemma InsecureIsDenied(w: World, net: Net, n: Name)
    requires Unforgeable(w, net) && Fold(n) == n && Walk(w, n) == Unsigned
    ensures exists k: nat, y :: DeniedAt(w.hash, net, n, k, y)
  {
    hide Unforgeable;
    hide Denies;
    hide DenialSecure;
    hide Walk;
    hide Step;
    var k := StopsAt(w, n);
    var y := TrustedIsGenuine(w, net, n[k + 1..]);
    StepDenies(w, n[k..], net[y].keys);
    FoldSuffix(n, k);
    AcceptedIsDenied(w, net, y, w.fetch(n[k..], RecordTypes.DS).value, n[k..]);
    assert DeniedAt(w.hash, net, n, k, y);
  }

  // ---- a denial can be delivered ----

  function CutAnswer(n: Name): Message {
    Message(0, [Record(n, RecordTypes.NS, 3600, Unknown([]))], [])
  }

  /** True answers down to `y`, silence below it, and at `target` a cut with the denial. */
  ghost function Silenced(net: Net, y: Name, target: Name, denial: Message, n: Name, t: u16): Option<Message> {
    if |n| <= |y| then Delivers(net, n, t)
    else if n == target && t == RecordTypes.DS then Some(denial)
    else if n == target && t == RecordTypes.NS then Some(CutAnswer(n))
    else if t == RecordTypes.DS then Some(NOTHING)
    else None
  }

  ghost predicate Silent(w: World, net: Net, y: Name, target: Name, denial: Message) {
    Follows(w, net) && forall n, t :: w.fetch(n, t) == Silenced(net, y, target, denial, n, t)
  }

  /** Below `y` the walk keeps its keys. */
  lemma {:induction false} KeysKept(w: World, net: Net, y: Name, target: Name, denial: Message, n: Name)
    requires Silent(w, net, y, target, denial) && Delegated(net) && y in net && Above(y, n) && |n| < |target|
    ensures Walk(w, n) == Trusted(net[y].keys)
  {
    hide Follows;
    hide Delegated;
    if |n| == |y| {
      assert n == y && ServesTo(w, net, |y|);
      WalkArrives(w, net, y);
    } else {
      assert n[1..][|n[1..]| - |y|..] == n[|n| - |y|..];
      KeysKept(w, net, y, target, denial, n[1..]);
      assert w.fetch(n, RecordTypes.DS) == Some(NOTHING) && w.fetch(n, RecordTypes.NS) == None;
    }
  }

  lemma DeniedIsInsecure(w: World, net: Net, y: Name, denial: Message, n: Name, k: nat)
    requires k < |n| && Silent(w, net, y, n[k..], denial) && Delegated(net) && y in net && Above(y, n[k + 1..])
    requires denial.answers == [] && DenialSecure(w, denial, n[k..], net[y].keys)
    ensures Walk(w, n) == Unsigned
  {
    hide Delegated;
    hide DenialSecure;
    hide Follows;
    var target := n[k..];
    assert target[1..] == n[k + 1..];
    KeysKept(w, net, y, target, denial, target[1..]);
    assert w.fetch(target, RecordTypes.DS) == Some(denial) && w.fetch(target, RecordTypes.NS) == Some(CutAnswer(target));
    assert Messages.Owned(CutAnswer(target).answers[0], target, RecordTypes.NS);
    assert Step(w, target, net[y].keys) == Unsigned;
    WalkStops(w, n, k);
  }

  /** Every chain of the family has a wire form. */
  ghost predicate OnWire(plans: map<Name, Plan>) {
    forall a :: a in plans && plans[a].ByNsec3? ==> exists rrs :: Carries(rrs, plans[a].chain)
  }

  /** Whatever the zone denies can be put in a message that is accepted. */
  lemma DenialDelivered(h: Hasher, plans: map<Name, Plan>, y: Name, n: Name) returns (denial: Message)
    requires Family(h, plans) && OnWire(plans) && y in plans && ValidName(n) && Denies(h, NetOf(h, plans)[y], n)
    ensures denial.answers == []
    ensures forall w: World :: w.hash == h && Follows(w, NetOf(h, plans)) ==> DenialSecure(w, denial, n, NetOf(h, plans)[y].keys)
  {
    hide Follows;
    hide Family;
    hide DenialSecure;
    hide Nsec3ProvesNoDs;
    hide NsecDenies;
    hide Carries;
    var net := NetOf(h, plans);
    assert SignedBy(h, y, plans[y], net[y]);
    if Nsec3ProvesNoDs(h, net[y].chain, n) {
      ByNsec3Only(h, net[y].chain, n);
      var rrs :| Carries(rrs, plans[y].chain);
      denial := DenialMessage(RecordTypes.NXDOMAIN, y, rrs);
      forall w: World | w.hash == h && Follows(w, net) ensures DenialSecure(w, denial, n, net[y].keys) {
        ChainDenies(w, net, y, rrs, n);
      }
    } else {
      var r :| NsecDenies(net[y], n, r);
      denial := NsecMessage(0, r.owner, NsecData(r), NSEC_SIG + Token(y));
      forall w: World | w.hash == h && Follows(w, net) ensures DenialSecure(w, denial, n, net[y].keys) {
        RecordDenies(w, h, plans, y, n, r);
      }
    }
  }

  lemma ByNsec3Only(h: Hasher, chain: seq<Nsec3>, n: Name)
    requires Nsec3ProvesNoDs(h, chain, n)
    ensures chain != []
  {
  }

  lemma ChainDenies(w: World, net: Net, y: Name, rrs: seq<RR>, n: Name)
    requires Follows(w, net) && y in net && Carries(rrs, net[y].chain) && Nsec3ProvesNoDs(w.hash, net[y].chain, n)
    ensures DenialSecure(w, DenialMessage(RecordTypes.NXDOMAIN, y, rrs), n, net[y].keys)
  {
    hide Follows;
    hide Carries;
    hide Delivered;
    ByNsec3Only(w.hash, net[y].chain, n);
    hide Nsec3ProvesNoDs;
    MessageDelivers(w, net, RecordTypes.NXDOMAIN, y, rrs);
    DeliveredRecords(w, DenialMessage(RecordTypes.NXDOMAIN, y, rrs), net[y].keys, net[y].chain);
  }

  lemma RecordDenies(w: World, h: Hasher, plans: map<Name, Plan>, y: Name, n: Name, r: Nsec)
    requires Family(h, plans) && y in plans && w.hash == h && Follows(w, NetOf(h, plans))
    requires ValidName(n) && NsecDenies(NetOf(h, plans)[y], n, r)
    ensures DenialSecure(w, NsecMessage(0, r.owner, NsecData(r), NSEC_SIG + Token(y)), n, NetOf(h, plans)[y].keys)
  {
    hide Follows;
    hide Family;
    hide Presented;
    hide HonestZone;
    hide NsecsPublished;
    hide Relayed;
    hide UnsignedCut;
    hide NsecData;
    hide WellSigned;
    var net := NetOf(h, plans);
    assert NsecSigned(net[y]) by {
      PlanSigned(h, plans, y, r);
    }
    FamilyIsWellSigned(h, plans);
    ProperApex(h, plans, y);
    RecordRelayed(w, net, y, r);
    MessageRecords(w, net[y], y, 0, r, NsecData(r), NSEC_SIG + Token(y));
    assert [r][0] == r && SameName(r.owner, n);
  }

  lemma PlanSigned(h: Hasher, plans: map<Name, Plan>, y: Name, r: Nsec)
    requires Family(h, plans) && y in plans && Presented(NetOf(h, plans)[y].nsecs, r)
    ensures NsecSigned(NetOf(h, plans)[y])
  {
    hide HonestNsecChain;
    hide HonestZone;
    hide NsecsPublished;
    assert SignedBy(h, y, plans[y], NetOf(h, plans)[y]) && WellPlanned(h, y, plans[y]);
  }

  lemma WalkIffDenied(h: Hasher, plans: map<Name, Plan>, n: Name)
    requires Family(h, plans) && OnWire(plans) && ValidName(n) && Fold(n) == n
    ensures var net := NetOf(h, plans);
            (exists fetch :: Walk(Reference(h, net, fetch), n) == Unsigned) <==> (exists k: nat, y :: DeniedAt(h, net, n, k, y))
  {
    hide Family;
    hide Denies;
    hide Walk;
    hide Reference;
    hide Follows;
    hide WellSigned;
    hide DenialSecure;
    var net := NetOf(h, plans);
    FamilyIsWellSigned(h, plans);
    if fetch :| Walk(Reference(h, net, fetch), n) == Unsigned {
      ReferenceFollows(h, net, fetch);
      ReferenceIsHonest(Reference(h, net, fetch), net);
      InsecureIsDenied(Reference(h, net, fetch), net, n);
    }
    if k: nat, y :| DeniedAt(h, net, n, k, y) {
      ValidSuffix(n, k);
      var denial := DenialDelivered(h, plans, y, n[k..]);
      var target := n[k..];
      var fetch := (m: Name, t: u16) => Silenced(net, y, target, denial, m, t);
      ReferenceFollows(h, net, fetch);
      DeniedIsInsecure(Reference(h, net, fetch), net, y, denial, n, k);
    }
  }

  /**
   Over a family of linked zones, some answers and some message bring a name to an insecure verdict
   if and only if some zone above a name on its path proves that name to have no DS.
   */
  lemma InsecureIffDenied(h: Hasher, plans: map<Name, Plan>, q: Name, t: u16)
    requires Family(h, plans) && OnWire(plans) && ValidName(q)
    ensures var net := NetOf(h, plans);
            (exists fetch, msg :: Validated(Reference(h, net, fetch), q, t, msg).0 == Insecure) <==>
            (exists k: nat, y :: DeniedAt(h, net, Fold(q), k, y))
  {
    hide Family;
    hide Walk;
    hide Validated;
    hide Reference;
    hide DeniedAt;
    hide OnWire;
    var net := NetOf(h, plans);
    ValidFold(q);
    FoldIdempotent(q);
    WalkIffDenied(h, plans, Fold(q));
    if fetch, msg :| Validated(Reference(h, net, fetch), q, t, msg).0 == Insecure {
      InsecureIffWalk(Reference(h, net, fetch), q, t);
    }
    if fetch :| Walk(Reference(h, net, fetch), Fold(q)) == Unsigned {
      InsecureIffWalk(Reference(h, net, fetch), q, t);
    }
  }
}
