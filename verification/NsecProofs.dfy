/** What the NSEC checks of `Denial` mean for an honest NSEC chain, where existing means owning records. */
module NsecProofs {
  import opened Prelude
  import opened Names
  import opened Ring
  import opened Denial
  import opened Zones
  import RecordTypes
  import TypeBitmap

  function FoldNsec(n: Nsec): Nsec {
    Nsec(Fold(n.owner), Fold(n.next), n.bitmap)
  }

  /** The records shown are, up to letter case, records of the chain. */
  ghost predicate NsecShown(nsecs: seq<Nsec>, chain: seq<Nsec>) {
    forall n :: n in nsecs ==> FoldNsec(n) in chain
  }

  predicate NameBetween(owner: seq<seq<int>>, next: seq<seq<int>>, x: seq<seq<int>>) {
    Between<seq<seq<int>>>(NameLess, owner, next, x)
  }

  lemma CoversIsBetween(n: Nsec, q: Name)
    ensures NsecCovers(n.owner, n.next, q) == NameBetween(Fold(n.owner), Fold(n.next), Fold(q))
  {
  }

  lemma NsecRingMisses(z: Zone, chain: seq<Nsec>, i: nat, x: seq<seq<int>>)
    requires Sorted(NameLess, NsecOwners(chain)) && i < |chain|
    requires NameBetween(chain[i].owner, chain[Successor(i, |chain|)].owner, x)
    ensures x !in NsecOwners(chain)
  {
    NameLessTotal();
    IntervalMissesPoints(NameLess, NsecOwners(chain), i, x);
  }

  lemma NsecRingCovers(chain: seq<Nsec>, x: seq<seq<int>>) returns (i: nat)
    requires Sorted(NameLess, NsecOwners(chain)) && chain != [] && x !in NsecOwners(chain)
    ensures i < |chain| && NameBetween(chain[i].owner, chain[Successor(i, |chain|)].owner, x)
  {
    NameLessTotal();
    i := IntervalExists(NameLess, NsecOwners(chain), x);
  }

  /** A covered name owns nothing. */
  lemma NonexistenceSound(z: Zone, chain: seq<Nsec>, nsecs: seq<Nsec>, q: Name)
    requires HonestNsecChain(z, chain) && NsecShown(nsecs, chain)
    requires AnyNsecCovers(nsecs, q)
    ensures !Owner(z, Fold(q))
  {
    var k :| 0 <= k < |nsecs| && NsecCovers(nsecs[k].owner, nsecs[k].next, q);
    assert nsecs[k] in nsecs;
    CoversIsBetween(nsecs[k], q);
    var i :| 0 <= i < |chain| && chain[i] == FoldNsec(nsecs[k]);
    NsecRingMisses(z, chain, i, Fold(q));
  }

  lemma NotAnOwner(z: Zone, chain: seq<Nsec>, x: Name)
    requires HonestNsecChain(z, chain) && !Owner(z, x)
    ensures x !in NsecOwners(chain)
  {
    hide NameLess;
  }

  lemma GapOf(z: Zone, chain: seq<Nsec>, x: Name) returns (i: nat)
    requires HonestNsecChain(z, chain) && chain != [] && !Owner(z, x)
    ensures i < |chain| && NameBetween(chain[i].owner, chain[i].next, x)
  {
    hide NameLess;
    NotAnOwner(z, chain, x);
    i := NsecRingCovers(chain, x);
  }

  lemma NonexistenceComplete(z: Zone, chain: seq<Nsec>, q: Name)
    requires z.Valid() && HonestNsecChain(z, chain) && chain != [] && !Owner(z, Fold(q))
    ensures AnyNsecCovers(chain, q)
  {
    hide HonestNsecChain;
    hide NameBetween;
    var i := GapOf(z, chain, Fold(q));
    FoldedRecord(z, chain, chain[i]);
    CoversIsBetween(chain[i], q);
  }

  /** With the whole chain: covered exactly when nothing is owned. */
  lemma NonexistenceExact(z: Zone, chain: seq<Nsec>, q: Name)
    requires z.Valid() && HonestNsecChain(z, chain) && chain != []
    ensures AnyNsecCovers(chain, q) <==> !Owner(z, Fold(q))
  {
    if !Owner(z, Fold(q)) {
      NonexistenceComplete(z, chain, q);
    } else {
      forall n | n in chain ensures FoldNsec(n) == n {
        FoldedRecord(z, chain, n);
      }
      if AnyNsecCovers(chain, q) {
        NonexistenceSound(z, chain, chain, q);
      }
    }
  }

  lemma FoldedRecord(z: Zone, chain: seq<Nsec>, n: Nsec)
    requires z.Valid() && HonestNsecChain(z, chain) && n in chain
    ensures FoldNsec(n) == n
  {
    var i :| 0 <= i < |chain| && chain[i] == n;
    assert z.WellPlaced(chain[i].owner) && z.WellPlaced(chain[Successor(i, |chain|)].owner);
  }

  /** An NXDOMAIN proof: the name owns nothing, and neither does the wildcard at some ancestor in the zone. */
  lemma NsecNxdomainSound(z: Zone, chain: seq<Nsec>, nsecs: seq<Nsec>, q: Name, zone: Name) returns (i: nat)
    requires HonestNsecChain(z, chain) && NsecShown(nsecs, chain)
    requires NsecNxdomain(nsecs, q, zone)
    ensures !Owner(z, Fold(q))
    ensures 1 <= i <= |q| && InZone(q[i..], zone) && !Owner(z, [STAR] + Fold(q)[i..])
  {
    hide HonestNsecChain;
    hide NsecShown;
    hide AnyNsecCovers;
    NonexistenceSound(z, chain, nsecs, q);
    i :| NsecDeniesWildcard(nsecs, q, zone, i);
    FoldSuffix(q, i);
    FoldWildcard(q[i..]);
    NonexistenceSound(z, chain, nsecs, [STAR] + q[i..]);
  }

  /** One record that covers a wildcard denies the wildcard name itself. */
  lemma CoveredWildcardIsDenied(n: Nsec, s: Name, zone: Name)
    requires NsecCovers(n.owner, n.next, [STAR] + s) && ValidName([STAR] + s) && InZone(s, zone)
    ensures NsecNxdomain([n], [STAR] + s, zone)
  {
    hide NsecCovers;
    hide ValidName;
    var star := [STAR] + s;
    assert star[1..] == s && [n][0] == n;
    WildcardFits(star, 1);
    assert NsecDeniesWildcard([n], star, zone, 1);
  }

  lemma MatchingNsec(z: Zone, chain: seq<Nsec>, n: Nsec, q: Name)
    requires HonestNsecChain(z, chain) && FoldNsec(n) in chain && SameName(n.owner, q)
    ensures Owner(z, Fold(q)) && forall t: u16 :: TypeBitmap.Has(n.bitmap, t) <==> t in z.types[Fold(q)]
  {
    var i :| 0 <= i < |chain| && chain[i] == FoldNsec(n);
  }

  lemma NsecNodataSound(z: Zone, chain: seq<Nsec>, n: Nsec, q: Name, t: u16)
    requires HonestNsecChain(z, chain) && FoldNsec(n) in chain
    requires NsecProvesNodata(n, q, t)
    ensures Owner(z, Fold(q)) && t !in z.types[Fold(q)]
    ensures t == RecordTypes.CNAME || RecordTypes.CNAME !in z.types[Fold(q)]
  {
    MatchingNsec(z, chain, n, q);
  }

  lemma NsecNoDsSound(z: Zone, chain: seq<Nsec>, nsecs: seq<Nsec>, q: Name)
    requires HonestNsecChain(z, chain) && NsecShown(nsecs, chain)
    requires NsecProvesNoDs(nsecs, q)
    ensures Owner(z, Fold(q))
    ensures RecordTypes.NS in z.types[Fold(q)] && RecordTypes.DS !in z.types[Fold(q)] && RecordTypes.SOA !in z.types[Fold(q)]
  {
    var k :| 0 <= k < |nsecs| && SameName(nsecs[k].owner, q) && UnsignedCut(nsecs[k].bitmap);
    assert nsecs[k] in nsecs;
    MatchingNsec(z, chain, nsecs[k], q);
  }
}
