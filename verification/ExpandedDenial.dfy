/**
 NSEC records that validate as wildcard expansions. A signature made for `*.s` also validates its
 record set at any owner below `s` (section 5.3.2 of RFC 4035), and the validator takes such sets
 as denial records (src/dns/dnssec_chain.rs). Here is exactly for which zones the NSEC checks stay
 true with them.
 */
module ExpandedDenial {
  import opened Prelude
  import opened Names
  import opened Order
  import opened Ring
  import opened Denial
  import opened Zones
  import opened NsecProofs
  import RecordTypes
  import TypeBitmap

  predicate WildcardName(n: Name) {
    n != [] && n[0] == STAR
  }

  /** The record as signed, if its owner was expanded from the wildcard above its last `|owner| - i` labels. */
  function Unexpanded(n: Nsec, i: nat): Nsec
    requires i <= |n.owner|
  {
    Nsec([STAR] + Fold(n.owner)[i..], Fold(n.next), n.bitmap)
  }

  ghost predicate ExpandedAt(chain: seq<Nsec>, n: Nsec, i: nat) {
    1 <= i <= |n.owner| && Unexpanded(n, i) in chain
  }

  /** What the zone's signatures validate: its records, and their expansions. */
  ghost predicate Presented(chain: seq<Nsec>, n: Nsec) {
    FoldNsec(n) in chain || exists i :: ExpandedAt(chain, n, i)
  }

  ghost predicate AllPresented(chain: seq<Nsec>, nsecs: seq<Nsec>) {
    forall n :: n in nsecs ==> Presented(chain, n)
  }

  ghost predicate NoWildcard(chain: seq<Nsec>) {
    forall k :: 0 <= k < |chain| ==> !WildcardName(chain[k].owner)
  }

  lemma PresentedIsShown(chain: seq<Nsec>, nsecs: seq<Nsec>)
    requires NoWildcard(chain) && AllPresented(chain, nsecs)
    ensures NsecShown(nsecs, chain)
  {
    forall n | n in nsecs ensures FoldNsec(n) in chain {
      assert Presented(chain, n);
    }
  }

  // ---- the order around a wildcard ----

  /** A name comes after its ancestors. */
  lemma AncestorFirst(u: Name, s: Name)
    requires u != []
    ensures NameLess(s, u + s)
  {
    BytesLessTotal();
    assert Reverse(u + s) == Reverse(s) + Reverse(u) && Reverse(s) == Reverse(s) + [];
    LexConcat(BytesLess, Reverse(s), Reverse(s), [], Reverse(u));
  }

  lemma SiblingOrder(a: Label, b: Label, s: Name)
    requires BytesLess(a, b)
    ensures NameLess([a] + s, [b] + s)
  {
    BytesLessTotal();
    assert Reverse([a] + s) == Reverse(s) + [a] && Reverse([b] + s) == Reverse(s) + [b];
    LexConcat(BytesLess, Reverse(s), Reverse(s), [a], [b]);
  }

  const LEAST: Label := [0]

  /** The first child of `s` in canonical order, as an owner for the record of `*.s`. */
  function AtFirstChild(s: Name, n: Nsec): Nsec {
    Nsec([LEAST] + s, n.next, n.bitmap)
  }

  /** One record of an honest chain. */
  lemma RecordAtIndex(z: Zone, chain: seq<Nsec>, k: nat)
    requires HonestNsecChain(z, chain) && k < |chain|
    ensures Owner(z, chain[k].owner) && chain[k].next == chain[Successor(k, |chain|)].owner
    ensures forall t: u16 :: TypeBitmap.Has(chain[k].bitmap, t) <==> t in z.types[chain[k].owner]
    ensures k + 1 < |chain| ==> NameLess(chain[k].owner, chain[k + 1].owner)
  {
    hide NameLess;
    assert NsecOwners(chain)[k] == chain[k].owner;
    assert k + 1 < |chain| ==> NsecOwners(chain)[k + 1] == chain[k + 1].owner;
  }

  lemma FirstIsApex(z: Zone, chain: seq<Nsec>)
    requires HonestNsecChain(z, chain) && Owner(z, z.apex)
    ensures chain != [] && (chain[0].owner == z.apex || NameLess(chain[0].owner, z.apex))
  {
    hide NameLess;
    assert z.apex in NsecOwners(chain);
    var a :| 0 <= a < |chain| && NsecOwners(chain)[a] == z.apex;
    assert a == 0 || NameLess(NsecOwners(chain)[0], NsecOwners(chain)[a]);
  }

  lemma LessIsStrict(a: Name, mid: Name, b: Name)
    requires (a == mid || NameLess(a, mid)) && NameLess(mid, b)
    ensures !NameLess(b, a)
  {
    hide NameLess;
    NameLessTotal();
    assert NameLess(a, b);
    assert NameLess(b, a) ==> NameLess(a, a);
  }

  /** Where a wildcard stands in a zone: below the apex, like its parent. */
  lemma WildcardPlace(z: Zone, s: Name)
    requires z.Valid() && Owner(z, [STAR] + s) && !WildcardName(z.apex)
    ensures Above(z.apex, s) && Fold(s) == s && ValidName([STAR] + s) && Fold([STAR] + s) == [STAR] + s
  {
    var star := [STAR] + s;
    assert z.WellPlaced(star) && star != z.apex;
    assert star[1..] == s && z.WellPlaced(s);
  }

  /** In an honest chain the record after a wildcard lies after it, or is the first one. */
  lemma NextOfWildcard(z: Zone, chain: seq<Nsec>, k: nat, s: Name)
    requires HonestNsecChain(z, chain) && Owner(z, z.apex) && Above(z.apex, s)
    requires k < |chain| && chain[k].owner == [STAR] + s
    ensures NameLess([STAR] + s, chain[k].next) || !NameLess([LEAST] + s, chain[k].next)
  {
    hide HonestNsecChain;
    hide NameLess;
    RecordAtIndex(z, chain, k);
    if k + 1 == |chain| {
      FirstIsApex(z, chain);
      var u := s[..|s| - |z.apex|];
      assert s == u + z.apex;
      assert [LEAST] + s == ([LEAST] + u) + z.apex;
      AncestorFirst([LEAST] + u, z.apex);
      LessIsStrict(chain[0].owner, z.apex, [LEAST] + s);
    }
  }

  lemma FoldPrepend(l: Label, s: Name)
    requires LowerLabel(l) == l && Fold(s) == s
    ensures Fold([l] + s) == [l] + s
  {
    var n := [l] + s;
    forall i | 0 <= i < |n| ensures Fold(n)[i] == n[i] {
      assert i > 0 ==> n[i] == s[i - 1] && Fold(s)[i - 1] == LowerLabel(s[i - 1]);
    }
  }

  lemma FirstChildPresented(chain: seq<Nsec>, k: nat, s: Name)
    requires k < |chain| && chain[k].owner == [STAR] + s && Fold(s) == s && Fold(chain[k].next) == chain[k].next
    ensures var r := AtFirstChild(s, chain[k]); Presented(chain, r) && FoldNsec(r) == r
  {
    var r := AtFirstChild(s, chain[k]);
    assert LowerLabel(LEAST) == LEAST;
    FoldPrepend(LEAST, s);
    assert r.owner[1..] == s;
    assert Unexpanded(r, 1) == chain[k];
    assert ExpandedAt(chain, r, 1);
  }

  /** The record of `*.s`, expanded to the first child of `s`, covers `*.s` itself. */
  lemma ExpansionCoversWildcard(z: Zone, chain: seq<Nsec>, k: nat, s: Name)
    requires z.Valid() && HonestNsecChain(z, chain) && Owner(z, z.apex) && !WildcardName(z.apex)
    requires k < |chain| && chain[k].owner == [STAR] + s
    ensures var r := AtFirstChild(s, chain[k]);
            && Presented(chain, r) && FoldNsec(r) == r && ValidName(r.owner)
            && NsecCovers(r.owner, r.next, [STAR] + s)
    ensures Owner(z, [STAR] + s)
  {
    hide HonestNsecChain;
    hide NameLess;
    hide Presented;
    var r, star := AtFirstChild(s, chain[k]), [STAR] + s;
    RecordAtIndex(z, chain, k);
    WildcardPlace(z, s);
    NextOfWildcard(z, chain, k, s);
    FoldedRecord(z, chain, chain[k]);
    FirstChildPresented(chain, k, s);
    SameLengthOwner(s);
    assert BytesLess(LEAST, STAR);
    SiblingOrder(LEAST, STAR, s);
    WrapsOrNot(r.owner, r.next, star);
    CoversIsBetween(r, star);
  }

  lemma WrapsOrNot(owner: Name, next: Name, x: Name)
    requires NameLess(owner, x) && (NameLess(x, next) || !NameLess(owner, next))
    ensures NameBetween(owner, next, x)
  {
  }

  lemma SameLengthOwner(s: Name)
    requires ValidName([STAR] + s)
    ensures ValidName([LEAST] + s)
  {
    var a, b := [STAR] + s, [LEAST] + s;
    assert a[1..] == s && b[1..] == s;
    assert |Wire(a)| == |Wire(b)|;
    forall i | 0 <= i < |b| ensures 1 <= |b[i]| <= MAX_LABEL {
      assert i > 0 ==> b[i] == a[i];
    }
  }

  // ---- non-existence ----

  /** The check denies a name that owns records. */
  ghost predicate DeniedInError(z: Zone, chain: seq<Nsec>, nsecs: seq<Nsec>, q: Name) {
    AllPresented(chain, nsecs) && ValidName(q) && NsecNxdomain(nsecs, q, z.apex) && Owner(z, Fold(q))
  }

  /** One record is enough to deny an existing wildcard name. */
  lemma WildcardIsDenied(z: Zone, chain: seq<Nsec>, k: nat, s: Name)
    requires z.Valid() && HonestNsecChain(z, chain) && Owner(z, z.apex) && !WildcardName(z.apex)
    requires k < |chain| && chain[k].owner == [STAR] + s
    ensures DeniedInError(z, chain, [AtFirstChild(s, chain[k])], [STAR] + s)
  {
    hide HonestNsecChain;
    hide NsecCovers;
    hide NsecNxdomain;
    hide Presented;
    hide ValidName;
    hide AtFirstChild;
    hide Owner;
    ExpansionCoversWildcard(z, chain, k, s);
    WildcardPlace(z, s);
    FoldedApex(z);
    assert InZone(s, z.apex);
    CoveredWildcardIsDenied(AtFirstChild(s, chain[k]), s, z.apex);
  }

  lemma NoneDenied(z: Zone, chain: seq<Nsec>, nsecs: seq<Nsec>, q: Name)
    requires HonestNsecChain(z, chain) && NoWildcard(chain)
    ensures !DeniedInError(z, chain, nsecs, q)
  {
    hide HonestNsecChain;
    if AllPresented(chain, nsecs) && AnyNsecCovers(nsecs, q) {
      PresentedIsShown(chain, nsecs);
      NonexistenceSound(z, chain, nsecs, q);
    }
  }

  /**
   Of all the records a zone's signatures validate, none makes the NXDOMAIN check deny a name that
   owns records, if and only if the zone has no wildcard.
   */
  lemma NxdomainTrueIffNoWildcard(z: Zone, chain: seq<Nsec>)
    requires z.Valid() && HonestNsecChain(z, chain) && Owner(z, z.apex) && !WildcardName(z.apex)
    ensures (forall nsecs, q :: !DeniedInError(z, chain, nsecs, q)) <==> NoWildcard(chain)
  {
    hide HonestNsecChain;
    if NoWildcard(chain) {
      forall nsecs, q ensures !DeniedInError(z, chain, nsecs, q) {
        NoneDenied(z, chain, nsecs, q);
      }
    } else {
      var k :| 0 <= k < |chain| && WildcardName(chain[k].owner);
      var s := chain[k].owner[1..];
      assert chain[k].owner == [STAR] + s;
      WildcardIsDenied(z, chain, k, s);
    }
  }

  // ---- missing types ----

  /** The record of `*.s`, expanded to a name below `s`. */
  function AtName(m: Name, n: Nsec): Nsec {
    Nsec(m, n.next, n.bitmap)
  }

  lemma ExpansionAtName(z: Zone, chain: seq<Nsec>, k: nat, s: Name, m: Name)
    requires z.Valid() && HonestNsecChain(z, chain) && k < |chain| && chain[k].owner == [STAR] + s
    requires Fold(m) == m && StrictlyBelow(m, s)
    ensures var r := AtName(m, chain[k]); Presented(chain, r) && FoldNsec(r) == r && SameName(r.owner, m)
  {
    FoldedRecord(z, chain, chain[k]);
    var r := AtName(m, chain[k]);
    assert ExpandedAt(chain, r, |m| - |s|) by {
      assert Unexpanded(r, |m| - |s|) == chain[k];
    }
  }

  ghost predicate TypeDeniedInError(z: Zone, chain: seq<Nsec>, n: Nsec, q: Name, t: u16) {
    Presented(chain, n) && ValidName(q) && NsecProvesNodata(n, q, t) && Fold(q) in z.types && t in z.types[Fold(q)]
  }

  /** Every name below a wildcard's parent owns only what the wildcard's record does not deny. */
  ghost predicate WildcardsAdmit(z: Zone) {
    forall s, m, t :: Admits(z, s, m, t)
  }

  predicate Admits(z: Zone, s: Name, m: Name, t: u16) {
    Owner(z, [STAR] + s) && m in z.types && StrictlyBelow(m, s) && t in z.types[m] ==> Shows(z.types[[STAR] + s], t)
  }

  /** A record with these types does not deny `t`. */
  predicate Shows(types: set<u16>, t: u16) {
    t in types || (t != RecordTypes.CNAME && RecordTypes.CNAME in types)
  }

  /**
   Of all the records a zone's signatures validate, none makes the NODATA check deny a type that
   the name owns, if and only if every wildcard has all the types of the names below its parent,
   or an alias.
   */
  lemma NodataTrueIffWildcardsAdmit(z: Zone, chain: seq<Nsec>)
    requires z.Valid() && HonestNsecChain(z, chain)
    ensures (forall n, q, t :: !TypeDeniedInError(z, chain, n, q, t)) <==> WildcardsAdmit(z)
  {
    if WildcardsAdmit(z) {
      forall n, q, t ensures !TypeDeniedInError(z, chain, n, q, t) {
        NoTypeDenied(z, chain, n, q, t);
      }
    } else {
      var s, m, t :| !Admits(z, s, m, t);
      var k := RecordOf(z, chain, [STAR] + s);
      TypeIsDenied(z, chain, k, s, m, t);
    }
  }

  lemma RecordOf(z: Zone, chain: seq<Nsec>, n: Name) returns (k: nat)
    requires HonestNsecChain(z, chain) && Owner(z, n)
    ensures k < |chain| && chain[k].owner == n
    ensures forall t: u16 :: TypeBitmap.Has(chain[k].bitmap, t) <==> t in z.types[n]
  {
    assert n in NsecOwners(chain);
    k :| 0 <= k < |chain| && NsecOwners(chain)[k] == n;
  }

  lemma TypeIsDenied(z: Zone, chain: seq<Nsec>, k: nat, s: Name, m: Name, t: u16)
    requires z.Valid() && HonestNsecChain(z, chain) && k < |chain| && chain[k].owner == [STAR] + s
    requires !Admits(z, s, m, t)
    ensures TypeDeniedInError(z, chain, AtName(m, chain[k]), m, t)
  {
    assert z.WellPlaced(m);
    ExpansionAtName(z, chain, k, s, m);
    assert TypeBitmap.Has(chain[k].bitmap, t) <==> t in z.types[[STAR] + s];
    assert TypeBitmap.Has(chain[k].bitmap, RecordTypes.CNAME) <==> RecordTypes.CNAME in z.types[[STAR] + s];
  }

  /** An expanded record belongs to a wildcard above. */
  lemma SourceOfExpansion(z: Zone, chain: seq<Nsec>, n: Nsec, i: nat) returns (s: Name)
    requires HonestNsecChain(z, chain) && ExpandedAt(chain, n, i)
    ensures s == Fold(n.owner)[i..] && StrictlyBelow(Fold(n.owner), s) && Owner(z, [STAR] + s)
    ensures forall t: u16 :: TypeBitmap.Has(n.bitmap, t) <==> t in z.types[[STAR] + s]
  {
    hide HonestNsecChain;
    s := Fold(n.owner)[i..];
    var k :| 0 <= k < |chain| && chain[k] == Unexpanded(n, i);
    RecordAtIndex(z, chain, k);
  }

  lemma NoTypeDenied(z: Zone, chain: seq<Nsec>, n: Nsec, q: Name, t: u16)
    requires HonestNsecChain(z, chain) && WildcardsAdmit(z)
    ensures !TypeDeniedInError(z, chain, n, q, t)
  {
    hide HonestNsecChain;
    if Presented(chain, n) && NsecProvesNodata(n, q, t) {
      if FoldNsec(n) in chain {
        NsecNodataSound(z, chain, n, q, t);
      } else {
        var i :| ExpandedAt(chain, n, i);
        var s := SourceOfExpansion(z, chain, n, i);
        assert Admits(z, s, Fold(q), t);
      }
    }
  }

  // ---- missing DS ----

  ghost predicate DsDeniedInError(z: Zone, chain: seq<Nsec>, nsecs: seq<Nsec>, q: Name) {
    && AllPresented(chain, nsecs) && ValidName(q) && NsecProvesNoDs(nsecs, q)
    && Fold(q) in z.types && RecordTypes.DS in z.types[Fold(q)]
  }

  predicate UnsignedWildcardCut(z: Zone, s: Name) {
    && Owner(z, [STAR] + s) && RecordTypes.NS in z.types[[STAR] + s]
    && RecordTypes.DS !in z.types[[STAR] + s] && RecordTypes.SOA !in z.types[[STAR] + s]
  }

  predicate SecureBelow(z: Zone, s: Name, m: Name) {
    UnsignedWildcardCut(z, s) && m in z.types && StrictlyBelow(m, s) && RecordTypes.DS in z.types[m]
  }

  /** No DS is denied in error if and only if no unsigned wildcard delegation stands beside a signed one. */
  lemma NoDsTrueIff(z: Zone, chain: seq<Nsec>)
    requires z.Valid() && HonestNsecChain(z, chain)
    ensures (forall nsecs, q :: !DsDeniedInError(z, chain, nsecs, q)) <==> (forall s, m :: !SecureBelow(z, s, m))
  {
    hide HonestNsecChain;
    hide DsDeniedInError;
    if s, m :| SecureBelow(z, s, m) {
      DsIsDenied(z, chain, s, m);
    } else {
      forall nsecs, q ensures !DsDeniedInError(z, chain, nsecs, q) {
        if DsDeniedInError(z, chain, nsecs, q) {
          DsDeniedMeans(z, chain, nsecs, q);
        }
      }
    }
  }

  lemma DsIsDenied(z: Zone, chain: seq<Nsec>, s: Name, m: Name)
    requires z.Valid() && HonestNsecChain(z, chain) && SecureBelow(z, s, m)
    ensures exists nsecs :: DsDeniedInError(z, chain, nsecs, m)
  {
    hide HonestNsecChain;
    var k := RecordOf(z, chain, [STAR] + s);
    assert z.WellPlaced(m);
    ExpansionAtName(z, chain, k, s, m);
    var nsecs := [AtName(m, chain[k])];
    assert SameName(nsecs[0].owner, m) && UnsignedCut(nsecs[0].bitmap);
    assert DsDeniedInError(z, chain, nsecs, m);
  }

  lemma DsDeniedMeans(z: Zone, chain: seq<Nsec>, nsecs: seq<Nsec>, q: Name)
    requires HonestNsecChain(z, chain) && DsDeniedInError(z, chain, nsecs, q)
    ensures exists s :: SecureBelow(z, s, Fold(q))
  {
    var k :| 0 <= k < |nsecs| && SameName(nsecs[k].owner, q) && UnsignedCut(nsecs[k].bitmap);
    var n := nsecs[k];
    assert n in nsecs && Presented(chain, n);
    if FoldNsec(n) in chain {
      MatchingNsec(z, chain, n, q);
    } else {
      var i :| ExpandedAt(chain, n, i);
      var s := SourceOfExpansion(z, chain, n, i);
      assert SecureBelow(z, s, Fold(q));
    }
  }
}
