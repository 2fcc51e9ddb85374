/**
 What the denial checks of `Denial` mean for an honestly signed zone: soundness for any
 selection of its records, completeness given all of them.
 */
module DenialProofs {
  import opened Prelude
  import opened Names
  import opened Ring
  import opened Denial
  import opened Zones
  import RecordTypes

  /** The records shown to the validator are records of the chain. */
  ghost predicate Shown(recs: seq<Nsec3>, chain: seq<Nsec3>) {
    forall r :: r in recs ==> r in chain
  }

  // ---- the ring of hashes ----

  lemma LinkedMisses(chain: seq<Nsec3>, i: nat, x: seq<int>)
    requires Linked(chain) && i < |chain|
    requires CoverHash(chain[i].ownerHash, chain[i].nextHash, x)
    ensures x !in Owners(chain)
  {
    BytesLessTotal();
    IntervalMissesPoints(BytesLess, Owners(chain), i, x);
  }

  lemma LinkedCovers(chain: seq<Nsec3>, x: seq<int>) returns (i: nat)
    requires Linked(chain) && chain != [] && x !in Owners(chain)
    ensures i < |chain| && CoverHash(chain[i].ownerHash, chain[i].nextHash, x)
  {
    BytesLessTotal();
    i := IntervalExists(BytesLess, Owners(chain), x);
  }

  lemma LinkedOnce(chain: seq<Nsec3>, i: nat, j: nat, x: seq<int>)
    requires Linked(chain) && i < |chain| && j < |chain|
    requires CoverHash(chain[i].ownerHash, chain[i].nextHash, x)
    requires CoverHash(chain[j].ownerHash, chain[j].nextHash, x)
    ensures i == j
  {
    BytesLessTotal();
    IntervalUnique(BytesLess, Owners(chain), x, i, j);
  }

  /** Hashing the name as received is hashing the folded name. */
  lemma HashOfReceived(h: Hasher, p: Params, r: Nsec3, q: Name)
    requires UsesParams(r, p) && ValidName(q)
    ensures r.Hash(h, q) == Some(HashName(h, p, Fold(q)))
  {
    LowerWire(q);
  }

  lemma MatchMeansSigned(z: Zone, h: Hasher, p: Params, chain: seq<Nsec3>, r: Nsec3, q: Name)
    requires HonestChain(z, h, p, chain) && r in chain && ValidName(q)
    requires r.Matches(h, q) && NoCollision(z, h, p, Fold(q))
    ensures Describes(z, h, p, r, Fold(q))
  {
    HashOfReceived(h, p, r, q);
    var n :| Describes(z, h, p, r, n);
    assert n == Fold(q);
  }

  lemma CoverMeansUnsigned(z: Zone, h: Hasher, p: Params, chain: seq<Nsec3>, r: Nsec3, q: Name)
    requires HonestChain(z, h, p, chain) && r in chain && ValidName(q)
    requires r.Covers(h, q)
    ensures !z.Signed(Fold(q))
    ensures HashName(h, p, Fold(q)) !in Owners(chain)
  {
    HashOfReceived(h, p, r, q);
    var i :| 0 <= i < |chain| && chain[i] == r;
    LinkedMisses(chain, i, HashName(h, p, Fold(q)));
    assert Accounted(z, h, p, chain, Fold(q));
  }

  /** A covering record without the opt-out flag denies the name altogether. */
  lemma CoverMeansAbsent(z: Zone, h: Hasher, p: Params, chain: seq<Nsec3>, r: Nsec3, q: Name)
    requires z.Valid() && HonestChain(z, h, p, chain) && r in chain && ValidName(q)
    requires r.Covers(h, q) && !r.OptOut()
    ensures Fold(q) !in z.types
  {
    CoverMeansUnsigned(z, h, p, chain, r, q);
    var n := Fold(q);
    if n in z.optedOut {
      assert z.WellPlaced(n) && Accounted(z, h, p, chain, n);
      var j :| 0 <= j < |chain| && chain[j].OptOut() && chain[j].Covers(h, n);
      var i :| 0 <= i < |chain| && chain[i] == r;
      HashOfReceived(h, p, r, q);
      assert chain[j] in chain;
      HashOfReceived(h, p, chain[j], n);
      FoldIdempotent(q);
      LinkedOnce(chain, i, j, HashName(h, p, n));
    }
  }

  /** Any hash outside the chain lies in exactly one interval, single-record chains included. */
  lemma CoveredExactlyOnce(z: Zone, h: Hasher, p: Params, chain: seq<Nsec3>, q: Name) returns (i: nat)
    requires HonestChain(z, h, p, chain) && chain != [] && ValidName(q)
    requires HashName(h, p, Fold(q)) !in Owners(chain)
    ensures i < |chain| && chain[i].Covers(h, q)
    ensures forall j :: 0 <= j < |chain| && chain[j].Covers(h, q) ==> j == i
  {
    var x := HashName(h, p, Fold(q));
    i := LinkedCovers(chain, x);
    assert chain[i] in chain;
    HashOfReceived(h, p, chain[i], q);
    forall j | 0 <= j < |chain| && chain[j].Covers(h, q) ensures j == i {
      assert chain[j] in chain;
      HashOfReceived(h, p, chain[j], q);
      LinkedOnce(chain, i, j, x);
    }
  }

  // ---- NXDOMAIN ----

  lemma AnyCoversMeansUnsigned(z: Zone, h: Hasher, p: Params, chain: seq<Nsec3>, recs: seq<Nsec3>, q: Name)
    requires HonestChain(z, h, p, chain) && Shown(recs, chain) && ValidName(q) && AnyCovers(h, recs, q)
    ensures !z.Signed(Fold(q))
  {
    var k :| 0 <= k < |recs| && recs[k].Covers(h, q);
    assert recs[k] in recs;
    CoverMeansUnsigned(z, h, p, chain, recs[k], q);
  }

  /** If the next closer name is covered, nothing at or below it is signed. */
  lemma NextCloserUnsigned(z: Zone, h: Hasher, p: Params, chain: seq<Nsec3>, recs: seq<Nsec3>, q: Name, zone: Name, i: nat)
    requires z.Valid() && HonestChain(z, h, p, chain) && Shown(recs, chain) && ValidName(q) && InZone(zone, z.apex)
    requires ClosestMatch(h, recs, q, zone, i) && DeniesNextCloser(h, recs, q, i)
    ensures forall j :: 0 <= j < i ==> !z.Signed(Fold(q)[j..])
  {
    ValidSuffix(q, i - 1);
    FoldSuffix(q, i - 1);
    AnyCoversMeansUnsigned(z, h, p, chain, recs, q[i - 1..]);
    NothingSignedBelow(z, Fold(q), i - 1);
  }

  /** A no-exact-match proof excludes every name but an opted-out one, whatever the hash does. */
  lemma NameAbsentSound(z: Zone, h: Hasher, p: Params, chain: seq<Nsec3>, recs: seq<Nsec3>, q: Name, zone: Name)
    requires z.Valid() && HonestChain(z, h, p, chain) && Shown(recs, chain) && ValidName(q) && InZone(zone, z.apex)
    requires Nsec3NameAbsent(h, recs, q, zone)
    ensures Fold(q) in z.types <==> Fold(q) in z.optedOut
  {
    var i :| ClosestMatch(h, recs, q, zone, i) && DeniesNextCloser(h, recs, q, i);
    NextCloserUnsigned(z, h, p, chain, recs, q, zone, i);
    assert Fold(q)[0..] == Fold(q);
  }

  lemma ClosestMatchExists(z: Zone, h: Hasher, p: Params, chain: seq<Nsec3>, recs: seq<Nsec3>, q: Name, i: nat)
    requires HonestChain(z, h, p, chain) && Shown(recs, chain) && ValidName(q) && i <= |q|
    requires NoCollision(z, h, p, Fold(q)[i..])
    requires AnyMatches(h, recs, q[i..])
    ensures Fold(q)[i..] in z.types
  {
    var k :| 0 <= k < |recs| && recs[k].Matches(h, q[i..]);
    assert recs[k] in recs;
    ValidSuffix(q, i);
    FoldSuffix(q, i);
    MatchMeansSigned(z, h, p, chain, recs[k], q[i..]);
  }

  /** Neither the next closer name nor the wildcard at the closest encloser is an opted-out delegation. */
  predicate NothingHidden(z: Zone, q: Name, i: nat)
    requires 1 <= i <= |q|
  {
    Fold(q)[i - 1..] !in z.optedOut && [STAR] + Fold(q)[i..] !in z.optedOut
  }

  /**
   An accepted proof: the matched ancestor is the true closest encloser and lookup gives no such
   name, if and only if no opted-out delegation hides in the intervals used.
   */
  lemma NxdomainSound(z: Zone, h: Hasher, p: Params, chain: seq<Nsec3>, recs: seq<Nsec3>, q: Name, zone: Name)
      returns (i: nat)
    requires z.Valid() && HonestChain(z, h, p, chain) && Shown(recs, chain) && ValidName(q) && InZone(zone, z.apex)
    requires NoQueryCollision(z, h, p, Fold(q))
    requires Nsec3Nxdomain(h, recs, q, zone)
    ensures ClosestMatch(h, recs, q, zone, i) && DeniesNextCloser(h, recs, q, i) && DeniesWildcard(h, recs, q, i)
    ensures (ClosestEncloser(z, Fold(q)) == Fold(q)[i..] && Lookup(z, Fold(q)) == NoSuchName) <==> NothingHidden(z, q, i)
  {
    i :| ClosestMatch(h, recs, q, zone, i) && DeniesNextCloser(h, recs, q, i) && DeniesWildcard(h, recs, q, i);
    NextCloserUnsigned(z, h, p, chain, recs, q, zone, i);
    ClosestMatchExists(z, h, p, chain, recs, q, i);
    WildcardUnsigned(z, h, p, chain, recs, q, i);
    LookupAt(z, Fold(q), i);
  }

  lemma WildcardUnsigned(z: Zone, h: Hasher, p: Params, chain: seq<Nsec3>, recs: seq<Nsec3>, q: Name, i: nat)
    requires HonestChain(z, h, p, chain) && Shown(recs, chain) && ValidName(q) && i <= |q| && DeniesWildcard(h, recs, q, i)
    ensures !z.Signed([STAR] + Fold(q)[i..])
  {
    ValidSuffix(q, i);
    ValidWildcard(q[i..]);
    FoldSuffix(q, i);
    FoldWildcard(q[i..]);
    AnyCoversMeansUnsigned(z, h, p, chain, recs, [STAR] + q[i..]);
  }

  /** Where the closest signed ancestor is known, only opted-out names are left to decide lookup. */
  lemma LookupAt(z: Zone, n: Name, i: nat)
    requires z.Valid() && 1 <= i <= |n| - |z.apex| && n[i..] in z.types && !z.Signed([STAR] + n[i..])
    requires forall j :: 0 <= j < i ==> !z.Signed(n[j..])
    ensures (ClosestEncloser(z, n) == n[i..] && Lookup(z, n) == NoSuchName) <==>
            n[i - 1..] !in z.optedOut && [STAR] + n[i..] !in z.optedOut
  {
    if n[i - 1..] in z.types {
      EncloserBelow(z, n, i - 1);
    } else {
      NothingBelow(z, n, i - 1);
      ClosestEncloserIs(z, n, i);
      assert n[0..] == n;
    }
  }

  /** Whether the wildcard at `s` answers `q` is decided by the matched ancestor, unless it hides a delegation. */
  predicate HashPlaces(z: Zone, q: Name, i: nat, s: Name)
    requires 1 <= i <= |q|
  {
    Fold(q)[i - 1..] !in z.optedOut ==> (Lookup(z, Fold(q)) == Expanded([STAR] + s) <==> Fold(q)[i..] == s)
  }

  lemma ExpansionMatched(z: Zone, h: Hasher, p: Params, chain: seq<Nsec3>, recs: seq<Nsec3>, q: Name, zone: Name, i: nat, s: Name)
    requires z.Valid() && HonestChain(z, h, p, chain) && Shown(recs, chain) && ValidName(q) && InZone(zone, z.apex)
    requires ClosestMatch(h, recs, q, zone, i) && DeniesNextCloser(h, recs, q, i) && NoQueryCollision(z, h, p, Fold(q))
    requires [STAR] + s in z.types
    ensures HashPlaces(z, q, i, s)
  {
    hide HonestChain;
    hide ValidName;
    NextCloserUnsigned(z, h, p, chain, recs, q, zone, i);
    ClosestMatchExists(z, h, p, chain, recs, q, i);
    if Fold(q)[i - 1..] !in z.optedOut {
      EncloserMatched(z, Fold(q), i);
      assert ([STAR] + s)[1..] == s && ([STAR] + Fold(q)[i..])[1..] == Fold(q)[i..];
    }
  }

  lemma EncloserMatched(z: Zone, n: Name, i: nat)
    requires z.Valid() && 1 <= i <= |n| - |z.apex| && n[i..] in z.types && n[i - 1..] !in z.optedOut
    requires forall j :: 0 <= j < i ==> !z.Signed(n[j..])
    ensures n !in z.types && ClosestEncloser(z, n) == n[i..]
  {
    assert n[0..] == n;
    NothingBelow(z, n, i - 1);
    ClosestEncloserIs(z, n, i);
  }

  /** Without the opt-out flag on the records nothing can hide. */
  lemma FlagClearMeansNothingHidden(z: Zone, h: Hasher, p: Params, chain: seq<Nsec3>, recs: seq<Nsec3>, q: Name, i: nat)
    requires z.Valid() && HonestChain(z, h, p, chain) && Shown(recs, chain) && ValidName(q) && 1 <= i <= |q|
    requires forall r :: r in recs ==> !r.OptOut()
    requires DeniesNextCloser(h, recs, q, i) && DeniesWildcard(h, recs, q, i)
    ensures NothingHidden(z, q, i)
  {
    ValidSuffix(q, i - 1);
    FoldSuffix(q, i - 1);
    var k :| 0 <= k < |recs| && recs[k].Covers(h, q[i - 1..]);
    assert recs[k] in recs;
    CoverMeansAbsent(z, h, p, chain, recs[k], q[i - 1..]);
    ValidSuffix(q, i);
    ValidWildcard(q[i..]);
    FoldSuffix(q, i);
    FoldWildcard(q[i..]);
    var l :| 0 <= l < |recs| && recs[l].Covers(h, [STAR] + q[i..]);
    assert recs[l] in recs;
    CoverMeansAbsent(z, h, p, chain, recs[l], [STAR] + q[i..]);
  }

  lemma SignedMatches(z: Zone, h: Hasher, p: Params, chain: seq<Nsec3>, q: Name) returns (k: nat)
    requires HonestChain(z, h, p, chain) && ValidName(q) && z.Signed(Fold(q))
    ensures k < |chain| && chain[k].Matches(h, q)
  {
    assert Accounted(z, h, p, chain, Fold(q));
    k :| 0 <= k < |chain| && Owners(chain)[k] == HashName(h, p, Fold(q));
    assert chain[k] in chain;
    HashOfReceived(h, p, chain[k], q);
  }

  lemma AbsentIsCovered(z: Zone, h: Hasher, p: Params, chain: seq<Nsec3>, q: Name)
    requires HonestChain(z, h, p, chain) && chain != [] && ValidName(q)
    requires NoCollision(z, h, p, Fold(q)) && !z.Signed(Fold(q))
    ensures AnyCovers(h, chain, q) && !AnyMatches(h, chain, q)
  {
    var x := HashName(h, p, Fold(q));
    forall k | 0 <= k < |chain| ensures chain[k].ownerHash != x && !chain[k].Matches(h, q) {
      assert chain[k] in chain;
      HashOfReceived(h, p, chain[k], q);
      var n :| Describes(z, h, p, chain[k], n);
      assert n != Fold(q);
    }
    assert x !in Owners(chain);
    var _ := CoveredExactlyOnce(z, h, p, chain, q);
  }

  lemma EncloserMatches(z: Zone, h: Hasher, p: Params, chain: seq<Nsec3>, q: Name, i: nat)
    requires HonestChain(z, h, p, chain) && ValidName(q) && i <= |q| && z.Signed(Fold(q)[i..])
    ensures AnyMatches(h, chain, q[i..]) && chain != []
  {
    FoldSuffix(q, i);
    ValidSuffix(q, i);
    var _ := SignedMatches(z, h, p, chain, q[i..]);
  }

  lemma AncestorsCovered(z: Zone, h: Hasher, p: Params, chain: seq<Nsec3>, q: Name, i: nat)
    requires HonestChain(z, h, p, chain) && chain != [] && ValidName(q) && i <= |q|
    requires NoQueryCollision(z, h, p, Fold(q))
    requires forall j :: 0 <= j < i ==> !z.Signed(Fold(q)[j..])
    ensures forall j :: 0 <= j < i ==> AnyCovers(h, chain, q[j..]) && !AnyMatches(h, chain, q[j..])
  {
    forall j | 0 <= j < i ensures AnyCovers(h, chain, q[j..]) && !AnyMatches(h, chain, q[j..]) {
      FoldSuffix(q, j);
      ValidSuffix(q, j);
      AbsentIsCovered(z, h, p, chain, q[j..]);
    }
  }

  lemma WildcardIsCovered(z: Zone, h: Hasher, p: Params, chain: seq<Nsec3>, q: Name, i: nat)
    requires HonestChain(z, h, p, chain) && chain != [] && ValidName(q) && i <= |q|
    requires NoQueryCollision(z, h, p, Fold(q))
    requires WildcardOf(q[i..]).Some? && !z.Signed([STAR] + Fold(q)[i..])
    ensures AnyCovers(h, chain, [STAR] + q[i..])
  {
    FoldSuffix(q, i);
    ValidSuffix(q, i);
    ValidWildcard(q[i..]);
    FoldWildcard(q[i..]);
    AbsentIsCovered(z, h, p, chain, [STAR] + q[i..]);
  }

  lemma DenialAt(z: Zone, h: Hasher, p: Params, chain: seq<Nsec3>, q: Name, i: nat)
    requires HonestChain(z, h, p, chain) && ValidName(q) && InZone(q, z.apex)
    requires NoQueryCollision(z, h, p, Fold(q))
    requires 1 <= i <= |q| - |z.apex| && z.Signed(Fold(q)[i..]) && !z.Signed([STAR] + Fold(q)[i..])
    requires forall j :: 0 <= j < i ==> !z.Signed(Fold(q)[j..])
    ensures Nsec3Nxdomain(h, chain, q, z.apex)
  {
    EncloserMatches(z, h, p, chain, q, i);
    AncestorsCovered(z, h, p, chain, q, i);
    WildcardFits(q, i);
    WildcardIsCovered(z, h, p, chain, q, i);
    AssembleNxdomain(h, chain, q, z.apex, i);
  }

  /** With the whole chain at hand every true denial is provable. */
  lemma NxdomainComplete(z: Zone, h: Hasher, p: Params, chain: seq<Nsec3>, q: Name)
    requires z.Valid() && z.optedOut == {} && HonestChain(z, h, p, chain)
    requires ValidName(q) && InZone(q, z.apex) && NoQueryCollision(z, h, p, Fold(q))
    requires Lookup(z, Fold(q)) == NoSuchName
    ensures Nsec3Nxdomain(h, chain, q, z.apex)
  {
    FoldedApex(z);
    var i := DeniedEncloser(z, Fold(q));
    DenialAt(z, h, p, chain, q, i);
  }

  /** The check agrees with lookup for every name under the apex. */
  lemma NxdomainExact(z: Zone, h: Hasher, p: Params, chain: seq<Nsec3>, q: Name)
    requires z.Valid() && z.optedOut == {} && HonestChain(z, h, p, chain)
    requires ValidName(q) && InZone(q, z.apex) && NoQueryCollision(z, h, p, Fold(q))
    ensures Nsec3Nxdomain(h, chain, q, z.apex) <==> Lookup(z, Fold(q)) == NoSuchName
  {
    hide HonestChain;
    hide Nsec3Nxdomain;
    hide Lookup;
    if Lookup(z, Fold(q)) == NoSuchName {
      NxdomainComplete(z, h, p, chain, q);
    }
    if Nsec3Nxdomain(h, chain, q, z.apex) {
      var _ := NxdomainSound(z, h, p, chain, chain, q, z.apex);
    }
  }

  // ---- NODATA and missing DS ----

  /** The name exists and owns neither the type nor an alias. */
  predicate EmptyAt(z: Zone, n: Name, t: u16) {
    && z.Signed(n) && t !in z.types[n]
    && (t == RecordTypes.CNAME || RecordTypes.CNAME !in z.types[n])
  }

  predicate CutAt(z: Zone, n: Name) {
    && z.Signed(n) && RecordTypes.NS in z.types[n]
    && RecordTypes.DS !in z.types[n] && RecordTypes.SOA !in z.types[n]
  }

  lemma NodataSound(z: Zone, h: Hasher, p: Params, chain: seq<Nsec3>, recs: seq<Nsec3>, q: Name, t: u16)
    requires HonestChain(z, h, p, chain) && Shown(recs, chain) && ValidName(q) && NoCollision(z, h, p, Fold(q))
    requires Nsec3ProvesNodata(h, recs, q, t)
    ensures EmptyAt(z, Fold(q), t)
  {
    var k :| 0 <= k < |recs| && recs[k].Matches(h, q) && NoData(recs[k].bitmap, t);
    assert recs[k] in recs;
    MatchMeansSigned(z, h, p, chain, recs[k], q);
    assert !recs[k].Lists(t);
    assert t == RecordTypes.CNAME || !recs[k].Lists(RecordTypes.CNAME);
  }

  lemma NodataExact(z: Zone, h: Hasher, p: Params, chain: seq<Nsec3>, q: Name, t: u16)
    requires HonestChain(z, h, p, chain) && ValidName(q) && NoCollision(z, h, p, Fold(q))
    ensures Nsec3ProvesNodata(h, chain, q, t) <==> EmptyAt(z, Fold(q), t)
  {
    if Nsec3ProvesNodata(h, chain, q, t) {
      NodataSound(z, h, p, chain, chain, q, t);
    }
    if EmptyAt(z, Fold(q), t) {
      var k := SignedMatches(z, h, p, chain, q);
      assert chain[k] in chain;
      MatchMeansSigned(z, h, p, chain, chain[k], q);
      assert !chain[k].Lists(t);
      assert t == RecordTypes.CNAME || !chain[k].Lists(RecordTypes.CNAME);
      assert NoData(chain[k].bitmap, t);
    }
  }

  /** A no-DS proof, by a match or by an opt-out interval, never hides a DS record. */
  lemma NoDsSound(z: Zone, h: Hasher, p: Params, chain: seq<Nsec3>, recs: seq<Nsec3>, n: Name)
    requires z.Valid() && HonestChain(z, h, p, chain) && Shown(recs, chain) && ValidName(n)
    requires NoCollision(z, h, p, Fold(n))
    requires Nsec3ProvesNoDs(h, recs, n)
    ensures Fold(n) in z.types ==> RecordTypes.DS !in z.types[Fold(n)]
    ensures CutAt(z, Fold(n)) || !z.Signed(Fold(n))
  {
    if k :| 0 <= k < |recs| && recs[k].Matches(h, n) && UnsignedCut(recs[k].bitmap) {
      assert recs[k] in recs;
      MatchMeansSigned(z, h, p, chain, recs[k], n);
      assert recs[k].Lists(RecordTypes.NS);
      assert !recs[k].Lists(RecordTypes.DS) && !recs[k].Lists(RecordTypes.SOA);
    } else {
      var k :| 0 <= k < |recs| && recs[k].OptOut() && recs[k].Covers(h, n);
      assert recs[k] in recs;
      CoverMeansUnsigned(z, h, p, chain, recs[k], n);
      assert z.WellPlaced(Fold(n));
    }
  }

  /** Every unsigned delegation, listed or opted out, has a no-DS proof. */
  lemma NoDsComplete(z: Zone, h: Hasher, p: Params, chain: seq<Nsec3>, n: Name)
    requires z.Valid() && HonestChain(z, h, p, chain) && ValidName(n) && NoCollision(z, h, p, Fold(n))
    requires CutAt(z, Fold(n)) || Fold(n) in z.optedOut
    ensures Nsec3ProvesNoDs(h, chain, n)
  {
    if CutAt(z, Fold(n)) {
      var k := SignedMatches(z, h, p, chain, n);
      assert chain[k] in chain;
      MatchMeansSigned(z, h, p, chain, chain[k], n);
      assert chain[k].Lists(RecordTypes.NS);
      assert !chain[k].Lists(RecordTypes.DS) && !chain[k].Lists(RecordTypes.SOA);
      assert UnsignedCut(chain[k].bitmap);
    } else {
      assert Accounted(z, h, p, chain, Fold(n)) && z.WellPlaced(Fold(n));
      var k :| 0 <= k < |chain| && chain[k].OptOut() && chain[k].Covers(h, Fold(n));
      assert chain[k] in chain;
      FoldIdempotent(n);
      HashOfReceived(h, p, chain[k], n);
      HashOfReceived(h, p, chain[k], Fold(n));
    }
  }
}
