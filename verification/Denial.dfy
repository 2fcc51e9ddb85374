/**
 Denial of existence (src/dns/dnssec_denial.rs): what a set of already validated NSEC or NSEC3
 records proves. The digest is an arbitrary function of the canonical wire name, the salt and
 the iteration count.
 */
module Denial {
  import opened Prelude
  import opened Names
  import opened Ring
  import RecordTypes
  import Base32Hex
  import TypeBitmap

  const NSEC3_MAX_ITERATIONS := 100

  type Hasher = (seq<int>, seq<byte>, int) -> seq<byte>

  /** Hash interval test in octet order, with the wrap of the last record. */
  predicate CoverHash(owner: seq<int>, next: seq<int>, x: seq<int>) {
    Between<seq<int>>(BytesLess, owner, next, x)
  }

  datatype Nsec = Nsec(owner: Name, next: Name, bitmap: seq<byte>)

  datatype Nsec3 = Nsec3(
    hashAlg: byte,
    flags: byte,
    iterations: u16,
    salt: seq<byte>,
    ownerHash: seq<byte>,
    nextHash: seq<byte>,
    bitmap: seq<byte>)
  {
    predicate OptOut() {
      flags % 2 == 1
    }

    /** Only SHA-1 (algorithm 1) is defined, and the iteration count is capped. */
    function Hash(h: Hasher, name: Name): Option<seq<byte>> {
      if hashAlg != 1 || iterations > NSEC3_MAX_ITERATIONS then None
      else Some(h(Lower(Wire(name)), salt, iterations))
    }

    predicate Matches(h: Hasher, name: Name) {
      Hash(h, name) == Some(ownerHash)
    }

    predicate Covers(h: Hasher, name: Name) {
      Hash(h, name).Some? && CoverHash(ownerHash, nextHash, Hash(h, name).value)
    }

    predicate Lists(t: u16) {
      TypeBitmap.Has(bitmap, t)
    }
  }

  /** Section 3.2 of RFC 5155: fixed header, salt, next hash, bitmap; the owner hash is the first label. */
  function ParseNsec3(owner: Name, rdata: seq<byte>): Option<Nsec3> {
    if |rdata| < 5 then None else
    var saltEnd: int := 5 + rdata[4] as int;
    if |rdata| < saltEnd + 1 then None else
    var hashEnd: int := saltEnd + 1 + rdata[saltEnd] as int;
    if |rdata| < hashEnd || owner == [] then None else
    match Base32Hex.Decoded(LowerLabel(owner[0]))
    case None => None
    case Some(hash) =>
      Some(Nsec3(rdata[0], rdata[1], 256 * (rdata[2] as int) + rdata[3], rdata[5..saltEnd], hash,
                 rdata[saltEnd + 1..hashEnd], rdata[hashEnd..]))
  }

  predicate AnyMatches(h: Hasher, recs: seq<Nsec3>, name: Name) {
    exists i :: 0 <= i < |recs| && recs[i].Matches(h, name)
  }

  predicate AnyCovers(h: Hasher, recs: seq<Nsec3>, name: Name) {
    exists i :: 0 <= i < |recs| && recs[i].Covers(h, name)
  }

  /** `t` is absent and the answer is genuinely empty rather than an alias. */
  predicate NoData(bitmap: seq<byte>, t: u16) {
    && !TypeBitmap.Has(bitmap, t)
    && (t == RecordTypes.CNAME || !TypeBitmap.Has(bitmap, RecordTypes.CNAME))
  }

  /** A delegation point without a DS record. */
  predicate UnsignedCut(bitmap: seq<byte>) {
    && TypeBitmap.Has(bitmap, RecordTypes.NS)
    && !TypeBitmap.Has(bitmap, RecordTypes.DS)
    && !TypeBitmap.Has(bitmap, RecordTypes.SOA)
  }

  predicate Nsec3ProvesNodata(h: Hasher, recs: seq<Nsec3>, qname: Name, qtype: u16) {
    exists i :: 0 <= i < |recs| && recs[i].Matches(h, qname) && NoData(recs[i].bitmap, qtype)
  }

  predicate Nsec3ProvesNoDs(h: Hasher, recs: seq<Nsec3>, name: Name) {
    || (exists i :: 0 <= i < |recs| && recs[i].Matches(h, name) && UnsignedCut(recs[i].bitmap))
    || (exists i :: 0 <= i < |recs| && recs[i].OptOut() && recs[i].Covers(h, name))
  }

  /** `qname[i..]` is the longest proper ancestor inside `zone` that some record matches. */
  ghost predicate ClosestMatch(h: Hasher, recs: seq<Nsec3>, qname: Name, zone: Name, i: nat) {
    && InZone(qname, zone)
    && 1 <= i <= |qname| - |zone|
    && AnyMatches(h, recs, qname[i..])
    && forall j :: 1 <= j < i ==> !AnyMatches(h, recs, qname[j..])
  }

  ghost predicate DeniesNextCloser(h: Hasher, recs: seq<Nsec3>, qname: Name, i: nat)
    requires 1 <= i <= |qname|
  {
    AnyCovers(h, recs, qname[i - 1..])
  }

  ghost predicate DeniesWildcard(h: Hasher, recs: seq<Nsec3>, qname: Name, i: nat)
    requires i <= |qname|
  {
    WildcardOf(qname[i..]).Some? && AnyCovers(h, recs, WildcardOf(qname[i..]).value)
  }

  /** Section 8.8 of RFC 5155: a closest encloser, and the next closer name is covered. */
  ghost predicate Nsec3NameAbsent(h: Hasher, recs: seq<Nsec3>, qname: Name, zone: Name) {
    exists i {:trigger ClosestMatch(h, recs, qname, zone, i)} ::
      ClosestMatch(h, recs, qname, zone, i) && DeniesNextCloser(h, recs, qname, i)
  }

  /** Section 8.4 of RFC 5155: as above, and the wildcard at the closest encloser is covered. */
  ghost predicate Nsec3Nxdomain(h: Hasher, recs: seq<Nsec3>, qname: Name, zone: Name) {
    exists i {:trigger ClosestMatch(h, recs, qname, zone, i)} ::
      ClosestMatch(h, recs, qname, zone, i) && DeniesNextCloser(h, recs, qname, i) && DeniesWildcard(h, recs, qname, i)
  }

  lemma AssembleNxdomain(h: Hasher, recs: seq<Nsec3>, qname: Name, zone: Name, i: nat)
    requires InZone(qname, zone) && 1 <= i <= |qname| - |zone|
    requires AnyMatches(h, recs, qname[i..])
    requires forall j :: 1 <= j < i ==> !AnyMatches(h, recs, qname[j..])
    requires DeniesNextCloser(h, recs, qname, i) && DeniesWildcard(h, recs, qname, i)
    ensures Nsec3Nxdomain(h, recs, qname, zone)
  {
    assert ClosestMatch(h, recs, qname, zone, i);
  }

  /** The names from `qname` up to and including `zone`, or none when `qname` is outside it. */
  method AncestorChain(qname: Name, zone: Name) returns (chain: seq<Name>)
    ensures chain == [] <==> !InZone(qname, zone)
    ensures chain != [] ==>
      |chain| == |qname| - |zone| + 1 && forall i :: 0 <= i < |chain| ==> chain[i] == qname[i..]
  {
    chain := [qname];
    var cur := qname;
    while !SameName(cur, zone)
      invariant 1 <= |chain| <= |qname| + 1 && cur == qname[|chain| - 1..]
      invariant forall i :: 0 <= i < |chain| ==> chain[i] == qname[i..]
      invariant InZone(cur, zone) <==> InZone(qname, zone)
      decreases |cur|
    {
      InZoneStep(cur, zone);
      if cur == [] {
        return [];
      }
      cur := cur[1..];
      chain := chain + [cur];
    }
  }

  method Nsec3ProvesNxdomain(h: Hasher, recs: seq<Nsec3>, qname: Name, zone: Name) returns (proven: bool)
    ensures proven <==> Nsec3Nxdomain(h, recs, qname, zone)
  {
    hide AnyMatches;
    hide AnyCovers;
    var chain := AncestorChain(qname, zone);
    if chain == [] {
      return false;
    }
    for i := 1 to |chain|
      invariant forall j :: 1 <= j < i && j < |chain| ==> !AnyMatches(h, recs, qname[j..])
    {
      var ce := chain[i];
      if AnyMatches(h, recs, ce) {
        assert ClosestMatch(h, recs, qname, zone, i);
        var ncCovered := AnyCovers(h, recs, chain[i - 1]);
        var wc := WildcardOf(ce);
        if wc.None? {
          return false;
        }
        return ncCovered && AnyCovers(h, recs, wc.value);
      }
    }
    return false;
  }

  method Nsec3ProvesNameNonexistent(h: Hasher, recs: seq<Nsec3>, qname: Name, zone: Name) returns (proven: bool)
    ensures proven <==> Nsec3NameAbsent(h, recs, qname, zone)
  {
    hide AnyMatches;
    hide AnyCovers;
    var chain := AncestorChain(qname, zone);
    if chain == [] {
      return false;
    }
    for i := 1 to |chain|
      invariant forall j :: 1 <= j < i && j < |chain| ==> !AnyMatches(h, recs, qname[j..])
    {
      if AnyMatches(h, recs, chain[i]) {
        assert ClosestMatch(h, recs, qname, zone, i);
        return AnyCovers(h, recs, chain[i - 1]);
      }
    }
    return false;
  }

  // ---- NSEC ----

  predicate NsecCovers(owner: Name, next: Name, name: Name) {
    Between(CanonicalLess, owner, next, name)
  }

  predicate AnyNsecCovers(nsecs: seq<Nsec>, name: Name) {
    exists i :: 0 <= i < |nsecs| && NsecCovers(nsecs[i].owner, nsecs[i].next, name)
  }

  predicate NsecProvesNodata(n: Nsec, qname: Name, qtype: u16) {
    SameName(n.owner, qname) && NoData(n.bitmap, qtype)
  }

  predicate NsecProvesNoDs(nsecs: seq<Nsec>, name: Name) {
    exists i :: 0 <= i < |nsecs| && SameName(nsecs[i].owner, name) && UnsignedCut(nsecs[i].bitmap)
  }

  predicate WildcardCovered(nsecs: seq<Nsec>, name: Name, zone: Name) {
    InZone(name, zone) && WildcardOf(name).Some? && AnyNsecCovers(nsecs, WildcardOf(name).value)
  }

  /** The `i`-th ancestor of `qname` is inside `zone` and its wildcard is covered. */
  ghost predicate NsecDeniesWildcard(nsecs: seq<Nsec>, qname: Name, zone: Name, i: nat) {
    1 <= i <= |qname| && WildcardCovered(nsecs, qname[i..], zone)
  }

  ghost predicate NsecNxdomain(nsecs: seq<Nsec>, qname: Name, zone: Name) {
    AnyNsecCovers(nsecs, qname) && exists i :: NsecDeniesWildcard(nsecs, qname, zone, i)
  }

  /** The upward search, stopping at the apex. */
  predicate DeniesUpward(nsecs: seq<Nsec>, name: Name, zone: Name) {
    && name != []
    && (WildcardCovered(nsecs, name[1..], zone) || (!SameName(name[1..], zone) && DeniesUpward(nsecs, name[1..], zone)))
  }

  lemma {:induction false} UpwardFinds(nsecs: seq<Nsec>, qname: Name, zone: Name, k: nat) returns (i: nat)
    requires k <= |qname| && DeniesUpward(nsecs, qname[k..], zone)
    ensures k < i && NsecDeniesWildcard(nsecs, qname, zone, i)
    decreases |qname| - k
  {
    assert qname[k..][1..] == qname[k + 1..];
    if WildcardCovered(nsecs, qname[k + 1..], zone) {
      i := k + 1;
    } else {
      i := UpwardFinds(nsecs, qname, zone, k + 1);
    }
  }

  lemma {:induction false} UpwardMissesNone(nsecs: seq<Nsec>, qname: Name, zone: Name, k: nat, i: nat)
    requires k < i && NsecDeniesWildcard(nsecs, qname, zone, i)
    ensures DeniesUpward(nsecs, qname[k..], zone)
    decreases i - k
  {
    assert qname[k..][1..] == qname[k + 1..];
    if k + 1 < i {
      UpwardMissesNone(nsecs, qname, zone, k + 1, i);
      assert !SameName(qname[k + 1..], zone);
    }
  }

  /** The search finds a covered wildcard exactly when some ancestor has one. */
  lemma DeniesUpwardIsExists(nsecs: seq<Nsec>, qname: Name, zone: Name)
    ensures DeniesUpward(nsecs, qname, zone) <==> exists i :: NsecDeniesWildcard(nsecs, qname, zone, i)
  {
    assert qname[0..] == qname;
    if DeniesUpward(nsecs, qname, zone) {
      var _ := UpwardFinds(nsecs, qname, zone, 0);
    }
    forall i | NsecDeniesWildcard(nsecs, qname, zone, i) ensures DeniesUpward(nsecs, qname, zone) {
      UpwardMissesNone(nsecs, qname, zone, 0, i);
    }
  }

  method NsecProvesNxdomain(nsecs: seq<Nsec>, qname: Name, zone: Name) returns (proven: bool)
    ensures proven <==> NsecNxdomain(nsecs, qname, zone)
  {
    DeniesUpwardIsExists(nsecs, qname, zone);
    if !AnyNsecCovers(nsecs, qname) {
      return false;
    }
    var cur := qname;
    while cur != []
      invariant DeniesUpward(nsecs, cur, zone) <==> DeniesUpward(nsecs, qname, zone)
      decreases |cur|
    {
      var parent := cur[1..];
      if WildcardCovered(nsecs, parent, zone) {
        return true;
      }
      if SameName(parent, zone) {
        return false;
      }
      cur := parent;
    }
    return false;
  }
}
