/**
 The verdict for a resolved message (src/dns/dnssec_chain.rs) and what it rests on: chains of
 validated links for every network, and the truth about the zone when signatures are unforgeable.
 */
module Verdicts {
  import opened Prelude
  import opened Names
  import opened Denial
  import opened Messages
  import opened KeyCache
  import opened ChainOfTrust
  import RecordTypes

  // ---- verdicts are earned, whatever the network answers ----

  ghost predicate Anchored(w: World, keys: seq<Bytes>) {
    exists dnskeys, sigs :: w.validateKeys([], dnskeys, sigs, w.anchors) == Some(keys)
  }

  /** A DS set signed under `parent` vouches for a DNSKEY set that yields `keys`. */
  ghost predicate SignedCut(w: World, child: Name, parent: seq<Bytes>, keys: seq<Bytes>) {
    exists ds, dsSigs, dnskeys, sigs ::
      && w.validateRrset(child, RecordTypes.DS, AsUnknown(ds), dsSigs, parent).Some?
      && w.validateKeys(child, dnskeys, sigs, ParseAllDs(w, ds)) == Some(keys)
  }

  /** `keys` are linked to the root anchor: at each label the keys are kept or replaced across a signed cut. */
  ghost predicate Chained(w: World, zone: Name, keys: seq<Bytes>) {
    if zone == [] then Anchored(w, keys)
    else exists parent :: Chained(w, zone[1..], parent) && (keys == parent || SignedCut(w, zone, parent, keys))
  }

  lemma StepLinks(w: World, child: Name, parent: seq<Bytes>)
    requires Step(w, child, parent).Trusted?
    ensures Step(w, child, parent).keys == parent || SignedCut(w, child, parent, Step(w, child, parent).keys)
  {
    var ds := w.fetch(child, RecordTypes.DS).value;
    var rdatas := RdatasOf(ds.answers, RecordTypes.DS);
    if rdatas != [] {
      var msg := w.fetch(child, RecordTypes.DNSKEY).value;
      var dnskeys, sigs := RdatasOf(msg.answers, RecordTypes.DNSKEY), SigsOf(msg.answers, RecordTypes.DNSKEY);
      assert w.validateKeys(child, dnskeys, sigs, ParseAllDs(w, rdatas)) == Some(Step(w, child, parent).keys);
    }
  }

  lemma {:induction false} SecureIsEarned(w: World, zone: Name)
    requires Walk(w, zone).Trusted?
    ensures Chained(w, zone, Walk(w, zone).keys)
  {
    if zone != [] {
      SecureIsEarned(w, zone[1..]);
      StepLinks(w, zone, Walk(w, zone[1..]).keys);
    }
  }

  /** Insecure rests on a real cut whose missing DS is proven under chained keys of the zone above. */
  lemma {:induction false} InsecureIsEarned(w: World, zone: Name) returns (k: nat, keys: seq<Bytes>, ds: Message)
    requires Walk(w, zone) == Unsigned
    ensures k < |zone| && Chained(w, zone[k + 1..], keys)
    ensures w.fetch(zone[k..], RecordTypes.DS) == Some(ds) && RdatasOf(ds.answers, RecordTypes.DS) == []
    ensures IsRealCut(w, zone[k..]) && DenialSecure(w, ds, zone[k..], keys)
  {
    assert zone[0..] == zone;
    var above := Walk(w, zone[1..]);
    if above.Trusted? {
      k, keys, ds := 0, above.keys, w.fetch(zone, RecordTypes.DS).value;
      SecureIsEarned(w, zone[1..]);
    } else {
      k, keys, ds := InsecureIsEarned(w, zone[1..]);
      assert zone[1..][k..] == zone[k + 1..] && zone[1..][k + 1..] == zone[k + 2..];
      k := k + 1;
    }
  }

  // ---- the verdict of a message ----

  datatype Verdict = Secure | Insecure | Bogus

  function SignerOf(w: World, r: Record): Option<Name> {
    if r.rtype == RecordTypes.RRSIG && r.rdata.Unknown? then w.rrsigSigner(r.rdata.data) else None
  }

  function FirstSigner(w: World, section: seq<Record>): Option<Name> {
    if section == [] then None
    else if SignerOf(w, section[0]).Some? then SignerOf(w, section[0])
    else FirstSigner(w, section[1..])
  }

  /** The first signer of `q`'s own answer that encloses `q`. */
  function AnswerZone(w: World, section: seq<Record>, q: Name): (r: Option<Name>)
    ensures r.Some? ==> InZone(q, r.value)
  {
    if section == [] then None else
    var signer := SignerOf(w, section[0]);
    if SameName(section[0].name, q) && signer.Some? && InZone(q, signer.value) then signer
    else AnswerZone(w, section[1..], q)
  }

  function Enclosing(z: Option<Name>, q: Name): (r: Option<Name>)
    ensures r.Some? ==> InZone(q, r.value)
  {
    if z.Some? && InZone(q, z.value) then z else None
  }

  /** The zone whose keys must validate the message; a signer that does not enclose `q` is ignored. */
  function SigningZone(w: World, msg: Message, q: Name): (r: Option<Name>)
    ensures r.Some? ==> InZone(q, r.value)
  {
    var own := AnswerZone(w, msg.answers, q);
    if own.Some? then own else Enclosing(FirstSigner(w, msg.answers + msg.authority), q)
  }

  function SoaOwner(section: seq<Record>): Option<Name> {
    if section == [] then None
    else if section[0].rtype == RecordTypes.SOA then Some(section[0].name)
    else SoaOwner(section[1..])
  }

  function FallbackZone(msg: Message, q: Name): Name {
    var soa := Enclosing(SoaOwner(msg.authority), q);
    if soa.Some? then soa.value else q
  }

  function AnsweredType(msg: Message, q: Name, t: u16): Option<u16> {
    if Has(msg.answers, q, t) then Some(t)
    else if Has(msg.answers, q, RecordTypes.CNAME) then Some(RecordTypes.CNAME)
    else None
  }

  function AnswerCheck(w: World, msg: Message, q: Name, t: u16, keys: seq<Bytes>): Option<bool> {
    w.validateRrset(q, t, OwnedRdatas(msg.answers, q, t), SigsOf(msg.answers, t), keys)
  }

  ghost predicate NoExactMatch(w: World, msg: Message, q: Name, zone: Name, keys: seq<Bytes>) {
    AnyNsecCovers(Nsecs(w, msg, keys), q) || Nsec3NameAbsent(w.hash, Nsec3s(w, msg, keys), q, zone)
  }

  predicate AnyNsecNodata(nsecs: seq<Nsec>, q: Name, t: u16) {
    exists i :: 0 <= i < |nsecs| && NsecProvesNodata(nsecs[i], q, t)
  }

  ghost predicate DenialValid(w: World, msg: Message, q: Name, t: u16, zone: Name, keys: seq<Bytes>) {
    var nsecs, nsec3s := Nsecs(w, msg, keys), Nsec3s(w, msg, keys);
    && (nsecs != [] || nsec3s != [])
    && if msg.rcode == RecordTypes.NXDOMAIN then NsecNxdomain(nsecs, q, zone) || Nsec3Nxdomain(w.hash, nsec3s, q, zone)
       else AnyNsecNodata(nsecs, q, t) || Nsec3ProvesNodata(w.hash, nsec3s, q, t)
  }

  function InBailiwickSoa(section: seq<Record>, q: Name): seq<Record> {
    if section == [] then []
    else (if section[0].rtype == RecordTypes.SOA && InZone(q, section[0].name) then [section[0]] else [])
         + InBailiwickSoa(section[1..], q)
  }

  function OwnedRecords(section: seq<Record>, owner: Name, t: u16): (r: seq<Record>)
    ensures forall x :: x in r ==> x in section && Owned(x, owner, t)
    ensures r != [] <==> OwnedRdatas(section, owner, t) != []
  {
    if section == [] then []
    else (if Owned(section[0], owner, t) then [section[0]] else []) + OwnedRecords(section[1..], owner, t)
  }

  function DenialRecords(section: seq<Record>, zone: Name): (r: seq<Record>)
    ensures forall x :: x in r ==> x in section && x.rtype != RecordTypes.SOA && InZone(x.name, zone)
  {
    if section == [] then []
    else
      (if section[0].rtype in {RecordTypes.NSEC, RecordTypes.NSEC3, RecordTypes.RRSIG} && InZone(section[0].name, zone)
       then [section[0]] else [])
      + DenialRecords(section[1..], zone)
  }

  predicate SoaValidated(w: World, msg: Message, zone: Name, keys: seq<Bytes>) {
    var rdatas := OwnedRdatas(msg.authority, zone, RecordTypes.SOA);
    rdatas != [] && w.validateRrset(zone, RecordTypes.SOA, rdatas, SigsOf(msg.authority, RecordTypes.SOA), keys).Some?
  }

  /** What a secure negative answer carries: the SOA only if it validates, and the denial records of the zone. */
  function NegativeAuthority(w: World, msg: Message, zone: Name, keys: seq<Bytes>): seq<Record> {
    (if SoaValidated(w, msg, zone, keys) then OwnedRecords(msg.authority, zone, RecordTypes.SOA) else [])
    + DenialRecords(msg.authority, zone)
  }

  ghost function Judge(w: World, q: Name, t: u16, msg: Message, zone: Name, keys: seq<Bytes>): (Verdict, seq<Record>) {
    match AnsweredType(msg, q, t)
    case Some(answered) =>
      (match AnswerCheck(w, msg, q, answered, keys)
       case None => (Bogus, [])
       case Some(false) => (Secure, [])
       case Some(true) => (if NoExactMatch(w, msg, q, zone, keys) then Secure else Bogus, []))
    case None =>
      if DenialValid(w, msg, q, t, zone, keys) then (Secure, NegativeAuthority(w, msg, zone, keys)) else (Bogus, [])
  }

  ghost function Validated(w: World, q: Name, t: u16, msg: Message): (Verdict, seq<Record>) {
    match SigningZone(w, msg, q)
    case None =>
      if Walk(w, Fold(FallbackZone(msg, q))) == Unsigned then (Insecure, InBailiwickSoa(msg.authority, q)) else (Bogus, [])
    case Some(zone) =>
      match Walk(w, Fold(zone))
      case Broken => (Bogus, [])
      case Unsigned => (Insecure, InBailiwickSoa(msg.authority, q))
      case Trusted(keys) => Judge(w, q, t, msg, zone, keys)
  }

  method ProvesNoExactMatch(w: World, msg: Message, q: Name, zone: Name, keys: seq<Bytes>) returns (proven: bool)
    ensures proven <==> NoExactMatch(w, msg, q, zone, keys)
  {
    if AnyNsecCovers(Nsecs(w, msg, keys), q) {
      return true;
    }
    proven := Nsec3ProvesNameNonexistent(w.hash, Nsec3s(w, msg, keys), q, zone);
  }

  method ValidateDenial(w: World, msg: Message, q: Name, t: u16, zone: Name, keys: seq<Bytes>) returns (valid: bool)
    ensures valid <==> DenialValid(w, msg, q, t, zone, keys)
  {
    var nsecs, nsec3s := Nsecs(w, msg, keys), Nsec3s(w, msg, keys);
    if nsecs == [] && nsec3s == [] {
      return false;
    }
    if msg.rcode == RecordTypes.NXDOMAIN {
      valid := NsecProvesNxdomain(nsecs, q, zone);
      if !valid {
        valid := Nsec3ProvesNxdomain(w.hash, nsec3s, q, zone);
      }
    } else {
      valid := AnyNsecNodata(nsecs, q, t) || Nsec3ProvesNodata(w.hash, nsec3s, q, t);
    }
  }

  method ValidateFull(w: World, cache: KeyCache, q: Name, t: u16, msg: Message, clock: nat)
      returns (verdict: Verdict, authority: seq<Record>)
    requires cache.Valid() && CacheSound(w, cache)
    modifies cache
    ensures cache.Valid() && CacheSound(w, cache)
    ensures (verdict, authority) == Validated(w, q, t, msg)
  {
    var signing := SigningZone(w, msg, q);
    if signing.None? {
      var z := FallbackZone(msg, q);
      var fallback := TrustedKeysFor(w, cache, Fold(z), clock);
      if fallback == Unsigned {
        return Insecure, InBailiwickSoa(msg.authority, q);
      }
      return Bogus, [];
    }
    var zone := signing.value;
    var chain := TrustedKeysFor(w, cache, Fold(zone), clock);
    if chain == Broken {
      return Bogus, [];
    }
    if chain == Unsigned {
      return Insecure, InBailiwickSoa(msg.authority, q);
    }
    var answered := AnsweredType(msg, q, t);
    if answered.Some? {
      var check := AnswerCheck(w, msg, q, answered.value, chain.keys);
      if check.None? {
        return Bogus, [];
      }
      if !check.value {
        return Secure, [];
      }
      var proven := ProvesNoExactMatch(w, msg, q, zone, chain.keys);
      return if proven then Secure else Bogus, [];
    }
    var valid := ValidateDenial(w, msg, q, t, zone, chain.keys);
    if valid {
      return Secure, NegativeAuthority(w, msg, zone, chain.keys);
    }
    return Bogus, [];
  }
}
