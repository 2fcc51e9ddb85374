/**
 The chain walk (src/dns/dnssec_chain.rs): from the root anchor down to a zone, validating each
 delegation under its parent's keys. The network, the signature checks and the codec are
 arbitrary functions. Names are folded, since every comparison and map key ignores case.
 */
module ChainOfTrust {
  import opened Prelude
  import opened Names
  import opened Denial
  import opened Messages
  import opened KeyCache
  import RecordTypes

  type Ds = Bytes

  datatype World = World(
    fetch: (Name, u16) -> Option<Message>,
    // owner, DNSKEY RDATAs, signatures, trusted DS set -> the keys, if the set validates
    validateKeys: (Name, seq<Bytes>, seq<Bytes>, seq<Ds>) -> Option<seq<Bytes>>,
    // owner, type, RDATAs, signatures, trusted keys -> whether it validates, and if by wildcard expansion
    validateRrset: (Name, u16, seq<Rdata>, seq<Bytes>, seq<Bytes>) -> Option<bool>,
    parseDs: Bytes -> Option<Ds>,
    parseName: Bytes -> Option<(Name, nat)>,
    rrsigSigner: Bytes -> Option<Name>,
    hash: Hasher,
    anchors: seq<Ds>,
    now: nat)

  datatype Outcome = Trusted(keys: seq<Bytes>) | Unsigned | Broken

  // ---- denial records under a key set ----

  predicate RrsetValidated(w: World, msg: Message, owner: Name, t: u16, keys: seq<Bytes>) {
    w.validateRrset(owner, t, OwnedRdatas(msg.authority, owner, t), OwnedSigs(msg.authority, owner, t), keys).Some?
  }

  function ParseNsec(w: World, owner: Name, rdata: Bytes): Option<Nsec> {
    match w.parseName(rdata)
    case None => None
    case Some((next, consumed)) =>
      if consumed > |rdata| then None else Some(Nsec(owner, next, rdata[consumed..]))
  }

  function NsecAt(w: World, msg: Message, keys: seq<Bytes>, r: Record): Option<Nsec> {
    if r.rtype == RecordTypes.NSEC && RrsetValidated(w, msg, r.name, RecordTypes.NSEC, keys) && r.rdata.Unknown?
    then ParseNsec(w, r.name, r.rdata.data) else None
  }

  function Nsec3At(w: World, msg: Message, keys: seq<Bytes>, r: Record): Option<Nsec3> {
    if r.rtype == RecordTypes.NSEC3 && RrsetValidated(w, msg, r.name, RecordTypes.NSEC3, keys) && r.rdata.Unknown?
    then ParseNsec3(r.name, r.rdata.data) else None
  }

  /** The NSEC records of the first `k` authority records whose RRset validates. */
  function CollectNsec(w: World, msg: Message, keys: seq<Bytes>, k: nat): (r: seq<Nsec>)
    requires k <= |msg.authority|
    ensures forall n :: n in r ==> exists i :: 0 <= i < k && NsecAt(w, msg, keys, msg.authority[i]) == Some(n)
  {
    if k == 0 then [] else
    var n := NsecAt(w, msg, keys, msg.authority[k - 1]);
    CollectNsec(w, msg, keys, k - 1) + (if n.Some? then [n.value] else [])
  }

  function CollectNsec3(w: World, msg: Message, keys: seq<Bytes>, k: nat): (r: seq<Nsec3>)
    requires k <= |msg.authority|
    ensures forall n :: n in r ==> exists i :: 0 <= i < k && Nsec3At(w, msg, keys, msg.authority[i]) == Some(n)
  {
    if k == 0 then [] else
    var n := Nsec3At(w, msg, keys, msg.authority[k - 1]);
    CollectNsec3(w, msg, keys, k - 1) + (if n.Some? then [n.value] else [])
  }

  function Nsecs(w: World, msg: Message, keys: seq<Bytes>): seq<Nsec> {
    CollectNsec(w, msg, keys, |msg.authority|)
  }

  function Nsec3s(w: World, msg: Message, keys: seq<Bytes>): seq<Nsec3> {
    CollectNsec3(w, msg, keys, |msg.authority|)
  }

  /** A validated proof that `name` has no DS: NSEC if any validates, else NSEC3. */
  predicate DenialSecure(w: World, msg: Message, name: Name, keys: seq<Bytes>) {
    if Nsecs(w, msg, keys) != [] then NsecProvesNoDs(Nsecs(w, msg, keys), name)
    else Nsec3s(w, msg, keys) != [] && Nsec3ProvesNoDs(w.hash, Nsec3s(w, msg, keys), name)
  }

  // ---- the plain walk: no cache, no prefetching ----

  function ParseAllDs(w: World, rdatas: seq<Bytes>): seq<Ds> {
    if rdatas == [] then []
    else (if w.parseDs(rdatas[0]).Some? then [w.parseDs(rdatas[0]).value] else []) + ParseAllDs(w, rdatas[1..])
  }

  function AsUnknown(rdatas: seq<Bytes>): seq<Rdata> {
    seq(|rdatas|, i requires 0 <= i < |rdatas| => Unknown(rdatas[i]))
  }

  function KeysFrom(w: World, owner: Name, msg: Message, ds: seq<Ds>): Option<seq<Bytes>> {
    w.validateKeys(owner, RdatasOf(msg.answers, RecordTypes.DNSKEY), SigsOf(msg.answers, RecordTypes.DNSKEY), ds)
  }

  function RootStep(w: World): Outcome {
    match w.fetch([], RecordTypes.DNSKEY)
    case None => Broken
    case Some(msg) =>
      match KeysFrom(w, [], msg, w.anchors)
      case None => Broken
      case Some(keys) => Trusted(keys)
  }

  /** A name is a real cut when it answers with its own NS set. */
  predicate IsRealCut(w: World, child: Name) {
    w.fetch(child, RecordTypes.NS).Some? && Has(w.fetch(child, RecordTypes.NS).value.answers, child, RecordTypes.NS)
  }

  predicate DsSigned(w: World, child: Name, ds: Message, keys: seq<Bytes>) {
    w.validateRrset(child, RecordTypes.DS, AsUnknown(RdatasOf(ds.answers, RecordTypes.DS)),
                    SigsOf(ds.answers, RecordTypes.DS), keys).Some?
  }

  /** Crossing one label boundary under the keys of the zone above. */
  function Step(w: World, child: Name, keys: seq<Bytes>): Outcome {
    match w.fetch(child, RecordTypes.DS)
    case None => Broken
    case Some(ds) =>
      if RdatasOf(ds.answers, RecordTypes.DS) == [] then
        if !IsRealCut(w, child) then Trusted(keys)
        else if DenialSecure(w, ds, child, keys) then Unsigned
        else Broken
      else if !DsSigned(w, child, ds, keys) then Broken
      else
        match w.fetch(child, RecordTypes.DNSKEY)
        case None => Broken
        case Some(msg) =>
          match KeysFrom(w, child, msg, ParseAllDs(w, RdatasOf(ds.answers, RecordTypes.DS)))
          case None => Broken
          case Some(childKeys) => Trusted(childKeys)
  }

  function Walk(w: World, zone: Name): Outcome {
    if zone == [] then RootStep(w)
    else
      match Walk(w, zone[1..])
      case Trusted(keys) => Step(w, zone, keys)
      case Unsigned => Unsigned
      case Broken => Broken
  }

  // ---- the source's walk ----

  method DelegationPath(zone: Name) returns (path: seq<Name>)
    ensures |path| == |zone| && forall i :: 0 <= i < |path| ==> path[i] == zone[|zone| - 1 - i..]
  {
    path := [];
    var cur := zone;
    while cur != []
      invariant |cur| + |path| == |zone| && cur == zone[|path|..]
      invariant forall i :: 0 <= i < |path| ==> path[i] == zone[|path| - 1 - i..]
      decreases |cur|
    {
      path := [cur] + path;
      cur := cur[1..];
    }
  }

  type FetchMap = map<(Name, u16), Option<Message>>

  /** Everything prefetched is what a direct fetch would give. */
  ghost predicate Faithful(w: World, pool: FetchMap) {
    forall k :: k in pool ==> pool[k] == w.fetch(k.0, k.1)
  }

  method TakeOrFetch(w: World, pool: FetchMap, name: Name, t: u16) returns (msg: Option<Message>, rest: FetchMap)
    requires Faithful(w, pool)
    ensures msg == w.fetch(name, t) && Faithful(w, rest) && rest.Keys == pool.Keys - {(name, t)}
  {
    if (name, t) in pool {
      return pool[(name, t)], pool - {(name, t)};
    }
    return w.fetch(name, t), pool;
  }

  /** Every cached set is the result of the plain walk to its zone. */
  ghost predicate CacheSound(w: World, cache: KeyCache)
    reads cache
  {
    forall z :: z in cache.entries ==> Walk(w, z) == Trusted(cache.entries[z].keys)
  }

  /** A look-up in a sound cache finds what the walk would give. */
  method Recall(w: World, cache: KeyCache, zone: Name, clock: nat) returns (r: Option<seq<Bytes>>)
    requires cache.Valid() && CacheSound(w, cache)
    modifies cache
    ensures cache.Valid() && CacheSound(w, cache)
    ensures r.Some? ==> Walk(w, zone) == Trusted(r.value)
  {
    hide Walk;
    r := cache.Get(zone, clock);
  }

  method Remember(w: World, cache: KeyCache, zone: Name, keys: seq<Bytes>, ttl: nat, clock: nat)
    requires cache.Valid() && CacheSound(w, cache) && Walk(w, zone) == Trusted(keys)
    modifies cache
    ensures cache.Valid() && CacheSound(w, cache)
  {
    hide Walk;
    cache.Learn(zone, keys, ttl, clock);
  }

  /** Anticipate the messages of every level that is not cached. */
  method Prefetch(w: World, cache: KeyCache, path: seq<Name>, clock: nat) returns (pool: FetchMap)
    requires cache.Valid() && CacheSound(w, cache)
    modifies cache
    ensures cache.Valid() && CacheSound(w, cache) && Faithful(w, pool)
  {
    pool := map[];
    var cached := Recall(w, cache, [], clock);
    if cached.None? {
      pool := pool[([], RecordTypes.DNSKEY) := w.fetch([], RecordTypes.DNSKEY)];
    }
    for i := 0 to |path|
      invariant cache.Valid() && CacheSound(w, cache) && Faithful(w, pool)
    {
      cached := Recall(w, cache, path[i], clock);
      if cached.None? {
        pool := pool[(path[i], RecordTypes.DS) := w.fetch(path[i], RecordTypes.DS)];
        pool := pool[(path[i], RecordTypes.DNSKEY) := w.fetch(path[i], RecordTypes.DNSKEY)];
      }
    }
  }

  // ---- how long a validated set may be reused ----

  /** The expiration field of an RRSIG: a big-endian 32-bit time at offset 8. */
  function Expiration(sig: Bytes): Option<nat> {
    if |sig| < 12 then None
    else Some(0x100_0000 * (sig[8] as int) + 0x1_0000 * (sig[9] as int) + 0x100 * (sig[10] as int) + sig[11])
  }

  function MinExpiration(sigs: seq<Bytes>): (r: Option<nat>)
    ensures forall i :: 0 <= i < |sigs| && Expiration(sigs[i]).Some? ==> r.Some? && r.value <= Expiration(sigs[i]).value
  {
    if sigs == [] then None else
    var rest, e := MinExpiration(sigs[1..]), Expiration(sigs[0]);
    if e.None? then rest else if rest.None? then e else Some(Min(e.value, rest.value))
  }

  function CacheTtl(rrsetTtl: nat, sigs: seq<Bytes>, now: nat): nat {
    match MinExpiration(sigs)
    case None => rrsetTtl
    case Some(exp) => Min(rrsetTtl, Max(exp - now, 0))
  }

  function DnskeyTtl(msg: Message): nat {
    match MinTtl(msg.answers, RecordTypes.DNSKEY)
    case None => 3600
    case Some(ttl) => ttl
  }

  /** A cached set outlives none of its signatures by more than the cache's floor. */
  lemma LifetimeBounded(rrsetTtl: nat, sigs: seq<Bytes>, now: nat, i: nat)
    requires i < |sigs| && Expiration(sigs[i]).Some?
    ensures Expiry(now, CacheTtl(rrsetTtl, sigs, now)) <= Max(Expiration(sigs[i]).value, now + TTL_FLOOR)
    ensures Expiry(now, CacheTtl(rrsetTtl, sigs, now)) <= now + Max(rrsetTtl, TTL_FLOOR)
  {
    assert MinExpiration(sigs).value <= Expiration(sigs[i]).value;
  }

  // ---- the cached walk is the plain walk ----

  /** A verdict other than trusted is final for everything below. */
  lemma {:induction false} WalkStops(w: World, zone: Name, k: nat)
    requires k <= |zone| && !Walk(w, zone[k..]).Trusted?
    ensures Walk(w, zone) == Walk(w, zone[k..])
  {
    if k == 0 {
      assert zone[0..] == zone;
    } else {
      assert zone[1..][k - 1..] == zone[k..];
      WalkStops(w, zone[1..], k - 1);
    }
  }

  lemma WalkNext(w: World, zone: Name, k: nat)
    requires k < |zone|
    ensures Walk(w, zone[k..]) ==
            if Walk(w, zone[k + 1..]).Trusted? then Step(w, zone[k..], Walk(w, zone[k + 1..]).keys) else Walk(w, zone[k + 1..])
  {
    assert zone[k..][1..] == zone[k + 1..];
  }

  method RootKeys(w: World, cache: KeyCache, pool0: FetchMap, clock: nat) returns (r: Outcome, pool: FetchMap)
    requires cache.Valid() && CacheSound(w, cache) && Faithful(w, pool0)
    modifies cache
    ensures cache.Valid() && CacheSound(w, cache) && Faithful(w, pool)
    ensures r == Walk(w, [])
  {
    hide KeysFrom;
    hide CacheTtl;
    hide SigsOf;
    var cached := Recall(w, cache, [], clock);
    if cached.Some? {
      return Trusted(cached.value), pool0;
    }
    var msg;
    msg, pool := TakeOrFetch(w, pool0, [], RecordTypes.DNSKEY);
    if msg.None? {
      return Broken, pool;
    }
    var keys := KeysFrom(w, [], msg.value, w.anchors);
    if keys.None? {
      return Broken, pool;
    }
    var ttl := CacheTtl(DnskeyTtl(msg.value), SigsOf(msg.value.answers, RecordTypes.DNSKEY), w.now);
    Remember(w, cache, [], keys.value, ttl, clock);
    return Trusted(keys.value), pool;
  }

  /** One uncached level: the DS set under the parent's keys, then the child's keys under the DS set. */
  method CrossCut(w: World, cache: KeyCache, pool0: FetchMap, child: Name, keys: seq<Bytes>, clock: nat)
      returns (r: Outcome, pool: FetchMap)
    requires cache.Valid() && CacheSound(w, cache) && Faithful(w, pool0)
    requires child != [] && Walk(w, child[1..]) == Trusted(keys)
    modifies cache
    ensures cache.Valid() && CacheSound(w, cache) && Faithful(w, pool)
    ensures r == Walk(w, child)
  {
    var ds, km, ns;
    ds, pool := TakeOrFetch(w, pool0, child, RecordTypes.DS);
    if ds.None? {
      return Broken, pool;
    }
    var rdatas := RdatasOf(ds.value.answers, RecordTypes.DS);
    if rdatas == [] {
      ns, pool := TakeOrFetch(w, pool, child, RecordTypes.NS);
      if ns.None? || !Has(ns.value.answers, child, RecordTypes.NS) {
        return Trusted(keys), pool;
      }
      return if DenialSecure(w, ds.value, child, keys) then Unsigned else Broken, pool;
    }
    if !DsSigned(w, child, ds.value, keys) {
      return Broken, pool;
    }
    km, pool := TakeOrFetch(w, pool, child, RecordTypes.DNSKEY);
    if km.None? {
      return Broken, pool;
    }
    var childKeys := KeysFrom(w, child, km.value, ParseAllDs(w, rdatas));
    if childKeys.None? {
      return Broken, pool;
    }
    var ttl := CacheTtl(DnskeyTtl(km.value), SigsOf(km.value.answers, RecordTypes.DNSKEY), w.now);
    Remember(w, cache, child, childKeys.value, ttl, clock);
    return Trusted(childKeys.value), pool;
  }

  /**
   The cached, prefetching walk gives the verdict and keys of the plain walk, and everything it
   learns on the way keeps the cache sound.
   */
  method TrustedKeysFor(w: World, cache: KeyCache, zone: Name, clock: nat) returns (r: Outcome)
    requires cache.Valid() && CacheSound(w, cache)
    modifies cache
    ensures cache.Valid() && CacheSound(w, cache)
    ensures r == Walk(w, zone)
  {
    hide CacheSound;
    hide Faithful;
    hide Walk;
    var hit := Recall(w, cache, zone, clock);
    if hit.Some? {
      return Trusted(hit.value);
    }
    var path := DelegationPath(zone);
    var pool := Prefetch(w, cache, path, clock);
    r, pool := RootKeys(w, cache, pool, clock);
    assert zone[|zone|..] == [];
    if !r.Trusted? {
      WalkStops(w, zone, |zone|);
      return;
    }
    var current: Name := [];
    for i := 0 to |path|
      invariant cache.Valid() && CacheSound(w, cache) && Faithful(w, pool)
      invariant r == Walk(w, zone[|zone| - i..]) && r.Trusted? && |current| <= i
    {
      var child := path[i];
      ghost var k := |zone| - 1 - i;
      WalkNext(w, zone, k);
      if child != current {
        var cached := Recall(w, cache, child, clock);
        if cached.Some? {
          r, current := Trusted(cached.value), child;
        } else {
          assert child[1..] == zone[k + 1..];
          r, pool := CrossCut(w, cache, pool, child, r.keys, clock);
          if !r.Trusted? {
            WalkStops(w, zone, k);
            return;
          }
          current := child;
        }
      }
    }
    assert zone[0..] == zone;
  }
}
