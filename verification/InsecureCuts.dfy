/**
 Where the chain walk of src/dns/dnssec_chain.rs may stop as insecure. Whether a name is a cut is
 asked without authentication, so a signed zone keeps its place only as long as its DS and NS
 answers do not both come back empty.
 */
module InsecureCuts {
  import opened Prelude
  import opened Names
  import opened Zones
  import opened DenialProofs
  import opened Messages
  import opened ChainOfTrust
  import opened Verdicts
  import opened HonestNet
  import opened ReferenceNet
  import opened ZoneTree
  import RecordTypes

  /** The answers at `c` make it look like an ordinary name: no DS, no NS. */
  ghost predicate Stripped(w: World, c: Name) {
    && w.fetch(c, RecordTypes.DS).Some? && RdatasOf(w.fetch(c, RecordTypes.DS).value.answers, RecordTypes.DS) == []
    && !IsRealCut(w, c)
  }

  ghost predicate NoneStripped(w: World, net: Net, zone: Name) {
    forall i :: 0 <= i <= |zone| && zone[i..] in net ==> !Stripped(w, zone[i..])
  }

  /** Every zone but the root has a DS record in the zone above, and none has one below a delegation. */
  ghost predicate SecurelyLinked(net: Net) {
    && [] in net
    && (forall c :: c in net && c != [] ==> DsIn(net, Deepest(net.Keys, c[1..]), c))
    && (forall z, n, m :: z in net ==> !DsBelowCut(net[z].data, n, m))
  }

  predicate DsIn(net: Net, parent: Name, c: Name) {
    parent in net && c in net[parent].data.types && RecordTypes.DS in net[parent].data.types[c]
  }

  predicate DsBelowCut(z: Zone, n: Name, m: Name) {
    CutAt(z, n) && StrictlyBelow(m, n) && m in z.types && RecordTypes.DS in z.types[m]
  }

  lemma StepKeepsZone(w: World, net: Net, child: Name)
    requires Unforgeable(w, net) && [] in net && child != [] && (child in net ==> !Stripped(w, child))
    requires Deepest(net.Keys, child[1..]) in net
    requires Step(w, child, net[Deepest(net.Keys, child[1..])].keys).Trusted?
    ensures Deepest(net.Keys, child) in net
    ensures Step(w, child, net[Deepest(net.Keys, child[1..])].keys).keys == net[Deepest(net.Keys, child)].keys
  {
    var parent := Deepest(net.Keys, child[1..]);
    var keys := net[parent].keys;
    var ds := w.fetch(child, RecordTypes.DS).value;
    if RdatasOf(ds.answers, RecordTypes.DS) == [] {
      assert Stripped(w, child);
    } else {
      CutLinks(w, child, keys);
      assert SignedCut(w, child, net[parent].keys, Step(w, child, keys).keys);
    }
  }

  lemma CutLinks(w: World, child: Name, parent: seq<Bytes>)
    requires Step(w, child, parent).Trusted?
    requires RdatasOf(w.fetch(child, RecordTypes.DS).value.answers, RecordTypes.DS) != []
    ensures SignedCut(w, child, parent, Step(w, child, parent).keys)
  {
    var ds := w.fetch(child, RecordTypes.DS).value;
    var rdatas := RdatasOf(ds.answers, RecordTypes.DS);
    var msg := w.fetch(child, RecordTypes.DNSKEY).value;
    var dnskeys, sigs := RdatasOf(msg.answers, RecordTypes.DNSKEY), SigsOf(msg.answers, RecordTypes.DNSKEY);
    assert w.validateKeys(child, dnskeys, sigs, ParseAllDs(w, rdatas)) == Some(Step(w, child, parent).keys);
  }

  /** With nothing stripped, the keys at a name are those of the deepest signed zone at or above it. */
  lemma {:induction false} KeysAreDeepest(w: World, net: Net, zone: Name)
    requires Unforgeable(w, net) && [] in net && NoneStripped(w, net, zone) && Walk(w, zone).Trusted?
    ensures Deepest(net.Keys, zone) in net && Walk(w, zone).keys == net[Deepest(net.Keys, zone)].keys
  {
    hide Unforgeable;
    if zone == [] {
      RootKeysGenuine(w, net);
    } else {
      SuffixNotStripped(w, net, zone);
      KeysAreDeepest(w, net, zone[1..]);
      assert zone[0..] == zone;
      StepKeepsZone(w, net, zone);
    }
  }

  lemma RootKeysGenuine(w: World, net: Net)
    requires Unforgeable(w, net) && Walk(w, []).Trusted?
    ensures [] in net && net[[]].keys == Walk(w, []).keys
  {
    SecureIsEarned(w, []);
    assert Anchored(w, Walk(w, []).keys);
  }

  lemma SuffixNotStripped(w: World, net: Net, zone: Name)
    requires NoneStripped(w, net, zone) && zone != []
    ensures NoneStripped(w, net, zone[1..])
  {
    forall i | 0 <= i <= |zone[1..]| && zone[1..][i..] in net ensures !Stripped(w, zone[1..][i..]) {
      assert zone[1..][i..] == zone[i + 1..];
    }
  }

  /** The cut at `zone[k..]` has no DS record. */
  predicate Unsecured(z: Zone, n: Name) {
    (n in z.types ==> RecordTypes.DS !in z.types[n]) && (CutAt(z, n) || !z.Signed(n))
  }

  /** Neither does any name below it. */
  lemma NoDsUnderCut(z: Zone, zone: Name, k: nat, j: nat)
    requires z.Valid() && j <= k <= |zone| && |z.apex| <= |zone| - k && Unsecured(z, zone[k..])
    requires !DsBelowCut(z, zone[k..], zone[j..])
    ensures zone[j..] in z.types ==> RecordTypes.DS !in z.types[zone[j..]]
  {
    if j < k && zone[j..] in z.types && z.Signed(zone[j..]) {
      SignedReaches(z, zone, j, k);
      assert zone[j..][k - j..] == zone[k..];
    } else {
      assert z.WellPlaced(zone[j..]);
    }
  }

  /** A denied DS leaves no signed zone at or below the cut. */
  lemma {:induction false} NothingSignedUnderCut(net: Net, zone: Name, k: nat, j: nat)
    requires SecurelyLinked(net) && j <= k < |zone| && Deepest(net.Keys, zone[k + 1..]) in net
    requires var parent := Deepest(net.Keys, zone[k + 1..]);
             net[parent].data.Valid() && net[parent].data.apex == parent && Unsecured(net[parent].data, zone[k..])
    ensures forall i :: j <= i <= k ==> zone[i..] !in net
    decreases k - j
  {
    hide Unsecured;
    var parent := Deepest(net.Keys, zone[k + 1..]);
    if j < k {
      NothingSignedUnderCut(net, zone, k, j + 1);
    }
    DeepestShort(net.Keys, zone[k + 1..]);
    NoDsUnderCut(net[parent].data, zone, k, j);
    DeepestSkips(net.Keys, zone, k, j);
    assert zone[j..][1..] == zone[j + 1..];
    assert zone[j..] in net ==> DsIn(net, parent, zone[j..]);
  }

  lemma {:induction false} DeepestShort(zones: set<Name>, n: Name)
    ensures |Deepest(zones, n)| <= |n|
  {
    if n !in zones && n != [] {
      DeepestShort(zones, n[1..]);
    }
  }

  lemma {:induction false} DeepestSkips(zones: set<Name>, zone: Name, k: nat, j: nat)
    requires j <= k < |zone| && forall i :: j < i <= k ==> zone[i..] !in zones
    ensures Deepest(zones, zone[j + 1..]) == Deepest(zones, zone[k + 1..])
    decreases k - j
  {
    if j < k {
      assert zone[j + 1..][1..] == zone[j + 2..];
      DeepestSkips(zones, zone, k, j + 1);
    }
  }

  /** The ancestors of a signed name down to the apex are signed. */
  lemma SignedReaches(z: Zone, zone: Name, j: nat, k: nat)
    requires z.Valid() && j <= k <= |zone| && z.Signed(zone[j..]) && |z.apex| <= |zone| - k
    ensures z.Signed(zone[k..])
  {
    if !z.Signed(zone[k..]) {
      NothingSignedBelow(z, zone, k);
    }
  }

  /** Where an insecure walk stopped: trusted keys above, a cut without DS. */
  lemma {:induction false} StopsAt(w: World, zone: Name) returns (k: nat)
    requires Walk(w, zone) == Unsigned
    ensures k < |zone| && Walk(w, zone[k + 1..]).Trusted? && Step(w, zone[k..], Walk(w, zone[k + 1..]).keys) == Unsigned
  {
    assert zone[0..] == zone;
    if Walk(w, zone[1..]).Trusted? {
      k := 0;
    } else {
      k := StopsAt(w, zone[1..]);
      assert zone[1..][k..] == zone[k + 1..] && zone[1..][k + 1..] == zone[k + 2..];
      k := k + 1;
    }
  }

  /** The DS answers along the path carry no expanded NSEC, or their zones have no wildcard. */
  ghost predicate DirectPath(w: World, net: Net, zone: Name) {
    forall i :: 0 <= i < |zone| ==> DirectAt(w, net, zone[i..])
  }

  ghost predicate DirectAt(w: World, net: Net, c: Name)
    requires c != []
  {
    w.fetch(c, RecordTypes.DS).Some? && Deepest(net.Keys, c[1..]) in net ==>
      Direct(w, w.fetch(c, RecordTypes.DS).value, net[Deepest(net.Keys, c[1..])])
  }

  lemma CutIsUnsecured(w: World, net: Net, zone: Name, k: nat)
    requires HonestNet.Honest(w, net) && [] in net && NoneStripped(w, net, zone) && k < |zone|
    requires Fold(zone[k..]) == zone[k..] && ValidName(zone[k..]) && DirectAt(w, net, zone[k..])
    requires forall z :: z in net ==> NoCollision(net[z].data, w.hash, net[z].params, zone[k..])
    requires Walk(w, zone[k + 1..]).Trusted? && Step(w, zone[k..], Walk(w, zone[k + 1..]).keys) == Unsigned
    ensures var parent := Deepest(net.Keys, zone[k + 1..]);
            parent in net && net[parent].data.Valid() && net[parent].data.apex == parent && Unsecured(net[parent].data, zone[k..])
  {
    hide HonestChain;
    hide HonestNsecChain;
    var parent := Deepest(net.Keys, zone[k + 1..]);
    PathNotStripped(w, net, zone, k + 1);
    KeysAreDeepest(w, net, zone[k + 1..]);
    assert HonestZone(w.hash, parent, net[parent]);
    assert zone[k..][1..] == zone[k + 1..];
    var ds := w.fetch(zone[k..], RecordTypes.DS).value;
    NoDsIsTrue(w, net, parent, ds, zone[k..]);
  }

  lemma PathNotStripped(w: World, net: Net, zone: Name, k: nat)
    requires NoneStripped(w, net, zone) && k <= |zone|
    ensures NoneStripped(w, net, zone[k..])
  {
    forall i | 0 <= i <= |zone[k..]| && zone[k..][i..] in net ensures !Stripped(w, zone[k..][i..]) {
      assert zone[k..][i..] == zone[i + k..];
    }
  }

  /** No name on the way down from its zone's apex is an unsigned delegation. */
  ghost predicate Protected(net: Net, zone: Name) {
    var d := Deepest(net.Keys, zone);
    d in net && forall k :: 0 <= k < |zone| - |d| ==> !Unsecured(net[d].data, zone[k..])
  }

  lemma CutInOwnZone(net: Net, zone: Name, k: nat)
    requires k < |zone| && (forall j :: 0 <= j <= k ==> zone[j..] !in net)
    requires Deepest(net.Keys, zone[k + 1..]) in net && Unsecured(net[Deepest(net.Keys, zone[k + 1..])].data, zone[k..])
    ensures !Protected(net, zone)
  {
    hide Unsecured;
    assert zone[0..] == zone;
    DeepestSkips(net.Keys, zone, k, 0);
    DeepestShort(net.Keys, zone[k + 1..]);
  }

  /** The zone whose chain a message is judged by. */
  function WalkedZone(w: World, msg: Message, q: Name): Name {
    match SigningZone(w, msg, q)
    case None => FallbackZone(msg, q)
    case Some(zone) => zone
  }

  lemma InsecureWalk(w: World, q: Name, t: u16, msg: Message) returns (i: nat)
    requires Validated(w, q, t, msg).0 == Insecure
    ensures i <= |q| && Fold(WalkedZone(w, msg, q)) == Fold(q)[i..] && Walk(w, Fold(q)[i..]) == Unsigned
  {
    hide Walk;
    hide Judge;
    var zone := WalkedZone(w, msg, q);
    assert Fold(q)[0..] == Fold(q);
    assert InZone(q, zone);
    i := |q| - |zone|;
    match SigningZone(w, msg, q) {
      case None =>
      case Some(z) => {
        assert Walk(w, Fold(z)).Trusted? ==> Judge(w, q, t, msg, z, Walk(w, Fold(z)).keys).0 != Insecure by {
          JudgedIsNotInsecure(w, q, t, msg, z);
        }
      }
    }
  }

  lemma JudgedIsNotInsecure(w: World, q: Name, t: u16, msg: Message, zone: Name)
    ensures Walk(w, Fold(zone)).Trusted? ==> Judge(w, q, t, msg, zone, Walk(w, Fold(zone)).keys).0 != Insecure
  {
    hide Walk;
    hide DenialValid;
    hide NoExactMatch;
  }

  lemma UnsignedIsInsecure(w: World, q: Name, t: u16)
    requires Walk(w, Fold(q)) == Unsigned
    ensures Validated(w, q, t, NOTHING).0 == Insecure
  {
    hide Walk;
    assert NOTHING.answers + NOTHING.authority == [];
  }

  /** Some message is judged insecure exactly if the walk to the name itself ends so. */
  lemma InsecureIffWalk(w: World, q: Name, t: u16)
    ensures (exists msg :: Validated(w, q, t, msg).0 == Insecure) <==> Walk(w, Fold(q)) == Unsigned
  {
    hide Walk;
    hide Validated;
    if Walk(w, Fold(q)) == Unsigned {
      UnsignedIsInsecure(w, q, t);
    }
    if msg :| Validated(w, q, t, msg).0 == Insecure {
      var i := InsecureWalk(w, q, t, msg);
      WalkStops(w, Fold(q), i);
    }
  }

  /**
   If no signed zone on the path that was walked is stripped, an insecure verdict on a query comes from
   an unsigned delegation of the query's own zone: the deepest signed zone above it, with none in
   between, whichever ancestor the message named as its zone.
   */
  lemma InsecureIsEarnedInside(w: World, net: Net, q: Name, t: u16, msg: Message) returns (k: nat)
    requires HonestNet.Honest(w, net) && SecurelyLinked(net) && ValidName(q) && Validated(w, q, t, msg).0 == Insecure
    requires NoneStripped(w, net, Fold(WalkedZone(w, msg, q))) && DirectPath(w, net, Fold(WalkedZone(w, msg, q)))
    requires forall z, i :: z in net && 0 <= i <= |q| ==> NoCollision(net[z].data, w.hash, net[z].params, Fold(q)[i..])
    ensures k < |q| && Walk(w, Fold(q)[k + 1..]).Trusted? && forall j :: 0 <= j <= k ==> Fold(q)[j..] !in net
    ensures !Protected(net, Fold(q))
  {
    hide HonestNet.Honest;
    hide NoneStripped;
    hide NoCollision;
    hide Unsecured;
    hide Validated;
    hide WalkedZone;
    hide Walk;
    hide Fold;
    hide ValidName;
    hide Protected;
    assert [] in net;
    hide SecurelyLinked;
    var n := Fold(q);
    var i := InsecureWalk(w, q, t, msg);
    var y := n[i..];
    var stop := StopsAt(w, y);
    k := stop + i;
    assert y[stop..] == n[k..] && y[stop + 1..] == n[k + 1..];
    ValidFold(q);
    ValidSuffix(n, k);
    FoldIdempotent(q);
    FoldSuffix(n, k);
    assert DirectAt(w, net, y[stop..]);
    CutIsUnsecured(w, net, y, stop);
    NothingSignedUnderCut(net, n, k, 0);
    CutInOwnZone(net, n, k);
  }
}
