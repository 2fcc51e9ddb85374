/**
 The zones of the name space together, signed or not, and which of them a name belongs to. A zone
 above a delegation still has a record at it; section 4.1 of RFC 6840 says what that record must not
 be used for.
 */
module ZoneTree {
  import opened Prelude
  import opened Names
  import opened Denial
  import opened Zones
  import opened DenialProofs
  import opened NsecProofs
  import opened NsecLookup
  import opened ExpandedDenial
  import RecordTypes
  import TypeBitmap

  type Tree = map<Name, Zone>

  /** The deepest of some zones at or above a name. */
  function Deepest(zones: set<Name>, n: Name): Name {
    if n in zones || n == [] then n else Deepest(zones, n[1..])
  }

  lemma {:induction false} DeepestIsZone(zones: set<Name>, n: Name)
    requires [] in zones
    ensures Deepest(zones, n) in zones
  {
    if n !in zones {
      DeepestIsZone(zones, n[1..]);
    }
  }

  lemma {:induction false} DeepestAbove(zones: set<Name>, n: Name)
    ensures Above(Deepest(zones, n), n)
  {
    AboveItself(n);
    if n !in zones && n != [] {
      DeepestAbove(zones, n[1..]);
      AboveStep(Deepest(zones, n[1..]), n);
    }
  }

  /** It is at or below every one of the zones above the name. */
  lemma {:induction false} DeepestBelow(zones: set<Name>, n: Name, a: Name)
    requires a in zones && Above(a, n)
    ensures Above(a, Deepest(zones, n))
  {
    if n !in zones && n != [] {
      AboveStep(a, n);
      DeepestBelow(zones, n[1..], a);
    }
  }

  // ---- delegations ----

  /** NS without SOA: the record of a delegation, as seen from above. */
  predicate Delegation(types: set<u16>) {
    RecordTypes.NS in types && RecordTypes.SOA !in types
  }

  predicate DelegationBits(bitmap: seq<byte>) {
    TypeBitmap.Has(bitmap, RecordTypes.NS) && !TypeBitmap.Has(bitmap, RecordTypes.SOA)
  }

  predicate Delegates(z: Zone, c: Name) {
    c in z.types && Delegation(z.types[c])
  }

  /** A zone has nothing below its delegations. */
  ghost predicate Tidy(z: Zone) {
    forall c, m :: Delegates(z, c) && StrictlyBelow(m, c) ==> m !in z.types
  }

  /** No delegation of the zone is at or above the name. */
  ghost predicate Authoritative(z: Zone, n: Name) {
    forall c :: Delegates(z, c) ==> !Above(c, n)
  }

  /** The zones of a tree: SOA at the apex alone, and every zone delegated from the one above it. */
  ghost predicate Grown(tree: Tree) {
    && [] in tree
    && (forall a :: a in tree ==> tree[a].Valid() && tree[a].apex == a && Tidy(tree[a]))
    && (forall a, n :: a in tree && n in tree[a].types ==> (RecordTypes.SOA in tree[a].types[n] <==> n == a))
    && (forall c :: c in tree && c != [] ==> DelegatedIn(tree, Deepest(tree.Keys, c[1..]), c))
  }

  predicate DelegatedIn(tree: Tree, a: Name, c: Name) {
    a in tree && Delegates(tree[a], c)
  }

  /** The first delegation on the way from a zone down to another. */
  lemma {:induction false} TopCut(tree: Tree, a: Name, d: Name) returns (c: Name)
    requires Grown(tree) && a in tree && d in tree && StrictlyBelow(d, a)
    ensures Above(c, d) && StrictlyBelow(c, a) && Delegates(tree[a], c)
    decreases |d|
  {
    var p := Deepest(tree.Keys, d[1..]);
    AboveStep(a, d);
    DeepestBelow(tree.Keys, d[1..], a);
    DeepestAbove(tree.Keys, d[1..]);
    DeepestIsZone(tree.Keys, d[1..]);
    if p == a {
      c := d;
      AboveItself(d);
      assert DelegatedIn(tree, p, d);
    } else {
      SelfOrBelow(a, p);
      c := TopCut(tree, a, p);
      AboveStep(p, d);
      AboveTransitive(c, p, d);
    }
  }

  /** A name with no delegation above it belongs to the zone. */
  lemma AuthoritativeIsDeepest(tree: Tree, a: Name, n: Name)
    requires Grown(tree) && a in tree && Above(a, n) && Authoritative(tree[a], n)
    ensures Deepest(tree.Keys, n) == a
  {
    hide Grown;
    RootGrown(tree);
    var d := Deepest(tree.Keys, n);
    DeepestIsZone(tree.Keys, n);
    DeepestAbove(tree.Keys, n);
    DeepestBelow(tree.Keys, n, a);
    if d != a {
      SelfOrBelow(a, d);
      var c := TopCut(tree, a, d);
      AboveTransitive(c, d, n);
    }
  }

  lemma RootGrown(tree: Tree)
    requires Grown(tree)
    ensures [] in tree
  {
  }

  // ---- what is true of a name ----

  /** The zone that has a type of a name: its own, or for the DS of a zone the one above. */
  function Home(zones: set<Name>, m: Name, t: u16): Name {
    if t == RecordTypes.DS && m != [] then Deepest(zones, m[1..]) else Deepest(zones, m)
  }

  predicate Holds(tree: Tree, m: Name, t: u16) {
    Home(tree.Keys, m, t) in tree && Has(tree[Home(tree.Keys, m, t)], m, t)
  }

  predicate Has(z: Zone, m: Name, t: u16) {
    m in z.types && t in z.types[m]
  }

  ghost predicate Lives(tree: Tree, m: Name) {
    exists t :: Holds(tree, m, t)
  }

  lemma HoldsIsProper(tree: Tree, m: Name, t: u16)
    requires Grown(tree) && Holds(tree, m, t)
    ensures ValidName(m) && Fold(m) == m
  {
    assert tree[Home(tree.Keys, m, t)].WellPlaced(m);
  }

  /** Away from its apex a zone is at or above the home of whatever a name below it has. */
  lemma HomeBelow(tree: Tree, a: Name, m: Name, t: u16)
    requires Grown(tree) && a in tree && Above(a, m) && (m != a || t != RecordTypes.DS)
    ensures var d := Home(tree.Keys, m, t); d in tree && Above(a, d) && Above(d, m)
  {
    hide Grown;
    RootGrown(tree);
    if t == RecordTypes.DS && m != [] {
      AboveStep(a, m);
      DeepestIsZone(tree.Keys, m[1..]);
      DeepestBelow(tree.Keys, m[1..], a);
      DeepestAbove(tree.Keys, m[1..]);
      AboveStep(Deepest(tree.Keys, m[1..]), m);
    } else {
      DeepestIsZone(tree.Keys, m);
      DeepestBelow(tree.Keys, m, a);
      DeepestAbove(tree.Keys, m);
    }
  }

  /** What a name below a zone has and the zone does not list lies below one of its delegations. */
  lemma HiddenBelowCut(tree: Tree, a: Name, m: Name, t: u16) returns (c: Name)
    requires Grown(tree) && a in tree && Above(a, m) && Holds(tree, m, t) && !Owner(tree[a], m)
    ensures Delegates(tree[a], c) && StrictlyBelow(m, c)
  {
    hide Grown;
    ApexOwns(tree, a);
    HomeBelow(tree, a, m, t);
    var d := Home(tree.Keys, m, t);
    assert d != a;
    SelfOrBelow(a, d);
    c := TopCut(tree, a, d);
    AboveTransitive(c, d, m);
    assert c != m;
    SelfOrBelow(c, m);
  }

  lemma ApexOwns(tree: Tree, a: Name)
    requires Grown(tree) && a in tree
    ensures tree[a].Valid() && tree[a].apex == a && Tidy(tree[a]) && Has(tree[a], a, RecordTypes.SOA) && Owner(tree[a], a)
  {
    assert a in tree[a].types;
  }

  /** What a zone lists is true: of the zone itself, or of the one delegated there. */
  lemma OwnerLives(tree: Tree, a: Name, m: Name)
    requires Grown(tree) && a in tree && Owner(tree[a], m)
    ensures Lives(tree, m)
  {
    hide Grown;
    ApexOwns(tree, a);
    assert tree[a].WellPlaced(m);
    if m in tree {
      ApexOwns(tree, m);
      assert Holds(tree, m, RecordTypes.SOA);
    } else {
      OwnTypeHolds(tree, a, m);
    }
  }

  lemma OwnTypeHolds(tree: Tree, a: Name, m: Name)
    requires Grown(tree) && a in tree && Owner(tree[a], m) && m !in tree && Above(a, m)
    ensures Lives(tree, m)
  {
    hide Grown;
    hide Above;
    RootGrown(tree);
    var t :| t in tree[a].types[m];
    OwnZoneIsDeepest(tree, a, m);
    assert Deepest(tree.Keys, m) == Deepest(tree.Keys, m[1..]);
    assert Holds(tree, m, t);
  }

  /** A name that a zone lists, if no zone starts there, belongs to it. */
  lemma OwnZoneIsDeepest(tree: Tree, a: Name, m: Name)
    requires Grown(tree) && a in tree && m in tree[a].types && m !in tree && Above(a, m)
    ensures Deepest(tree.Keys, m) == a
  {
    hide Grown;
    ApexOwns(tree, a);
    RootGrown(tree);
    var d := Deepest(tree.Keys, m);
    DeepestIsZone(tree.Keys, m);
    DeepestBelow(tree.Keys, m, a);
    DeepestAbove(tree.Keys, m);
    if d != a {
      SelfOrBelow(a, d);
      var c := TopCut(tree, a, d);
      SelfOrBelow(d, m);
      AboveTransitive(c, d, m);
      SelfOrBelow(c, m);
    }
  }

  // ---- which records may be used ----

  /** A covering record that is not that of a delegation above the name: the name belongs to the zone. */
  lemma CoverMeansOwn(z: Zone, chain: seq<Nsec>, n: Nsec, q: Name)
    requires HonestNsecChain(z, chain) && Tidy(z) && FoldNsec(n) in chain && NsecCovers(n.owner, n.next, q)
    requires Above(Fold(n.owner), Fold(q)) ==> !DelegationBits(n.bitmap)
    ensures Authoritative(z, Fold(q))
  {
    hide HonestNsecChain;
    hide NameBetween;
    hide Tidy;
    CoversIsBetween(n, q);
    var k :| 0 <= k < |chain| && chain[k] == FoldNsec(n);
    forall c | Delegates(z, c) ensures !Above(c, Fold(q)) {
      if Above(c, Fold(q)) {
        CutOwnsGap(z, chain, k, c, Fold(q));
        RecordAtIndex(z, chain, k);
      }
    }
  }

  /** The names below a delegation lie in the interval that starts with it. */
  lemma CutOwnsGap(z: Zone, chain: seq<Nsec>, k: nat, c: Name, x: Name)
    requires HonestNsecChain(z, chain) && Tidy(z) && k < |chain| && NameBetween(chain[k].owner, chain[k].next, x)
    requires Delegates(z, c) && Above(c, x)
    ensures chain[k].owner == c
  {
    hide HonestNsecChain;
    var owner, next := chain[k].owner, chain[k].next;
    NotBetween(z, chain, k, c);
    RecordAtIndex(z, chain, k);
    BelowIsAfter(c, x);
    NameLessTotal();
    hide NameLess;
    assert NameLess(owner, x) && !NameLess(owner, c);
    AboveItself(c);
    NamesNeighbour(c, c, owner, x);
    assert owner in z.types;
    SelfOrBelow(c, owner);
  }

  lemma BelowIsAfter(c: Name, x: Name)
    requires Above(c, x)
    ensures x == c || NameLess(c, x)
  {
    var u := x[..|x| - |c|];
    assert x == u + c;
    if u != [] {
      AncestorFirst(u, c);
    }
  }

  /** The record of a delegation covers every name below it. */
  lemma CutCovers(z: Zone, chain: seq<Nsec>, k: nat, x: Name)
    requires z.Valid() && HonestNsecChain(z, chain) && Tidy(z) && k < |chain|
    requires Delegates(z, chain[k].owner) && StrictlyBelow(x, chain[k].owner) && Fold(x) == x
    ensures NsecCovers(chain[k].owner, chain[k].next, x)
  {
    hide HonestNsecChain;
    var c, next := chain[k].owner, chain[k].next;
    FoldedRecord(z, chain, chain[k]);
    CoversIsBetween(chain[k], x);
    EndsExist(z, chain, k);
    BelowIsAfter(c, x);
    NameLessTotal();
    if NameLess(c, next) && !NameLess(x, next) {
      AboveItself(c);
      NextNotBelow(z, c, next, x);
    }
  }

  lemma NextNotBelow(z: Zone, c: Name, next: Name, x: Name)
    requires Tidy(z) && Delegates(z, c) && next in z.types && next != c && Above(c, x)
    ensures NameLess(next, c) || NameLess(x, next)
  {
    AboveItself(c);
    if !NameLess(next, c) && !NameLess(x, next) {
      NamesNeighbour(c, c, next, x);
      SelfOrBelow(c, next);
    }
  }

  /** A listed name whose record is not that of a delegation belongs to the zone. */
  lemma ListedMeansOwn(z: Zone, m: Name)
    requires Tidy(z) && m in z.types && !Delegation(z.types[m])
    ensures Authoritative(z, m)
  {
    forall c | Delegates(z, c) ensures !Above(c, m) {
      if Above(c, m) {
        SelfOrBelow(c, m);
      }
    }
  }

  /** What a zone does not list at a name is not there, unless the record is that of the other side of a cut. */
  lemma UnlistedIsAbsent(tree: Tree, a: Name, m: Name, t: u16)
    requires Grown(tree) && a in tree && m in tree[a].types && t !in tree[a].types[m]
    requires if t == RecordTypes.DS then RecordTypes.SOA !in tree[a].types[m] else !Delegation(tree[a].types[m])
    ensures !Holds(tree, m, t)
  {
    ApexOwns(tree, a);
    assert tree[a].WellPlaced(m);
    if t == RecordTypes.DS {
      assert m != a;
      DsFromAbove(tree, a, m);
    } else {
      ListedMeansOwn(tree[a], m);
      AuthoritativeIsDeepest(tree, a, m);
    }
  }

  /** The DS of a name that a zone lists below its apex is in that zone. */
  lemma DsFromAbove(tree: Tree, a: Name, m: Name)
    requires Grown(tree) && a in tree && m in tree[a].types && m != a && Above(a, m)
    ensures m != [] && Deepest(tree.Keys, m[1..]) == a
  {
    hide Grown;
    ApexOwns(tree, a);
    RootGrown(tree);
    AboveStep(a, m);
    var d := Deepest(tree.Keys, m[1..]);
    DeepestIsZone(tree.Keys, m[1..]);
    DeepestBelow(tree.Keys, m[1..], a);
    DeepestAbove(tree.Keys, m[1..]);
    if d != a {
      SelfOrBelow(a, d);
      var c := TopCut(tree, a, d);
      AboveTransitive(c, d, m[1..]);
      AboveStep(c, m);
      SelfOrBelow(c, m);
    }
  }

  /** The record matched at an ancestor is that of a name of the zone, with its types. */
  lemma MatchedAncestor(z: Zone, h: Hasher, p: Params, chain: seq<Nsec3>, recs: seq<Nsec3>, q: Name, i: nat) returns (r: Nsec3)
    requires HonestChain(z, h, p, chain) && Shown(recs, chain) && ValidName(q) && i <= |q|
    requires NoCollision(z, h, p, Fold(q)[i..]) && AnyMatches(h, recs, q[i..])
    ensures r in recs && r.Matches(h, q[i..]) && z.Signed(Fold(q)[i..])
    ensures DelegationBits(r.bitmap) <==> Delegation(z.types[Fold(q)[i..]])
  {
    var k :| 0 <= k < |recs| && recs[k].Matches(h, q[i..]);
    r := recs[k];
    ValidSuffix(q, i);
    FoldSuffix(q, i);
    MatchMeansSigned(z, h, p, chain, r, q[i..]);
    assert r.Lists(RecordTypes.NS) <==> RecordTypes.NS in z.types[Fold(q)[i..]];
    assert r.Lists(RecordTypes.SOA) <==> RecordTypes.SOA in z.types[Fold(q)[i..]];
  }

  /**
   An accepted no-exact-match proof by hashes whose matched encloser is no delegation: the name
   belongs to the zone, or an opted-out delegation hides in the interval.
   */
  lemma HashCoverMeansOwn(z: Zone, h: Hasher, p: Params, chain: seq<Nsec3>, recs: seq<Nsec3>, q: Name, zone: Name, i: nat)
    requires z.Valid() && Tidy(z) && HonestChain(z, h, p, chain) && Shown(recs, chain) && ValidName(q) && InZone(zone, z.apex)
    requires ClosestMatch(h, recs, q, zone, i) && DeniesNextCloser(h, recs, q, i) && NoCollision(z, h, p, Fold(q)[i..])
    requires forall r :: r in recs && r.Matches(h, q[i..]) ==> !DelegationBits(r.bitmap)
    ensures Authoritative(z, Fold(q)) || Fold(q)[i - 1..] in z.optedOut
  {
    hide HonestChain;
    hide Tidy;
    hide DelegationBits;
    hide NoCollision;
    NextCloserUnsigned(z, h, p, chain, recs, q, zone, i);
    var r := MatchedAncestor(z, h, p, chain, recs, q, i);
    if c :| Delegates(z, c) && Above(c, Fold(q)) {
      CutAboveQuery(z, Fold(q), i, c);
    }
  }

  lemma CutAboveQuery(z: Zone, n: Name, i: nat, c: Name)
    requires z.Valid() && Tidy(z) && 1 <= i <= |n| - |z.apex| && n[i..] in z.types && !Delegation(z.types[n[i..]])
    requires forall j :: 0 <= j < i ==> !z.Signed(n[j..])
    requires Delegates(z, c) && Above(c, n)
    ensures n[i - 1..] in z.optedOut
  {
    var k := |n| - |c|;
    AboveSuffix(n, i);
    if k >= i {
      AncestorsNest(c, n[i..], n);
      SelfOrBelow(c, n[i..]);
    } else {
      AboveSuffix(n, i - 1);
      AncestorsNest(n[i - 1..], c, n);
      AncestorExists(z, c, n[i - 1..]);
    }
  }

  lemma AboveSuffix(n: Name, i: nat)
    requires i <= |n|
    ensures Above(n[i..], n)
  {
  }
}
