/**
 What a covering NSEC record says beyond the name it covers. Names below a common ancestor are
 neighbours in canonical order, so the record shows which ancestors of the name exist; with that
 the NXDOMAIN check can be compared with lookup itself.
 */
module NsecLookup {
  import opened Names
  import opened Order
  import opened Denial
  import opened Zones
  import opened NsecProofs

  // ---- neighbours ----

  lemma AboveIsPrefix(x: Name, n: Name)
    ensures Above(x, n) <==> Reverse(x) <= Reverse(n)
  {
    if Above(x, n) {
      assert forall i :: 0 <= i < |x| ==> n[|n| - |x| + i] == x[i];
    }
    if Reverse(x) <= Reverse(n) {
      assert forall i :: 0 <= i < |x| ==> x[i] == Reverse(x)[|x| - 1 - i] == Reverse(n)[|x| - 1 - i] == n[|n| - |x| + i];
    }
  }

  /** What lies between two names below `x` is below `x`. */
  lemma NamesNeighbour(x: Name, a: Name, b: Name, c: Name)
    requires Above(x, a) && Above(x, c) && !NameLess(b, a) && !NameLess(c, b)
    ensures Above(x, b)
  {
    BytesLessTotal();
    AboveIsPrefix(x, a);
    AboveIsPrefix(x, b);
    AboveIsPrefix(x, c);
    LexNeighbours(BytesLess, Reverse(x), Reverse(a), Reverse(b), Reverse(c));
  }

  lemma NotBetween(z: Zone, chain: seq<Nsec>, k: nat, m: Name)
    requires HonestNsecChain(z, chain) && k < |chain| && Owner(z, m)
    ensures !NameBetween(chain[k].owner, chain[k].next, m)
  {
    hide NameLess;
    if NameBetween(chain[k].owner, chain[k].next, m) {
      NsecRingMisses(z, chain, k, m);
      assert false;
    }
  }

  /** If `q` is covered, an ancestor of it with an owner below is an ancestor of one end of the interval. */
  lemma OwnerShows(z: Zone, chain: seq<Nsec>, k: nat, q: Name, m: Name, x: Name)
    requires HonestNsecChain(z, chain) && k < |chain| && NameBetween(chain[k].owner, chain[k].next, q)
    requires Owner(z, m) && Above(x, m) && Above(x, q)
    ensures Above(x, chain[k].owner) || Above(x, chain[k].next)
  {
    hide HonestNsecChain;
    hide Above;
    var owner, next := chain[k].owner, chain[k].next;
    NotBetween(z, chain, k, m);
    NameLessTotal();
    hide NameLess;
    if NameLess(owner, q) && !NameLess(owner, m) {
      NamesNeighbour(x, m, owner, q);
    } else {
      NamesNeighbour(x, q, next, m);
    }
  }

  // ---- the closest encloser ----

  /** An empty name exists only for the sake of an owner below it. */
  ghost predicate Peopled(z: Zone) {
    forall n :: n in z.types ==> exists m :: Owner(z, m) && Above(n, m)
  }

  /** `x` is at or above an end of the interval. */
  predicate Seen(r: Nsec, x: Name) {
    Above(x, r.owner) || Above(x, r.next)
  }

  lemma AncestorExists(z: Zone, n: Name, x: Name)
    requires z.Valid() && n in z.types && Above(x, n) && |z.apex| <= |x|
    ensures x in z.types
  {
    assert n[0..] == n;
    if x !in z.types {
      NothingBelow(z, n, |n| - |x|);
    }
  }

  lemma ExistsIffSeen(z: Zone, chain: seq<Nsec>, k: nat, q: Name, x: Name)
    requires z.Valid() && HonestNsecChain(z, chain) && Peopled(z) && k < |chain|
    requires NameBetween(chain[k].owner, chain[k].next, q) && Above(x, q) && |z.apex| <= |x|
    ensures x in z.types <==> Seen(chain[k], x)
  {
    hide Above;
    hide HonestNsecChain;
    hide NameBetween;
    if x in z.types {
      var m :| Owner(z, m) && Above(x, m);
      OwnerShows(z, chain, k, q, m, x);
    } else if Seen(chain[k], x) {
      EndsExist(z, chain, k);
      AncestorExists(z, if Above(x, chain[k].owner) then chain[k].owner else chain[k].next, x);
    }
  }

  lemma EndsExist(z: Zone, chain: seq<Nsec>, k: nat)
    requires HonestNsecChain(z, chain) && k < |chain|
    ensures chain[k].owner in z.types && chain[k].next in z.types
  {
    hide NameLess;
  }

  /** The longest ancestor-or-self of `q` that the record shows. */
  function EncloserOf(r: Nsec, q: Name): Name {
    if Seen(r, q) || q == [] then q else EncloserOf(r, q[1..])
  }

  /** A covering record shows the closest encloser. */
  lemma {:induction false} EncloserRead(z: Zone, chain: seq<Nsec>, k: nat, q: Name, x: Name)
    requires z.Valid() && HonestNsecChain(z, chain) && Peopled(z) && k < |chain|
    requires NameBetween(chain[k].owner, chain[k].next, q) && Above(x, q) && Above(z.apex, x)
    ensures ClosestEncloser(z, x) == EncloserOf(chain[k], x) && Above(EncloserOf(chain[k], x), x)
    ensures Above(z.apex, EncloserOf(chain[k], x))
  {
    hide HonestNsecChain;
    hide Peopled;
    hide Seen;
    hide NameBetween;
    hide Above;
    SelfOrBelow(z.apex, x);
    ExistsIffSeen(z, chain, k, q, x);
    AboveItself(x);
    if x !in z.types {
      AboveStep(z.apex, x);
      AboveStep(x[1..], x);
      AboveItself(x[1..]);
      AboveTransitive(x[1..], x, q);
      EncloserRead(z, chain, k, q, x[1..]);
      AboveStep(EncloserOf(chain[k], x[1..]), x);
    }
  }

  // ---- the check of section 5.4 of RFC 4035 ----

  /** `nsecs[j]` covers the name and shows nothing below it; `nsecs[k]` does the same for the wildcard at the encloser. */
  predicate DeniedBy(nsecs: seq<Nsec>, q: Name, j: nat, k: nat) {
    && j < |nsecs| && k < |nsecs|
    && NsecCovers(nsecs[j].owner, nsecs[j].next, q) && !Seen(FoldNsec(nsecs[j]), Fold(q))
    && var wildcard := [STAR] + EncloserOf(FoldNsec(nsecs[j]), Fold(q));
       NsecCovers(nsecs[k].owner, nsecs[k].next, wildcard) && !Seen(FoldNsec(nsecs[k]), wildcard)
  }

  ghost predicate Denied(nsecs: seq<Nsec>, q: Name) {
    exists j: nat, k: nat :: DeniedBy(nsecs, q, j, k)
  }

  lemma CoveringIndex(chain: seq<Nsec>, nsecs: seq<Nsec>, n: Nsec, q: Name) returns (i: nat)
    requires NsecShown(nsecs, chain) && n in nsecs && NsecCovers(n.owner, n.next, q)
    ensures i < |chain| && chain[i] == FoldNsec(n) && NameBetween(chain[i].owner, chain[i].next, Fold(q))
  {
    CoversIsBetween(n, q);
    i :| 0 <= i < |chain| && chain[i] == FoldNsec(n);
  }

  lemma WildcardUnder(z: Zone, e: Name)
    requires Above(z.apex, e)
    ensures Above(z.apex, [STAR] + e) && Above([STAR] + e, [STAR] + e)
  {
    assert ([STAR] + e)[|e| + 1 - |z.apex|..] == e[|e| - |z.apex|..];
    assert ([STAR] + e)[0..] == [STAR] + e;
  }

  lemma UnderFolded(z: Zone, q: Name)
    requires z.Valid() && InZone(q, z.apex)
    ensures Above(z.apex, Fold(q)) && Above(Fold(q), Fold(q))
  {
    assert z.WellPlaced(z.apex);
    assert Fold(q)[0..] == Fold(q);
  }

  /**
   For any record of the chain that covers the name: lookup gives no such name if and only if the
   record shows nothing below the name and the wildcard at the encloser it shows does not exist.
   */
  lemma LookupRead(z: Zone, chain: seq<Nsec>, nsecs: seq<Nsec>, n: Nsec, q: Name)
    requires z.Valid() && HonestNsecChain(z, chain) && Peopled(z) && NsecShown(nsecs, chain) && InZone(q, z.apex)
    requires n in nsecs && NsecCovers(n.owner, n.next, q)
    ensures var e := EncloserOf(FoldNsec(n), Fold(q));
            && Above(z.apex, e) && ClosestEncloser(z, Fold(q)) == e && (Fold(q) in z.types <==> Seen(FoldNsec(n), Fold(q)))
            && (Lookup(z, Fold(q)) == NoSuchName <==> !Seen(FoldNsec(n), Fold(q)) && [STAR] + e !in z.types)
  {
    hide HonestNsecChain;
    hide Peopled;
    hide NsecShown;
    hide Seen;
    hide NameBetween;
    var i := CoveringIndex(chain, nsecs, n, q);
    UnderFolded(z, q);
    EncloserRead(z, chain, i, Fold(q), Fold(q));
    ExistsIffSeen(z, chain, i, Fold(q), Fold(q));
  }

  /** Whether the wildcard at `s` answers `q` is what the record shows. */
  ghost predicate NsecPlaces(z: Zone, n: Nsec, q: Name, s: Name) {
    Lookup(z, Fold(q)) == Expanded([STAR] + s) <==> !Seen(FoldNsec(n), Fold(q)) && EncloserOf(FoldNsec(n), Fold(q)) == s
  }

  lemma ExpansionRead(z: Zone, chain: seq<Nsec>, nsecs: seq<Nsec>, n: Nsec, q: Name, s: Name)
    requires z.Valid() && HonestNsecChain(z, chain) && Peopled(z) && NsecShown(nsecs, chain) && InZone(q, z.apex)
    requires n in nsecs && NsecCovers(n.owner, n.next, q) && [STAR] + s in z.types
    ensures NsecPlaces(z, n, q, s)
  {
    hide HonestNsecChain;
    hide Peopled;
    hide NsecShown;
    hide Seen;
    hide EncloserOf;
    hide ClosestEncloser;
    LookupRead(z, chain, nsecs, n, q);
    SameWildcard(s, ClosestEncloser(z, Fold(q)));
  }

  lemma SameWildcard(a: Name, b: Name)
    ensures [STAR] + a == [STAR] + b <==> a == b
  {
    assert ([STAR] + a)[1..] == a && ([STAR] + b)[1..] == b;
  }

  lemma AbsentWildcard(z: Zone, chain: seq<Nsec>, nsecs: seq<Nsec>, n: Nsec, e: Name)
    requires z.Valid() && HonestNsecChain(z, chain) && Peopled(z) && NsecShown(nsecs, chain)
    requires Above(z.apex, e) && Fold([STAR] + e) == [STAR] + e && n in nsecs && NsecCovers(n.owner, n.next, [STAR] + e)
    ensures [STAR] + e in z.types <==> Seen(FoldNsec(n), [STAR] + e)
  {
    hide HonestNsecChain;
    hide Peopled;
    hide NsecShown;
    hide Seen;
    hide NameBetween;
    var i := CoveringIndex(chain, nsecs, n, [STAR] + e);
    WildcardUnder(z, e);
    ExistsIffSeen(z, chain, i, [STAR] + e, [STAR] + e);
  }

  lemma {:induction false} FoldedEncloser(r: Nsec, q: Name)
    requires Fold(q) == q
    ensures Fold([STAR] + EncloserOf(r, q)) == [STAR] + EncloserOf(r, q)
  {
    hide Seen;
    FoldWildcard(EncloserOf(r, q));
    if !Seen(r, q) && q != [] {
      FoldSuffix(q, 1);
      FoldedEncloser(r, q[1..]);
      FoldWildcard(EncloserOf(r, q[1..]));
    }
  }

  /** From any part of the chain, names denied with the wildcard at their encloser are absent. */
  lemma DeniedIsAbsent(z: Zone, chain: seq<Nsec>, nsecs: seq<Nsec>, q: Name)
    requires z.Valid() && HonestNsecChain(z, chain) && Peopled(z) && NsecShown(nsecs, chain) && InZone(q, z.apex)
    requires Denied(nsecs, q)
    ensures Lookup(z, Fold(q)) == NoSuchName
  {
    hide HonestNsecChain;
    hide Peopled;
    hide NsecShown;
    hide Seen;
    hide Lookup;
    var j: nat, k: nat :| DeniedBy(nsecs, q, j, k);
    LookupRead(z, chain, nsecs, nsecs[j], q);
    FoldIdempotent(q);
    FoldedEncloser(FoldNsec(nsecs[j]), Fold(q));
    AbsentWildcard(z, chain, nsecs, nsecs[k], EncloserOf(FoldNsec(nsecs[j]), Fold(q)));
  }

  lemma ChainIsShown(z: Zone, chain: seq<Nsec>)
    requires z.Valid() && HonestNsecChain(z, chain)
    ensures NsecShown(chain, chain)
  {
    hide HonestNsecChain;
    forall n | n in chain ensures FoldNsec(n) == n {
      FoldedRecord(z, chain, n);
    }
  }

  /** With the whole chain every absent name is denied that way. */
  lemma AbsentIsDenied(z: Zone, chain: seq<Nsec>, q: Name)
    requires z.Valid() && HonestNsecChain(z, chain) && chain != [] && Peopled(z) && InZone(q, z.apex)
    requires Lookup(z, Fold(q)) == NoSuchName
    ensures Denied(chain, q)
  {
    hide HonestNsecChain;
    hide Peopled;
    hide NsecShown;
    hide Seen;
    hide NsecCovers;
    NonexistenceComplete(z, chain, q);
    var j :| 0 <= j < |chain| && NsecCovers(chain[j].owner, chain[j].next, q);
    ChainIsShown(z, chain);
    LookupRead(z, chain, chain, chain[j], q);
    var e := EncloserOf(FoldNsec(chain[j]), Fold(q));
    FoldIdempotent(q);
    FoldedEncloser(FoldNsec(chain[j]), Fold(q));
    NonexistenceComplete(z, chain, [STAR] + e);
    var k :| 0 <= k < |chain| && NsecCovers(chain[k].owner, chain[k].next, [STAR] + e);
    AbsentWildcard(z, chain, chain, chain[k], e);
    assert DeniedBy(chain, q, j, k);
  }

  /** The source's check asks only that the name and the wildcard at some ancestor own nothing. */
  lemma AcceptedExactly(z: Zone, chain: seq<Nsec>, q: Name)
    requires z.Valid() && HonestNsecChain(z, chain) && chain != [] && ValidName(q) && InZone(q, z.apex)
    ensures NsecNxdomain(chain, q, z.apex) <==>
      !Owner(z, Fold(q)) && exists i :: 1 <= i <= |q| - |z.apex| && !Owner(z, [STAR] + Fold(q)[i..])
  {
    hide HonestNsecChain;
    hide AnyNsecCovers;
    hide ValidName;
    NonexistenceExact(z, chain, q);
    forall i | 1 <= i <= |q|
      ensures NsecDeniesWildcard(chain, q, z.apex, i) <==> i <= |q| - |z.apex| && !Owner(z, [STAR] + Fold(q)[i..])
    {
      AncestorInZone(z, q, i);
      WildcardFits(q, i);
      FoldSuffix(q, i);
      FoldWildcard(q[i..]);
      NonexistenceExact(z, chain, [STAR] + q[i..]);
    }
  }

  lemma AncestorInZone(z: Zone, q: Name, i: nat)
    requires InZone(q, z.apex) && i <= |q|
    ensures InZone(q[i..], z.apex) <==> i <= |q| - |z.apex|
  {
    FoldSuffix(q, i);
    if i <= |q| - |z.apex| {
      assert Fold(q)[i..][|q| - i - |z.apex|..] == Fold(q)[|q| - |z.apex|..];
    }
  }

  /**
   The source's check on the whole chain accepts every absent name, and what it accepts is absent
   if and only if the records deny the wildcard at the closest encloser and show nothing below the name.
   */
  lemma NxdomainTrueIffDenied(z: Zone, chain: seq<Nsec>, q: Name)
    requires z.Valid() && HonestNsecChain(z, chain) && chain != [] && Peopled(z) && ValidName(q) && InZone(q, z.apex)
    ensures Lookup(z, Fold(q)) == NoSuchName <==> Denied(chain, q)
    ensures Lookup(z, Fold(q)) == NoSuchName ==> NsecNxdomain(chain, q, z.apex)
  {
    hide HonestNsecChain;
    hide Peopled;
    hide Denied;
    hide NsecNxdomain;
    hide NsecShown;
    ChainIsShown(z, chain);
    if Denied(chain, q) {
      DeniedIsAbsent(z, chain, chain, q);
    }
    if Lookup(z, Fold(q)) == NoSuchName {
      AbsentIsDenied(z, chain, q);
      UnderFolded(z, q);
      var i := DeniedEncloser(z, Fold(q));
      assert Fold(q)[0..] == Fold(q);
      assert !Owner(z, Fold(q)) && !Owner(z, [STAR] + Fold(q)[i..]);
      AcceptedExactly(z, chain, q);
    }
  }

  lemma MissingChild(z: Zone, s: Name, b: Label)
    requires z.Valid() && s in z.types && [b] + s !in z.types
    ensures [STAR] + ([b] + s) !in z.types && ClosestEncloser(z, [STAR] + ([b] + s)) == s
    ensures Above(z.apex, [b] + s) && Above(z.apex, [STAR] + ([b] + s))
  {
    hide ValidName;
    hide Fold;
    var child, q := [b] + s, [STAR] + ([b] + s);
    assert z.WellPlaced(s) && z.WellPlaced(q);
    assert child[|s| + 1 - |z.apex|..] == s[|s| - |z.apex|..] == q[|s| + 2 - |z.apex|..];
    assert q[0..] == q && q[1..] == child && q[2..] == s;
    ClosestEncloserIs(z, q, 2);
  }

  lemma FoldedBelow(child: Name)
    requires Fold([STAR] + child) == [STAR] + child
    ensures Fold(child) == child
  {
    FoldWildcard(child);
    assert ([STAR] + child)[1..] == child && ([STAR] + Fold(child))[1..] == Fold(child);
  }

  lemma UnderIsInside(z: Zone, n: Name)
    requires z.Valid() && Above(z.apex, n) && Fold(n) == n
    ensures InZone(n, z.apex)
  {
    assert z.WellPlaced(z.apex);
  }

  /**
   A query below a missing child of a wildcard's parent: the record that covers it is accepted as
   proof of absence, although the wildcard answers the query.
   */
  lemma WildcardOverlooked(z: Zone, n: Nsec, s: Name, b: Label)
    requires z.Valid() && s in z.types && [STAR] + s in z.types && [b] + s !in z.types
    requires var q := [STAR] + ([b] + s); ValidName(q) && Fold(q) == q && NsecCovers(n.owner, n.next, q)
    ensures NsecNxdomain([n], [STAR] + ([b] + s), z.apex) && Lookup(z, [STAR] + ([b] + s)) == Expanded([STAR] + s)
  {
    hide NsecCovers;
    hide NsecNxdomain;
    hide ValidName;
    hide InZone;
    hide Fold;
    var child := [b] + s;
    MissingChild(z, s, b);
    FoldedBelow(child);
    UnderIsInside(z, child);
    CoveredWildcardIsDenied(n, child, z.apex);
  }
}
