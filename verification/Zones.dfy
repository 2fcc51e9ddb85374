/**
 The authoritative side: a zone as a finite tree of names with their type sets, the lookup of
 section 3.3.1 of RFC 4592 over it, and what its honest NSEC3 and NSEC chains look like.
 Names of a zone are folded.
 */
module Zones {
  import opened Prelude
  import opened Names
  import opened Ring
  import opened Denial
  import RecordTypes
  import TypeBitmap

  /**
   `types` has every existing name, empty non-terminals included (with an empty type set);
   `optedOut` are the unsigned delegations an opt-out chain leaves out.
   */
  datatype Zone = Zone(apex: Name, types: map<Name, set<u16>>, optedOut: set<Name>) {

    ghost predicate Valid() {
      && apex in types && apex !in optedOut && optedOut <= types.Keys
      && forall n: Name :: WellPlaced(n)
    }

    /** An existing name is folded, under the apex, and so are its ancestors; a signed one has a signed parent. */
    predicate WellPlaced(n: Name) {
      n in types ==>
        && ValidName(n) && Fold(n) == n && Above(apex, n)
        && (n != apex ==> n[1..] in types && (Signed(n) ==> Signed(n[1..])))
        && (n in optedOut ==> RecordTypes.DS !in types[n])
    }

    predicate Signed(n: Name) {
      n in types && n !in optedOut
    }
  }

  lemma FoldedApex(z: Zone)
    requires z.Valid()
    ensures Fold(z.apex) == z.apex
  {
    assert z.WellPlaced(z.apex);
  }

  datatype Answer = Found(name: Name) | Expanded(wildcard: Name) | NoSuchName

  /** The longest existing ancestor-or-self. */
  function ClosestEncloser(z: Zone, q: Name): Name {
    if q in z.types || q == [] then q else ClosestEncloser(z, q[1..])
  }

  function Lookup(z: Zone, q: Name): Answer {
    var wildcard := [STAR] + ClosestEncloser(z, q);
    if q in z.types then Found(q)
    else if wildcard in z.types then Expanded(wildcard)
    else NoSuchName
  }

  /** Where the closest encloser sits on the way up from `q`. */
  lemma {:induction false} ClosestEncloserIs(z: Zone, q: Name, i: nat)
    requires i <= |q| && q[i..] in z.types
    requires forall j :: 0 <= j < i ==> q[j..] !in z.types
    ensures ClosestEncloser(z, q) == q[i..]
  {
    assert q[0..] == q;
    if i > 0 {
      forall j | 0 <= j < i - 1 ensures q[1..][j..] !in z.types {
        assert q[1..][j..] == q[j + 1..];
      }
      assert q[1..][i - 1..] == q[i..];
      ClosestEncloserIs(z, q[1..], i - 1);
    }
  }

  /** Every name under the apex has an existing ancestor. */
  lemma {:induction false} EncloserIndex(z: Zone, q: Name) returns (i: nat)
    requires z.Valid() && Above(z.apex, q)
    ensures i <= |q| - |z.apex| && q[i..] in z.types
    ensures forall j :: 0 <= j < i ==> q[j..] !in z.types
    ensures ClosestEncloser(z, q) == q[i..]
  {
    i := 0;
    while q[i..] !in z.types
      invariant i <= |q| - |z.apex|
      invariant forall j :: 0 <= j < i ==> q[j..] !in z.types
      decreases |q| - i
    {
      i := i + 1;
    }
    ClosestEncloserIs(z, q, i);
  }

  /** A denied name: where its closest encloser is, and that the wildcard there is missing. */
  lemma DeniedEncloser(z: Zone, q: Name) returns (i: nat)
    requires z.Valid() && Above(z.apex, q) && Lookup(z, q) == NoSuchName
    ensures 1 <= i <= |q| - |z.apex| && q[i..] in z.types && [STAR] + q[i..] !in z.types
    ensures forall j :: 0 <= j < i ==> q[j..] !in z.types
  {
    i := EncloserIndex(z, q);
    assert q[0..] == q;
  }

  /** Below a name that does not exist nothing exists. */
  lemma {:induction false} NothingBelow(z: Zone, q: Name, i: nat)
    requires z.Valid() && i <= |q| && |z.apex| <= |q[i..]|
    requires q[i..] !in z.types
    ensures forall j :: 0 <= j <= i ==> q[j..] !in z.types
  {
    if i > 0 {
      assert q[i - 1..][1..] == q[i..];
      assert z.WellPlaced(q[i - 1..]);
      NothingBelow(z, q, i - 1);
    }
  }

  /** Below a name that is not signed nothing is signed. */
  lemma {:induction false} NothingSignedBelow(z: Zone, q: Name, i: nat)
    requires z.Valid() && i <= |q| && |z.apex| <= |q[i..]|
    requires !z.Signed(q[i..])
    ensures forall j :: 0 <= j <= i ==> !z.Signed(q[j..])
  {
    if i > 0 {
      assert q[i - 1..][1..] == q[i..];
      assert z.WellPlaced(q[i - 1..]);
      NothingSignedBelow(z, q, i - 1);
    }
  }

  /** The closest encloser is at least as long as any existing ancestor. */
  lemma {:induction false} EncloserBelow(z: Zone, q: Name, i: nat)
    requires i <= |q| && q[i..] in z.types
    ensures |ClosestEncloser(z, q)| >= |q| - i
  {
    if i > 0 && q !in z.types {
      assert q[1..][i - 1..] == q[i..];
      EncloserBelow(z, q[1..], i - 1);
    }
  }

  // ---- honest NSEC3 chains ----

  datatype Params = Params(salt: seq<byte>, iterations: u16)

  function HashName(h: Hasher, p: Params, n: Name): seq<byte> {
    h(Wire(n), p.salt, p.iterations)
  }

  function Owners(chain: seq<Nsec3>): (r: seq<seq<int>>)
    ensures |r| == |chain| && forall i :: 0 <= i < |chain| ==> r[i] == chain[i].ownerHash
  {
    seq(|chain|, i requires 0 <= i < |chain| => chain[i].ownerHash)
  }

  /** The record of an existing name: its hash, and a bitmap of exactly its types. */
  ghost predicate Describes(z: Zone, h: Hasher, p: Params, r: Nsec3, n: Name) {
    && z.Signed(n)
    && r.ownerHash == HashName(h, p, n)
    && forall t: u16 :: r.Lists(t) <==> t in z.types[n]
  }

  ghost predicate Linked(chain: seq<Nsec3>) {
    && Sorted(BytesLess, Owners(chain))
    && forall i :: 0 <= i < |chain| ==> chain[i].nextHash == chain[Successor(i, |chain|)].ownerHash
  }

  ghost predicate UsesParams(r: Nsec3, p: Params) {
    r.hashAlg == 1 && r.salt == p.salt && r.iterations == p.iterations <= NSEC3_MAX_ITERATIONS
  }

  /** The record belongs to some existing name. */
  ghost predicate Honest(z: Zone, h: Hasher, p: Params, r: Nsec3) {
    UsesParams(r, p) && exists n :: Describes(z, h, p, r, n)
  }

  /** A signed name has a record; an opted-out one lies in an opt-out interval. */
  ghost predicate Accounted(z: Zone, h: Hasher, p: Params, chain: seq<Nsec3>, n: Name) {
    && (z.Signed(n) ==> HashName(h, p, n) in Owners(chain))
    && (n in z.optedOut ==> exists i :: 0 <= i < |chain| && chain[i].OptOut() && chain[i].Covers(h, n))
  }

  ghost predicate HonestChain(z: Zone, h: Hasher, p: Params, chain: seq<Nsec3>) {
    && Linked(chain)
    && (forall r :: r in chain ==> Honest(z, h, p, r))
    && (forall n: Name :: Accounted(z, h, p, chain, n))
  }

  /** No existing name other than `n` itself has the hash of `n`. */
  ghost predicate NoCollision(z: Zone, h: Hasher, p: Params, n: Name) {
    forall m :: z.Signed(m) && HashName(h, p, m) == HashName(h, p, n) ==> m == n
  }

  /** ... for a query name, its ancestors and the wildcards at them. */
  ghost predicate NoQueryCollision(z: Zone, h: Hasher, p: Params, q: Name) {
    forall i :: 0 <= i <= |q| ==> NoCollision(z, h, p, q[i..]) && NoCollision(z, h, p, [STAR] + q[i..])
  }

  // ---- honest NSEC chains ----

  /** Owners of records; empty non-terminals have no NSEC. */
  predicate Owner(z: Zone, n: Name) {
    n in z.types && z.types[n] != {}
  }

  function NsecOwners(chain: seq<Nsec>): (r: seq<seq<seq<int>>>)
    ensures |r| == |chain| && forall i :: 0 <= i < |chain| ==> r[i] == chain[i].owner
  {
    seq(|chain|, i requires 0 <= i < |chain| => chain[i].owner)
  }

  ghost predicate HonestNsecChain(z: Zone, chain: seq<Nsec>) {
    && Sorted(NameLess, NsecOwners(chain))
    && (forall i :: 0 <= i < |chain| ==> chain[i].next == chain[Successor(i, |chain|)].owner)
    && (forall i :: 0 <= i < |chain| ==>
          Owner(z, chain[i].owner) && forall t: u16 :: TypeBitmap.Has(chain[i].bitmap, t) <==> t in z.types[chain[i].owner])
    && (forall n :: Owner(z, n) ==> n in NsecOwners(chain))
  }
}
