/**
 Domain names (src/dns/wire/name.rs): a name is its labels, leftmost first; the root has none.
 Comparison ignores ASCII case, so most statements are about the folded name.
 */
module Names {
  import opened Prelude
  import opened Order

  type Label = seq<byte>
  type Name = seq<Label>

  const MAX_NAME_WIRE := 255
  const MAX_LABEL := 63
  const STAR: Label := [42]

  /** What every constructor of the source's `Name` guarantees. */
  predicate ValidName(n: Name) {
    && (forall i :: 0 <= i < |n| ==> 1 <= |n[i]| <= MAX_LABEL)
    && |Wire(n)| <= MAX_NAME_WIRE
  }

  /** Uncompressed wire form: length-prefixed labels, then the root octet. */
  function Wire(n: Name): seq<int> {
    if n == [] then [0] else [|n[0]|] + n[0] + Wire(n[1..])
  }

  function Lower(s: seq<int>): (r: seq<int>)
    ensures |r| == |s|
    ensures forall i :: 0 <= i < |s| ==> r[i] == LowerByte(s[i])
  {
    seq(|s|, i requires 0 <= i < |s| => LowerByte(s[i]))
  }

  function LowerLabel(l: Label): (r: Label)
    ensures r == Lower(l)
  {
    seq(|l|, i requires 0 <= i < |l| => LowerByte(l[i]))
  }

  function Fold(n: Name): (r: Name)
    ensures |r| == |n|
    ensures forall i :: 0 <= i < |n| ==> r[i] == LowerLabel(n[i])
  {
    seq(|n|, i requires 0 <= i < |n| => LowerLabel(n[i]))
  }

  predicate SameName(a: Name, b: Name) {
    Fold(a) == Fold(b)
  }

  /** `n` is `zone` or a subdomain of it: a label-aligned suffix. */
  predicate InZone(n: Name, zone: Name) {
    |zone| <= |n| && Fold(n)[|n| - |zone|..] == Fold(zone)
  }

  /** `x` is `n` or an ancestor of it. */
  predicate Above(x: Name, n: Name) {
    |x| <= |n| && n[|n| - |x|..] == x
  }

  predicate StrictlyBelow(n: Name, s: Name) {
    |s| < |n| && Above(s, n)
  }

  function WildcardOf(n: Name): Option<Name> {
    if |Wire([STAR] + n)| <= MAX_NAME_WIRE then Some([STAR] + n) else None
  }

  lemma AboveItself(n: Name)
    ensures Above(n, n)
  {
  }

  lemma SelfOrBelow(x: Name, n: Name)
    requires Above(x, n)
    ensures n == x || StrictlyBelow(n, x)
  {
    if |n| == |x| {
      assert n[0..] == n;
    }
  }

  lemma AboveStep(x: Name, n: Name)
    requires n != []
    ensures Above(x, n) <==> x == n || Above(x, n[1..])
  {
    assert |x| < |n| ==> n[1..][|n| - 1 - |x|..] == n[|n| - |x|..];
  }

  lemma AboveTransitive(x: Name, y: Name, n: Name)
    requires Above(x, y) && Above(y, n)
    ensures Above(x, n)
  {
    assert n[|n| - |y|..][|y| - |x|..] == n[|n| - |x|..];
  }

  /** Of two ancestors of a name the shorter is above the longer. */
  lemma AncestorsNest(x: Name, y: Name, n: Name)
    requires Above(x, n) && Above(y, n) && |x| <= |y|
    ensures Above(x, y)
  {
    assert n[|n| - |y|..][|y| - |x|..] == n[|n| - |x|..];
  }

  lemma FoldSuffix(n: Name, i: nat)
    requires i <= |n|
    ensures Fold(n[i..]) == Fold(n)[i..]
  {
  }

  lemma FoldIdempotent(n: Name)
    ensures Fold(Fold(n)) == Fold(n)
  {
    forall i | 0 <= i < |n| ensures Fold(Fold(n))[i] == Fold(n)[i] {
      assert LowerLabel(LowerLabel(n[i])) == LowerLabel(n[i]);
    }
  }

  lemma FoldWildcard(n: Name)
    ensures Fold([STAR] + n) == [STAR] + Fold(n)
  {
    assert LowerLabel(STAR) == STAR;
  }

  /** One step of the upward walk. */
  lemma InZoneStep(n: Name, zone: Name)
    ensures InZone(n, zone) <==> SameName(n, zone) || (n != [] && InZone(n[1..], zone))
  {
    assert Fold(n)[0..] == Fold(n);
    if n != [] {
      FoldSuffix(n, 1);
      if |zone| < |n| {
        assert Fold(n)[1..][|n| - 1 - |zone|..] == Fold(n)[|n| - |zone|..];
      }
    }
  }

  /** The source's walk: strip labels until the names agree. */
  method IsInZone(n: Name, zone: Name) returns (inside: bool)
    ensures inside <==> InZone(n, zone)
  {
    var cur := n;
    InZoneStep(cur, zone);
    while !SameName(cur, zone)
      invariant InZone(cur, zone) <==> InZone(n, zone)
      decreases |cur|
    {
      InZoneStep(cur, zone);
      if cur == [] {
        return false;
      }
      cur := cur[1..];
    }
    InZoneStep(cur, zone);
    return true;
  }

  /** Lowercasing the wire form never touches a length octet. */
  lemma {:induction false} LowerWire(n: Name)
    requires forall i :: 0 <= i < |n| ==> |n[i]| <= MAX_LABEL
    ensures Lower(Wire(n)) == Wire(Fold(n))
  {
    if n != [] {
      LowerWire(n[1..]);
      FoldSuffix(n, 1);
      assert Wire(n) == [|n[0]|] + n[0] + Wire(n[1..]);
      assert Lower(Wire(n)) == [|n[0]|] + LowerLabel(n[0]) + Lower(Wire(n[1..]));
    }
  }

  lemma ValidFold(n: Name)
    requires ValidName(n)
    ensures ValidName(Fold(n))
  {
    LowerWire(n);
  }

  /** Distinct names have distinct wire forms, so a digest of the wire form is a digest of the name. */
  lemma {:induction false} WireInjective(a: Name, b: Name)
    requires forall i :: 0 <= i < |a| ==> a[i] != []
    requires forall i :: 0 <= i < |b| ==> b[i] != []
    requires Wire(a) == Wire(b)
    ensures a == b
  {
    assert a != [] ==> Wire(a)[0] == |a[0]|;
    assert b != [] ==> Wire(b)[0] == |b[0]|;
    if a != [] && b != [] {
      var k := 1 + |a[0]|;
      assert Wire(a)[1..k] == a[0] && Wire(b)[1..k] == b[0];
      assert Wire(a)[k..] == Wire(a[1..]) && Wire(b)[k..] == Wire(b[1..]);
      WireInjective(a[1..], b[1..]);
      assert a == [a[0]] + a[1..] && b == [b[0]] + b[1..];
    }
  }

  /** The source's byte-wise comparison of wire forms is equality of folded names. */
  lemma SameNameIsWireEquality(a: Name, b: Name)
    requires ValidName(a) && ValidName(b)
    ensures SameName(a, b) <==> Lower(Wire(a)) == Lower(Wire(b))
  {
    LowerWire(a);
    LowerWire(b);
    if Wire(Fold(a)) == Wire(Fold(b)) {
      WireInjective(Fold(a), Fold(b));
    }
  }

  lemma WireLengthOfSuffix(n: Name, i: nat)
    requires i <= |n|
    requires forall k :: 0 <= k < |n| ==> 1 <= |n[k]|
    ensures |Wire(n[i..])| + 2 * i <= |Wire(n)|
    decreases |n|
  {
    if i > 0 {
      WireLengthOfSuffix(n[1..], i - 1);
      assert n[1..][i - 1..] == n[i..];
    } else {
      assert n[i..] == n;
    }
  }

  lemma ValidSuffix(n: Name, i: nat)
    requires ValidName(n) && i <= |n|
    ensures ValidName(n[i..])
  {
    WireLengthOfSuffix(n, i);
  }

  lemma ValidWildcard(n: Name)
    requires ValidName(n) && WildcardOf(n).Some?
    ensures ValidName([STAR] + n)
  {
  }

  /** The wildcard at a proper ancestor is never longer than the name itself. */
  lemma WildcardFits(n: Name, i: nat)
    requires ValidName(n) && 1 <= i <= |n|
    ensures WildcardOf(n[i..]) == Some([STAR] + n[i..])
  {
    WireLengthOfSuffix(n, i);
    assert ([STAR] + n[i..])[1..] == n[i..];
    assert |Wire([STAR] + n[i..])| == 2 + |Wire(n[i..])|;
  }

  // ---- canonical order, section 6.1 of RFC 4034 ----

  predicate BytesLess(a: seq<int>, b: seq<int>) {
    LexLess(IntLess, a, b)
  }

  function Reverse(n: seq<seq<int>>): (r: seq<seq<int>>)
    ensures |r| == |n|
    ensures forall i :: 0 <= i < |n| ==> r[i] == n[|n| - 1 - i]
  {
    seq(|n|, i requires 0 <= i < |n| => n[|n| - 1 - i])
  }

  /** Labels compared from the rightmost, each as an octet string; fewer labels first. */
  predicate NameLess(a: seq<seq<int>>, b: seq<seq<int>>) {
    LexLess(BytesLess, Reverse(a), Reverse(b))
  }

  /** `canonical_cmp(a, b) == Less` on names as received. */
  predicate CanonicalLess(a: Name, b: Name) {
    NameLess(Fold(a), Fold(b))
  }

  lemma BytesLessTotal()
    ensures StrictTotal(BytesLess)
  {
    assert StrictTotal(IntLess);
    LexLifts(IntLess, BytesLess);
  }

  lemma NameLessTotal()
    ensures StrictTotal(NameLess)
  {
    BytesLessTotal();
    forall a ensures !NameLess(a, a) {
      LexIrreflexive(BytesLess, Reverse(a));
    }
    forall a, b, c | NameLess(a, b) && NameLess(b, c) ensures NameLess(a, c) {
      LexTransitive(BytesLess, Reverse(a), Reverse(b), Reverse(c));
    }
    forall a, b ensures a == b || NameLess(a, b) || NameLess(b, a) {
      LexConnected(BytesLess, Reverse(a), Reverse(b));
      if Reverse(a) == Reverse(b) {
        assert forall i :: 0 <= i < |a| ==> a[i] == Reverse(a)[|a| - 1 - i];
        assert forall i :: 0 <= i < |b| ==> b[i] == Reverse(b)[|b| - 1 - i];
      }
    }
  }
}
