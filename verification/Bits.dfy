/** Big-endian bit strings and the 64-bit shift register that produces them. */
module Bits {

  const TWO_TO_THE_64 := 0x1_0000_0000_0000_0000

  function Pow2(n: nat): (r: nat)
    ensures r > 0
  {
    if n == 0 then 1 else 2 * Pow2(n - 1)
  }

  /** The low `w` bits of `x`, most significant first. */
  function ToBits(x: nat, w: nat): (r: seq<bool>)
    ensures |r| == w
  {
    if w == 0 then [] else ToBits(x / 2, w - 1) + [x % 2 == 1]
  }

  function Value(bits: seq<bool>): (r: nat)
    ensures r < Pow2(|bits|)
  {
    if bits == [] then 0
    else 2 * Value(bits[..|bits| - 1]) + (if bits[|bits| - 1] then 1 else 0)
  }

  function Zeros(n: nat): (r: seq<bool>)
    ensures |r| == n && forall i :: 0 <= i < n ==> !r[i]
  {
    seq(n, _ => false)
  }

  /** All values written with `w` bits each. */
  function Flatten(vals: seq<nat>, w: nat): seq<bool> {
    if vals == [] then [] else ToBits(vals[0], w) + Flatten(vals[1..], w)
  }

  /** Cut a bit string into `w`-bit values, dropping an incomplete tail. */
  function Regroup(bits: seq<bool>, w: nat): (r: seq<nat>)
    requires w > 0
    ensures forall i :: 0 <= i < |r| ==> r[i] < Pow2(w)
  {
    if |bits| < w then [] else [Value(bits[..w])] + Regroup(bits[w..], w)
  }

  /** `x << k` on a 64-bit register: bits shifted past the top are lost. */
  function Shl64(x: nat, k: nat): nat {
    if k == 0 then x else (2 * Shl64(x, k - 1)) % TWO_TO_THE_64
  }

  function Shr(x: nat, k: nat): nat {
    if k == 0 then x else Shr(x / 2, k - 1)
  }

  lemma {:induction false} ValueToBits(x: nat, w: nat)
    requires x < Pow2(w)
    ensures Value(ToBits(x, w)) == x
  {
    if w > 0 {
      assert ToBits(x, w)[..w - 1] == ToBits(x / 2, w - 1);
      ValueToBits(x / 2, w - 1);
    }
  }

  lemma {:induction false} ToBitsValue(bits: seq<bool>)
    ensures ToBits(Value(bits), |bits|) == bits
  {
    if bits != [] {
      ToBitsValue(bits[..|bits| - 1]);
      assert Value(bits) / 2 == Value(bits[..|bits| - 1]);
      assert bits == bits[..|bits| - 1] + [bits[|bits| - 1]];
    }
  }

  /** Reading past the low `b` bits: shift them out first. */
  lemma {:induction false} SplitBits(x: nat, a: nat, b: nat)
    ensures ToBits(x, a + b) == ToBits(Shr(x, b), a) + ToBits(x, b)
  {
    if b > 0 {
      SplitBits(x / 2, a, b - 1);
    }
  }

  /** Bits at or above position `m` never reach the low `m` bits. */
  lemma {:induction false} HighBitsInvisible(x: nat, c: nat, m: nat, w: nat)
    requires w <= m
    ensures ToBits(x + c * Pow2(m), w) == ToBits(x, w)
  {
    if w > 0 {
      var half := c * Pow2(m - 1);
      assert c * Pow2(m) == 2 * half;
      hide Pow2;
      assert (x + 2 * half) / 2 == x / 2 + half && (x + 2 * half) % 2 == x % 2;
      HighBitsInvisible(x / 2, c, m - 1, w - 1);
    }
  }

  const HALF := 0x8000_0000_0000_0000

  lemma Pow2Of63()
    ensures Pow2(63) == HALF
  {
    assert Pow2(8) == 256;
    assert Pow2(16) == 0x1_0000;
    assert Pow2(24) == 0x100_0000;
    assert Pow2(32) == 0x1_0000_0000;
    assert Pow2(40) == 0x100_0000_0000;
    assert Pow2(48) == 0x1_0000_0000_0000;
    assert Pow2(56) == 0x100_0000_0000_0000;
  }

  lemma DoublingWraps(s: nat)
    ensures (2 * s) % TWO_TO_THE_64 == 2 * (s % HALF)
    ensures s == s % HALF + (s / HALF) * HALF
  {
  }

  lemma DoubledBits(low: nat, v: nat, w: nat)
    ensures ToBits(2 * low + v, w + 1) == ToBits(low + v / 2, w) + [v % 2 == 1]
  {
    assert (2 * low + v) / 2 == low + v / 2 && (2 * low + v) % 2 == v % 2;
  }

  /** One doubling of the register: what falls off the top was not among the low `w` bits. */
  lemma ShiftOne(s: nat, v: nat, w: nat)
    requires w <= 63
    ensures ToBits((2 * s) % TWO_TO_THE_64 + v, w + 1) == ToBits(s + v / 2, w) + [v % 2 == 1]
  {
    var low, high := s % HALF, s / HALF;
    DoublingWraps(s);
    DoubledBits(low, v, w);
    Pow2Of63();
    HighBitsInvisible(low + v / 2, high, 63, w);
  }

  /** Shifting `v` into the register appends its bits to the pending ones. */
  lemma {:induction false} ShiftIn(x: nat, w: nat, v: nat, k: nat)
    requires v < Pow2(k) && w + k <= 64
    ensures ToBits(Shl64(x, k) + v, w + k) == ToBits(x, w) + ToBits(v, k)
  {
    if k > 0 {
      ShiftOne(Shl64(x, k - 1), v, w + k - 1);
      ShiftIn(x, w, v / 2, k - 1);
      assert ToBits(v, k) == ToBits(v / 2, k - 1) + [v % 2 == 1];
    }
  }

  lemma {:induction false} FlattenAppend(a: seq<nat>, b: seq<nat>, w: nat)
    ensures Flatten(a + b, w) == Flatten(a, w) + Flatten(b, w)
  {
    if a == [] {
      assert a + b == b;
    } else {
      assert (a + b)[1..] == a[1..] + b;
      FlattenAppend(a[1..], b, w);
    }
  }

  lemma FlattenSnoc(vals: seq<nat>, v: nat, w: nat)
    ensures Flatten(vals + [v], w) == Flatten(vals, w) + ToBits(v, w)
  {
    FlattenAppend(vals, [v], w);
    assert Flatten([v], w) == ToBits(v, w) + Flatten([], w);
  }

  /** Taking one more `w`-bit value into the register. */
  lemma Absorb(read: seq<nat>, done: seq<bool>, buf: nat, bits: nat, v: nat, w: nat)
    requires v < Pow2(w) && bits + w <= 64
    requires done + ToBits(buf, bits) == Flatten(read, w)
    ensures done + ToBits(Shl64(buf, w) + v, bits + w) == Flatten(read + [v], w)
  {
    ShiftIn(buf, bits, v, w);
    FlattenSnoc(read, v, w);
    assert done + (ToBits(buf, bits) + ToBits(v, w)) == (done + ToBits(buf, bits)) + ToBits(v, w);
  }

  /** Moving the top `w` pending bits out of the register as one value. */
  lemma Emit(vals: seq<nat>, buf: nat, bits: nat, v: nat, w: nat)
    requires ToBits(v, w) == ToBits(Shr(buf, bits), w)
    ensures Flatten(vals + [v], w) + ToBits(buf, bits) == Flatten(vals, w) + ToBits(buf, bits + w)
  {
    SplitBits(buf, w, bits);
    FlattenSnoc(vals, v, w);
    assert Flatten(vals, w) + (ToBits(v, w) + ToBits(buf, bits)) == (Flatten(vals, w) + ToBits(v, w)) + ToBits(buf, bits);
  }

  lemma {:induction false} FlattenLength(vals: seq<nat>, w: nat)
    ensures |Flatten(vals, w)| == w * |vals|
  {
    if vals != [] {
      FlattenLength(vals[1..], w);
      assert w * |vals| == w + w * |vals[1..]|;
    }
  }

  /** Cutting what was written with the same width gives the values back. */
  lemma {:induction false} RegroupFlatten(vals: seq<nat>, rest: seq<bool>, w: nat)
    requires w > 0 && |rest| < w
    requires forall i :: 0 <= i < |vals| ==> vals[i] < Pow2(w)
    ensures Regroup(Flatten(vals, w) + rest, w) == vals
  {
    var bits := Flatten(vals, w) + rest;
    if vals == [] {
      assert bits == rest;
    } else {
      assert bits[..w] == ToBits(vals[0], w);
      assert bits[w..] == Flatten(vals[1..], w) + rest;
      ValueToBits(vals[0], w);
      RegroupFlatten(vals[1..], rest, w);
      assert vals == [vals[0]] + vals[1..];
    }
  }

  lemma RegroupHead(bits: seq<bool>, w: nat)
    requires 0 < w <= |bits|
    ensures Regroup(bits, w) == [Value(bits[..w])] + Regroup(bits[w..], w)
  {
  }

  lemma FlattenHead(v: nat, vals: seq<nat>, w: nat)
    ensures Flatten([v] + vals, w) == ToBits(v, w) + Flatten(vals, w)
  {
  }

  lemma RegroupStep(bits: seq<bool>, w: nat)
    requires 0 < w <= |bits| && Flatten(Regroup(bits[w..], w), w) == bits[w..]
    ensures Flatten(Regroup(bits, w), w) == bits && |Regroup(bits, w)| == 1 + |Regroup(bits[w..], w)|
  {
    hide Regroup;
    hide Flatten;
    RegroupHead(bits, w);
    FlattenHead(Value(bits[..w]), Regroup(bits[w..], w), w);
    ToBitsValue(bits[..w]);
    assert bits == bits[..w] + bits[w..];
  }

  lemma RegroupNothing(w: nat)
    requires w > 0
    ensures Regroup([], w) == [] && Flatten([], w) == []
  {
  }

  /** Writing a cut string again loses nothing when its length is a multiple of the width. */
  lemma {:induction false} FlattenRegroup(bits: seq<bool>, w: nat, n: nat)
    requires w > 0 && |bits| == w * n
    ensures Flatten(Regroup(bits, w), w) == bits && |Regroup(bits, w)| == n
    decreases n
  {
    hide *;
    if n == 0 {
      assert bits == [];
      RegroupNothing(w);
    } else {
      assert w * n == w + w * (n - 1);
      FlattenRegroup(bits[w..], w, n - 1);
      RegroupStep(bits, w);
    }
  }
}
