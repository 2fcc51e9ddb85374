/**
 base32hex labels (src/dns/dnssec_denial.rs, section 7 of RFC 4648): the form an NSEC3 owner
 hash takes. The specification regroups one bit string; the methods are the source's loops
 over a 64-bit accumulator that is never masked.
 */
module Base32Hex {
  import opened Prelude
  import opened Bits

  function Digit(v: nat): byte
    requires v < 32
  {
    if v < 10 then 48 + v else 55 + v
  }

  function DigitValue(c: byte): (r: Option<nat>)
    ensures r.Some? ==> r.value < 32
  {
    if 48 <= c <= 57 then Some(c - 48)
    else if 65 <= c <= 86 then Some(c - 55)
    else if 97 <= c <= 118 then Some(c - 87)
    else None
  }

  predicate AllDigits(s: seq<byte>) {
    forall i :: 0 <= i < |s| ==> DigitValue(s[i]).Some?
  }

  function Values(s: seq<byte>): (r: seq<nat>)
    requires AllDigits(s)
    ensures |r| == |s| && forall i :: 0 <= i < |s| ==> r[i] == DigitValue(s[i]).value
  {
    seq(|s|, i requires 0 <= i < |s| => DigitValue(s[i]).value)
  }

  function Digits(vals: seq<nat>): (r: seq<byte>)
    requires forall i :: 0 <= i < |vals| ==> vals[i] < 32
    ensures |r| == |vals| && forall i :: 0 <= i < |vals| ==> r[i] == Digit(vals[i])
  {
    seq(|vals|, i requires 0 <= i < |vals| => Digit(vals[i]))
  }

  /** `out` writes the digits of `vals`. */
  predicate Spells(out: seq<byte>, vals: seq<nat>) {
    |out| == |vals| && forall i :: 0 <= i < |vals| ==> vals[i] < 32 && out[i] == Digit(vals[i])
  }

  /** Bits missing to the next multiple of five. */
  function Padding(bits: nat): (r: nat)
    ensures r < 5 && (bits + r) % 5 == 0
  {
    (5 - bits % 5) % 5
  }

  function OctetBits(x: seq<byte>): (r: seq<bool>)
    ensures |r| == 8 * |x|
  {
    FlattenLength(x, 8);
    Flatten(x, 8)
  }

  function QuintetBits(vals: seq<nat>): (r: seq<bool>)
    ensures |r| == 5 * |vals|
  {
    FlattenLength(vals, 5);
    Flatten(vals, 5)
  }

  function Quintets(bits: seq<bool>): (r: seq<nat>)
    ensures forall i :: 0 <= i < |r| ==> r[i] < 32
  {
    assert Pow2(5) == 32;
    Regroup(bits, 5)
  }

  function Octets(bits: seq<bool>): (r: seq<byte>) {
    assert Pow2(8) == 256;
    Regroup(bits, 8)
  }

  /** The bit string of `x`, zero-padded and read five bits at a time. */
  function Encoded(x: seq<byte>): seq<byte> {
    Digits(Quintets(OctetBits(x) + Zeros(Padding(8 * |x|))))
  }

  /** The bit string of the digits read eight bits at a time. */
  function Decoded(s: seq<byte>): Option<seq<byte>> {
    if AllDigits(s) then Some(Octets(QuintetBits(Values(s)))) else None
  }

  lemma DigitsValues(vals: seq<nat>)
    requires forall i :: 0 <= i < |vals| ==> vals[i] < 32
    ensures AllDigits(Digits(vals)) && Values(Digits(vals)) == vals
  {
  }

  lemma EncodedDigits(x: seq<byte>)
    ensures AllDigits(Encoded(x))
    ensures QuintetBits(Values(Encoded(x))) == OctetBits(x) + Zeros(Padding(8 * |x|))
  {
    var bits := OctetBits(x) + Zeros(Padding(8 * |x|));
    hide Regroup;
    hide Flatten;
    hide Digit;
    hide DigitValue;
    FlattenRegroup(bits, 5, |bits| / 5);
    DigitsValues(Quintets(bits));
  }

  /** Every octet string survives encoding and decoding. */
  lemma RoundTrip(x: seq<byte>)
    ensures Decoded(Encoded(x)) == Some(x)
  {
    EncodedDigits(x);
    assert Pow2(8) == 256;
    RegroupFlatten(x, Zeros(Padding(8 * |x|)), 8);
  }

  /** Decoding ignores letter case. */
  lemma DecodedIgnoresCase(s: seq<byte>, t: seq<byte>)
    requires |s| == |t| && forall i :: 0 <= i < |s| ==> LowerByte(s[i]) == LowerByte(t[i])
    ensures Decoded(s) == Decoded(t)
  {
    forall i | 0 <= i < |s| ensures DigitValue(s[i]) == DigitValue(t[i]) {
      assert LowerByte(s[i]) == LowerByte(t[i]);
    }
    if AllDigits(s) {
      assert Values(s) == Values(t);
    } else {
      var i :| 0 <= i < |s| && DigitValue(s[i]).None?;
      assert DigitValue(t[i]).None?;
    }
  }

  /** The inner loop of the encoder: emit digits while five bits are pending. */
  method Drain(digits: seq<byte>, ghost written: seq<nat>, buf: nat, pending: nat, ghost target: seq<bool>)
      returns (out: seq<byte>, ghost vals: seq<nat>, bits: nat)
    requires Spells(digits, written) && Flatten(written, 5) + ToBits(buf, pending) == target
    ensures bits < 5 && Spells(out, vals) && Flatten(vals, 5) + ToBits(buf, bits) == target
  {
    out, vals, bits := digits, written, pending;
    while bits >= 5
      invariant Spells(out, vals) && Flatten(vals, 5) + ToBits(buf, bits) == target
    {
      bits := bits - 5;
      var v := Shr(buf, bits) % 32;
      LowFive(Shr(buf, bits));
      Emit(vals, buf, bits, v, 5);
      out := out + [Digit(v)];
      vals := vals + [v];
    }
  }

  lemma StartEncoding()
    ensures Flatten([], 5) + ToBits(0, 0) == Flatten([], 8)
  {
  }

  method Encode(input: seq<byte>) returns (out: seq<byte>)
    ensures out == Encoded(input)
  {
    hide Flatten;
    hide ToBits;
    ghost var vals: seq<nat> := [];
    out := [];
    var buf, bits := 0, 0;
    StartEncoding();
    for n := 0 to |input|
      invariant 0 <= bits < 5 && 0 <= buf && Spells(out, vals)
      invariant Flatten(vals, 5) + ToBits(buf, bits) == Flatten(input[..n], 8)
    {
      AbsorbOctet(input, n, Flatten(vals, 5), buf, bits);
      buf := Shl64(buf, 8) + input[n];
      bits := bits + 8;
      out, vals, bits := Drain(out, vals, buf, bits, Flatten(input[..n + 1], 8));
    }
    assert input[..|input|] == input;
    if bits > 0 {
      var v := Shl64(buf, 5 - bits) % 32;
      FlushQuintet(vals, buf, bits);
      out := out + [Digit(v)];
      FinishEncoding(input, out, vals + [v], 5 - bits);
    } else {
      FinishEncoding(input, out, vals, 0);
    }
  }

  lemma AbsorbOctet(input: seq<byte>, n: nat, done: seq<bool>, buf: nat, bits: nat)
    requires n < |input| && bits < 5
    requires done + ToBits(buf, bits) == Flatten(input[..n], 8)
    ensures done + ToBits(Shl64(buf, 8) + input[n], bits + 8) == Flatten(input[..n + 1], 8)
  {
    assert Pow2(8) == 256;
    Absorb(input[..n], done, buf, bits, input[n], 8);
    assert input[..n + 1] == input[..n] + [input[n]];
  }

  lemma LowFive(x: nat)
    ensures ToBits(x % 32, 5) == ToBits(x, 5)
  {
    assert Pow2(5) == 32;
    HighBitsInvisible(x % 32, x / 32, 5, 5);
  }

  lemma LowEight(x: nat)
    ensures ToBits(x % 256, 8) == ToBits(x, 8)
  {
    assert Pow2(8) == 256;
    HighBitsInvisible(x % 256, x / 256, 8, 8);
  }

  lemma FlushQuintet(vals: seq<nat>, buf: nat, bits: nat)
    requires 0 < bits < 5
    ensures Flatten(vals + [Shl64(buf, 5 - bits) % 32], 5) == Flatten(vals, 5) + ToBits(buf, bits) + Zeros(5 - bits)
  {
    hide ToBits, Flatten, Shl64, Pow2;
    var k := 5 - bits;
    ShiftIn(buf, bits, 0, k);
    LowFive(Shl64(buf, k));
    ZeroBits(k);
    FlattenSnoc(vals, Shl64(buf, k) % 32, 5);
  }

  lemma {:induction false} ZeroBits(k: nat)
    ensures ToBits(0, k) == Zeros(k)
  {
    if k > 0 {
      ZeroBits(k - 1);
    }
  }

  lemma PaddingUnique(total: nat, groups: nat, k: nat)
    requires k < 5 && 5 * groups == total + k
    ensures k == Padding(total)
  {
    assert (total + k) % 5 == 0;
  }

  /** A zero-padded list of quintets is the specified encoding. */
  lemma FinishEncoding(input: seq<byte>, out: seq<byte>, vals: seq<nat>, k: nat)
    requires Spells(out, vals)
    requires k < 5 && Flatten(vals, 5) == Flatten(input, 8) + Zeros(k)
    ensures out == Encoded(input)
  {
    FlattenLength(vals, 5);
    FlattenLength(input, 8);
    PaddingUnique(8 * |input|, |vals|, k);
    assert Pow2(5) == 32;
    assert Flatten(vals, 5) + [] == Flatten(vals, 5);
    RegroupFlatten(vals, [], 5);
    assert out == Digits(vals);
  }

  lemma StartDecoding()
    ensures Flatten([], 8) + ToBits(0, 0) == Flatten(Values([]), 5)
  {
  }

  method Decode(input: seq<byte>) returns (r: Option<seq<byte>>)
    ensures r == Decoded(input)
  {
    hide Flatten;
    hide ToBits;
    hide Values;
    var out: seq<byte> := [];
    var buf, bits := 0, 0;
    StartDecoding();
    for n := 0 to |input|
      invariant 0 <= bits < 8 && 0 <= buf
      invariant AllDigits(input[..n])
      invariant Flatten(out, 8) + ToBits(buf, bits) == Flatten(Values(input[..n]), 5)
    {
      var d := DigitValue(input[n]);
      if d.None? {
        return None;
      }
      AbsorbDigit(input, n, Flatten(out, 8), buf, bits);
      buf := Shl64(buf, 5) + d.value;
      bits := bits + 5;
      if bits >= 8 {
        bits := bits - 8;
        var b: byte := Shr(buf, bits) % 256;
        LowEight(Shr(buf, bits));
        Emit(out, buf, bits, b, 8);
        out := out + [b];
      }
    }
    assert input[..|input|] == input;
    FinishDecoding(Values(input), out, ToBits(buf, bits));
    r := Some(out);
  }

  lemma FinishDecoding(vals: seq<nat>, out: seq<byte>, rest: seq<bool>)
    requires |rest| < 8 && Flatten(out, 8) + rest == Flatten(vals, 5)
    ensures Octets(QuintetBits(vals)) == out
  {
    assert Pow2(8) == 256;
    RegroupFlatten(out, rest, 8);
  }

  lemma ValuesNext(input: seq<byte>, n: nat)
    requires n < |input| && AllDigits(input[..n]) && DigitValue(input[n]).Some?
    ensures AllDigits(input[..n + 1]) && Values(input[..n + 1]) == Values(input[..n]) + [DigitValue(input[n]).value]
    ensures DigitValue(input[n]).value < Pow2(5)
  {
    assert Pow2(5) == 32;
  }

  lemma AbsorbDigit(input: seq<byte>, n: nat, done: seq<bool>, buf: nat, bits: nat)
    requires n < |input| && bits < 8 && AllDigits(input[..n]) && DigitValue(input[n]).Some?
    requires done + ToBits(buf, bits) == Flatten(Values(input[..n]), 5)
    ensures AllDigits(input[..n + 1])
    ensures done + ToBits(Shl64(buf, 5) + DigitValue(input[n]).value, bits + 5) == Flatten(Values(input[..n + 1]), 5)
  {
    hide *;
    ValuesNext(input, n);
    Absorb(Values(input[..n]), done, buf, bits, DigitValue(input[n]).value, 5);
  }
}
