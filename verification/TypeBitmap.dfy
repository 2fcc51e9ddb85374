/**
 Type bitmaps of NSEC and NSEC3 records, section 4.1.2 of RFC 4034: the reader of
 src/dns/dnssec_denial.rs and the writer of src/dns/dnssec_sign.rs.
 */
module TypeBitmap {
  import opened Prelude
  import opened Bits

  /** Bit `k` of an octet, most significant first: `b & (0x80 >> k) != 0`. */
  predicate BitSet(b: byte, k: nat)
    requires k < 8
  {
    ToBits(b, 8)[k]
  }

  /** `b | (0x80 >> k)` */
  function SetBit(b: byte, k: nat): (r: byte)
    requires k < 8
    ensures forall j :: 0 <= j < 8 ==> (BitSet(r, j) <==> j == k || BitSet(b, j))
  {
    var bits := ToBits(b, 8)[k := true];
    ToBitsValue(bits);
    assert Pow2(8) == 256;
    Value(bits)
  }

  /** Is `rtype` listed? Blocks are `window | length | bits`; a malformed block ends the search. */
  predicate Has(bm: seq<byte>, rtype: u16) {
    if |bm| < 2 || |bm| - 2 < bm[1] then false
    else if bm[0] == rtype / 256 then
      var offset := rtype % 256;
      offset / 8 < bm[1] && BitSet(bm[2 + offset / 8], offset % 8)
    else Has(bm[2 + bm[1]..], rtype)
  }

  method TypeInBitmap(bitmap: seq<byte>, rtype: u16) returns (found: bool)
    ensures found <==> Has(bitmap, rtype)
  {
    var bm := bitmap;
    var window, offset := rtype / 256, rtype % 256;
    while |bm| >= 2
      invariant Has(bm, rtype) <==> Has(bitmap, rtype)
      decreases |bm|
    {
      var w, len := bm[0], bm[1];
      if |bm| - 2 < len {
        return false;
      }
      if w == window {
        return offset / 8 < len && BitSet(bm[2 + offset / 8], offset % 8);
      }
      bm := bm[2 + len..];
    }
    return false;
  }

  // ---- the encoding of a set of types ----

  function WindowByte(types: set<u16>, window: byte, i: nat): byte
    requires i < 32
  {
    var bits := seq(8, k requires 0 <= k < 8 => 256 * window + 8 * i + k in types);
    assert Pow2(8) == 256;
    Value(bits)
  }

  function WindowBytes(types: set<u16>, window: byte): (r: seq<byte>)
    ensures |r| == 32 && forall i :: 0 <= i < 32 ==> r[i] == WindowByte(types, window, i)
  {
    seq(32, i requires 0 <= i < 32 => WindowByte(types, window, i))
  }

  /** Drop trailing zero octets. */
  function Trim(s: seq<byte>): (r: seq<byte>)
    ensures r <= s
    ensures forall i :: |r| <= i < |s| ==> s[i] == 0
  {
    if s != [] && s[|s| - 1] == 0 then Trim(s[..|s| - 1]) else s
  }

  function Block(types: set<u16>, window: byte): (r: seq<byte>) {
    var bits := Trim(WindowBytes(types, window));
    if bits == [] then [] else [window, |bits|] + bits
  }

  function BlocksFrom(types: set<u16>, window: nat): seq<byte>
    requires window <= 256
    decreases 256 - window, types
  {
    if window == 256 then [] else Block(types, window) + BlocksFrom(types, window + 1)
  }

  function Encoded(types: set<u16>): seq<byte> {
    BlocksFrom(types, 0)
  }

  lemma WindowBits(types: set<u16>, window: byte, i: nat, k: nat)
    requires i < 32 && k < 8
    ensures BitSet(WindowByte(types, window, i), k) <==> 256 * window + 8 * i + k in types
  {
    ToBitsValue(seq(8, k requires 0 <= k < 8 => 256 * window + 8 * i + k in types));
  }

  lemma ZeroHasNoBits(k: nat)
    requires k < 8
    ensures !BitSet(0, k)
  {
    ToBitsValue(Zeros(8));
    assert Value(Zeros(8)) == 0 by { ZeroValue(8); }
  }

  lemma {:induction false} ZeroValue(n: nat)
    ensures Value(Zeros(n)) == 0
  {
    if n > 0 {
      assert Zeros(n)[..n - 1] == Zeros(n - 1);
      ZeroValue(n - 1);
    }
  }

  lemma HasBlock(w: byte, bits: seq<byte>, rest: seq<byte>, t: u16)
    requires |bits| < 256
    ensures Has([w, |bits|] + bits + rest, t)
         == if w == t / 256 then t % 256 / 8 < |bits| && BitSet(bits[t % 256 / 8], t % 256 % 8) else Has(rest, t)
  {
    var bm: seq<byte> := [w, |bits|] + bits + rest;
    assert bm[2 + bm[1]..] == rest;
  }

  lemma TrimmedBit(types: set<u16>, window: byte, t: u16)
    requires t / 256 == window
    ensures var bits := Trim(WindowBytes(types, window));
            (t % 256 / 8 < |bits| && BitSet(bits[t % 256 / 8], t % 256 % 8)) <==> t in types
  {
    var i, k := t % 256 / 8, t % 256 % 8;
    assert t == 256 * window + 8 * i + k;
    WindowBits(types, window, i, k);
    ZeroHasNoBits(k);
  }

  lemma HasBlocksFrom(types: set<u16>, window: byte, t: u16)
    ensures window != t / 256 ==> Has(BlocksFrom(types, window), t) == Has(BlocksFrom(types, window + 1), t)
    ensures window == t / 256 && t in types ==> Has(BlocksFrom(types, window), t)
    ensures window == t / 256 && Has(BlocksFrom(types, window), t) ==> t in types || Has(BlocksFrom(types, window + 1), t)
  {
    var bits := Trim(WindowBytes(types, window));
    var rest := BlocksFrom(types, window + 1);
    if t / 256 == window {
      TrimmedBit(types, window, t);
    }
    if bits == [] {
      assert BlocksFrom(types, window) == rest;
    } else {
      assert BlocksFrom(types, window) == [window, |bits|] + bits + rest;
      HasBlock(window, bits, rest, t);
    }
  }

  lemma NoBlocksLeft(types: set<u16>, t: u16)
    ensures !Has(BlocksFrom(types, 256), t)
  {
  }

  lemma {:induction false} BlocksFromMembership(types: set<u16>, window: nat, t: u16)
    requires window <= 256
    ensures Has(BlocksFrom(types, window), t) <==> window <= t / 256 && t in types
    decreases 256 - window
  {
    hide Has;
    hide BlocksFrom;
    if window == 256 {
      NoBlocksLeft(types, t);
    } else {
      HasBlocksFrom(types, window, t);
      BlocksFromMembership(types, window + 1, t);
    }
  }

  /** The reader recovers exactly the encoded set, in every window. */
  lemma Membership(types: set<u16>, t: u16)
    ensures Has(Encoded(types), t) <==> t in types
  {
    BlocksFromMembership(types, 0, t);
  }

  function TypesOf(types: seq<u16>): (r: set<u16>)
    ensures forall t :: t in r <==> t in types
  {
    set t | t in types
  }

  const ZERO_WINDOW: seq<byte> := seq(32, _ => 0)

  lemma SameBitsSameByte(a: byte, b: byte)
    requires forall k :: 0 <= k < 8 ==> (BitSet(a, k) <==> BitSet(b, k))
    ensures a == b
  {
    assert Pow2(8) == 256;
    ValueToBits(a, 8);
    ValueToBits(b, 8);
    assert ToBits(a, 8) == ToBits(b, 8) by {
      forall k | 0 <= k < 8 ensures ToBits(a, 8)[k] == ToBits(b, 8)[k] {
        assert BitSet(a, k) <==> BitSet(b, k);
      }
    }
  }

  lemma EmptyWindow(types: set<u16>, window: byte)
    requires forall t :: t in types ==> t / 256 != window
    ensures WindowBytes(types, window) == ZERO_WINDOW && Block(types, window) == []
  {
    forall i | 0 <= i < 32 ensures WindowByte(types, window, i) == 0 {
      forall k | 0 <= k < 8 ensures !BitSet(WindowByte(types, window, i), k) && !BitSet(0, k) {
        WindowBits(types, window, i, k);
        ZeroHasNoBits(k);
        assert (256 * window + 8 * i + k) / 256 == window;
      }
      SameBitsSameByte(WindowByte(types, window, i), 0);
    }
    TrimZeros(WindowBytes(types, window));
  }

  lemma {:induction false} TrimZeros(s: seq<byte>)
    requires forall i :: 0 <= i < |s| ==> s[i] == 0
    ensures Trim(s) == []
  {
    if s != [] {
      TrimZeros(s[..|s| - 1]);
    }
  }

  /** Adding one type changes one bit of one window. */
  lemma AddType(types: set<u16>, t: u16)
    ensures var bm, bit := WindowBytes(types, t / 256), t % 256;
            WindowBytes(types + {t}, t / 256) == bm[bit / 8 := SetBit(bm[bit / 8], bit % 8)]
    ensures forall w: byte :: w != t / 256 ==> WindowBytes(types + {t}, w) == WindowBytes(types, w)
  {
    var bit := t % 256;
    forall w: byte, i | 0 <= i < 32
      ensures WindowByte(types + {t}, w, i)
           == if w == t / 256 && i == bit / 8 then SetBit(WindowByte(types, w, i), bit % 8) else WindowByte(types, w, i)
    {
      var before := WindowByte(types, w, i);
      var after := if w == t / 256 && i == bit / 8 then SetBit(before, bit % 8) else before;
      forall k | 0 <= k < 8 ensures BitSet(WindowByte(types + {t}, w, i), k) <==> BitSet(after, k) {
        WindowBits(types, w, i, k);
        WindowBits(types + {t}, w, i, k);
        assert 256 * w + 8 * i + k == t <==> w == t / 256 && i == bit / 8 && k == bit % 8;
      }
      SameBitsSameByte(WindowByte(types + {t}, w, i), after);
    }
  }

  lemma NextBlock(out: seq<byte>, types: set<u16>, window: byte)
    ensures out + BlocksFrom(types, window) == out + Block(types, window) + BlocksFrom(types, window + 1)
  {
    assert BlocksFrom(types, window) == Block(types, window) + BlocksFrom(types, window + 1);
  }

  /** The signer's encoder: collect bits per window, then emit the windows in order. */
  method Encode(types: seq<u16>) returns (out: seq<byte>)
    ensures out == Encoded(TypesOf(types))
  {
    var windows: map<byte, seq<byte>> := map[];
    for n := 0 to |types|
      invariant forall t :: t in types[..n] ==> t / 256 in windows
      invariant forall w :: w in windows ==> windows[w] == WindowBytes(TypesOf(types[..n]), w)
    {
      var t := types[n];
      var w: byte, bit := t / 256, t % 256;
      var bm: seq<byte> := if w in windows then windows[w] else ZERO_WINDOW;
      ghost var seen := TypesOf(types[..n]);
      if w !in windows {
        EmptyWindow(seen, w);
      }
      AddType(seen, t);
      assert TypesOf(types[..n + 1]) == seen + {t};
      windows := windows[w := bm[bit / 8 := SetBit(bm[bit / 8], bit % 8)]];
    }
    assert types[..|types|] == types;
    ghost var all := TypesOf(types);
    out := [];
    for w := 0 to 256
      invariant out + BlocksFrom(all, w) == Encoded(all)
    {
      var block: seq<byte> := [];
      if w in windows {
        var bits := Trim(windows[w]);
        if bits != [] {
          block := [w, |bits|] + bits;
        }
      } else {
        EmptyWindow(all, w);
      }
      assert block == Block(all, w);
      NextBlock(out, all, w);
      out := out + block;
    }
  }
}
