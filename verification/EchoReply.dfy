/** The in-place echo reply and its checksum (ebpf/dns_xdp.c). */
module EchoReply {
  import opened Prelude
  import opened Arithmetic

  const ETH := 14
  const ICMP := 34
  const ECHO := 8
  const PROTO_ICMP := 1

  // ---- one's-complement sums (RFC 1071) ----

  /** Two octets as a big-endian word. */
  function Word(hi: byte, lo: byte): nat {
    256 * hi + lo
  }

  /** The sum of the big-endian 16-bit words; an odd last octet is padded with zero. */
  function WordSum(s: seq<byte>): nat {
    if s == [] then 0
    else if |s| == 1 then Word(s[0], 0)
    else Word(s[0], s[1]) + WordSum(s[2..])
  }

  /** End-around carry down to 16 bits. */
  function Folded(x: nat): nat {
    if x < 65536 then x else Folded(x / 65536 + x % 65536)
  }

  /** The receiver's test. */
  predicate ChecksumOk(s: seq<byte>) {
    Folded(WordSum(s)) == 0xFFFF
  }

  lemma CarryKeepsResidue(x: nat)
    ensures (x / 65536 + x % 65536) % 65535 == x % 65535
  {
    var q, r := x / 65536, x % 65536;
    Shifted(q + r, 65535, q);
  }

  lemma {:induction false} FoldedMeans(x: nat)
    ensures Folded(x) == 0xFFFF <==> x > 0 && x % 65535 == 0
    decreases x
  {
    if x >= 65536 {
      CarryKeepsResidue(x);
      FoldedMeans(x / 65536 + x % 65536);
    }
  }

  lemma {:induction false} WordSumSplit(a: seq<byte>, b: seq<byte>)
    requires |a| % 2 == 0
    ensures WordSum(a + b) == WordSum(a) + WordSum(b)
  {
    if a == [] {
      assert a + b == b;
    } else {
      WordSumSplit(a[2..], b);
      assert (a + b)[2..] == a[2..] + b;
    }
  }

  // ---- the incremental update ----

  /** 16-bit addition with end-around carry, as in section 3 of RFC 1624. */
  function Csum16Add(a: u16, b: u16): u16 {
    var s := a + b;
    (s + s / 65536) % 65536
  }

  lemma CsumAddMeans(a: u16, b: u16)
    ensures Csum16Add(a, b) % 65535 == (a + b) % 65535
    ensures Csum16Add(a, b) == 0 <==> a + b == 0
  {
    var s := a + b;
    if s >= 65536 {
      Divides(s, 65536, 1, s - 65536);
      Divides(s + 1, 65536, 1, s - 65535);
      Shifted(s, 65535, -1);
    } else {
      Divides(s, 65536, 0, s);
    }
  }

  /** A 16-bit field as a host of either byte order sees it. */
  function Load(little: bool, b0: byte, b1: byte): u16 {
    if little then Word(b1, b0) else Word(b0, b1)
  }

  function Stored(little: bool, w: u16): (byte, byte) {
    if little then (w % 256, w / 256) else (w / 256, w % 256)
  }

  /** `bpf_htons(ICMP_ECHO << 8)` */
  function EchoWord(little: bool): u16 {
    if little then 8 else 2048
  }

  function PatchedChecksum(little: bool, b0: byte, b1: byte): (byte, byte) {
    Stored(little, Csum16Add(Load(little, b0, b1), EchoWord(little)))
  }

  /** In either byte order the big-endian field grows by 0x0800 modulo 65535, and is not zero. */
  lemma PatchAdds0800(little: bool, b0: byte, b1: byte)
    ensures var c := PatchedChecksum(little, b0, b1);
            Word(c.0, c.1) % 65535 == (Word(b0, b1) + 2048) % 65535 && Word(c.0, c.1) > 0
  {
    var w := Csum16Add(Load(little, b0, b1), EchoWord(little));
    CsumAddMeans(Load(little, b0, b1), EchoWord(little));
    if little {
      var k := (Word(b1, b0) + 8) / 65535 - w / 65535;
      assert Word(b1, b0) + 8 == w + 65535 * k;
      SwappedWord(w % 256, w / 256);
      SwappedWord(b0, b1);
      Shifted(Word(w % 256, w / 256), 65535, 256 * k + w / 256 - b1);
    }
  }

  /** Exchanging the octets of a word multiplies it by 256, up to a multiple of 65535. */
  lemma SwappedWord(hi: byte, lo: byte)
    ensures 256 * Word(lo, hi) == Word(hi, lo) + 65535 * lo
  {
  }

  // ---- the packet ----

  predicate IsEcho(p: seq<byte>) {
    |p| >= 42 && p[12] == 8 && p[13] == 0 && p[23] == PROTO_ICMP && p[14] % 16 == 5 && p[34] == ECHO
  }

  /** The reply: link and network addresses exchanged, type cleared, checksum patched, the rest untouched. */
  function Reply(p: seq<byte>, little: bool): (r: seq<byte>)
    requires IsEcho(p)
    ensures |r| == |p|
  {
    var c := PatchedChecksum(little, p[36], p[37]);
    seq(|p|, i requires 0 <= i < |p| =>
      if i < 6 then p[i + 6]
      else if i < 12 then p[i - 6]
      else if 26 <= i < 30 then p[i + 4]
      else if 30 <= i < 34 then p[i - 4]
      else if i == 34 then 0
      else if i == 36 then c.0
      else if i == 37 then c.1
      else p[i])
  }

  lemma ReplyBytes(p: seq<byte>, little: bool)
    requires IsEcho(p)
    ensures var r := Reply(p, little);
      && r[..6] == p[6..12] && r[6..12] == p[..6] && r[12..26] == p[12..26]
      && r[26..30] == p[30..34] && r[30..34] == p[26..30]
      && r[34] == 0 && r[35] == p[35] && (r[36], r[37]) == PatchedChecksum(little, p[36], p[37]) && r[38..] == p[38..]
  {
    hide PatchedChecksum;
    var r := Reply(p, little);
    Slices(r, 0, p, 6, 6);
    Slices(r, 6, p, 0, 6);
    Slices(r, 12, p, 12, 14);
    Slices(r, 26, p, 30, 4);
    Slices(r, 30, p, 26, 4);
    Slices(r, 38, p, 38, |p| - 38);
  }

  lemma Slices(r: seq<byte>, a: nat, p: seq<byte>, b: nat, n: nat)
    requires a + n <= |r| && b + n <= |p| && forall i :: a <= i < a + n ==> r[i] == p[i + (b - a)]
    ensures r[a..a + n] == p[b..b + n]
  {
  }

  /** Exchange two fields of `n` octets through a temporary copy. */
  method Exchange(p: array<byte>, a: nat, b: nat, n: nat)
    requires a + n <= b && b + n <= p.Length
    modifies p
    ensures forall k :: 0 <= k < p.Length ==>
      p[k] == old(if a <= k < a + n then p[k + (b - a)] else if b <= k < b + n then p[k - (b - a)] else p[k])
  {
    var tmp := p[b..b + n];
    forall k | 0 <= k < n {
      p[b + k] := p[a + k];
    }
    forall k | 0 <= k < n {
      p[a + k] := tmp[k];
    }
  }

  /** The rewriting of a request that is to be answered. */
  method Rewrite(p: array<byte>, little: bool)
    requires IsEcho(p[..])
    modifies p
    ensures p[..] == Reply(old(p[..]), little)
  {
    hide PatchedChecksum;
    Exchange(p, 0, 6, 6);
    Exchange(p, 26, 30, 4);
    p[ICMP] := 0;
    var c := PatchedChecksum(little, p[36], p[37]);
    p[36], p[37] := c.0, c.1;
  }

  /** Wherever the message ends, the reply's checksum is good exactly if the request's was. */
  lemma ReplyChecksum(p: seq<byte>, little: bool, end: nat)
    requires IsEcho(p) && 42 <= end <= |p|
    ensures ChecksumOk(Reply(p, little)[34..end]) <==> ChecksumOk(p[34..end])
  {
    var r := Reply(p, little);
    ReplyBytes(p, little);
    HeadSum(p, end);
    HeadSum(r, end);
    assert r[38..end] == r[38..][..end - 38] == p[38..][..end - 38] == p[38..end];
    PatchAdds0800(little, p[36], p[37]);
    FoldedMeans(WordSum(p[34..end]));
    FoldedMeans(WordSum(r[34..end]));
    SumResidue(WordSum(p[34..end]), WordSum(r[34..end]), Word(p[36], p[37]), Word(r[36], r[37]));
  }

  lemma HeadSum(p: seq<byte>, end: nat)
    requires 42 <= end <= |p|
    ensures WordSum(p[34..end]) == Word(p[34], p[35]) + Word(p[36], p[37]) + WordSum(p[38..end])
  {
    assert p[34..end][2..] == p[36..end] && p[36..end][2..] == p[38..end];
  }

  lemma SumResidue(before: nat, after: nat, c: nat, d: nat)
    requires after - d == before - c - 2048 && d % 65535 == (c + 2048) % 65535
    ensures after % 65535 == before % 65535
  {
    var k := (c + 2048) / 65535 - d / 65535;
    assert c + 2048 == d + 65535 * k;
    Shifted(after, 65535, k);
  }

  /** The header checksum needs no patch: exchanging the addresses keeps the sum of the words. */
  lemma ReplyHeaderSum(p: seq<byte>, little: bool)
    requires IsEcho(p)
    ensures WordSum(Reply(p, little)[14..34]) == WordSum(p[14..34])
  {
    var r := Reply(p, little);
    ReplyBytes(p, little);
    HeaderParts(p);
    HeaderParts(r);
    assert r[14..26] == r[12..26][2..] == p[12..26][2..] == p[14..26];
  }

  lemma HeaderParts(p: seq<byte>)
    requires |p| >= 34
    ensures WordSum(p[14..34]) == WordSum(p[14..26]) + WordSum(p[26..30]) + WordSum(p[30..34])
  {
    WordSumSplit(p[14..26], p[26..30] + p[30..34]);
    WordSumSplit(p[26..30], p[30..34]);
    assert p[14..34] == p[14..26] + (p[26..30] + p[30..34]);
  }
}
