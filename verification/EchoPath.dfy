/** An ICMP packet through the echo responder (ebpf/dns_xdp.c): recognise, limit, rewrite. */
module EchoPath {
  import opened Prelude
  import opened IcmpLimiter
  import opened EchoReply

  /** The source address of a packet long enough to have one. */
  function SourceOf(p: seq<byte>): Source
    requires |p| >= 34
  {
    0x100_0000 * (p[26] as int) + 0x1_0000 * (p[27] as int) + 0x100 * (p[28] as int) + p[29]
  }

  /**
   A packet that is no echo request passes untouched and uncounted; an echo request is turned into
   its reply in place exactly if the limiter admits its source, and is otherwise left as it is.
   */
  method Process(p: array<byte>, responder: Responder, now: nat, little: bool) returns (verdict: Verdict)
    requires responder.Valid()
    modifies p, responder
    ensures responder.Valid() && responder.banned == old(responder.banned)
    ensures verdict == Replied ==> IsEcho(old(p[..]))
    ensures p[..] == if verdict == Replied then Reply(old(p[..]), little) else old(p[..])
    ensures !IsEcho(old(p[..])) ==>
      verdict == Pass && responder.log == old(responder.log) && responder.entries == old(responder.entries)
    ensures IsEcho(old(p[..])) && responder.cfg.enabled && SourceOf(old(p[..])) !in responder.banned ==>
      && responder.log == old(responder.log) + [Request(SourceOf(old(p[..])), now)]
      && (verdict == Replied <==>
            Admitted(responder.cfg, Final(responder.cfg, TimesOf(old(responder.log), SourceOf(old(p[..])))), now).Some?)
    ensures !responder.cfg.enabled || (IsEcho(old(p[..])) && SourceOf(old(p[..])) in responder.banned) ==> verdict != Replied
  {
    hide Final;
    hide TimesOf;
    hide Reply;
    if p.Length < ETH + 20 || p[12] != 8 || p[13] != 0 || p[23] != PROTO_ICMP || p[14] % 16 != 5 {
      return Pass;
    }
    if p.Length < ICMP + 8 || p[ICMP] != ECHO {
      return Pass;
    }
    verdict := responder.Handle(Request(SourceOf(p[..]), now));
    if verdict == Replied {
      Rewrite(p, little);
    }
  }
}
