/** The parts of a DNS message the validator reads (src/dns/wire). */
module Messages {
  import opened Prelude
  import opened Names
  import RecordTypes

  type Bytes = seq<byte>

  /** Record data: raw octets for types the codec does not model, else a typed value with its wire form. */
  datatype Rdata = Unknown(data: Bytes) | Typed(wire: Bytes) {
    function Emit(): Bytes {
      if Unknown? then data else wire
    }
  }

  datatype Record = Record(name: Name, rtype: u16, ttl: nat, rdata: Rdata)

  datatype Message = Message(rcode: nat, answers: seq<Record>, authority: seq<Record>)

  /** An RRSIG record whose type-covered field is `t`. */
  predicate SigCovers(r: Record, t: u16) {
    && r.rtype == RecordTypes.RRSIG && r.rdata.Unknown? && |r.rdata.data| >= 2
    && 256 * (r.rdata.data[0] as int) + r.rdata.data[1] == t
  }

  /** Wire RDATA of the records of type `t`. */
  function RdatasOf(section: seq<Record>, t: u16): seq<Bytes> {
    if section == [] then []
    else (if section[0].rtype == t then [section[0].rdata.Emit()] else []) + RdatasOf(section[1..], t)
  }

  /** Signatures covering type `t`, whatever their owner. */
  function SigsOf(section: seq<Record>, t: u16): seq<Bytes> {
    if section == [] then []
    else (if SigCovers(section[0], t) then [section[0].rdata.data] else []) + SigsOf(section[1..], t)
  }

  predicate Owned(r: Record, owner: Name, t: u16) {
    r.rtype == t && SameName(r.name, owner)
  }

  function OwnedRdatas(section: seq<Record>, owner: Name, t: u16): (r: seq<Rdata>)
    ensures forall k :: 0 <= k < |section| && Owned(section[k], owner, t) ==> section[k].rdata in r
  {
    if section == [] then []
    else (if Owned(section[0], owner, t) then [section[0].rdata] else []) + OwnedRdatas(section[1..], owner, t)
  }

  function OwnedSigs(section: seq<Record>, owner: Name, t: u16): seq<Bytes> {
    if section == [] then []
    else (if SigCovers(section[0], t) && SameName(section[0].name, owner) then [section[0].rdata.data] else [])
         + OwnedSigs(section[1..], owner, t)
  }

  predicate Has(section: seq<Record>, owner: Name, t: u16) {
    exists k :: 0 <= k < |section| && Owned(section[k], owner, t)
  }

  function MinTtl(section: seq<Record>, t: u16): Option<nat> {
    if section == [] then None else
    var rest := MinTtl(section[1..], t);
    if section[0].rtype != t then rest
    else if rest.None? then Some(section[0].ttl)
    else Some(Min(section[0].ttl, rest.value))
  }
}
