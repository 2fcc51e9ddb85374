/** Record type, class and response code numbers (src/dns/wire/consts.rs). */
module RecordTypes {
  import opened Prelude

  const NS: u16 := 2
  const CNAME: u16 := 5
  const SOA: u16 := 6
  const DS: u16 := 43
  const RRSIG: u16 := 46
  const NSEC: u16 := 47
  const DNSKEY: u16 := 48
  const NSEC3: u16 := 50
  const NSEC3PARAM: u16 := 51

  const NXDOMAIN := 3
}
