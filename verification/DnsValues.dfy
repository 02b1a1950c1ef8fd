/** DNS messages as plain values: what a message says, apart from how it is stored. */
module DnsValues {
  import opened Bytes

  datatype Header = Header(name: string, rrtype: nat, class_: nat, ttl: nat)

  datatype KeyValue =
    | AlpnV(alpn: seq<string>)
    | HintV(v6: bool, hint: seq<seq<Byte>>)
    | NoDefaultAlpnV
    | UnknownKvV(key: nat, data: seq<Byte>)

  datatype EdnsOption =
    | SubnetV(family: nat, netmask: Byte, scope: Byte, address: seq<Byte>)
    | EdeV(infoCode: nat, extraText: string)
    | UnknownOptV(code: nat, data: seq<Byte>)

  /** The kinds of records without a pool of their own that the code tells apart. */
  datatype Kind = Cname | Nsec | Nsec3 | Ds | Rrsig | Sig | Dnskey | Rest

  datatype Record =
    | AV(hdr: Header, ip: seq<Byte>)
    | TxtV(hdr: Header, txt: seq<string>)
    | SoaV(hdr: Header, mname: string, rname: string, serial: nat, minTtl: nat)
    | HttpsV(hdr: Header, priority: nat, target: string, value: seq<KeyValue>)
    | OptV(hdr: Header, options: seq<EdnsOption>)
    | OtherV(hdr: Header, kind: Kind, data: seq<Byte>)

  datatype Question = Question(name: string, qtype: nat, qclass: nat)

  datatype MsgHeader = MsgHeader(
    id: nat, response: bool, opcode: nat, authoritative: bool, truncated: bool,
    recursionDesired: bool, recursionAvailable: bool, authenticatedData: bool, checkingDisabled: bool,
    rcode: nat)

  datatype MsgVal = MsgVal(
    hdr: MsgHeader,
    question: seq<Question>,
    answer: seq<Record>,
    ns: seq<Record>,
    extra: seq<Record>)

  function WithTtl(r: Record, ttl: nat): Record {
    r.(hdr := r.hdr.(ttl := ttl))
  }

  function AllWithTtl(rs: seq<Record>, ttl: nat): seq<Record> {
    seq(|rs|, i requires 0 <= i < |rs| => WithTtl(rs[i], ttl))
  }

  /** The message with the TTL of every record overwritten. */
  function MsgWithTtl(m: MsgVal, ttl: nat): MsgVal {
    m.(answer := AllWithTtl(m.answer, ttl), ns := AllWithTtl(m.ns, ttl), extra := AllWithTtl(m.extra, ttl))
  }
}
