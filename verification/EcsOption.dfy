/**
  The EDNS Client Subnet option (section 6 of RFC 7871): setECS of
  internal/ecscache/msg.go writes it and ECSFromMsg of internal/dnsmsg/dnsmsg.go
  reads it.
 */
module EcsOption {
  import opened Wrappers
  import opened Bytes
  import opened NetIp
  import opened DnsValues

  datatype EcsError = BadFamily | BadAddress | BadNetmask | NotMasked | WrongFamily

  datatype Family = IPv4 | IPv6

  const DEFAULT_UDP_SIZE := 4096
  const TYPE_OPT := 41
  const DO_BIT := 0x8000

  function FamilyNumber(f: Family): nat {
    if f.IPv4? then 1 else 2
  }

  function FamilyOf(a: Addr): Option<Family> {
    match a
    case Zero => None
    case V4(_) => Some(IPv4)
    case V6(_, _) => Some(IPv6)
  }

  // ----- addresses on the wire

  const MAPPED_PREFIX: seq<Byte> := [0, 0, 0, 0, 0, 0, 0, 0, 0, 0, 0xFF, 0xFF]

  /** netutil.IPToAddr, which converts between the forms of an address. */
  function IpToAddr(ip: seq<Byte>, f: Family): Option<Addr> {
    match f
    case IPv4 =>
      if |ip| == 4 then Some(V4(FromBytes(ip)))
      else if |ip| == 16 && ip[..12] == MAPPED_PREFIX then Some(V4(FromBytes(ip[12..])))
      else None
    case IPv6 =>
      if |ip| == 16 then Some(V6(FromBytes(ip), ""))
      else if |ip| == 4 then Some(V6(FromBytes(MAPPED_PREFIX + ip), ""))
      else None
  }

  lemma IpToAddrInRange(ip: seq<Byte>, f: Family)
    ensures IpToAddr(ip, f).Some? ==> InRange(IpToAddr(ip, f).value) && FamilyOf(IpToAddr(ip, f).value) == Some(f)
  {
    hide FromBytes;
    hide Pow2;
    FromBytesBound(ip);
    if |ip| == 16 {
      FromBytesBound(ip[12..]);
    }
    if |ip| == 4 {
      FromBytesBound(MAPPED_PREFIX + ip);
    }
  }

  /** addrToNetIP; an address of the wrong family is refused. */
  function AddrToNetIp(a: Addr, f: Family): Result<seq<Byte>, EcsError>
    requires !a.Zero?
  {
    match f
    case IPv4 => if a.V6? then Err(WrongFamily) else Ok(ToBytes(a.v, 4))
    case IPv6 => if a.V4? then Err(WrongFamily) else Ok(ToBytes(a.v, 16))
  }

  lemma NetIpRoundTrip(p: Prefix, f: Family)
    requires IsValid(p) && AddrToNetIp(p.ip, f).Ok?
    ensures IpToAddr(AddrToNetIp(p.ip, f).value, f) == Some(p.ip)
  {
    hide Pow2;
    hide ToBytes;
    hide FromBytes;
    if f.IPv4? {
      BytesRoundTrip(p.ip.v, 4);
    } else {
      BytesRoundTrip(p.ip.v, 16);
    }
  }

  // ----- reading

  function FamilyFrom(n: nat): Option<Family> {
    if n == 1 then Some(IPv4) else if n == 2 then Some(IPv6) else None
  }

  /** ecsData */
  function EcsData(o: EdnsOption): (r: Result<(Prefix, Byte), EcsError>)
    requires o.SubnetV?
    ensures r.Ok? ==> IsMasked(r.value.0) && r.value.1 == o.scope && FamilyFrom(o.family) == FamilyOf(r.value.0.ip)
  {
    hide Pow2;
    var f := FamilyFrom(o.family);
    if f.None? then Err(BadFamily)
    else
      var a := IpToAddr(o.address, f.value);
      if a.None? then Err(BadAddress)
      else
        IpToAddrInRange(o.address, f.value);
        if o.netmask > BitLen(a.value) then Err(BadNetmask)
        else
          var subnet: Prefix := Prefix(a.value, o.netmask);
          if Masked(subnet) != subnet then Err(NotMasked) else Ok((subnet, o.scope))
  }

  /** Msg.IsEdns0 of github.com/miekg/dns: the last OPT record, or the length if there is none. */
  function LastOpt(rs: seq<Record>): (i: nat)
    ensures i <= |rs|
    ensures i < |rs| ==> rs[i].OptV? && forall k | i < k < |rs| :: !rs[k].OptV?
    ensures i == |rs| ==> forall k | 0 <= k < |rs| :: !rs[k].OptV?
  {
    if rs == [] then 0
    else
      var n := |rs| - 1;
      if rs[n].OptV? then n
      else
        var i := LastOpt(rs[..n]);
        if i == n then |rs| else i
  }

  function FirstSubnet(os: seq<EdnsOption>): (j: nat)
    ensures j <= |os|
    ensures j < |os| ==> os[j].SubnetV?
    ensures forall k | 0 <= k < j :: !os[k].SubnetV?
  {
    if os == [] || os[0].SubnetV? then 0 else 1 + FirstSubnet(os[1..])
  }

  /** ECSFromMsg: the first client-subnet option of the last OPT record decides. */
  function EcsFromMsg(m: MsgVal): Result<Option<(Prefix, Byte)>, EcsError> {
    var i := LastOpt(m.extra);
    if i == |m.extra| then Ok(None)
    else
      var os := m.extra[i].options;
      var j := FirstSubnet(os);
      if j == |os| then Ok(None)
      else
        match EcsData(os[j])
        case Err(e) => Err(e)
        case Ok(v) => Ok(Some(v))
  }

  /** The loop of ECSFromMsg. */
  method ReadEcs(m: MsgVal) returns (r: Result<Option<(Prefix, Byte)>, EcsError>)
    ensures r == EcsFromMsg(m)
  {
    hide EcsData;
    var i := LastOpt(m.extra);
    if i == |m.extra| {
      return Ok(None);
    }
    var os := m.extra[i].options;
    for j := 0 to |os|
      invariant forall k | 0 <= k < j :: !os[k].SubnetV?
    {
      if os[j].SubnetV? {
        var d := EcsData(os[j]);
        match d
        case Err(e) => return Err(e);
        case Ok(v) => return Ok(Some(v));
      }
    }
    r := Ok(None);
  }

  // ----- writing

  function ScopeFor(subnet: Prefix, isResp: bool): Byte
    requires IsValid(subnet)
  {
    if isResp then subnet.bits else 0
  }

  /** The client-subnet option put into a list of options: the first one is overwritten, family aside. */
  function PutSubnet(os: seq<EdnsOption>, f: Family, netmask: Byte, scope: Byte, ip: seq<Byte>): seq<EdnsOption> {
    var j := FirstSubnet(os);
    if j < |os| then os[j := os[j].(netmask := netmask, scope := scope, address := ip)]
    else os + [SubnetV(FamilyNumber(f), netmask, scope, ip)]
  }

  /** setECS */
  function SetEcs(m: MsgVal, subnet: Prefix, f: Family, isResp: bool): Result<MsgVal, EcsError>
    requires IsValid(subnet)
  {
    match AddrToNetIp(subnet.ip, f)
    case Err(e) => Err(e)
    case Ok(ip) =>
      var scope := ScopeFor(subnet, isResp);
      var i := LastOpt(m.extra);
      if i == |m.extra| then
        var flags := if !isResp || m.hdr.authenticatedData then DO_BIT else 0;
        var os := [SubnetV(FamilyNumber(f), subnet.bits, scope, ip)];
        Ok(m.(extra := m.extra + [OptV(Header(".", TYPE_OPT, DEFAULT_UDP_SIZE, flags), os)]))
      else
        var opt := m.extra[i];
        var os := PutSubnet(opt.options, f, subnet.bits, scope, ip);
        Ok(m.(extra := m.extra[i := OptV(opt.hdr.(class_ := DEFAULT_UDP_SIZE), os)]))
  }

  /** The loop of setECS over the options of the last OPT record. */
  method PutSubnetInPlace(os: array<EdnsOption>, f: Family, netmask: Byte, scope: Byte, ip: seq<Byte>)
    returns (found: bool)
    modifies os
    ensures found ==> os[..] == PutSubnet(old(os[..]), f, netmask, scope, ip)
    ensures !found ==>
      && os[..] == old(os[..])
      && os[..] + [SubnetV(FamilyNumber(f), netmask, scope, ip)] == PutSubnet(old(os[..]), f, netmask, scope, ip)
  {
    for j := 0 to os.Length
      invariant forall k | 0 <= k < j :: !os[k].SubnetV?
      invariant os[..] == old(os[..])
    {
      if os[j].SubnetV? {
        assert FirstSubnet(os[..]) == j;
        os[j] := os[j].(netmask := netmask, scope := scope, address := ip);
        return true;
      }
    }
    return false;
  }

  /** It fails exactly when the subnet is not of the family asked for. */
  lemma SetEcsFailsIff(m: MsgVal, subnet: Prefix, f: Family, isResp: bool)
    requires IsValid(subnet)
    ensures SetEcs(m, subnet, f, isResp).Err? <==> FamilyOf(subnet.ip) != Some(f)
  {
    hide Pow2;
  }

  /** An option that is already there has the family being written. */
  ghost predicate FamilyAgrees(m: MsgVal, f: Family) {
    var i := LastOpt(m.extra);
    i < |m.extra| ==>
      var os := m.extra[i].options;
      var j := FirstSubnet(os);
      j < |os| ==> os[j].family == FamilyNumber(f)
  }

  lemma LastOptIs(rs: seq<Record>, i: nat)
    requires i < |rs| && rs[i].OptV? && forall k | i < k < |rs| :: !rs[k].OptV?
    ensures LastOpt(rs) == i
  {
    hide LastOpt;
  }

  lemma FirstSubnetIs(os: seq<EdnsOption>, j: nat)
    requires j < |os| && os[j].SubnetV? && forall k | 0 <= k < j :: !os[k].SubnetV?
    ensures FirstSubnet(os) == j
  {
    hide FirstSubnet;
  }

  /** Where the option ends up, and what it says. */
  lemma WrittenOption(m: MsgVal, subnet: Prefix, f: Family, isResp: bool) returns (o: EdnsOption)
    requires IsValid(subnet) && SetEcs(m, subnet, f, isResp).Ok?
    ensures o.SubnetV? && o.netmask == subnet.bits && o.scope == ScopeFor(subnet, isResp)
    ensures Ok(o.address) == AddrToNetIp(subnet.ip, f)
    ensures o.family == FamilyNumber(f) <==> FamilyAgrees(m, f)
    ensures
      EcsFromMsg(SetEcs(m, subnet, f, isResp).value) ==
      match EcsData(o) { case Err(e) => Err(e) case Ok(v) => Ok(Some(v)) }
  {
    hide Pow2;
    hide ToBytes;
    hide EcsData;
    hide LastOpt;
    hide FirstSubnet;
    var out := SetEcs(m, subnet, f, isResp).value;
    var i := LastOpt(m.extra);
    LastOptIs(out.extra, i);
    var os := out.extra[i].options;
    var j := if i < |m.extra| then FirstSubnet(m.extra[i].options) else 0;
    FirstSubnetIs(os, j);
    o := os[j];
  }

  /**
    Reading back what was written gives exactly the subnet and scope, if and only
    if the subnet is masked and an option already there was of the same family.
   */
  lemma EcsRoundTripIff(m: MsgVal, subnet: Prefix, f: Family, isResp: bool)
    requires IsValid(subnet) && SetEcs(m, subnet, f, isResp).Ok?
    ensures EcsFromMsg(SetEcs(m, subnet, f, isResp).value) == Ok(Some((subnet, ScopeFor(subnet, isResp)))) <==>
            IsMasked(subnet) && FamilyAgrees(m, f)
  {
    var o := WrittenOption(m, subnet, f, isResp);
    SetEcsFailsIff(m, subnet, f, isResp);
    NetIpRoundTrip(subnet, f);
    hide Pow2;
    hide SetEcs;
    hide EcsFromMsg;
    hide IpToAddr;
    hide AddrToNetIp;
    hide FamilyAgrees;
  }

  /** The option as section 6 of RFC 7871 has it: the family as 1 or 2, and the address with its high byte first. */
  lemma OptionOnTheWire(m: MsgVal, subnet: Prefix, f: Family, isResp: bool) returns (o: EdnsOption)
    requires IsValid(subnet) && SetEcs(m, subnet, f, isResp).Ok? && LastOpt(m.extra) == |m.extra|
    ensures
      var out := SetEcs(m, subnet, f, isResp).value.extra;
      && |out| == |m.extra| + 1 && out[|m.extra|].OptV? && out[|m.extra|].options == [o]
      && out[|m.extra|].hdr.rrtype == 41 && out[|m.extra|].hdr.name == "." && out[|m.extra|].hdr.class_ == 4096
      && (out[|m.extra|].hdr.ttl == if !isResp || m.hdr.authenticatedData then 0x8000 else 0)
    ensures o.SubnetV? && o.netmask == subnet.bits && o.scope == (if isResp then subnet.bits else 0)
    ensures if subnet.ip.V4? then o.family == 1 && |o.address| == 4 else o.family == 2 && |o.address| == 16
    ensures forall k | 0 <= k < |o.address| :: o.address[k] == subnet.ip.v / Pow2(8 * (|o.address| - 1 - k)) % 0x100
  {
    hide Pow2;
    hide LastOpt;
    o := SubnetV(FamilyNumber(f), subnet.bits, ScopeFor(subnet, isResp), AddrToNetIp(subnet.ip, f).value);
    ToBytesAt(subnet.ip.v, |o.address|);
    hide ToBytes;
  }

  /** The value of an address on the wire: either form will do for either family, as netutil.IPToAddr has it. */
  ghost predicate Denotes(ip: seq<Byte>, family: nat, v: nat) {
    || (|ip| == (if family == 1 then 4 else 16) && v == FromBytes(ip))
    || (family == 1 && |ip| == 16 && ip[..12] == MAPPED_PREFIX && v == FromBytes(ip[12..]))
    || (family == 2 && |ip| == 4 && v == 0xFFFF_0000_0000 + FromBytes(ip))
  }

  lemma DenotesIff(ip: seq<Byte>, f: Family, v: nat)
    ensures Denotes(ip, FamilyNumber(f), v) <==> IpToAddr(ip, f) == Some(if f.IPv4? then V4(v) else V6(v, ""))
  {
    if |ip| == 4 {
      MappedValue(ip);
    }
    hide FromBytes;
  }

  lemma MappedValue(ip: seq<Byte>)
    requires |ip| == 4
    ensures FromBytes(MAPPED_PREFIX + ip) == 0xFFFF_0000_0000 + FromBytes(ip)
  {
    FromBytesConcat(MAPPED_PREFIX, ip);
    var zeros: seq<Byte> := seq(10, _ => 0);
    assert MAPPED_PREFIX == zeros + [0xFF, 0xFF];
    FromBytesConcat(zeros, [0xFF, 0xFF]);
    FromZeros(10);
    var last: seq<Byte> := [0xFF, 0xFF];
    assert last[..1] == [0xFF] && [0xFF][..0] == [];
    assert FromBytes(last[..1]) == 0xFF;
    assert FromBytes(last) == 0xFFFF;
    Pow2Byte();
    Pow2Add(8, 8);
    Pow2Add(16, 16);
  }

  /** What is read: an option is good exactly if its family, address, length and host bits are. */
  lemma EcsDataIff(o: EdnsOption)
    requires o.SubnetV?
    ensures
      var len := if o.family == 1 then 32 else 128;
      && (EcsData(o).Ok? <==>
            && o.family in {1, 2} && o.netmask <= len
            && exists v: nat :: Denotes(o.address, o.family, v) && v % Pow2(len - o.netmask) == 0)
      && (EcsData(o).Ok? ==>
            var (p, scope) := EcsData(o).value;
            && scope == o.scope && p.bits == o.netmask && p.ip.V4? == (o.family == 1) && !p.ip.Zero?
            && Denotes(o.address, o.family, p.ip.v))
  {
    var len := if o.family == 1 then 32 else 128;
    if o.family in {1, 2} {
      var f := if o.family == 1 then IPv4 else IPv6;
      var a := IpToAddr(o.address, f);
      if a.Some? {
        IpToAddrInRange(o.address, f);
        DenotesIff(o.address, f, a.value.v);
        if o.netmask <= len {
          ClearLowIff(a.value.v, len - o.netmask);
        }
      }
      forall v: nat | Denotes(o.address, o.family, v) ensures a.Some? && a.value.v == v {
        DenotesIff(o.address, f, v);
      }
    }
    hide Pow2;
    hide FromBytes;
    hide ClearLow;
    hide Denotes;
  }

  // ----- what else changes

  function NonSubnet(os: seq<EdnsOption>): seq<EdnsOption> {
    if os == [] then []
    else if os[|os| - 1].SubnetV? then NonSubnet(os[..|os| - 1])
    else NonSubnet(os[..|os| - 1]) + [os[|os| - 1]]
  }

  lemma {:induction false} NonSubnetUpdate(os: seq<EdnsOption>, j: nat, o: EdnsOption)
    requires j < |os| && os[j].SubnetV? && o.SubnetV?
    ensures NonSubnet(os[j := o]) == NonSubnet(os)
  {
    var n := |os| - 1;
    if j < n {
      NonSubnetUpdate(os[..n], j, o);
      assert os[j := o][..n] == os[..n][j := o];
    } else {
      assert os[j := o][..n] == os[..n];
    }
  }

  /** Everything but one client-subnet option and the UDP size of its record stays as it was. */
  lemma SetEcsKeepsTheRest(m: MsgVal, subnet: Prefix, f: Family, isResp: bool)
    requires IsValid(subnet) && SetEcs(m, subnet, f, isResp).Ok?
    ensures
      var out := SetEcs(m, subnet, f, isResp).value;
      var i := LastOpt(m.extra);
      && out.hdr == m.hdr && out.question == m.question && out.answer == m.answer && out.ns == m.ns
      && i < |out.extra| && |out.extra| == (if i < |m.extra| then |m.extra| else |m.extra| + 1)
      && (forall k | 0 <= k < |m.extra| && k != i :: out.extra[k] == m.extra[k])
      && out.extra[i].OptV?
      && (i < |m.extra| ==>
            && out.extra[i].hdr == m.extra[i].hdr.(class_ := DEFAULT_UDP_SIZE)
            && NonSubnet(out.extra[i].options) == NonSubnet(m.extra[i].options))
  {
    hide Pow2;
    hide ToBytes;
    hide LastOpt;
    hide FirstSubnet;
    var i := LastOpt(m.extra);
    if i < |m.extra| {
      var os := m.extra[i].options;
      var j := FirstSubnet(os);
      var out := SetEcs(m, subnet, f, isResp).value.extra[i].options;
      if j < |os| {
        NonSubnetUpdate(os, j, out[j]);
      } else {
        assert out[..|os|] == os;
      }
    }
  }

  /** An option of another family that is already there keeps its family, and the round trip fails. */
  lemma OtherFamilyFails(v: nat)
    requires v < Pow2(32)
    ensures
      var old' := OptV(Header(".", TYPE_OPT, DEFAULT_UDP_SIZE, 0), [SubnetV(2, 0, 0, ToBytes(0, 16))]);
      var m := MsgVal(MsgHeader(0, false, 0, false, false, false, false, false, false, 0), [], [], [], [old']);
      Representable(Prefix(V4(v), 32)) &&
      var subnet: Prefix := Prefix(V4(v), 32);
      var r := SetEcs(m, subnet, IPv4, false);
      r.Ok? && EcsFromMsg(r.value) != Ok(Some((subnet, 0)))
  {
    hide Pow2;
    hide ToBytes;
    var o := OptV(Header(".", TYPE_OPT, DEFAULT_UDP_SIZE, 0), [SubnetV(2, 0, 0, ToBytes(0, 16))]);
    var m := MsgVal(MsgHeader(0, false, 0, false, false, false, false, false, false, 0), [], [], [], [o]);
    var subnet: Prefix := Prefix(V4(v), 32);
    LastOptIs(m.extra, 0);
    FirstSubnetIs(o.options, 0);
    hide LastOpt;
    hide FirstSubnet;
    SetEcsFailsIff(m, subnet, IPv4, false);
    EcsRoundTripIff(m, subnet, IPv4, false);
    hide EcsFromMsg;
    hide SetEcs;
    assert !FamilyAgrees(m, IPv4);
  }
}
