/** dns.Copy of github.com/miekg/dns: a deep copy into new objects. */
module DnsCopy {
  import opened Bytes
  import opened DnsValues
  import opened DnsHeap

  /** The capacity of a new slice is up to the allocator. */
  method CopyIp(src: Ip, ghost objs: set<object>) returns (ip: Ip)
    requires IpIn(src, objs)
    ensures fresh(ip.arr) && ip.off + ip.len <= ip.arr.Length
    ensures ip.arr[ip.off..ip.off + ip.len] == IpVal(src, objs)
  {
    var slack: nat :| slack >= 0;
    var arr := new Byte[src.len + slack];
    forall k | 0 <= k < src.len { arr[k] := src.arr[src.off + k]; }
    ip := Ip(arr, 0, src.len);
  }

  method CopyStrings(src: Strings, ghost objs: set<object>) returns (t: Strings)
    requires StringsIn(src, objs)
    ensures fresh(t.arr) && t.len == src.len <= t.arr.Length
    ensures t.arr[..t.len] == StringsVal(src, objs)
  {
    var slack: nat :| slack >= 0;
    var arr := new string[src.len + slack];
    forall k | 0 <= k < src.len { arr[k] := src.arr[k]; }
    t := Strings(arr, src.len);
  }

  method CopyIps(src: seq<Ip>, ghost objs: set<object>, ghost sec: nat, ghost i: nat, ghost j: nat)
    returns (ips: seq<Ip>, ghost pl: Places)
    requires forall k | 0 <= k < |src| :: IpIn(src[k], objs)
    ensures fresh(pl.Keys)
    ensures IpsCopy(ips, src, objs, sec, i, j, pl)
  {
    ips, pl := [], map[];
    for k := 0 to |src|
      invariant fresh(pl.Keys)
      invariant IpsCopy(ips, src[..k], objs, sec, i, j, pl)
    {
      ghost var before := pl;
      var ip := CopyIp(src[k], objs);
      pl := pl[ip.arr := IpAt(sec, i, j, k)];
      IpsCopyMono(ips, src[..k], objs, sec, i, j, before, pl);
      assert IpCopy(ip, src[k], objs, IpAt(sec, i, j, k), pl);
      hide IpCopy;
      ips := ips + [ip];
    }
    assert src[..|src|] == src;
  }

  method CopyHint(v6: bool, h: HintKv, ghost objs: set<object>, ghost sec: nat, ghost i: nat, ghost j: nat)
    returns (c: HintKv, ghost pl: Places)
    requires KvIn(Hint(v6, h), objs)
    ensures fresh(pl.Keys)
    ensures KvCopy(Hint(v6, c), Hint(v6, h), objs, sec, i, j, pl)
  {
    hide KvCopy;
    hide IpsCopy;
    var ips, ipl := CopyIps(h.hint, objs, sec, i, j);
    c := new HintKv(ips);
    pl := ipl[c := PartAt(sec, i, j)];
    HintAssembled(v6, c, h, objs, sec, i, j, ipl, pl);
  }

  method CopyKv(kv: KV, ghost objs: set<object>, ghost sec: nat, ghost i: nat, ghost j: nat)
    returns (r: KV, ghost pl: Places)
    requires KvIn(kv, objs)
    ensures fresh(pl.Keys)
    ensures KvCopy(r, kv, objs, sec, i, j, pl)
  {
    pl := map[];
    match kv
    case Alpn(k) =>
      var c := new AlpnKv(k.alpn);
      r := Alpn(c);
      pl := pl[c := PartAt(sec, i, j)];
    case Hint(v6, h) =>
      var c, cpl := CopyHint(v6, h, objs, sec, i, j);
      r, pl := Hint(v6, c), cpl;
    case NoDefaultAlpn =>
      r := NoDefaultAlpn;
    case UnknownKv(k) =>
      var c := new OtherKv(k.key, k.data);
      r := UnknownKv(c);
      pl := pl[c := PartAt(sec, i, j)];
  }

  method CopyOpt(o: Opt, ghost objs: set<object>, ghost sec: nat, ghost i: nat, ghost j: nat)
    returns (r: Opt, ghost pl: Places)
    requires OptIn(o, objs)
    ensures fresh(pl.Keys)
    ensures OptCopy(r, o, objs, sec, i, j, pl)
  {
    pl := map[];
    match o
    case Subnet(s) =>
      var ip := CopyIp(s.address, objs);
      var c := new SubnetOpt(s.family, s.netmask, s.scope, ip);
      r := Subnet(c);
      pl := pl[c := PartAt(sec, i, j)][ip.arr := IpAt(sec, i, j, 0)];
    case Ede(e) =>
      var c := new EdeOpt(e.infoCode, e.extraText);
      r := Ede(c);
      pl := pl[c := PartAt(sec, i, j)];
    case UnknownOpt(u) =>
      var c := new OtherOpt(u.code, u.data);
      r := UnknownOpt(c);
      pl := pl[c := PartAt(sec, i, j)];
  }

  method CopyHttps(h: HttpsRec, ghost objs: set<object>, ghost sec: nat, ghost i: nat)
    returns (r: HttpsRec, ghost pl: Places)
    requires h in objs && KvsIn(h.value, objs)
    ensures fresh(pl.Keys)
    ensures RrCopy(Https(r), Https(h), objs, sec, i, pl)
  {
    hide KvIn;
    hide KvCopy;
    hide RrCopy;
    var kvs := [];
    pl := map[];
    for j := 0 to |h.value|
      invariant fresh(pl.Keys) && |kvs| == j
      invariant KvsCopy(kvs, h.value[..j], objs, sec, i, pl)
    {
      ghost var before := pl;
      var kv, kpl := CopyKv(h.value[j], objs, sec, i, j);
      pl := pl + kpl;
      KvsCopyMono(kvs, h.value[..j], objs, sec, i, before, pl);
      KvCopyMono(kv, h.value[j], objs, sec, i, j, kpl, pl);
      kvs := kvs + [kv];
    }
    assert h.value[..|h.value|] == h.value;
    r := new HttpsRec(h.hdr, h.priority, h.target, kvs);
    ghost var before := pl;
    pl := pl[r := RrAt(sec, i)];
    HttpsAssembled(r, h, objs, sec, i, before, pl);
  }

  method CopyOptRec(o: OptRec, ghost objs: set<object>, ghost sec: nat, ghost i: nat)
    returns (r: OptRec, ghost pl: Places)
    requires o in objs && OptsIn(o.options, objs)
    ensures fresh(pl.Keys)
    ensures RrCopy(OptRr(r), OptRr(o), objs, sec, i, pl)
  {
    hide OptIn;
    hide OptCopy;
    hide RrCopy;
    var os := [];
    pl := map[];
    for j := 0 to |o.options|
      invariant fresh(pl.Keys) && |os| == j
      invariant OptsCopy(os, o.options[..j], objs, sec, i, pl)
    {
      ghost var before := pl;
      var c, cpl := CopyOpt(o.options[j], objs, sec, i, j);
      pl := pl + cpl;
      OptsCopyMono(os, o.options[..j], objs, sec, i, before, pl);
      OptCopyMono(c, o.options[j], objs, sec, i, j, cpl, pl);
      os := os + [c];
    }
    assert o.options[..|o.options|] == o.options;
    r := new OptRec(o.hdr, os);
    ghost var before := pl;
    pl := pl[r := RrAt(sec, i)];
    OptAssembled(r, o, objs, sec, i, before, pl);
  }

  method CopyRr(orig: RR, ghost objs: set<object>, ghost sec: nat, ghost i: nat)
    returns (r: RR, ghost pl: Places)
    requires RrIn(orig, objs)
    ensures fresh(pl.Keys)
    ensures RrCopy(r, orig, objs, sec, i, pl)
  {
    pl := map[];
    match orig
    case A(a) =>
      var ip := CopyIp(a.ip, objs);
      var c := new ARec(a.hdr, ip);
      r := A(c);
      pl := pl[c := RrAt(sec, i)][ip.arr := StoreOf(sec, i)];
    case Txt(t) =>
      var txt := CopyStrings(t.txt, objs);
      var c := new TxtRec(t.hdr, txt);
      r := Txt(c);
      pl := pl[c := RrAt(sec, i)][txt.arr := StoreOf(sec, i)];
    case Soa(s) =>
      var c := new SoaRec(s.hdr, s.mname, s.rname, s.serial, s.minTtl);
      r := Soa(c);
      pl := pl[c := RrAt(sec, i)];
    case Https(h) =>
      var c, cpl := CopyHttps(h, objs, sec, i);
      r, pl := Https(c), cpl;
    case OptRr(o) =>
      var c, cpl := CopyOptRec(o, objs, sec, i);
      r, pl := OptRr(c), cpl;
    case Other(u) =>
      var c := new OtherRec(u.hdr, u.kind, u.data);
      r := Other(c);
      pl := pl[c := RrAt(sec, i)];
  }
}
