/**
  DNS messages as the program stores them: records, SVCB values, EDNS options and
  IP arrays that point at each other.  `Val` functions say what such a structure
  means, `In` predicates which objects it consists of, and `Placed` predicates
  that each object stands at one place only.

  An array of bytes stands for a stretch of memory: slices whose first sixteen
  bytes overlap lie in one array, at different offsets.
 */
module DnsHeap {
  import opened Bytes
  import opened DnsValues

  // ----- IP addresses

  /** net.IP: a slice of a backing array. */
  datatype Ip = Ip(arr: array<Byte>, off: nat, len: nat)

  /** cap(ip) >= 16, which is what makes an address go back to the pool. */
  predicate HasRoom(ip: Ip) {
    ip.off + 16 <= ip.arr.Length
  }

  ghost predicate IpIn(ip: Ip, objs: set<object>) {
    ip.arr in objs && ip.off + ip.len <= ip.arr.Length
  }

  ghost function IpVal(ip: Ip, objs: set<object>): seq<Byte>
    requires IpIn(ip, objs)
    reads objs
  {
    ip.arr[ip.off..ip.off + ip.len]
  }

  // ----- strings

  /** A slice of strings. */
  datatype Strings = Strings(arr: array<string>, len: nat)

  ghost predicate StringsIn(t: Strings, objs: set<object>) {
    t.arr in objs && t.len <= t.arr.Length
  }

  ghost function StringsVal(t: Strings, objs: set<object>): seq<string>
    requires StringsIn(t, objs)
    reads objs
  {
    t.arr[..t.len]
  }

  // ----- objects

  class ARec {
    var hdr: Header
    var ip: Ip

    constructor (hdr: Header, ip: Ip)
      ensures this.hdr == hdr && this.ip == ip
    {
      this.hdr, this.ip := hdr, ip;
    }
  }

  class TxtRec {
    var hdr: Header
    var txt: Strings

    constructor (hdr: Header, txt: Strings)
      ensures this.hdr == hdr && this.txt == txt
    {
      this.hdr, this.txt := hdr, txt;
    }
  }

  class SoaRec {
    var hdr: Header
    var mname: string
    var rname: string
    var serial: nat
    var minTtl: nat

    constructor (hdr: Header, mname: string, rname: string, serial: nat, minTtl: nat)
      ensures this.hdr == hdr && this.mname == mname && this.rname == rname
      ensures this.serial == serial && this.minTtl == minTtl
    {
      this.hdr, this.mname, this.rname, this.serial, this.minTtl := hdr, mname, rname, serial, minTtl;
    }
  }

  class HttpsRec {
    var hdr: Header
    var priority: nat
    var target: string
    var value: seq<KV>

    method Fill(hdr: Header, priority: nat, target: string, value: seq<KV>)
      modifies this
      ensures this.hdr == hdr && this.priority == priority && this.target == target && this.value == value
    {
      this.hdr, this.priority, this.target, this.value := hdr, priority, target, value;
    }

    constructor (hdr: Header, priority: nat, target: string, value: seq<KV>)
      ensures this.hdr == hdr && this.priority == priority && this.target == target && this.value == value
    {
      this.hdr, this.priority, this.target, this.value := hdr, priority, target, value;
    }
  }

  class OptRec {
    var hdr: Header
    var options: seq<Opt>

    method Fill(hdr: Header, options: seq<Opt>)
      modifies this
      ensures this.hdr == hdr && this.options == options
    {
      this.hdr, this.options := hdr, options;
    }

    constructor (hdr: Header, options: seq<Opt>)
      ensures this.hdr == hdr && this.options == options
    {
      this.hdr, this.options := hdr, options;
    }
  }

  class OtherRec {
    var hdr: Header
    var kind: Kind
    var data: seq<Byte>

    constructor (hdr: Header, kind: Kind, data: seq<Byte>)
      ensures this.hdr == hdr && this.kind == kind && this.data == data
    {
      this.hdr, this.kind, this.data := hdr, kind, data;
    }
  }

  class AlpnKv {
    var alpn: seq<string>

    constructor (alpn: seq<string>)
      ensures this.alpn == alpn
    {
      this.alpn := alpn;
    }
  }

  class HintKv {
    var hint: seq<Ip>

    constructor (hint: seq<Ip>)
      ensures this.hint == hint
    {
      this.hint := hint;
    }
  }

  class OtherKv {
    var key: nat
    var data: seq<Byte>

    constructor (key: nat, data: seq<Byte>)
      ensures this.key == key && this.data == data
    {
      this.key, this.data := key, data;
    }
  }

  class SubnetOpt {
    var family: nat
    var netmask: Byte
    var scope: Byte
    var address: Ip

    method Fill(family: nat, netmask: Byte, scope: Byte, address: Ip)
      modifies this
      ensures this.family == family && this.netmask == netmask && this.scope == scope && this.address == address
    {
      this.family, this.netmask, this.scope, this.address := family, netmask, scope, address;
    }

    constructor (family: nat, netmask: Byte, scope: Byte, address: Ip)
      ensures this.family == family && this.netmask == netmask && this.scope == scope && this.address == address
    {
      this.family, this.netmask, this.scope, this.address := family, netmask, scope, address;
    }
  }

  class EdeOpt {
    var infoCode: nat
    var extraText: string

    constructor (infoCode: nat, extraText: string)
      ensures this.infoCode == infoCode && this.extraText == extraText
    {
      this.infoCode, this.extraText := infoCode, extraText;
    }
  }

  class OtherOpt {
    var code: nat
    var data: seq<Byte>

    constructor (code: nat, data: seq<Byte>)
      ensures this.code == code && this.data == data
    {
      this.code, this.data := code, data;
    }
  }

  /** dns.SVCBKeyValue; the empty structures carry no object worth telling apart. */
  datatype KV = Alpn(alpn: AlpnKv) | Hint(v6: bool, hint: HintKv) | NoDefaultAlpn | UnknownKv(kv: OtherKv)

  /** dns.EDNS0 */
  datatype Opt = Subnet(subnet: SubnetOpt) | Ede(ede: EdeOpt) | UnknownOpt(opt: OtherOpt)

  /** dns.RR */
  datatype RR =
    | A(a: ARec) | Txt(txt: TxtRec) | Soa(soa: SoaRec)
    | Https(https: HttpsRec) | OptRr(opt: OptRec) | Other(other: OtherRec)

  // ----- meaning

  ghost predicate KvIn(kv: KV, objs: set<object>)
    reads objs
  {
    match kv
    case Alpn(k) => k in objs
    case Hint(_, h) => h in objs && forall i | 0 <= i < |h.hint| :: IpIn(h.hint[i], objs)
    case NoDefaultAlpn => true
    case UnknownKv(k) => k in objs
  }

  ghost function IpVals(ips: seq<Ip>, objs: set<object>): (vs: seq<seq<Byte>>)
    requires forall i | 0 <= i < |ips| :: IpIn(ips[i], objs)
    reads objs
    ensures |vs| == |ips|
    ensures forall i | 0 <= i < |ips| :: vs[i] == IpVal(ips[i], objs)
  {
    if ips == [] then [] else IpVals(ips[..|ips| - 1], objs) + [IpVal(ips[|ips| - 1], objs)]
  }

  ghost function KvVal(kv: KV, objs: set<object>): KeyValue
    requires KvIn(kv, objs)
    reads objs
  {
    match kv
    case Alpn(k) => AlpnV(k.alpn)
    case Hint(v6, h) => HintV(v6, IpVals(h.hint, objs))
    case NoDefaultAlpn => NoDefaultAlpnV
    case UnknownKv(k) => UnknownKvV(k.key, k.data)
  }

  ghost predicate OptIn(o: Opt, objs: set<object>)
    reads objs
  {
    match o
    case Subnet(s) => s in objs && IpIn(s.address, objs)
    case Ede(e) => e in objs
    case UnknownOpt(u) => u in objs
  }

  ghost function OptVal(o: Opt, objs: set<object>): EdnsOption
    requires OptIn(o, objs)
    reads objs
  {
    match o
    case Subnet(s) => SubnetV(s.family, s.netmask, s.scope, IpVal(s.address, objs))
    case Ede(e) => EdeV(e.infoCode, e.extraText)
    case UnknownOpt(u) => UnknownOptV(u.code, u.data)
  }

  ghost predicate KvsIn(kvs: seq<KV>, objs: set<object>)
    reads objs
  {
    forall j | 0 <= j < |kvs| :: KvIn(kvs[j], objs)
  }

  ghost function KvVals(kvs: seq<KV>, objs: set<object>): (vs: seq<KeyValue>)
    requires KvsIn(kvs, objs)
    reads objs
    ensures |vs| == |kvs|
    ensures forall j | 0 <= j < |kvs| :: vs[j] == KvVal(kvs[j], objs)
  {
    if kvs == [] then [] else KvVals(kvs[..|kvs| - 1], objs) + [KvVal(kvs[|kvs| - 1], objs)]
  }

  ghost predicate OptsIn(os: seq<Opt>, objs: set<object>)
    reads objs
  {
    forall j | 0 <= j < |os| :: OptIn(os[j], objs)
  }

  ghost function OptVals(os: seq<Opt>, objs: set<object>): (vs: seq<EdnsOption>)
    requires OptsIn(os, objs)
    reads objs
    ensures |vs| == |os|
    ensures forall j | 0 <= j < |os| :: vs[j] == OptVal(os[j], objs)
  {
    if os == [] then [] else OptVals(os[..|os| - 1], objs) + [OptVal(os[|os| - 1], objs)]
  }

  ghost predicate RrIn(r: RR, objs: set<object>)
    reads objs
  {
    match r
    case A(a) => a in objs && IpIn(a.ip, objs)
    case Txt(t) => t in objs && StringsIn(t.txt, objs)
    case Soa(s) => s in objs
    case Https(h) => h in objs && KvsIn(h.value, objs)
    case OptRr(o) => o in objs && OptsIn(o.options, objs)
    case Other(u) => u in objs
  }

  ghost function RrVal(r: RR, objs: set<object>): Record
    requires RrIn(r, objs)
    reads objs
  {
    match r
    case A(a) => AV(a.hdr, IpVal(a.ip, objs))
    case Txt(t) => TxtV(t.hdr, StringsVal(t.txt, objs))
    case Soa(s) => SoaV(s.hdr, s.mname, s.rname, s.serial, s.minTtl)
    case Https(h) => HttpsV(h.hdr, h.priority, h.target, KvVals(h.value, objs))
    case OptRr(o) => OptV(o.hdr, OptVals(o.options, objs))
    case Other(u) => OtherV(u.hdr, u.kind, u.data)
  }

  // Equal values mean equal fields, all the way down: a copy with the value of its
  // original lacks nothing of it.

  lemma KvTellsAll(k: KV, l: KV, objs: set<object>)
    requires KvIn(k, objs) && KvIn(l, objs) && KvVal(k, objs) == KvVal(l, objs)
    ensures match k
            case Alpn(a) => l.Alpn? && a.alpn == l.alpn.alpn
            case Hint(v6, h) =>
              && l.Hint? && v6 == l.v6 && |h.hint| == |l.hint.hint|
              && forall i | 0 <= i < |h.hint| :: IpVal(h.hint[i], objs) == IpVal(l.hint.hint[i], objs)
            case NoDefaultAlpn => l.NoDefaultAlpn?
            case UnknownKv(u) => l.UnknownKv? && u.key == l.kv.key && u.data == l.kv.data
  {
    hide IpVals;
    hide IpVal;
    if k.Hint? {
      var vs := IpVals(k.hint.hint, objs);
      assert forall i | 0 <= i < |vs| :: vs[i] == IpVal(k.hint.hint[i], objs) == IpVal(l.hint.hint[i], objs);
    }
  }

  lemma OptTellsAll(o: Opt, p: Opt, objs: set<object>)
    requires OptIn(o, objs) && OptIn(p, objs) && OptVal(o, objs) == OptVal(p, objs)
    ensures match o
            case Subnet(s) =>
              && p.Subnet? && s.family == p.subnet.family && s.netmask == p.subnet.netmask && s.scope == p.subnet.scope
              && IpVal(s.address, objs) == IpVal(p.subnet.address, objs)
            case Ede(e) => p.Ede? && e.infoCode == p.ede.infoCode && e.extraText == p.ede.extraText
            case UnknownOpt(u) => p.UnknownOpt? && u.code == p.opt.code && u.data == p.opt.data
  {
    hide IpVal;
  }

  lemma IpTellsAll(a: Ip, b: Ip, objs: set<object>)
    requires IpIn(a, objs) && IpIn(b, objs) && IpVal(a, objs) == IpVal(b, objs)
    ensures a.len == b.len && a.arr[a.off..a.off + a.len] == b.arr[b.off..b.off + b.len]
  {
    assert |IpVal(a, objs)| == a.len && |IpVal(b, objs)| == b.len;
  }

  lemma RrTellsAll(r: RR, s: RR, objs: set<object>)
    requires RrIn(r, objs) && RrIn(s, objs) && RrVal(r, objs) == RrVal(s, objs)
    ensures match r
            case A(a) => s.A? && a.hdr == s.a.hdr && IpVal(a.ip, objs) == IpVal(s.a.ip, objs)
            case Txt(t) =>
              && s.Txt? && t.hdr == s.txt.hdr && t.txt.len == s.txt.txt.len
              && t.txt.arr[..t.txt.len] == s.txt.txt.arr[..s.txt.txt.len]
            case Soa(o) =>
              && s.Soa? && o.hdr == s.soa.hdr && o.mname == s.soa.mname && o.rname == s.soa.rname
              && o.serial == s.soa.serial && o.minTtl == s.soa.minTtl
            case Https(h) =>
              && s.Https? && h.hdr == s.https.hdr && h.priority == s.https.priority && h.target == s.https.target
              && |h.value| == |s.https.value|
              && forall j | 0 <= j < |h.value| :: KvVal(h.value[j], objs) == KvVal(s.https.value[j], objs)
            case OptRr(o) =>
              && s.OptRr? && o.hdr == s.opt.hdr && |o.options| == |s.opt.options|
              && forall j | 0 <= j < |o.options| :: OptVal(o.options[j], objs) == OptVal(s.opt.options[j], objs)
            case Other(u) => s.Other? && u.hdr == s.other.hdr && u.kind == s.other.kind && u.data == s.other.data
  {
    hide KvVal;
    hide OptVal;
    hide KvVals;
    hide OptVals;
    hide IpVal;
    if r.Https? {
      var vs := KvVals(r.https.value, objs);
      assert forall j | 0 <= j < |vs| :: vs[j] == KvVal(r.https.value[j], objs) == KvVal(s.https.value[j], objs);
    } else if r.Txt? {
      assert |StringsVal(r.txt.txt, objs)| == r.txt.txt.len && |StringsVal(s.txt.txt, objs)| == s.txt.txt.len;
    } else if r.OptRr? {
      var vs := OptVals(r.opt.options, objs);
      assert forall j | 0 <= j < |vs| :: vs[j] == OptVal(r.opt.options[j], objs) == OptVal(s.opt.options[j], objs);
    }
  }

  ghost predicate RrsIn(rs: seq<RR>, objs: set<object>)
    reads objs
  {
    forall i | 0 <= i < |rs| :: RrIn(rs[i], objs)
  }

  ghost function RrVals(rs: seq<RR>, objs: set<object>): (vs: seq<Record>)
    requires RrsIn(rs, objs)
    reads objs
    ensures |vs| == |rs|
    ensures forall i | 0 <= i < |rs| :: vs[i] == RrVal(rs[i], objs)
  {
    if rs == [] then [] else RrVals(rs[..|rs| - 1], objs) + [RrVal(rs[|rs| - 1], objs)]
  }

  // ----- ownership

  /** Where an object stands in a message: the slots of a section, a record, a value or option, an address. */
  datatype Place =
    | Top
    | SlotsOf(which: nat)
    | RrAt(sec: nat, i: nat)
    | StoreOf(sec: nat, i: nat)
    | PartAt(sec: nat, i: nat, j: nat)
    | IpAt(sec: nat, i: nat, j: nat, k: nat)

  predicate InSection(p: Place, sec: nat) {
    !p.Top? && !p.SlotsOf? && p.sec == sec
  }

  predicate InRr(p: Place, sec: nat, i: nat) {
    InSection(p, sec) && p.i == i
  }

  predicate InPart(p: Place, sec: nat, i: nat, j: nat) {
    InRr(p, sec, i) && (p.PartAt? || p.IpAt?) && p.j == j
  }

  predicate IsIpAt(p: Place, sec: nat, i: nat, j: nat) {
    InPart(p, sec, i, j) && p.IpAt?
  }

  predicate PartBefore(p: Place, j: nat) {
    (p.PartAt? || p.IpAt?) && p.j < j
  }

  type Places = map<object, Place>

  ghost predicate At(o: object, p: Place, places: Places) {
    o in places && places[o] == p
  }

  /** An address that goes back to the pool has its array to itself; others may share one within their hint. */
  ghost predicate HintPlaced(ip: Ip, sec: nat, i: nat, j: nat, k: nat, places: Places) {
    && ip.arr in places && IsIpAt(places[ip.arr], sec, i, j)
    && (HasRoom(ip) ==> places[ip.arr] == IpAt(sec, i, j, k))
  }

  ghost predicate KvPlaced(kv: KV, sec: nat, i: nat, j: nat, places: Places)
    reads places.Keys
  {
    match kv
    case Alpn(k) => At(k, PartAt(sec, i, j), places)
    case Hint(_, h) =>
      && At(h, PartAt(sec, i, j), places)
      && forall k: nat | k < |h.hint| :: HintPlaced(h.hint[k], sec, i, j, k, places)
    case NoDefaultAlpn => true
    case UnknownKv(k) => At(k, PartAt(sec, i, j), places)
  }

  ghost predicate OptPlaced(o: Opt, sec: nat, i: nat, j: nat, places: Places)
    reads places.Keys
  {
    match o
    case Subnet(s) => At(s, PartAt(sec, i, j), places) && At(s.address.arr, IpAt(sec, i, j, 0), places)
    case Ede(e) => At(e, PartAt(sec, i, j), places)
    case UnknownOpt(u) => At(u, PartAt(sec, i, j), places)
  }

  ghost predicate RrPlaced(r: RR, sec: nat, i: nat, places: Places)
    reads places.Keys
  {
    match r
    case A(a) => At(a, RrAt(sec, i), places) && At(a.ip.arr, StoreOf(sec, i), places)
    case Txt(t) => At(t, RrAt(sec, i), places) && At(t.txt.arr, StoreOf(sec, i), places)
    case Soa(s) => At(s, RrAt(sec, i), places)
    case Https(h) =>
      && At(h, RrAt(sec, i), places)
      && forall j: nat | j < |h.value| :: KvPlaced(h.value[j], sec, i, j, places)
    case OptRr(o) =>
      At(o, RrAt(sec, i), places) && forall j: nat | j < |o.options| :: OptPlaced(o.options[j], sec, i, j, places)
    case Other(u) => At(u, RrAt(sec, i), places)
  }

  ghost predicate RrsPlaced(rs: seq<RR>, sec: nat, places: Places)
    reads places.Keys
  {
    forall i: nat | i < |rs| :: RrPlaced(rs[i], sec, i, places)
  }

  // ----- messages

  /** The slice of the records of a section. */
  datatype Section = Section(arr: array<RR>, len: nat)

  ghost predicate SlotsIn(s: Section, objs: set<object>) {
    s.arr in objs && s.len <= s.arr.Length
  }

  function Rrs(s: Section): seq<RR>
    requires s.len <= s.arr.Length
    reads s.arr
  {
    s.arr[..s.len]
  }

  class Msg {
    var hdr: MsgHeader
    var question: seq<Question>
    var answer: Section
    var ns: Section
    var extra: Section

    /** The objects of the message, each with its one place. */
    ghost var places: Places

    constructor (hdr: MsgHeader, question: seq<Question>)
      ensures this.hdr == hdr && this.question == question
      ensures fresh(answer.arr) && fresh(ns.arr) && fresh(extra.arr)
      ensures answer.arr != ns.arr && answer.arr != extra.arr && ns.arr != extra.arr
    {
      this.hdr, this.question := hdr, question;
      var a, n, e := new RR[0], new RR[0], new RR[0];
      answer, ns, extra := Section(a, 0), Section(n, 0), Section(e, 0);
      places := map[];
    }

    method Fill(
      hdr: MsgHeader, question: seq<Question>, answer: Section, ns: Section, extra: Section, ghost places: Places)
      modifies this
      ensures this.hdr == hdr && this.question == question
      ensures this.answer == answer && this.ns == ns && this.extra == extra && this.places == places
    {
      this.hdr, this.question, this.answer, this.ns, this.extra := hdr, question, answer, ns, extra;
      this.places := places;
    }

    ghost predicate HasSlots(objs: set<object>)
      reads this
    {
      SlotsIn(answer, objs) && SlotsIn(ns, objs) && SlotsIn(extra, objs)
    }

    ghost predicate In(objs: set<object>)
      reads this, objs
    {
      HasSlots(objs) && RrsIn(Rrs(answer), objs) && RrsIn(Rrs(ns), objs) && RrsIn(Rrs(extra), objs)
    }

    ghost function Val(objs: set<object>): MsgVal
      requires In(objs)
      reads this, objs
    {
      MsgVal(hdr, question, RrVals(Rrs(answer), objs), RrVals(Rrs(ns), objs), RrVals(Rrs(extra), objs))
    }

    ghost predicate SlotsPlaced(places: Places)
      reads this
    {
      At(answer.arr, SlotsOf(0), places) && At(ns.arr, SlotsOf(1), places) && At(extra.arr, SlotsOf(2), places)
    }

    /** Every part stands at one place and belongs to this message. */
    ghost predicate Owned()
      reads this, places.Keys
    {
      && At(this, Top, places) && SlotsPlaced(places)
      && In(places.Keys)
      && RrsPlaced(Rrs(answer), 0, places) && RrsPlaced(Rrs(ns), 1, places) && RrsPlaced(Rrs(extra), 2, places)
    }
  }

  // ----- copies

  ghost predicate IpCopy(ip: Ip, orig: Ip, objs: set<object>, p: Place, pl: Places)
    reads objs, pl.Keys
  {
    && IpIn(orig, objs) && IpIn(ip, pl.Keys)
    && At(ip.arr, p, pl)
    && IpVal(ip, pl.Keys) == IpVal(orig, objs)
  }

  ghost predicate IpsCopy(ips: seq<Ip>, orig: seq<Ip>, objs: set<object>, sec: nat, i: nat, j: nat, pl: Places)
    reads objs, pl.Keys
  {
    |ips| == |orig| && forall k: nat | k < |ips| :: IpCopy(ips[k], orig[k], objs, IpAt(sec, i, j, k), pl)
  }

  /** kv says what orig says and stands alone at its place. */
  ghost predicate KvCopy(kv: KV, orig: KV, objs: set<object>, sec: nat, i: nat, j: nat, pl: Places)
    reads objs, pl.Keys
  {
    && KvIn(orig, objs) && KvIn(kv, pl.Keys)
    && KvPlaced(kv, sec, i, j, pl)
    && KvVal(kv, pl.Keys) == KvVal(orig, objs)
  }

  ghost predicate KvsCopy(kvs: seq<KV>, orig: seq<KV>, objs: set<object>, sec: nat, i: nat, pl: Places)
    reads objs, pl.Keys
  {
    |kvs| == |orig| && forall j: nat | j < |kvs| :: KvCopy(kvs[j], orig[j], objs, sec, i, j, pl)
  }

  ghost predicate OptCopy(o: Opt, orig: Opt, objs: set<object>, sec: nat, i: nat, j: nat, pl: Places)
    reads objs, pl.Keys
  {
    && OptIn(orig, objs) && OptIn(o, pl.Keys)
    && OptPlaced(o, sec, i, j, pl)
    && OptVal(o, pl.Keys) == OptVal(orig, objs)
  }

  ghost predicate OptsCopy(os: seq<Opt>, orig: seq<Opt>, objs: set<object>, sec: nat, i: nat, pl: Places)
    reads objs, pl.Keys
  {
    |os| == |orig| && forall j: nat | j < |os| :: OptCopy(os[j], orig[j], objs, sec, i, j, pl)
  }

  ghost predicate RrCopy(r: RR, orig: RR, objs: set<object>, sec: nat, i: nat, pl: Places)
    reads objs, pl.Keys
  {
    && RrIn(orig, objs) && RrIn(r, pl.Keys)
    && RrPlaced(r, sec, i, pl)
    && RrVal(r, pl.Keys) == RrVal(orig, objs)
  }

  ghost predicate RrsCopy(rs: seq<RR>, orig: seq<RR>, objs: set<object>, sec: nat, pl: Places)
    reads objs, pl.Keys
  {
    |rs| == |orig| && forall i: nat | i < |rs| :: RrCopy(rs[i], orig[i], objs, sec, i, pl)
  }

  // ----- growing the set of objects changes nothing

  lemma KvMono(kv: KV, small: set<object>, big: set<object>)
    requires small <= big && KvIn(kv, small)
    ensures KvIn(kv, big) && KvVal(kv, big) == KvVal(kv, small)
  {
  }

  lemma OptMono(o: Opt, small: set<object>, big: set<object>)
    requires small <= big && OptIn(o, small)
    ensures OptIn(o, big) && OptVal(o, big) == OptVal(o, small)
  {
  }

  lemma RrMono(r: RR, small: set<object>, big: set<object>)
    requires small <= big && RrIn(r, small)
    ensures RrIn(r, big) && RrVal(r, big) == RrVal(r, small)
  {
    if r.Https? {
      forall j | 0 <= j < |r.https.value|
        ensures
          && KvIn(r.https.value[j], big)
          && KvVal(r.https.value[j], big) == KvVal(r.https.value[j], small)
      {
        KvMono(r.https.value[j], small, big);
      }
    } else if r.OptRr? {
      forall j | 0 <= j < |r.opt.options|
        ensures
          && OptIn(r.opt.options[j], big)
          && OptVal(r.opt.options[j], big) == OptVal(r.opt.options[j], small)
      {
        OptMono(r.opt.options[j], small, big);
      }
    }
  }

  lemma RrsMono(rs: seq<RR>, small: set<object>, big: set<object>)
    requires small <= big && RrsIn(rs, small)
    ensures RrsIn(rs, big) && RrVals(rs, big) == RrVals(rs, small)
  {
    forall i | 0 <= i < |rs| ensures RrIn(rs[i], big) && RrVal(rs[i], big) == RrVal(rs[i], small) {
      RrMono(rs[i], small, big);
    }
  }

  /** Extending a placement by other objects. */
  ghost predicate Extends(big: Places, small: Places) {
    small.Keys <= big.Keys && forall o | o in small :: big[o] == small[o]
  }

  lemma IpsCopyMono(
    ips: seq<Ip>, orig: seq<Ip>, objs: set<object>, sec: nat, i: nat, j: nat, small: Places, big: Places)
    requires Extends(big, small) && IpsCopy(ips, orig, objs, sec, i, j, small)
    ensures IpsCopy(ips, orig, objs, sec, i, j, big)
  {
  }

  lemma IpsCopySnoc(
    ips: seq<Ip>, orig: seq<Ip>, objs: set<object>, sec: nat, i: nat, j: nat, small: Places, big: Places, ip: Ip)
    requires Extends(big, small) && |ips| < |orig| && IpsCopy(ips, orig[..|ips|], objs, sec, i, j, small)
    requires IpCopy(ip, orig[|ips|], objs, IpAt(sec, i, j, |ips|), big)
    ensures IpsCopy(ips + [ip], orig[..|ips| + 1], objs, sec, i, j, big)
  {
    IpsCopyMono(ips, orig[..|ips|], objs, sec, i, j, small, big);
    hide IpCopy;
  }

  lemma HintAssembled(v6: bool, h: HintKv, orig: HintKv, objs: set<object>, sec: nat, i: nat, j: nat,
    small: Places, big: Places)
    requires orig in objs && Extends(big, small) && At(h, PartAt(sec, i, j), big)
    requires IpsCopy(h.hint, orig.hint, objs, sec, i, j, small)
    ensures KvCopy(Hint(v6, h), Hint(v6, orig), objs, sec, i, j, big)
  {
    IpsCopyMono(h.hint, orig.hint, objs, sec, i, j, small, big);
    forall k: nat | k < |h.hint|
      ensures
        && IpIn(h.hint[k], big.Keys)
        && IpIn(orig.hint[k], objs)
        && At(h.hint[k].arr, IpAt(sec, i, j, k), big)
        && IpVal(h.hint[k], big.Keys) == IpVal(orig.hint[k], objs)
    {
      assert IpCopy(h.hint[k], orig.hint[k], objs, IpAt(sec, i, j, k), big);
    }
    hide IpCopy;
    hide IpVal;
    hide IpIn;
  }

  lemma KvCopyMono(kv: KV, orig: KV, objs: set<object>, sec: nat, i: nat, j: nat, small: Places, big: Places)
    requires Extends(big, small) && KvCopy(kv, orig, objs, sec, i, j, small)
    ensures KvCopy(kv, orig, objs, sec, i, j, big)
  {
    KvMono(kv, small.Keys, big.Keys);
  }

  lemma KvsCopyMono(kvs: seq<KV>, orig: seq<KV>, objs: set<object>, sec: nat, i: nat, small: Places, big: Places)
    requires Extends(big, small) && KvsCopy(kvs, orig, objs, sec, i, small)
    ensures KvsCopy(kvs, orig, objs, sec, i, big)
  {
    forall j: nat | j < |kvs| ensures KvCopy(kvs[j], orig[j], objs, sec, i, j, big) {
      KvCopyMono(kvs[j], orig[j], objs, sec, i, j, small, big);
    }
  }

  lemma OptCopyMono(o: Opt, orig: Opt, objs: set<object>, sec: nat, i: nat, j: nat, small: Places, big: Places)
    requires Extends(big, small) && OptCopy(o, orig, objs, sec, i, j, small)
    ensures OptCopy(o, orig, objs, sec, i, j, big)
  {
    OptMono(o, small.Keys, big.Keys);
  }

  lemma OptsCopyMono(os: seq<Opt>, orig: seq<Opt>, objs: set<object>, sec: nat, i: nat, small: Places, big: Places)
    requires Extends(big, small) && OptsCopy(os, orig, objs, sec, i, small)
    ensures OptsCopy(os, orig, objs, sec, i, big)
  {
    forall j: nat | j < |os| ensures OptCopy(os[j], orig[j], objs, sec, i, j, big) {
      OptCopyMono(os[j], orig[j], objs, sec, i, j, small, big);
    }
  }

  /** A record with the fields of rr and copies of its values is a copy of rr. */
  lemma HttpsAssembled(h: HttpsRec, rr: HttpsRec, objs: set<object>, sec: nat, i: nat, small: Places, big: Places)
    requires rr in objs && Extends(big, small) && At(h, RrAt(sec, i), big)
    requires h.hdr == rr.hdr && h.priority == rr.priority && h.target == rr.target
    requires KvsCopy(h.value, rr.value, objs, sec, i, small)
    ensures RrCopy(Https(h), Https(rr), objs, sec, i, big)
  {
    KvsCopyMono(h.value, rr.value, objs, sec, i, small, big);
    forall j: nat | j < |h.value|
      ensures
        && KvIn(h.value[j], big.Keys)
        && KvIn(rr.value[j], objs)
        && KvPlaced(h.value[j], sec, i, j, big)
        && KvVal(h.value[j], big.Keys) == KvVal(rr.value[j], objs)
    {
      assert KvCopy(h.value[j], rr.value[j], objs, sec, i, j, big);
    }
    hide KvIn;
    hide KvVal;
    hide KvPlaced;
  }

  lemma OptAssembled(o: OptRec, rr: OptRec, objs: set<object>, sec: nat, i: nat, small: Places, big: Places)
    requires rr in objs && Extends(big, small) && At(o, RrAt(sec, i), big)
    requires o.hdr == rr.hdr
    requires OptsCopy(o.options, rr.options, objs, sec, i, small)
    ensures RrCopy(OptRr(o), OptRr(rr), objs, sec, i, big)
  {
    OptsCopyMono(o.options, rr.options, objs, sec, i, small, big);
    forall j: nat | j < |o.options|
      ensures
        && OptIn(o.options[j], big.Keys)
        && OptIn(rr.options[j], objs)
        && OptPlaced(o.options[j], sec, i, j, big)
        && OptVal(o.options[j], big.Keys) == OptVal(rr.options[j], objs)
    {
      assert OptCopy(o.options[j], rr.options[j], objs, sec, i, j, big);
    }
    hide OptIn;
    hide OptVal;
    hide OptPlaced;
  }

  lemma RrPlacedMono(r: RR, sec: nat, i: nat, small: Places, big: Places)
    requires Extends(big, small) && RrPlaced(r, sec, i, small)
    ensures RrPlaced(r, sec, i, big)
  {
  }

  lemma RrCopyMono(r: RR, orig: RR, objs: set<object>, sec: nat, i: nat, small: Places, big: Places)
    requires Extends(big, small) && RrCopy(r, orig, objs, sec, i, small)
    ensures RrCopy(r, orig, objs, sec, i, big)
  {
    RrMono(r, small.Keys, big.Keys);
    RrPlacedMono(r, sec, i, small, big);
    hide RrIn;
    hide RrVal;
    hide RrPlaced;
  }

  lemma RrsCopyMono(rs: seq<RR>, orig: seq<RR>, objs: set<object>, sec: nat, small: Places, big: Places)
    requires Extends(big, small) && RrsCopy(rs, orig, objs, sec, small)
    ensures RrsCopy(rs, orig, objs, sec, big)
  {
    forall i: nat | i < |rs| ensures RrCopy(rs[i], orig[i], objs, sec, i, big) {
      RrCopyMono(rs[i], orig[i], objs, sec, i, small, big);
    }
  }

  /** A section of copies says what the original section says. */
  lemma RrsCopyMeans(rs: seq<RR>, orig: seq<RR>, objs: set<object>, sec: nat, pl: Places)
    requires RrsCopy(rs, orig, objs, sec, pl)
    ensures RrsIn(rs, pl.Keys) && RrsIn(orig, objs) && RrsPlaced(rs, sec, pl)
    ensures RrVals(rs, pl.Keys) == RrVals(orig, objs)
  {
    hide RrIn;
    hide RrVal;
    hide RrPlaced;
    hide RrVals;
    forall i: nat | i < |rs|
      ensures
        && RrIn(rs[i], pl.Keys)
        && RrIn(orig[i], objs)
        && RrPlaced(rs[i], sec, i, pl)
        && RrVal(rs[i], pl.Keys) == RrVal(orig[i], objs)
    {
      assert RrCopy(rs[i], orig[i], objs, sec, i, pl);
    }
  }

  ghost predicate SectionsCopy(answer: seq<RR>, ns: seq<RR>, extra: seq<RR>, orig: Msg, objs: set<object>, pl: Places)
    reads orig, objs, pl.Keys
  {
    && orig.HasSlots(objs)
    && RrsCopy(answer, Rrs(orig.answer), objs, 0, pl) && RrsCopy(ns, Rrs(orig.ns), objs, 1, pl)
    && RrsCopy(extra, Rrs(orig.extra), objs, 2, pl)
  }

  /** The message owns its parts and says what orig says. */
  ghost predicate MsgCopy(m: Msg, orig: Msg, objs: set<object>)
    reads m, m.places.Keys, orig, objs
  {
    m.Owned() && orig.In(objs) && m.Val(m.places.Keys) == orig.Val(objs)
  }

  /** A message with the header of msg and copies of its sections is a copy of msg. */
  lemma MsgAssembled(m: Msg, msg: Msg, objs: set<object>, pl: Places)
    requires m.hdr == msg.hdr && m.question == msg.question
    requires At(m, Top, m.places) && Extends(m.places, pl) && m.SlotsPlaced(m.places) && m.HasSlots(m.places.Keys)
    requires SectionsCopy(Rrs(m.answer), Rrs(m.ns), Rrs(m.extra), msg, objs, pl)
    ensures MsgCopy(m, msg, objs)
  {
    hide RrsCopy;
    hide RrsIn;
    hide RrVals;
    hide RrsPlaced;
    RrsCopyMono(Rrs(m.answer), Rrs(msg.answer), objs, 0, pl, m.places);
    RrsCopyMono(Rrs(m.ns), Rrs(msg.ns), objs, 1, pl, m.places);
    RrsCopyMono(Rrs(m.extra), Rrs(msg.extra), objs, 2, pl, m.places);
    RrsCopyMeans(Rrs(m.answer), Rrs(msg.answer), objs, 0, m.places);
    RrsCopyMeans(Rrs(m.ns), Rrs(msg.ns), objs, 1, m.places);
    RrsCopyMeans(Rrs(m.extra), Rrs(msg.extra), objs, 2, m.places);
  }

  // ----- what goes back to the pools

  ghost predicate KvReturned(kv: KV, sec: nat, i: nat, j: nat, pl: Places, pooled: set<object>)
    requires KvPlaced(kv, sec, i, j, pl)
    reads pl.Keys
  {
    match kv
    case Alpn(k) => k in pooled
    case Hint(_, h) => h in pooled && forall k: nat | k < |h.hint| && HasRoom(h.hint[k]) :: h.hint[k].arr in pooled
    case NoDefaultAlpn => true
    case UnknownKv(_) => true
  }

  ghost predicate OptReturned(o: Opt, pooled: set<object>) {
    match o
    case Subnet(s) => s in pooled
    case Ede(e) => e in pooled
    case UnknownOpt(_) => true
  }

  /** The records of a kind that the section's pools take, with their values and options. */
  ghost predicate RrReturned(r: RR, sec: nat, i: nat, pl: Places, pooled: set<object>)
    requires RrPlaced(r, sec, i, pl)
    reads pl.Keys
  {
    match r
    case A(a) => sec == 0 ==> a in pooled
    case Txt(t) => sec == 0 ==> t in pooled
    case Https(h) =>
      sec == 0 ==> h in pooled && forall j: nat | j < |h.value| :: KvReturned(h.value[j], sec, i, j, pl, pooled)
    case Soa(s) => sec == 1 ==> s in pooled
    case OptRr(o) => sec == 2 ==> o in pooled && forall j: nat | j < |o.options| :: OptReturned(o.options[j], pooled)
    case Other(_) => true
  }

  ghost predicate RrsReturned(rs: seq<RR>, sec: nat, pl: Places, pooled: set<object>)
    requires RrsPlaced(rs, sec, pl)
    reads pl.Keys
  {
    forall i: nat | i < |rs| :: RrReturned(rs[i], sec, i, pl, pooled)
  }

  lemma RrReturnedMono(r: RR, sec: nat, i: nat, pl: Places, small: set<object>, big: set<object>)
    requires RrPlaced(r, sec, i, pl) && small <= big && RrReturned(r, sec, i, pl, small)
    ensures RrReturned(r, sec, i, pl, big)
  {
  }

  lemma RrsReturnedMono(rs: seq<RR>, sec: nat, pl: Places, small: set<object>, big: set<object>)
    requires RrsPlaced(rs, sec, pl) && small <= big && RrsReturned(rs, sec, pl, small)
    ensures RrsReturned(rs, sec, pl, big)
  {
    hide RrReturned;
    hide RrPlaced;
    forall i: nat | i < |rs| ensures RrReturned(rs[i], sec, i, pl, big) {
      assert RrPlaced(rs[i], sec, i, pl);
      RrReturnedMono(rs[i], sec, i, pl, small, big);
    }
  }
}
