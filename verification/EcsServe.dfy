/**
  How the ECS cache serves one request (internal/ecscache/ecscache.go): the
  request it sends upstream, what it keeps of the answer, and what a client gets
  to see of it later.
 */
module EcsServe {
  import opened Wrappers
  import opened Bytes
  import opened NetIp
  import opened DnsValues
  import opened MsgOps
  import opened EcsOption
  import opened LruCache
  import opened EcsCache

  // ----- names

  function LowerChar(c: char): char {
    if 'A' <= c <= 'Z' then c - 'A' + 'a' else c
  }

  function LowerString(s: string): (r: string)
    ensures |r| == |s|
    ensures forall i | 0 <= i < |s| :: r[i] == LowerChar(s[i])
  {
    seq(|s|, i requires 0 <= i < |s| => LowerChar(s[i]))
  }

  /** agdnet.NormalizeDomain, for the ASCII names of DNS. */
  function NormalizeDomain(fqdn: string): string {
    LowerString(if fqdn != "" && fqdn[|fqdn| - 1] == '.' then fqdn[..|fqdn| - 1] else fqdn)
  }

  ghost predicate FakeHost(host: string, conf: Config) {
    exists f | f in conf.fakes :: NormalizeDomain(f) == host
  }

  predicate IsFqdn(name: string) {
    name != "" && name[|name| - 1] == '.'
  }

  lemma LowerFqdn(f: string)
    requires IsFqdn(f) && LowerString(f) == f
    ensures NormalizeDomain(f) == f[..|f| - 1]
  {
    forall i | 0 <= i < |f| - 1 ensures LowerChar(f[i]) == f[i] {
      assert LowerString(f)[i] == LowerChar(f[i]);
    }
  }

  /** The list is searched with the name as the client spelt it, so only an all-lower-case spelling is found. */
  lemma FakeIff(scope: Byte, fqdn: string, conf: Config)
    requires forall f | f in conf.fakes :: IsFqdn(f) && LowerString(f) == f
    requires IsFqdn(fqdn)
    ensures RespIsEcsDependent(scope, fqdn, conf) <==>
            scope != 0 && !(FakeHost(NormalizeDomain(fqdn), conf) && LowerString(fqdn) == fqdn)
  {
    hide LowerString;
    hide NormalizeDomain;
    if FakeHost(NormalizeDomain(fqdn), conf) && LowerString(fqdn) == fqdn {
      var f :| f in conf.fakes && NormalizeDomain(f) == NormalizeDomain(fqdn);
      LowerFqdn(f);
      LowerFqdn(fqdn);
      assert f == f[..|f| - 1] + ['.'] && fqdn == fqdn[..|fqdn| - 1] + ['.'];
    }
  }

  /** A name of the list is found as listed and missed with a capital letter, although it is the same host. */
  lemma CapitalIsMissed(scope: Byte, conf: Config)
    requires scope != 0 && "07073.com." in conf.fakes && "07073.Com." !in conf.fakes
    ensures NormalizeDomain("07073.Com.") == NormalizeDomain("07073.com.")
    ensures !RespIsEcsDependent(scope, "07073.com.", conf) && RespIsEcsDependent(scope, "07073.Com.", conf)
  {
    assert "07073.Com."[..9] == "07073.Com" && "07073.com."[..9] == "07073.com";
  }

  // ----- what a message says apart from its TTLs

  /** A record without its TTL and the spelling of its owner's name. */
  function Plainly(r: Record): Record {
    r.(hdr := r.hdr.(name := NormalizeDomain(r.hdr.name), ttl := 0))
  }

  function AllPlainly(rs: seq<Record>): seq<Record> {
    seq(|rs|, i requires 0 <= i < |rs| => Plainly(rs[i]))
  }

  datatype Content = Content(rcode: nat, answer: seq<Record>, ns: seq<Record>, extra: seq<Record>)

  function ContentOf(m: MsgVal): Content {
    Content(m.hdr.rcode, AllPlainly(m.answer), AllPlainly(m.ns), AllPlainly(m.extra))
  }

  lemma ReTtl(rs: seq<Record>, ttl: nat)
    ensures AllPlainly(AllWithTtl(rs, ttl)) == AllPlainly(rs)
  {
    hide NormalizeDomain;
    forall i | 0 <= i < |rs| ensures Plainly(WithTtl(rs[i], ttl)) == Plainly(rs[i]) {
    }
  }

  lemma RaisedContent(m: MsgVal, conf: Config)
    ensures ContentOf(Raised(m, conf)) == ContentOf(m)
  {
    hide LowestTtl;
    hide NormalizeDomain;
    if Overrides(m, conf) {
      var out := Raised(m, conf);
      forall i | 0 <= i < |m.answer| ensures Plainly(out.answer[i]) == Plainly(m.answer[i]) {
      }
      assert AllPlainly(out.answer) == AllPlainly(m.answer);
    }
  }

  // ----- the location

  /** The location of the client's option, or an empty one. */
  function EcsLocation(ri: RequestInfo): Location {
    if ri.ecs.Some? && ri.ecs.value.location.Some? then ri.ecs.value.location.value else Location("", "", 0)
  }

  /** The subdivision is one of the country, by either location. */
  ghost predicate IsCoherent(l: Location, ri: RequestInfo) {
    || l.topSubdivision == ""
    || (l.country, l.topSubdivision) == (EcsLocation(ri).country, EcsLocation(ri).topSubdivision)
    || (ri.location.Some? &&
        (l.country, l.topSubdivision) == (ri.location.value.country, ri.location.value.topSubdivision))
  }

  /**
    GeoIP is asked for a subdivision of another country exactly if the option's
    location has a subdivision and no country, and the client's own location has a
    country and not that subdivision.
   */
  lemma LocationIsCoherentIff(ri: RequestInfo)
    ensures !IsCoherent(LocFromReq(ri), ri) <==>
            && EcsLocation(ri).country == "" && EcsLocation(ri).topSubdivision != ""
            && ri.location.Some? && ri.location.value.country != ""
            && ri.location.value.topSubdivision != EcsLocation(ri).topSubdivision
  {
  }

  /**
    The place GeoIP is asked about, and the address family: country and ASN are
    those of the option's location if it has a country, and otherwise those of the
    client's own location; the subdivision is the option's.
   */
  ghost predicate GeoQuery(ri: RequestInfo, l: Location, f: Family) {
    var located := ri.ecs.Some? && ri.ecs.value.location.Some?;
    && (if located && ri.ecs.value.location.value.country != "" then
          l.country == ri.ecs.value.location.value.country && l.asn == ri.ecs.value.location.value.asn
        else if ri.location.Some? then l.country == ri.location.value.country && l.asn == ri.location.value.asn
        else l.country == "" && l.asn == if located then ri.ecs.value.location.value.asn else 0)
    && l.topSubdivision == (if located then ri.ecs.value.location.value.topSubdivision else "")
    && (f == IPv4 <==> if ri.ecs.Some? then ri.ecs.value.subnet.ip.V4? else ri.remoteIp.V4?)
  }

  lemma GeoQueryIff(ri: RequestInfo, l: Location, f: Family)
    ensures GeoQuery(ri, l, f) <==> l == LocFromReq(ri) && f == EcsFamFromReq(ri)
  {
  }

  // ----- the upstream request

  /** The request info was read from the request itself. */
  ghost predicate ReadFrom(ri: RequestInfo, req: MsgVal) {
    match EcsFromMsg(req)
    case Err(_) => false
    case Ok(None) => ri.ecs.None?
    case Ok(Some(v)) => ri.ecs.Some? && ri.ecs.value.subnet == v.0
  }

  lemma ReadIsMasked(ri: RequestInfo, req: MsgVal)
    requires ReadFrom(ri, req) && ri.ecs.Some?
    ensures IsMasked(ri.ecs.value.subnet) && FamilyOf(ri.ecs.value.subnet.ip) == Some(EcsFamFromReq(ri))
    ensures FamilyAgrees(req, EcsFamFromReq(ri))
  {
    hide Pow2;
    hide LastOpt;
    hide FirstSubnet;
    hide IpToAddr;
  }

  lemma NoOptionAgrees(req: MsgVal, f: Family)
    requires EcsFromMsg(req) == Ok(None)
    ensures FamilyAgrees(req, f)
  {
    hide Pow2;
    hide LastOpt;
    hide FirstSubnet;
    hide EcsData;
  }

  /** The DO bit of the upstream request: the client's, or set if the client sent no OPT record. */
  predicate SentDo(req: MsgVal) {
    IsDo(req) || LastOpt(req.extra) == |req.extra|
  }

  lemma SentDoIs(req: MsgVal, subnet: Prefix, f: Family)
    requires IsValid(subnet) && SetEcs(req, subnet, f, false).Ok?
    ensures IsDo(SetEcs(req, subnet, f, false).value) == SentDo(req)
  {
    hide Pow2;
    hide ToBytes;
    hide LastOpt;
    hide FirstSubnet;
    var out := SetEcs(req, subnet, f, false).value;
    LastOptIs(out.extra, LastOpt(req.extra));
  }

  /**
    The upstream is asked with exactly the subnet of the cache request, whatever
    option the client's own request carried.
   */
  lemma UpstreamSeesSubnet(ri: RequestInfo, req: MsgVal, cr: CacheRequest)
    requires ReadFrom(ri, req)
    ensures
      var f := EcsFamFromReq(ri);
      var sent := SetEcs(req, cr.subnet, f, false);
      && (sent.Ok? <==> FamilyOf(cr.subnet.ip) == Some(f))
      && (sent.Ok? ==>
            && (EcsFromMsg(sent.value) == Ok(Some((cr.subnet, 0))) <==> IsMasked(cr.subnet))
            && IsDo(sent.value) == SentDo(req))
  {
    var f := EcsFamFromReq(ri);
    SetEcsFailsIff(req, cr.subnet, f, false);
    if FamilyOf(cr.subnet.ip) == Some(f) {
      if ri.ecs.Some? {
        ReadIsMasked(ri, req);
      } else {
        NoOptionAgrees(req, f);
      }
      EcsRoundTripIff(req, cr.subnet, f, false);
      SentDoIs(req, cr.subnet, f);
    }
    hide *;
  }

  lemma ZeroPrefixIsMasked(f: Family)
    ensures IsMasked(ZeroPrefix(f))
  {
    hide Pow2;
  }

  /** On behalf of a client that declined, the upstream is told nothing but the family. */
  lemma DeclinedDisclosesNothing(ri: RequestInfo, req: MsgVal, geo: GeoIp)
    requires ReadFrom(ri, req) && ri.ecs.Some? && ri.ecs.value.subnet.bits == 0
    ensures
      var f := EcsFamFromReq(ri);
      var cr := BuildRequest(ri, req, geo);
      && cr.Some?
      && var sent := SetEcs(req, cr.value.subnet, f, false);
         sent.Ok? && EcsFromMsg(sent.value) == Ok(Some((ZeroPrefix(f), 0)))
  {
    var f := EcsFamFromReq(ri);
    var cr := BuildRequest(ri, req, geo).value;
    assert cr.subnet == ZeroPrefix(f);
    ZeroPrefixIsMasked(f);
    UpstreamSeesSubnet(ri, req, cr);
    hide *;
  }

  // ----- exchanges with the upstream

  /** A request that was sent upstream on behalf of cr, and its answer; fqdn is the name as the client spelt it. */
  datatype Exchange = Exchange(cr: CacheRequest, fqdn: string, sent: MsgVal, answer: MsgVal, when: int)

  function Clean(x: Exchange): MsgVal {
    RmHopToHop(x.answer, x.cr.qType, x.cr.reqDo)
  }

  /** The scope of the subnet option of a response, zero if there is none. */
  function ScopeOf(m: MsgVal): Byte {
    match EcsFromMsg(m)
    case Ok(Some(v)) => v.1
    case _ => 0
  }

  predicate Dependent(x: Exchange, conf: Config) {
    RespIsEcsDependent(ScopeOf(x.answer), x.fqdn, conf)
  }

  function ItemOf(x: Exchange, conf: Config): CacheItem {
    CacheItem(x.when, Raised(Clean(x), conf))
  }

  /** The item is what the exchange left in the cache that ecs stands for. */
  ghost predicate LeftBy(item: Item<CacheKey, CacheItem>, x: Exchange, ecs: bool, conf: Config) {
    && Dependent(x, conf) == ecs && Storable(Clean(x))
    && item == Item(NewCacheKey(x.cr, ecs), Entry(ItemOf(x, conf), x.when + Lifetime(Clean(x), conf)))
  }

  /** What a lookup may return: same name, type, class and DO bit, and the same subnet or the same declined flag. */
  ghost predicate Matches(x: Exchange, cr: CacheRequest, ecs: bool, conf: Config) {
    && x.cr.host == cr.host && x.cr.qType == cr.qType && x.cr.qClass == cr.qClass && x.cr.reqDo == cr.reqDo
    && Dependent(x, conf) == ecs
    && (if ecs then !cr.isEcsDeclined && x.cr.subnet == cr.subnet else x.cr.isEcsDeclined == cr.isEcsDeclined)
  }

  ghost predicate Hit(x: Exchange, cr: CacheRequest, item: CacheItem, ecs: bool, now: int, conf: Config) {
    && Matches(x, cr, ecs, conf) && Storable(Clean(x)) && item == ItemOf(x, conf)
    && x.when <= now <= x.when + Lifetime(Clean(x), conf)
  }

  lemma LifetimeIsPositive(m: MsgVal, conf: Config)
    requires Storable(m)
    ensures Lifetime(m, conf) > 0
  {
    hide LowestTtl;
    hide Cacheable;
  }

  lemma LeftIsHit(
    item: Item<CacheKey, CacheItem>, x: Exchange, cr: CacheRequest, ecs: bool, now: int, conf: Config)
    requires LeftBy(item, x, ecs, conf) && item.key == NewCacheKey(cr, ecs)
    requires !Expired(item.entry, now) && (ecs ==> !cr.isEcsDeclined) && 0 <= x.when <= now
    ensures Hit(x, cr, item.entry.val, ecs, now, conf)
  {
    KeysEqualIff(x.cr, cr, ecs);
    LifetimeIsPositive(Clean(x), conf);
    hide Clean;
    hide Dependent;
    hide Storable;
    hide ItemOf;
    hide NewCacheKey;
    hide Lifetime;
  }

  /** Neither storing nor serving changes anything but TTLs, the header and the question. */
  lemma HitContent(x: Exchange, req: MsgVal, reqDo: bool, now: int, conf: Config)
    ensures ContentOf(FromCacheItem(ItemOf(x, conf), req, reqDo, now)) == ContentOf(Clean(x))
  {
    RaisedContent(Clean(x), conf);
    var m := Raised(Clean(x), conf);
    var ttl := ServedTtl(m, x.when, now);
    ReTtl(m.answer, ttl);
    ReTtl(m.ns, ttl);
    ReTtl(m.extra, ttl);
    hide Clean;
    hide Raised;
    hide ServedTtl;
    hide AllWithTtl;
    hide AllPlainly;
  }

  /** A hit has the filtered records of the response, in their order, with one TTL for all. */
  lemma HitRecords(x: Exchange, req: MsgVal, reqDo: bool, now: int, conf: Config)
    ensures
      var out, clean := FromCacheItem(ItemOf(x, conf), req, reqDo, now), Clean(x);
      var ttl := ServedTtl(Raised(clean, conf), x.when, now);
      && out.answer == AllWithTtl(clean.answer, ttl) && out.ns == AllWithTtl(clean.ns, ttl)
      && out.extra == AllWithTtl(clean.extra, ttl)
  {
    var clean := Clean(x);
    var m := Raised(clean, conf);
    hide Clean;
    hide ServedTtl;
    assert m.ns == clean.ns && m.extra == clean.extra && |m.answer| == |clean.answer|;
    hide Lifetime;
    var ttl := ServedTtl(m, x.when, now);
    forall i | 0 <= i < |clean.answer| ensures WithTtl(m.answer[i], ttl) == WithTtl(clean.answer[i], ttl) {
    }
    assert AllWithTtl(m.answer, ttl) == AllWithTtl(clean.answer, ttl);
  }

  // ----- the client's option

  ghost predicate NoSubnets(m: MsgVal) {
    forall r | r in m.extra && r.OptV? :: forall o | o in r.options :: !o.SubnetV?
  }

  lemma NoSubnetsAgrees(m: MsgVal, f: Family)
    requires NoSubnets(m)
    ensures FamilyAgrees(m, f)
  {
    hide LastOpt;
    hide FirstSubnet;
  }

  lemma FilteredHasNoSubnets(m: MsgVal, qtype: nat, reqDo: bool)
    ensures NoSubnets(RmHopToHop(m, qtype, reqDo))
  {
    hide Filtered;
    var out := RmHopToHop(m, qtype, reqDo);
    forall r | r in out.extra && r.OptV? ensures forall o | o in r.options :: !o.SubnetV? {
      FilteredIsClean(m.extra, TYPE_NONE, reqDo, r);
    }
  }

  lemma HitHasNoSubnets(x: Exchange, req: MsgVal, reqDo: bool, now: int, conf: Config)
    ensures NoSubnets(FromCacheItem(ItemOf(x, conf), req, reqDo, now))
  {
    FilteredHasNoSubnets(x.answer, x.cr.qType, x.cr.reqDo);
    hide RmHopToHop;
    hide ServedTtl;
    var was := Clean(x).extra;
    var out := FromCacheItem(ItemOf(x, conf), req, reqDo, now).extra;
    forall r | r in out && r.OptV? ensures forall o | o in r.options :: !o.SubnetV? {
      var i :| 0 <= i < |out| && out[i] == r;
      assert was[i] in was && was[i].OptV? && was[i].options == r.options;
    }
  }

  /** Writing the client's own option changes nothing else, and nothing at all if the client sent none. */
  lemma ClientEcsKeeps(m: MsgVal, ri: RequestInfo)
    requires WithClientEcs(m, ri).Ok?
    ensures
      var out := WithClientEcs(m, ri).value;
      && out.hdr == m.hdr && out.question == m.question && out.answer == m.answer && out.ns == m.ns
      && (ri.ecs.None? ==> out.extra == m.extra)
      && (forall r | r in m.extra && !r.OptV? :: r in out.extra)
  {
    if ri.ecs.Some? {
      SetEcsKeepsTheRest(m, ri.ecs.value.subnet, EcsFamFromReq(ri), true);
      hide SetEcs;
      var i, out := LastOpt(m.extra), WithClientEcs(m, ri).value;
      forall r | r in m.extra && !r.OptV? ensures r in out.extra {
        var k :| 0 <= k < |m.extra| && m.extra[k] == r;
        assert out.extra[k] == r;
      }
    }
  }

  /** Writing the client's own option never fails, and the client reads back its subnet with full scope. */
  lemma ClientSeesItsSubnet(m: MsgVal, ri: RequestInfo, req: MsgVal)
    requires ReadFrom(ri, req) && ri.ecs.Some? && NoSubnets(m)
    ensures
      var subnet := ri.ecs.value.subnet;
      var out := WithClientEcs(m, ri);
      out.Ok? && subnet.bits < 256 && EcsFromMsg(out.value) == Ok(Some((subnet, subnet.bits)))
  {
    var f := EcsFamFromReq(ri);
    ReadIsMasked(ri, req);
    NoSubnetsAgrees(m, f);
    var subnet := ri.ecs.value.subnet;
    SetEcsFailsIff(m, subnet, f, true);
    EcsRoundTripIff(m, subnet, f, true);
    hide Pow2;
    hide SetEcs;
    hide EcsFromMsg;
  }

  // ----- TTLs

  lemma LowestRaised(m: MsgVal, conf: Config)
    requires LowestTtl(m) != 0 && Overrides(m, conf)
    ensures LowestTtl(Raised(m, conf)) <= Max(LowestTtl(m), Lifetime(m, conf) / SECOND % 0x1_0000_0000)
  {
    var out := Raised(m, conf);
    LowerIsFloor(Records(m));
    LowerIsFloor(Records(out));
    var t, u := Lower(Records(m), MAX_UINT32), Lower(Records(out), MAX_UINT32);
    assert LowestTtl(m) == t && t < MAX_UINT32 && LowestTtl(out) <= u;
    hide Lower;
    hide LowestTtl;
    hide Raised;
    hide Records;
    hide Lifetime;
    hide CacheTtl;
    var i :| 0 <= i < |Records(m)| && CacheTtl(Records(m)[i]) == Some(t);
    RaisedRecord(m, conf, i);
    assert u <= CacheTtl(Records(out)[i]).value;
  }

  /** Raising TTLs never makes a message promise more than the cache keeps it for. */
  lemma RaisedWithinLifetime(m: MsgVal, conf: Config)
    requires LowestTtl(m) != 0
    ensures LowestTtl(Raised(m, conf)) * SECOND <= Lifetime(m, conf)
  {
    if Overrides(m, conf) {
      LowestRaised(m, conf);
    }
    hide LowestTtl;
    hide SetMinTtl;
  }

  lemma RaisedRecord(m: MsgVal, conf: Config, i: nat)
    requires i < |Records(m)| && CacheTtl(Records(m)[i]).Some? && Overrides(m, conf)
    ensures
      var r := Lifetime(m, conf) / SECOND % 0x1_0000_0000;
      && i < |Records(Raised(m, conf))| && CacheTtl(Records(Raised(m, conf))[i]).Some?
      && CacheTtl(Records(Raised(m, conf))[i]).value <= Max(CacheTtl(Records(m)[i]).value, r)
  {
    hide LowestTtl;
    hide Lifetime;
    var out := Raised(m, conf);
    if i < |m.answer| {
      assert Records(m)[i] == m.answer[i] && Records(out)[i] == out.answer[i];
    } else {
      assert Records(m)[i] == Records(out)[i];
    }
  }

  ghost predicate AllTtls(m: MsgVal, ttl: nat) {
    forall r | r in m.answer || r in m.ns || r in m.extra :: r.hdr.ttl == ttl
  }

  lemma HitTtls(item: CacheItem, req: MsgVal, reqDo: bool, now: int)
    ensures AllTtls(FromCacheItem(item, req, reqDo, now), ServedTtl(item.msg, item.when, now))
  {
    hide ServedTtl;
  }

  /**
    Every record of a hit carries one and the same TTL, which is never more than
    the stored lowest one and outlives the cache entry by half a second at most.
    Without the override it is the remaining life, rounded to the nearest second.
   */
  lemma HitTtl(x: Exchange, cr: CacheRequest, item: CacheItem, ecs: bool, req: MsgVal, now: int, conf: Config)
    requires Hit(x, cr, item, ecs, now, conf)
    ensures
      var ttl := ServedTtl(item.msg, item.when, now);
      var left := x.when + Lifetime(Clean(x), conf) - now;
      && AllTtls(FromCacheItem(item, req, cr.reqDo, now), ttl)
      && ttl <= LowestTtl(item.msg) && 2 * ttl * SECOND <= 2 * left + SECOND
      && (!Overrides(Clean(x), conf) ==> 2 * Abs(ttl * SECOND - left) <= SECOND)
  {
    var m := Clean(x);
    RaisedWithinLifetime(m, conf);
    ServedTtlBounds(item.msg, item.when, now);
    hide Clean;
    hide LowestTtl;
    hide Matches;
    hide SetMinTtl;
    hide Cacheable;
    assert item.when == x.when && item.msg == Raised(m, conf);
    var ttl := ServedTtl(item.msg, item.when, now);
    var left := x.when + Lifetime(m, conf) - now;
    assert LowestTtl(item.msg) * SECOND - (now - x.when) <= left;
    assert !Overrides(m, conf) ==> left == LowestTtl(item.msg) * SECOND - (now - x.when);
    HitTtls(item, req, cr.reqDo, now);
    hide FromCacheItem;
  }

  /**
    The TTL field of an OPT record holds its flags, and a hit overwrites it: the
    DO bit a client sees in a cached response is a bit of the remaining TTL.
   */
  lemma HitDoBit(item: CacheItem, req: MsgVal, reqDo: bool, now: int)
    ensures IsDo(FromCacheItem(item, req, reqDo, now)) <==>
            (exists r :: r in item.msg.extra && r.OptV?) && ServedTtl(item.msg, item.when, now) / DO_BIT % 2 == 1
  {
    hide ServedTtl;
    hide LastOpt;
    var out := FromCacheItem(item, req, reqDo, now).extra;
    assert |out| == |item.msg.extra| && forall i | 0 <= i < |out| :: out[i].OptV? == item.msg.extra[i].OptV?;
    if r :| r in item.msg.extra && r.OptV? {
      var i :| 0 <= i < |item.msg.extra| && item.msg.extra[i] == r;
      assert out[i].OptV?;
    }
  }

  /** A response with an extended error, kept for more than nine hours, comes back with a DO bit nobody asked for. */
  lemma HitShowsDo(req: MsgVal, rcode: nat, ip: seq<Byte>, now: int)
    requires rcode != RCODE_SERVER_FAILURE
    ensures
      var opt := OptV(Header(".", TYPE_OPT, DEFAULT_UDP_SIZE, 0), [EdeV(0, "")]);
      var hdr := MsgHeader(0, true, 0, false, false, false, false, false, false, rcode);
      var m := MsgVal(hdr, [], [AV(Header("a.", 1, 1, 40000), ip)], [], [opt]);
      !IsDo(m) && IsDo(FromCacheItem(CacheItem(now, m), req, false, now))
  {
    var opt := OptV(Header(".", TYPE_OPT, DEFAULT_UDP_SIZE, 0), [EdeV(0, "")]);
    var hdr := MsgHeader(0, true, 0, false, false, false, false, false, false, rcode);
    var a := AV(Header("a.", 1, 1, 40000), ip);
    var m := MsgVal(hdr, [], [a], [], [opt]);
    assert Records(m) == [a, opt] && [a, opt][..1] == [a] && [a][..0] == [];
    assert Lower([], MAX_UINT32) == MAX_UINT32;
    assert Lower([a], MAX_UINT32) == 40000;
    assert LowestTtl(m) == 40000;
    HitDoBit(CacheItem(now, m), req, false, now);
    assert opt in m.extra;
    assert LastOpt(m.extra) == 0 by {
      LastOptIs(m.extra, 0);
    }
  }
}
