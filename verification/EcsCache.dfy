/**
  The ECS-aware cache of internal/ecscache: one cache for responses that do not
  depend on the client's subnet, one for those that do.
 */
module EcsCache {
  import opened Wrappers
  import opened Bytes
  import opened NetIp
  import opened DnsValues
  import opened MsgOps
  import opened EcsOption
  import opened LruCache

  /** Times and durations are in nanoseconds. */
  const SECOND := 1_000_000_000

  // ----- requests

  datatype Location = Location(country: string, topSubdivision: string, asn: nat)

  /** Subnets have been checked for validity when they were read or looked up. */
  type Subnet = p: Prefix | IsValid(p) witness Prefix(V4(0), 0)

  datatype Ecs = Ecs(subnet: Subnet, location: Option<Location>)

  /** The GeoIP data at some moment: the subnet for a location, if the lookup succeeds. */
  type GeoIp = (Location, Family) -> Option<Subnet>

  datatype RequestInfo = RequestInfo(
    host: string, qType: nat, qClass: nat, remoteIp: Addr, ecs: Option<Ecs>, location: Option<Location>)

  datatype CacheRequest = CacheRequest(
    host: string, subnet: Subnet, qType: nat, qClass: nat, reqDo: bool, isEcsDeclined: bool)

  datatype CacheKey = CacheKey(
    host: string, subnet: Prefix, qType: nat, qClass: nat, reqDo: bool, isEcsDeclined: bool)

  /** newCacheKey: the subnet or the declined flag, never both. */
  function NewCacheKey(cr: CacheRequest, ecsDependent: bool): CacheKey {
    if ecsDependent then CacheKey(cr.host, cr.subnet, cr.qType, cr.qClass, cr.reqDo, false)
    else CacheKey(cr.host, NO_PREFIX, cr.qType, cr.qClass, cr.reqDo, cr.isEcsDeclined)
  }

  /** Two requests share a key exactly when they agree on what the cache in question distinguishes. */
  lemma KeysEqualIff(cr: CacheRequest, other: CacheRequest, ecsDependent: bool)
    ensures NewCacheKey(cr, ecsDependent) == NewCacheKey(other, ecsDependent) <==>
            && cr.host == other.host && cr.qType == other.qType && cr.qClass == other.qClass && cr.reqDo == other.reqDo
            && (if ecsDependent then cr.subnet == other.subnet else cr.isEcsDeclined == other.isEcsDeclined)
  {
  }

  /** ecsFamFromReq */
  function EcsFamFromReq(ri: RequestInfo): Family {
    var addr := if ri.ecs.Some? then ri.ecs.value.subnet.ip else ri.remoteIp;
    if addr.V4? then IPv4 else IPv6
  }

  /** locFromReq: the subdivision comes from the client's option only. */
  function LocFromReq(ri: RequestInfo): Location {
    var loc := if ri.ecs.Some? && ri.ecs.value.location.Some? then ri.ecs.value.location.value else Location("", "", 0);
    if loc.country == "" && ri.location.Some? then
      loc.(country := ri.location.value.country, asn := ri.location.value.asn)
    else loc
  }

  /** netutil.ZeroPrefix */
  function ZeroPrefix(f: Family): (p: Subnet)
    ensures p.bits == 0 && FamilyOf(p.ip) == Some(f)
  {
    hide Pow2;
    if f.IPv4? then Prefix(V4(0), 0) else Prefix(V6(0, ""), 0)
  }

  /** dnsmsg.IsDO */
  predicate IsDo(m: MsgVal) {
    var i := LastOpt(m.extra);
    i < |m.extra| && m.extra[i].hdr.ttl / DO_BIT % 2 == 1
  }

  /** A client declines by sending a subnet of length zero (section 7.1.2 of RFC 7871). */
  predicate Declined(ri: RequestInfo) {
    ri.ecs.Some? && ri.ecs.value.subnet.bits == 0
  }

  /** The first part of ServeDNS. */
  function BuildRequest(ri: RequestInfo, req: MsgVal, geo: GeoIp): Option<CacheRequest> {
    var f := EcsFamFromReq(ri);
    var subnet := if Declined(ri) then Some(ZeroPrefix(f)) else geo(LocFromReq(ri), f);
    if subnet.None? then None
    else Some(CacheRequest(ri.host, subnet.value, ri.qType, ri.qClass, IsDo(req), Declined(ri)))
  }

  // ----- TTL decay

  /** Division as Go does it, towards zero. */
  function TruncDiv(num: int, denom: int): int
    requires denom != 0
  {
    if (num < 0) == (denom < 0) then Abs(num) / Abs(denom) else -(Abs(num) / Abs(denom))
  }

  function Abs(x: int): nat {
    if x < 0 then -x else x
  }

  /** roundDiv */
  function RoundDiv(num: int, denom: int): int
    requires denom != 0
  {
    if (num < 0) == (denom < 0) then TruncDiv(num + TruncDiv(denom, 2), denom)
    else TruncDiv(num - TruncDiv(denom, 2), denom)
  }

  lemma NearestNat(n: nat, d: nat)
    requires d > 0
    ensures
      var q := (n + d / 2) / d;
      2 * Abs(n - q * d) <= d
  {
    var q := (n + d / 2) / d;
    assert n + d / 2 == q * d + (n + d / 2) % d;
  }

  /** Rounding the magnitudes and then giving the quotient its sign. */
  lemma RoundDivMagnitude(num: int, denom: int)
    requires denom != 0
    ensures
      var q := (Abs(num) + Abs(denom) / 2) / Abs(denom);
      RoundDiv(num, denom) == if (num < 0) == (denom < 0) then q else -(q as int)
  {
    var d: int := Abs(denom);
    assert TruncDiv(denom, 2) == if denom < 0 then -(d / 2) else d / 2;
    var shifted := if (num < 0) == (denom < 0) then num + TruncDiv(denom, 2) else num - TruncDiv(denom, 2);
    assert Abs(shifted) == Abs(num) + d / 2;
  }

  lemma Signed(q: int, denom: int)
    ensures (-q) * denom == -(q * denom) == q * (-denom)
  {
  }

  /** The quotient is a nearest integer, whatever the signs. */
  lemma RoundDivIsNearest(num: int, denom: int)
    requires denom != 0
    ensures 2 * Abs(num - RoundDiv(num, denom) * denom) <= Abs(denom)
  {
    var n: int, d: int := Abs(num), Abs(denom);
    var q: int := (n + d / 2) / d;
    NearestNat(n, d);
    RoundDivMagnitude(num, denom);
    Signed(q, denom);
    hide RoundDiv;
    var p: int := q * d;
    assert 2 * Abs(n - p) <= d;
    assert RoundDiv(num, denom) * denom == if num < 0 then -p else p;
  }

  /** The TTL that fromCacheItem gives every record of a message stored at when. */
  function ServedTtl(msg: MsgVal, when: int, now: int): nat {
    var timeLeft := LowestTtl(msg) * SECOND - (now - when);
    if timeLeft > 0 then RoundDiv(timeLeft, SECOND) else 0
  }

  lemma ServedTtlBounds(msg: MsgVal, when: int, now: int)
    requires when <= now
    ensures ServedTtl(msg, when, now) <= LowestTtl(msg)
    ensures
      var timeLeft := LowestTtl(msg) * SECOND - (now - when);
      timeLeft >= 0 ==> 2 * Abs(ServedTtl(msg, when, now) * SECOND - timeLeft) <= SECOND
  {
    hide LowestTtl;
  }

  /** The served TTL never grows as the message ages. */
  lemma ServedTtlNeverGrows(msg: MsgVal, when: int, now: int, later: int)
    requires when <= now <= later
    ensures ServedTtl(msg, when, later) <= ServedTtl(msg, when, now)
  {
    hide LowestTtl;
  }

  // ----- what is stored and what is served

  /**
    The settings of the middleware: the sizes of its caches, the minimum TTL, and
    the list of names known to feign support for subnets.
   */
  datatype Config = Config(noEcsCount: nat, ecsCount: nat, minTtl: nat, overrideTtl: bool, fakes: set<string>)

  predicate ValidConfig(conf: Config) {
    0 < conf.noEcsCount && 0 < conf.ecsCount
  }

  /** respIsECSDependent */
  predicate RespIsEcsDependent(scope: Byte, fqdn: string, conf: Config) {
    scope != 0 && fqdn !in conf.fakes
  }

  datatype CacheItem = CacheItem(when: int, msg: MsgVal)

  /** SetRcode of github.com/miekg/dns with the message's own response code. */
  function SetReply(m: MsgVal, req: MsgVal): MsgVal {
    var hdr := m.hdr.(id := req.hdr.id, response := true, opcode := req.hdr.opcode);
    var hdr := if req.hdr.opcode == 0
      then hdr.(recursionDesired := req.hdr.recursionDesired, checkingDisabled := req.hdr.checkingDisabled)
      else hdr;
    m.(hdr := hdr, question := if req.question == [] then m.question else [req.question[0]])
  }

  /** fromCacheItem */
  function FromCacheItem(item: CacheItem, req: MsgVal, reqDo: bool, now: int): MsgVal {
    var reply := SetRespAd(SetReply(item.msg, req), req.hdr.authenticatedData, reqDo);
    MsgWithTtl(reply, ServedTtl(item.msg, item.when, now))
  }

  /** The client's own option goes into the response if it sent one (section 7.2.2 of RFC 7871). */
  function WithClientEcs(m: MsgVal, ri: RequestInfo): Result<MsgVal, EcsError> {
    if ri.ecs.None? then Ok(m) else SetEcs(m, ri.ecs.value.subnet, EcsFamFromReq(ri), true)
  }

  predicate Overrides(m: MsgVal, conf: Config) {
    conf.overrideTtl && m.hdr.rcode != RCODE_SERVER_FAILURE
  }

  /** For how long a filtered response is kept. */
  function Lifetime(m: MsgVal, conf: Config): nat {
    var exp := LowestTtl(m) * SECOND;
    if Overrides(m, conf) then Max(exp, conf.minTtl) else exp
  }

  /** The response with its minimum TTL applied, which is also what the client gets. */
  function Raised(m: MsgVal, conf: Config): MsgVal {
    if Overrides(m, conf) then SetMinTtl(m, Lifetime(m, conf) / SECOND % 0x1_0000_0000) else m
  }

  ghost predicate Storable(m: MsgVal) {
    LowestTtl(m) != 0 && Cacheable(m)
  }

  // ----- the two caches

  type Items = seq<Item<CacheKey, CacheItem>>

  datatype Caches = Caches(plain: Items, aware: Items)

  ghost predicate Sound(s: Caches, conf: Config) {
    && DistinctKeys(s.plain) && |s.plain| <= conf.noEcsCount
    && DistinctKeys(s.aware) && |s.aware| <= conf.ecsCount
  }

  /** One lookup of Middleware.get, and the caches afterwards; there is no second one for those who declined. */
  function LookIn(s: Caches, cr: CacheRequest, ecs: bool, now: int): (Option<CacheItem>, Caches) {
    var key := NewCacheKey(cr, ecs);
    if ecs then
      if cr.isEcsDeclined then (None, s)
      else (Got(s.aware, key, now), s.(aware := AfterGet(s.aware, key, now)))
    else (Got(s.plain, key, now), s.(plain := AfterGet(s.plain, key, now)))
  }

  /** What is there for a request in one of the caches. */
  ghost predicate Present(s: Caches, cr: CacheRequest, ecs: bool, now: int) {
    && (ecs ==> !cr.isEcsDeclined)
    && Live(if ecs then s.aware else s.plain, NewCacheKey(cr, ecs), now)
  }

  /** A lookup finds a live item with the key exactly if there is one, and brings nothing new. */
  lemma LookInFinds(s: Caches, cr: CacheRequest, ecs: bool, now: int, conf: Config)
    requires Sound(s, conf)
    ensures
      var (hit, s') := LookIn(s, cr, ecs, now);
      && Sound(s', conf)
      && (forall item | item in s'.plain :: item in s.plain) && (forall item | item in s'.aware :: item in s.aware)
      && (hit.Some? <==> Present(s, cr, ecs, now))
      && (if ecs then s'.plain == s.plain else s'.aware == s.aware)
  {
    var items := if ecs then s.aware else s.plain;
    GotIsLive(items, NewCacheKey(cr, ecs), now);
    AfterGetContents(items, NewCacheKey(cr, ecs), now);
    hide NewCacheKey;
    hide AfterGet;
  }

  /** The item behind a hit. */
  lemma LookInHit(s: Caches, cr: CacheRequest, ecs: bool, now: int, conf: Config)
    returns (item: Item<CacheKey, CacheItem>)
    requires Sound(s, conf) && LookIn(s, cr, ecs, now).0.Some?
    ensures item in (if ecs then s.aware else s.plain) && item.key == NewCacheKey(cr, ecs)
    ensures item.entry.val == LookIn(s, cr, ecs, now).0.value && !Expired(item.entry, now)
    ensures ecs ==> !cr.isEcsDeclined
  {
    var items := if ecs then s.aware else s.plain;
    item := items[Find(items, NewCacheKey(cr, ecs))];
    hide NewCacheKey;
    hide AfterGet;
  }

  /** Middleware.get with nothing in between: what is found, with its cache, and the caches afterwards. */
  function Look(s: Caches, cr: CacheRequest, now: int): (Option<(CacheItem, bool)>, Caches) {
    var (item, s) := LookIn(s, cr, false, now);
    if item.Some? then (Some((item.value, false)), s)
    else
      var (item, s) := LookIn(s, cr, true, now);
      (if item.Some? then Some((item.value, true)) else None, s)
  }

  /**
    The plain cache comes first; a miss exactly if it has nothing live and the
    other has nothing live either or the client declined.
   */
  lemma LookFinds(s: Caches, cr: CacheRequest, now: int, conf: Config)
    requires Sound(s, conf)
    ensures
      var (hit, s') := Look(s, cr, now);
      && Sound(s', conf)
      && (hit.Some? && !hit.value.1 <==> Present(s, cr, false, now))
      && (hit.Some? && hit.value.1 <==> !Present(s, cr, false, now) && Present(s, cr, true, now))
  {
    LookInFinds(s, cr, false, now, conf);
    var s1 := LookIn(s, cr, false, now).1;
    LookInFinds(s1, cr, true, now, conf);
    hide LookIn;
    hide Live;
  }

  /** Middleware.set for a filtered response. */
  ghost function Stored(s: Caches, resp: MsgVal, cr: CacheRequest, ecs: bool, now: int, conf: Config): Caches {
    var e := Entry(CacheItem(now, Raised(resp, conf)), now + Lifetime(resp, conf));
    if !Storable(resp) then s
    else if ecs then s.(aware := Added(s.aware, conf.ecsCount, NewCacheKey(cr, true), e))
    else s.(plain := Added(s.plain, conf.noEcsCount, NewCacheKey(cr, false), e))
  }

  /** Storing brings at most one new item, to the one cache, and keeps both within their sizes. */
  lemma StoredContents(s: Caches, resp: MsgVal, cr: CacheRequest, ecs: bool, now: int, conf: Config)
    requires Sound(s, conf) && ValidConfig(conf)
    ensures
      var s' := Stored(s, resp, cr, ecs, now, conf);
      var item := Item(NewCacheKey(cr, ecs), Entry(CacheItem(now, Raised(resp, conf)), now + Lifetime(resp, conf)));
      && Sound(s', conf)
      && (forall i | i in s'.plain :: i in s.plain || (i == item && !ecs && Storable(resp)))
      && (forall i | i in s'.aware :: i in s.aware || (i == item && ecs && Storable(resp)))
      && (Storable(resp) ==> item in (if ecs then s'.aware else s'.plain))
  {
    var key, e := NewCacheKey(cr, ecs), Entry(CacheItem(now, Raised(resp, conf)), now + Lifetime(resp, conf));
    hide Storable;
    hide Raised;
    hide Lifetime;
    hide NewCacheKey;
    hide Added;
    if ecs {
      AddedContents(s.aware, conf.ecsCount, key, e);
    } else {
      AddedContents(s.plain, conf.noEcsCount, key, e);
    }
  }

  class Middleware {
    const conf: Config
    const cache: Default<CacheKey, CacheItem>
    const ecsCache: Default<CacheKey, CacheItem>

    ghost predicate Valid()
      reads cache, ecsCache
    {
      && cache != ecsCache && cache.Valid() && ecsCache.Valid()
      && cache.count == conf.noEcsCount && ecsCache.count == conf.ecsCount
    }

    ghost function State(): Caches
      reads cache, ecsCache
    {
      Caches(cache.items, ecsCache.items)
    }

    constructor (conf: Config)
      requires ValidConfig(conf)
      ensures Valid() && this.conf == conf && State() == Caches([], []) && fresh(cache) && fresh(ecsCache)
    {
      this.conf := conf;
      cache := new Default(conf.noEcsCount);
      ecsCache := new Default(conf.ecsCount);
    }

    /** One lookup of Middleware.get, under the lock of its cache. */
    method GetFrom(cr: CacheRequest, ecs: bool, now: int) returns (item: Option<CacheItem>)
      requires Valid()
      modifies cache, ecsCache
      ensures Valid() && (item, State()) == LookIn(old(State()), cr, ecs, now)
    {
      hide AfterGet;
      hide NewCacheKey;
      hide Got;
      hide Live;
      if !ecs {
        item := cache.Get(NewCacheKey(cr, false), now);
      } else if cr.isEcsDeclined {
        return None;
      } else {
        item := ecsCache.Get(NewCacheKey(cr, true), now);
      }
    }

    /** Middleware.get: the cache without subnets comes first. */
    method Get(cr: CacheRequest, now: int) returns (hit: Option<(CacheItem, bool)>)
      requires Valid()
      modifies cache, ecsCache
      ensures Valid() && (hit, State()) == Look(old(State()), cr, now)
    {
      hide LookIn;
      hide Middleware.Valid;
      var item := GetFrom(cr, false, now);
      if item.Some? {
        return Some((item.value, false));
      }
      item := GetFrom(cr, true, now);
      return if item.Some? then Some((item.value, true)) else None;
    }

    /** Middleware.set; out is the response as the caller sees it afterwards. */
    method Set(resp: MsgVal, cr: CacheRequest, ecs: bool, now: int) returns (out: MsgVal)
      requires Valid()
      modifies cache, ecsCache
      ensures Valid() && State() == Stored(old(State()), resp, cr, ecs, now, conf)
      ensures out == if Storable(resp) then Raised(resp, conf) else resp
    {
      hide Added;
      hide LowestTtl;
      hide NewCacheKey;
      hide Cacheable;
      out := resp;
      var ttl := FindLowestTtl(resp);
      if ttl == 0 {
        return;
      }
      var cacheable := IsCacheable(resp);
      if !cacheable {
        return;
      }
      var exp := ttl * SECOND;
      if conf.overrideTtl && resp.hdr.rcode != RCODE_SERVER_FAILURE {
        exp := Max(exp, conf.minTtl);
        out := RaiseMsg(resp, exp / SECOND % 0x1_0000_0000);
      }
      assert out == Raised(resp, conf) && exp == Lifetime(resp, conf);
      hide Raised;
      hide Lifetime;
      var key := NewCacheKey(cr, ecs);
      if ecs {
        ecsCache.SetWithExpire(key, CacheItem(now, out), exp, now);
      } else {
        cache.SetWithExpire(key, CacheItem(now, out), exp, now);
      }
    }
  }
}
