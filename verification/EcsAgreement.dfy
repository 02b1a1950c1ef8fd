/**
  Whether the ECS cache agrees with asking the upstream directly: what has to be
  assumed of the upstream, when a client is told what the upstream would have told
  it itself, and exactly when not.
 */
module EcsAgreement {
  import opened Wrappers
  import opened Bytes
  import opened NetIp
  import opened DnsValues
  import opened MsgOps
  import opened EcsOption
  import opened EcsCache
  import opened EcsServe
  import opened EcsCacheRuns

  // ----- upstreams

  /** The answer at a time to a message. */
  type Upstream = (int, MsgVal) -> MsgVal

  datatype Query = Query(host: string, qType: nat, qClass: nat, cd: bool, sentDo: bool, subnet: Subnet)

  /** What a message asks for: a name without regard to case, a type and a class, with CD bit, DO bit and subnet. */
  ghost predicate Asks(m: MsgVal, q: Query) {
    && |m.question| == 1 && NormalizeDomain(m.question[0].name) == q.host
    && m.question[0].qtype == q.qType && m.question[0].qclass == q.qClass
    && m.hdr.checkingDisabled == q.cd && IsDo(m) == q.sentDo
    && EcsFromMsg(m) == Ok(Some((q.subnet, 0)))
  }

  /** What a client is told if the upstream answers m on its behalf. */
  function Told(up: Upstream, t: int, m: MsgVal, qType: nat, reqDo: bool): Content {
    ContentOf(RmHopToHop(up(t, m), qType, reqDo))
  }

  /** Nothing else in a message makes a difference: not its spelling, its ID or any other option. */
  ghost predicate LooksOnlyAtQuery(up: Upstream) {
    forall t: int, m: MsgVal, n: MsgVal, q: Query, reqDo: bool | Asks(m, q) && Asks(n, q) ::
      Told(up, t, m, q.qType, reqDo) == Told(up, t, n, q.qType, reqDo)
  }

  predicate ZeroAlike(p: Subnet, s: Subnet) {
    p.bits == 0 <==> s.bits == 0
  }

  /**
    A response with scope zero, or for a name that feigns support, is the same for
    every subnet.  A subnet of length zero is answered on its own terms.
   */
  ghost predicate ScopesAreHonest(up: Upstream, conf: Config) {
    forall t: int, m: MsgVal, n: MsgVal, q: Query, s: Subnet, reqDo: bool |
      && Asks(m, q) && Asks(n, q.(subnet := s)) && ZeroAlike(q.subnet, s)
      && (ScopeOf(up(t, m)) == 0 || FakeHost(q.host, conf)) ::
      Told(up, t, m, q.qType, reqDo) == Told(up, t, n, q.qType, reqDo)
  }

  /** The DO bit brings DNSSEC records and changes nothing else. */
  ghost predicate DoIsAdditive(up: Upstream) {
    forall t: int, m: MsgVal, n: MsgVal, q: Query, d: bool | Asks(m, q) && Asks(n, q.(sentDo := d)) ::
      Told(up, t, m, q.qType, false) == Told(up, t, n, q.qType, false)
  }

  ghost predicate Honest(up: Upstream, conf: Config) {
    LooksOnlyAtQuery(up) && ScopesAreHonest(up, conf) && DoIsAdditive(up)
  }

  // ----- messages for queries

  function MsgFor(q: Query): MsgVal {
    var hdr := MsgHeader(0, false, 0, false, false, true, false, false, q.cd, RCODE_SUCCESS);
    var opt := OptV(Header(".", TYPE_OPT, DEFAULT_UDP_SIZE, 0), []);
    MsgVal(hdr, [Question(q.host + ".", q.qType, q.qClass)], [], [], if q.sentDo then [] else [opt])
  }

  lemma SubnetHasFamily(s: Subnet)
    ensures FamilyOf(s.ip).Some?
  {
    hide Pow2;
  }

  /** Every query is asked by some message. */
  lemma SomeMessageAsks(q: Query) returns (m: MsgVal)
    requires IsMasked(q.subnet) && LowerString(q.host) == q.host
    ensures Asks(m, q)
  {
    SubnetHasFamily(q.subnet);
    var f, base := FamilyOf(q.subnet.ip).value, MsgFor(q);
    BaseMessage(q);
    hide EcsFromMsg;
    hide SetEcs;
    hide MsgFor;
    hide IsMasked;
    hide FamilyOf;
    hide SentDo;
    hide IsDo;
    SetEcsFailsIff(base, q.subnet, f, false);
    m := SetEcs(base, q.subnet, f, false).value;
    NoOptionAgrees(base, f);
    EcsRoundTripIff(base, q.subnet, f, false);
    SetEcsKeepsTheRest(base, q.subnet, f, false);
    SentDoIs(base, q.subnet, f);
  }

  lemma BaseMessage(q: Query)
    requires LowerString(q.host) == q.host
    ensures EcsFromMsg(MsgFor(q)) == Ok(None) && SentDo(MsgFor(q)) == q.sentDo
    ensures
      var m := MsgFor(q);
      && |m.question| == 1 && NormalizeDomain(m.question[0].name) == q.host
      && m.question[0].qtype == q.qType && m.question[0].qclass == q.qClass && m.hdr.checkingDisabled == q.cd
  {
    assert (q.host + ".")[..|q.host|] == q.host;
    hide EcsData;
    if !q.sentDo {
      LastOptIs(MsgFor(q).extra, 0);
    }
  }

  // ----- agreement on queries

  /** Two queries of which the second may be answered from the first one's response. */
  ghost predicate Comparable(q: Query, p: Query, reqDo: bool) {
    && q.host == p.host && q.qType == p.qType && q.qClass == p.qClass && LowerString(q.host) == q.host
    && (reqDo ==> q.sentDo && p.sentDo) && IsMasked(q.subnet) && IsMasked(p.subnet)
  }

  lemma SubnetChange(up: Upstream, t: int, m: MsgVal, q: Query, n: MsgVal, s: Subnet, reqDo: bool, conf: Config)
    requires Honest(up, conf) && Asks(m, q) && Asks(n, q.(subnet := s))
    requires q.subnet == s || (ZeroAlike(q.subnet, s) && (ScopeOf(up(t, m)) == 0 || FakeHost(q.host, conf)))
    ensures Told(up, t, m, q.qType, reqDo) == Told(up, t, n, q.qType, reqDo)
  {
    hide Told;
    hide Asks;
    hide ScopeOf;
    if q.subnet == s {
      assert q.(subnet := s) == q;
    }
  }

  lemma SameForBoth(up: Upstream, t: int, m: MsgVal, q: Query, n: MsgVal, p: Query, reqDo: bool, conf: Config)
    requires Honest(up, conf) && Asks(m, q) && Asks(n, p) && Comparable(q, p, reqDo) && q.cd == p.cd
    requires
      || q.subnet == p.subnet
      || (ZeroAlike(q.subnet, p.subnet) && (ScopeOf(up(t, m)) == 0 || FakeHost(q.host, conf)))
    ensures Told(up, t, m, q.qType, reqDo) == Told(up, t, n, q.qType, reqDo)
  {
    hide Told;
    hide Asks;
    hide ScopeOf;
    var mid := q.(subnet := p.subnet);
    if q.sentDo == p.sentDo {
      assert mid == p;
      SubnetChange(up, t, m, q, n, p.subnet, reqDo, conf);
    } else {
      var c := SomeMessageAsks(mid);
      SubnetChange(up, t, m, q, c, p.subnet, reqDo, conf);
      assert mid.(sentDo := p.sentDo) == p;
      assert Told(up, t, c, q.qType, false) == Told(up, t, n, q.qType, false);
    }
  }

  // ----- upstreams with two faces

  /** An upstream with two answers, chosen by what it sees in the message. */
  function TwoFaced(mark: MsgVal -> bool, a: MsgVal, b: MsgVal): Upstream {
    (t: int, m: MsgVal) => if mark(m) then a else b
  }

  /** It sees no more than the CD bit and whether the subnet has length zero. */
  ghost predicate Discreet(mark: MsgVal -> bool) {
    forall m: MsgVal, n: MsgVal, q: Query, p: Query |
      Asks(m, q) && Asks(n, p) && q.cd == p.cd && ZeroAlike(q.subnet, p.subnet) ::
      mark(m) == mark(n)
  }

  lemma TwoFacedIsHonest(mark: MsgVal -> bool, a: MsgVal, b: MsgVal, conf: Config)
    requires Discreet(mark)
    ensures Honest(TwoFaced(mark, a, b), conf)
  {
    hide Asks;
    hide ContentOf;
    hide RmHopToHop;
    hide ScopeOf;
    var up := TwoFaced(mark, a, b);
    forall t: int, m: MsgVal, n: MsgVal, q: Query, s: Subnet, reqDo: bool |
      Asks(m, q) && Asks(n, q.(subnet := s)) && ZeroAlike(q.subnet, s)
      ensures Told(up, t, m, q.qType, reqDo) == Told(up, t, n, q.qType, reqDo)
    {
      assert mark(m) == mark(n);
    }
    forall t: int, m: MsgVal, n: MsgVal, q: Query, d: bool | Asks(m, q) && Asks(n, q.(sentDo := d))
      ensures Told(up, t, m, q.qType, false) == Told(up, t, n, q.qType, false)
    {
      assert mark(m) == mark(n);
    }
    forall t: int, m: MsgVal, n: MsgVal, q: Query, reqDo: bool | Asks(m, q) && Asks(n, q)
      ensures Told(up, t, m, q.qType, reqDo) == Told(up, t, n, q.qType, reqDo)
    {
      assert mark(m) == mark(n);
    }
  }

  predicate HasZeroSubnet(m: MsgVal) {
    var r := EcsFromMsg(m);
    r.Ok? && r.value.Some? && r.value.value.0.bits == 0
  }

  /** A mark that tells two queries apart which differ in what the key ignores. */
  lemma SomeMark(m: MsgVal, q: Query, n: MsgVal, p: Query) returns (mark: MsgVal -> bool)
    requires Asks(m, q) && Asks(n, p) && !(q.cd == p.cd && ZeroAlike(q.subnet, p.subnet))
    ensures Discreet(mark) && mark(m) != mark(n)
  {
    hide EcsFromMsg;
    hide IsDo;
    hide NormalizeDomain;
    if q.cd != p.cd {
      mark := (m: MsgVal) => m.hdr.checkingDisabled;
    } else {
      mark := HasZeroSubnet;
    }
  }

  /** An honest upstream that says one thing to m and another to n. */
  lemma SomeTwoFaced(m: MsgVal, q: Query, n: MsgVal, p: Query, here: MsgVal, there: MsgVal, conf: Config)
    returns (up: Upstream)
    requires Asks(m, q) && Asks(n, p) && !(q.cd == p.cd && ZeroAlike(q.subnet, p.subnet))
    ensures Honest(up, conf) && forall t: int :: up(t, m) == here && up(t, n) == there
  {
    var mark := SomeMark(m, q, n, p);
    hide Honest;
    hide Discreet;
    if mark(m) {
      up := TwoFaced(mark, here, there);
      TwoFacedIsHonest(mark, here, there, conf);
    } else {
      up := TwoFaced(mark, there, here);
      TwoFacedIsHonest(mark, there, here, conf);
    }
  }

  /** The longest TTL that does not stand for an unknown one. */
  const LONGEST := MAX_UINT32 - 1

  /** A cacheable denial, and an empty answer. */
  function Denial(question: seq<Question>): MsgVal {
    MsgVal(MsgHeader(0, true, 0, false, false, true, true, false, false, RCODE_NAME_ERROR), question, [],
           [SoaV(Header(".", 6, 1, LONGEST), "", "", 0, LONGEST)], [])
  }

  function NoData(question: seq<Question>): MsgVal {
    Denial(question).(hdr := MsgHeader(0, true, 0, false, false, true, true, false, false, RCODE_SUCCESS))
  }

  /**
    The exact condition: a response stored for q, with scope zero, is what every
    honest upstream would have said to p if and only if the two agree on the CD bit
    and on whether their subnets have length zero.
   */
  lemma AgreementIff(m: MsgVal, q: Query, n: MsgVal, p: Query, t: int, reqDo: bool, conf: Config)
    requires Asks(m, q) && Asks(n, p) && Comparable(q, p, reqDo)
    ensures (forall up: Upstream | Honest(up, conf) && ScopeOf(up(t, m)) == 0 ::
               Told(up, t, m, q.qType, reqDo) == Told(up, t, n, q.qType, reqDo)) <==>
            q.cd == p.cd && ZeroAlike(q.subnet, p.subnet)
  {
    if q.cd == p.cd && ZeroAlike(q.subnet, p.subnet) {
      forall up: Upstream | Honest(up, conf) && ScopeOf(up(t, m)) == 0
        ensures Told(up, t, m, q.qType, reqDo) == Told(up, t, n, q.qType, reqDo)
      {
        SameForBoth(up, t, m, q, n, p, reqDo, conf);
      }
    } else {
      var up := SomeTwoFaced(m, q, n, p, Denial([]), NoData([]), conf);
      assert ScopeOf(Denial([])) == 0;
      hide Honest;
      hide ScopeOf;
      hide Asks;
      hide Comparable;
      assert Told(up, t, m, q.qType, reqDo).rcode != Told(up, t, n, q.qType, reqDo).rcode;
    }
  }

  // ----- runs

  /** What the request sent for an event asks for. */
  function QueryOf(e: Event): Query
    requires Built(e).Some?
  {
    var cr := Built(e).value;
    Query(cr.host, cr.qType, cr.qClass, e.req.hdr.checkingDisabled, SentDo(e.req), cr.subnet)
  }

  /** GeoIP found a masked subnet, of the client's family. */
  ghost predicate Sendable(e: Event) {
    SentBy(e).Some? && Built(e).Some? && IsMasked(Built(e).value.subnet)
  }

  lemma SendableIsSent(e: Event)
    requires Sendable(e)
    ensures SentBy(e).Some? && Built(e).Some?
  {
  }

  lemma SentAsks(e: Event)
    requires WellFormed(e) && Sendable(e)
    ensures Asks(SentBy(e).value, QueryOf(e)) && LowerString(QueryOf(e).host) == QueryOf(e).host
    ensures Built(e).value.reqDo ==> QueryOf(e).sentDo
  {
    hide BuildRequest;
    hide SetEcs;
    var cr := Built(e).value;
    assert SetEcs(e.req, cr.subnet, EcsFamFromReq(e.ri), false) == Ok(SentBy(e).value);
    hide SentBy;
    UpstreamSeesSubnet(e.ri, e.req, cr);
    SetEcsKeepsTheRest(e.req, cr.subnet, EcsFamFromReq(e.ri), false);
    BuiltIsValid(e.ri, e.req, e.geo);
    NormalizedIsLower(e.req.question[0].name);
    hide EcsFromMsg;
    hide ReadFrom;
    hide IsDo;
    hide Pow2;
    hide EcsFamFromReq;
    hide FamilyOf;
    hide IsMasked;
    hide LastOpt;
    hide NormalizeDomain;
    hide LowerString;
    hide NonSubnet;
  }

  lemma NormalizedIsLower(fqdn: string)
    ensures LowerString(NormalizeDomain(fqdn)) == NormalizeDomain(fqdn)
  {
  }

  /** For how long a response can be kept at most. */
  function LongestLife(conf: Config): nat {
    if conf.overrideTtl then Max(LONGEST * SECOND, conf.minTtl) else LONGEST * SECOND
  }

  lemma LifeIsBounded(m: MsgVal, conf: Config)
    ensures Lifetime(m, conf) <= LongestLife(conf)
  {
    assert LowestTtl(m) <= LONGEST;
    hide LowestTtl;
  }

  /**
    The response f may leave something that the lookup e finds: they are close
    enough in time and share a key, and what is stored for subnets is not looked up
    for those who declined and not stored under a name that feigns support.
   */
  ghost predicate MayShare(f: Event, e: Event, conf: Config)
    requires e.Asked?
  {
    && f.now <= e.now <= f.now + LongestLife(conf) && f.req.question != []
    && Built(f).Some? && Built(e).Some?
    && NewCacheKey(Built(f).value, e.ecs) == NewCacheKey(Built(e).value, e.ecs)
    && (e.ecs ==> !Declined(e.ri) && f.req.question[0].name !in conf.fakes)
  }

  /** Requests that may share an item agree on what the key ignores. */
  ghost predicate Alike(f: Event, e: Event, conf: Config)
    requires e.Asked?
  {
    MayShare(f, e, conf) ==>
      && f.req.hdr.checkingDisabled == e.req.hdr.checkingDisabled
      && ZeroAlike(Built(f).value.subnet, Built(e).value.subnet)
  }

  /** A subnet of length zero is used for clients that declined and for no others. */
  ghost predicate ZeroOnlyIfDeclined(e: Event) {
    Built(e).Some? && Built(e).value.subnet.bits == 0 ==> Declined(e.ri)
  }

  /** It is enough that GeoIP always finds a proper subnet and the CD bits are the same. */
  lemma ProperSubnetsAreAlike(f: Event, e: Event, conf: Config)
    requires e.Asked? && f.req.hdr.checkingDisabled == e.req.hdr.checkingDisabled
    requires ZeroOnlyIfDeclined(f) && ZeroOnlyIfDeclined(e)
    ensures Alike(f, e, conf)
  {
    BuiltIsValid(f.ri, f.req, f.geo);
    BuiltIsValid(e.ri, e.req, e.geo);
    hide BuildRequest;
    if MayShare(f, e, conf) {
      KeysEqualIff(Built(f).value, Built(e).value, e.ecs);
    }
    hide NewCacheKey;
  }

  /** Every response in the run is what the upstream answers to the request that was sent. */
  ghost predicate AnsweredBy(events: seq<Event>, up: Upstream) {
    forall i | 0 <= i < |events| && ExchangeOf(events[i]).Some? ::
      events[i].answer == up(events[i].now, ExchangeOf(events[i]).value.sent)
  }

  /** Apart from TTLs and its own option, the client is told what the upstream would have told it at time t. */
  ghost predicate ToldAsOf(e: Event, reply: MsgVal, t: int, up: Upstream)
    requires SentBy(e).Some? && Built(e).Some?
  {
    exists base: MsgVal ::
      && WithClientEcs(base, e.ri) == Ok(reply)
      && ContentOf(base) == Told(up, t, SentBy(e).value, Built(e).value.qType, Built(e).value.reqDo)
  }

  /** A hit tells the client what the upstream would have told it at the time the item was stored. */
  lemma HitAgrees(f: Event, x: Exchange, e: Event, reply: MsgVal, up: Upstream, conf: Config)
    requires WellFormed(e) && WellFormed(f) && Sendable(e) && ExchangeOf(f) == Some(x)
    requires e.Asked? && Serves(x, e, Built(e).value, reply, conf) && Dependent(x, conf) == e.ecs
    requires MayShare(f, e, conf) ==> Sendable(f) && Alike(f, e, conf)
    requires Honest(up, conf) && x.answer == up(x.when, x.sent)
    ensures ToldAsOf(e, reply, x.when, up)
  {
    var cr := Built(e).value;
    assert x.sent == SentBy(f).value && x.cr == Built(f).value && x.fqdn == f.req.question[0].name && x.when == f.now;
    HitMayShare(f, x, e, cr, conf);
    SentAsks(e);
    SentAsks(f);
    hide ExchangeOf;
    hide BuildRequest;
    hide SetEcs;
    hide Asks;
    hide Honest;
    assert Serves(x, e, cr, reply, conf);
    HitIsShared(f, x, e, cr, conf);
    SameForBoth(up, x.when, x.sent, QueryOf(f), SentBy(e).value, QueryOf(e), cr.reqDo, conf);
    HitContent(x, e.req, cr.reqDo, e.now, conf);
    var base := FromCacheItem(ItemOf(x, conf), e.req, cr.reqDo, e.now);
    hide FromCacheItem;
    hide ContentOf;
    hide RmHopToHop;
    hide Hit;
    assert WithClientEcs(base, e.ri) == Ok(reply);
    assert ContentOf(base) == Told(up, x.when, x.sent, x.cr.qType, cr.reqDo);
  }

  lemma HitMayShare(f: Event, x: Exchange, e: Event, cr: CacheRequest, conf: Config)
    requires WellFormed(f) && e.Asked? && Built(e) == Some(cr) && Built(f) == Some(x.cr)
    requires x.fqdn == f.req.question[0].name && x.when == f.now && Dependent(x, conf) == e.ecs
    requires Hit(x, cr, ItemOf(x, conf), Dependent(x, conf), e.now, conf)
    ensures MayShare(f, e, conf)
  {
    KeysEqualIff(x.cr, cr, e.ecs);
    BuiltIsValid(e.ri, e.req, e.geo);
    LifeIsBounded(Clean(x), conf);
    hide BuildRequest;
    hide ItemOf;
    hide Storable;
    hide Clean;
    hide Lifetime;
    hide LongestLife;
    hide NewCacheKey;
    hide ReadFrom;
    hide ScopeOf;
    hide NormalizeDomain;
  }

  lemma HitIsShared(f: Event, x: Exchange, e: Event, cr: CacheRequest, conf: Config)
    requires Built(e) == Some(cr) && Built(f) == Some(x.cr) && WellFormed(f) && x.fqdn == f.req.question[0].name
    requires e.Asked? && Sendable(e) && Sendable(f) && MayShare(f, e, conf) && Alike(f, e, conf)
    requires LowerString(QueryOf(f).host) == QueryOf(f).host
    requires cr.reqDo ==> QueryOf(e).sentDo
    requires x.cr.reqDo ==> QueryOf(f).sentDo
    requires Hit(x, cr, ItemOf(x, conf), Dependent(x, conf), e.now, conf)
    ensures x.cr.reqDo == cr.reqDo && x.cr.qType == cr.qType
    ensures Comparable(QueryOf(f), QueryOf(e), cr.reqDo) && QueryOf(f).cd == QueryOf(e).cd
    ensures
      var s, p := QueryOf(f).subnet, QueryOf(e).subnet;
      s == p || (ZeroAlike(s, p) && (ScopeOf(x.answer) == 0 || FakeHost(QueryOf(f).host, conf)))
  {
    BuiltIsValid(f.ri, f.req, f.geo);
    hide BuildRequest;
    hide ItemOf;
    hide Storable;
    hide Clean;
    hide Lifetime;
    hide LongestLife;
    hide NewCacheKey;
    hide ReadFrom;
    hide SentBy;
    hide SentDo;
    hide NormalizeDomain;
    hide LowerString;
    hide Masked;
  }

  /** No client is told anything that the upstream would not have told it itself, for its own subnet. */
  lemma RunAgrees(events: seq<Event>, i: nat, up: Upstream, conf: Config) returns (j: nat)
    requires i < |events| && events[i].Asked? && Outcomes(events, i, conf).Reply?
    requires InOrder(events) && AllWellFormed(events) && ValidConfig(conf) && Sendable(events[i])
    requires Honest(up, conf) && AnsweredBy(events, up)
    requires forall j | 0 <= j < i && ExchangeOf(events[j]).Some? && MayShare(events[j], events[i], conf) ::
               Sendable(events[j]) && Alike(events[j], events[i], conf)
    ensures j < i && events[j].Answered? && ToldAsOf(events[i], Outcomes(events, i, conf).msg, events[j].now, up)
  {
    j := AskedOutcome(events, i, conf);
    var e, f, reply := events[i], events[j], Outcomes(events, i, conf).msg;
    hide Outcomes;
    var x := ExchangeOf(f).value;
    assert x.when == f.now && x.answer == f.answer && f.Answered?;
    hide ExchangeOf;
    hide Honest;
    hide BuildRequest;
    hide Serves;
    hide Dependent;
    assert WellFormed(e) && WellFormed(f);
    hide WellFormed;
    hide Alike;
    hide MayShare;
    hide Sendable;
    HitAgrees(f, x, e, reply, up, conf);
  }

  lemma TellsContent(base: MsgVal, answer: MsgVal, req: MsgVal, qType: nat, conf: Config)
    requires TellsOf(base, answer, req, qType, conf)
    ensures ContentOf(base) == ContentOf(RmHopToHop(answer, qType, IsDo(req)))
  {
    hide NormalizeDomain;
    hide ToldTtl;
    hide Filtered;
    hide IsDo;
    var clean := RmHopToHop(answer, qType, IsDo(req));
    forall k | 0 <= k < |clean.answer| ensures Plainly(base.answer[k]) == Plainly(clean.answer[k]) {
    }
    assert AllPlainly(base.answer) == AllPlainly(clean.answer);
  }

  /** On a miss the client is told what the upstream tells it, whatever the upstream is like. */
  lemma MissAgrees(events: seq<Event>, i: nat, up: Upstream, conf: Config)
    requires i < |events| && events[i].Answered? && AllWellFormed(events) && Outcomes(events, i, conf).Reply?
    requires AnsweredBy(events, up)
    ensures SentBy(events[i]).Some? && Built(events[i]).Some?
    ensures ToldAsOf(events[i], Outcomes(events, i, conf).msg, events[i].now, up)
  {
    var e := events[i];
    var base := AnsweredReply(events, i, conf);
    assert ExchangeOf(e).Some? && ExchangeOf(e).value.sent == SentBy(e).value && Built(e).Some?;
    hide Outcomes;
    hide SentBy;
    BuiltIsValid(e.ri, e.req, e.geo);
    hide ExchangeOf;
    hide BuildRequest;
    TellsContent(base, e.answer, e.req, e.ri.qType, conf);
    hide TellsOf;
    hide ContentOf;
    hide RmHopToHop;
    hide WithClientEcs;
    hide WellFormed;
    assert ContentOf(base) == Told(up, e.now, SentBy(e).value, Built(e).value.qType, Built(e).value.reqDo);
  }

  // ----- runs that disagree

  /** Of an OPT record that has nothing but a subnet, filtering leaves nothing. */
  lemma LoneSubnetIsDropped(m: MsgVal, subnet: Prefix, f: Family, reqDo: bool)
    requires IsValid(subnet) && m.extra == [] && SetEcs(m, subnet, f, true).Ok?
    ensures
      var out := SetEcs(m, subnet, f, true).value;
      out == m.(extra := out.extra) && Filtered(out.extra, TYPE_NONE, reqDo) == []
  {
    hide Pow2;
    var out := SetEcs(m, subnet, f, true).value;
    assert |out.extra| == 1 && out.extra[..0] == [] && Filtered([], TYPE_NONE, reqDo) == [];
    var os := out.extra[0].options;
    assert |os| == 1 && os[0].SubnetV? && os[1..] == [];
    assert OnlyEde(os) == [];
    assert FilterRr(out.extra[0], TYPE_NONE, reqDo) == None;
  }

  /** A denial for one subnet, of scope one, and one for all. */
  ghost function Refusal(question: seq<Question>, ecs: bool): MsgVal {
    if ecs && ScopedDenial(question).Ok? then ScopedDenial(question).value else Denial(question)
  }

  function ScopedDenial(question: seq<Question>): Result<MsgVal, EcsError> {
    hide Pow2;
    SetEcs(Denial(question), Prefix(V4(0), 1), IPv4, true)
  }

  lemma RefusalHasOption(q: seq<Question>, ecs: bool)
    ensures EcsFromMsg(Refusal(q, ecs)).Ok? && (ScopeOf(Refusal(q, ecs)) != 0 <==> ecs)
    ensures Refusal(q, ecs).hdr == Denial(q).hdr
  {
    var s := Prefix(V4(0), 1);
    SomeMask();
    assert EcsFromMsg(Denial(q)) == Ok(None);
    NoOptionAgrees(Denial(q), IPv4);
    SetEcsFailsIff(Denial(q), s, IPv4, true);
    EcsRoundTripIff(Denial(q), s, IPv4, true);
    SetEcsKeepsTheRest(Denial(q), s, IPv4, true);
    hide Pow2;
    hide SetEcs;
    hide EcsFromMsg;
    hide Denial;
    hide IsMasked;
    hide FamilyAgrees;
    hide LastOpt;
    hide NonSubnet;
  }

  lemma SomeMask()
    ensures IsValid(Prefix(V4(0), 1)) && IsMasked(Prefix(V4(0), 1))
  {
  }

  /** What is kept of either is the same. */
  lemma RefusalIsFiltered(q: seq<Question>, ecs: bool, qType: nat, reqDo: bool)
    ensures RmHopToHop(Refusal(q, ecs), qType, reqDo) == Denial(q)
  {
    var soa := SoaV(Header(".", 6, 1, LONGEST), "", "", 0, LONGEST);
    assert [soa][..0] == [];
    assert Filtered([], TYPE_NONE, reqDo) == [] && Filtered([], qType, reqDo) == [];
    assert Filtered([soa], TYPE_NONE, reqDo) == [soa];
    if ecs && ScopedDenial(q).Ok? {
      hide Pow2;
      LoneSubnetIsDropped(Denial(q), Prefix(V4(0), 1), IPv4, reqDo);
    }
    hide SetEcs;
    hide Filtered;
  }

  lemma DenialIsStorable(q: seq<Question>, conf: Config)
    requires |q| == 1
    ensures Storable(Denial(q)) && Lifetime(Denial(q), conf) == LongestLife(conf)
  {
    var soa := SoaV(Header(".", 6, 1, LONGEST), "", "", 0, LONGEST);
    assert [soa][..0] == [];
    assert Records(Denial(q)) == [soa];
    assert Lower([], MAX_UINT32) == MAX_UINT32;
    assert LowestTtl(Denial(q)) == LONGEST;
    hide Lower;
    hide LowestTtl;
  }

  /** The exchange that a refusal is the answer of. */
  lemma RefusalExchange(f: Event, ecs: bool, conf: Config)
    requires WellFormed(f) && f.Answered? && SentBy(f).Some? && f.answer == Refusal(f.req.question, ecs)
    requires ecs ==> f.req.question[0].name !in conf.fakes
    ensures ExchangeOf(f).Some? && Built(f).Some?
    ensures
      var x := ExchangeOf(f).value;
      x.cr == Built(f).value && x.when == f.now && Clean(x) == Denial(f.req.question) && Dependent(x, conf) == ecs
  {
    var q := f.req.question;
    RefusalHasOption(q, ecs);
    hide BuildRequest;
    hide SetEcs;
    hide EcsFromMsg;
    hide Refusal;
    var x := ExchangeOf(f).value;
    assert x.answer == f.answer && x.fqdn == q[0].name;
    RefusalIsFiltered(q, ecs, x.cr.qType, x.cr.reqDo);
    hide ExchangeOf;
    hide RmHopToHop;
    hide Denial;
    hide ScopeOf;
  }

  lemma FirstIsStored(f: Event, x: Exchange, conf: Config)
    requires f.Answered? && ExchangeOf(f) == Some(x) && Built(f).Some?
    ensures After([f], conf) == Stored(Caches([], []), Clean(x), x.cr, Dependent(x, conf), x.when, conf)
  {
    hide ExchangeOf;
    hide BuildRequest;
    hide Stored;
    hide Clean;
    hide Dependent;
    assert [f][..0] == [] && After([], conf) == Caches([], []);
  }

  /** What a lookup finds after one response. */
  lemma PresentIff(resp: MsgVal, from: CacheRequest, left: bool, when: nat, e: Event, cr: CacheRequest, conf: Config)
    requires ValidConfig(conf) && e.Asked?
    ensures
      var s := Stored(Caches([], []), resp, from, left, when, conf);
      Present(s, cr, e.ecs, e.now) <==>
        && left == e.ecs && Storable(resp) && (e.ecs ==> !cr.isEcsDeclined)
        && NewCacheKey(from, e.ecs) == NewCacheKey(cr, e.ecs) && e.now <= when + Lifetime(resp, conf)
  {
    var s := Stored(Caches([], []), resp, from, left, when, conf);
    StoredContents(Caches([], []), resp, from, left, when, conf);
    if Storable(resp) {
      LifetimeIsPositive(resp, conf);
    }
    hide Stored;
    hide Storable;
    hide NewCacheKey;
    hide Lifetime;
    hide Raised;
  }

  /** The responses that are kept at all. */
  ghost predicate KeptAtAll(clean: MsgVal) {
    && LowestTtl(clean) > 0 && !clean.hdr.truncated && |clean.question| == 1
    && (clean.hdr.rcode == 3 || clean.hdr.rcode == 2 ||
        (clean.hdr.rcode == 0 && CacheableNoError(clean, clean.question[0].qtype)))
  }

  /** The last moment at which a response is served. */
  ghost function KeptUntil(when: int, clean: MsgVal, conf: Config): int {
    var life := LowestTtl(clean) * 1_000_000_000;
    when + if conf.overrideTtl && clean.hdr.rcode != 2 && life < conf.minTtl then conf.minTtl else life
  }

  lemma KeptIs(when: int, clean: MsgVal, conf: Config)
    ensures Storable(clean) <==> KeptAtAll(clean)
    ensures when + Lifetime(clean, conf) == KeptUntil(when, clean, conf)
  {
    hide LowestTtl;
    hide CacheableNoError;
  }

  /** The two requests ask for the same, as the cache sees it. */
  ghost predicate SameKey(f: Event, e: Event)
    requires e.Asked? && Built(f).Some? && Built(e).Some?
  {
    && f.ri.host == e.ri.host && f.ri.qType == e.ri.qType && f.ri.qClass == e.ri.qClass && IsDo(f.req) == IsDo(e.req)
    && (if e.ecs then Built(f).value.subnet == Built(e).value.subnet && !Declined(e.ri)
        else Declined(f.ri) == Declined(e.ri))
  }

  lemma SameKeyIff(f: Event, e: Event)
    requires e.Asked? && Built(f).Some? && Built(e).Some?
    ensures SameKey(f, e) <==>
            && NewCacheKey(Built(f).value, e.ecs) == NewCacheKey(Built(e).value, e.ecs)
            && (e.ecs ==> !Built(e).value.isEcsDeclined)
  {
    BuiltIsValid(f.ri, f.req, f.geo);
    BuiltIsValid(e.ri, e.req, e.geo);
    hide BuildRequest;
    hide GeoQuery;
    hide IsDo;
    KeysEqualIff(Built(f).value, Built(e).value, e.ecs);
    hide NewCacheKey;
  }

  lemma GoodExchange(f: Event, conf: Config) returns (x: Exchange)
    requires WellFormed(f) && f.Answered? && SentBy(f).Some? && EcsFromMsg(f.answer).Ok? && Built(f).Some?
    ensures ExchangeOf(f) == Some(x) && x.cr == Built(f).value && x.when == f.now
    ensures Clean(x) == RmHopToHop(f.answer, f.ri.qType, IsDo(f.req)) && f.req.question != []
    ensures Dependent(x, conf) <==> ScopeOf(f.answer) != 0 && f.req.question[0].name !in conf.fakes
  {
    BuiltIsValid(f.ri, f.req, f.geo);
    hide BuildRequest;
    hide GeoQuery;
    hide SentBy;
    hide ReadFrom;
    hide IsDo;
    hide Filtered;
    hide EcsFromMsg;
    x := ExchangeOf(f).value;
  }

  /**
    When a response serves a later request: exactly if it is of a kind that is
    kept, was stored in the cache that is asked, for the same question, and is not
    too old.
   */
  lemma PairHitIff(f: Event, e: Event, conf: Config)
    requires WellFormed(e) && WellFormed(f) && ValidConfig(conf) && e.Asked? && f.Answered? && f.now <= e.now
    requires SentBy(f).Some? && EcsFromMsg(f.answer).Ok? && Built(f).Some? && Built(e).Some?
    ensures
      var clean := RmHopToHop(f.answer, f.ri.qType, IsDo(f.req));
      Outcomes([f, e], 1, conf).Reply? <==>
        && KeptAtAll(clean) && e.now <= KeptUntil(f.now, clean, conf) && SameKey(f, e)
        && (e.ecs <==> ScopeOf(f.answer) != 0 && f.req.question[0].name !in conf.fakes)
  {
    hide *;
    var x := GoodExchange(f, conf);
    var clean, cr := RmHopToHop(f.answer, f.ri.qType, IsDo(f.req)), Built(e).value;
    KeptIs(f.now, clean, conf);
    FirstIsStored(f, x, conf);
    PresentIff(clean, x.cr, Dependent(x, conf), x.when, e, cr, conf);
    SameKeyIff(f, e);
    PairIsRun(f, e);
    assert [f, e][..1] == [f];
    var j := AskedOutcome([f, e], 1, conf);
  }

  /** A refusal is kept for those who may share it. */
  lemma RefusalIsKept(f: Event, e: Event, conf: Config)
    requires WellFormed(f) && ValidConfig(conf) && f.Answered? && e.Asked? && SentBy(f).Some?
    requires MayShare(f, e, conf) && f.answer == Refusal(f.req.question, e.ecs)
    ensures ExchangeOf(f).Some? && Present(After([f], conf), Built(e).value, e.ecs, e.now)
  {
    BuiltIsValid(e.ri, e.req, e.geo);
    RefusalExchange(f, e.ecs, conf);
    var x, cr := ExchangeOf(f).value, Built(e).value;
    assert |f.req.question| == 1 && f.now <= e.now <= f.now + LongestLife(conf) && (e.ecs ==> !cr.isEcsDeclined);
    assert NewCacheKey(x.cr, e.ecs) == NewCacheKey(cr, e.ecs);
    hide *;
    FirstIsStored(f, x, conf);
    DenialIsStorable(f.req.question, conf);
    PresentIff(Clean(x), x.cr, e.ecs, x.when, e, cr, conf);
  }

  lemma RefusalIsServed(f: Event, e: Event, conf: Config) returns (reply: MsgVal)
    requires WellFormed(e) && WellFormed(f) && ValidConfig(conf) && e.Asked? && f.Answered?
    requires SentBy(f).Some? && MayShare(f, e, conf) && f.answer == Refusal(f.req.question, e.ecs)
    ensures Outcomes([f, e], 1, conf) == Reply(reply) && reply.hdr.rcode == f.answer.hdr.rcode
  {
    assert Built(e).Some? && f.now <= e.now;
    hide *;
    var events := [f, e];
    assert events[..1] == [f];
    RefusalIsKept(f, e, conf);
    PairIsRun(f, e);
    var j := AskedOutcome(events, 1, conf);
    reply := Outcomes(events, 1, conf).msg;
    FirstServes(f, e, j, reply, conf);
  }

  lemma PairIsRun(f: Event, e: Event)
    requires WellFormed(f) && WellFormed(e) && f.now <= e.now
    ensures InOrder([f, e]) && AllWellFormed([f, e])
  {
    hide WellFormed;
  }

  lemma FirstServes(f: Event, e: Event, j: nat, reply: MsgVal, conf: Config)
    requires f.Answered? && ServedFrom([f, e], 1, j, reply, conf) && WellFormed(e)
    ensures reply.hdr.rcode == f.answer.hdr.rcode
  {
    hide Serves;
    hide BuildRequest;
    hide EcsFromMsg;
    hide SetEcs;
    hide Dependent;
    hide ReadFrom;
    var x := ExchangeOf(f).value;
    assert x.answer == f.answer && |e.req.question| == 1;
    assert Serves(x, e, Built(e).value, reply, conf);
    hide *;
    ServedRepliesTo(x, e, Built(e).value, reply, conf);
    RepliesWithRcode(reply, e.req, Built(e).value.reqDo, x.answer);
  }

  lemma RepliesWithRcode(reply: MsgVal, req: MsgVal, reqDo: bool, stored: MsgVal)
    requires RepliesTo(reply, req, reqDo, stored)
    ensures reply.hdr.rcode == stored.hdr.rcode
  {
  }

  /**
    Two requests that may share an item and differ in what its key ignores are
    enough: the second one is told what an honest upstream would not have told it.
   */
  lemma MixedRunDisagrees(f: Event, e: Event, conf: Config) returns (up: Upstream)
    requires WellFormed(e) && WellFormed(f) && ValidConfig(conf) && e.Asked? && f.Answered?
    requires Sendable(e) && Sendable(f) && f.answer == Refusal(f.req.question, e.ecs) && !Alike(f, e, conf)
    ensures Honest(up, conf) && AnsweredBy([f, e], up)
    ensures
      var out := Outcomes([f, e], 1, conf);
      out.Reply? && !ToldAsOf(e, out.msg, f.now, up)
  {
    assert Built(e).Some? && Built(f).Some? && SentBy(e).Some? && SentBy(f).Some? && MayShare(f, e, conf);
    assert Denial(f.req.question).hdr.rcode != NoData([]).hdr.rcode;
    hide *;
    SentAsks(f);
    SentAsks(e);
    UnlikeQueries(f, e, conf);
    RefusalHasOption(f.req.question, e.ecs);
    var reply := RefusalIsServed(f, e, conf);
    var m, n := SentBy(f).value, SentBy(e).value;
    up := SomeTwoFaced(m, QueryOf(f), n, QueryOf(e), f.answer, NoData([]), conf);
    PairAnsweredBy(f, e, up);
    NotTold(e, reply, f.now, up);
  }

  /** The run of f and e with an upstream agrees with asking it directly. */
  ghost predicate PairAgrees(f: Event, e: Event, up: Upstream, conf: Config)
    requires f.Answered? && SentBy(f).Some? && SentBy(e).Some? && Built(e).Some?
  {
    var out := Outcomes([f.(answer := up(f.now, SentBy(f).value)), e], 1, conf);
    out.Reply? ==> ToldAsOf(e, out.msg, f.now, up)
  }

  /** The exact condition for two requests: every honest upstream is agreed with if and only if they are alike. */
  lemma AlikeIff(f: Event, e: Event, conf: Config)
    requires WellFormed(e) && WellFormed(f) && ValidConfig(conf) && e.Asked? && f.Answered?
    requires Sendable(e) && Sendable(f) && f.now <= e.now
    ensures (forall up: Upstream | Honest(up, conf) :: PairAgrees(f, e, up, conf)) <==> Alike(f, e, conf)
  {
    assert SentBy(f).Some? && SentBy(e).Some? && Built(e).Some?;
    hide *;
    if Alike(f, e, conf) {
      forall up: Upstream | Honest(up, conf) ensures PairAgrees(f, e, up, conf) {
        AlikeAgree(f, e, up, conf);
      }
    } else {
      var up := UnlikeDisagree(f, e, conf);
    }
  }

  /** Nothing but the outcome hangs on the answer. */
  lemma OtherAnswer(f: Event, e: Event, answer: MsgVal, conf: Config)
    requires f.Answered? && e.Asked?
    ensures
      var f' := f.(answer := answer);
      && (WellFormed(f') <==> WellFormed(f)) && (Sendable(f') <==> Sendable(f)) && SentBy(f') == SentBy(f)
      && (Alike(f', e, conf) <==> Alike(f, e, conf))
  {
    hide BuildRequest;
    hide ReadFrom;
    hide SetEcs;
  }

  lemma AlikeAgree(f: Event, e: Event, up: Upstream, conf: Config)
    requires WellFormed(e) && WellFormed(f) && ValidConfig(conf) && e.Asked? && f.Answered?
    requires Sendable(e) && Sendable(f) && f.now <= e.now && Alike(f, e, conf) && Honest(up, conf)
    ensures SentBy(f).Some? && SentBy(e).Some? && Built(e).Some? && PairAgrees(f, e, up, conf)
  {
    hide *;
    SendableIsSent(f);
    SendableIsSent(e);
    var g := f.(answer := up(f.now, SentBy(f).value));
    OtherAnswer(f, e, g.answer, conf);
    PairIs(f, g, e, up, conf);
    if Outcomes([g, e], 1, conf).Reply? {
      PairAnsweredBy(g, e, up);
      PairIsRun(g, e);
      var j := RunAgrees([g, e], 1, up, conf);
    }
  }

  lemma UnlikeDisagree(f: Event, e: Event, conf: Config) returns (up: Upstream)
    requires WellFormed(e) && WellFormed(f) && ValidConfig(conf) && e.Asked? && f.Answered?
    requires Sendable(e) && Sendable(f) && !Alike(f, e, conf)
    ensures SentBy(f).Some? && SentBy(e).Some? && Built(e).Some? && Honest(up, conf) && !PairAgrees(f, e, up, conf)
  {
    assert SentBy(f).Some? && SentBy(e).Some? && Built(e).Some?;
    var g := f.(answer := Refusal(f.req.question, e.ecs));
    OtherAnswer(f, e, g.answer, conf);
    assert ExchangeOf(g).Some? by {
      RefusalHasOption(f.req.question, e.ecs);
      hide SentBy;
      hide EcsFromMsg;
      hide BuildRequest;
      hide ReadFrom;
      hide Refusal;
      hide NormalizeDomain;
    }
    hide *;
    up := MixedRunDisagrees(g, e, conf);
    FirstIsAnswered(g, e, up);
    PairIs(f, g, e, up, conf);
  }

  lemma PairIs(f: Event, g: Event, e: Event, up: Upstream, conf: Config)
    requires f.Answered? && SentBy(f).Some? && SentBy(e).Some? && Built(e).Some?
    requires g == f.(answer := up(f.now, SentBy(f).value))
    ensures
      var out := Outcomes([g, e], 1, conf);
      PairAgrees(f, e, up, conf) <==> (out.Reply? ==> ToldAsOf(e, out.msg, f.now, up))
  {
    hide Outcomes;
    hide SentBy;
    hide BuildRequest;
    hide ToldAsOf;
  }

  lemma FirstIsAnswered(f: Event, e: Event, up: Upstream)
    requires f.Answered? && SentBy(f).Some? && AnsweredBy([f, e], up) && ExchangeOf(f).Some?
    ensures up(f.now, SentBy(f).value) == f.answer
  {
    hide SentBy;
    hide BuildRequest;
    hide EcsFromMsg;
    assert [f, e][0] == f;
  }

  lemma UnlikeQueries(f: Event, e: Event, conf: Config)
    requires e.Asked? && Built(e).Some? && Built(f).Some? && !Alike(f, e, conf)
    ensures !(QueryOf(f).cd == QueryOf(e).cd && ZeroAlike(QueryOf(f).subnet, QueryOf(e).subnet))
  {
    hide BuildRequest;
    hide SentDo;
    hide MayShare;
  }

  lemma PairAnsweredBy(f: Event, e: Event, up: Upstream)
    requires f.Answered? && e.Asked? && SentBy(f).Some? && up(f.now, SentBy(f).value) == f.answer
    ensures AnsweredBy([f, e], up)
  {
    hide SentBy;
    hide BuildRequest;
    hide EcsFromMsg;
  }

  lemma NotTold(e: Event, reply: MsgVal, t: int, up: Upstream)
    requires SentBy(e).Some? && Built(e).Some? && up(t, SentBy(e).value).hdr.rcode != reply.hdr.rcode
    ensures !ToldAsOf(e, reply, t, up)
  {
    hide SentBy;
    hide BuildRequest;
    if ToldAsOf(e, reply, t, up) {
      var cr := Built(e).value;
      var base: MsgVal :|
        WithClientEcs(base, e.ri) == Ok(reply) && ContentOf(base) == Told(up, t, SentBy(e).value, cr.qType, cr.reqDo);
      RcodeStays(base, e.ri, reply);
    }
  }

  lemma RcodeStays(base: MsgVal, ri: RequestInfo, reply: MsgVal)
    requires WithClientEcs(base, ri) == Ok(reply)
    ensures base.hdr.rcode == reply.hdr.rcode
  {
    if ri.ecs.Some? {
      SetEcsKeepsTheRest(base, ri.ecs.value.subnet, EcsFamFromReq(ri), true);
    }
    hide SetEcs;
  }

  /** A plain request for the address of a host, from a place for which GeoIP has the subnet s. */
  function PlainReq(cd: bool): MsgVal {
    var hdr := MsgHeader(0, false, 0, false, false, true, false, false, cd, RCODE_SUCCESS);
    MsgVal(hdr, [Question("a.", 1, 1)], [], [], [])
  }

  function PlainInfo(): RequestInfo {
    RequestInfo("a", 1, 1, V4(0), None, None)
  }

  function PlainGeo(s: Subnet): GeoIp {
    (l: Location, f: Family) => Some(s)
  }

  function PlainAnswered(s: Subnet, cd: bool): Event {
    Answered(PlainInfo(), PlainReq(cd), PlainGeo(s), Denial(PlainReq(cd).question), 0)
  }

  function PlainAsked(s: Subnet, cd: bool): Event {
    Asked(PlainInfo(), PlainReq(cd), PlainGeo(s), false, 0)
  }

  lemma PlainIsSendable(e: Event, s: Subnet, cd: bool)
    requires e.ri == PlainInfo() && e.req == PlainReq(cd) && e.geo == PlainGeo(s) && IsMasked(s) && s.ip.V4?
    ensures WellFormed(e) && Sendable(e) && !Declined(e.ri)
    ensures Built(e) == Some(CacheRequest("a", s, 1, 1, false, false))
  {
    assert "a."[..1] == "a" && LowerString("a") == "a";
    SetEcsFailsIff(e.req, s, IPv4, false);
    hide SetEcs;
    hide Masked;
    hide Pow2;
  }

  lemma PlainDisagrees(s: Subnet, cd: bool, p: Subnet, cd': bool, conf: Config) returns (up: Upstream)
    requires IsMasked(s) && s.ip.V4? && IsMasked(p) && p.ip.V4? && ValidConfig(conf)
    requires !(cd == cd' && ZeroAlike(s, p))
    ensures Honest(up, conf) && AnsweredBy([PlainAnswered(s, cd), PlainAsked(p, cd')], up)
    ensures
      var f, e := PlainAnswered(s, cd), PlainAsked(p, cd');
      && Sendable(e) && !Declined(f.ri) && !Declined(e.ri)
      && var out := Outcomes([f, e], 1, conf);
         out.Reply? && !ToldAsOf(e, out.msg, 0, up)
  {
    var f, e := PlainAnswered(s, cd), PlainAsked(p, cd');
    PlainIsSendable(f, s, cd);
    PlainIsSendable(e, p, cd');
    assert !Alike(f, e, conf) by {
      hide BuildRequest;
    }
    assert f.answer == Refusal(f.req.question, e.ecs);
    hide *;
    up := MixedRunDisagrees(f, e, conf);
  }

  /** A place that GeoIP does not know gets a subnet of length zero, whose answer is then served to places it knows. */
  lemma UnknownPlaceDisagrees(p: Subnet, conf: Config) returns (up: Upstream)
    requires IsMasked(p) && p.ip.V4? && p.bits > 0 && ValidConfig(conf)
    ensures Honest(up, conf) && AnsweredBy([PlainAnswered(ZeroPrefix(IPv4), false), PlainAsked(p, false)], up)
    ensures
      var f, e := PlainAnswered(ZeroPrefix(IPv4), false), PlainAsked(p, false);
      && Sendable(e) && !Declined(f.ri) && !Declined(e.ri)
      && var out := Outcomes([f, e], 1, conf);
         out.Reply? && !ToldAsOf(e, out.msg, 0, up)
  {
    ZeroPrefixIsMasked(IPv4);
    assert ZeroPrefix(IPv4).ip.V4? && ZeroPrefix(IPv4).bits == 0;
    hide *;
    assert !ZeroAlike(ZeroPrefix(IPv4), p) by {
      DifferInZero(ZeroPrefix(IPv4), p);
    }
    up := PlainDisagrees(ZeroPrefix(IPv4), false, p, false, conf);
  }

  lemma DifferInZero(s: Subnet, p: Subnet)
    requires s.bits == 0 && p.bits > 0
    ensures !ZeroAlike(s, p)
  {
  }

  /** With the CD bit set, a response that was not validated is served to clients that did not set it. */
  lemma CheckingDisabledDisagrees(s: Subnet, conf: Config) returns (up: Upstream)
    requires IsMasked(s) && s.ip.V4? && ValidConfig(conf)
    ensures Honest(up, conf) && AnsweredBy([PlainAnswered(s, true), PlainAsked(s, false)], up)
    ensures
      var e := PlainAsked(s, false);
      && Sendable(e)
      && var out := Outcomes([PlainAnswered(s, true), e], 1, conf);
         out.Reply? && !ToldAsOf(e, out.msg, 0, up)
  {
    hide *;
    up := PlainDisagrees(s, true, s, false, conf);
  }

  // ----- an upstream that tailors its answers

  /** The bytes of an address. */
  function AddressOf(s: Subnet): seq<Byte> {
    if s.ip.Zero? then [] else ToBytes(s.ip.v, BitLen(s.ip) / 8)
  }

  function TailoredBase(s: Subnet, name: string): MsgVal {
    var hdr := MsgHeader(0, true, 0, false, false, true, true, false, false, RCODE_SUCCESS);
    MsgVal(hdr, [], [AV(Header(name, 1, 1, 300), AddressOf(s))], [], [])
  }

  /** The answer for a subnet: its own address, under the name as it was spelt, with the subnet's length as scope. */
  function Tailored(s: Subnet, name: string): Result<MsgVal, EcsError> {
    SetEcs(TailoredBase(s, name), s, if s.ip.V4? then IPv4 else IPv6, true)
  }

  /**
    Each proper subnet has its own answer; a subnet of length zero, and a name that
    feigns support, has one answer for all, of scope zero.
   */
  ghost function AnswerTo(name: string, s: Subnet, conf: Config): MsgVal {
    if s.bits > 0 && !FakeHost(NormalizeDomain(name), conf) && Tailored(s, name).Ok?
    then Tailored(s, name).value else Denial([])
  }

  ghost function Tailor(conf: Config): Upstream {
    (t: int, m: MsgVal) =>
      var r := EcsFromMsg(m);
      if |m.question| == 1 && r.Ok? && r.value.Some? && IsValid(r.value.value.0)
      then AnswerTo(m.question[0].name, r.value.value.0, conf)
      else Denial([])
  }

  lemma TailorAnswers(t: int, m: MsgVal, q: Query, conf: Config) returns (name: string)
    requires Asks(m, q)
    ensures NormalizeDomain(name) == q.host && Tailor(conf)(t, m) == AnswerTo(name, q.subnet, conf)
    ensures IsMasked(q.subnet)
  {
    name := m.question[0].name;
    ReadIsMaskedToo(m, q.subnet);
    hide EcsFromMsg;
    hide AnswerTo;
    hide NormalizeDomain;
    hide IsDo;
    hide IsMasked;
  }

  lemma ReadIsMaskedToo(m: MsgVal, s: Subnet)
    requires EcsFromMsg(m) == Ok(Some((s, 0)))
    ensures IsMasked(s)
  {
    hide Pow2;
    hide LastOpt;
    hide FirstSubnet;
    hide IpToAddr;
  }

  lemma TailoredScope(s: Subnet, name: string)
    requires IsMasked(s) && s.bits > 0
    ensures Tailored(s, name).Ok? && ScopeOf(Tailored(s, name).value) == s.bits
  {
    var base := TailoredBase(s, name);
    var f := if s.ip.V4? then IPv4 else IPv6;
    SubnetHasFamily(s);
    SetEcsFailsIff(base, s, f, true);
    assert EcsFromMsg(base) == Ok(None);
    NoOptionAgrees(base, f);
    EcsRoundTripIff(base, s, f, true);
    hide SetEcs;
    hide EcsFromMsg;
    hide Pow2;
    hide ToBytes;
  }

  lemma AnswerScope(name: string, s: Subnet, conf: Config)
    requires IsMasked(s) && s.bits > 0 && !FakeHost(NormalizeDomain(name), conf)
    ensures ScopeOf(AnswerTo(name, s, conf)) != 0
  {
    TailoredScope(s, name);
    hide Tailored;
    hide ScopeOf;
    hide IsMasked;
    hide NormalizeDomain;
  }

  lemma TailorScopes(t: int, m: MsgVal, q: Query, n: MsgVal, s: Subnet, reqDo: bool, conf: Config)
    requires Asks(m, q) && Asks(n, q.(subnet := s)) && ZeroAlike(q.subnet, s)
    requires ScopeOf(Tailor(conf)(t, m)) == 0 || FakeHost(q.host, conf)
    ensures Told(Tailor(conf), t, m, q.qType, reqDo) == Told(Tailor(conf), t, n, q.qType, reqDo)
  {
    var name := TailorAnswers(t, m, q, conf);
    var other := TailorAnswers(t, n, q.(subnet := s), conf);
    hide Tailor;
    hide ScopeOf;
    hide NormalizeDomain;
    if q.subnet.bits > 0 && !FakeHost(q.host, conf) {
      AnswerScope(name, q.subnet, conf);
    }
    hide Tailored;
    hide Asks;
    hide IsMasked;
    hide ContentOf;
    hide RmHopToHop;
  }

  /** The spelling of the name makes no difference to what is said. */
  lemma SpellingIsNothing(name: string, other: string, s: Subnet, qType: nat, reqDo: bool, conf: Config)
    requires NormalizeDomain(name) == NormalizeDomain(other) && IsMasked(s)
    ensures ContentOf(RmHopToHop(AnswerTo(name, s, conf), qType, reqDo)) ==
            ContentOf(RmHopToHop(AnswerTo(other, s, conf), qType, reqDo))
  {
    if s.bits > 0 {
      TailoredScope(s, name);
      TailoredScope(s, other);
      TailoredContent(s, name, qType, reqDo);
      TailoredContent(s, other, qType, reqDo);
    }
    hide Tailored;
    hide ContentOf;
    hide RmHopToHop;
    hide IsMasked;
    hide NormalizeDomain;
    hide ScopeOf;
  }

  lemma TailorIsOneVoiced(t: int, m: MsgVal, q: Query, n: MsgVal, p: Query, reqDo: bool, conf: Config)
    requires Asks(m, q) && Asks(n, p) && q.host == p.host && q.subnet == p.subnet && q.qType == p.qType
    ensures Told(Tailor(conf), t, m, q.qType, reqDo) == Told(Tailor(conf), t, n, q.qType, reqDo)
  {
    var name := TailorAnswers(t, m, q, conf);
    var other := TailorAnswers(t, n, p, conf);
    hide Tailor;
    hide NormalizeDomain;
    hide AnswerTo;
    hide Asks;
    hide IsMasked;
    hide ContentOf;
    hide RmHopToHop;
    SpellingIsNothing(name, other, q.subnet, q.qType, reqDo, conf);
  }

  /** It is honest ... */
  lemma TailorIsHonest(conf: Config)
    ensures Honest(Tailor(conf), conf)
  {
    var up := Tailor(conf);
    hide Tailor;
    hide ContentOf;
    hide RmHopToHop;
    hide ScopeOf;
    hide Asks;
    hide ZeroAlike;
    forall t: int, m: MsgVal, n: MsgVal, q: Query, s: Subnet, reqDo: bool |
      && Asks(m, q) && Asks(n, q.(subnet := s)) && ZeroAlike(q.subnet, s)
      && (ScopeOf(up(t, m)) == 0 || FakeHost(q.host, conf))
      ensures Told(up, t, m, q.qType, reqDo) == Told(up, t, n, q.qType, reqDo)
    {
      TailorScopes(t, m, q, n, s, reqDo, conf);
    }
    forall t: int, m: MsgVal, n: MsgVal, q: Query, d: bool | Asks(m, q) && Asks(n, q.(sentDo := d))
      ensures Told(up, t, m, q.qType, false) == Told(up, t, n, q.qType, false)
    {
      TailorIsOneVoiced(t, m, q, n, q.(sentDo := d), false, conf);
    }
    forall t: int, m: MsgVal, n: MsgVal, q: Query, reqDo: bool | Asks(m, q) && Asks(n, q)
      ensures Told(up, t, m, q.qType, reqDo) == Told(up, t, n, q.qType, reqDo)
    {
      TailorIsOneVoiced(t, m, q, n, q, reqDo, conf);
    }
  }

  /** ... and yet tells clients in different places different things. */
  lemma TailorTailors(m: MsgVal, q: Query, n: MsgVal, p: Query, t: int, reqDo: bool, conf: Config)
    requires Asks(m, q) && Asks(n, p) && !FakeHost(q.host, conf) && !FakeHost(p.host, conf)
    requires q.subnet.bits > 0 && p.subnet.bits > 0 && q.subnet.ip.V4? == p.subnet.ip.V4? && q.subnet.ip != p.subnet.ip
    ensures Told(Tailor(conf), t, m, q.qType, reqDo) != Told(Tailor(conf), t, n, p.qType, reqDo)
  {
    var name := TailorAnswers(t, m, q, conf);
    var other := TailorAnswers(t, n, p, conf);
    TailoredScope(q.subnet, name);
    TailoredScope(p.subnet, other);
    TailoredContent(q.subnet, name, q.qType, reqDo);
    TailoredContent(p.subnet, other, p.qType, reqDo);
    AddressesDiffer(q.subnet, p.subnet);
    hide Tailor;
    hide Tailored;
    hide Asks;
    hide AddressOf;
    hide RmHopToHop;
    hide ContentOf;
    hide IsMasked;
    hide NormalizeDomain;
  }

  lemma TailoredContent(s: Subnet, name: string, qType: nat, reqDo: bool)
    requires Tailored(s, name).Ok?
    ensures ContentOf(RmHopToHop(Tailored(s, name).value, qType, reqDo)) ==
            Content(RCODE_SUCCESS, [AV(Header(NormalizeDomain(name), 1, 1, 0), AddressOf(s))], [], [])
  {
    var a := AV(Header(name, 1, 1, 300), AddressOf(s));
    hide AddressOf;
    hide NormalizeDomain;
    LoneSubnetIsDropped(TailoredBase(s, name), s, if s.ip.V4? then IPv4 else IPv6, reqDo);
    assert [a][..0] == [] && Filtered([], qType, reqDo) == [] && Filtered([], TYPE_NONE, reqDo) == [];
    assert Filtered([a], qType, reqDo) == [a];
    hide SetEcs;
    hide Filtered;
    assert AllPlainly([a]) == [Plainly(a)];
  }

  lemma AddressesDiffer(s: Subnet, p: Subnet)
    requires s.ip.V4? == p.ip.V4? && s.ip != p.ip
    ensures AddressOf(s) != AddressOf(p)
  {
    SubnetHasFamily(s);
    SubnetHasFamily(p);
    hide Pow2;
    hide ToBytes;
    hide FromBytes;
    BytesRoundTrip(s.ip.v, BitLen(s.ip) / 8);
    BytesRoundTrip(p.ip.v, BitLen(p.ip) / 8);
  }
}
