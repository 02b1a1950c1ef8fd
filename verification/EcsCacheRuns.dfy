/**
  What the ECS cache does over whole runs (internal/ecscache): requests looked up
  and responses stored, in any order and with any upstream.
 */
module EcsCacheRuns {
  import opened Wrappers
  import opened NetIp
  import opened DnsValues
  import opened MsgOps
  import opened EcsOption
  import opened LruCache
  import opened EcsCache
  import opened EcsServe

  /**
    The steps of ServeDNS that touch a cache, each under one lock: a request looked
    up in the one cache or the other, and one answered by the upstream.  A request
    that misses in the first is looked up in the second, with any steps of other
    requests in between.  geo is the GeoIP data as of that request.
   */
  datatype Event =
    | Asked(ri: RequestInfo, req: MsgVal, geo: GeoIp, ecs: bool, now: nat)
    | Answered(ri: RequestInfo, req: MsgVal, geo: GeoIp, answer: MsgVal, now: nat)

  /** The request info was read from the request, which has one question. */
  ghost predicate WellFormed(e: Event) {
    && ReadFrom(e.ri, e.req) && |e.req.question| == 1
    && e.ri.host == NormalizeDomain(e.req.question[0].name)
    && e.ri.qType == e.req.question[0].qtype && e.ri.qClass == e.req.question[0].qclass
  }

  ghost predicate AllWellFormed(events: seq<Event>) {
    forall i | 0 <= i < |events| :: WellFormed(events[i])
  }

  ghost predicate InOrder(events: seq<Event>) {
    forall i, j | 0 <= i < j < |events| :: events[i].now <= events[j].now
  }

  function Built(e: Event): Option<CacheRequest> {
    BuildRequest(e.ri, e.req, e.geo)
  }

  /** The request sent upstream, unless the lookup failed or found a subnet of the wrong family. */
  function SentBy(e: Event): Option<MsgVal> {
    match Built(e)
    case None => None
    case Some(cr) =>
      match SetEcs(e.req, cr.subnet, EcsFamFromReq(e.ri), false)
      case Err(_) => None
      case Ok(m) => Some(m)
  }

  /** What comes of a response: nothing if it cannot have been asked for or has a malformed option. */
  function ExchangeOf(e: Event): Option<Exchange> {
    if e.Answered? && SentBy(e).Some? && EcsFromMsg(e.answer).Ok? && e.req.question != []
    then Some(Exchange(Built(e).value, e.req.question[0].name, SentBy(e).value, e.answer, e.now))
    else None
  }

  // ----- the run as a function

  datatype Outcome = Miss | Reply(msg: MsgVal) | Failed

  function ReplyWith(r: Result<MsgVal, EcsError>): Outcome {
    if r.Ok? then Reply(r.value) else Failed
  }

  /** The outcome of a lookup, with writeCachedResponse. */
  function FoundOutcome(hit: Option<CacheItem>, e: Event, cr: CacheRequest): Outcome {
    match hit
    case None => Miss
    case Some(item) => ReplyWith(WithClientEcs(FromCacheItem(item, e.req, cr.reqDo, e.now), e.ri))
  }

  /** The outcome of a response, with writeUpstreamResponse: the client gets it as it was stored. */
  ghost function StoredOutcome(x: Exchange, e: Event, conf: Config): Outcome {
    var m := if Storable(Clean(x)) then Raised(Clean(x), conf) else Clean(x);
    ReplyWith(WithClientEcs(SetRespAd(m, e.req.hdr.authenticatedData, x.cr.reqDo), e.ri))
  }

  ghost function OutcomeOf(s: Caches, e: Event, conf: Config): Outcome {
    var cr := Built(e);
    if cr.None? then Failed
    else if e.Asked? then FoundOutcome(LookIn(s, cr.value, e.ecs, e.now).0, e, cr.value)
    else
      match ExchangeOf(e)
      case None => Failed
      case Some(x) => StoredOutcome(x, e, conf)
  }

  ghost function Next(s: Caches, e: Event, conf: Config): Caches {
    var cr := Built(e);
    if cr.None? then s
    else if e.Asked? then LookIn(s, cr.value, e.ecs, e.now).1
    else
      match ExchangeOf(e)
      case None => s
      case Some(x) => Stored(s, Clean(x), x.cr, Dependent(x, conf), x.when, conf)
  }

  /** The caches after a run. */
  ghost function After(events: seq<Event>, conf: Config): Caches {
    if events == [] then Caches([], []) else Next(After(events[..|events| - 1], conf), events[|events| - 1], conf)
  }

  /** The outcome of event i. */
  ghost function Outcomes(events: seq<Event>, i: nat, conf: Config): Outcome
    requires i < |events|
  {
    OutcomeOf(After(events[..i], conf), events[i], conf)
  }

  // ----- the code computes it

  /** The part of ServeDNS that answers from one of the caches. */
  method ServeCached(mw: Middleware, e: Event, cr: CacheRequest) returns (out: Outcome)
    requires mw.Valid() && e.Asked?
    modifies mw.cache, mw.ecsCache
    ensures mw.Valid()
    ensures out == FoundOutcome(LookIn(old(mw.State()), cr, e.ecs, e.now).0, e, cr)
    ensures mw.State() == LookIn(old(mw.State()), cr, e.ecs, e.now).1
  {
    hide LookIn;
    hide FromCacheItem;
    hide WithClientEcs;
    hide Sound;
    var hit := mw.GetFrom(cr, e.ecs, e.now);
    if hit.None? {
      return Miss;
    }
    var resp := FromCacheItem(hit.value, e.req, cr.reqDo, e.now);
    var r := WithClientEcs(resp, e.ri);
    return if r.Err? then Failed else Reply(r.value);
  }

  /** Both lookups of a request with nothing in between are the two steps in order; the second is for misses only. */
  method ServeFromCaches(mw: Middleware, e: Event, cr: CacheRequest) returns (out: Outcome)
    requires mw.Valid() && e.Asked? && !e.ecs && Built(e) == Some(cr)
    modifies mw.cache, mw.ecsCache
    ensures mw.Valid()
    ensures
      var s, second := old(mw.State()), e.(ecs := true);
      var first, s1 := OutcomeOf(s, e, mw.conf), Next(s, e, mw.conf);
      if first == Miss
      then out == OutcomeOf(s1, second, mw.conf) && mw.State() == Next(s1, second, mw.conf)
      else out == first && mw.State() == s1
  {
    hide LookIn;
    hide BuildRequest;
    hide FromCacheItem;
    hide WithClientEcs;
    assert Built(e.(ecs := true)) == Built(e);
    var hit := mw.Get(cr, e.now);
    if hit.None? {
      return Miss;
    }
    var resp := FromCacheItem(hit.value.0, e.req, cr.reqDo, e.now);
    var r := WithClientEcs(resp, e.ri);
    return if r.Err? then Failed else Reply(r.value);
  }

  /** writeUpstreamResponse: a malformed option of the upstream makes it fail, and then nothing is stored. */
  method ServeUpstream(mw: Middleware, e: Event) returns (out: Outcome)
    requires mw.Valid() && e.Answered? && SentBy(e).Some? && e.req.question != []
    modifies mw.cache, mw.ecsCache
    ensures mw.Valid()
    ensures EcsFromMsg(e.answer).Err? ==> out == Failed && mw.State() == old(mw.State())
    ensures EcsFromMsg(e.answer).Ok? ==>
      var x := ExchangeOf(e).value;
      && out == StoredOutcome(x, e, mw.conf)
      && mw.State() == Stored(old(mw.State()), Clean(x), x.cr, Dependent(x, mw.conf), x.when, mw.conf)
  {
    hide EcsFromMsg;
    hide RmHopToHop;
    hide Storable;
    hide Stored;
    hide SetRespAd;
    hide WithClientEcs;
    hide SentBy;
    hide BuildRequest;
    assert Built(e).Some? by {
      SentIsBuilt(e);
    }
    var cr := Built(e).value;
    var ecs := ReadEcs(e.answer);
    if ecs.Err? {
      return Failed;
    }
    assert cr.qType == e.ri.qType by {
      BuiltIsValid(e.ri, e.req, e.geo);
    }
    var clean := RmHopToHop(e.answer, e.ri.qType, cr.reqDo);
    var scope := if ecs.value.Some? then ecs.value.value.1 else 0;
    var isEcs := RespIsEcsDependent(scope, e.req.question[0].name, mw.conf);
    var m := mw.Set(clean, cr, isEcs, e.now);
    var r := WithClientEcs(SetRespAd(m, e.req.hdr.authenticatedData, cr.reqDo), e.ri);
    return if r.Err? then Failed else Reply(r.value);
  }

  lemma SentIsBuilt(e: Event)
    requires SentBy(e).Some?
    ensures Built(e).Some?
  {
    hide SetEcs;
    hide BuildRequest;
  }

  /** The cache request has what the client asked for; it cannot be built exactly if the lookup of the subnet fails. */
  lemma BuiltIsValid(ri: RequestInfo, req: MsgVal, geo: GeoIp)
    ensures
      var cr := BuildRequest(ri, req, geo);
      && (exists l: Location, f: Family ::
            && GeoQuery(ri, l, f)
            && (cr.None? <==> !Declined(ri) && geo(l, f).None?)
            && (cr.Some? && Declined(ri) ==> cr.value.subnet.bits == 0 && FamilyOf(cr.value.subnet.ip) == Some(f))
            && (cr.Some? && !Declined(ri) ==> geo(l, f) == Some(cr.value.subnet)))
      && (cr.Some? ==>
            && cr.value.host == ri.host && cr.value.qType == ri.qType && cr.value.qClass == ri.qClass
            && cr.value.reqDo == IsDo(req) && cr.value.isEcsDeclined == Declined(ri)
            && (Declined(ri) <==> ri.ecs.Some? && ri.ecs.value.subnet.bits == 0))
      && (cr.Some? && Declined(ri) ==> cr.value.subnet.bits == 0)
  {
    GeoQueryIff(ri, LocFromReq(ri), EcsFamFromReq(ri));
    hide IsDo;
    hide LocFromReq;
    hide EcsFamFromReq;
    hide GeoQuery;
  }

  /** ServeDNS for one event. */
  method Step(mw: Middleware, e: Event) returns (out: Outcome)
    requires mw.Valid() && e.req.question != []
    modifies mw.cache, mw.ecsCache
    ensures mw.Valid()
    ensures out == OutcomeOf(old(mw.State()), e, mw.conf)
    ensures mw.State() == Next(old(mw.State()), e, mw.conf)
  {
    hide BuildRequest;
    hide SetEcs;
    hide EcsFromMsg;
    hide StoredOutcome;
    hide FoundOutcome;
    hide Stored;
    hide LookIn;
    var cr := Built(e);
    if cr.None? {
      return Failed;
    }
    if e.Asked? {
      out := ServeCached(mw, e, cr.value);
    } else {
      var sent := SentBy(e);
      if sent.None? {
        return Failed;
      }
      out := ServeUpstream(mw, e);
    }
  }

  /** Any run of an initially empty cache has exactly the outcomes of the function. */
  method Run(mw: Middleware, events: seq<Event>) returns (outs: seq<Outcome>)
    requires mw.Valid() && mw.State() == Caches([], []) && AllWellFormed(events)
    modifies mw.cache, mw.ecsCache
    ensures mw.Valid() && mw.State() == After(events, mw.conf)
    ensures |outs| == |events| && forall i | 0 <= i < |events| :: outs[i] == Outcomes(events, i, mw.conf)
  {
    hide *;
    outs := [];
    StartsEmpty(mw.conf);
    assert events[..0] == [];
    for i := 0 to |events|
      invariant mw.Valid() && |outs| == i && mw.State() == After(events[..i], mw.conf)
      invariant forall k | 0 <= k < i :: outs[k] == Outcomes(events, k, mw.conf)
    {
      EventAt(events, i, mw.conf);
      var out := Step(mw, events[i]);
      outs := outs + [out];
    }
    assert events[..|events|] == events;
  }

  lemma StartsEmpty(conf: Config)
    ensures After([], conf) == Caches([], [])
  {
  }

  lemma EventAt(events: seq<Event>, i: nat, conf: Config)
    requires i < |events| && AllWellFormed(events)
    ensures events[i].req.question != []
    ensures Outcomes(events, i, conf) == OutcomeOf(After(events[..i], conf), events[i], conf)
    ensures After(events[..i + 1], conf) == Next(After(events[..i], conf), events[i], conf)
  {
    hide ReadFrom;
    hide NormalizeDomain;
    hide Next;
    hide OutcomeOf;
    assert WellFormed(events[i]);
    assert events[..i + 1][..i] == events[..i];
  }

  // ----- every item goes back to a response

  ghost predicate LeftByEvent(item: Item<CacheKey, CacheItem>, e: Event, ecs: bool, conf: Config) {
    ExchangeOf(e).Some? && LeftBy(item, ExchangeOf(e).value, ecs, conf)
  }

  ghost predicate Explained(items: Items, events: seq<Event>, ecs: bool, conf: Config) {
    forall item | item in items :: exists j :: 0 <= j < |events| && LeftByEvent(item, events[j], ecs, conf)
  }

  ghost predicate Inv(s: Caches, events: seq<Event>, conf: Config) {
    Sound(s, conf) && Explained(s.plain, events, false, conf) && Explained(s.aware, events, true, conf)
  }

  lemma ExplainedLater(items: Items, more: Items, events: seq<Event>, e: Event, ecs: bool, conf: Config)
    requires Explained(items, events, ecs, conf)
    requires forall item | item in more :: item in items || LeftByEvent(item, e, ecs, conf)
    ensures Explained(more, events + [e], ecs, conf)
  {
    hide LeftByEvent;
    forall item | item in more
      ensures exists j :: 0 <= j < |events + [e]| && LeftByEvent(item, (events + [e])[j], ecs, conf)
    {
      if item in items {
        var j :| 0 <= j < |events| && LeftByEvent(item, events[j], ecs, conf);
        assert (events + [e])[j] == events[j];
      } else {
        assert (events + [e])[|events|] == e;
      }
    }
  }

  lemma StoredKeeps(s: Caches, events: seq<Event>, e: Event, conf: Config)
    requires Inv(s, events, conf) && ValidConfig(conf) && ExchangeOf(e).Some?
    ensures
      var x := ExchangeOf(e).value;
      Inv(Stored(s, Clean(x), x.cr, Dependent(x, conf), x.when, conf), events + [e], conf)
  {
    var x := ExchangeOf(e).value;
    var ecs := Dependent(x, conf);
    var s' := Stored(s, Clean(x), x.cr, ecs, x.when, conf);
    hide ExchangeOf;
    StoredContents(s, Clean(x), x.cr, ecs, x.when, conf);
    var item := Item(NewCacheKey(x.cr, ecs), Entry(ItemOf(x, conf), x.when + Lifetime(Clean(x), conf)));
    assert Storable(Clean(x)) ==> LeftByEvent(item, e, ecs, conf);
    hide Stored;
    hide Clean;
    hide Dependent;
    hide Raised;
    hide Lifetime;
    hide Storable;
    hide LeftByEvent;
    hide Explained;
    hide NewCacheKey;
    hide Sound;
    ExplainedLater(s.plain, s'.plain, events, e, false, conf);
    ExplainedLater(s.aware, s'.aware, events, e, true, conf);
  }

  lemma NextKeeps(s: Caches, events: seq<Event>, e: Event, conf: Config)
    requires Inv(s, events, conf) && ValidConfig(conf)
    ensures Inv(Next(s, e, conf), events + [e], conf)
  {
    var s' := Next(s, e, conf);
    if Built(e).Some? && e.Asked? {
      LookInFinds(s, Built(e).value, e.ecs, e.now, conf);
    }
    if Built(e).Some? && ExchangeOf(e).Some? {
      StoredKeeps(s, events, e, conf);
    } else {
      hide ExchangeOf;
      hide LookIn;
      hide BuildRequest;
      hide Explained;
      hide LeftByEvent;
      ExplainedLater(s.plain, s'.plain, events, e, false, conf);
      ExplainedLater(s.aware, s'.aware, events, e, true, conf);
    }
  }

  lemma StartKeeps(conf: Config)
    ensures Inv(Caches([], []), [], conf)
  {
  }

  lemma AfterLast(events: seq<Event>, conf: Config)
    requires events != []
    ensures After(events, conf) == Next(After(events[..|events| - 1], conf), events[|events| - 1], conf)
  {
    hide Next;
  }

  lemma {:induction false} AfterKeeps(events: seq<Event>, conf: Config)
    requires ValidConfig(conf)
    ensures Inv(After(events, conf), events, conf)
  {
    hide *;
    if events == [] {
      StartsEmpty(conf);
      StartKeeps(conf);
    } else {
      var n := |events| - 1;
      AfterKeeps(events[..n], conf);
      AfterLast(events, conf);
      NextKeeps(After(events[..n], conf), events[..n], events[n], conf);
      assert events[..n] + [events[n]] == events;
    }
  }

  /** The reply is the item left by x, aged, and with the client's own option. */
  ghost predicate Serves(x: Exchange, e: Event, cr: CacheRequest, reply: MsgVal, conf: Config) {
    && Hit(x, cr, ItemOf(x, conf), Dependent(x, conf), e.now, conf)
    && WithClientEcs(FromCacheItem(ItemOf(x, conf), e.req, cr.reqDo, e.now), e.ri) == Ok(reply)
  }

  lemma ServesOk(x: Exchange, e: Event, cr: CacheRequest, item: CacheItem, ecs: bool, conf: Config)
    requires Hit(x, cr, item, ecs, e.now, conf) && ReadFrom(e.ri, e.req)
    ensures
      var r := WithClientEcs(FromCacheItem(item, e.req, cr.reqDo, e.now), e.ri);
      r.Ok? && Serves(x, e, cr, r.value, conf)
  {
    HitHasNoSubnets(x, e.req, cr.reqDo, e.now, conf);
    if e.ri.ecs.Some? {
      ClientSeesItsSubnet(FromCacheItem(item, e.req, cr.reqDo, e.now), e.ri, e.req);
    }
    hide FromCacheItem;
    hide ItemOf;
    hide SetEcs;
    hide Storable;
    hide Clean;
    hide Lifetime;
    hide Pow2;
  }

  /** Event j of the run left what event i was served. */
  ghost predicate ServedFrom(events: seq<Event>, i: nat, j: nat, reply: MsgVal, conf: Config)
    requires i < |events|
  {
    && j < i && events[i].Asked? && Built(events[i]).Some? && ExchangeOf(events[j]).Some?
    && Dependent(ExchangeOf(events[j]).value, conf) == events[i].ecs
    && Serves(ExchangeOf(events[j]).value, events[i], Built(events[i]).value, reply, conf)
  }

  lemma LiveGoesBack(events: seq<Event>, i: nat, item: Item<CacheKey, CacheItem>, conf: Config) returns (j: nat)
    requires i < |events| && InOrder(events) && AllWellFormed(events) && Built(events[i]).Some? && events[i].Asked?
    requires exists k :: 0 <= k < i && LeftByEvent(item, events[k], events[i].ecs, conf)
    requires
      var e, cr := events[i], Built(events[i]).value;
      item.key == NewCacheKey(cr, e.ecs) && !Expired(item.entry, e.now) && (e.ecs ==> !cr.isEcsDeclined)
    ensures
      var e, cr := events[i], Built(events[i]).value;
      var r := WithClientEcs(FromCacheItem(item.entry.val, e.req, cr.reqDo, e.now), e.ri);
      r.Ok? && ServedFrom(events, i, j, r.value, conf)
  {
    var e, cr := events[i], Built(events[i]).value;
    j :| 0 <= j < i && LeftByEvent(item, events[j], e.ecs, conf);
    var x := ExchangeOf(events[j]).value;
    assert x.when == events[j].now <= e.now && Dependent(x, conf) == e.ecs;
    hide ExchangeOf;
    hide BuildRequest;
    hide LeftBy;
    hide Hit;
    hide NewCacheKey;
    hide Serves;
    hide Dependent;
    LeftIsHit(item, x, cr, e.ecs, e.now, conf);
    assert WellFormed(e);
    ServesOk(x, e, cr, item.entry.val, e.ecs, conf);
  }

  lemma RepliesIfOk(r: Result<MsgVal, EcsError>)
    requires r.Ok?
    ensures ReplyWith(r) == Reply(r.value)
  {
  }

  lemma FoundGoesBack(events: seq<Event>, i: nat, s: Caches, conf: Config) returns (j: nat)
    requires i < |events| && InOrder(events) && AllWellFormed(events) && Built(events[i]).Some? && events[i].Asked?
    requires Inv(s, events[..i], conf) && LookIn(s, Built(events[i]).value, events[i].ecs, events[i].now).0.Some?
    ensures
      var e, cr := events[i], Built(events[i]).value;
      var out := FoundOutcome(LookIn(s, cr, e.ecs, e.now).0, e, cr);
      out.Reply? && ServedFrom(events, i, j, out.msg, conf)
  {
    var e, cr := events[i], Built(events[i]).value;
    var item := LookInHit(s, cr, e.ecs, e.now, conf);
    LeftEarlier(if e.ecs then s.aware else s.plain, item, events, i, e.ecs, conf);
    var found := LookIn(s, cr, e.ecs, e.now).0;
    var r := WithClientEcs(FromCacheItem(found.value, e.req, cr.reqDo, e.now), e.ri);
    assert FoundOutcome(found, e, cr) == ReplyWith(r);
    hide *;
    j := LiveGoesBack(events, i, item, conf);
    RepliesIfOk(r);
  }

  lemma LeftEarlier(
    items: Items, item: Item<CacheKey, CacheItem>, events: seq<Event>, i: nat, ecs: bool, conf: Config)
    requires i < |events| && Explained(items, events[..i], ecs, conf) && item in items
    ensures exists k :: 0 <= k < i && LeftByEvent(item, events[k], ecs, conf)
  {
    hide LeftByEvent;
    var k :| 0 <= k < |events[..i]| && LeftByEvent(item, events[..i][k], ecs, conf);
    assert events[..i][k] == events[k];
  }

  /**
    A request fails only if no subnet is found for it, misses exactly if no live
    item is there for it in the cache that is asked, and otherwise gets what an
    earlier response left in that cache.
   */
  lemma AskedOutcome(events: seq<Event>, i: nat, conf: Config) returns (j: nat)
    requires i < |events| && events[i].Asked? && InOrder(events) && AllWellFormed(events) && ValidConfig(conf)
    ensures
      var out, cr := Outcomes(events, i, conf), Built(events[i]);
      && (out == Failed <==> cr.None?)
      && (cr.Some? ==> (out == Miss <==> !Present(After(events[..i], conf), cr.value, events[i].ecs, events[i].now)))
      && (out.Reply? ==> ServedFrom(events, i, j, out.msg, conf))
  {
    j := 0;
    AfterKeeps(events[..i], conf);
    var s, e := After(events[..i], conf), events[i];
    hide After;
    hide BuildRequest;
    hide Explained;
    hide ServedFrom;
    hide Live;
    hide FromCacheItem;
    if Built(e).Some? {
      LookInFinds(s, Built(e).value, e.ecs, e.now, conf);
      hide LookIn;
      if LookIn(s, Built(e).value, e.ecs, e.now).0.Some? {
        j := FoundGoesBack(events, i, s, conf);
      }
    }
  }

  lemma UpstreamReplies(e: Event, x: Exchange, conf: Config)
    requires WellFormed(e) && ExchangeOf(e) == Some(x)
    ensures StoredOutcome(x, e, conf).Reply?
  {
    var m := if Storable(Clean(x)) then Raised(Clean(x), conf) else Clean(x);
    var out := SetRespAd(m, e.req.hdr.authenticatedData, x.cr.reqDo);
    hide ExchangeOf;
    assert out.extra == Clean(x).extra;
    FilteredHasNoSubnets(x.answer, x.cr.qType, x.cr.reqDo);
    if e.ri.ecs.Some? {
      ClientSeesItsSubnet(out, e.ri, e.req);
    }
    hide Storable;
    hide Clean;
    hide Raised;
    hide SetEcs;
    hide EcsFromMsg;
  }

  /**
    What the client is told of an answer: the filtered records with the minimum
    TTL applied to the answer section, and the AD bit if it asked for it.
   */
  ghost predicate TellsOf(base: MsgVal, answer: MsgVal, req: MsgVal, qType: nat, conf: Config) {
    var clean := RmHopToHop(answer, qType, IsDo(req));
    && base.hdr ==
       answer.hdr.(authenticatedData := answer.hdr.authenticatedData && (req.hdr.authenticatedData || IsDo(req)))
    && base.question == answer.question && base.ns == clean.ns && base.extra == clean.extra
    && |base.answer| == |clean.answer|
    && forall k | 0 <= k < |clean.answer| :: base.answer[k] == WithTtl(clean.answer[k], ToldTtl(clean, k, conf))
  }

  /** The TTL of an answer record: the minimum is the one of the whole message, if the response is kept. */
  ghost function ToldTtl(clean: MsgVal, k: nat, conf: Config): nat
    requires k < |clean.answer|
  {
    var ttl := clean.answer[k].hdr.ttl;
    if conf.overrideTtl && clean.hdr.rcode != RCODE_SERVER_FAILURE && Storable(clean)
    then Max(ttl, Max(LowestTtl(clean) * SECOND, conf.minTtl) / SECOND % 0x1_0000_0000)
    else ttl
  }

  lemma ReplyTells(answer: MsgVal, req: MsgVal, qType: nat, conf: Config)
    ensures
      var clean := RmHopToHop(answer, qType, IsDo(req));
      var m := if Storable(clean) then Raised(clean, conf) else clean;
      TellsOf(SetRespAd(m, req.hdr.authenticatedData, IsDo(req)), answer, req, qType, conf)
  {
    hide Filtered;
    hide LowestTtl;
    hide Storable;
    hide IsDo;
  }

  lemma StoredTells(x: Exchange, e: Event, conf: Config) returns (base: MsgVal)
    requires WellFormed(e) && ExchangeOf(e) == Some(x)
    ensures TellsOf(base, e.answer, e.req, e.ri.qType, conf)
    ensures StoredOutcome(x, e, conf) == ReplyWith(WithClientEcs(base, e.ri))
  {
    BuiltIsValid(e.ri, e.req, e.geo);
    assert x.answer == e.answer && x.cr == Built(e).value;
    hide BuildRequest;
    hide ExchangeOf;
    hide ReadFrom;
    hide IsDo;
    hide Filtered;
    hide Storable;
    hide Raised;
    hide WithClientEcs;
    assert Clean(x) == RmHopToHop(e.answer, e.ri.qType, IsDo(e.req));
    var m := if Storable(Clean(x)) then Raised(Clean(x), conf) else Clean(x);
    base := SetRespAd(m, e.req.hdr.authenticatedData, x.cr.reqDo);
    assert StoredOutcome(x, e, conf) == ReplyWith(WithClientEcs(base, e.ri));
    hide *;
    ReplyTells(e.answer, e.req, e.ri.qType, conf);
  }

  /** On a miss the client is told of the upstream's answer. */
  lemma AnsweredReply(events: seq<Event>, i: nat, conf: Config) returns (base: MsgVal)
    requires i < |events| && events[i].Answered? && AllWellFormed(events) && Outcomes(events, i, conf).Reply?
    ensures WithClientEcs(base, events[i].ri) == Ok(Outcomes(events, i, conf).msg)
    ensures TellsOf(base, events[i].answer, events[i].req, events[i].ri.qType, conf)
  {
    var e := events[i];
    assert WellFormed(e) && ExchangeOf(e).Some?;
    base := StoredTells(ExchangeOf(e).value, e, conf);
    hide After;
    hide BuildRequest;
    hide ExchangeOf;
    hide StoredOutcome;
    hide TellsOf;
    hide WithClientEcs;
  }

  /** A response fails exactly if no subnet of the client's family was found or the response's option is malformed. */
  lemma AnsweredOutcome(events: seq<Event>, i: nat, conf: Config)
    requires i < |events| && events[i].Answered? && AllWellFormed(events)
    ensures
      var out, e := Outcomes(events, i, conf), events[i];
      && out != Miss
      && (out == Failed <==>
            || Built(e).None? || FamilyOf(Built(e).value.subnet.ip) != Some(EcsFamFromReq(e.ri))
            || EcsFromMsg(e.answer).Err?)
  {
    var e := events[i];
    assert WellFormed(e);
    if Built(e).Some? {
      SetEcsFailsIff(e.req, Built(e).value.subnet, EcsFamFromReq(e.ri), false);
    }
    if ExchangeOf(e).Some? {
      UpstreamReplies(e, ExchangeOf(e).value, conf);
    }
    hide After;
    hide BuildRequest;
    hide EcsFromMsg;
    hide SetEcs;
    hide StoredOutcome;
    hide EcsFamFromReq;
    hide FamilyOf;
  }

  // ----- isolation

  /** The reply is one to this very request: ID, question and flags are the client's own. */
  ghost predicate RepliesTo(reply: MsgVal, req: MsgVal, reqDo: bool, stored: MsgVal) {
    && reply.hdr.id == req.hdr.id && reply.hdr.response && reply.hdr.opcode == req.hdr.opcode
    && reply.question == req.question && reply.hdr.rcode == stored.hdr.rcode
    && reply.hdr.authoritative == stored.hdr.authoritative && reply.hdr.truncated == stored.hdr.truncated
    && reply.hdr.recursionAvailable == stored.hdr.recursionAvailable
    && (var flags := if req.hdr.opcode == 0 then req.hdr else stored.hdr;
        && reply.hdr.recursionDesired == flags.recursionDesired
        && reply.hdr.checkingDisabled == flags.checkingDisabled)
    && (reply.hdr.authenticatedData <==>
          stored.hdr.authenticatedData && (req.hdr.authenticatedData || reqDo))
  }

  lemma HitRepliesTo(x: Exchange, req: MsgVal, reqDo: bool, now: int, conf: Config)
    requires |req.question| == 1
    ensures RepliesTo(FromCacheItem(ItemOf(x, conf), req, reqDo, now), req, reqDo, x.answer)
  {
    hide Filtered;
    hide ServedTtl;
    hide LowestTtl;
  }

  lemma ServedRepliesTo(x: Exchange, e: Event, cr: CacheRequest, reply: MsgVal, conf: Config)
    requires Serves(x, e, cr, reply, conf) && |e.req.question| == 1
    ensures RepliesTo(reply, e.req, cr.reqDo, x.answer)
  {
    var base := FromCacheItem(ItemOf(x, conf), e.req, cr.reqDo, e.now);
    HitRepliesTo(x, e.req, cr.reqDo, e.now, conf);
    hide Filtered;
    if e.ri.ecs.Some? {
      SetEcsKeepsTheRest(base, e.ri.ecs.value.subnet, EcsFamFromReq(e.ri), true);
    }
    hide FromCacheItem;
    hide ItemOf;
    hide Hit;
    hide SetEcs;
  }

  /** The answer and authority records are those of the filtered response, with one TTL that fits what is left. */
  ghost predicate SameRecords(reply: MsgVal, clean: MsgVal, left: int) {
    exists ttl: nat ::
      && reply.answer == AllWithTtl(clean.answer, ttl) && reply.ns == AllWithTtl(clean.ns, ttl)
      && 2 * ttl * SECOND <= 2 * left + SECOND
  }

  lemma ServedRecords(x: Exchange, e: Event, cr: CacheRequest, reply: MsgVal, conf: Config)
    requires Serves(x, e, cr, reply, conf)
    ensures SameRecords(reply, Clean(x), x.when + Lifetime(Clean(x), conf) - e.now)
  {
    HitRecords(x, e.req, cr.reqDo, e.now, conf);
    HitTtl(x, cr, ItemOf(x, conf), Dependent(x, conf), e.req, e.now, conf);
    ClientEcsKeeps(FromCacheItem(ItemOf(x, conf), e.req, cr.reqDo, e.now), e.ri);
    var ttl := ServedTtl(Raised(Clean(x), conf), x.when, e.now);
    hide WithClientEcs;
    hide FromCacheItem;
    hide ServedTtl;
    hide Clean;
    hide Lifetime;
    hide Raised;
    hide AllWithTtl;
    hide Hit;
    assert reply.answer == AllWithTtl(Clean(x).answer, ttl) && reply.ns == AllWithTtl(Clean(x).ns, ttl);
  }

  /** The reply to e is the response f, stored as x. */
  ghost predicate Isolated(e: Event, f: Event, x: Exchange, cr: CacheRequest, reply: MsgVal, conf: Config)
    requires f.Answered? && e.Asked?
  {
    && Matches(x, cr, e.ecs, conf) && (Declined(e.ri) ==> !e.ecs)
    && f.now <= e.now <= f.now + Lifetime(Clean(x), conf)
    && RepliesTo(reply, e.req, IsDo(e.req), f.answer)
    && SameRecords(reply, Clean(x), f.now + Lifetime(Clean(x), conf) - e.now)
  }

  lemma ServesIsolates(e: Event, f: Event, x: Exchange, cr: CacheRequest, reply: MsgVal, conf: Config)
    requires e.Asked? && f.Answered? && WellFormed(e) && Built(e) == Some(cr) && Dependent(x, conf) == e.ecs
    requires x.when == f.now && x.answer == f.answer && Serves(x, e, cr, reply, conf)
    ensures Isolated(e, f, x, cr, reply, conf)
  {
    BuiltIsValid(e.ri, e.req, e.geo);
    hide BuildRequest;
    hide GeoQuery;
    ServedRepliesTo(x, e, cr, reply, conf);
    ServedRecords(x, e, cr, reply, conf);
    hide RepliesTo;
    hide SameRecords;
    hide WithClientEcs;
    hide FromCacheItem;
    hide ItemOf;
    hide IsDo;
    hide Dependent;
    hide Storable;
    hide Clean;
    hide Lifetime;
    hide ReadFrom;
  }

  /**
    Isolation: what a client is served from a cache was stored there for the same
    name, type, class and DO bit, and either for its own subnet or as independent of
    subnets; it has the records of that response, and it is not served after its
    lifetime.  Nothing is assumed of the upstream.
   */
  lemma RunIsolates(events: seq<Event>, i: nat, conf: Config) returns (j: nat)
    requires i < |events| && events[i].Asked? && Outcomes(events, i, conf).Reply?
    requires InOrder(events) && AllWellFormed(events) && ValidConfig(conf)
    ensures j < i && Built(events[i]).Some? && ExchangeOf(events[j]).Some?
    ensures Isolated(events[i], events[j], ExchangeOf(events[j]).value, Built(events[i]).value,
                     Outcomes(events, i, conf).msg, conf)
  {
    j := AskedOutcome(events, i, conf);
    var e, x, cr := events[i], ExchangeOf(events[j]).value, Built(events[i]).value;
    assert x.when == events[j].now && x.answer == events[j].answer && WellFormed(e);
    hide Outcomes;
    hide ExchangeOf;
    hide WellFormed;
    hide Serves;
    hide Isolated;
    hide Dependent;
    ServesIsolates(e, events[j], x, cr, Outcomes(events, i, conf).msg, conf);
  }
}
