/**
  Every run of Clone, Dispose and in-place edits over any number of live
  messages.  Seen from outside, the pooled messages behave like plain values.
 */
module ClonerRuns {
  import opened Wrappers
  import opened DnsValues
  import opened DnsHeap
  import opened Cloner

  // ----- editing a message in place

  /** The object that carries the header of a record. */
  ghost function HeaderObject(r: RR): object {
    match r
    case A(a) => a
    case Txt(t) => t
    case Soa(s) => s
    case Https(h) => h
    case OptRr(o) => o
    case Other(u) => u
  }

  /** The places of record i of section sec, and those of its values, options and addresses alone. */
  ghost function PlacesOf(pl: Places, sec: nat, i: nat): Places {
    map o | o in pl && InRr(pl[o], sec, i) :: pl[o]
  }

  ghost function PartsOf(pl: Places): Places {
    map o | o in pl && !pl[o].RrAt? :: pl[o]
  }

  /** What a record points at, apart from its own object. */
  ghost predicate PartsOk(r: RR, sec: nat, i: nat, parts: Places)
    reads HeaderObject(r), parts.Keys
  {
    match r
    case A(a) => IpIn(a.ip, parts.Keys) && At(a.ip.arr, StoreOf(sec, i), parts)
    case Txt(t) => StringsIn(t.txt, parts.Keys) && At(t.txt.arr, StoreOf(sec, i), parts)
    case Https(h) =>
      KvsIn(h.value, parts.Keys) && forall j: nat | j < |h.value| :: KvPlaced(h.value[j], sec, i, j, parts)
    case OptRr(o) =>
      OptsIn(o.options, parts.Keys) && forall j: nat | j < |o.options| :: OptPlaced(o.options[j], sec, i, j, parts)
    case _ => true
  }

  ghost predicate RecordOk(r: RR, sec: nat, i: nat, pl: Places)
    reads pl.Keys
  {
    RrPlaced(r, sec, i, pl) && RrIn(r, pl.Keys)
  }

  lemma OkHasParts(r: RR, sec: nat, i: nat, pl: Places)
    requires RecordOk(r, sec, i, pl)
    ensures PartsOk(r, sec, i, PartsOf(pl))
    ensures HeaderObject(r) !in PartsOf(pl)
  {
    var parts := PartsOf(pl);
    if r.Https? {
      forall j: nat | j < |r.https.value|
        ensures
          && KvIn(r.https.value[j], parts.Keys)
          && KvPlaced(r.https.value[j], sec, i, j, parts)
      {
        assert KvPlaced(r.https.value[j], sec, i, j, pl) && KvIn(r.https.value[j], pl.Keys);
      }
    } else if r.OptRr? {
      forall j: nat | j < |r.opt.options|
        ensures
          && OptIn(r.opt.options[j], parts.Keys)
          && OptPlaced(r.opt.options[j], sec, i, j, parts)
      {
        assert OptPlaced(r.opt.options[j], sec, i, j, pl) && OptIn(r.opt.options[j], pl.Keys);
      }
    }
  }

  lemma PartsMakeOk(r: RR, sec: nat, i: nat, parts: Places, pl: Places)
    requires PartsOk(r, sec, i, parts) && Extends(pl, parts) && At(HeaderObject(r), RrAt(sec, i), pl)
    ensures RecordOk(r, sec, i, pl)
  {
    if r.Https? {
      forall j: nat | j < |r.https.value|
        ensures
          && KvIn(r.https.value[j], pl.Keys)
          && KvPlaced(r.https.value[j], sec, i, j, pl)
      {
        assert KvPlaced(r.https.value[j], sec, i, j, parts) && KvIn(r.https.value[j], parts.Keys);
      }
    } else if r.OptRr? {
      forall j: nat | j < |r.opt.options|
        ensures
          && OptIn(r.opt.options[j], pl.Keys)
          && OptPlaced(r.opt.options[j], sec, i, j, pl)
      {
        assert OptPlaced(r.opt.options[j], sec, i, j, parts) && OptIn(r.opt.options[j], parts.Keys);
      }
    }
  }

  /** The meaning of a record from its own fields and its parts. */
  ghost function ValByParts(r: RR, sec: nat, i: nat, parts: Places): Record
    requires PartsOk(r, sec, i, parts)
    reads HeaderObject(r), parts.Keys
  {
    match r
    case A(a) => AV(a.hdr, IpVal(a.ip, parts.Keys))
    case Txt(t) => TxtV(t.hdr, StringsVal(t.txt, parts.Keys))
    case Soa(s) => SoaV(s.hdr, s.mname, s.rname, s.serial, s.minTtl)
    case Https(h) => HttpsV(h.hdr, h.priority, h.target, KvVals(h.value, parts.Keys))
    case OptRr(o) => OptV(o.hdr, OptVals(o.options, parts.Keys))
    case Other(u) => OtherV(u.hdr, u.kind, u.data)
  }

  lemma ValIsByParts(r: RR, sec: nat, i: nat, parts: Places, pl: Places)
    requires PartsOk(r, sec, i, parts) && Extends(pl, parts) && RecordOk(r, sec, i, pl)
    ensures RrVal(r, pl.Keys) == ValByParts(r, sec, i, parts)
  {
    hide KvVals;
    hide OptVals;
    hide KvsIn;
    hide OptsIn;
    if r.Https? {
      KvsMono(r.https.value, parts.Keys, pl.Keys);
    } else if r.OptRr? {
      OptsMono(r.opt.options, parts.Keys, pl.Keys);
    }
  }

  method SetHeaderTtl(r: RR, ttl: nat)
    modifies HeaderObject(r)
    ensures match r
            case A(a) => a.hdr == old(a.hdr).(ttl := ttl) && a.ip == old(a.ip)
            case Txt(t) => t.hdr == old(t.hdr).(ttl := ttl) && t.txt == old(t.txt)
            case Soa(s) =>
              && s.hdr == old(s.hdr).(ttl := ttl)
              && s.mname == old(s.mname) && s.rname == old(s.rname)
              && s.serial == old(s.serial) && s.minTtl == old(s.minTtl)
            case Https(h) =>
              && h.hdr == old(h.hdr).(ttl := ttl)
              && h.priority == old(h.priority) && h.target == old(h.target) && h.value == old(h.value)
            case OptRr(o) => o.hdr == old(o.hdr).(ttl := ttl) && o.options == old(o.options)
            case Other(u) => u.hdr == old(u.hdr).(ttl := ttl) && u.kind == old(u.kind) && u.data == old(u.data)
  {
    match r
    case A(a) => a.hdr := a.hdr.(ttl := ttl);
    case Txt(t) => t.hdr := t.hdr.(ttl := ttl);
    case Soa(s) => s.hdr := s.hdr.(ttl := ttl);
    case Https(h) => h.hdr := h.hdr.(ttl := ttl);
    case OptRr(o) => o.hdr := o.hdr.(ttl := ttl);
    case Other(u) => u.hdr := u.hdr.(ttl := ttl);
  }

  lemma KvsMono(kvs: seq<KV>, small: set<object>, big: set<object>)
    requires small <= big && KvsIn(kvs, small)
    ensures KvsIn(kvs, big) && KvVals(kvs, big) == KvVals(kvs, small)
  {
    hide KvVals;
    forall j | 0 <= j < |kvs| ensures KvIn(kvs[j], big) && KvVal(kvs[j], big) == KvVal(kvs[j], small) {
      KvMono(kvs[j], small, big);
    }
  }

  lemma OptsMono(os: seq<Opt>, small: set<object>, big: set<object>)
    requires small <= big && OptsIn(os, small)
    ensures OptsIn(os, big) && OptVals(os, big) == OptVals(os, small)
  {
    hide OptVals;
    forall j | 0 <= j < |os| ensures OptIn(os[j], big) && OptVal(os[j], big) == OptVal(os[j], small) {
      OptMono(os[j], small, big);
    }
  }

  /** One turn of the loop that overwrites the TTLs in fromCacheItem. */
  method SetTtl(r: RR, ttl: nat, ghost sec: nat, ghost i: nat, ghost pl: Places)
    requires RecordOk(r, sec, i, pl)
    modifies HeaderObject(r)
    ensures RecordOk(r, sec, i, pl)
    ensures RrVal(r, pl.Keys) == WithTtl(old(RrVal(r, pl.Keys)), ttl)
  {
    ghost var parts := PartsOf(pl);
    OkHasParts(r, sec, i, pl);
    ValIsByParts(r, sec, i, parts, pl);
    assert At(HeaderObject(r), RrAt(sec, i), pl);
    hide RrPlaced;
    hide RrIn;
    hide RrVal;
    hide KvPlaced;
    hide OptPlaced;
    hide KvIn;
    hide OptIn;
    hide KvVals;
    hide OptVals;
    SetHeaderTtl(r, ttl);
    PartsMakeOk(r, sec, i, parts, pl);
    ValIsByParts(r, sec, i, parts, pl);
  }

  ghost predicate SectionOk(rs: seq<RR>, sec: nat, pl: Places)
    reads pl.Keys
  {
    forall i: nat | i < |rs| :: RecordOk(rs[i], sec, i, PlacesOf(pl, sec, i))
  }

  lemma SectionIsOk(rs: seq<RR>, sec: nat, pl: Places)
    requires RrsPlaced(rs, sec, pl) && RrsIn(rs, pl.Keys)
    ensures SectionOk(rs, sec, pl)
    ensures forall i: nat | i < |rs| :: RrVal(rs[i], PlacesOf(pl, sec, i).Keys) == RrVal(rs[i], pl.Keys)
  {
    forall i: nat | i < |rs|
      ensures RecordOk(rs[i], sec, i, PlacesOf(pl, sec, i))
      ensures RrVal(rs[i], PlacesOf(pl, sec, i).Keys) == RrVal(rs[i], pl.Keys)
    {
      assert RrPlaced(rs[i], sec, i, pl) && RrIn(rs[i], pl.Keys);
      RecordRestricts(rs[i], sec, i, pl);
      RrMono(rs[i], PlacesOf(pl, sec, i).Keys, pl.Keys);
    }
  }

  lemma RecordRestricts(r: RR, sec: nat, i: nat, pl: Places)
    requires RecordOk(r, sec, i, pl)
    ensures RecordOk(r, sec, i, PlacesOf(pl, sec, i))
  {
    var sub := PlacesOf(pl, sec, i);
    if r.Https? {
      forall j: nat | j < |r.https.value|
        ensures
          && KvIn(r.https.value[j], sub.Keys)
          && KvPlaced(r.https.value[j], sec, i, j, sub)
      {
        assert KvPlaced(r.https.value[j], sec, i, j, pl) && KvIn(r.https.value[j], pl.Keys);
      }
    } else if r.OptRr? {
      forall j: nat | j < |r.opt.options|
        ensures
          && OptIn(r.opt.options[j], sub.Keys)
          && OptPlaced(r.opt.options[j], sec, i, j, sub)
      {
        assert OptPlaced(r.opt.options[j], sec, i, j, pl) && OptIn(r.opt.options[j], pl.Keys);
      }
    }
  }

  lemma SectionRejoins(rs: seq<RR>, sec: nat, pl: Places)
    requires SectionOk(rs, sec, pl)
    ensures RrsPlaced(rs, sec, pl) && RrsIn(rs, pl.Keys)
    ensures forall i: nat | i < |rs| :: RrVal(rs[i], PlacesOf(pl, sec, i).Keys) == RrVal(rs[i], pl.Keys)
  {
    forall i: nat | i < |rs|
      ensures RrPlaced(rs[i], sec, i, pl) && RrIn(rs[i], pl.Keys)
      ensures RrVal(rs[i], PlacesOf(pl, sec, i).Keys) == RrVal(rs[i], pl.Keys)
    {
      assert RecordOk(rs[i], sec, i, PlacesOf(pl, sec, i));
      RrPlacedMono(rs[i], sec, i, PlacesOf(pl, sec, i), pl);
      RrMono(rs[i], PlacesOf(pl, sec, i).Keys, pl.Keys);
    }
  }

  ghost function HeaderObjects(pl: Places, sec: nat): set<object> {
    set o | o in pl && InSection(pl[o], sec) && pl[o].RrAt?
  }

  /** One record of a section: its TTL is overwritten and the other records stay as they are. */
  method SetOneTtl(rs: seq<RR>, i: nat, ttl: nat, ghost sec: nat, ghost pl: Places)
    requires i < |rs| && SectionOk(rs, sec, pl)
    modifies HeaderObjects(pl, sec)
    ensures SectionOk(rs, sec, pl)
    ensures forall n: nat | n < |rs| ::
      RrVal(rs[n], PlacesOf(pl, sec, n).Keys) ==
      if n == i then WithTtl(old(RrVal(rs[n], PlacesOf(pl, sec, n).Keys)), ttl)
      else old(RrVal(rs[n], PlacesOf(pl, sec, n).Keys))
  {
    hide RrVal;
    hide WithTtl;
    assert RecordOk(rs[i], sec, i, PlacesOf(pl, sec, i));
    HeaderIsPlaced(rs[i], sec, i, PlacesOf(pl, sec, i));
    hide RecordOk;
    SetTtl(rs[i], ttl, sec, i, PlacesOf(pl, sec, i));
  }

  method SetSectionTtl(rs: seq<RR>, ttl: nat, ghost sec: nat, ghost pl: Places)
    requires SectionIn(rs, sec, pl)
    modifies HeaderObjects(pl, sec)
    ensures SectionIn(rs, sec, pl)
    ensures RrVals(rs, pl.Keys) == AllWithTtl(old(RrVals(rs, pl.Keys)), ttl)
  {
    SectionIsOk(rs, sec, pl);
    hide RrVal;
    hide RrVals;
    hide WithTtl;
    hide RrsPlaced;
    hide RrsIn;
    hide RecordOk;
    for i := 0 to |rs|
      invariant SectionOk(rs, sec, pl)
      invariant forall n: nat | n < |rs| ::
        RrVal(rs[n], PlacesOf(pl, sec, n).Keys) ==
        if n < i then WithTtl(old(RrVal(rs[n], PlacesOf(pl, sec, n).Keys)), ttl)
        else old(RrVal(rs[n], PlacesOf(pl, sec, n).Keys))
    {
      SetOneTtl(rs, i, ttl, sec, pl);
    }
    SectionRejoins(rs, sec, pl);
  }

  lemma HeaderIsPlaced(r: RR, sec: nat, i: nat, pl: Places)
    requires RecordOk(r, sec, i, pl)
    ensures At(HeaderObject(r), RrAt(sec, i), pl)
  {
  }

  ghost predicate SectionIn(rs: seq<RR>, sec: nat, pl: Places)
    reads pl.Keys
  {
    RrsPlaced(rs, sec, pl) && RrsIn(rs, pl.Keys)
  }

  /** The places of one section. */
  ghost function SectionPlaces(pl: Places, sec: nat): Places {
    map o | o in pl && InSection(pl[o], sec) :: pl[o]
  }

  lemma SectionRestricts(rs: seq<RR>, sec: nat, pl: Places)
    requires SectionIn(rs, sec, pl)
    ensures SectionIn(rs, sec, SectionPlaces(pl, sec))
    ensures RrVals(rs, SectionPlaces(pl, sec).Keys) == RrVals(rs, pl.Keys)
  {
    var sub := SectionPlaces(pl, sec);
    forall i: nat | i < |rs| ensures RrPlaced(rs[i], sec, i, sub) && RrIn(rs[i], sub.Keys) {
      assert RrPlaced(rs[i], sec, i, pl) && RrIn(rs[i], pl.Keys);
      RecordRestricts(rs[i], sec, i, pl);
      assert Extends(sub, PlacesOf(pl, sec, i));
      RrPlacedMono(rs[i], sec, i, PlacesOf(pl, sec, i), sub);
      RrMono(rs[i], PlacesOf(pl, sec, i).Keys, sub.Keys);
    }
    RrsMono(rs, sub.Keys, pl.Keys);
  }

  lemma SectionWidens(rs: seq<RR>, sec: nat, pl: Places)
    requires SectionIn(rs, sec, SectionPlaces(pl, sec))
    ensures SectionIn(rs, sec, pl)
    ensures RrVals(rs, SectionPlaces(pl, sec).Keys) == RrVals(rs, pl.Keys)
  {
    var sub := SectionPlaces(pl, sec);
    forall i: nat | i < |rs| ensures RrPlaced(rs[i], sec, i, pl) {
      assert RrPlaced(rs[i], sec, i, sub);
      RrPlacedMono(rs[i], sec, i, sub, pl);
    }
    RrsMono(rs, sub.Keys, pl.Keys);
  }

  /** The TTL loop of fromCacheItem over the three sections. */
  method SetTtls(answer: seq<RR>, ns: seq<RR>, extra: seq<RR>, ttl: nat, ghost p0: Places, ghost p1: Places,
    ghost p2: Places)
    requires SectionIn(answer, 0, p0) && SectionIn(ns, 1, p1) && SectionIn(extra, 2, p2)
    requires p0.Keys !! p1.Keys !! p2.Keys
    modifies p0.Keys, p1.Keys, p2.Keys
    ensures SectionIn(answer, 0, p0) && SectionIn(ns, 1, p1) && SectionIn(extra, 2, p2)
    ensures RrVals(answer, p0.Keys) == AllWithTtl(old(RrVals(answer, p0.Keys)), ttl)
    ensures RrVals(ns, p1.Keys) == AllWithTtl(old(RrVals(ns, p1.Keys)), ttl)
    ensures RrVals(extra, p2.Keys) == AllWithTtl(old(RrVals(extra, p2.Keys)), ttl)
  {
    hide RrsPlaced;
    hide RrsIn;
    hide RrVals;
    hide AllWithTtl;
    SetSectionTtl(answer, ttl, 0, p0);
    SetSectionTtl(ns, ttl, 1, p1);
    SetSectionTtl(extra, ttl, 2, p2);
  }

  lemma SplitMsg(m: Msg)
    requires m.Owned()
    ensures
      var p0, p1, p2 := SectionPlaces(m.places, 0), SectionPlaces(m.places, 1), SectionPlaces(m.places, 2);
      && m.HasSlots(m.places.Keys)
      && SectionIn(Rrs(m.answer), 0, p0) && SectionIn(Rrs(m.ns), 1, p1) && SectionIn(Rrs(m.extra), 2, p2)
      && p0.Keys !! p1.Keys !! p2.Keys && m !in p0 && m !in p1 && m !in p2
      && p0.Keys <= m.places.Keys && p1.Keys <= m.places.Keys && p2.Keys <= m.places.Keys
      && m.Val(m.places.Keys) ==
         MsgVal(m.hdr, m.question, RrVals(Rrs(m.answer), p0.Keys), RrVals(Rrs(m.ns), p1.Keys),
                RrVals(Rrs(m.extra), p2.Keys))
  {
    SectionRestricts(Rrs(m.answer), 0, m.places);
    SectionRestricts(Rrs(m.ns), 1, m.places);
    SectionRestricts(Rrs(m.extra), 2, m.places);
    hide RrVals;
    hide RrsIn;
    hide RrsPlaced;
  }

  lemma JoinMsg(m: Msg)
    requires At(m, Top, m.places) && m.SlotsPlaced(m.places) && m.HasSlots(m.places.Keys)
    requires SectionIn(Rrs(m.answer), 0, SectionPlaces(m.places, 0))
    requires SectionIn(Rrs(m.ns), 1, SectionPlaces(m.places, 1))
    requires SectionIn(Rrs(m.extra), 2, SectionPlaces(m.places, 2))
    ensures m.Owned()
  {
    SectionWidens(Rrs(m.answer), 0, m.places);
    SectionWidens(Rrs(m.ns), 1, m.places);
    SectionWidens(Rrs(m.extra), 2, m.places);
    hide RrVals;
    hide RrsIn;
    hide RrsPlaced;
  }

  /** The same on a message of its own: every record gets the new TTL and nothing else changes. */
  method OverwriteTtl(m: Msg, ttl: nat)
    requires m.Owned()
    modifies m.places.Keys - {m}
    ensures m.Owned()
    ensures m.Val(m.places.Keys) == MsgWithTtl(old(m.Val(m.places.Keys)), ttl)
  {
    SplitMsg(m);
    hide SectionIn;
    hide RrsIn;
    hide RrsPlaced;
    hide RrVals;
    hide AllWithTtl;
    hide SectionPlaces;
    SetTtls(
      m.answer.arr[..m.answer.len], m.ns.arr[..m.ns.len], m.extra.arr[..m.extra.len], ttl,
      SectionPlaces(m.places, 0), SectionPlaces(m.places, 1), SectionPlaces(m.places, 2));
    JoinMsg(m);
    SplitMsg(m);
  }

  // ----- runs

  /**
    Messages are named by number; a disposed one may not be used again.  CloneFrom
    clones a foreign message, such as one that was unpacked: it need not own its
    parts, and is neither changed nor disposed of.
   */
  datatype Op = CloneOf(i: nat) | DisposeOf(i: nat) | SetTtlOf(i: nat, ttl: nat) | CloneFrom(i: nat)

  type Values = seq<Option<MsgVal>>

  predicate IsLive(vs: Values, i: nat) {
    i < |vs| && vs[i].Some?
  }

  /** What an operation does when messages are plain values; fs are those of the foreign messages. */
  function Meaning(vs: Values, fs: seq<MsgVal>, op: Op): Values {
    if op.CloneFrom? then
      if op.i < |fs| then vs + [Some(fs[op.i])] else vs
    else if !IsLive(vs, op.i) then vs
    else
      match op
      case CloneOf(i) => vs + [vs[i]]
      case DisposeOf(i) => vs[i := None]
      case SetTtlOf(i, ttl) => vs[i := Some(MsgWithTtl(vs[i].value, ttl))]
  }

  function MeaningOf(vs: Values, fs: seq<MsgVal>, ops: seq<Op>): Values {
    if ops == [] then vs else Meaning(MeaningOf(vs, fs, ops[..|ops| - 1]), fs, ops[|ops| - 1])
  }

  /** The stored message has the value, lies within all and shares nothing with the pools. */
  ghost predicate Holds(c: Cloner, m: Msg?, v: Option<MsgVal>, all: set<object>)
    reads c, all
  {
    if m == null then v.None?
    else
      && m in all && m in m.places && m.places.Keys <= all
      && m.Owned() && v == Some(m.Val(m.places.Keys))
      && m.places.Keys !! c.owner.Keys
  }

  ghost predicate Apart(m: Msg?, n: Msg?, all: set<object>)
    reads all
  {
    m != null && n != null && m in all && n in all ==> m.places.Keys !! n.places.Keys
  }

  ghost predicate AllHold(c: Cloner, live: seq<Msg?>, vs: Values, all: set<object>)
    requires |live| == |vs|
    reads c, all
  {
    forall i | 0 <= i < |live| :: Holds(c, live[i], vs[i], all)
  }

  ghost predicate AllApart(live: seq<Msg?>, all: set<object>)
    reads all
  {
    forall i, j | 0 <= i < j < |live| :: Apart(live[i], live[j], all)
  }

  /**
    all holds every pooled object and every object of a live message.  Live
    messages and pools are pairwise disjoint, and each message has its value.
   */
  ghost predicate Sound(c: Cloner, live: seq<Msg?>, vs: Values, all: set<object>)
    reads c, all
  {
    && c !in all && c.owner.Keys <= all && c.Valid()
    && |live| == |vs| && AllHold(c, live, vs, all) && AllApart(live, all)
  }

  lemma CopyHolds(c: Cloner, m: Msg, orig: Msg, objs: set<object>, v: MsgVal, all: set<object>)
    requires MsgCopy(m, orig, objs) && orig.Val(objs) == v
    requires m.places.Keys <= all && m.places.Keys !! c.owner.Keys
    ensures Holds(c, m, Some(v), all)
  {
    hide RrsIn;
    hide RrsPlaced;
    hide RrVals;
  }

  /** A clone of any message that shares nothing with the pools. */
  method StepCloneOf(
    c: Cloner, live: seq<Msg?>, source: Msg, ghost v: MsgVal, ghost objs: set<object>, ghost vs: Values,
    ghost all: set<object>)
    returns (m: Msg)
    requires Sound(c, live, vs, all) && HasValue(source, v, objs) && objs !! c.owner.Keys && c !in objs
    modifies c, all
    ensures Sound(c, live + [m], vs + [Some(v)], all + m.places.Keys)
    ensures fresh(m.places.Keys - all)
  {
    hide Msg.Owned;
    hide Msg.Val;
    hide Msg.In;
    hide MsgCopy;
    hide Cloner.Valid;
    var clone, _ := c.Clone(source, objs);
    m := clone;
    ghost var more := all + m.places.Keys;
    CopyHolds(c, m, source, objs, v, more);
    forall k | 0 <= k < |live| ensures Holds(c, live[k], vs[k], more) && Apart(live[k], m, more) {
      assert old(Holds(c, live[k], vs[k], all));
    }
    forall j, k | 0 <= j < k < |live| ensures Apart(live[j], live[k], more) {
      assert old(Apart(live[j], live[k], all));
      assert old(Holds(c, live[j], vs[j], all)) && old(Holds(c, live[k], vs[k], all));
    }
  }

  method StepClone(c: Cloner, live: seq<Msg?>, i: nat, ghost vs: Values, ghost all: set<object>) returns (m: Msg)
    requires Sound(c, live, vs, all) && i < |live| && live[i] != null
    modifies c, all
    ensures Sound(c, live + [m], vs + [vs[i]], all + m.places.Keys)
    ensures fresh(m.places.Keys - all)
  {
    assert Holds(c, live[i], vs[i], all);
    HeldHasValue(c, live[i], vs[i], all);
    hide *;
    m := StepCloneOf(c, live, live[i], vs[i].value, live[i].places.Keys, vs, all);
  }

  lemma HeldHasValue(c: Cloner, m: Msg, v: Option<MsgVal>, all: set<object>)
    requires m in all && m.places.Keys <= all && Holds(c, m, v, all) && c !in all
    ensures v.Some? && HasValue(m, v.value, m.places.Keys) && m.places.Keys !! c.owner.Keys && c !in m.places.Keys
  {
    hide RrsIn;
    hide RrsPlaced;
    hide RrVals;
  }

  /** The foreign messages have their values, within base. */
  ghost predicate HaveValues(sources: seq<Msg>, fs: seq<MsgVal>, base: set<object>)
    reads base
  {
    |sources| == |fs| && forall k | 0 <= k < |sources| :: HasValue(sources[k], fs[k], base)
  }

  ghost predicate HasValue(source: Msg, v: MsgVal, base: set<object>)
    reads base
  {
    source in base && source.In(base) && source.Val(base) == v
  }

  method StepDispose(c: Cloner, live: seq<Msg?>, i: nat, ghost vs: Values, ghost all: set<object>)
    requires Sound(c, live, vs, all) && i < |live| && live[i] != null
    modifies c
    ensures Sound(c, live[i := null], vs[i := None], all)
  {
    hide Msg.Owned;
    hide Msg.In;
    hide Msg.Val;
    hide RrsIn;
    hide RrsPlaced;
    hide RrVals;
    hide Cloner.Valid;
    assert Holds(c, live[i], vs[i], all);
    c.Dispose(live[i]);
    forall k | 0 <= k < |live| && k != i ensures Holds(c, live[k], vs[k], all) {
      assert old(Holds(c, live[k], vs[k], all));
      assert Apart(live[if i < k then i else k], live[if i < k then k else i], all);
    }
  }

  method StepSetTtl(c: Cloner, live: seq<Msg?>, i: nat, ttl: nat, ghost vs: Values, ghost all: set<object>)
    requires Sound(c, live, vs, all) && i < |live| && live[i] != null
    modifies all
    ensures Sound(c, live, vs[i := Some(MsgWithTtl(vs[i].value, ttl))], all)
  {
    hide RrsIn;
    hide RrsPlaced;
    hide RrVals;
    hide AllWithTtl;
    hide Cloner.Valid;
    assert Holds(c, live[i], vs[i], all);
    OverwriteTtl(live[i], ttl);
    forall k | 0 <= k < |live| && k != i ensures Holds(c, live[k], vs[k], all) {
      assert old(Holds(c, live[k], vs[k], all));
      assert old(Apart(live[if i < k then i else k], live[if i < k then k else i], all));
    }
    forall j, k | 0 <= j < k < |live| ensures Apart(live[j], live[k], all) {
      assert old(Apart(live[j], live[k], all));
      assert old(Holds(c, live[j], vs[j], all)) && old(Holds(c, live[k], vs[k], all));
    }
  }

  lemma LiveIffValue(c: Cloner, live: seq<Msg?>, vs: Values, all: set<object>, i: nat)
    requires Sound(c, live, vs, all)
    ensures |live| == |vs|
    ensures i < |live| ==> (live[i] != null <==> vs[i].Some?)
  {
    if i < |live| {
      assert Holds(c, live[i], vs[i], all);
    }
  }

  lemma ValuesAre(sources: seq<Msg>, fs: seq<MsgVal>, base: set<object>)
    requires HaveValues(sources, fs, base)
    ensures |sources| == |fs| && forall k | 0 <= k < |sources| :: HasValue(sources[k], fs[k], base)
  {
  }

  /** One operation; only the pools, the live messages and new objects change hands. */
  method Step(
    c: Cloner, live: seq<Msg?>, sources: seq<Msg>, op: Op, ghost vs: Values, ghost fs: seq<MsgVal>,
    ghost base: set<object>, ghost all: set<object>)
    returns (out: seq<Msg?>, ghost all': set<object>)
    requires Sound(c, live, vs, all) && base !! all && c !in base && HaveValues(sources, fs, base)
    modifies c, all
    ensures Sound(c, out, Meaning(vs, fs, op), all')
    ensures fresh(all' - all)
  {
    ValuesAre(sources, fs, base);
    MeaningCases(vs, fs, op);
    hide *;
    if !op.CloneFrom? {
      out, all' := StepOwn(c, live, op, vs, fs, all);
    } else if op.i < |sources| {
      SoundShares(c, live, vs, all, base);
      var m := StepCloneOf(c, live, sources[op.i], fs[op.i], base, vs, all);
      out, all' := live + [m], all + m.places.Keys;
    } else {
      out, all' := live, all;
    }
  }

  method StepOwn(
    c: Cloner, live: seq<Msg?>, op: Op, ghost vs: Values, ghost fs: seq<MsgVal>, ghost all: set<object>)
    returns (out: seq<Msg?>, ghost all': set<object>)
    requires Sound(c, live, vs, all) && !op.CloneFrom?
    modifies c, all
    ensures Sound(c, out, Meaning(vs, fs, op), all')
    ensures fresh(all' - all)
  {
    LiveIffValue(c, live, vs, all, op.i);
    MeaningCases(vs, fs, op);
    hide *;
    out, all' := live, all;
    if op.i < |live| && live[op.i] != null {
      match op
      case CloneOf(i) =>
        var m := StepClone(c, live, i, vs, all);
        out, all' := live + [m], all + m.places.Keys;
      case DisposeOf(i) =>
        StepDispose(c, live, i, vs, all);
        out := live[i := null];
      case SetTtlOf(i, ttl) =>
        StepSetTtl(c, live, i, ttl, vs, all);
    }
  }

  lemma SoundShares(c: Cloner, live: seq<Msg?>, vs: Values, all: set<object>, base: set<object>)
    requires Sound(c, live, vs, all) && base !! all
    ensures base !! c.owner.Keys
  {
    hide Holds;
    hide Cloner.Valid;
  }

  lemma MeaningCases(vs: Values, fs: seq<MsgVal>, op: Op)
    ensures
      if op.CloneFrom? then Meaning(vs, fs, op) == if op.i < |fs| then vs + [Some(fs[op.i])] else vs
      else if op.i >= |vs| || vs[op.i].None? then Meaning(vs, fs, op) == vs
      else match op
           case CloneOf(i) => Meaning(vs, fs, op) == vs + [vs[i]]
           case DisposeOf(i) => Meaning(vs, fs, op) == vs[i := None]
           case SetTtlOf(i, ttl) => Meaning(vs, fs, op) == vs[i := Some(MsgWithTtl(vs[i].value, ttl))]
  {
    hide MsgWithTtl;
  }

  /**
    Any run of operations, started with live messages that share nothing and any
    foreign ones, leaves every live message with the value it has when messages are
    plain values, and the foreign ones as they were.
   */
  method Execute(
    c: Cloner, start: seq<Msg?>, sources: seq<Msg>, ops: seq<Op>, ghost vs: Values, ghost fs: seq<MsgVal>,
    ghost base: set<object>, ghost all: set<object>)
    returns (live: seq<Msg?>, ghost all': set<object>)
    requires Sound(c, start, vs, all) && base !! all && c !in base && HaveValues(sources, fs, base)
    modifies c, all
    ensures Sound(c, live, MeaningOf(vs, fs, ops), all') && base !! all' && HaveValues(sources, fs, base)
  {
    hide Sound;
    hide HaveValues;
    hide Meaning;
    live, all' := start, all;
    for n := 0 to |ops|
      invariant Sound(c, live, MeaningOf(vs, fs, ops[..n]), all') && HaveValues(sources, fs, base)
      invariant base !! all' && fresh(all' - all)
    {
      assert ops[..n + 1][..n] == ops[..n];
      live, all' := Step(c, live, sources, ops[n], MeaningOf(vs, fs, ops[..n]), fs, base, all');
    }
    assert ops[..|ops|] == ops;
  }

  /** A message that is only cloned from, such as a cached one, keeps its value through any run. */
  lemma {:induction false} ClonedFromKeepsValue(vs: Values, fs: seq<MsgVal>, ops: seq<Op>, i: nat)
    requires i < |vs|
    requires forall n | 0 <= n < |ops| && ops[n].i == i :: ops[n].CloneOf? || ops[n].CloneFrom?
    ensures i < |MeaningOf(vs, fs, ops)| && MeaningOf(vs, fs, ops)[i] == vs[i]
  {
    if ops != [] {
      ClonedFromKeepsValue(vs, fs, ops[..|ops| - 1], i);
    }
  }
}
