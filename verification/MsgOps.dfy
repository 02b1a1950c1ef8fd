/**
  The message operations of the ECS cache: lowest TTL and minimum TTL
  (internal/dnsmsg/dnsmsg.go), removal of hop-to-hop data, the AD bit and
  cacheability (internal/ecscache/msg.go).
 */
module MsgOps {
  import opened Wrappers
  import opened DnsValues

  const MAX_UINT32 := 0xFFFF_FFFF
  const SERVFAIL_MAX_CACHE_TTL := 30
  const RCODE_SUCCESS := 0
  const RCODE_SERVER_FAILURE := 2
  const RCODE_NAME_ERROR := 3
  const TYPE_NONE := 0
  const TYPE_CNAME := 5
  const TYPE_SIG := 24

  function Min(x: nat, y: nat): nat {
    if x <= y then x else y
  }

  function Max(x: nat, y: nat): nat {
    if x <= y then y else x
  }

  // ----- lowest TTL

  /** How long a record may be cached; an OPT record does not say. */
  function CacheTtl(r: Record): Option<nat> {
    match r
    case OptV(_, _) => None
    case SoaV(hdr, _, _, _, minTtl) => Some(if minTtl > 0 then Min(hdr.ttl, minTtl) else hdr.ttl)
    case _ => Some(r.hdr.ttl)
  }

  function Records(m: MsgVal): seq<Record> {
    m.answer + m.ns + m.extra
  }

  /** t is the least cache TTL among rs, or the guard value if none is lower. */
  ghost predicate IsFloor(rs: seq<Record>, t: nat) {
    && t <= MAX_UINT32
    && (forall i | 0 <= i < |rs| && CacheTtl(rs[i]).Some? :: t <= CacheTtl(rs[i]).value)
    && (t == MAX_UINT32 || exists i :: 0 <= i < |rs| && CacheTtl(rs[i]) == Some(t))
  }

  /** The lifetime of a message: its least cache TTL, capped for SERVFAIL, zero if unknown. */
  ghost predicate IsLowestTtl(m: MsgVal, ttl: nat) {
    exists t: nat :: IsFloor(Records(m), t) && ttl == TtlOfFloor(m.hdr.rcode, t)
  }

  function TtlOfFloor(rcode: nat, t: nat): nat {
    if t == 0 then 0
    else if rcode == RCODE_SERVER_FAILURE then Min(t, SERVFAIL_MAX_CACHE_TTL)
    else if t == MAX_UINT32 then 0
    else t
  }

  /** The least TTL in terms of the records: an SOA record counts with its minimum too, an OPT record not at all. */
  lemma FloorIs(rs: seq<Record>, t: nat)
    ensures IsFloor(rs, t) <==>
            && t <= 0xFFFF_FFFF
            && (forall i | 0 <= i < |rs| && !rs[i].OptV? ::
                  t <= rs[i].hdr.ttl && (rs[i].SoaV? && rs[i].minTtl > 0 ==> t <= rs[i].minTtl))
            && (t == 0xFFFF_FFFF ||
                (exists i :: 0 <= i < |rs| && !rs[i].OptV? &&
                   (t == rs[i].hdr.ttl || (rs[i].SoaV? && rs[i].minTtl > 0 && t == rs[i].minTtl))))
  {
    if IsFloor(rs, t) && t < MAX_UINT32 {
      var i :| 0 <= i < |rs| && CacheTtl(rs[i]) == Some(t);
      assert !rs[i].OptV?;
    }
  }

  /** What a message is kept for: half a minute at most for a SERVFAIL, nothing if no record says. */
  lemma LowestTtlIs(m: MsgVal, t: nat)
    requires IsFloor(Records(m), t)
    ensures LowestTtl(m) ==
            if m.hdr.rcode == 2 then (if t < 30 then t else 30) else if t == 0xFFFF_FFFF then 0 else t
  {
    LowerIsFloor(Records(m));
    FloorUnique(Records(m), t, Lower(Records(m), MAX_UINT32));
    hide IsFloor;
    hide Lower;
  }

  lemma FloorUnique(rs: seq<Record>, t: nat, u: nat)
    requires IsFloor(rs, t) && IsFloor(rs, u)
    ensures t == u
  {
  }

  /** getTTLIfLower */
  function TtlIfLower(r: Record, ttl: nat): nat {
    match r
    case OptV(_, _) => ttl
    case SoaV(hdr, _, _, _, minTtl) => Min(hdr.ttl, if minTtl > 0 && minTtl < ttl then minTtl else ttl)
    case _ => Min(r.hdr.ttl, ttl)
  }

  function Lower(rs: seq<Record>, ttl: nat): nat {
    if rs == [] then ttl else TtlIfLower(rs[|rs| - 1], Lower(rs[..|rs| - 1], ttl))
  }

  /** The lowest TTL as a function, for use in specifications. */
  function LowestTtl(m: MsgVal): (ttl: nat)
    ensures IsLowestTtl(m, ttl)
    ensures ttl <= MAX_UINT32
  {
    LowerIsFloor(Records(m));
    TtlOfFloor(m.hdr.rcode, Lower(Records(m), MAX_UINT32))
  }

  lemma {:induction false} LowerIsFloor(rs: seq<Record>)
    ensures IsFloor(rs, Lower(rs, MAX_UINT32))
  {
    if rs != [] {
      var n := |rs| - 1;
      LowerIsFloor(rs[..n]);
      var t, u := Lower(rs[..n], MAX_UINT32), Lower(rs, MAX_UINT32);
      if u == t && t < MAX_UINT32 {
        var i :| 0 <= i < n && CacheTtl(rs[..n][i]) == Some(t);
        assert CacheTtl(rs[i]) == Some(u);
      } else if u != t {
        assert CacheTtl(rs[n]) == Some(u);
      }
      forall i | 0 <= i < |rs| && CacheTtl(rs[i]).Some? ensures u <= CacheTtl(rs[i]).value {
        if i < n {
          assert rs[..n][i] == rs[i];
        }
      }
    }
  }

  lemma {:induction false} LowerConcat(rs: seq<Record>, ss: seq<Record>, ttl: nat)
    ensures Lower(rs + ss, ttl) == Lower(ss, Lower(rs, ttl))
  {
    if ss == [] {
      assert rs + ss == rs;
    } else {
      LowerConcat(rs, ss[..|ss| - 1], ttl);
      assert (rs + ss)[..|rs| + |ss| - 1] == rs + ss[..|ss| - 1];
    }
  }

  lemma {:induction false} LowerZero(rs: seq<Record>)
    ensures Lower(rs, 0) == 0
  {
    if rs != [] {
      LowerZero(rs[..|rs| - 1]);
    }
  }

  /** The inner loop of FindLowestTTL, which stops at the first zero. */
  method LowerSection(rrs: seq<Record>, start: nat) returns (ttl: nat)
    ensures ttl == Lower(rrs, start)
  {
    ttl := start;
    for i := 0 to |rrs|
      invariant ttl == Lower(rrs[..i], start)
    {
      ttl := TtlIfLower(rrs[i], ttl);
      assert rrs[..i + 1][..i] == rrs[..i];
      if ttl == 0 {
        LowerConcat(rrs[..i + 1], rrs[i + 1..], start);
        LowerZero(rrs[i + 1..]);
        assert rrs[..i + 1] + rrs[i + 1..] == rrs;
        return;
      }
    }
    assert rrs[..|rrs|] == rrs;
  }

  /** FindLowestTTL: the early return agrees with the declarative lowest TTL. */
  method FindLowestTtl(m: MsgVal) returns (ttl: nat)
    ensures ttl == LowestTtl(m)
  {
    hide Lower;
    hide IsLowestTtl;
    LowerConcat(m.answer + m.ns, m.extra, MAX_UINT32);
    LowerConcat(m.answer, m.ns, MAX_UINT32);
    ttl := LowerSection(m.answer, MAX_UINT32);
    if ttl == 0 {
      LowerZero(m.ns);
      LowerZero(m.extra);
      return;
    }
    ttl := LowerSection(m.ns, ttl);
    if ttl == 0 {
      LowerZero(m.extra);
      return;
    }
    ttl := LowerSection(m.extra, ttl);
    if m.hdr.rcode == RCODE_SERVER_FAILURE && ttl > SERVFAIL_MAX_CACHE_TTL {
      return SERVFAIL_MAX_CACHE_TTL;
    } else if ttl == MAX_UINT32 {
      return 0;
    }
  }

  // ----- minimum TTL

  /** The answer records with TTLs below the minimum raised to it. */
  function RaiseTtls(rs: seq<Record>, minTtl: nat): (out: seq<Record>)
    ensures |out| == |rs|
    ensures forall i | 0 <= i < |rs| :: out[i] == WithTtl(rs[i], Max(rs[i].hdr.ttl, minTtl))
  {
    seq(|rs|, i requires 0 <= i < |rs| => WithTtl(rs[i], Max(rs[i].hdr.ttl, minTtl)))
  }

  /** SetMinTTL touches the answer section only. */
  function SetMinTtl(m: MsgVal, minTtl: nat): MsgVal {
    m.(answer := RaiseTtls(m.answer, minTtl))
  }

  /** The loop of SetMinTTL over the answer records. */
  method RaiseInPlace(answer: array<Record>, minTtl: nat)
    modifies answer
    ensures answer[..] == RaiseTtls(old(answer[..]), minTtl)
  {
    for i := 0 to answer.Length
      invariant forall k | 0 <= k < i :: answer[k] == WithTtl(old(answer[k]), Max(old(answer[k]).hdr.ttl, minTtl))
      invariant forall k | i <= k < answer.Length :: answer[k] == old(answer[k])
    {
      answer[i] := WithTtl(answer[i], Max(answer[i].hdr.ttl, minTtl));
    }
  }

  /** SetMinTTL: each answer record has its own TTL or the minimum, whichever is greater; nothing else changes. */
  method RaiseMsg(m: MsgVal, minTtl: nat) returns (out: MsgVal)
    ensures out == SetMinTtl(m, minTtl)
    ensures out == m.(answer := out.answer) && |out.answer| == |m.answer|
    ensures forall i | 0 <= i < |m.answer| :: out.answer[i] == WithTtl(m.answer[i], Max(m.answer[i].hdr.ttl, minTtl))
  {
    var answer := new Record[|m.answer|](i requires 0 <= i < |m.answer| => m.answer[i]);
    assert answer[..] == m.answer;
    RaiseInPlace(answer, minTtl);
    out := m.(answer := answer[..]);
  }

  // ----- hop-to-hop data

  /** isDNSSEC */
  predicate IsDnssec(r: Record) {
    r.OtherV? && (r.kind.Nsec? || r.kind.Nsec3? || r.kind.Ds? || r.kind.Rrsig? || r.kind.Sig? || r.kind.Dnskey?)
  }

  function OnlyEde(os: seq<EdnsOption>): (r: seq<EdnsOption>)
    ensures forall o | o in r :: o.EdeV? && o in os
    ensures forall o | o in os && o.EdeV? :: o in r
  {
    if os == [] then []
    else if os[0].EdeV? then [os[0]] + OnlyEde(os[1..])
    else OnlyEde(os[1..])
  }

  /** filterRR */
  function FilterRr(r: Record, except: nat, reqDo: bool): Option<Record> {
    if r.OptV? then
      var os := OnlyEde(r.options);
      if os == [] then None else Some(r.(options := os))
    else if reqDo || !IsDnssec(r) || r.hdr.rrtype == except then Some(r)
    else None
  }

  function Filtered(rs: seq<Record>, except: nat, reqDo: bool): seq<Record> {
    if rs == [] then []
    else
      var rest := Filtered(rs[..|rs| - 1], except, reqDo);
      match FilterRr(rs[|rs| - 1], except, reqDo)
      case None => rest
      case Some(r) => rest + [r]
  }

  /** One record: an OPT record stays for its extended errors, and with nothing else. */
  lemma FilteredOne(r: Record, except: nat, reqDo: bool)
    ensures
      var out := Filtered([r], except, reqDo);
      if r.OptV? then
        if exists o :: o in r.options && o.EdeV?
        then |out| == 1 && out[0].OptV? && out[0].hdr == r.hdr && out[0].options == OnlyEde(r.options)
        else out == []
      else
        var dnssec := r.OtherV? && r.kind in {Nsec, Nsec3, Ds, Rrsig, Sig, Dnskey};
        out == if dnssec && !reqDo && r.hdr.rrtype != except then [] else [r]
  {
    assert [r][..0] == [] && Filtered([], except, reqDo) == [];
    if r.OptV? && OnlyEde(r.options) != [] {
      assert OnlyEde(r.options)[0] in OnlyEde(r.options);
    }
  }

  lemma FilteredNext(rs: seq<Record>, i: nat, except: nat, reqDo: bool)
    requires i < |rs|
    ensures
      var r := FilterRr(rs[i], except, reqDo);
      Filtered(rs[..i + 1], except, reqDo) == Filtered(rs[..i], except, reqDo) + if r.Some? then [r.value] else []
  {
    assert rs[..i + 1][..i] == rs[..i];
  }

  /** Records are filtered one by one, in order. */
  lemma {:induction false} FilteredSplits(rs: seq<Record>, ss: seq<Record>, except: nat, reqDo: bool)
    ensures Filtered(rs + ss, except, reqDo) == Filtered(rs, except, reqDo) + Filtered(ss, except, reqDo)
  {
    if ss == [] {
      assert rs + ss == rs;
    } else {
      hide FilterRr;
      var n := |ss| - 1;
      FilteredSplits(rs, ss[..n], except, reqDo);
      assert (rs + ss)[..|rs| + n] == rs + ss[..n] && (rs + ss)[|rs| + n] == ss[n];
      FilteredNext(rs + ss, |rs| + n, except, reqDo);
      FilteredNext(ss, n, except, reqDo);
      assert (rs + ss)[..|rs| + n + 1] == rs + ss && ss[..n + 1] == ss;
      hide Filtered;
    }
  }

  /** Options are kept one by one, in order. */
  lemma {:induction false} OnlyEdeSplits(os: seq<EdnsOption>, ps: seq<EdnsOption>)
    ensures OnlyEde(os + ps) == OnlyEde(os) + OnlyEde(ps)
  {
    if os == [] {
      assert os + ps == ps;
    } else {
      OnlyEdeSplits(os[1..], ps);
      assert (os + ps)[1..] == os[1..] + ps;
    }
  }

  lemma OnlyEdeOne(o: EdnsOption)
    ensures OnlyEde([o]) == if o.EdeV? then [o] else []
  {
  }

  /** The records of a slice; removed ones are nil. */
  ghost predicate AllSet(s: seq<Option<Record>>) {
    forall i | 0 <= i < |s| :: s[i].Some?
  }

  ghost function Unwrap(s: seq<Option<Record>>): (rs: seq<Record>)
    requires AllSet(s)
    ensures |rs| == |s|
    ensures forall i | 0 <= i < |s| :: rs[i] == s[i].value
  {
    seq(|s|, i requires 0 <= i < |s| => s[i].value)
  }

  /** clear */
  method ClearFrom(rrs: array<Option<Record>>, n: nat)
    requires n <= rrs.Length
    modifies rrs
    ensures forall i | 0 <= i < n :: rrs[i] == old(rrs[i])
    ensures forall i | n <= i < rrs.Length :: rrs[i] == None
  {
    for k := n to rrs.Length
      invariant forall i | 0 <= i < n :: rrs[i] == old(rrs[i])
      invariant forall i | n <= i < k :: rrs[i] == None
    {
      rrs[k] := None;
    }
  }

  /** rmHopToHopRRs: filters within the storage of rrs and clears the rest of it. */
  method RmHopToHopRrs(rrs: array<Option<Record>>, reqDo: bool, except: nat) returns (n: nat)
    requires AllSet(rrs[..])
    modifies rrs
    ensures n <= rrs.Length
    ensures AllSet(rrs[..n]) && Unwrap(rrs[..n]) == Filtered(Unwrap(old(rrs[..])), except, reqDo)
    ensures forall i | n <= i < rrs.Length :: rrs[i] == None
  {
    hide Filtered;
    hide FilterRr;
    ghost var was := Unwrap(rrs[..]);
    ghost var done: seq<Record> := [];
    n := 0;
    assert was[..0] == [];
    assert Filtered(was[..0], except, reqDo) == [] by { FilteredNothing(except, reqDo); }
    for i := 0 to rrs.Length
      invariant n <= i && |done| == n
      invariant forall k | i <= k < rrs.Length :: rrs[k] == Some(was[k])
      invariant forall k | 0 <= k < n :: rrs[k] == Some(done[k])
      invariant done == Filtered(was[..i], except, reqDo)
    {
      var r := FilterRr(rrs[i].value, except, reqDo);
      FilteredNext(was, i, except, reqDo);
      if r.Some? {
        rrs[n] := r;
        n := n + 1;
        done := done + [r.value];
      }
    }
    assert was[..rrs.Length] == was;
    ClearFrom(rrs, n);
    assert Unwrap(rrs[..n]) == done;
  }

  lemma FilteredNothing(except: nat, reqDo: bool)
    ensures Filtered([], except, reqDo) == []
  {
  }

  /** A second pass over filtered records changes nothing. */
  lemma {:induction false} FilterTwice(rs: seq<Record>, except: nat, reqDo: bool)
    ensures Filtered(Filtered(rs, except, reqDo), except, reqDo) == Filtered(rs, except, reqDo)
  {
    if rs != [] {
      var n := |rs| - 1;
      FilterTwice(rs[..n], except, reqDo);
      var r := FilterRr(rs[n], except, reqDo);
      if r.Some? {
        var rest := Filtered(rs[..n], except, reqDo);
        assert (rest + [r.value])[..|rest|] == rest;
        if r.value.OptV? {
          OnlyEdeTwice(rs[n].options);
        }
      }
    }
  }

  lemma {:induction false} OnlyEdeTwice(os: seq<EdnsOption>)
    ensures OnlyEde(OnlyEde(os)) == OnlyEde(os)
  {
    if os != [] {
      OnlyEdeTwice(os[1..]);
      if os[0].EdeV? {
        assert OnlyEde(os)[1..] == OnlyEde(os[1..]);
      }
    }
  }

  /** What survives: no option but EDE, and DNSSEC records only when asked for. */
  lemma {:induction false} FilteredIsClean(rs: seq<Record>, except: nat, reqDo: bool, r: Record)
    ensures r in Filtered(rs, except, reqDo) ==>
      && (r.OptV? ==> r.options != [] && forall o | o in r.options :: o.EdeV?)
      && (IsDnssec(r) ==> reqDo || r.hdr.rrtype == except)
    ensures !r.OptV? && (reqDo || !IsDnssec(r) || r.hdr.rrtype == except) ==>
      (r in Filtered(rs, except, reqDo) <==> r in rs)
  {
    if rs != [] {
      var n := |rs| - 1;
      FilteredIsClean(rs[..n], except, reqDo, r);
      assert rs == rs[..n] + [rs[n]];
    }
  }

  /** rmHopToHopData */
  function RmHopToHop(m: MsgVal, qtype: nat, reqDo: bool): MsgVal {
    m.(answer := Filtered(m.answer, qtype, reqDo),
       ns := Filtered(m.ns, TYPE_NONE, reqDo),
       extra := Filtered(m.extra, TYPE_NONE, reqDo))
  }

  /** What is gone from each section and what stays: DNSSEC records of the type asked for stay in the answer only. */
  lemma HopToHopIsGone(m: MsgVal, qtype: nat, reqDo: bool, r: Record)
    ensures
      var out := RmHopToHop(m, qtype, reqDo);
      && (r in out.answer && IsDnssec(r) ==> reqDo || r.hdr.rrtype == qtype)
      && ((r in out.ns || r in out.extra) && IsDnssec(r) ==> reqDo || r.hdr.rrtype == TYPE_NONE)
      && (r in Records(out) && r.OptV? ==> r.options != [] && forall o | o in r.options :: o.EdeV?)
      && (!r.OptV? && (reqDo || !IsDnssec(r)) ==>
            && (r in out.answer <==> r in m.answer) && (r in out.ns <==> r in m.ns)
            && (r in out.extra <==> r in m.extra))
      && (!r.OptV? && r.hdr.rrtype == qtype ==> (r in out.answer <==> r in m.answer))
  {
    FilteredIsClean(m.answer, qtype, reqDo, r);
    FilteredIsClean(m.ns, TYPE_NONE, reqDo, r);
    FilteredIsClean(m.extra, TYPE_NONE, reqDo, r);
    hide Filtered;
  }

  /** setRespAD */
  function SetRespAd(m: MsgVal, reqAd: bool, reqDo: bool): MsgVal {
    m.(hdr := m.hdr.(authenticatedData := m.hdr.authenticatedData && (reqAd || reqDo)))
  }

  // ----- cacheability

  /** The answer section shows what was asked for, after aliases and signatures only. */
  ghost predicate Answers(rs: seq<Record>, qtype: nat) {
    exists i :: 0 <= i < |rs| && rs[i].hdr.rrtype == qtype && OnlyAliases(rs[..i], qtype)
  }

  predicate IsAlias(r: Record, qtype: nat) {
    r.hdr.rrtype != qtype && (r.hdr.rrtype == TYPE_CNAME || r.hdr.rrtype == TYPE_SIG)
  }

  ghost predicate OnlyAliases(rs: seq<Record>, qtype: nat) {
    forall i | 0 <= i < |rs| :: IsAlias(rs[i], qtype)
  }

  /** A NOERROR response is cacheable if it answers, or if it is a NODATA response with an SOA record. */
  ghost predicate CacheableNoError(m: MsgVal, qtype: nat) {
    || Answers(m.answer, qtype)
    || (OnlyAliases(m.answer, qtype) && exists r | r in m.ns :: r.SoaV?)
  }

  /** The rule record by record: an answer of the type asked for decides, aliases and signatures are passed over. */
  lemma NoErrorCases(m: MsgVal, qtype: nat)
    ensures m.answer == [] ==> (CacheableNoError(m, qtype) <==> exists i :: 0 <= i < |m.ns| && m.ns[i].SoaV?)
    ensures m.answer != [] && m.answer[0].hdr.rrtype == qtype ==> CacheableNoError(m, qtype)
    ensures m.answer != [] && m.answer[0].hdr.rrtype != qtype && m.answer[0].hdr.rrtype in {5, 24} ==>
      (CacheableNoError(m, qtype) <==> CacheableNoError(m.(answer := m.answer[1..]), qtype))
    ensures m.answer != [] && m.answer[0].hdr.rrtype != qtype && m.answer[0].hdr.rrtype !in {5, 24} ==>
      !CacheableNoError(m, qtype)
  {
    if m.answer != [] {
      var r, rest := m.answer[0], m.answer[1..];
      assert m.answer == [r] + rest;
      if r.hdr.rrtype == qtype {
        assert OnlyAliases(m.answer[..0], qtype);
      } else if r.hdr.rrtype == TYPE_CNAME || r.hdr.rrtype == TYPE_SIG {
        AliasFirst(r, rest, qtype);
      } else {
        NotAliases(m.answer, 0, qtype);
      }
    } else if r :| r in m.ns && r.SoaV? {
      var i :| 0 <= i < |m.ns| && m.ns[i] == r;
    }
  }

  lemma AliasesAfter(r: Record, rest: seq<Record>, qtype: nat)
    requires IsAlias(r, qtype)
    ensures OnlyAliases([r] + rest, qtype) <==> OnlyAliases(rest, qtype)
  {
    var all := [r] + rest;
    if OnlyAliases(all, qtype) {
      forall i | 0 <= i < |rest| ensures IsAlias(rest[i], qtype) {
        assert all[i + 1] == rest[i];
      }
    }
  }

  lemma AliasFirst(r: Record, rest: seq<Record>, qtype: nat)
    requires IsAlias(r, qtype)
    ensures Answers([r] + rest, qtype) <==> Answers(rest, qtype)
    ensures OnlyAliases([r] + rest, qtype) <==> OnlyAliases(rest, qtype)
  {
    var all := [r] + rest;
    AliasesAfter(r, rest, qtype);
    hide OnlyAliases;
    if Answers(all, qtype) {
      var i :| 0 <= i < |all| && all[i].hdr.rrtype == qtype && OnlyAliases(all[..i], qtype);
      assert all[..i] == [r] + rest[..i - 1];
      AliasesAfter(r, rest[..i - 1], qtype);
      assert rest[i - 1] == all[i];
    }
    if Answers(rest, qtype) {
      var i :| 0 <= i < |rest| && rest[i].hdr.rrtype == qtype && OnlyAliases(rest[..i], qtype);
      assert all[..i + 1] == [r] + rest[..i];
      AliasesAfter(r, rest[..i], qtype);
      assert all[i + 1] == rest[i];
    }
  }

  /** isCacheableNOERROR */
  method IsCacheableNoError(m: MsgVal) returns (ok: bool)
    requires |m.question| == 1
    ensures ok <==> CacheableNoError(m, m.question[0].qtype)
  {
    var qtype := m.question[0].qtype;
    for i := 0 to |m.answer|
      invariant OnlyAliases(m.answer[..i], qtype)
    {
      var rrtype := m.answer[i].hdr.rrtype;
      if rrtype == qtype {
        return true;
      } else if rrtype != TYPE_CNAME && rrtype != TYPE_SIG {
        NotAliases(m.answer, i, qtype);
        return false;
      }
    }
    assert m.answer[..|m.answer|] == m.answer;
    for i := 0 to |m.ns|
      invariant forall k | 0 <= k < i :: !m.ns[k].SoaV?
    {
      if m.ns[i].SoaV? {
        return true;
      }
    }
    return false;
  }

  lemma NotAliases(rs: seq<Record>, i: nat, qtype: nat)
    requires i < |rs| && OnlyAliases(rs[..i], qtype)
    requires rs[i].hdr.rrtype != qtype && rs[i].hdr.rrtype != TYPE_CNAME && rs[i].hdr.rrtype != TYPE_SIG
    ensures !Answers(rs, qtype) && !OnlyAliases(rs, qtype)
  {
    assert forall k | 0 <= k < i :: rs[..i][k] == rs[k];
    forall k | 0 <= k < |rs| && rs[k].hdr.rrtype == qtype ensures !OnlyAliases(rs[..k], qtype) {
      assert rs[..k][i] == rs[i];
    }
  }

  /** isCacheable */
  method IsCacheable(m: MsgVal) returns (ok: bool)
    ensures ok <==> Cacheable(m)
  {
    if m.hdr.truncated || |m.question| != 1 {
      return false;
    }
    if m.hdr.rcode == RCODE_SUCCESS {
      ok := IsCacheableNoError(m);
    } else {
      ok := m.hdr.rcode == RCODE_NAME_ERROR || m.hdr.rcode == RCODE_SERVER_FAILURE;
    }
  }

  ghost predicate Cacheable(m: MsgVal) {
    && !m.hdr.truncated && |m.question| == 1
    && (m.hdr.rcode == RCODE_NAME_ERROR || m.hdr.rcode == RCODE_SERVER_FAILURE
        || (m.hdr.rcode == RCODE_SUCCESS && CacheableNoError(m, m.question[0].qtype)))
  }
}
