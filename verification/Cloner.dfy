/**
  The pooled message cloner of internal/dnsmsg.  Clone fills objects taken from
  pools, whose stale contents are arbitrary; Dispose puts the parts of a message
  back.
 */
module Cloner {
  import opened Wrappers
  import opened Bytes
  import opened DnsValues
  import opened DnsHeap
  import opened DnsCopy

  const NO_HEADER := Header("", 0, 0, 0)

  class Cloner {
    var msgs: set<Msg>
    var addresses: set<ARec>
    var txts: set<TxtRec>
    var soas: set<SoaRec>
    var https: set<HttpsRec>
    var alpns: set<AlpnKv>
    var hints4: set<HintKv>
    var hints6: set<HintKv>
    /** At most one window of sixteen bytes per array, by its offset. */
    var ips: map<array<Byte>, nat>
    var opts: set<OptRec>
    var subnets: set<SubnetOpt>
    var edes: set<EdeOpt>

    /**
      The free objects: pooled ones own themselves, and the byte array of a pooled
      address record or subnet option is owned by it.
     */
    ghost var owner: map<object, object>

    ghost predicate Owns(o: object, part: object)
      reads this
    {
      part in owner && owner[part] == o
    }

    /** The free objects after o and what it owns have been taken. */
    ghost function Without(o: object): map<object, object>
      reads this
    {
      map part | part in owner && owner[part] != o :: owner[part]
    }

    /** The free objects that stand in a pool themselves. */
    ghost function Pooled(): set<object>
      reads this
    {
      set o | o in owner && owner[o] == o
    }

    ghost predicate MsgsOk()
      reads this, owner.Keys
    {
      forall m: Msg | m in msgs ::
        && Owns(m, m) && Owns(m, m.answer.arr) && Owns(m, m.ns.arr) && Owns(m, m.extra.arr)
        && DistinctSlots(m)
    }

    ghost predicate AddressesOk()
      reads this, owner.Keys
    {
      forall a: ARec | a in addresses :: Owns(a, a) && Owns(a, a.ip.arr)
    }

    ghost predicate TxtsOk()
      reads this, owner.Keys
    {
      forall t: TxtRec | t in txts :: Owns(t, t) && Owns(t, t.txt.arr)
    }

    ghost predicate RecordsOk()
      reads this, owner.Keys
    {
      && (forall s: SoaRec | s in soas :: Owns(s, s))
      && (forall h: HttpsRec | h in https :: Owns(h, h))
      && (forall o: OptRec | o in opts :: Owns(o, o))
    }

    ghost predicate ValuesOk()
      reads this, owner.Keys
    {
      && (forall k: AlpnKv | k in alpns :: Owns(k, k))
      && (forall h: HintKv | h in hints4 :: Owns(h, h) && h !in hints6)
      && (forall h: HintKv | h in hints6 :: Owns(h, h))
      && (forall x: array<Byte> | x in ips :: Owns(x, x) && ips[x] + 16 <= x.Length)
    }

    ghost predicate OptionsOk()
      reads this, owner.Keys
    {
      && (forall s: SubnetOpt | s in subnets :: Owns(s, s) && Owns(s, s.address.arr))
      && (forall e: EdeOpt | e in edes :: Owns(e, e))
    }

    ghost predicate Valid()
      reads this, owner.Keys
    {
      this !in owner && MsgsOk() && AddressesOk() && TxtsOk() && RecordsOk() && ValuesOk() && OptionsOk()
    }

    /** Ownership is as before except for what o owned, and no free object was changed. */
    twostate predicate KeptBut(o: object, was: map<object, object>)
      reads this, was.Keys
    {
      unchanged(was.Keys) && forall part | part in was && was[part] != o :: part in owner && owner[part] == was[part]
    }

    twostate lemma MsgsKeep(o: object)
      requires old(MsgsOk()) && msgs == old(msgs) && KeptBut(o, old(owner)) && !(o is Msg)
      ensures MsgsOk()
    {
    }

    twostate lemma AddressesKeep(o: object)
      requires old(AddressesOk()) && addresses == old(addresses) && KeptBut(o, old(owner)) && !(o is ARec)
      ensures AddressesOk()
    {
    }

    twostate lemma TxtsKeep(o: object)
      requires old(TxtsOk()) && txts == old(txts) && KeptBut(o, old(owner)) && !(o is TxtRec)
      ensures TxtsOk()
    {
    }

    twostate lemma RecordsKeep(o: object)
      requires old(RecordsOk()) && soas == old(soas) && https == old(https) && opts == old(opts)
      requires KeptBut(o, old(owner)) && !(o is SoaRec) && !(o is HttpsRec) && !(o is OptRec)
      ensures RecordsOk()
    {
    }

    twostate lemma ValuesKeep(o: object)
      requires old(ValuesOk()) && alpns == old(alpns) && hints4 == old(hints4) && hints6 == old(hints6)
      requires ips == old(ips) && KeptBut(o, old(owner))
      requires !(o is AlpnKv) && !(o is HintKv) && !(o is array<Byte>)
      ensures ValuesOk()
    {
    }

    twostate lemma OptionsKeep(o: object)
      requires old(OptionsOk()) && subnets == old(subnets) && edes == old(edes) && KeptBut(o, old(owner))
      requires !(o is SubnetOpt) && !(o is EdeOpt)
      ensures OptionsOk()
    {
    }

    constructor ()
      ensures Valid() && owner == map[]
    {
      msgs, addresses, txts, soas, https, alpns := {}, {}, {}, {}, {}, {};
      hints4, hints6, ips, opts, subnets, edes := {}, {}, map[], {}, {}, {};
      owner := map[];
    }

    // ----- taking objects from the pools

    // A pool's Get: any pooled object, or a new one.

    method GetMsg() returns (o: Msg)
      requires Valid()
      modifies this
      ensures Valid()
      ensures owner.Keys <= old(owner.Keys) && {o, o.answer.arr, o.ns.arr, o.extra.arr} !! owner.Keys
      ensures fresh({o, o.answer.arr, o.ns.arr, o.extra.arr} - old(owner.Keys)) && DistinctSlots(o)
    {
      hide AddressesOk;
      hide TxtsOk;
      hide RecordsOk;
      hide ValuesOk;
      hide OptionsOk;
      var reuse: bool := *;
      if reuse && msgs != {} {
        o :| o in msgs;
        msgs := msgs - {o};
        owner := Without(o);
        AddressesKeep(o);
        TxtsKeep(o);
        RecordsKeep(o);
        ValuesKeep(o);
        OptionsKeep(o);
      } else {
        o := new Msg(MsgHeader(0, false, 0, false, false, false, false, false, false, 0), [Question("", 0, 0)]);
      }
    }

    method GetA() returns (o: ARec)
      requires Valid()
      modifies this
      ensures Valid()
      ensures owner.Keys <= old(owner.Keys) && {o, o.ip.arr} !! owner.Keys
      ensures fresh({o, o.ip.arr} - old(owner.Keys))
    {
      hide TxtsOk;
      hide RecordsOk;
      hide MsgsOk;
      hide ValuesOk;
      hide OptionsOk;
      var reuse: bool := *;
      if reuse && addresses != {} {
        o :| o in addresses;
        addresses := addresses - {o};
        owner := Without(o);
        TxtsKeep(o);
        RecordsKeep(o);
        MsgsKeep(o);
        ValuesKeep(o);
        OptionsKeep(o);
      } else {
        var none := new Byte[0];
        o := new ARec(NO_HEADER, Ip(none, 0, 0));
      }
    }

    method GetTxt() returns (o: TxtRec)
      requires Valid()
      modifies this
      ensures Valid()
      ensures owner.Keys <= old(owner.Keys) && {o, o.txt.arr} !! owner.Keys
      ensures fresh({o, o.txt.arr} - old(owner.Keys))
    {
      hide AddressesOk;
      hide RecordsOk;
      hide MsgsOk;
      hide ValuesOk;
      hide OptionsOk;
      var reuse: bool := *;
      if reuse && txts != {} {
        o :| o in txts;
        txts := txts - {o};
        owner := Without(o);
        AddressesKeep(o);
        RecordsKeep(o);
        MsgsKeep(o);
        ValuesKeep(o);
        OptionsKeep(o);
      } else {
        var none := new string[0];
        o := new TxtRec(NO_HEADER, Strings(none, 0));
      }
    }

    method GetSoa() returns (o: SoaRec)
      requires Valid()
      modifies this
      ensures Valid()
      ensures owner.Keys <= old(owner.Keys) && {o} !! owner.Keys
      ensures fresh({o} - old(owner.Keys))
    {
      hide AddressesOk;
      hide TxtsOk;
      hide MsgsOk;
      hide ValuesOk;
      hide OptionsOk;
      var reuse: bool := *;
      if reuse && soas != {} {
        o :| o in soas;
        soas := soas - {o};
        owner := Without(o);
        AddressesKeep(o);
        TxtsKeep(o);
        MsgsKeep(o);
        ValuesKeep(o);
        OptionsKeep(o);
      } else {
        o := new SoaRec(NO_HEADER, "", "", 0, 0);
      }
    }

    method GetHttps() returns (o: HttpsRec)
      requires Valid()
      modifies this
      ensures Valid()
      ensures owner.Keys <= old(owner.Keys) && {o} !! owner.Keys
      ensures fresh({o} - old(owner.Keys))
    {
      hide AddressesOk;
      hide TxtsOk;
      hide MsgsOk;
      hide ValuesOk;
      hide OptionsOk;
      var reuse: bool := *;
      if reuse && https != {} {
        o :| o in https;
        https := https - {o};
        owner := Without(o);
        AddressesKeep(o);
        TxtsKeep(o);
        MsgsKeep(o);
        ValuesKeep(o);
        OptionsKeep(o);
      } else {
        o := new HttpsRec(NO_HEADER, 0, "", []);
      }
    }

    method GetAlpn() returns (o: AlpnKv)
      requires Valid()
      modifies this
      ensures Valid()
      ensures owner.Keys <= old(owner.Keys) && {o} !! owner.Keys
      ensures fresh({o} - old(owner.Keys))
    {
      hide AddressesOk;
      hide TxtsOk;
      hide MsgsOk;
      hide RecordsOk;
      hide OptionsOk;
      var reuse: bool := *;
      if reuse && alpns != {} {
        o :| o in alpns;
        alpns := alpns - {o};
        owner := Without(o);
        AddressesKeep(o);
        TxtsKeep(o);
        MsgsKeep(o);
        RecordsKeep(o);
        OptionsKeep(o);
      } else {
        o := new AlpnKv([]);
      }
    }

    method GetHint4() returns (o: HintKv)
      requires Valid()
      modifies this
      ensures Valid()
      ensures owner.Keys <= old(owner.Keys) && {o} !! owner.Keys
      ensures fresh({o} - old(owner.Keys))
    {
      hide AddressesOk;
      hide TxtsOk;
      hide MsgsOk;
      hide RecordsOk;
      hide OptionsOk;
      var reuse: bool := *;
      if reuse && hints4 != {} {
        o :| o in hints4;
        hints4 := hints4 - {o};
        owner := Without(o);
        AddressesKeep(o);
        TxtsKeep(o);
        MsgsKeep(o);
        RecordsKeep(o);
        OptionsKeep(o);
      } else {
        o := new HintKv([]);
      }
    }

    method GetHint6() returns (o: HintKv)
      requires Valid()
      modifies this
      ensures Valid()
      ensures owner.Keys <= old(owner.Keys) && {o} !! owner.Keys
      ensures fresh({o} - old(owner.Keys))
    {
      hide AddressesOk;
      hide TxtsOk;
      hide MsgsOk;
      hide RecordsOk;
      hide OptionsOk;
      var reuse: bool := *;
      if reuse && hints6 != {} {
        o :| o in hints6;
        hints6 := hints6 - {o};
        owner := Without(o);
        AddressesKeep(o);
        TxtsKeep(o);
        MsgsKeep(o);
        RecordsKeep(o);
        OptionsKeep(o);
      } else {
        o := new HintKv([]);
      }
    }

    method GetOpt() returns (o: OptRec)
      requires Valid()
      modifies this
      ensures Valid()
      ensures owner.Keys <= old(owner.Keys) && {o} !! owner.Keys
      ensures fresh({o} - old(owner.Keys))
    {
      hide AddressesOk;
      hide TxtsOk;
      hide MsgsOk;
      hide ValuesOk;
      hide OptionsOk;
      var reuse: bool := *;
      if reuse && opts != {} {
        o :| o in opts;
        opts := opts - {o};
        owner := Without(o);
        AddressesKeep(o);
        TxtsKeep(o);
        MsgsKeep(o);
        ValuesKeep(o);
        OptionsKeep(o);
      } else {
        o := new OptRec(NO_HEADER, []);
      }
    }

    method GetSubnet() returns (o: SubnetOpt)
      requires Valid()
      modifies this
      ensures Valid()
      ensures owner.Keys <= old(owner.Keys) && {o, o.address.arr} !! owner.Keys
      ensures fresh({o, o.address.arr} - old(owner.Keys))
    {
      hide AddressesOk;
      hide TxtsOk;
      hide MsgsOk;
      hide RecordsOk;
      hide ValuesOk;
      var reuse: bool := *;
      if reuse && subnets != {} {
        o :| o in subnets;
        subnets := subnets - {o};
        owner := Without(o);
        AddressesKeep(o);
        TxtsKeep(o);
        MsgsKeep(o);
        RecordsKeep(o);
        ValuesKeep(o);
      } else {
        var room := new Byte[16];
        o := new SubnetOpt(0, 0, 0, Ip(room, 0, 16));
      }
    }

    method GetEde() returns (o: EdeOpt)
      requires Valid()
      modifies this
      ensures Valid()
      ensures owner.Keys <= old(owner.Keys) && {o} !! owner.Keys
      ensures fresh({o} - old(owner.Keys))
    {
      hide AddressesOk;
      hide TxtsOk;
      hide MsgsOk;
      hide RecordsOk;
      hide ValuesOk;
      var reuse: bool := *;
      if reuse && edes != {} {
        o :| o in edes;
        edes := edes - {o};
        owner := Without(o);
        AddressesKeep(o);
        TxtsKeep(o);
        MsgsKeep(o);
        RecordsKeep(o);
        ValuesKeep(o);
      } else {
        o := new EdeOpt(0, "");
      }
    }

    method GetIp() returns (x: Ip)
      requires Valid()
      modifies this
      ensures Valid() && HasRoom(x)
      ensures owner.Keys <= old(owner.Keys) && {x.arr} !! owner.Keys
      ensures fresh({x.arr} - old(owner.Keys))
    {
      hide AddressesOk;
      hide TxtsOk;
      hide MsgsOk;
      hide RecordsOk;
      hide OptionsOk;
      var reuse: bool := *;
      if reuse && ips.Keys != {} {
        var arr :| arr in ips.Keys;
        x := Ip(arr, ips[arr], 16);
        ips := ips - {arr};
        owner := Without(arr);
        AddressesKeep(arr);
        TxtsKeep(arr);
        MsgsKeep(arr);
        RecordsKeep(arr);
        OptionsKeep(arr);
      } else {
        var arr := new Byte[16];
        x := Ip(arr, 0, 16);
      }
    }

    // ----- cloning

    /** append(dst[:0], src...): in place if there is room, else in a new array. */
    method Overwrite(dst: Ip, src: Ip, ghost objs: set<object>) returns (ip: Ip)
      requires IpIn(src, objs) && dst.arr !in objs
      modifies dst.arr
      ensures ip.arr == dst.arr || fresh(ip.arr)
      ensures ip.off + ip.len <= ip.arr.Length
      ensures ip.arr[ip.off..ip.off + ip.len] == IpVal(src, objs)
    {
      var arr, off := dst.arr, dst.off;
      if dst.arr.Length < dst.off + src.len {
        var slack: nat :| slack >= 0;
        arr, off := new Byte[src.len + slack], 0;
      }
      var k := 0;
      while k < src.len
        modifies arr
        invariant 0 <= k <= src.len
        invariant arr[off..off + k] == src.arr[src.off..src.off + k]
      {
        arr[off + k] := src.arr[src.off + k];
        k := k + 1;
      }
      ip := Ip(arr, off, src.len);
    }

    /** appendIfNotNil(dst[:0], src): an empty slice is a new one. */
    method OverwriteIfAny(dst: Ip, src: Ip, ghost objs: set<object>) returns (ip: Ip)
      requires IpIn(src, objs) && dst.arr !in objs
      modifies dst.arr
      ensures ip.arr == dst.arr || fresh(ip.arr)
      ensures ip.off + ip.len <= ip.arr.Length
      ensures ip.arr[ip.off..ip.off + ip.len] == IpVal(src, objs)
    {
      if src.len == 0 {
        var none := new Byte[0];
        ip := Ip(none, 0, 0);
      } else {
        ip := Overwrite(dst, src, objs);
      }
    }

    /** newANetIP and the copy of the header. */
    method CloneA(orig: ARec, ghost objs: set<object>, ghost sec: nat, ghost i: nat)
      returns (a: ARec, ghost pl: Places)
      requires Valid() && this !in owner && this !in objs && objs !! owner.Keys
      requires orig in objs && IpIn(orig.ip, objs)
      modifies this, owner.Keys
      ensures Valid() && owner.Keys <= old(owner.Keys)
      ensures pl.Keys !! owner.Keys && fresh(pl.Keys - old(owner.Keys))
      ensures RrCopy(A(a), A(orig), objs, sec, i, pl)
    {
      hide Valid;
      a := GetA();
      var ip := OverwriteIfAny(a.ip, orig.ip, objs);
      hide RrCopy;
      a.ip, a.hdr := ip, orig.hdr;
      pl := map[a := RrAt(sec, i), ip.arr := StoreOf(sec, i)];
      AAssembled(a, orig, objs, sec, i, pl);
    }

    /** appendIfNotNil(dst[:0], src) on strings. */
    method OverwriteStrings(dst: array<string>, src: Strings, ghost objs: set<object>) returns (t: Strings)
      requires StringsIn(src, objs) && dst !in objs
      modifies dst
      ensures t.arr == dst || fresh(t.arr)
      ensures t.len == src.len <= t.arr.Length
      ensures t.arr[..t.len] == StringsVal(src, objs)
    {
      var arr := dst;
      if dst.Length < src.len || src.len == 0 {
        var slack: nat :| slack >= 0;
        arr := new string[src.len + slack];
      }
      var k := 0;
      while k < src.len
        modifies arr
        invariant 0 <= k <= src.len
        invariant arr[..k] == src.arr[..k]
      {
        arr[k] := src.arr[k];
        k := k + 1;
      }
      t := Strings(arr, src.len);
    }

    /** newTXT and the copy of the header. */
    method CloneTxt(orig: TxtRec, ghost objs: set<object>, ghost sec: nat, ghost i: nat)
      returns (t: TxtRec, ghost pl: Places)
      requires Valid() && this !in owner && this !in objs && objs !! owner.Keys
      requires orig in objs && StringsIn(orig.txt, objs)
      modifies this, owner.Keys
      ensures Valid() && owner.Keys <= old(owner.Keys)
      ensures pl.Keys !! owner.Keys && fresh(pl.Keys - old(owner.Keys))
      ensures RrCopy(Txt(t), Txt(orig), objs, sec, i, pl)
    {
      hide Valid;
      t := GetTxt();
      var txt := OverwriteStrings(t.txt.arr, orig.txt, objs);
      hide RrCopy;
      t.txt, t.hdr := txt, orig.hdr;
      pl := map[t := RrAt(sec, i), txt.arr := StoreOf(sec, i)];
      TxtAssembled(t, orig, objs, sec, i, pl);
    }

    /** The SOA case of appendNS. */
    method CloneSoa(orig: SoaRec, ghost objs: set<object>, ghost sec: nat, ghost i: nat)
      returns (s: SoaRec, ghost pl: Places)
      requires Valid() && this !in owner && this !in objs && objs !! owner.Keys
      requires orig in objs
      modifies this, owner.Keys
      ensures Valid() && owner.Keys <= old(owner.Keys)
      ensures pl.Keys !! owner.Keys && fresh(pl.Keys - old(owner.Keys))
      ensures RrCopy(Soa(s), Soa(orig), objs, sec, i, pl)
    {
      hide Valid;
      s := GetSoa();
      s.hdr, s.mname, s.rname, s.serial, s.minTtl := orig.hdr, orig.mname, orig.rname, orig.serial, orig.minTtl;
      pl := map[s := RrAt(sec, i)];
    }

    /** appendIPs: each address in an array of its own. */
    method AppendIps(orig: seq<Ip>, ghost objs: set<object>, ghost sec: nat, ghost i: nat, ghost j: nat)
      returns (hints: seq<Ip>, ghost pl: Places)
      requires Valid() && this !in owner && this !in objs && objs !! owner.Keys
      requires forall k | 0 <= k < |orig| :: IpIn(orig[k], objs)
      modifies this, owner.Keys
      ensures Valid() && owner.Keys <= old(owner.Keys)
      ensures pl.Keys !! owner.Keys && fresh(pl.Keys - old(owner.Keys))
      ensures IpsCopy(hints, orig, objs, sec, i, j, pl)
    {
      hide Valid;
      hints, pl := [], map[];
      for k := 0 to |orig|
        invariant Valid() && owner.Keys <= old(owner.Keys)
        invariant pl.Keys !! owner.Keys && fresh(pl.Keys - old(owner.Keys))
        invariant |hints| == k && IpsCopy(hints, orig[..k], objs, sec, i, j, pl)
      {
        ghost var before := pl;
        var window := GetIp();
        var ip := Overwrite(window, orig[k], objs);
        pl := pl[ip.arr := IpAt(sec, i, j, k)];
        assert IpCopy(ip, orig[k], objs, IpAt(sec, i, j, k), pl);
        hide IpCopy;
        hide IpsCopy;
        IpsCopySnoc(hints, orig, objs, sec, i, j, before, pl, ip);
        hints := hints + [ip];
      }
      assert orig[..|orig|] == orig;
    }

    /** cloneIfHint */
    method CloneHint(v6: bool, orig: HintKv, ghost objs: set<object>, ghost sec: nat, ghost i: nat,
      ghost j: nat)
      returns (h: HintKv, ghost pl: Places)
      requires Valid() && this !in owner && this !in objs && objs !! owner.Keys
      requires KvIn(Hint(v6, orig), objs)
      modifies this, owner.Keys
      ensures Valid() && owner.Keys <= old(owner.Keys)
      ensures pl.Keys !! owner.Keys && fresh(pl.Keys - old(owner.Keys))
      ensures KvCopy(Hint(v6, h), Hint(v6, orig), objs, sec, i, j, pl)
    {
      hide Valid;
      hide KvCopy;
      hide IpsCopy;
      if v6 {
        h := GetHint6();
      } else {
        h := GetHint4();
      }
      var hints, ipl := AppendIps(orig.hint, objs, sec, i, j);
      h.hint := hints;
      pl := ipl[h := PartAt(sec, i, j)];
      HintAssembled(v6, h, orig, objs, sec, i, j, ipl, pl);
    }

    /** cloneKV; no result for a kind of value that it does not know. */
    method CloneKv(orig: KV, ghost objs: set<object>, ghost sec: nat, ghost i: nat, ghost j: nat)
      returns (kv: Option<KV>, ghost pl: Places)
      requires Valid() && this !in owner && this !in objs && objs !! owner.Keys
      requires KvIn(orig, objs)
      modifies this, owner.Keys
      ensures Valid() && owner.Keys <= old(owner.Keys)
      ensures pl.Keys !! owner.Keys && fresh(pl.Keys - old(owner.Keys))
      ensures kv.None? <==> orig.UnknownKv?
      ensures kv.Some? ==> KvCopy(kv.value, orig, objs, sec, i, j, pl)
    {
      hide Valid;
      match orig
      case Alpn(k) =>
        var c := GetAlpn();
        c.alpn := k.alpn;
        kv := Some(Alpn(c));
        pl := map[c := PartAt(sec, i, j)];
      case Hint(v6, h) =>
        var c, cpl := CloneHint(v6, h, objs, sec, i, j);
        kv, pl := Some(Hint(v6, c)), cpl;
      case NoDefaultAlpn =>
        kv, pl := Some(orig), map[];
      case UnknownKv(_) =>
        kv, pl := None, map[];
    }

    /** The loop of httpsCloner.clone; it gives up at a value of an unknown kind. */
    method CloneKvs(orig: seq<KV>, ghost objs: set<object>, ghost sec: nat, ghost i: nat)
      returns (clones: Option<seq<KV>>, ghost pl: Places)
      requires Valid() && this !in owner && this !in objs && objs !! owner.Keys
      requires KvsIn(orig, objs)
      modifies this, owner.Keys
      ensures Valid() && owner.Keys <= old(owner.Keys)
      ensures pl.Keys !! owner.Keys && fresh(pl.Keys - old(owner.Keys))
      ensures clones.Some? <==> forall j | 0 <= j < |orig| :: !orig[j].UnknownKv?
      ensures clones.Some? ==> KvsCopy(clones.value, orig, objs, sec, i, pl)
    {
      hide Valid;
      hide KvIn;
      hide KvCopy;
      var done: seq<KV> := [];
      pl := map[];
      for j := 0 to |orig|
        invariant Valid() && owner.Keys <= old(owner.Keys)
        invariant pl.Keys !! owner.Keys && fresh(pl.Keys - old(owner.Keys))
        invariant forall n: nat | n < j :: !orig[n].UnknownKv?
        invariant KvsCopy(done, orig[..j], objs, sec, i, pl)
      {
        ghost var before := pl;
        var c, cpl := CloneKv(orig[j], objs, sec, i, j);
        if c.None? {
          return None, map[];
        }
        pl := pl + cpl;
        KvsCopyMono(done, orig[..j], objs, sec, i, before, pl);
        KvCopyMono(c.value, orig[j], objs, sec, i, j, cpl, pl);
        done := done + [c.value];
      }
      assert orig[..|orig|] == orig;
      clones := Some(done);
    }

    /** httpsCloner.clone: after giving up it returns a plain copy, and the objects taken so far are dropped. */
    method CloneHttps(rr: HttpsRec, ghost objs: set<object>, ghost sec: nat, ghost i: nat)
      returns (clone: HttpsRec, full: bool, ghost pl: Places)
      requires Valid() && this !in owner && this !in objs && objs !! owner.Keys
      requires rr in objs && KvsIn(rr.value, objs)
      modifies this, owner.Keys
      ensures Valid() && owner.Keys <= old(owner.Keys)
      ensures pl.Keys !! owner.Keys && fresh(pl.Keys - old(owner.Keys))
      ensures full <==> forall j | 0 <= j < |rr.value| :: !rr.value[j].UnknownKv?
      ensures RrCopy(Https(clone), Https(rr), objs, sec, i, pl)
    {
      hide Valid;
      hide KvsIn;
      hide KvsCopy;
      hide RrCopy;
      clone := GetHttps();
      var kvs, kpl := CloneKvs(rr.value, objs, sec, i);
      full := kvs.Some?;
      if full {
        clone.Fill(rr.hdr, rr.priority, rr.target, kvs.value);
        pl := kpl[clone := RrAt(sec, i)];
        HttpsAssembled(clone, rr, objs, sec, i, kpl, pl);
      } else {
        clone, pl := CopyHttps(rr, objs, sec, i);
      }
    }

    /** The options that optCloner.clone knows. */
    method CloneOpt(orig: Opt, ghost objs: set<object>, ghost sec: nat, ghost i: nat, ghost j: nat)
      returns (opt: Option<Opt>, ghost pl: Places)
      requires Valid() && this !in owner && this !in objs && objs !! owner.Keys
      requires OptIn(orig, objs)
      modifies this, owner.Keys
      ensures Valid() && owner.Keys <= old(owner.Keys)
      ensures pl.Keys !! owner.Keys && fresh(pl.Keys - old(owner.Keys))
      ensures opt.None? <==> orig.UnknownOpt?
      ensures opt.Some? ==> OptCopy(opt.value, orig, objs, sec, i, j, pl)
    {
      hide Valid;
      match orig
      case Subnet(s) =>
        var c, cpl := CloneSubnet(s, objs, sec, i, j);
        opt, pl := Some(Subnet(c)), cpl;
      case Ede(e) =>
        var c := GetEde();
        c.infoCode, c.extraText := e.infoCode, e.extraText;
        opt := Some(Ede(c));
        pl := map[c := PartAt(sec, i, j)];
      case UnknownOpt(_) =>
        opt, pl := None, map[];
    }

    method CloneSubnet(s: SubnetOpt, ghost objs: set<object>, ghost sec: nat, ghost i: nat, ghost j: nat)
      returns (c: SubnetOpt, ghost pl: Places)
      requires Valid() && this !in owner && this !in objs && objs !! owner.Keys
      requires s in objs && IpIn(s.address, objs)
      modifies this, owner.Keys
      ensures Valid() && owner.Keys <= old(owner.Keys)
      ensures pl.Keys !! owner.Keys && fresh(pl.Keys - old(owner.Keys))
      ensures OptCopy(Subnet(c), Subnet(s), objs, sec, i, j, pl)
    {
      hide Valid;
      c := GetSubnet();
      var address := Overwrite(c.address, s.address, objs);
      hide OptCopy;
      c.Fill(s.family, s.netmask, s.scope, address);
      pl := map[c := PartAt(sec, i, j), address.arr := IpAt(sec, i, j, 0)];
      SubnetAssembled(c, s, objs, sec, i, j, pl);
    }

    /** The loop of optCloner.clone; it gives up at an unknown option. */
    method CloneOpts(orig: seq<Opt>, ghost objs: set<object>, ghost sec: nat, ghost i: nat)
      returns (clones: Option<seq<Opt>>, ghost pl: Places)
      requires Valid() && this !in owner && this !in objs && objs !! owner.Keys
      requires OptsIn(orig, objs)
      modifies this, owner.Keys
      ensures Valid() && owner.Keys <= old(owner.Keys)
      ensures pl.Keys !! owner.Keys && fresh(pl.Keys - old(owner.Keys))
      ensures clones.Some? <==> forall j | 0 <= j < |orig| :: !orig[j].UnknownOpt?
      ensures clones.Some? ==> OptsCopy(clones.value, orig, objs, sec, i, pl)
    {
      hide Valid;
      hide OptIn;
      hide OptCopy;
      var done: seq<Opt> := [];
      pl := map[];
      for j := 0 to |orig|
        invariant Valid() && owner.Keys <= old(owner.Keys)
        invariant pl.Keys !! owner.Keys && fresh(pl.Keys - old(owner.Keys))
        invariant forall n: nat | n < j :: !orig[n].UnknownOpt?
        invariant OptsCopy(done, orig[..j], objs, sec, i, pl)
      {
        ghost var before := pl;
        var c, cpl := CloneOpt(orig[j], objs, sec, i, j);
        if c.None? {
          return None, map[];
        }
        pl := pl + cpl;
        OptsCopyMono(done, orig[..j], objs, sec, i, before, pl);
        OptCopyMono(c.value, orig[j], objs, sec, i, j, cpl, pl);
        done := done + [c.value];
      }
      assert orig[..|orig|] == orig;
      clones := Some(done);
    }

    /** optCloner.clone */
    method CloneOptRec(rr: OptRec, ghost objs: set<object>, ghost sec: nat, ghost i: nat)
      returns (clone: OptRec, full: bool, ghost pl: Places)
      requires Valid() && this !in owner && this !in objs && objs !! owner.Keys
      requires rr in objs && OptsIn(rr.options, objs)
      modifies this, owner.Keys
      ensures Valid() && owner.Keys <= old(owner.Keys)
      ensures pl.Keys !! owner.Keys && fresh(pl.Keys - old(owner.Keys))
      ensures full <==> forall j | 0 <= j < |rr.options| :: !rr.options[j].UnknownOpt?
      ensures RrCopy(OptRr(clone), OptRr(rr), objs, sec, i, pl)
    {
      hide Valid;
      hide OptsIn;
      hide OptsCopy;
      hide RrCopy;
      clone := GetOpt();
      var os, opl := CloneOpts(rr.options, objs, sec, i);
      full := os.Some?;
      if full {
        clone.Fill(rr.hdr, os.value);
        pl := opl[clone := RrAt(sec, i)];
        OptAssembled(clone, rr, objs, sec, i, opl, pl);
      } else {
        clone, pl := CopyOptRec(rr, objs, sec, i);
      }
    }

    /**
      One record of section sec: cloneAnswerRR for the answer section (0), the
      loop bodies of appendNS (1) and appendExtra (2).  full tells whether the
      record was cloned without a plain copy.
     */
    method CloneRr(orig: RR, sec: nat, ghost objs: set<object>, ghost i: nat)
      returns (r: RR, full: bool, ghost pl: Places)
      requires Valid() && this !in owner && this !in objs && objs !! owner.Keys
      requires RrIn(orig, objs)
      modifies this, owner.Keys
      ensures Valid() && owner.Keys <= old(owner.Keys)
      ensures pl.Keys !! owner.Keys && fresh(pl.Keys - old(owner.Keys))
      ensures full <==> Recognized(orig, sec, objs)
      ensures RrCopy(r, orig, objs, sec, i, pl)
    {
      hide Valid;
      hide RrCopy;
      match orig {
        case A(a) =>
          if sec == 0 {
            var c, cpl := CloneA(a, objs, sec, i);
            return A(c), true, cpl;
          }
        case Txt(t) =>
          if sec == 0 {
            var c, cpl := CloneTxt(t, objs, sec, i);
            return Txt(c), true, cpl;
          }
        case Https(h) =>
          if sec == 0 {
            var c, f, cpl := CloneHttps(h, objs, sec, i);
            return Https(c), f, cpl;
          }
        case Soa(s) =>
          if sec == 1 {
            var c, cpl := CloneSoa(s, objs, sec, i);
            return Soa(c), true, cpl;
          }
        case OptRr(o) =>
          if sec == 2 {
            var c, f, cpl := CloneOptRec(o, objs, sec, i);
            return OptRr(c), f, cpl;
          }
        case Other(_) =>
      }
      r, pl := CopyRr(orig, objs, sec, i);
      full := false;
    }

    /** appendAnswer, appendNS and appendExtra. */
    method CloneSection(orig: seq<RR>, sec: nat, ghost objs: set<object>)
      returns (rs: seq<RR>, full: bool, ghost pl: Places)
      requires Valid() && this !in owner && this !in objs && objs !! owner.Keys
      requires RrsIn(orig, objs)
      modifies this, owner.Keys
      ensures Valid() && owner.Keys <= old(owner.Keys)
      ensures pl.Keys !! owner.Keys && fresh(pl.Keys - old(owner.Keys))
      ensures full <==> RrsRecognized(orig, sec, objs)
      ensures RrsCopy(rs, orig, objs, sec, pl)
    {
      hide Valid;
      hide RrIn;
      hide RrCopy;
      hide Recognized;
      rs, full, pl := [], true, map[];
      for i := 0 to |orig|
        invariant Valid() && owner.Keys <= old(owner.Keys)
        invariant pl.Keys !! owner.Keys && fresh(pl.Keys - old(owner.Keys))
        invariant full <==> forall n: nat | n < i :: Recognized(orig[n], sec, objs)
        invariant RrsCopy(rs, orig[..i], objs, sec, pl)
      {
        ghost var before := pl;
        var r, f, rpl := CloneRr(orig[i], sec, objs, i);
        pl := pl + rpl;
        RrsCopyMono(rs, orig[..i], objs, sec, before, pl);
        RrCopyMono(r, orig[i], objs, sec, i, rpl, pl);
        rs := rs + [r];
        full := full && f;
      }
      assert orig[..|orig|] == orig;
    }

    method CloneSections(msg: Msg, ghost objs: set<object>)
      returns (answer: seq<RR>, ns: seq<RR>, extra: seq<RR>, full: bool, ghost pl: Places)
      requires Valid() && this !in owner && this !in objs && objs !! owner.Keys
      requires msg in objs && msg.In(objs)
      modifies this, owner.Keys
      ensures Valid() && owner.Keys <= old(owner.Keys)
      ensures pl.Keys !! owner.Keys && fresh(pl.Keys - old(owner.Keys))
      ensures full <==> MsgRecognized(msg, objs)
      ensures SectionsCopy(answer, ns, extra, msg, objs, pl)
    {
      hide Valid;
      hide RrsIn;
      hide RrsCopy;
      hide RrsRecognized;
      ghost var pl0, pl1, pl2;
      var ansFull, nsFull, exFull;
      answer, ansFull, pl0 := CloneSection(msg.answer.arr[..msg.answer.len], 0, objs);
      ns, nsFull, pl1 := CloneSection(msg.ns.arr[..msg.ns.len], 1, objs);
      extra, exFull, pl2 := CloneSection(msg.extra.arr[..msg.extra.len], 2, objs);
      full := ansFull && nsFull && exFull;
      pl := pl0 + pl1 + pl2;
      RrsCopyMono(answer, Rrs(msg.answer), objs, 0, pl0, pl);
      RrsCopyMono(ns, Rrs(msg.ns), objs, 1, pl1, pl);
      RrsCopyMono(extra, Rrs(msg.extra), objs, 2, pl2, pl);
    }

    method CloneMsg(msg: Msg, ghost objs: set<object>) returns (clone: Msg, full: bool)
      requires Valid() && this !in owner && this !in objs && objs !! owner.Keys
      requires msg in objs && msg.In(objs)
      modifies this, owner.Keys
      ensures Valid() && owner.Keys <= old(owner.Keys)
      ensures full <==> MsgRecognized(msg, objs)
      ensures MsgCopy(clone, msg, objs)
      ensures clone.places.Keys !! owner.Keys && fresh(clone.places.Keys - old(owner.Keys))
    {
      hide *;
      clone := GetMsg();
      var answer, ns, extra, f, pl := CloneSections(msg, objs);
      FillSections(clone, msg, answer, ns, extra, objs, pl);
      full := f;
    }

    /** append(slots[:0], rs...): in place if there is room, else in a new array. */
    method AppendRrs(slots: Section, rs: seq<RR>) returns (s: Section)
      modifies slots.arr
      ensures s.arr == slots.arr || fresh(s.arr)
      ensures s.len <= s.arr.Length && s.arr[..s.len] == rs
    {
      if rs == [] {
        var none := new RR[0];
        return Section(none, 0);
      }
      var arr := slots.arr;
      if arr.Length < |rs| {
        var slack: nat :| slack >= 0;
        arr := new RR[|rs| + slack](_ => rs[0]);
      }
      var k := 0;
      while k < |rs|
        modifies arr
        invariant 0 <= k <= |rs|
        invariant arr[..k] == rs[..k]
      {
        arr[k] := rs[k];
        k := k + 1;
      }
      s := Section(arr, |rs|);
    }

    /** The rest of Clone: the slots of the pooled message are overwritten with the clones. */
    method FillSections(
      clone: Msg, msg: Msg, answer: seq<RR>, ns: seq<RR>, extra: seq<RR>, ghost objs: set<object>,
      ghost pl: Places)
      requires SectionsCopy(answer, ns, extra, msg, objs, pl) && msg in objs
      requires {clone, clone.answer.arr, clone.ns.arr, clone.extra.arr} !! pl.Keys + objs
      requires DistinctSlots(clone)
      modifies clone, clone.answer.arr, clone.ns.arr, clone.extra.arr
      ensures MsgCopy(clone, msg, objs)
      ensures clone.places.Keys <= pl.Keys + {clone} + {clone.answer.arr, clone.ns.arr, clone.extra.arr}
      ensures clone.answer.arr == old(clone.answer.arr) || fresh(clone.answer.arr)
      ensures clone.ns.arr == old(clone.ns.arr) || fresh(clone.ns.arr)
      ensures clone.extra.arr == old(clone.extra.arr) || fresh(clone.extra.arr)
    {
      hide SectionsCopy;
      hide MsgCopy;
      hide Msg.HasSlots;
      hide Msg.SlotsPlaced;
      hide Extends;
      hide At;
      var a := AppendRrs(clone.answer, answer);
      var n := AppendRrs(clone.ns, ns);
      var e := AppendRrs(clone.extra, extra);
      ghost var places := pl[clone := Top][a.arr := SlotsOf(0)][n.arr := SlotsOf(1)][e.arr := SlotsOf(2)];
      clone.Fill(msg.hdr, msg.question, a, n, e, places);
      SlotsAssembled(clone, pl, places);
      MsgAssembled(clone, msg, objs, pl);
    }

    /** Clone: a deep copy of msg, or nil for nil.  full goes to the statistics. */
    method Clone(msg: Msg?, ghost objs: set<object>) returns (clone: Msg?, full: bool)
      requires Valid() && this !in owner && this !in objs && objs !! owner.Keys
      requires msg != null ==> msg in objs && msg.In(objs)
      modifies this, owner.Keys
      ensures Valid() && owner.Keys <= old(owner.Keys)
      ensures clone == null <==> msg == null
      ensures msg != null ==> (full <==> MsgRecognized(msg, objs))
      ensures msg != null ==> MsgCopy(clone, msg, objs)
      ensures msg != null ==> clone.places.Keys !! owner.Keys && fresh(clone.places.Keys - old(owner.Keys))
    {
      hide *;
      if msg == null {
        return null, true;
      }
      clone, full := CloneMsg(msg, objs);
    }

    // ----- putting objects back

    // A pool's Put; putting an object that is already free would be a double put.

    method PutMsg(o: Msg)
      requires Valid() && {o, o.answer.arr, o.ns.arr, o.extra.arr} !! owner.Keys && DistinctSlots(o)
      modifies this
      ensures Valid() && owner == old(owner)[o := o][o.answer.arr := o][o.ns.arr := o][o.extra.arr := o]
      ensures msgs == old(msgs) + {o}
    {
      hide AddressesOk;
      hide TxtsOk;
      hide RecordsOk;
      hide ValuesOk;
      hide OptionsOk;
      msgs := msgs + {o};
      owner := owner[o := o][o.answer.arr := o][o.ns.arr := o][o.extra.arr := o];
      AddressesKeep(this);
      TxtsKeep(this);
      RecordsKeep(this);
      ValuesKeep(this);
      OptionsKeep(this);
    }

    method PutA(o: ARec)
      requires Valid() && o !in owner && o.ip.arr !in owner
      modifies this
      ensures Valid() && owner == old(owner)[o := o][o.ip.arr := o]
      ensures addresses == old(addresses) + {o}
    {
      hide TxtsOk;
      hide RecordsOk;
      hide MsgsOk;
      hide ValuesOk;
      hide OptionsOk;
      addresses := addresses + {o};
      owner := owner[o := o][o.ip.arr := o];
      TxtsKeep(this);
      RecordsKeep(this);
      MsgsKeep(this);
      ValuesKeep(this);
      OptionsKeep(this);
    }

    method PutTxt(o: TxtRec)
      requires Valid() && o !in owner && o.txt.arr !in owner
      modifies this
      ensures Valid() && owner == old(owner)[o := o][o.txt.arr := o]
      ensures txts == old(txts) + {o}
    {
      hide AddressesOk;
      hide RecordsOk;
      hide MsgsOk;
      hide ValuesOk;
      hide OptionsOk;
      txts := txts + {o};
      owner := owner[o := o][o.txt.arr := o];
      AddressesKeep(this);
      RecordsKeep(this);
      MsgsKeep(this);
      ValuesKeep(this);
      OptionsKeep(this);
    }

    method PutSoa(o: SoaRec)
      requires Valid() && o !in owner
      modifies this
      ensures Valid() && owner == old(owner)[o := o]
      ensures soas == old(soas) + {o}
    {
      hide AddressesOk;
      hide TxtsOk;
      hide MsgsOk;
      hide ValuesOk;
      hide OptionsOk;
      soas := soas + {o};
      owner := owner[o := o];
      AddressesKeep(this);
      TxtsKeep(this);
      MsgsKeep(this);
      ValuesKeep(this);
      OptionsKeep(this);
    }

    method PutHttpsRec(o: HttpsRec)
      requires Valid() && o !in owner
      modifies this
      ensures Valid() && owner == old(owner)[o := o]
      ensures https == old(https) + {o}
    {
      hide AddressesOk;
      hide TxtsOk;
      hide MsgsOk;
      hide ValuesOk;
      hide OptionsOk;
      https := https + {o};
      owner := owner[o := o];
      AddressesKeep(this);
      TxtsKeep(this);
      MsgsKeep(this);
      ValuesKeep(this);
      OptionsKeep(this);
    }

    method PutAlpn(o: AlpnKv)
      requires Valid() && o !in owner
      modifies this
      ensures Valid() && owner == old(owner)[o := o]
      ensures alpns == old(alpns) + {o}
    {
      hide AddressesOk;
      hide TxtsOk;
      hide MsgsOk;
      hide RecordsOk;
      hide OptionsOk;
      alpns := alpns + {o};
      owner := owner[o := o];
      AddressesKeep(this);
      TxtsKeep(this);
      MsgsKeep(this);
      RecordsKeep(this);
      OptionsKeep(this);
    }

    method PutHint4(o: HintKv)
      requires Valid() && o !in owner
      modifies this
      ensures Valid() && owner == old(owner)[o := o]
      ensures hints4 == old(hints4) + {o}
    {
      hide AddressesOk;
      hide TxtsOk;
      hide MsgsOk;
      hide RecordsOk;
      hide OptionsOk;
      hints4 := hints4 + {o};
      owner := owner[o := o];
      AddressesKeep(this);
      TxtsKeep(this);
      MsgsKeep(this);
      RecordsKeep(this);
      OptionsKeep(this);
    }

    method PutHint6(o: HintKv)
      requires Valid() && o !in owner
      modifies this
      ensures Valid() && owner == old(owner)[o := o]
      ensures hints6 == old(hints6) + {o}
    {
      hide AddressesOk;
      hide TxtsOk;
      hide MsgsOk;
      hide RecordsOk;
      hide OptionsOk;
      hints6 := hints6 + {o};
      owner := owner[o := o];
      AddressesKeep(this);
      TxtsKeep(this);
      MsgsKeep(this);
      RecordsKeep(this);
      OptionsKeep(this);
    }

    method PutOptRec(o: OptRec)
      requires Valid() && o !in owner
      modifies this
      ensures Valid() && owner == old(owner)[o := o]
      ensures opts == old(opts) + {o}
    {
      hide AddressesOk;
      hide TxtsOk;
      hide MsgsOk;
      hide ValuesOk;
      hide OptionsOk;
      opts := opts + {o};
      owner := owner[o := o];
      AddressesKeep(this);
      TxtsKeep(this);
      MsgsKeep(this);
      ValuesKeep(this);
      OptionsKeep(this);
    }

    method PutSubnet(o: SubnetOpt)
      requires Valid() && o !in owner && o.address.arr !in owner
      modifies this
      ensures Valid() && owner == old(owner)[o := o][o.address.arr := o]
      ensures subnets == old(subnets) + {o}
    {
      hide AddressesOk;
      hide TxtsOk;
      hide MsgsOk;
      hide RecordsOk;
      hide ValuesOk;
      subnets := subnets + {o};
      owner := owner[o := o][o.address.arr := o];
      AddressesKeep(this);
      TxtsKeep(this);
      MsgsKeep(this);
      RecordsKeep(this);
      ValuesKeep(this);
    }

    method PutEde(o: EdeOpt)
      requires Valid() && o !in owner
      modifies this
      ensures Valid() && owner == old(owner)[o := o]
      ensures edes == old(edes) + {o}
    {
      hide AddressesOk;
      hide TxtsOk;
      hide MsgsOk;
      hide RecordsOk;
      hide ValuesOk;
      edes := edes + {o};
      owner := owner[o := o];
      AddressesKeep(this);
      TxtsKeep(this);
      MsgsKeep(this);
      RecordsKeep(this);
      ValuesKeep(this);
    }

    method PutIp(x: Ip)
      requires Valid() && x.arr !in owner && HasRoom(x)
      modifies this
      ensures Valid() && owner == old(owner)[x.arr := x.arr]
      ensures ips == old(ips)[x.arr := x.off]
    {
      hide AddressesOk;
      hide TxtsOk;
      hide MsgsOk;
      hide RecordsOk;
      hide OptionsOk;
      ips := ips[x.arr := x.off];
      owner := owner[x.arr := x.arr];
      AddressesKeep(this);
      TxtsKeep(this);
      MsgsKeep(this);
      RecordsKeep(this);
      OptionsKeep(this);
    }

    /** putIPs: the first sixteen bytes of an address go back if its capacity allows. */
    method PutIps(hints: seq<Ip>, ghost pl: Places, ghost sec: nat, ghost i: nat, ghost j: nat)
      requires Valid() && this !in pl
      requires forall k: nat | k < |hints| :: HintPlaced(hints[k], sec, i, j, k, pl)
      requires forall o | o in pl && IsIpAt(pl[o], sec, i, j) :: o !in owner
      modifies this
      ensures Valid() && old(owner.Keys) <= owner.Keys
      ensures forall o | o in owner :: o in old(owner) || (o in pl && IsIpAt(pl[o], sec, i, j))
      ensures old(Pooled()) <= Pooled()
      ensures forall k: nat | k < |hints| && HasRoom(hints[k]) :: hints[k].arr in Pooled()
    {
      hide Valid;
      for k := 0 to |hints|
        invariant Valid() && old(owner.Keys) <= owner.Keys
        invariant old(Pooled()) <= Pooled()
        invariant forall n: nat | n < k && HasRoom(hints[n]) :: hints[n].arr in Pooled()
        invariant forall o | o in owner :: o in old(owner) || (o in pl && IsIpAt(pl[o], sec, i, j) && pl[o].k < k)
      {
        if HasRoom(hints[k]) {
          assert HintPlaced(hints[k], sec, i, j, k, pl);
          PutIp(hints[k]);
        }
      }
    }

    /** putKV */
    method PutKv(kv: KV, ghost pl: Places, ghost sec: nat, ghost i: nat, ghost j: nat)
      requires Valid() && this !in pl && KvPlaced(kv, sec, i, j, pl)
      requires forall o | o in pl && InPart(pl[o], sec, i, j) :: o !in owner
      modifies this
      ensures Valid() && old(owner.Keys) <= owner.Keys
      ensures forall o | o in owner :: o in old(owner) || (o in pl && InPart(pl[o], sec, i, j))
      ensures old(Pooled()) <= Pooled()
      ensures KvReturned(kv, sec, i, j, pl, Pooled())
    {
      hide Valid;
      match kv
      case Alpn(k) => PutAlpn(k);
      case Hint(v6, h) =>
        PutIps(h.hint, pl, sec, i, j);
        if v6 {
          PutHint6(h);
        } else {
          PutHint4(h);
        }
      case NoDefaultAlpn =>
      case UnknownKv(_) =>
    }

    /** httpsCloner.put */
    method PutHttps(h: HttpsRec, ghost pl: Places, ghost sec: nat, ghost i: nat)
      requires Valid() && this !in pl && RrPlaced(Https(h), sec, i, pl)
      requires forall o | o in pl && InRr(pl[o], sec, i) :: o !in owner
      modifies this
      ensures Valid() && old(owner.Keys) <= owner.Keys
      ensures forall o | o in owner :: o in old(owner) || (o in pl && InRr(pl[o], sec, i))
      ensures old(Pooled()) <= Pooled()
      ensures h in Pooled() && forall j: nat | j < |h.value| :: KvReturned(h.value[j], sec, i, j, pl, Pooled())
    {
      hide Valid;
      hide KvPlaced;
      for j := 0 to |h.value|
        invariant Valid() && old(owner.Keys) <= owner.Keys
        invariant old(Pooled()) <= Pooled()
        invariant forall n: nat | n < j :: KvReturned(h.value[n], sec, i, n, pl, Pooled())
        invariant forall o | o in owner :: o in old(owner) || (o in pl && InRr(pl[o], sec, i) && PartBefore(pl[o], j))
      {
        assert KvPlaced(h.value[j], sec, i, j, pl);
        PutKv(h.value[j], pl, sec, i, j);
      }
      PutHttpsRec(h);
    }

    /** One option of optCloner.put. */
    method PutOption(o: Opt, ghost pl: Places, ghost sec: nat, ghost i: nat, ghost j: nat)
      requires Valid() && this !in pl && OptPlaced(o, sec, i, j, pl)
      requires forall o | o in pl && InPart(pl[o], sec, i, j) :: o !in owner
      modifies this
      ensures Valid() && old(owner.Keys) <= owner.Keys
      ensures forall o | o in owner :: o in old(owner) || (o in pl && InPart(pl[o], sec, i, j))
      ensures old(Pooled()) <= Pooled()
      ensures OptReturned(o, Pooled())
    {
      hide Valid;
      match o
      case Subnet(s) => PutSubnet(s);
      case Ede(e) => PutEde(e);
      case UnknownOpt(_) =>
    }

    /** optCloner.put */
    method PutOpt(o: OptRec, ghost pl: Places, ghost sec: nat, ghost i: nat)
      requires Valid() && this !in pl && RrPlaced(OptRr(o), sec, i, pl)
      requires forall o | o in pl && InRr(pl[o], sec, i) :: o !in owner
      modifies this
      ensures Valid() && old(owner.Keys) <= owner.Keys
      ensures forall o | o in owner :: o in old(owner) || (o in pl && InRr(pl[o], sec, i))
      ensures old(Pooled()) <= Pooled()
      ensures o in Pooled() && forall j: nat | j < |o.options| :: OptReturned(o.options[j], Pooled())
    {
      hide Valid;
      hide OptPlaced;
      for j := 0 to |o.options|
        invariant Valid() && old(owner.Keys) <= owner.Keys
        invariant old(Pooled()) <= Pooled()
        invariant forall n: nat | n < j :: OptReturned(o.options[n], Pooled())
        invariant forall o | o in owner :: o in old(owner) || (o in pl && InRr(pl[o], sec, i) && PartBefore(pl[o], j))
      {
        assert OptPlaced(o.options[j], sec, i, j, pl);
        PutOption(o.options[j], pl, sec, i, j);
      }
      PutOptRec(o);
    }

    /** One record: putAnswers in the answer section, the loops of Dispose in the other two. */
    method PutRr(r: RR, sec: nat, ghost pl: Places, ghost i: nat)
      requires Valid() && this !in pl && RrPlaced(r, sec, i, pl)
      requires forall o | o in pl && InRr(pl[o], sec, i) :: o !in owner
      modifies this
      ensures Valid() && old(owner.Keys) <= owner.Keys
      ensures forall o | o in owner :: o in old(owner) || (o in pl && InRr(pl[o], sec, i))
      ensures old(Pooled()) <= Pooled()
      ensures RrReturned(r, sec, i, pl, Pooled())
    {
      hide Valid;
      match r
      case A(a) =>
        if sec == 0 {
          PutA(a);
        }
      case Txt(t) =>
        if sec == 0 {
          PutTxt(t);
        }
      case Https(h) =>
        if sec == 0 {
          PutHttps(h, pl, sec, i);
        }
      case Soa(s) =>
        if sec == 1 {
          PutSoa(s);
        }
      case OptRr(o) =>
        if sec == 2 {
          PutOpt(o, pl, sec, i);
        }
      case Other(_) =>
    }

    method PutSection(rs: seq<RR>, sec: nat, ghost pl: Places)
      requires Valid() && this !in pl && RrsPlaced(rs, sec, pl)
      requires forall o | o in pl && InSection(pl[o], sec) :: o !in owner
      modifies this
      ensures Valid() && old(owner.Keys) <= owner.Keys
      ensures forall o | o in owner :: o in old(owner) || (o in pl && InSection(pl[o], sec))
      ensures old(Pooled()) <= Pooled()
      ensures RrsReturned(rs, sec, pl, Pooled())
    {
      hide Valid;
      hide RrPlaced;
      hide RrReturned;
      for i := 0 to |rs|
        invariant Valid() && old(owner.Keys) <= owner.Keys
        invariant old(Pooled()) <= Pooled()
        invariant forall n: nat | n < i :: RrReturned(rs[n], sec, n, pl, Pooled())
        invariant forall o | o in owner :: o in old(owner) || (o in pl && InSection(pl[o], sec) && pl[o].i < i)
      {
        assert RrPlaced(rs[i], sec, i, pl);
        ghost var before := Pooled();
        PutRr(rs[i], sec, pl, i);
        forall n: nat | n < i ensures RrReturned(rs[n], sec, n, pl, Pooled()) {
          assert RrPlaced(rs[n], sec, n, pl);
          RrReturnedMono(rs[n], sec, n, pl, before, Pooled());
        }
      }
    }

    /** Everything in resp that the pools take has been returned. */
    ghost predicate Returned(resp: Msg)
      requires resp.Owned()
      reads this, resp, resp.places.Keys
    {
      && resp in Pooled()
      && RrsReturned(Rrs(resp.answer), 0, resp.places, Pooled())
      && RrsReturned(Rrs(resp.ns), 1, resp.places, Pooled())
      && RrsReturned(Rrs(resp.extra), 2, resp.places, Pooled())
    }

    method PutParts(resp: Msg)
      requires Valid() && resp.Owned() && this !in resp.places && resp.places.Keys !! owner.Keys
      modifies this
      ensures Valid() && old(owner.Keys) <= owner.Keys
      ensures owner.Keys <= old(owner.Keys) + resp.places.Keys
      ensures Returned(resp)
    {
      hide Valid;
      hide RrsPlaced;
      hide RrsReturned;
      hide RrsIn;
      ghost var pl := resp.places;
      PutSection(resp.answer.arr[..resp.answer.len], 0, pl);
      ghost var p0 := Pooled();
      PutSection(resp.ns.arr[..resp.ns.len], 1, pl);
      ghost var p1 := Pooled();
      PutSection(resp.extra.arr[..resp.extra.len], 2, pl);
      ghost var p2 := Pooled();
      PutMsg(resp);
      RrsReturnedMono(Rrs(resp.answer), 0, pl, p0, Pooled());
      RrsReturnedMono(Rrs(resp.ns), 1, pl, p1, Pooled());
      RrsReturnedMono(Rrs(resp.extra), 2, pl, p2, Pooled());
    }

    /** Dispose: the parts of resp become free, nothing else does, and nothing is put twice. */
    method Dispose(resp: Msg?)
      requires Valid()
      requires resp != null ==> resp.Owned() && this !in resp.places && resp.places.Keys !! owner.Keys
      modifies this
      ensures Valid() && old(owner.Keys) <= owner.Keys
      ensures resp != null ==> owner.Keys <= old(owner.Keys) + resp.places.Keys
      ensures resp != null ==> Returned(resp)
      ensures resp == null ==> owner == old(owner)
    {
      hide Valid;
      if resp != null {
        PutParts(resp);
      }
    }
  }

  lemma AAssembled(a: ARec, orig: ARec, objs: set<object>, sec: nat, i: nat, pl: Places)
    requires orig in objs && IpIn(orig.ip, objs) && a.hdr == orig.hdr
    requires At(a, RrAt(sec, i), pl) && At(a.ip.arr, StoreOf(sec, i), pl)
    requires IpIn(a.ip, pl.Keys) && IpVal(a.ip, pl.Keys) == IpVal(orig.ip, objs)
    ensures RrCopy(A(a), A(orig), objs, sec, i, pl)
  {
  }

  lemma TxtAssembled(t: TxtRec, orig: TxtRec, objs: set<object>, sec: nat, i: nat, pl: Places)
    requires orig in objs && StringsIn(orig.txt, objs) && t.hdr == orig.hdr
    requires At(t, RrAt(sec, i), pl) && At(t.txt.arr, StoreOf(sec, i), pl)
    requires StringsIn(t.txt, pl.Keys) && StringsVal(t.txt, pl.Keys) == StringsVal(orig.txt, objs)
    ensures RrCopy(Txt(t), Txt(orig), objs, sec, i, pl)
  {
  }

  lemma SubnetAssembled(c: SubnetOpt, s: SubnetOpt, objs: set<object>, sec: nat, i: nat, j: nat, pl: Places)
    requires s in objs && IpIn(s.address, objs)
    requires (c.family, c.netmask, c.scope) == (s.family, s.netmask, s.scope)
    requires At(c, PartAt(sec, i, j), pl) && At(c.address.arr, IpAt(sec, i, j, 0), pl)
    requires IpIn(c.address, pl.Keys) && IpVal(c.address, pl.Keys) == IpVal(s.address, objs)
    ensures OptCopy(Subnet(c), Subnet(s), objs, sec, i, j, pl)
  {
  }

  lemma SlotsAssembled(m: Msg, pl: Places, places: Places)
    requires m !in pl && m.answer.arr !in pl && m.ns.arr !in pl && m.extra.arr !in pl && DistinctSlots(m)
    requires places == pl[m := Top][m.answer.arr := SlotsOf(0)][m.ns.arr := SlotsOf(1)][m.extra.arr := SlotsOf(2)]
    requires m.answer.len <= m.answer.arr.Length && m.ns.len <= m.ns.arr.Length && m.extra.len <= m.extra.arr.Length
    ensures At(m, Top, places) && Extends(places, pl) && m.SlotsPlaced(places) && m.HasSlots(places.Keys)
  {
  }

  ghost predicate DistinctSlots(m: Msg)
    reads m
  {
    m.answer.arr != m.ns.arr && m.answer.arr != m.extra.arr && m.ns.arr != m.extra.arr
  }

  ghost predicate RrsRecognized(rs: seq<RR>, sec: nat, objs: set<object>)
    requires RrsIn(rs, objs)
    reads objs
  {
    forall i: nat | i < |rs| :: Recognized(rs[i], sec, objs)
  }

  ghost predicate MsgRecognized(m: Msg, objs: set<object>)
    requires m.In(objs)
    reads m, objs
  {
    RrsRecognized(Rrs(m.answer), 0, objs) && RrsRecognized(Rrs(m.ns), 1, objs) && RrsRecognized(Rrs(m.extra), 2, objs)
  }

  /** The records that are cloned into pooled objects throughout. */
  ghost predicate Recognized(r: RR, sec: nat, objs: set<object>)
    requires RrIn(r, objs)
    reads objs
  {
    match r
    case A(_) => sec == 0
    case Txt(_) => sec == 0
    case Https(h) => sec == 0 && forall j | 0 <= j < |h.value| :: !h.value[j].UnknownKv?
    case Soa(_) => sec == 1
    case OptRr(o) => sec == 2 && forall j | 0 <= j < |o.options| :: !o.options[j].UnknownOpt?
    case Other(_) => false
  }
}
