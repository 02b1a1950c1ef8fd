/**
  The subnet index and the manager of internal/bindtodevice: channels are kept
  in a slice ordered by subnet, and an incoming address goes to the first channel
  whose subnet contains it.
 */
module BindToDevice {
  import opened Wrappers
  import opened NetIp

  datatype Error =
    | AlreadyRegistered | NoListener | NotMasked | NoInterface | NotInside | IdTaken | InterfaceTaken

  // ----- the order of subnets

  /** subnetCompare: the narrowest subnet sorts first. */
  function SubnetCompare(a: Prefix, b: Prefix): int {
    if a.bits > b.bits then -1
    else if a.bits < b.bits then 1
    else CompareAddr(a.ip, b.ip)
  }

  predicate Before(a: Prefix, b: Prefix) {
    SubnetCompare(a, b) < 0
  }

  lemma BeforeIsStrictTotal(a: Prefix, b: Prefix, c: Prefix)
    ensures SubnetCompare(a, b) == 0 <==> a == b
    ensures a == b || Before(a, b) || Before(b, a)
    ensures !(Before(a, b) && Before(b, a))
    ensures Before(a, b) && Before(b, c) ==> Before(a, c)
  {
    hide Pow2;
  }

  /** The order spelt out: more bits first, then IPv4 before IPv6, then the lower address. */
  lemma BeforeIff(a: Prefix, b: Prefix)
    requires IsValid(a) && IsValid(b)
    ensures Before(a, b) <==>
            || a.bits > b.bits
            || (a.bits == b.bits && a.ip.V4? && b.ip.V6?)
            || (a.bits == b.bits && a.ip.V4? == b.ip.V4? && a.ip.v < b.ip.v)
  {
    hide Pow2;
  }

  ghost predicate StrictlySorted(s: seq<Prefix>) {
    forall i, j :: 0 <= i < j < |s| ==> Before(s[i], s[j])
  }

  /** The registrations so far, as a sorted list without duplicates. */
  function Insert(s: seq<Prefix>, p: Prefix): seq<Prefix> {
    if s == [] then [p]
    else if Before(s[0], p) then [s[0]] + Insert(s[1..], p)
    else if s[0] == p then s
    else [p] + s
  }

  lemma {:induction false} InsertElements(s: seq<Prefix>, p: Prefix, q: Prefix)
    ensures q in Insert(s, p) <==> q in s || q == p
  {
    hide Pow2;
    if s != [] {
      assert s == [s[0]] + s[1..];
      if Before(s[0], p) {
        InsertElements(s[1..], p, q);
      }
    }
  }

  lemma {:induction false} InsertSorted(s: seq<Prefix>, p: Prefix)
    requires StrictlySorted(s)
    ensures StrictlySorted(Insert(s, p))
  {
    hide SubnetCompare;
    if s != [] && Before(s[0], p) {
      InsertSorted(s[1..], p);
      var t := Insert(s[1..], p);
      forall q | q in t ensures Before(s[0], q) {
        InsertElements(s[1..], p, q);
      }
    } else if s != [] && s[0] != p {
      var t := [p] + s;
      forall j | 0 < j < |t| ensures Before(t[0], t[j]) {
        BeforeIsStrictTotal(p, s[0], s[j - 1]);
        BeforeIsStrictTotal(s[0], p, p);
      }
    }
  }

  /** Inserting at the place a search finds is inserting in order. */
  lemma {:induction false} InsertAt(s: seq<Prefix>, p: Prefix, i: nat)
    requires i <= |s| && p !in s
    requires forall k :: 0 <= k < i ==> Before(s[k], p)
    requires forall k :: i <= k < |s| ==> !Before(s[k], p)
    ensures Insert(s, p) == s[..i] + [p] + s[i..]
  {
    hide Before;
    if i > 0 {
      InsertAt(s[1..], p, i - 1);
      assert s[1..][..i - 1] == s[1..i] && s[1..][i - 1..] == s[i..];
      assert s[..i] + [p] + s[i..] == [s[0]] + (s[1..i] + [p] + s[i..]);
    }
  }

  /** A strictly sorted index is determined by its set of subnets. */
  lemma {:induction false} SortedUnique(s: seq<Prefix>, t: seq<Prefix>)
    requires StrictlySorted(s) && StrictlySorted(t)
    requires forall q: Prefix :: q in s <==> q in t
    ensures s == t
  {
    hide Before;
    assert t != [] ==> t[0] in t;
    assert s != [] ==> s[0] in s;
    if s == [] {
      return;
    }
    BeforeIsStrictTotal(s[0], t[0], t[0]);
    assert s[0] == t[0];
    forall q: Prefix ensures q in s[1..] <==> q in t[1..] {
      BeforeIsStrictTotal(q, q, q);
      assert q in s <==> q == s[0] || q in s[1..];
      assert q in t <==> q == t[0] || q in t[1..];
    }
    SortedUnique(s[1..], t[1..]);
    assert s == [s[0]] + s[1..] && t == [t[0]] + t[1..];
  }

  // ----- lookup

  /** The loop shared by packetConn and listener. */
  function FirstMatch(s: seq<Prefix>, a: Addr): (i: nat)
    ensures i <= |s|
    ensures i < |s| ==> Contains(s[i], a)
    ensures forall k :: 0 <= k < i ==> !Contains(s[k], a)
  {
    if s == [] || Contains(s[0], a) then 0 else 1 + FirstMatch(s[1..], a)
  }

  /** What the first match in s is, if any. */
  function Lookup(s: seq<Prefix>, a: Addr): Option<Prefix> {
    var i := FirstMatch(s, a);
    if i < |s| then Some(s[i]) else None
  }

  /** r is the longest prefix among ps that contains a; masked prefixes make it unique. */
  ghost predicate IsLongestMatch(ps: seq<Prefix>, a: Addr, r: Option<Prefix>) {
    match r
    case None => forall q | q in ps :: !Contains(q, a)
    case Some(p) =>
      && p in ps && Contains(p, a)
      && forall q | q in ps && Contains(q, a) :: q == p || q.bits < p.bits
  }

  lemma FirstIsLongest(s: seq<Prefix>, a: Addr)
    requires StrictlySorted(s)
    requires forall p | p in s :: IsMasked(p)
    ensures IsLongestMatch(s, a, Lookup(s, a))
  {
    hide Contains;
    hide IsMasked;
    var i := FirstMatch(s, a);
    forall q | q in s && Contains(q, a) && i < |s| ensures q == s[i] || q.bits < s[i].bits {
      var k :| 0 <= k < |s| && s[k] == q;
      if i < k {
        assert Before(s[i], s[k]);
        if q.bits == s[i].bits {
          MaskedUnique(q, s[i], a);
        }
      }
    }
  }

  /** The index after registering ps one after another, duplicates being refused. */
  ghost function Registered(ps: seq<Prefix>): seq<Prefix> {
    if ps == [] then [] else Insert(Registered(ps[..|ps| - 1]), ps[|ps| - 1])
  }

  lemma {:induction false} RegisteredIsSorted(ps: seq<Prefix>)
    ensures StrictlySorted(Registered(ps))
    ensures forall q: Prefix :: q in Registered(ps) <==> q in ps
  {
    hide Insert;
    if ps != [] {
      var n := |ps| - 1;
      RegisteredIsSorted(ps[..n]);
      InsertSorted(Registered(ps[..n]), ps[n]);
      forall q: Prefix ensures q in Registered(ps) <==> q in ps {
        InsertElements(Registered(ps[..n]), ps[n], q);
        assert ps == ps[..n] + [ps[n]];
      }
    }
  }

  /** After any registrations of masked subnets, lookup is longest-prefix match. */
  lemma LookupIsLongestMatch(ps: seq<Prefix>, a: Addr)
    requires forall p | p in ps :: IsMasked(p)
    ensures IsLongestMatch(ps, a, Lookup(Registered(ps), a))
  {
    hide IsMasked;
    hide Contains;
    hide Registered;
    RegisteredIsSorted(ps);
    FirstIsLongest(Registered(ps), a);
  }

  /** The order of registration does not matter. */
  lemma RegistrationOrderIrrelevant(ps: seq<Prefix>, qs: seq<Prefix>)
    requires forall q: Prefix :: q in ps <==> q in qs
    ensures Registered(ps) == Registered(qs)
  {
    hide Registered;
    RegisteredIsSorted(ps);
    RegisteredIsSorted(qs);
    SortedUnique(Registered(ps), Registered(qs));
  }

  // ----- the index

  /** A channel listener or a channel packet connection. */
  class Chan {
    const subnet: Prefix

    constructor (subnet: Prefix)
      ensures this.subnet == subnet
    {
      this.subnet := subnet;
    }
  }

  function Subnets(cs: seq<Chan>): (s: seq<Prefix>)
    ensures |s| == |cs|
    ensures forall i :: 0 <= i < |cs| ==> s[i] == cs[i].subnet
  {
    seq(|cs|, i requires 0 <= i < |cs| => cs[i].subnet)
  }

  /** slices.BinarySearchFunc with subnetCompare. */
  method BinarySearch(cs: seq<Chan>, target: Prefix) returns (i: nat, found: bool)
    requires StrictlySorted(Subnets(cs))
    ensures i <= |cs|
    ensures forall k :: 0 <= k < i ==> Before(cs[k].subnet, target)
    ensures forall k :: i <= k < |cs| ==> !Before(cs[k].subnet, target)
    ensures found <==> target in Subnets(cs)
  {
    hide SubnetCompare;
    var s := Subnets(cs);
    i := 0;
    var j := |cs|;
    while i < j
      invariant 0 <= i <= j <= |cs|
      invariant forall k :: 0 <= k < i ==> Before(s[k], target)
      invariant forall k :: j <= k < |cs| ==> !Before(s[k], target)
    {
      var h := (i + j) / 2;
      if SubnetCompare(cs[h].subnet, target) < 0 {
        forall k | 0 <= k < h ensures Before(s[k], target) {
          BeforeIsStrictTotal(s[k], s[h], target);
        }
        i := h + 1;
      } else {
        forall k | h <= k < |cs| ensures !Before(s[k], target) {
          BeforeIsStrictTotal(s[h], s[k], target);
        }
        j := h;
      }
    }
    found := i < |cs| && SubnetCompare(cs[i].subnet, target) == 0;
    if i < |cs| {
      BeforeIsStrictTotal(s[i], target, target);
    }
    if target in s {
      var k :| 0 <= k < |s| && s[k] == target;
      BeforeIsStrictTotal(s[k], target, target);
      BeforeIsStrictTotal(s[i], target, s[k]);
    }
  }

  method InsertChan(cs: seq<Chan>, c: Chan) returns (r: Result<seq<Chan>, Error>)
    requires StrictlySorted(Subnets(cs))
    ensures r.Ok? <==> c.subnet !in Subnets(cs)
    ensures r.Ok? ==> Subnets(r.value) == Insert(Subnets(cs), c.subnet)
    ensures r.Ok? ==> exists i: nat | i <= |cs| :: r.value == cs[..i] + [c] + cs[i..]
    ensures r.Err? ==> r.error == AlreadyRegistered
  {
    hide SubnetCompare;
    var i, found := BinarySearch(cs, c.subnet);
    if found {
      return Err(AlreadyRegistered);
    }
    var out := cs[..i] + [c] + cs[i..];
    InsertAt(Subnets(cs), c.subnet, i);
    assert Subnets(out) == Subnets(cs)[..i] + [c.subnet] + Subnets(cs)[i..];
    r := Ok(out);
  }

  /** The loop of the two lookups: the channel of the first subnet holding laddr. */
  method FindChan(cs: seq<Chan>, laddr: Addr) returns (c: Chan?)
    ensures c == null <==> Lookup(Subnets(cs), laddr) == None
    ensures c != null ==> c in cs && Lookup(Subnets(cs), laddr) == Some(c.subnet)
  {
    var s := Subnets(cs);
    for i := 0 to |cs|
      invariant forall k :: 0 <= k < i ==> !Contains(s[k], laddr)
    {
      if Contains(cs[i].subnet, laddr) {
        return cs[i];
      }
    }
    return null;
  }

  class ConnIndex {
    var packetConns: seq<Chan>
    var listeners: seq<Chan>

    ghost predicate Valid()
      reads this
    {
      StrictlySorted(Subnets(packetConns)) && StrictlySorted(Subnets(listeners))
    }

    constructor ()
      ensures Valid() && packetConns == [] && listeners == []
    {
      packetConns, listeners := [], [];
    }

    method AddPacketConn(c: Chan) returns (r: Result<(), Error>)
      requires Valid()
      modifies `packetConns
      ensures Valid()
      ensures r.Ok? <==> c.subnet !in Subnets(old(packetConns))
      ensures Subnets(packetConns) ==
              if r.Ok? then Insert(Subnets(old(packetConns)), c.subnet) else Subnets(old(packetConns))
      ensures r.Ok? ==> exists i: nat | i <= |old(packetConns)| ::
                packetConns == old(packetConns)[..i] + [c] + old(packetConns)[i..]
      ensures r.Err? ==> r.error == AlreadyRegistered && packetConns == old(packetConns)
    {
      hide Insert;
      var added := InsertChan(packetConns, c);
      if added.Err? {
        return Err(added.error);
      }
      InsertSorted(Subnets(packetConns), c.subnet);
      packetConns := added.value;
      r := Ok(());
    }

    method AddListener(l: Chan) returns (r: Result<(), Error>)
      requires Valid()
      modifies `listeners
      ensures Valid()
      ensures r.Ok? <==> l.subnet !in Subnets(old(listeners))
      ensures Subnets(listeners) ==
              if r.Ok? then Insert(Subnets(old(listeners)), l.subnet) else Subnets(old(listeners))
      ensures r.Ok? ==> exists i: nat | i <= |old(listeners)| ::
                listeners == old(listeners)[..i] + [l] + old(listeners)[i..]
      ensures r.Err? ==> r.error == AlreadyRegistered && listeners == old(listeners)
    {
      hide Insert;
      var added := InsertChan(listeners, l);
      if added.Err? {
        return Err(added.error);
      }
      InsertSorted(Subnets(listeners), l.subnet);
      listeners := added.value;
      r := Ok(());
    }

    /** TCP and UDP serve the same masked subnets, in the same order. */
    ghost predicate Sound()
      reads this
    {
      && Valid()
      && Subnets(packetConns) == Subnets(listeners)
      && forall p | p in Subnets(listeners) :: IsMasked(p)
    }

    /** The two registrations of ListenConfig; the second one never fails. */
    method AddBoth(subnet: Prefix) returns (r: Result<(Chan, Chan), Error>)
      requires Sound() && IsMasked(subnet)
      modifies this
      ensures Sound()
      ensures r.Ok? <==> subnet !in old(Subnets(listeners))
      ensures Subnets(listeners) ==
              if r.Ok? then Insert(old(Subnets(listeners)), subnet) else old(Subnets(listeners))
      ensures r.Ok? ==>
        && r.value.0 in packetConns && r.value.0.subnet == subnet
        && r.value.1 in listeners && r.value.1.subnet == subnet
      ensures r.Err? ==> r.error == AlreadyRegistered
    {
      hide Insert;
      hide IsMasked;
      hide SubnetCompare;
      ghost var before := Subnets(listeners);
      var lsnr := new Chan(subnet);
      var added := AddListener(lsnr);
      if added.Err? {
        return Err(added.error);
      }
      var pConn := new Chan(subnet);
      added := AddPacketConn(pConn);
      assert added.Ok?;
      forall q | q in Insert(before, subnet) ensures IsMasked(q) {
        InsertElements(before, subnet, q);
      }
      r := Ok((pConn, lsnr));
    }

    method PacketConn(laddr: Addr) returns (c: Chan?)
      requires Valid() && forall p | p in Subnets(packetConns) :: IsMasked(p)
      ensures IsLongestMatch(Subnets(packetConns), laddr, if c == null then None else Some(c.subnet))
      ensures c != null ==> c in packetConns
    {
      c := FindChan(packetConns, laddr);
      FirstIsLongest(Subnets(packetConns), laddr);
    }

    method Listener(laddr: Addr) returns (l: Chan?)
      requires Valid() && forall p | p in Subnets(listeners) :: IsMasked(p)
      ensures IsLongestMatch(Subnets(listeners), laddr, if l == null then None else Some(l.subnet))
      ensures l != null ==> l in listeners
    {
      l := FindChan(listeners, laddr);
      FirstIsLongest(Subnets(listeners), laddr);
    }
  }

  // ----- the manager

  /** validateIfaceSubnet, given what looking up the interface and its subnets yields. */
  function ValidateIfaceSubnet(iface: Result<seq<Prefix>, Error>, subnet: Prefix): (r: Result<(), Error>)
    ensures r.Ok? ==> IsMasked(subnet)
    ensures r.Ok? <==>
            && iface.Ok? && IsMasked(subnet)
            && exists s | s in iface.value :: Contains(s, subnet.ip) && s.bits <= subnet.bits
  {
    hide Pow2;
    if subnet != Masked(subnet) then Err(NotMasked)
    else if iface.Err? then Err(iface.error)
    else if exists s | s in iface.value :: Contains(s, subnet.ip) && s.bits <= subnet.bits then Ok(())
    else Err(NotInside)
  }

  /** A subnet passes exactly when one of the interface's subnets holds every address of it. */
  lemma ValidatedIsInside(subnets: seq<Prefix>, subnet: Prefix)
    ensures ValidateIfaceSubnet(Ok(subnets), subnet).Ok? <==>
            && IsMasked(subnet)
            && exists s | s in subnets :: IsValid(s) && forall a :: InRange(a) && Contains(subnet, a) ==> Contains(s, a)
  {
    hide Contains;
    hide Pow2;
    if IsMasked(subnet) {
      forall s | s in subnets
        ensures Contains(s, subnet.ip) && s.bits <= subnet.bits <==>
                IsValid(s) && forall a :: InRange(a) && Contains(subnet, a) ==> Contains(s, a)
      {
        ContainsNested(s, subnet);
      }
    }
  }

  class InterfaceListener {
    const ifaceName: string
    const port: nat
    const conns: ConnIndex

    constructor (ifaceName: string, port: nat)
      ensures this.ifaceName == ifaceName && this.port == port
      ensures fresh(conns) && conns.Sound() && conns.listeners == [] && conns.packetConns == []
    {
      this.ifaceName, this.port := ifaceName, port;
      conns := new ConnIndex();
    }
  }

  class Manager {
    var ifaceListeners: map<string, InterfaceListener>

    ghost function Indexes(): set<ConnIndex>
      reads this
    {
      set id | id in ifaceListeners :: ifaceListeners[id].conns
    }

    /** The subnets registered with a listener; TCP and UDP agree on them. */
    ghost function Subnetting(id: string): seq<Prefix>
      requires id in ifaceListeners
      reads this, ifaceListeners[id].conns
    {
      Subnets(ifaceListeners[id].conns.listeners)
    }

    ghost predicate Valid()
      reads this, Indexes()
    {
      && (forall id | id in ifaceListeners :: ifaceListeners[id].conns.Sound())
      && (forall i, j | i in ifaceListeners && j in ifaceListeners && i != j ::
            && ifaceListeners[i].conns != ifaceListeners[j].conns
            && !(ifaceListeners[i].ifaceName == ifaceListeners[j].ifaceName
                 && ifaceListeners[i].port == ifaceListeners[j].port))
    }

    constructor ()
      ensures Valid() && ifaceListeners == map[]
    {
      ifaceListeners := map[];
    }

    /** Add; known tells whether the interface exists. */
    method Add(id: string, ifaceName: string, port: nat, known: bool) returns (r: Result<(), Error>)
      requires Valid()
      modifies this
      ensures Valid()
      ensures r.Ok? <==>
        && known
        && id !in old(ifaceListeners)
        && forall i | i in old(ifaceListeners) ::
             !(old(ifaceListeners)[i].ifaceName == ifaceName && old(ifaceListeners)[i].port == port)
      ensures r.Err? ==> ifaceListeners == old(ifaceListeners)
      ensures r.Ok? ==>
        && id in ifaceListeners && fresh(ifaceListeners[id].conns)
        && ifaceListeners == old(ifaceListeners)[id := ifaceListeners[id]]
        && ifaceListeners[id].ifaceName == ifaceName && ifaceListeners[id].port == port
        && Subnetting(id) == []
    {
      if !known {
        return Err(NoInterface);
      }
      if id in ifaceListeners {
        return Err(IdTaken);
      }
      if exists i | i in ifaceListeners :: ifaceListeners[i].ifaceName == ifaceName && ifaceListeners[i].port == port {
        return Err(InterfaceTaken);
      }
      var l := new InterfaceListener(ifaceName, port);
      ifaceListeners := ifaceListeners[id := l];
      r := Ok(());
    }

    /** ListenConfig; iface is what looking up the listener's interface yields. */
    method ListenConfig(id: string, subnet: Prefix, iface: Result<seq<Prefix>,
      Error>) returns (r: Result<(Chan, Chan), Error>)
      requires Valid()
      modifies Indexes()
      ensures Valid()
      ensures r.Ok? <==>
        id in ifaceListeners && ValidateIfaceSubnet(iface, subnet).Ok? && subnet !in old(Subnetting(id))
      ensures r.Ok? ==>
        && Subnetting(id) == Insert(old(Subnetting(id)), subnet)
        && r.value.0 in ifaceListeners[id].conns.packetConns && r.value.0.subnet == subnet
        && r.value.1 in ifaceListeners[id].conns.listeners && r.value.1.subnet == subnet
      ensures r.Err? ==> (
        r.error == if id !in ifaceListeners then NoListener
                   else if ValidateIfaceSubnet(iface, subnet).Err? then ValidateIfaceSubnet(iface, subnet).error
                   else AlreadyRegistered)
      ensures forall i | i in ifaceListeners && (r.Err? || i != id) :: Subnetting(i) == old(Subnetting(i))
    {
      hide Insert;
      hide IsMasked;
      hide SubnetCompare;
      if id !in ifaceListeners {
        return Err(NoListener);
      }
      var l := ifaceListeners[id];
      var v := ValidateIfaceSubnet(iface, subnet);
      if v.Err? {
        return Err(v.error);
      }
      var both := l.conns.AddBoth(subnet);
      if both.Err? {
        return Err(both.error);
      }
      r := Ok(both.value);
    }
  }
}
