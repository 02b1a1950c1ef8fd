/** IP addresses and prefixes as net/netip models them. */
module NetIp {
  import opened Bytes

  // ----- powers of two and division

  function Pow2(n: nat): (p: nat)
    ensures p > 0
  {
    if n == 0 then 1 else 2 * Pow2(n - 1)
  }

  lemma {:induction false} Pow2Add(m: nat, n: nat)
    ensures Pow2(m + n) == Pow2(m) * Pow2(n)
  {
    if m > 0 {
      Pow2Add(m - 1, n);
      assert Pow2(m + n) == 2 * Pow2(m - 1 + n);
      Doubled(Pow2(m - 1), Pow2(n));
    }
  }

  lemma Doubled(x: nat, y: nat)
    ensures 2 * (x * y) == (2 * x) * y
  {
  }

  lemma Pow2Byte()
    ensures Pow2(8) == 0x100
  {
    Pow2Add(4, 4);
    assert Pow2(4) == 16;
  }

  lemma Pow2Even(n: nat)
    requires n > 0
    ensures Pow2(n) >= 2
  {
  }

  lemma QuotientUnique(x: int, d: int, q: int, r: int)
    requires x == q * d + r && 0 <= r < d
    ensures x / d == q && x % d == r
  {
    var q', r' := x / d, x % d;
    assert x == q' * d + r';
    assert (q - q') * d == r' - r;
    if q > q' {
      MulMono(1, q - q', d);
    } else if q < q' {
      MulMono(1, q' - q, d);
    }
  }

  lemma MulMono(x: int, y: int, d: int)
    requires x <= y && d >= 0
    ensures x * d <= y * d
  {
  }

  lemma DivDiv(x: nat, m: nat, n: nat)
    requires m > 0 && n > 0
    ensures m * n > 0 && x / (m * n) == x / m / n
  {
    var q, r := x / m, x % m;
    var q2, r2 := q / n, q % n;
    assert x == q * m + r && q == q2 * n + r2;
    assert (q2 * n + r2) * m == q2 * (m * n) + r2 * m;
    assert r2 * m <= (n - 1) * m by { MulMono(r2, n - 1, m); }
    assert (n - 1) * m == m * n - m;
    QuotientUnique(x, m * n, q2, r2 * m + r);
  }

  /** Addresses that agree above m low bits agree above any more of them. */
  lemma CoarserDiv(x: nat, y: nat, m: nat, n: nat)
    requires m <= n && x / Pow2(m) == y / Pow2(m)
    ensures x / Pow2(n) == y / Pow2(n)
  {
    Pow2Add(m, n - m);
    DivDiv(x, Pow2(m), Pow2(n - m));
    DivDiv(y, Pow2(m), Pow2(n - m));
  }

  lemma DivMulLe(v: nat, d: nat)
    requires d > 0
    ensures 0 <= v / d * d <= v
  {
    assert v == v / d * d + v % d;
  }

  /** v with its n low bits cleared. */
  function ClearLow(v: nat, n: nat): (r: nat)
    ensures r <= v
  {
    hide Pow2;
    DivMulLe(v, Pow2(n));
    v / Pow2(n) * Pow2(n)
  }

  /** A block of m * c addresses reaches beyond the block of m at its start. */
  lemma FarInBlock(x: nat, m: nat, c: nat, n: nat, d: nat, total: nat)
    requires m > 0 && c >= 2 && d > 0 && d == m * c && total == d * n
    requires x < total && x / d * d == x
    ensures x + m < total
    ensures (x + m) / d == x / d
    ensures (x + m) / m != x / m
  {
    MulMono(2, c, m);
    var q := x / d;
    QuotientUnique(x + m, d, q, m);
    assert x + m == (x / m + 1) * m + x % m;
    QuotientUnique(x + m, m, x / m + 1, x % m);
    if q >= n {
      MulMono(n, q, d);
    }
    MulMono(q + 1, n, d);
    assert (q + 1) * d == q * d + d;
  }

  lemma FarValue(x: nat, k: nat, h: nat, len: nat)
    requires k < h <= len && x < Pow2(len) && ClearLow(x, h) == x
    ensures x + Pow2(k) < Pow2(len)
    ensures (x + Pow2(k)) / Pow2(h) == x / Pow2(h)
    ensures (x + Pow2(k)) / Pow2(k) != x / Pow2(k)
  {
    hide Pow2;
    Pow2Add(k, h - k);
    Pow2Add(h, len - h);
    Pow2Even(h - k);
    FarInBlock(x, Pow2(k), Pow2(h - k), Pow2(len - h), Pow2(h), Pow2(len));
  }

  // ----- addresses

  /** netip.Addr: the zero value, an IPv4 address, or an IPv6 address with its zone. */
  datatype Addr = Zero | V4(v: nat) | V6(v: nat, zone: string)

  function BitLen(a: Addr): nat {
    match a
    case Zero => 0
    case V4(_) => 32
    case V6(_, _) => 128
  }

  predicate InRange(a: Addr) {
    a.Zero? || a.v < Pow2(BitLen(a))
  }

  predicate HasZone(a: Addr) {
    a.V6? && a.zone != ""
  }

  /** Addr.Compare on addresses without a zone, the only ones a prefix holds. */
  function CompareAddr(a: Addr, b: Addr): int {
    if BitLen(a) < BitLen(b) then -1
    else if BitLen(a) > BitLen(b) then 1
    else if a.Zero? || b.Zero? then 0
    else if a.v < b.v then -1
    else if a.v > b.v then 1
    else 0
  }

  // ----- prefixes

  /** netip.Prefix; bits is -1 when the prefix is not valid. */
  datatype RawPrefix = Prefix(ip: Addr, bits: int)

  /** The values netip.PrefixFrom can build: it strips the zone and rejects bad lengths. */
  predicate Representable(p: RawPrefix) {
    && InRange(p.ip) && !HasZone(p.ip)
    && -1 <= p.bits <= BitLen(p.ip)
    && (p.ip.Zero? ==> p.bits == -1)
  }

  type Prefix = p: RawPrefix | Representable(p) witness Prefix(Zero, -1)

  const NO_PREFIX: Prefix := Prefix(Zero, -1)

  predicate IsValid(p: Prefix) {
    p.bits >= 0
  }

  /** The number of host bits. */
  function HostBits(p: Prefix): nat
    requires IsValid(p)
  {
    BitLen(p.ip) - p.bits
  }

  function WithValue(a: Addr, v: nat): Addr
    requires !a.Zero?
  {
    if a.V4? then V4(v) else V6(v, a.zone)
  }

  /** Prefix.Masked: the prefix with its host bits cleared. */
  function Masked(p: Prefix): (m: Prefix)
    ensures IsValid(p) ==> IsValid(m) && m.bits == p.bits && BitLen(m.ip) == BitLen(p.ip)
  {
    hide Pow2;
    if !IsValid(p) then NO_PREFIX
    else Prefix(WithValue(p.ip, ClearLow(p.ip.v, HostBits(p))), p.bits)
  }

  /** Prefix.Contains */
  predicate Contains(p: Prefix, a: Addr) {
    && IsValid(p)
    && !HasZone(a)
    && !a.Zero?
    && BitLen(a) == BitLen(p.ip)
    && a.v / Pow2(HostBits(p)) == p.ip.v / Pow2(HostBits(p))
  }

  /** A prefix holds the addresses of its family from its masked one on, as many as its host bits can number. */
  lemma ContainsIff(p: Prefix, a: Addr)
    requires IsValid(p)
    ensures Contains(p, a) <==>
            && (if p.ip.V4? then a.V4? else a.V6? && a.zone == "")
            && Masked(p).ip.v <= a.v < Masked(p).ip.v + Pow2(HostBits(p))
  {
    hide Pow2;
    if !a.Zero? {
      SameBlockIff(a.v, p.ip.v, Pow2(HostBits(p)));
    }
  }

  lemma SameBlockIff(x: nat, y: nat, d: nat)
    requires d > 0
    ensures x / d == y / d <==> y / d * d <= x < y / d * d + d
  {
    assert x == x / d * d + x % d;
    if y / d * d <= x < y / d * d + d {
      QuotientUnique(x, d, y / d, x - y / d * d);
    }
  }

  predicate IsMasked(p: Prefix) {
    IsValid(p) && Masked(p) == p
  }

  /** Two masked prefixes of one length that share an address are the same. */
  lemma MaskedUnique(p: Prefix, q: Prefix, a: Addr)
    requires IsMasked(p) && IsMasked(q) && p.bits == q.bits
    requires Contains(p, a) && Contains(q, a)
    ensures p == q
  {
    hide Pow2;
    assert HostBits(p) == HostBits(q);
  }

  /** Containing the base address with no more bits is containing every address. */
  lemma ContainsNested(s: Prefix, p: Prefix)
    requires IsMasked(p)
    ensures Contains(s, p.ip) && s.bits <= p.bits <==>
            IsValid(s) && forall a :: InRange(a) && Contains(p, a) ==> Contains(s, a)
  {
    hide Pow2;
    if Contains(s, p.ip) && s.bits <= p.bits {
      forall a | InRange(a) && Contains(p, a) ensures Contains(s, a) {
        CoarserDiv(a.v, p.ip.v, HostBits(p), HostBits(s));
      }
    }
    if IsValid(s) && forall a :: InRange(a) && Contains(p, a) ==> Contains(s, a) {
      assert Contains(p, p.ip);
      if s.bits > p.bits {
        FarAddress(s, p);
      }
    }
  }

  /** A shorter masked prefix reaches beyond any longer one that holds its base address. */
  lemma FarAddress(s: Prefix, p: Prefix)
    requires IsMasked(p) && Contains(s, p.ip) && s.bits > p.bits
    ensures exists a :: InRange(a) && Contains(p, a) && !Contains(s, a)
  {
    hide Pow2;
    var k, h := HostBits(s), HostBits(p);
    FarValue(p.ip.v, k, h, BitLen(p.ip));
    var a := WithValue(p.ip, p.ip.v + Pow2(k));
    assert InRange(a) && Contains(p, a) && !Contains(s, a);
  }

  // ----- wire form

  /** The big-endian bytes of v. */
  function ToBytes(v: nat, n: nat): (s: seq<Byte>)
    ensures |s| == n
  {
    if n == 0 then [] else ToBytes(v / 0x100, n - 1) + [v % 0x100]
  }

  function FromBytes(s: seq<Byte>): nat {
    if s == [] then 0 else FromBytes(s[..|s| - 1]) * 0x100 + s[|s| - 1]
  }

  /** The bytes one by one, high byte first. */
  lemma {:induction false} ToBytesAt(v: nat, n: nat)
    ensures forall k | 0 <= k < n :: ToBytes(v, n)[k] == v / Pow2(8 * (n - 1 - k)) % 0x100
  {
    if n > 0 {
      ToBytesAt(v / 0x100, n - 1);
      var s := ToBytes(v, n);
      forall k | 0 <= k < n ensures s[k] == v / Pow2(8 * (n - 1 - k)) % 0x100 {
        if k == n - 1 {
          assert Pow2(0) == 1;
        } else {
          var e := 8 * (n - 2 - k);
          Pow2Byte();
          Pow2Add(8, e);
          assert 8 + e == 8 * (n - 1 - k);
          DivDiv(v, 0x100, Pow2(e));
          assert s[k] == ToBytes(v / 0x100, n - 1)[k];
        }
      }
    }
  }

  lemma ClearLowIff(v: nat, n: nat)
    ensures ClearLow(v, n) == v <==> v % Pow2(n) == 0
  {
    hide Pow2;
    assert v == v / Pow2(n) * Pow2(n) + v % Pow2(n);
  }

  lemma {:induction false} BytesRoundTrip(v: nat, n: nat)
    requires v < Pow2(8 * n)
    ensures FromBytes(ToBytes(v, n)) == v
  {
    if n > 0 {
      Pow2Add(8, 8 * (n - 1));
      Pow2Byte();
      assert 8 + 8 * (n - 1) == 8 * n;
      assert v / 0x100 < Pow2(8 * (n - 1));
      BytesRoundTrip(v / 0x100, n - 1);
      var s := ToBytes(v, n);
      assert s[..n - 1] == ToBytes(v / 0x100, n - 1);
    } else {
      assert Pow2(0) == 1;
    }
  }

  lemma {:induction false} FromBytesConcat(s: seq<Byte>, t: seq<Byte>)
    ensures FromBytes(s + t) == FromBytes(s) * Pow2(8 * |t|) + FromBytes(t)
  {
    if t == [] {
      assert s + t == s && Pow2(0) == 1;
    } else {
      var n := |t| - 1;
      FromBytesConcat(s, t[..n]);
      assert (s + t)[..|s| + n] == s + t[..n];
      Pow2Byte();
      Pow2Add(8 * n, 8);
      assert 8 * n + 8 == 8 * |t|;
      Regroup(FromBytes(s), Pow2(8 * n));
    }
  }

  lemma Regroup(x: nat, y: nat)
    ensures x * y * 0x100 == x * (y * 0x100)
  {
  }

  lemma {:induction false} FromZeros(n: nat)
    ensures FromBytes(seq(n, _ => 0)) == 0
  {
    if n > 0 {
      var s: seq<Byte> := seq(n, _ => 0);
      assert s[..n - 1] == seq(n - 1, _ => 0);
      FromZeros(n - 1);
    }
  }

  lemma {:induction false} FromBytesBound(s: seq<Byte>)
    ensures FromBytes(s) < Pow2(8 * |s|)
  {
    if s != [] {
      var n := |s|;
      FromBytesBound(s[..n - 1]);
      Pow2Add(8, 8 * (n - 1));
      Pow2Byte();
      assert 8 + 8 * (n - 1) == 8 * n;
    } else {
      assert Pow2(0) == 1;
    }
  }
}
