/** Rune decoding as the Go standard library does it (unicode/utf8). */
module Utf8 {
  import opened Bytes

  const RUNE_ERROR := 0xFFFD

  /** Length of the encoding that b may start, zero if it can start none. */
  function SizeOf(b: Byte): nat {
    if b < 0x80 then 1
    else if b < 0xC2 then 0
    else if b < 0xE0 then 2
    else if b < 0xF0 then 3
    else if b < 0xF5 then 4
    else 0
  }

  predicate IsContinuation(b: Byte) {
    0x80 <= b < 0xC0
  }

  /** The tighter range of the second byte that excludes overlong forms, surrogates and values above U+10FFFF. */
  predicate SecondOk(first: Byte, second: Byte) {
    && IsContinuation(second)
    && (first == 0xE0 ==> second >= 0xA0)
    && (first == 0xED ==> second < 0xA0)
    && (first == 0xF0 ==> second >= 0x90)
    && (first == 0xF4 ==> second < 0x90)
  }

  predicate WellFormedHead(s: seq<Byte>) {
    && s != []
    && var n := SizeOf(s[0]);
    && 1 <= n <= |s|
    && (n >= 2 ==> SecondOk(s[0], s[1]))
    && forall k :: 2 <= k < n ==> IsContinuation(s[k])
  }

  /** utf8.DecodeRuneInString: the rune and its width. */
  function DecodeRune(s: seq<Byte>): (r: (int, nat))
    requires s != []
    ensures 1 <= r.1 <= |s|
    ensures s[0] < 0x80 ==> r == (s[0], 1)
    ensures s[0] >= 0x80 ==> r.0 >= 0x80 && forall k :: 0 <= k < r.1 ==> s[k] >= 0x80
  {
    if !WellFormedHead(s) then (RUNE_ERROR, 1)
    else
      var b := (k: int) requires 0 <= k < |s| => s[k] as int;
      match SizeOf(s[0])
      case 1 => (s[0], 1)
      case 2 => ((b(0) - 0xC0) * 0x40 + (b(1) - 0x80), 2)
      case 3 => ((b(0) - 0xE0) * 0x1000 + (b(1) - 0x80) * 0x40 + (b(2) - 0x80), 3)
      case _ => ((b(0) - 0xF0) * 0x40000 + (b(1) - 0x80) * 0x1000 + (b(2) - 0x80) * 0x40 + (b(3) - 0x80), 4)
  }

  // ----- the encoding it undoes

  /** The code points that have an encoding: all but the surrogates. */
  predicate IsScalar(r: int) {
    0 <= r < 0xD800 || 0xE000 <= r < 0x11_0000
  }

  /** Section 3 of RFC 3629. */
  function Encode(r: int): (s: seq<Byte>)
    requires IsScalar(r)
    ensures s != []
  {
    if r < 0x80 then [r]
    else if r < 0x800 then [0xC0 + r / 0x40, 0x80 + r % 0x40]
    else if r < 0x1_0000 then [0xE0 + r / 0x1000, 0x80 + r / 0x40 % 0x40, 0x80 + r % 0x40]
    else [0xF0 + r / 0x4_0000, 0x80 + r / 0x1000 % 0x40, 0x80 + r / 0x40 % 0x40, 0x80 + r % 0x40]
  }

  /** A number as groups of six bits. */
  lemma Groups(r: nat)
    ensures r == r / 0x40 * 0x40 + r % 0x40
    ensures r / 0x40 == r / 0x1000 * 0x40 + r / 0x40 % 0x40
    ensures r / 0x1000 == r / 0x4_0000 * 0x40 + r / 0x1000 % 0x40
  {
  }

  lemma GroupsUnique(a: nat, b: nat, c: nat, d: nat)
    requires b < 0x40 && c < 0x40 && d < 0x40
    ensures
      var r := a * 0x4_0000 + b * 0x1000 + c * 0x40 + d;
      r / 0x4_0000 == a && r / 0x1000 % 0x40 == b && r / 0x40 % 0x40 == c && r % 0x40 == d && r / 0x1000 == a * 0x40 + b
  {
    var r := a * 0x4_0000 + b * 0x1000 + c * 0x40 + d;
    var q := a * 0x40 + b;
    Group(q * 0x40 + c, d);
    Group(q, c);
    Group(a, b);
    Groups(r);
    assert r == (q * 0x40 + c) * 0x40 + d;
    assert r / 0x1000 == r / 0x40 / 0x40 && r / 0x4_0000 == r / 0x1000 / 0x40;
  }

  lemma Group(q: nat, d: nat)
    requires d < 0x40
    ensures (q * 0x40 + d) / 0x40 == q && (q * 0x40 + d) % 0x40 == d
  {
  }

  /** The head of an encoding passes every test. */
  lemma EncodedIsWellFormed(r: int, rest: seq<Byte>)
    requires IsScalar(r)
    ensures WellFormedHead(Encode(r) + rest) && SizeOf(Encode(r)[0]) == |Encode(r)|
  {
    var e := Encode(r);
    var s := e + rest;
    Groups(r);
    assert s[0] == e[0] && (|e| > 1 ==> s[1] == e[1]) && (|e| > 2 ==> s[2] == e[2]) && (|e| > 3 ==> s[3] == e[3]);
  }

  /** What is encoded is decoded, whatever follows it. */
  lemma DecodeEncoded(r: int, rest: seq<Byte>)
    requires IsScalar(r)
    ensures DecodeRune(Encode(r) + rest) == (r, |Encode(r)|)
  {
    var e := Encode(r);
    var s := e + rest;
    EncodedIsWellFormed(r, rest);
    Groups(r);
    assert s[0] == e[0] && (|e| > 1 ==> s[1] == e[1]) && (|e| > 2 ==> s[2] == e[2]) && (|e| > 3 ==> s[3] == e[3]);
    hide WellFormedHead;
    hide SizeOf;
  }

  /** What decodes without an error was encoded. */
  lemma DecodedIsEncoded(s: seq<Byte>)
    requires WellFormedHead(s)
    ensures
      var (r, n) := DecodeRune(s);
      IsScalar(r) && s[..n] == Encode(r)
  {
    match SizeOf(s[0])
    case 1 =>
    case 2 => GroupsUnique(0, 0, s[0] - 0xC0, s[1] - 0x80);
    case 3 => GroupsUnique(0, s[0] - 0xE0, s[1] - 0x80, s[2] - 0x80);
    case _ => GroupsUnique(s[0] - 0xF0, s[1] - 0x80, s[2] - 0x80, s[3] - 0x80);
  }

  /** Decoding in one sentence: the rune whose encoding comes first, or an error of width one if none does. */
  lemma DecodeRuneIs(s: seq<Byte>)
    requires s != []
    ensures forall r | IsScalar(r) && Encode(r) <= s :: DecodeRune(s) == (r, |Encode(r)|)
    ensures (forall r | IsScalar(r) :: !(Encode(r) <= s)) ==> DecodeRune(s) == (0xFFFD, 1)
  {
    forall r | IsScalar(r) && Encode(r) <= s ensures DecodeRune(s) == (r, |Encode(r)|) {
      var rest := s[|Encode(r)|..];
      assert s == Encode(r) + rest;
      DecodeEncoded(r, rest);
    }
    if WellFormedHead(s) {
      DecodedIsEncoded(s);
      var (r, n) := DecodeRune(s);
      assert Encode(r) <= s;
    }
  }

  function DecodeAll(s: seq<Byte>): seq<int> {
    if s == [] then []
    else
      var (r, size) := DecodeRune(s);
      [r] + DecodeAll(s[size..])
  }

  /** ASCII text decodes to itself. */
  lemma {:induction false} DecodeAscii(s: seq<Byte>)
    requires forall i :: 0 <= i < |s| ==> s[i] < 0x80
    ensures DecodeAll(s) == s
  {
    if s != [] {
      DecodeAscii(s[1..]);
      assert s == [s[0]] + s[1..];
    }
  }

  /** Decoding neither loses nor invents an ASCII character. */
  lemma {:induction false} DecodeKeepsAscii(s: seq<Byte>, c: Byte)
    requires c < 0x80
    ensures c in s <==> c in DecodeAll(s)
  {
    if s != [] {
      var (r, size) := DecodeRune(s);
      DecodeKeepsAscii(s[size..], c);
      assert s == s[..size] + s[size..];
      assert s[0] in s[..size];
      assert c in s[..size] <==> c == r;
    }
  }
}
