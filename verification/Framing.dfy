/**
  Length-prefixed DNS messages over TCP (section 4.2.2 of RFC 1035): packing a
  response behind its length in place, writing whole frames under a mutex, and
  reading frames into a reused buffer.
 */
module Framing {
  import opened Wrappers
  import opened Bytes

  const MAX_MSG_SIZE := 65535

  type Message = m: seq<Byte> | |m| <= MAX_MSG_SIZE witness []

  // ----- frames and streams

  function Frame(m: Message): seq<Byte> {
    [|m| / 0x100, |m| % 0x100] + m
  }

  function Stream(ms: seq<Message>): seq<Byte> {
    if ms == [] then [] else Stream(ms[..|ms| - 1]) + Frame(ms[|ms| - 1])
  }

  function Uint16(hi: Byte, lo: Byte): nat {
    hi as int * 0x100 + lo as int
  }

  /** The first complete message of a stream and what follows it. */
  function ReadOne(s: seq<Byte>): Option<(Message, seq<Byte>)> {
    if |s| < 2 then None
    else
      var n := Uint16(s[0], s[1]);
      if |s| < 2 + n then None else Some((s[2..2 + n], s[2 + n..]))
  }

  /** All complete messages of a stream. */
  function ReadAll(s: seq<Byte>): seq<Message>
    decreases |s|
  {
    match ReadOne(s)
    case None => []
    case Some((m, rest)) => [m] + ReadAll(rest)
  }

  /** A proper prefix of a frame; what a reader finds after the last complete message. */
  ghost predicate Incomplete(tail: seq<Byte>) {
    ReadOne(tail) == None
  }

  /** A frame byte by byte: the length, high byte first, and the message. */
  lemma FrameBytes(m: Message)
    ensures
      var f := Frame(m);
      |f| == 2 + |m| && f[0] as int * 256 + f[1] as int == |m| && forall i | 0 <= i < |m| :: f[2 + i] == m[i]
  {
  }

  /** What is read first has the length that the first two bytes say, high byte first, and follows them. */
  lemma ReadBytes(s: seq<Byte>)
    ensures ReadOne(s).Some? <==> |s| >= 2 && |s| >= 2 + s[0] as int * 256 + s[1] as int
    ensures ReadOne(s).Some? ==>
      var (m, rest) := ReadOne(s).value;
      |m| == s[0] as int * 256 + s[1] as int && s == s[..2] + m + rest
  {
  }

  lemma FrameReads(m: Message, rest: seq<Byte>)
    ensures ReadOne(Frame(m) + rest) == Some((m, rest))
  {
    var s := Frame(m) + rest;
    assert s[2..2 + |m|] == m && s[2 + |m|..] == rest;
  }

  /** A frame cut short is incomplete. */
  lemma CutFrame(m: Message, k: nat)
    requires k < |Frame(m)|
    ensures Incomplete(Frame(m)[..k])
  {
  }

  lemma {:induction false} StreamCons(m: Message, ms: seq<Message>)
    ensures Stream([m] + ms) == Frame(m) + Stream(ms)
  {
    hide Frame;
    if ms == [] {
      assert ([m] + ms)[..0] == [];
      assert [] + Frame(m) == Frame(m) == Frame(m) + [];
    } else {
      var n := |ms| - 1;
      StreamCons(m, ms[..n]);
      assert ([m] + ms)[..n + 1] == [m] + ms[..n];
      assert Frame(m) + (Stream(ms[..n]) + Frame(ms[n])) == Frame(m) + Stream(ms[..n]) + Frame(ms[n]);
    }
  }

  /** Reading a stream frame by frame gives back the messages written, in write order. */
  lemma {:induction false} StreamRoundTrip(ms: seq<Message>, tail: seq<Byte>)
    requires Incomplete(tail)
    ensures ReadAll(Stream(ms) + tail) == ms
  {
    if ms == [] {
      assert Stream(ms) + tail == tail;
    } else {
      hide Frame;
      hide Stream;
      assert ms == [ms[0]] + ms[1..];
      StreamCons(ms[0], ms[1..]);
      var rest := Stream(ms[1..]) + tail;
      assert Stream(ms) + tail == Frame(ms[0]) + rest;
      FrameReads(ms[0], rest);
      StreamRoundTrip(ms[1..], tail);
      hide ReadOne;
    }
  }

  // ----- packing in place

  /** A byte slice: its backing array, whose length is the capacity, and its length. */
  datatype Slice = Slice(arr: array<Byte>, len: nat)

  ghost predicate IsSlice(s: Slice) {
    s.len <= s.arr.Length
  }

  ghost function Contents(s: Slice): seq<Byte>
    requires IsSlice(s)
    reads s.arr
  {
    s.arr[..s.len]
  }

  /** slices.Grow: room for n more bytes, in the same array if it already has it. */
  method Grow(s: Slice, n: nat, slack: nat) returns (r: Slice)
    requires IsSlice(s)
    ensures IsSlice(r) && r.len == s.len && r.arr.Length >= s.len + n
    ensures r.arr == s.arr || fresh(r.arr)
    ensures Contents(r) == Contents(s)
  {
    if s.arr.Length >= s.len + n {
      return s;
    }
    var grown := new Byte[s.len + n + slack];
    forall i | 0 <= i < s.len { grown[i] := s.arr[i]; }
    r := Slice(grown, s.len);
  }

  /** copy(a[2:], a[:n]) on overlapping storage. */
  method ShiftByTwo(a: array<Byte>, n: nat)
    requires n + 2 <= a.Length
    modifies a
    ensures a[2..n + 2] == old(a[..n])
  {
    var i := n;
    while i > 0
      invariant 0 <= i <= n
      invariant forall k :: 0 <= k < i ==> a[k] == old(a[k])
      invariant forall k :: i <= k < n ==> a[k + 2] == old(a[k])
    {
      i := i - 1;
      a[i + 2] := a[i];
    }
  }

  /** packWithPrefix, given the slice into which the message has been packed. */
  method PackWithPrefix(buf: Slice, slack: nat) returns (packed: Option<Slice>)
    requires IsSlice(buf)
    modifies buf.arr
    ensures packed.Some? <==> buf.len <= MAX_MSG_SIZE
    ensures packed.Some? ==>
      && IsSlice(packed.value) && (packed.value.arr == buf.arr || fresh(packed.value.arr))
      && Contents(packed.value) == Frame(old(Contents(buf)))
    ensures packed.None? ==> Contents(buf) == old(Contents(buf))
  {
    var l := buf.len;
    if l > MAX_MSG_SIZE {
      return None;
    }
    var grown := Grow(buf, 2, slack);
    ShiftByTwo(grown.arr, l);
    grown.arr[0], grown.arr[1] := l / 0x100, l % 0x100;
    var out := Slice(grown.arr, l + 2);
    assert Contents(out) == Frame(old(Contents(buf)));
    packed := Some(out);
  }

  // ----- reading

  class Conn {
    /** What the peer has sent and the server has not read; it ends when the peer closes. */
    var input: seq<Byte>

    constructor (input: seq<Byte>)
      ensures this.input == input
    {
      this.input := input;
    }

    /** io.ReadFull into the first n bytes of a buffer. */
    method ReadFull(buf: array<Byte>, n: nat) returns (ok: bool)
      requires n <= buf.Length
      modifies this, buf
      ensures ok <==> n <= |old(input)|
      ensures ok ==> input == old(input)[n..] && buf[..n] == old(input)[..n]
    {
      ok := n <= |input|;
      var k := if ok then n else |input|;
      for i := 0 to k
        modifies buf
        invariant buf[..i] == input[..i]
      {
        buf[i] := input[i];
      }
      input := input[k..];
    }

    /** readTCPMsg up to unpacking: one frame through a buffer with stale contents. */
    method ReadMsg(buf: Slice, slack: nat) returns (m: Option<Message>, out: Slice)
      requires IsSlice(buf) && buf.arr.Length >= 2
      modifies this, buf.arr
      ensures IsSlice(out) && out.arr.Length >= 2 && (out.arr == buf.arr || fresh(out.arr))
      ensures match ReadOne(old(input))
              case None => m == None
              case Some((msg, rest)) => m == Some(msg) && input == rest
    {
      out := buf;
      var ok := ReadFull(out.arr, 2);
      if !ok {
        return None, out;
      }
      ghost var s := old(input);
      assert out.arr[0] == out.arr[..2][0] == s[0] && out.arr[1] == out.arr[..2][1] == s[1];
      var length := Uint16(out.arr[0], out.arr[1]);
      assert input == s[2..];
      if out.arr.Length < length {
        out := Grow(out, length - out.len, slack);
      }
      ok := ReadFull(out.arr, length);
      if !ok {
        return None, out;
      }
      assert s[2..][..length] == s[2..2 + length] && s[2..][length..] == s[2 + length..];
      m := Some(out.arr[..length]);
    }

    /** The reads of serveTCPConn, until one fails. */
    method ReadMessages(buf: Slice, slack: nat) returns (ms: seq<Message>)
      requires IsSlice(buf) && buf.arr.Length >= 2
      modifies this, buf.arr
      ensures ms == ReadAll(old(input))
    {
      hide ReadOne;
      ms := [];
      var b := buf;
      var more := true;
      while more
        invariant IsSlice(b) && b.arr.Length >= 2 && (b.arr == buf.arr || fresh(b.arr))
        invariant ms + (if more then ReadAll(input) else []) == ReadAll(old(input))
        decreases more, |input|
      {
        ghost var s := input;
        ReadOneShrinks(s);
        var m, out := ReadMsg(b, slack);
        b := out;
        if m.Some? {
          assert ReadAll(s) == [m.value] + ReadAll(input);
          assert ms + ([m.value] + ReadAll(input)) == ms + [m.value] + ReadAll(input);
          ms := ms + [m.value];
        } else {
          more := false;
          assert ReadAll(s) == [];
        }
      }
    }
  }

  lemma ReadOneShrinks(s: seq<Byte>)
    ensures ReadOne(s).Some? ==> |ReadOne(s).value.1| < |s|
  {
  }

  // ----- pipelined writers

  /** A writer of one response: packed, holding writeMu with k bytes out, or finished. */
  datatype Writer = Packed | Writing(k: nat) | Written

  datatype State = State(writers: seq<Writer>, holder: Option<nat>, order: seq<nat>, stream: seq<Byte>)

  datatype Event = Lock(w: nat) | Send(n: nat) | Unlock

  datatype Run = Start | Then(before: Run, event: Event)

  /** ms[w] is the packed message of writer w. */
  ghost function Next(s: State, e: Event, ms: seq<Message>): State
    requires |s.writers| == |ms|
  {
    match e
    case Lock(w) =>
      if w < |ms| && s.holder == None && s.writers[w] == Packed
      then s.(holder := Some(w), writers := s.writers[w := Writing(0)])
      else s
    case Send(n) =>
      if s.holder.Some? && s.holder.value < |ms| && s.writers[s.holder.value].Writing?
      then
        var w := s.holder.value;
        var k := s.writers[w].k;
        if k + n <= |Frame(ms[w])|
        then s.(stream := s.stream + Frame(ms[w])[k..k + n], writers := s.writers[w := Writing(k + n)])
        else s
      else s
    case Unlock =>
      if s.holder.Some? && s.holder.value < |ms| && s.writers[s.holder.value] == Writing(|Frame(ms[s.holder.value])|)
      then s.(holder := None, writers := s.writers[s.holder.value := Written], order := s.order + [s.holder.value])
      else s
  }

  ghost function After(r: Run, ms: seq<Message>): (s: State)
    ensures |s.writers| == |ms|
  {
    match r
    case Start => State(seq(|ms|, _ => Packed), None, [], [])
    case Then(q, e) => Next(After(q, ms), e, ms)
  }

  ghost predicate InBounds(order: seq<nat>, n: nat) {
    forall i | 0 <= i < |order| :: order[i] < n
  }

  ghost function Select(ms: seq<Message>, order: seq<nat>): seq<Message>
    requires InBounds(order, |ms|)
  {
    seq(|order|, i requires 0 <= i < |order| => ms[order[i]])
  }

  ghost predicate Distinct(order: seq<nat>) {
    forall i, j | 0 <= i < j < |order| :: order[i] != order[j]
  }

  /** The stream holds the finished frames and the beginning of the holder's frame. */
  ghost predicate Inv(s: State, ms: seq<Message>) {
    && |s.writers| == |ms|
    && InBounds(s.order, |ms|) && Distinct(s.order)
    && (forall w: nat | w < |ms| :: s.writers[w] == Written <==> w in s.order)
    && (forall w: nat | w < |ms| :: s.writers[w].Writing? <==> s.holder == Some(w))
    && match s.holder
       case None => s.stream == Stream(Select(ms, s.order))
       case Some(w) =>
         && w < |ms| && s.writers[w].k <= |Frame(ms[w])|
         && s.stream == Stream(Select(ms, s.order)) + Frame(ms[w])[..s.writers[w].k]
  }

  lemma LockKeepsInv(s: State, w: nat, ms: seq<Message>)
    requires Inv(s, ms)
    ensures Inv(Next(s, Lock(w), ms), ms)
  {
    hide Frame;
    hide Stream;
    if w < |ms| && s.holder == None && s.writers[w] == Packed {
      assert Frame(ms[w])[..0] == [];
      assert s.stream + [] == s.stream;
    }
  }

  lemma SendKeepsInv(s: State, n: nat, ms: seq<Message>)
    requires Inv(s, ms)
    ensures Inv(Next(s, Send(n), ms), ms)
  {
    hide Frame;
    hide Stream;
    if s.holder.Some? {
      var w := s.holder.value;
      var f, k := Frame(ms[w]), s.writers[w].k;
      if k + n <= |f| {
        assert f[..k] + f[k..k + n] == f[..k + n];
        assert Stream(Select(ms, s.order)) + f[..k] + f[k..k + n] == Stream(Select(ms, s.order)) + f[..k + n];
      }
    }
  }

  lemma UnlockKeepsInv(s: State, ms: seq<Message>)
    requires Inv(s, ms)
    ensures Inv(Next(s, Unlock, ms), ms)
  {
    hide Frame;
    if s.holder.Some? && s.writers[s.holder.value] == Writing(|Frame(ms[s.holder.value])|) {
      var w := s.holder.value;
      var t := Next(s, Unlock, ms);
      assert Frame(ms[w])[..|Frame(ms[w])|] == Frame(ms[w]);
      assert Select(ms, t.order)[..|s.order|] == Select(ms, s.order);
      assert Select(ms, t.order)[|s.order|] == ms[w];
      hide Stream;
    }
  }

  lemma {:induction false} RunKeepsInv(r: Run, ms: seq<Message>)
    ensures Inv(After(r, ms), ms)
  {
    if r.Then? {
      RunKeepsInv(r.before, ms);
      hide Inv;
      hide Next;
      match r.event
      case Lock(w) => LockKeepsInv(After(r.before, ms), w, ms);
      case Send(n) => SendKeepsInv(After(r.before, ms), n, ms);
      case Unlock => UnlockKeepsInv(After(r.before, ms), ms);
    } else {
      assert Select(ms, []) == [];
    }
  }

  /** The messages that are out in full: those written, and the lock holder's if only the unlocking is left. */
  ghost function SentInFull(s: State, ms: seq<Message>): seq<Message>
    requires |s.writers| == |ms| && InBounds(s.order, |ms|)
  {
    Select(ms, s.order) +
    if s.holder.Some? && s.holder.value < |ms| && s.writers[s.holder.value] == Writing(|Frame(ms[s.holder.value])|)
    then [ms[s.holder.value]] else []
  }

  /** At every moment, however the writers interleave, the peer reads each whole message once, in writing order. */
  lemma PipelinedWritersRoundTrip(r: Run, ms: seq<Message>)
    ensures
      var s := After(r, ms);
      && InBounds(s.order, |ms|) && Distinct(s.order)
      && (s.holder.Some? ==> s.holder.value !in s.order)
      && ReadAll(s.stream) == SentInFull(s, ms)
  {
    RunKeepsInv(r, ms);
    var s := After(r, ms);
    hide After;
    hide ReadAll;
    hide Stream;
    var written := Select(ms, s.order);
    assert Incomplete([]);
    if s.holder == None {
      StreamRoundTrip(written, []);
      assert Stream(written) + [] == s.stream;
    } else {
      var w := s.holder.value;
      if s.writers[w].k < |Frame(ms[w])| {
        CutFrame(ms[w], s.writers[w].k);
        StreamRoundTrip(written, Frame(ms[w])[..s.writers[w].k]);
      } else {
        StreamRoundTrip(written + [ms[w]], []);
        StreamSnoc(written, ms[w]);
        assert s.stream == Stream(written + [ms[w]]) + [];
      }
    }
  }

  /** A writer that gets the lock sends its frame in one piece, whatever was sent before. */
  lemma WriterGoesThrough(r: Run, w: nat, ms: seq<Message>)
    requires w < |ms| && After(r, ms).holder == None && After(r, ms).writers[w] == Packed
    ensures
      var s := After(r, ms);
      After(Then(Then(Then(r, Lock(w)), Send(|Frame(ms[w])|)), Unlock), ms) ==
      State(s.writers[w := Written], None, s.order + [w], s.stream + Frame(ms[w]))
  {
    var s, f := After(r, ms), Frame(ms[w]);
    hide Frame;
    assert f[0..0 + |f|] == f;
    var s1 := Next(s, Lock(w), ms);
    var s2 := Next(s1, Send(|f|), ms);
    assert s2 == State(s.writers[w := Writing(|f|)], Some(w), s.order, s.stream + f);
    assert After(Then(Then(r, Lock(w)), Send(|f|)), ms) == s2;
  }

  /** A frame may go out in any number of pieces. */
  lemma SendSplits(r: Run, n: nat, k: nat, ms: seq<Message>)
    requires
      var s := After(r, ms);
      && s.holder.Some? && s.holder.value < |ms| && s.writers[s.holder.value].Writing?
      && s.writers[s.holder.value].k + n + k <= |Frame(ms[s.holder.value])|
    ensures After(Then(Then(r, Send(n)), Send(k)), ms) == After(Then(r, Send(n + k)), ms)
  {
    var s := After(r, ms);
    var w := s.holder.value;
    var f, p := Frame(ms[w]), s.writers[w].k;
    hide Frame;
    assert f[p..p + n] + f[p + n..p + n + k] == f[p..p + n + k];
    assert s.stream + f[p..p + n] + f[p + n..p + n + k] == s.stream + f[p..p + n + k];
    assert s.writers[w := Writing(p + n)][w := Writing(p + n + k)] == s.writers[w := Writing(p + n + k)];
    assert After(Then(r, Send(n)), ms) == Next(s, Send(n), ms);
  }

  /** The writers can finish in any order, each after the other. */
  lemma {:induction false} AnyOrderIsPossible(order: seq<nat>, ms: seq<Message>) returns (r: Run)
    requires InBounds(order, |ms|) && Distinct(order)
    ensures
      var s := After(r, ms);
      && s.holder == None && s.order == order
      && (forall w: nat | w < |ms| :: s.writers[w] == if w in order then Written else Packed)
      && s.stream == Stream(Select(ms, order))
  {
    if order == [] {
      r := Start;
      assert Select(ms, order) == [];
    } else {
      var n := |order| - 1;
      var q := AnyOrderIsPossible(order[..n], ms);
      var w := order[n];
      assert w !in order[..n];
      hide Stream;
      hide Frame;
      WriterGoesThrough(q, w, ms);
      r := Then(Then(Then(q, Lock(w)), Send(|Frame(ms[w])|)), Unlock);
      hide After;
      assert order == order[..n] + [w];
      assert Select(ms, order) == Select(ms, order[..n]) + [ms[w]];
      StreamSnoc(Select(ms, order[..n]), ms[w]);
    }
  }

  lemma StreamSnoc(ms: seq<Message>, m: Message)
    ensures Stream(ms + [m]) == Stream(ms) + Frame(m)
  {
    assert (ms + [m])[..|ms|] == ms;
  }
}
