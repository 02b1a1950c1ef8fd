/**
  The bytes behind the pooled addresses of internal/dnsmsg/httpscloner.go.  The
  pool holds windows of sixteen bytes into larger buffers; this module says
  exactly when handing in the addresses of a message is safe.
 */
module HintMemory {
  import opened Wrappers
  import opened Bytes

  const WINDOW := 16

  /** All bytes, by buffer and position. */
  type Memory = (nat, nat) -> Byte

  /** A slice of bytes, such as net.IP. */
  datatype Slice = Slice(buf: nat, off: nat, len: nat, cap: nat)

  /** What the pool holds: a pointer to sixteen bytes. */
  datatype Window = Window(buf: nat, off: nat)

  predicate Overlap(u: Window, v: Window) {
    u.buf == v.buf && u.off < v.off + WINDOW && v.off < u.off + WINDOW
  }

  function Read(mem: Memory, w: Window, n: nat): (bs: seq<Byte>)
    ensures |bs| == n
    ensures forall k | 0 <= k < n :: bs[k] == mem(w.buf, w.off + k)
  {
    seq<Byte>(n, k requires 0 <= k < n => mem(w.buf, w.off + k))
  }

  /** append(window[:0], bs...) */
  function Write(mem: Memory, w: Window, bs: seq<Byte>): Memory {
    (buf: nat, pos: nat) => if buf == w.buf && w.off <= pos < w.off + |bs| then bs[pos - w.off] else mem(buf, pos)
  }

  lemma WriteElsewhere(mem: Memory, w: Window, bs: seq<Byte>, u: Window, n: nat)
    requires !Overlap(u, w) && |bs| <= WINDOW && n <= WINDOW
    ensures Read(Write(mem, w, bs), u, n) == Read(mem, u, n)
  {
  }

  lemma WriteHere(mem: Memory, w: Window, bs: seq<Byte>)
    ensures Read(Write(mem, w, bs), w, |bs|) == bs
  {
  }

  // ----- putIPs

  predicate IsPooled(ip: Slice) {
    ip.cap >= WINDOW
  }

  /** The windows that putIPs hands in, in order. */
  function Windows(ips: seq<Slice>): seq<Window> {
    if ips == [] then []
    else
      var n := |ips| - 1;
      Windows(ips[..n]) + if IsPooled(ips[n]) then [Window(ips[n].buf, ips[n].off)] else []
  }

  method PutIps(pool: seq<Window>, ips: seq<Slice>) returns (out: seq<Window>)
    ensures out == pool + Windows(ips)
  {
    out := pool;
    for i := 0 to |ips|
      invariant out == pool + Windows(ips[..i])
    {
      assert ips[..i + 1][..i] == ips[..i];
      if ips[i].cap >= WINDOW {
        out := out + [Window(ips[i].buf, ips[i].off)];
      }
    }
    assert ips[..|ips|] == ips;
  }

  ghost predicate Apart(ws: seq<Window>) {
    forall i, j | 0 <= i < j < |ws| :: !Overlap(ws[i], ws[j])
  }

  /** No two addresses that go back to the pool lie closer than sixteen bytes in one buffer. */
  ghost predicate Spaced(ips: seq<Slice>) {
    forall i, j | 0 <= i < j < |ips| && IsPooled(ips[i]) && IsPooled(ips[j]) && ips[i].buf == ips[j].buf ::
      ips[i].off + WINDOW <= ips[j].off || ips[j].off + WINDOW <= ips[i].off
  }

  lemma {:induction false} WindowOf(ips: seq<Slice>, i: nat) returns (k: nat)
    requires i < |ips| && IsPooled(ips[i])
    ensures k < |Windows(ips)| && Windows(ips)[k] == Window(ips[i].buf, ips[i].off)
  {
    var n := |ips| - 1;
    if i == n {
      k := |Windows(ips[..n])|;
    } else {
      k := WindowOf(ips[..n], i);
    }
  }

  lemma {:induction false} SliceOf(ips: seq<Slice>, k: nat) returns (i: nat)
    requires k < |Windows(ips)|
    ensures i < |ips| && IsPooled(ips[i]) && Windows(ips)[k] == Window(ips[i].buf, ips[i].off)
  {
    var n := |ips| - 1;
    if k < |Windows(ips[..n])| {
      i := SliceOf(ips[..n], k);
    } else {
      i := n;
    }
  }

  /** An address is away from others, said of the addresses and of the windows. */
  ghost predicate AwayFromAll(ips: seq<Slice>, w: Window) {
    forall i | 0 <= i < |ips| && IsPooled(ips[i]) :: !Overlap(Window(ips[i].buf, ips[i].off), w)
  }

  ghost predicate AwayFrom(ws: seq<Window>, w: Window) {
    forall k | 0 <= k < |ws| :: !Overlap(ws[k], w)
  }

  lemma AwayIff(ips: seq<Slice>, w: Window)
    ensures AwayFromAll(ips, w) <==> AwayFrom(Windows(ips), w)
  {
    var ws := Windows(ips);
    if AwayFromAll(ips, w) {
      forall k | 0 <= k < |ws| ensures !Overlap(ws[k], w) {
        var i := SliceOf(ips, k);
      }
    }
    if AwayFrom(ws, w) {
      forall i | 0 <= i < |ips| && IsPooled(ips[i]) ensures !Overlap(Window(ips[i].buf, ips[i].off), w) {
        var k := WindowOf(ips, i);
        assert !Overlap(ws[k], w);
      }
    }
  }

  lemma ApartSnoc(ws: seq<Window>, w: Window)
    ensures Apart(ws + [w]) <==> Apart(ws) && AwayFrom(ws, w)
  {
    var more := ws + [w];
    assert forall k | 0 <= k < |ws| :: more[k] == ws[k];
    if Apart(more) {
      forall k | 0 <= k < |ws| ensures !Overlap(ws[k], w) {
        assert !Overlap(more[k], more[|ws|]);
      }
      forall i, j | 0 <= i < j < |ws| ensures !Overlap(ws[i], ws[j]) {
        assert !Overlap(more[i], more[j]);
      }
    }
  }

  lemma SpacedSnoc(ips: seq<Slice>, ip: Slice)
    ensures Spaced(ips + [ip]) <==> Spaced(ips) && (IsPooled(ip) ==> AwayFromAll(ips, Window(ip.buf, ip.off)))
  {
    var more := ips + [ip];
    assert forall k | 0 <= k < |ips| :: more[k] == ips[k];
    if Spaced(more) {
      forall i, j | 0 <= i < j < |ips| && IsPooled(ips[i]) && IsPooled(ips[j]) && ips[i].buf == ips[j].buf
        ensures ips[i].off + WINDOW <= ips[j].off || ips[j].off + WINDOW <= ips[i].off
      {
        assert more[i] == ips[i] && more[j] == ips[j];
      }
      if IsPooled(ip) {
        forall i | 0 <= i < |ips| && IsPooled(ips[i])
          ensures !Overlap(Window(ips[i].buf, ips[i].off), Window(ip.buf, ip.off))
        {
          assert more[i] == ips[i] && more[|ips|] == ip;
        }
      }
    }
  }

  /** The windows handed in overlap nowhere exactly if the addresses are spaced. */
  lemma {:induction false} ApartIffSpaced(ips: seq<Slice>)
    ensures Apart(Windows(ips)) <==> Spaced(ips)
  {
    if ips != [] {
      var n := |ips| - 1;
      var ws, w := Windows(ips[..n]), Window(ips[n].buf, ips[n].off);
      ApartIffSpaced(ips[..n]);
      assert ips == ips[..n] + [ips[n]];
      SpacedSnoc(ips[..n], ips[n]);
      AwayIff(ips[..n], w);
      ApartSnoc(ws, w);
      assert ws + [] == ws;
      hide Apart;
      hide Spaced;
      hide AwayFromAll;
      hide AwayFrom;
    }
  }

  // ----- runs

  /** A live clone of an address: where it is and what it was cloned from. */
  datatype Clone = Clone(at: Window, val: seq<Byte>)

  datatype State = State(mem: Memory, pool: seq<Window>, live: seq<Option<Clone>>, next: nat)

  /**
    Take clones an address of at most sixteen bytes into a pooled window, or into a
    new buffer if there is no such window; Drop disposes of a clone; PutForeign
    disposes of addresses that the cloner did not make, in buffers of their own.
   */
  datatype Event = Take(i: nat, val: seq<Byte>) | Drop(k: nat) | PutForeign(ips: seq<Slice>, below: nat)

  predicate IsNew(ips: seq<Slice>, next: nat, below: nat) {
    next <= below && forall i | 0 <= i < |ips| :: next <= ips[i].buf < below
  }

  function Without(ws: seq<Window>, i: nat): seq<Window> {
    if i < |ws| then ws[..i] + ws[i + 1..] else ws
  }

  function Next(s: State, e: Event): State {
    match e
    case Take(i, val) =>
      if |val| > WINDOW then s
      else
        var w := if i < |s.pool| then s.pool[i] else Window(s.next, 0);
        State(Write(s.mem, w, val), Without(s.pool, i), s.live + [Some(Clone(w, val))],
              if i < |s.pool| then s.next else s.next + 1)
    case Drop(k) =>
      if k < |s.live| && s.live[k].Some?
      then s.(pool := s.pool + [s.live[k].value.at], live := s.live[k := None])
      else s
    case PutForeign(ips, below) =>
      if IsNew(ips, s.next, below) then s.(pool := s.pool + Windows(ips), next := below) else s
  }

  function After(s: State, es: seq<Event>): State {
    if es == [] then s else Next(After(s, es[..|es| - 1]), es[|es| - 1])
  }

  /** Every live clone still says what it was cloned from. */
  ghost predicate Intact(s: State) {
    forall k | 0 <= k < |s.live| && s.live[k].Some? ::
      Read(s.mem, s.live[k].value.at, |s.live[k].value.val|) == s.live[k].value.val
  }

  /** A clone reads what was cloned and uses up a pooled window if there is one; dropping it gives the window back. */
  lemma StepsDo(s: State, i: nat, val: seq<Byte>, k: nat)
    requires |val| <= WINDOW
    ensures
      var t := Next(s, Take(i, val));
      && |t.live| == |s.live| + 1 && t.live[..|s.live|] == s.live && t.live[|s.live|].Some?
      && var w := t.live[|s.live|].value.at;
         && Read(t.mem, w, |val|) == val
         && (if i < |s.pool| then w == s.pool[i] && t.pool == s.pool[..i] + s.pool[i + 1..]
             else w == Window(s.next, 0) && t.pool == s.pool && t.next > s.next)
    ensures
      var t := Next(s, Drop(k));
      k < |s.live| && s.live[k].Some? ==>
        t.live == s.live[k := None] && t.pool == s.pool + [s.live[k].value.at] && t.mem == s.mem
  {
    var w := if i < |s.pool| then s.pool[i] else Window(s.next, 0);
    WriteHere(s.mem, w, val);
    hide Read;
    hide Write;
  }

  ghost predicate LiveApart(live: seq<Option<Clone>>) {
    forall k, l | 0 <= k < l < |live| && live[k].Some? && live[l].Some? :: !Overlap(live[k].value.at, live[l].value.at)
  }

  ghost predicate PoolApart(live: seq<Option<Clone>>, pool: seq<Window>) {
    forall k, i | 0 <= k < |live| && live[k].Some? && 0 <= i < |pool| :: !Overlap(live[k].value.at, pool[i])
  }

  ghost predicate Bounded(s: State) {
    && (forall i | 0 <= i < |s.pool| :: s.pool[i].buf < s.next)
    && (forall k | 0 <= k < |s.live| && s.live[k].Some? ::
          s.live[k].value.at.buf < s.next && |s.live[k].value.val| <= WINDOW)
  }

  ghost predicate Inv(s: State) {
    Intact(s) && LiveApart(s.live) && Apart(s.pool) && PoolApart(s.live, s.pool) && Bounded(s)
  }

  lemma TakeKeepsInv(s: State, i: nat, val: seq<Byte>)
    requires Inv(s)
    ensures Inv(Next(s, Take(i, val)))
  {
    if |val| <= WINDOW {
      var w := if i < |s.pool| then s.pool[i] else Window(s.next, 0);
      var s' := Next(s, Take(i, val));
      WriteHere(s.mem, w, val);
      forall k | 0 <= k < |s.live| && s.live[k].Some?
        ensures !Overlap(s.live[k].value.at, w)
        ensures Read(s'.mem, s.live[k].value.at, |s.live[k].value.val|) == s.live[k].value.val
      {
        WriteElsewhere(s.mem, w, val, s.live[k].value.at, |s.live[k].value.val|);
      }
      hide Write;
      WithoutKeeps(s.pool, i);
      assert forall j | 0 <= j < |s'.pool| :: !Overlap(w, s'.pool[j]);
    }
  }

  lemma WithoutKeeps(ws: seq<Window>, i: nat)
    requires Apart(ws)
    ensures Apart(Without(ws, i))
    ensures forall w | w in Without(ws, i) :: w in ws && (i < |ws| ==> !Overlap(ws[i], w))
  {
  }

  lemma DropKeepsInv(s: State, k: nat)
    requires Inv(s)
    ensures Inv(Next(s, Drop(k)))
  {
  }

  lemma WindowsAreNew(ips: seq<Slice>, next: nat, below: nat)
    requires IsNew(ips, next, below)
    ensures forall i | 0 <= i < |Windows(ips)| :: next <= Windows(ips)[i].buf < below
  {
    forall k | 0 <= k < |Windows(ips)| ensures next <= Windows(ips)[k].buf < below {
      var i := SliceOf(ips, k);
    }
  }

  lemma PutKeepsInv(s: State, ips: seq<Slice>, below: nat)
    requires Inv(s) && Spaced(ips)
    ensures Inv(Next(s, PutForeign(ips, below)))
  {
    if IsNew(ips, s.next, below) {
      ApartIffSpaced(ips);
      WindowsAreNew(ips, s.next, below);
      hide Windows;
    }
  }

  ghost predicate AllSpaced(es: seq<Event>) {
    forall n | 0 <= n < |es| && es[n].PutForeign? :: Spaced(es[n].ips)
  }

  /** As long as all foreign addresses are spaced, no clone is ever changed by another. */
  lemma {:induction false} SpacedRunsAreSafe(s: State, es: seq<Event>)
    requires Inv(s) && AllSpaced(es)
    ensures Inv(After(s, es))
  {
    if es != [] {
      var n := |es| - 1;
      SpacedRunsAreSafe(s, es[..n]);
      var s' := After(s, es[..n]);
      hide Inv;
      match es[n]
      case Take(i, val) => TakeKeepsInv(s', i, val);
      case Drop(k) => DropKeepsInv(s', k);
      case PutForeign(ips, below) => PutKeepsInv(s', ips, below);
    }
  }

  function Fill(b: Byte): seq<Byte> {
    seq(WINDOW, _ => b)
  }

  /** Two windows of the pool that overlap: the second clone overwrites the first. */
  lemma OverlapBreaks(s: State, i: nat, j: nat)
    requires i < j < |s.pool| && Overlap(s.pool[i], s.pool[j])
    ensures !Intact(After(s, [Take(i, Fill(0)), Take(j - 1, Fill(1))]))
  {
    var es := [Take(i, Fill(0)), Take(j - 1, Fill(1))];
    assert es[..1] == [es[0]] && [es[0]][..0] == [];
    var s1 := Next(s, es[0]);
    assert After(s, [es[0]]) == s1;
    assert s1.pool[j - 1] == s.pool[j];
    var s2 := Next(s1, es[1]);
    assert After(s, es) == s2;
    var u, v, k := s.pool[i], s.pool[j], |s.live|;
    assert s2.live[k] == Some(Clone(u, Fill(0)));
    var d := if u.off < v.off then v.off - u.off else 0;
    assert Read(s2.mem, u, WINDOW)[d] == s2.mem(u.buf, u.off + d) == 1;
    assert Fill(0)[d] == 0;
  }

  /** A disposal is safe, whatever is cloned and disposed of later, if and only if the addresses are spaced. */
  lemma PutIsSafeIff(s: State, ips: seq<Slice>, below: nat)
    requires Inv(s) && IsNew(ips, s.next, below)
    ensures (forall es: seq<Event> | AllSpaced(es) :: Intact(After(Next(s, PutForeign(ips, below)), es))) <==>
            Spaced(ips)
  {
    var s' := Next(s, PutForeign(ips, below));
    if Spaced(ips) {
      PutKeepsInv(s, ips, below);
      forall es: seq<Event> | AllSpaced(es) ensures Intact(After(s', es)) {
        SpacedRunsAreSafe(s', es);
      }
    } else {
      ApartIffSpaced(ips);
      var ws := Windows(ips);
      var i, j :| 0 <= i < j < |ws| && Overlap(ws[i], ws[j]);
      var n := |s.pool|;
      assert s'.pool[n + i] == ws[i] && s'.pool[n + j] == ws[j];
      OverlapBreaks(s', n + i, n + j);
      assert AllSpaced([Take(n + i, Fill(0)), Take(n + j - 1, Fill(1))]);
    }
  }

  // ----- hints of unpacked messages

  /** n addresses of the given size, cut one after another from a buffer of the given capacity. */
  function Cut(buf: nat, n: nat, size: nat, cap: nat): (ips: seq<Slice>)
    requires n * size <= cap
    ensures |ips| == n
    ensures forall i | 0 <= i < n :: i * size <= cap && ips[i] == Slice(buf, i * size, size, cap - i * size)
  {
    seq(n, i requires 0 <= i < n => (MulLe(i, n, size); Slice(buf, i * size, size, cap - i * size)))
  }

  lemma MulLe(i: nat, n: nat, size: nat)
    requires i <= n
    ensures i * size <= n * size
  {
  }

  /**
    Unpacked IPv6 hints are always safe to dispose of; IPv4 ones exactly if there is
    only one or their buffer has fewer than twenty bytes.
   */
  lemma UnpackedIsSpacedIff(buf: nat, n: nat, cap: nat)
    ensures n * 16 <= cap ==> Spaced(Cut(buf, n, 16, cap))
    ensures n * 4 <= cap ==> (Spaced(Cut(buf, n, 4, cap)) <==> n < 2 || cap < 20)
  {
    if n * 4 <= cap && n >= 2 && cap >= 20 {
      var ips := Cut(buf, n, 4, cap);
      assert ips[0] == Slice(buf, 0, 4, cap) && ips[1] == Slice(buf, 4, 4, cap - 4);
      assert !Spaced(ips);
    }
  }

  /**
    Five IPv4 hints of a message that was unpacked and disposed of: cloning an IPv4
    address changes an earlier clone of an IPv6 address.
   */
  lemma FiveHints(mem: Memory)
    ensures
      var s := State(mem, [], [], 0);
      var es := [PutForeign(Cut(0, 5, 4, 20), 1), Take(0, Fill(0)), Take(0, [1, 1, 1, 1])];
      Inv(s) && !Intact(After(s, es))
  {
    var s := State(mem, [], [], 0);
    var ips := Cut(0, 5, 4, 20);
    var es := [PutForeign(ips, 1), Take(0, Fill(0)), Take(0, [1, 1, 1, 1])];
    FiveWindows();
    assert IsNew(ips, 0, 1) && Inv(s);
    AfterThree(s, es[0], es[1], es[2]);
    FillAt(0, 4);
    hide Windows;
    hide Cut;
    hide Fill;
    hide After;
    hide Inv;
    var s1 := Next(s, es[0]);
    assert s1.pool == [Window(0, 0), Window(0, 4)] && s1.live == [];
    var s2 := Next(s1, es[1]);
    assert s2.pool == [Window(0, 4)] && s2.live == [Some(Clone(Window(0, 0), Fill(0)))];
    var s3 := Next(s2, es[2]);
    assert s3.live[0] == s2.live[0] && s3.mem(0, 4) == 1;
    assert Read(s3.mem, Window(0, 0), 16)[4] == 1;
  }

  lemma AfterThree(s: State, a: Event, b: Event, c: Event)
    ensures After(s, [a, b, c]) == Next(Next(Next(s, a), b), c)
  {
    hide Next;
    assert [a, b, c][..2] == [a, b] && [a, b][..1] == [a] && [a][..0] == [];
    assert After(s, [a]) == Next(s, a);
    assert After(s, [a, b]) == Next(Next(s, a), b);
  }

  lemma FillAt(b: Byte, k: nat)
    requires k < WINDOW
    ensures |Fill(b)| == WINDOW && Fill(b)[k] == b
  {
  }

  lemma FiveWindows()
    ensures Windows(Cut(0, 5, 4, 20)) == [Window(0, 0), Window(0, 4)]
  {
    var ips := Cut(0, 5, 4, 20);
    assert ips[..4][..3] == ips[..3] && ips[..3][..2] == ips[..2] && ips[..2][..1] == ips[..1] && ips[..1][..0] == [];
    assert ips[4] == Slice(0, 16, 4, 4) && ips[3] == Slice(0, 12, 4, 8) && ips[2] == Slice(0, 8, 4, 12);
    assert ips[1] == Slice(0, 4, 4, 16) && ips[0] == Slice(0, 0, 4, 20);
    assert Windows(ips[..1]) == [Window(0, 0)];
    assert Windows(ips[..2]) == [Window(0, 0), Window(0, 4)];
    assert Windows(ips[..3]) == Windows(ips[..2]);
    assert Windows(ips[..4]) == Windows(ips[..3]);
  }
}
