/**
  Human-readable device IDs (internal/agd/humanid.go): validation, and the
  streaming normalizer that turns almost any text into a valid ID.
 */
module HumanId {
  import opened Wrappers
  import opened Bytes
  import opened Utf8

  datatype IdError = BadLength | BadLabel | TripleHyphen | CannotNormalize | NotLowercase(index: nat)

  const HYPHEN := 0x2D
  const MIN_HUMAN_ID_LEN := 1
  const MAX_HUMAN_ID_LEN := 63
  const MAX_DOMAIN_NAME_LEN := 253

  // ----- validation

  predicate IsUpper(r: int) {
    0x41 <= r <= 0x5A
  }

  /** netutil.IsValidHostOuterRune */
  predicate IsOuter(r: int) {
    0x30 <= r <= 0x39 || IsUpper(r) || 0x61 <= r <= 0x7A
  }

  predicate IsInner(r: int) {
    IsOuter(r) || r == HYPHEN
  }

  predicate AllInner(s: seq<int>) {
    forall i :: 0 <= i < |s| ==> IsInner(s[i])
  }

  predicate TripleAt(s: seq<int>, i: nat)
    requires i + 2 < |s|
  {
    s[i] == HYPHEN && s[i + 1] == HYPHEN && s[i + 2] == HYPHEN
  }

  predicate NoTriple(s: seq<int>) {
    forall i: nat :: i + 2 < |s| ==> !TripleAt(s, i)
  }

  /** netutil.ValidateHostnameLabel */
  predicate IsHostnameLabel(s: seq<int>) {
    1 <= |s| <= 63 && IsOuter(s[0]) && IsOuter(s[|s| - 1]) && AllInner(s)
  }

  predicate ValidId(s: seq<int>) {
    IsHostnameLabel(s) && NoTriple(s)
  }

  /** newHumanID */
  function NewHumanId(s: seq<Byte>): (r: Result<seq<Byte>, IdError>)
    ensures r.Ok? <==> ValidId(s)
    ensures r.Ok? ==> r.value == s
  {
    if !(MIN_HUMAN_ID_LEN <= |s| <= MAX_HUMAN_ID_LEN) then Err(BadLength)
    else if !IsHostnameLabel(s) then Err(BadLabel)
    else if !NoTriple(s) then Err(TripleHyphen)
    else Ok(s)
  }

  /** NewHumanIDLower */
  method NewHumanIdLower(s: seq<Byte>) returns (r: Result<seq<Byte>, IdError>)
    ensures r.Ok? <==> ValidId(s) && forall i :: 0 <= i < |s| ==> !IsUpper(s[i])
    ensures r.Ok? ==> r.value == s
    ensures ValidId(s) && r.Err? ==>
      && r.error.NotLowercase?
      && r.error.index < |s| && IsUpper(s[r.error.index])
      && forall i :: 0 <= i < r.error.index ==> !IsUpper(s[i])
  {
    r := NewHumanId(s);
    if r.Err? {
      return;
    }
    for i := 0 to |s|
      invariant forall k :: 0 <= k < i ==> !IsUpper(s[k])
    {
      if IsUpper(s[i]) {
        return Err(NotLowercase(i));
      }
    }
  }

  /** HumanIDToLower, on the ASCII that a valid ID consists of. */
  function ToLower(s: seq<Byte>): (t: seq<Byte>)
    ensures |t| == |s|
    ensures forall i :: 0 <= i < |s| ==> t[i] == if IsUpper(s[i]) then s[i] + 0x20 else s[i]
  {
    seq(|s|, i requires 0 <= i < |s| => if IsUpper(s[i]) then s[i] + 0x20 else s[i])
  }

  /** Lowercasing a valid ID always gives a valid lowercase ID, and does nothing the second time. */
  lemma ToLowerIsValid(s: seq<Byte>)
    requires ValidId(s)
    ensures ValidId(ToLower(s))
    ensures forall i :: 0 <= i < |s| ==> !IsUpper(ToLower(s)[i])
    ensures ToLower(ToLower(s)) == ToLower(s)
  {
    var t := ToLower(s);
    forall i: nat | i + 2 < |t| ensures !TripleAt(t, i) {
      assert !TripleAt(s, i);
    }
  }

  // ----- what normalization means

  /** Length of the leading run that holds no letter and no digit. */
  function GapLen(runes: seq<int>): (g: nat)
    ensures g <= |runes|
    ensures forall i :: 0 <= i < g ==> !IsOuter(runes[i])
    ensures g < |runes| ==> IsOuter(runes[g])
  {
    if runes == [] || IsOuter(runes[0]) then 0 else 1 + GapLen(runes[1..])
  }

  predicate Keepable(gap: seq<int>) {
    gap == [] || gap == [HYPHEN] || gap == [HYPHEN, HYPHEN]
  }

  /** A gap of one or two hyphens stays; any other becomes one hyphen. */
  function Join(gap: seq<int>): seq<int> {
    if Keepable(gap) then gap else [HYPHEN]
  }

  lemma KeepableExtend(gap: seq<int>, r: int)
    ensures Keepable(gap + [r]) <==> Keepable(gap) && r == HYPHEN && |gap| < 2
  {
    var g := gap + [r];
    assert g[|gap|] == r;
    if Keepable(g) {
      assert gap == g[..|gap|];
    }
  }

  /** Everything after a letter or digit; a trailing gap is dropped. */
  function Tail(runes: seq<int>): seq<int>
    decreases |runes|
  {
    var g := GapLen(runes);
    if g == |runes| then []
    else Join(runes[..g]) + [runes[g]] + Tail(runes[g + 1..])
  }

  /** The text with its gaps rewritten; a leading gap is dropped. */
  function Canon(runes: seq<int>): seq<int> {
    var g := GapLen(runes);
    if g == |runes| then [] else [runes[g]] + Tail(runes[g + 1..])
  }

  function Cut(s: seq<int>): seq<int> {
    if |s| <= MAX_HUMAN_ID_LEN then s else s[..MAX_HUMAN_ID_LEN]
  }

  function TrimHyphens(s: seq<int>): (t: seq<int>)
    ensures t <= s
    ensures t != [] ==> t[|t| - 1] != HYPHEN
    ensures forall i :: |t| <= i < |s| ==> s[i] == HYPHEN
  {
    if s != [] && s[|s| - 1] == HYPHEN then TrimHyphens(s[..|s| - 1]) else s
  }

  function Normalized(runes: seq<int>): seq<int> {
    TrimHyphens(Cut(Canon(runes)))
  }

  ghost predicate HasOuter(s: seq<int>) {
    exists i :: 0 <= i < |s| && IsOuter(s[i])
  }

  // ----- every normalized text is a valid ID

  predicate WellShaped(s: seq<int>) {
    AllInner(s) && NoTriple(s)
  }

  lemma ShapeAcross(h: seq<int>, o: int, t: seq<int>)
    requires |h| <= 2 && AllInner(h) && IsOuter(o) && WellShaped(t)
    ensures WellShaped(h + [o] + t)
  {
    var s := h + [o] + t;
    forall i: nat | i + 2 < |s| ensures !TripleAt(s, i) {
      if i > |h| {
        assert !TripleAt(t, i - |h| - 1);
      } else {
        assert s[|h|] == o;
      }
    }
  }

  lemma {:induction false} TailStep(runes: seq<int>)
    ensures
      var g := GapLen(runes);
      Tail(runes) == if g == |runes| then [] else Join(runes[..g]) + [runes[g]] + Tail(runes[g + 1..])
  {
  }

  lemma {:induction false} JoinShape(gap: seq<int>)
    ensures |Join(gap)| <= 2 && AllInner(Join(gap))
  {
  }

  lemma {:induction false} TailShape(runes: seq<int>)
    ensures WellShaped(Tail(runes))
    decreases |runes|
  {
    hide *;
    TailStep(runes);
    var g := GapLen(runes);
    if g < |runes| {
      TailShape(runes[g + 1..]);
      JoinShape(runes[..g]);
      ShapeAcross(Join(runes[..g]), runes[g], Tail(runes[g + 1..]));
    } else {
      EmptyShape();
    }
  }

  lemma EmptyShape()
    ensures WellShaped([])
  {
  }

  lemma {:induction false} CanonShape(runes: seq<int>)
    ensures WellShaped(Canon(runes))
    ensures HasOuter(runes) ==> Canon(runes) != [] && IsOuter(Canon(runes)[0])
    ensures !HasOuter(runes) ==> Canon(runes) == []
  {
    hide Tail;
    hide WellShaped;
    hide GapLen;
    hide Join;
    var g := GapLen(runes);
    if g < |runes| {
      var t := Tail(runes[g + 1..]);
      TailShape(runes[g + 1..]);
      ShapeAcross([], runes[g], t);
      assert [] + [runes[g]] + t == [runes[g]] + t;
    } else {
      EmptyShape();
    }
  }

  lemma CutTrimValid(c: seq<int>)
    requires WellShaped(c) && c != [] && IsOuter(c[0])
    ensures ValidId(TrimHyphens(Cut(c)))
  {
    var n := TrimHyphens(Cut(c));
    assert Cut(c)[0] != HYPHEN;
    assert n <= c;
    assert IsInner(c[|n| - 1]);
    forall i: nat | i + 2 < |n| ensures !TripleAt(n, i) {
      assert !TripleAt(c, i);
    }
  }

  /** Normalization gives a valid ID whenever there is a letter or digit, and nothing otherwise. */
  lemma NormalizedIsValid(runes: seq<int>)
    ensures HasOuter(runes) ==> ValidId(Normalized(runes))
    ensures !HasOuter(runes) ==> Normalized(runes) == []
  {
    CanonShape(runes);
    if HasOuter(runes) {
      CutTrimValid(Canon(runes));
    }
  }

  // ----- normalization fixes every valid ID

  /** The gaps of a valid ID are one or two hyphens. */
  lemma ValidGap(s: seq<int>)
    requires WellShaped(s) && s != [] && IsOuter(s[|s| - 1])
    ensures GapLen(s) < |s| && Join(s[..GapLen(s)]) == s[..GapLen(s)]
  {
    hide GapLen;
    var g := GapLen(s);
    forall i: nat | i < g ensures s[i] == HYPHEN {
      assert IsInner(s[i]);
    }
    assert |s| >= 3 ==> !TripleAt(s, 0);
  }

  lemma DropShape(s: seq<int>, k: nat)
    requires WellShaped(s) && k <= |s|
    ensures WellShaped(s[k..])
  {
    forall i: nat | i + 2 < |s| - k ensures !TripleAt(s[k..], i) {
      assert !TripleAt(s, i + k);
    }
  }

  lemma SplitAt(s: seq<int>, g: nat)
    requires g < |s|
    ensures s[..g] + ([s[g]] + s[g + 1..]) == s
    ensures s[..g] + [s[g]] + s[g + 1..] == s
  {
  }

  lemma {:induction false} TailOfValid(s: seq<int>)
    requires WellShaped(s)
    requires s != [] ==> IsOuter(s[|s| - 1])
    ensures Tail(s) == s
    decreases |s|
  {
    if s != [] {
      hide Tail;
      hide WellShaped;
      hide GapLen;
      hide Join;
      var g := GapLen(s);
      var t := s[g + 1..];
      ValidGap(s);
      DropShape(s, g + 1);
      TailOfValid(t);
      TailAt(s[..g], s[g], t);
      SplitAt(s, g);
    }
  }

  lemma {:induction false} NormalizedFixesValid(s: seq<int>)
    requires ValidId(s)
    ensures Normalized(s) == s
  {
    assert GapLen(s) == 0;
    DropShape(s, 1);
    TailOfValid(s[1..]);
    hide WellShaped;
    assert Canon(s) == [s[0]] + s[1..] == s;
  }

  // ----- the state machine

  lemma {:induction false} GapLenOf(gap: seq<int>, rest: seq<int>)
    requires forall i :: 0 <= i < |gap| ==> !IsOuter(gap[i])
    ensures GapLen(gap + rest) == |gap| + GapLen(rest)
  {
    if gap == [] {
      assert gap + rest == rest;
    } else {
      GapLenOf(gap[1..], rest);
      assert (gap + rest)[1..] == gap[1..] + rest;
    }
  }

  /** Trailing hyphens do not show through the final cut and trim. */
  lemma {:induction false} TrimCut(core: seq<int>, h: seq<int>)
    requires forall i :: 0 <= i < |h| ==> h[i] == HYPHEN
    ensures TrimHyphens(Cut(core + h)) == TrimHyphens(Cut(core))
  {
    var long, short := Cut(core + h), Cut(core);
    var t, u := TrimHyphens(long), TrimHyphens(short);
    assert short <= long;
    assert u != [] ==> long[|u| - 1] == u[|u| - 1];
    assert t != [] ==> long[|t| - 1] == t[|t| - 1];
  }

  datatype State = Initial | Invalid | Valid

  class Normalizer {
    var buf: seq<Byte>
    var state: State
    var prevRune: int
    var prevPrevRune: int

    /** What is certain to be kept, and the gap read since its last character. */
    ghost var core: seq<Byte>
    ghost var gap: seq<int>

    ghost predicate Consistent()
      reads this
    {
      && (core == [] ==> gap == [])
      && (core != [] ==> IsOuter(core[|core| - 1]))
      && (forall i :: 0 <= i < |gap| ==> !IsOuter(gap[i]))
      && state == (if core == [] then State.Initial else if Keepable(gap) then State.Valid else State.Invalid)
      && (state.Valid? ==> buf == core + gap)
      && (!state.Valid? ==> buf == core && prevRune != HYPHEN)
      && (state.Valid? ==> (prevRune == HYPHEN <==> gap != []))
      && (state.Valid? && gap != [] ==> (prevPrevRune == HYPHEN <==> |gap| == 2))
    }

    /** A pooled buffer is reset, so its old contents do not matter. */
    constructor (stale: seq<Byte>)
      ensures Consistent() && core == [] && gap == []
    {
      buf := stale[..0];
      state, prevRune, prevPrevRune := State.Initial, 0, 0;
      core, gap := [], [];
    }

    method Write(r: Byte)
      modifies `buf, `prevRune, `prevPrevRune
      ensures buf == old(buf) + [r]
      ensures prevPrevRune == old(prevRune) && prevRune == r
    {
      buf := buf + [r];
      prevPrevRune := prevRune;
      prevRune := r;
    }

    /** bytes.Buffer.Truncate; it panics when asked for more than there is. */
    method Truncate(n: int)
      requires 0 <= n <= |buf|
      modifies `buf
      ensures buf == old(buf)[..n]
    {
      buf := buf[..n];
    }

    /** Feeds one rune; afterwards core and gap have absorbed it. */
    method Next(r: int)
      requires Consistent()
      modifies this
      ensures Consistent()
      ensures old(core) == [] && !IsOuter(r) ==> core == [] && gap == []
      ensures old(core) != [] && !IsOuter(r) ==> core == old(core) && gap == old(gap) + [r]
      ensures IsOuter(r) ==>
        core == (if old(core) == [] then [r] else old(core) + Join(old(gap)) + [r]) && gap == []
    {
      match state
      case Initial => NextInitial(r);
      case Valid => NextValid(r);
      case Invalid => NextInvalid(r);
    }

    method NextInitial(r: int)
      requires Consistent() && state.Initial?
      modifies this
      ensures Consistent() && gap == []
      ensures core == if IsOuter(r) then [r] else []
    {
      if !IsOuter(r) {
        return;
      }
      state := State.Valid;
      Write(r);
      core := [r];
    }

    method NextValid(r: int)
      requires Consistent() && state.Valid?
      modifies this
      ensures Consistent()
      ensures !IsOuter(r) ==> core == old(core) && gap == old(gap) + [r]
      ensures IsOuter(r) ==> core == old(core) + Join(old(gap)) + [r] && gap == []
    {
      if r == HYPHEN {
        NextHyphen();
        return;
      }
      if !IsOuter(r) {
        KeepableExtend(gap, r);
        TruncateHyphens();
        state := State.Invalid;
        gap := gap + [r];
        return;
      }
      Write(r);
      core, gap := buf, [];
    }

    /** The hyphen branch of nextValid: the third hyphen in a row spoils the gap. */
    method NextHyphen()
      requires Consistent() && state.Valid?
      modifies this
      ensures Consistent() && core == old(core) && gap == old(gap) + [HYPHEN]
    {
      KeepableExtend(gap, HYPHEN);
      gap := gap + [HYPHEN];
      if prevPrevRune == HYPHEN && prevRune == HYPHEN {
        Truncate(|buf| - 2);
        prevPrevRune := RUNE_ERROR;
        prevRune := RUNE_ERROR;
        state := State.Invalid;
        return;
      }
      Write(HYPHEN);
    }

    method TruncateHyphens()
      requires Consistent() && state.Valid?
      modifies `buf, `prevRune, `prevPrevRune
      ensures buf == core && prevRune != HYPHEN
    {
      if prevRune != HYPHEN {
        return;
      }
      if prevPrevRune == HYPHEN {
        Truncate(|buf| - 2);
        prevPrevRune := RUNE_ERROR;
      } else {
        Truncate(|buf| - 1);
      }
      prevRune := RUNE_ERROR;
    }

    method NextInvalid(r: int)
      requires Consistent() && state.Invalid?
      modifies this
      ensures Consistent()
      ensures !IsOuter(r) ==> core == old(core) && gap == old(gap) + [r]
      ensures IsOuter(r) ==> core == old(core) + Join(old(gap)) + [r] && gap == []
    {
      if !IsOuter(r) {
        KeepableExtend(gap, r);
        gap := gap + [r];
        return;
      }
      state := State.Valid;
      if prevRune != HYPHEN {
        Write(HYPHEN);
      }
      Write(r);
      core, gap := buf, [];
    }

    /** result: the cut and trimmed buffer depends on the kept text only. */
    method Finish() returns (s: seq<Byte>)
      requires Consistent()
      ensures s == TrimHyphens(Cut(core))
    {
      var b := if |buf| <= MAX_HUMAN_ID_LEN then buf else buf[..MAX_HUMAN_ID_LEN];
      if state.Valid? {
        TrimCut(core, gap);
      }
      s := TrimHyphens(b);
    }
  }

  /** Canon of the whole input, seen from the middle of a run. */
  ghost function Pending(core: seq<int>, gap: seq<int>, rest: seq<int>): seq<int> {
    if core == [] then Canon(rest) else core + Tail(gap + rest)
  }

  /** Tail at a letter or digit that follows a gap. */
  lemma {:induction false} TailAt(gap: seq<int>, r: int, rest: seq<int>)
    requires forall i :: 0 <= i < |gap| ==> !IsOuter(gap[i])
    requires IsOuter(r)
    ensures Tail(gap + ([r] + rest)) == Join(gap) + [r] + Tail(rest)
  {
    var all := gap + ([r] + rest);
    GapLenOf(gap, [r] + rest);
    assert GapLen([r] + rest) == 0;
    assert all[..|gap|] == gap && all[|gap|] == r && all[|gap| + 1..] == rest;
  }

  lemma Shifted(r: int, rest: seq<int>, k: nat)
    requires k < |rest|
    ensures ([r] + rest)[1 + k] == rest[k] && ([r] + rest)[1 + k + 1..] == rest[k + 1..]
  {
  }

  lemma {:induction false} CanonIs(runes: seq<int>)
    ensures
      var g := GapLen(runes);
      Canon(runes) == if g == |runes| then [] else [runes[g]] + Tail(runes[g + 1..])
  {
    hide Tail;
    hide GapLen;
  }

  lemma {:induction false} CanonSkip(r: int, rest: seq<int>)
    requires !IsOuter(r)
    ensures Canon([r] + rest) == Canon(rest)
  {
    hide *;
    GapLenOf([r], rest);
    CanonIs(rest);
    CanonIs([r] + rest);
    if GapLen(rest) < |rest| {
      Shifted(r, rest, GapLen(rest));
    }
  }

  lemma {:induction false} CanonAt(r: int, rest: seq<int>)
    requires IsOuter(r)
    ensures Canon([r] + rest) == [r] + Tail(rest)
  {
    assert GapLen([r] + rest) == 0;
    assert ([r] + rest)[1..] == rest;
  }

  lemma {:induction false} PendingStep(core: seq<int>, gap: seq<int>, r: int, rest: seq<int>)
    requires forall i :: 0 <= i < |gap| ==> !IsOuter(gap[i])
    requires core == [] ==> gap == []
    ensures !IsOuter(r) && core == [] ==> Pending(core, gap, [r] + rest) == Pending([], [], rest)
    ensures !IsOuter(r) && core != [] ==> Pending(core, gap, [r] + rest) == Pending(core, gap + [r], rest)
    ensures IsOuter(r) ==>
      Pending(core, gap, [r] + rest) == Pending(if core == [] then [r] else core + Join(gap) + [r], [], rest)
  {
    hide Tail;
    hide Canon;
    hide Join;
    if !IsOuter(r) {
      CanonSkip(r, rest);
      assert gap + ([r] + rest) == (gap + [r]) + rest;
    } else {
      CanonAt(r, rest);
      TailAt(gap, r, rest);
      assert [] + rest == rest;
      assert core + (Join(gap) + [r] + Tail(rest)) == core + Join(gap) + [r] + Tail(rest);
    }
  }

  lemma {:induction false} PendingEnd(core: seq<int>, gap: seq<int>)
    requires forall i :: 0 <= i < |gap| ==> !IsOuter(gap[i])
    ensures Pending(core, gap, []) == core
  {
    GapLenOf(gap, []);
    assert gap + [] == gap;
  }

  // ----- the normal form by letters and gaps

  /** A text from its letters and digits and what is around them. */
  function Weave(outers: seq<int>, gaps: seq<seq<int>>): seq<int>
    requires |gaps| == |outers| + 1
  {
    var n := |outers|;
    if n == 0 then gaps[0] else Weave(outers[..n - 1], gaps[..n]) + [outers[n - 1]] + gaps[n]
  }

  ghost predicate NoOuter(gap: seq<int>) {
    forall i | 0 <= i < |gap| :: !IsOuter(gap[i])
  }

  /** One or two hyphens between neighbours stay, anything else becomes one. */
  ghost predicate GapRule(gap: seq<int>, h: seq<int>) {
    h == if gap == [] || gap == [HYPHEN] || gap == [HYPHEN, HYPHEN] then gap else [HYPHEN]
  }

  /** The parts of runes and of c: the same letters and digits, the rule in between, and nothing around them in c. */
  ghost predicate Parts(
    runes: seq<int>, c: seq<int>, outers: seq<int>, gaps: seq<seq<int>>, joins: seq<seq<int>>)
  {
    var n := |outers|;
    && |gaps| == |joins| == n + 1 && runes == Weave(outers, gaps) && c == Weave(outers, joins)
    && (forall k | 0 <= k < n :: IsOuter(outers[k])) && (forall k | 0 <= k <= n :: NoOuter(gaps[k]))
    && joins[0] == [] && joins[n] == [] && forall k | 0 < k < n :: GapRule(gaps[k], joins[k])
  }

  ghost predicate Rewritten(runes: seq<int>, c: seq<int>) {
    exists outers: seq<int>, gaps: seq<seq<int>>, joins: seq<seq<int>> :: Parts(runes, c, outers, gaps, joins)
  }

  lemma {:induction false} WeaveLonger(outers: seq<int>, gaps: seq<seq<int>>, more: seq<int>)
    requires |gaps| == |outers| + 1
    ensures Weave(outers, gaps[|outers| := gaps[|outers|] + more]) == Weave(outers, gaps) + more
  {
    var n := |outers|;
    var longer := gaps[n := gaps[n] + more];
    if n > 0 {
      assert longer[..n] == gaps[..n];
      var w := Weave(outers[..n - 1], gaps[..n]) + [outers[n - 1]];
      assert w + (gaps[n] + more) == w + gaps[n] + more;
    }
  }

  lemma {:induction false} WeaveNext(outers: seq<int>, gaps: seq<seq<int>>, r: int)
    requires |gaps| == |outers| + 1
    ensures Weave(outers + [r], gaps + [[]]) == Weave(outers, gaps) + [r]
  {
    var n := |outers|;
    assert (outers + [r])[..n] == outers && (gaps + [[]])[..n + 1] == gaps;
    var w := Weave(outers, gaps) + [r];
    assert w + [] == w;
  }

  lemma {:induction false} PartsSkip(
    runes: seq<int>, c: seq<int>, outers: seq<int>, gaps: seq<seq<int>>, joins: seq<seq<int>>, r: int)
    requires Parts(runes, c, outers, gaps, joins) && !IsOuter(r)
    ensures
      var n := |outers|;
      Parts(runes + [r], c, outers, gaps[n := gaps[n] + [r]], joins)
  {
    WeaveLonger(outers, gaps, [r]);
    hide Weave;
    hide GapRule;
  }

  lemma {:induction false} PartsNext(
    runes: seq<int>, c: seq<int>, outers: seq<int>, gaps: seq<seq<int>>, joins: seq<seq<int>>, h: seq<int>, r: int)
    requires Parts(runes, c, outers, gaps, joins) && IsOuter(r)
    requires if outers == [] then h == [] else GapRule(gaps[|outers|], h)
    ensures
      var n := |outers|;
      Parts(runes + [r], c + h + [r], outers + [r], gaps + [[]], joins[n := h] + [[]])
  {
    var n := |outers|;
    WeaveNext(outers, gaps, r);
    WeaveLonger(outers, joins, h);
    assert joins[n] + h == h;
    WeaveNext(outers, joins[n := h], r);
    hide Weave;
    hide GapRule;
  }

  /** What has been read: its letters, digits and gaps, and the gap since the last of them. */
  ghost predicate Reads(
    seen: seq<int>, core: seq<int>, gap: seq<int>, outers: seq<int>, gaps: seq<seq<int>>, joins: seq<seq<int>>)
  {
    && Parts(seen, core, outers, gaps, joins) && (core == [] <==> outers == [])
    && NoOuter(gap) && gap == if core == [] then [] else gaps[|outers|]
  }

  lemma {:induction false} ReadsSkip(
    seen: seq<int>, core: seq<int>, gap: seq<int>, outers: seq<int>, gaps: seq<seq<int>>, joins: seq<seq<int>>, r: int)
    requires Reads(seen, core, gap, outers, gaps, joins) && !IsOuter(r)
    ensures |gaps| == |outers| + 1
    ensures
      var n := |outers|;
      Reads(seen + [r], core, if core == [] then [] else gap + [r], outers, gaps[n := gaps[n] + [r]], joins)
  {
    PartsSkip(seen, core, outers, gaps, joins, r);
    hide Weave;
  }

  lemma {:induction false} ReadsNext(
    seen: seq<int>, core: seq<int>, gap: seq<int>, outers: seq<int>, gaps: seq<seq<int>>, joins: seq<seq<int>>, r: int)
    requires Reads(seen, core, gap, outers, gaps, joins) && IsOuter(r)
    ensures |joins| == |outers| + 1
    ensures
      var n, h := |outers|, if core == [] then [] else Join(gap);
      Reads(seen + [r], core + h + [r], [], outers + [r], gaps + [[]], joins[n := h] + [[]])
  {
    JoinRuled(gap);
    hide Join;
    hide Weave;
    hide GapRule;
    PartsNext(seen, core, outers, gaps, joins, if core == [] then [] else Join(gap), r);
    hide Parts;
  }

  lemma {:induction false} ReadsEnd(
    seen: seq<int>, core: seq<int>, gap: seq<int>, outers: seq<int>, gaps: seq<seq<int>>, joins: seq<seq<int>>)
    requires Reads(seen, core, gap, outers, gaps, joins)
    ensures Rewritten(seen, Pending(core, gap, []))
  {
    hide Parts;
    PendingEnd(core, gap);
    hide Pending;
  }

  lemma Split(seen: seq<int>, rest: seq<int>)
    requires rest != []
    ensures rest == [rest[0]] + rest[1..] && seen + rest == seen + [rest[0]] + rest[1..]
  {
  }

  lemma StartsWith(core: seq<int>, r: int)
    ensures core == [] ==> core + [] + [r] == [r]
  {
  }

  lemma {:induction false} ReadsGap(
    seen: seq<int>, core: seq<int>, gap: seq<int>, outers: seq<int>, gaps: seq<seq<int>>, joins: seq<seq<int>>)
    requires Reads(seen, core, gap, outers, gaps, joins)
    ensures (forall i | 0 <= i < |gap| :: !IsOuter(gap[i])) && (core == [] ==> gap == [])
  {
    hide Parts;
  }

  /** The rest of the input extends what has been rewritten so far. */
  lemma {:induction false} RestIsRewritten(
    seen: seq<int>, core: seq<int>, gap: seq<int>, rest: seq<int>, outers: seq<int>, gaps: seq<seq<int>>,
    joins: seq<seq<int>>)
    requires Reads(seen, core, gap, outers, gaps, joins)
    ensures Rewritten(seen + rest, Pending(core, gap, rest))
    decreases |rest|
  {
    hide *;
    if rest == [] {
      ReadsEnd(seen, core, gap, outers, gaps, joins);
      assert seen + rest == seen;
    } else {
      var n, r, more := |outers|, rest[0], rest[1..];
      Split(seen, rest);
      ReadsGap(seen, core, gap, outers, gaps, joins);
      PendingStep(core, gap, r, more);
      StartsWith(core, r);
      if IsOuter(r) {
        var h := if core == [] then [] else Join(gap);
        ReadsNext(seen, core, gap, outers, gaps, joins, r);
        RestIsRewritten(seen + [r], core + h + [r], [], more, outers + [r], gaps + [[]], joins[n := h] + [[]]);
      } else {
        ReadsSkip(seen, core, gap, outers, gaps, joins, r);
        RestIsRewritten(
          seen + [r], core, if core == [] then [] else gap + [r], more, outers, gaps[n := gaps[n] + [r]], joins);
      }
    }
  }

  lemma JoinRuled(gap: seq<int>)
    ensures GapRule(gap, Join(gap))
  {
  }

  /** Before the cut, the text is the input rewritten by the rule. */
  lemma {:induction false} CanonIsRewritten(runes: seq<int>)
    ensures Rewritten(runes, Canon(runes))
  {
    assert Reads([], [], [], [], [[]], [[]]);
    RestIsRewritten([], [], [], runes, [], [[]], [[]]);
    PendingStart(runes);
    assert [] + runes == runes;
  }

  lemma {:induction false} SameLastOuter(v: seq<int>, x: int, t: seq<int>, w: seq<int>, y: int, u: seq<int>)
    requires v + [x] + t == w + [y] + u && IsOuter(x) && IsOuter(y) && NoOuter(t) && NoOuter(u)
    ensures v == w && x == y && t == u
  {
    var s := v + [x] + t;
    assert s[|v|] == x && s[|w|] == y;
    assert forall i | |v| < i < |s| :: s[i] == t[i - |v| - 1];
    assert forall i | |w| < i < |s| :: s[i] == (w + [y] + u)[i] == u[i - |w| - 1];
    assert |v| == |w|;
    assert v == s[..|v|] && w == s[..|w|] && t == s[|v| + 1..] && u == s[|w| + 1..];
  }

  /** A text has its letters, digits and gaps in one way only. */
  lemma {:induction false} WeaveUnique(
    outers: seq<int>, gaps: seq<seq<int>>, outers': seq<int>, gaps': seq<seq<int>>)
    requires |gaps| == |outers| + 1 && |gaps'| == |outers'| + 1 && Weave(outers, gaps) == Weave(outers', gaps')
    requires forall k | 0 <= k < |outers| :: IsOuter(outers[k])
    requires forall k | 0 <= k < |outers'| :: IsOuter(outers'[k])
    requires (forall k | 0 <= k < |gaps| :: NoOuter(gaps[k])) && (forall k | 0 <= k < |gaps'| :: NoOuter(gaps'[k]))
    ensures outers == outers' && gaps == gaps'
    decreases |outers|
  {
    var n, m := |outers|, |outers'|;
    hide NoOuter;
    if n > 0 && m > 0 {
      SameLastOuter(Weave(outers[..n - 1], gaps[..n]), outers[n - 1], gaps[n],
                    Weave(outers'[..m - 1], gaps'[..m]), outers'[m - 1], gaps'[m]);
      hide Weave;
      WeaveUnique(outers[..n - 1], gaps[..n], outers'[..m - 1], gaps'[..m]);
      assert outers == outers[..n - 1] + [outers[n - 1]] && outers' == outers'[..m - 1] + [outers'[m - 1]];
      assert gaps == gaps[..n] + [gaps[n]] && gaps' == gaps'[..m] + [gaps'[m]];
    } else {
      WeaveHasOuter(outers, gaps);
      WeaveHasOuter(outers', gaps');
      hide Weave;
      if n == 0 && m == 0 {
        assert gaps == [gaps[0]] && gaps' == [gaps'[0]];
      }
    }
  }

  lemma {:induction false} WeaveHasOuter(outers: seq<int>, gaps: seq<seq<int>>)
    requires |gaps| == |outers| + 1 && NoOuter(gaps[0]) && forall k | 0 <= k < |outers| :: IsOuter(outers[k])
    ensures NoOuter(Weave(outers, gaps)) <==> outers == []
    ensures outers == [] ==> Weave(outers, gaps) == gaps[0]
  {
    var n := |outers|;
    if n > 0 {
      assert Weave(outers, gaps)[|Weave(outers[..n - 1], gaps[..n])|] == outers[n - 1];
    }
  }

  /** The rule leaves no choice. */
  lemma {:induction false} RewrittenUnique(runes: seq<int>, c: seq<int>, d: seq<int>)
    requires Rewritten(runes, c) && Rewritten(runes, d)
    ensures c == d
  {
    hide Weave;
    hide NoOuter;
    var outers: seq<int>, gaps: seq<seq<int>>, joins: seq<seq<int>> :| Parts(runes, c, outers, gaps, joins);
    var outers': seq<int>, gaps': seq<seq<int>>, joins': seq<seq<int>> :| Parts(runes, d, outers', gaps', joins');
    WeaveUnique(outers, gaps, outers', gaps');
    assert joins == joins';
  }

  /** Cut to the greatest length, and without the hyphens that then come last. */
  ghost predicate TrimmedTo(c: seq<int>, out: seq<int>) {
    && out <= c && |out| <= 63 && (out != [] ==> out[|out| - 1] != HYPHEN)
    && forall i | |out| <= i < |c| && i < 63 :: c[i] == HYPHEN
  }

  /** What normalization is for: the input rewritten by the rule, then cut and trimmed. */
  ghost predicate NormalForm(runes: seq<int>, out: seq<int>) {
    exists c: seq<int> :: Rewritten(runes, c) && TrimmedTo(c, out)
  }

  lemma {:induction false} NormalizedIsNormalForm(runes: seq<int>)
    ensures NormalForm(runes, Normalized(runes))
  {
    CanonIsRewritten(runes);
    var c := Canon(runes);
    hide Canon;
    hide Rewritten;
    assert TrimmedTo(c, Normalized(runes));
  }

  lemma {:induction false} ShortStays(c: seq<int>)
    requires 0 < |c| <= 63 && IsOuter(c[|c| - 1])
    ensures TrimHyphens(Cut(c)) == c
  {
    var t := TrimHyphens(c);
    hide TrimHyphens;
    assert |t| == |c|;
  }

  lemma TailOfNothing()
    ensures Tail([]) == []
  {
  }

  lemma Regrouped(a: int, g: seq<int>, b: int)
    ensures [a] + g + [b] == [a] + (g + [b]) && g + ([b] + []) == g + [b] && g + [b] + [] == g + [b]
  {
  }

  lemma {:induction false} CanonOfTwo(a: int, gap: seq<int>, b: int)
    requires IsOuter(a) && IsOuter(b) && forall i | 0 <= i < |gap| :: !IsOuter(gap[i])
    ensures Canon([a] + gap + [b]) == [a] + Join(gap) + [b]
  {
    hide *;
    CanonAt(a, gap + [b]);
    TailAt(gap, b, []);
    TailOfNothing();
    Regrouped(a, gap, b);
    Regrouped(a, Join(gap), b);
  }

  /** Two letters or digits with anything else between them. */
  lemma {:induction false} TwoNeighbours(a: int, gap: seq<int>, b: int)
    requires IsOuter(a) && IsOuter(b) && forall i | 0 <= i < |gap| :: !IsOuter(gap[i])
    ensures
      Normalized([a] + gap + [b]) ==
      if gap == [] || gap == [HYPHEN] || gap == [HYPHEN, HYPHEN] then [a] + gap + [b] else [a, HYPHEN, b]
  {
    var c := [a] + Join(gap) + [b];
    CanonOfTwo(a, gap, b);
    JoinRuled(gap);
    JoinShape(gap);
    ShortStays(c);
    hide Canon;
    hide TrimHyphens;
    hide Cut;
    hide Join;
    hide IsOuter;
  }

  /** The loop of ParseNormalized around the normalizer. */
  method Normalize(s: seq<Byte>, stale: seq<Byte>) returns (out: seq<Byte>)
    ensures out == Normalized(DecodeAll(s)) && NormalForm(DecodeAll(s), out)
  {
    hide NormalForm;
    NormalizedIsNormalForm(DecodeAll(s));
    hide Pending;
    hide Join;
    hide Canon;
    var n := new Normalizer(stale);
    assert Pending(n.core, n.gap, DecodeAll(s)) == Canon(DecodeAll(s)) by {
      PendingStart(DecodeAll(s));
    }
    var rest := s;
    while rest != []
      invariant n.Consistent()
      invariant Pending(n.core, n.gap, DecodeAll(rest)) == Canon(DecodeAll(s))
      decreases |rest|
    {
      var (r, size) := DecodeRune(rest);
      PendingStep(n.core, n.gap, r, DecodeAll(rest[size..]));
      rest := rest[size..];
      n.Next(r);
    }
    PendingEnd(n.core, n.gap);
    out := n.Finish();
  }

  lemma {:induction false} PendingStart(runes: seq<int>)
    ensures Pending([], [], runes) == Canon(runes)
  {
  }

  lemma HasOuterDecoded(s: seq<Byte>)
    ensures HasOuter(s) <==> HasOuter(DecodeAll(s))
  {
    var d := DecodeAll(s);
    if HasOuter(s) {
      var i :| 0 <= i < |s| && IsOuter(s[i]);
      DecodeKeepsAscii(s, s[i]);
      assert s[i] in d;
    }
    if HasOuter(d) {
      var i :| 0 <= i < |d| && IsOuter(d[i]);
      DecodeKeepsAscii(s, d[i]);
      assert d[i] in s;
    }
  }

  lemma ValidDecoded(s: seq<Byte>)
    requires ValidId(s)
    ensures DecodeAll(s) == s && HasOuter(s)
  {
    forall i | 0 <= i < |s| ensures s[i] < 0x80 {
      assert IsInner(s[i]);
    }
    DecodeAscii(s);
  }

  /** ParseNormalized: its two late rejections never happen. */
  method ParseNormalized(s: seq<Byte>, stale: seq<Byte>) returns (r: Result<seq<Byte>, IdError>)
    ensures r.Ok? <==> 1 <= |s| <= MAX_DOMAIN_NAME_LEN && HasOuter(s)
    ensures r.Ok? ==> NormalForm(DecodeAll(s), r.value) && ValidId(r.value)
    ensures r.Err? ==> r.error == if 1 <= |s| <= MAX_DOMAIN_NAME_LEN then CannotNormalize else BadLength
    ensures ValidId(s) ==> r == Ok(s)
  {
    r := NewHumanId(s);
    NormalizedIsNormalForm(DecodeAll(s));
    hide NormalForm;
    if r.Ok? {
      NormalizedFixesValid(s);
      ValidDecoded(s);
      return;
    }
    if !(MIN_HUMAN_ID_LEN <= |s| <= MAX_DOMAIN_NAME_LEN) {
      return Err(BadLength);
    }
    var n := Normalize(s, stale);
    NormalizedIsValid(DecodeAll(s));
    HasOuterDecoded(s);
    if n == [] || n == [HYPHEN] {
      return Err(CannotNormalize);
    }
    r := NewHumanId(n);
  }
}
