/**
  The Damerau-Levenshtein calculator of internal/agdalg: three rolling rows taken
  from a pool of dirty slices, and a handful of shortcuts.

  Three levels are related here.  `Script` is what a distance means: the cheapest
  left-to-right list of edits turning one string into the other.  `Osa` is the
  two-dimensional optimal-string-alignment recurrence.  `Calculator.Distance` is
  the code.
 */
module Levenshtein {
  import opened Wrappers

  // ----- edit scripts

  datatype Edit = Keep | Delete | Insert(c: char) | Substitute(c: char) | Swap

  type Script = seq<Edit>

  /** How many characters of the input an edit consumes. */
  function Takes(e: Edit): nat {
    match e
    case Insert(_) => 0
    case Swap => 2
    case _ => 1
  }

  /** What an edit writes in place of the characters it consumes. */
  function Emit(e: Edit, chunk: string): string
    requires |chunk| == Takes(e)
  {
    match e
    case Keep => chunk
    case Delete => ""
    case Insert(c) => [c]
    case Substitute(c) => [c]
    case Swap => [chunk[1], chunk[0]]
  }

  function Price(e: Edit): nat {
    if e.Keep? then 0 else 1
  }

  function Cost(s: Script): nat {
    if s == [] then 0 else Price(s[0]) + Cost(s[1..])
  }

  /** Runs a script from left to right; it must consume the whole of x. */
  function Apply(s: Script, x: string): Option<string> {
    if s == [] then
      if x == "" then Some("") else None
    else if |x| < Takes(s[0]) then
      None
    else
      match Apply(s[1..], x[Takes(s[0])..])
      case None => None
      case Some(rest) => Some(Emit(s[0], x[..Takes(s[0])]) + rest)
  }

  ghost predicate Turns(s: Script, x: string, y: string) {
    Apply(s, x) == Some(y)
  }

  lemma {:induction false} CostConcat(s: Script, t: Script)
    ensures Cost(s + t) == Cost(s) + Cost(t)
  {
    if s == [] {
      assert s + t == t;
    } else {
      CostConcat(s[1..], t);
      assert (s + t)[1..] == s[1..] + t;
    }
  }

  lemma TurnsFirst(s: Script, x: string, y: string) returns (rest: string)
    requires s != [] && Turns(s, x, y)
    ensures Takes(s[0]) <= |x| && Turns(s[1..], x[Takes(s[0])..], rest)
    ensures y == Emit(s[0], x[..Takes(s[0])]) + rest
  {
    rest := Apply(s[1..], x[Takes(s[0])..]).value;
  }

  lemma TurnsCons(s: Script, x: string, rest: string)
    requires s != [] && Takes(s[0]) <= |x| && Turns(s[1..], x[Takes(s[0])..], rest)
    ensures Turns(s, x, Emit(s[0], x[..Takes(s[0])]) + rest)
  {
  }

  lemma SplitConcat<T>(x: seq<T>, u: seq<T>, k: nat)
    requires k <= |x|
    ensures (x + u)[k..] == x[k..] + u && (x + u)[..k] == x[..k]
  {
  }

  lemma ConcatAssociates(x: string, y: string, z: string)
    ensures x + (y + z) == (x + y) + z
  {
  }

  lemma {:induction false} TurnsConcat(s: Script, t: Script, x: string, y: string, u: string, v: string)
    requires Turns(s, x, y) && Turns(t, u, v)
    ensures Turns(s + t, x + u, y + v)
  {
    if s == [] {
      assert s + t == t && x + u == u && y + v == v;
    } else {
      hide *;
      var k := Takes(s[0]);
      var rest := TurnsFirst(s, x, y);
      TurnsConcat(s[1..], t, x[k..], rest, u, v);
      SplitConcat(s, t, 1);
      SplitConcat(x, u, k);
      TurnsCons(s + t, x + u, rest + v);
      ConcatAssociates(Emit(s[0], x[..k]), rest, v);
    }
  }

  lemma TurnsOne(e: Edit, x: string, y: string)
    requires Turns([e], x, y)
    ensures |x| == Takes(e) && y == Emit(e, x) && Turns([], x[..0], y[..0])
  {
    hide Takes;
    hide Emit;
    var rest := TurnsFirst([e], x, y);
    assert [e][1..] == [];
    assert x[Takes(e)..] == "" && rest == "";
    assert x[..Takes(e)] == x && Emit(e, x) + "" == Emit(e, x);
  }

  /** The last edit of a script consumes a suffix of x and writes a suffix of y. */
  lemma {:induction false} TurnsLast(s: Script, e: Edit, x: string, y: string) returns (p: nat, q: nat)
    requires Turns(s + [e], x, y)
    ensures p <= |x| && q <= |y| && |x| - p == Takes(e)
    ensures Turns(s, x[..p], y[..q]) && y[q..] == Emit(e, x[p..])
  {
    hide *;
    if s == [] {
      assert s + [e] == [e] && x[0..] == x && y[0..] == y;
      TurnsOne(e, x, y);
      p, q := 0, 0;
    } else {
      var k := Takes(s[0]);
      var rest := TurnsFirst(s + [e], x, y);
      SplitConcat(s, [e], 1);
      var p', q' := TurnsLast(s[1..], e, x[k..], rest);
      var out := Emit(s[0], x[..k]);
      p, q := p' + k, q' + |out|;
      SliceShift(x, k, p');
      ConcatSlices(out, rest, q');
      TurnsCons(s, x[..p], rest[..q']);
    }
  }

  lemma SliceShift(x: string, k: nat, p: nat)
    requires k + p <= |x|
    ensures x[..p + k][k..] == x[k..][..p] && x[..p + k][..k] == x[..k] && x[p + k..] == x[k..][p..]
  {
  }

  lemma ConcatSlices(out: string, rest: string, q: nat)
    requires q <= |rest|
    ensures (out + rest)[..q + |out|] == out + rest[..q] && (out + rest)[q + |out|..] == rest[q..]
  {
  }

  // ----- the recurrence

  function Min(x: nat, y: nat): nat {
    if x <= y then x else y
  }

  /** hasTransposition */
  predicate HasTransposition(a: string, b: string, i: nat, j: nat)
    requires i < |a| && j < |b|
  {
    i > 0 && j > 0 && a[i] == b[j - 1] && a[i - 1] == b[j]
  }

  function Differ(a: string, b: string, i: nat, j: nat): nat
    requires i < |a| && j < |b|
  {
    if a[i] != b[j] then 1 else 0
  }

  /** Optimal string alignment distance between the prefixes a[..i] and b[..j]. */
  function Osa(a: string, b: string, i: nat, j: nat): nat
    requires i <= |a| && j <= |b|
    decreases i + j
  {
    if i == 0 then j
    else if j == 0 then i
    else
      var best := Min(Min(Osa(a, b, i - 1, j) + 1, Osa(a, b, i, j - 1) + 1),
                      Osa(a, b, i - 1, j - 1) + Differ(a, b, i - 1, j - 1));
      if HasTransposition(a, b, i - 1, j - 1) then Min(best, Osa(a, b, i - 2, j - 2) + 1) else best
  }

  /** The recurrence at an inner cell, one level deep. */
  lemma OsaCell(a: string, b: string, i: nat, j: nat)
    requires 0 < i <= |a| && 0 < j <= |b|
    ensures Osa(a, b, i, j) <= Osa(a, b, i - 1, j) + 1
    ensures Osa(a, b, i, j) <= Osa(a, b, i, j - 1) + 1
    ensures Osa(a, b, i, j) <= Osa(a, b, i - 1, j - 1) + Differ(a, b, i - 1, j - 1)
    ensures HasTransposition(a, b, i - 1, j - 1) ==> Osa(a, b, i, j) <= Osa(a, b, i - 2, j - 2) + 1
    ensures
      || Osa(a, b, i, j) == Osa(a, b, i - 1, j) + 1
      || Osa(a, b, i, j) == Osa(a, b, i, j - 1) + 1
      || Osa(a, b, i, j) == Osa(a, b, i - 1, j - 1) + Differ(a, b, i - 1, j - 1)
      || (HasTransposition(a, b, i - 1, j - 1) && Osa(a, b, i, j) == Osa(a, b, i - 2, j - 2) + 1)
  {
  }

  lemma OsaEdge(a: string, b: string, i: nat, j: nat)
    requires i <= |a| && j <= |b| && (i == 0 || j == 0)
    ensures Osa(a, b, i, j) == i + j
  {
  }

  /** No script beats the recurrence. */
  lemma {:induction false} NoCheaperScript(s: Script, a: string, b: string, i: nat, j: nat)
    requires i <= |a| && j <= |b|
    requires Turns(s, a[..i], b[..j])
    ensures Osa(a, b, i, j) <= Cost(s)
    decreases |s|
  {
    hide Osa;
    if s == [] {
      OsaEdge(a, b, i, j);
    } else {
      var n := |s| - 1;
      var e := s[n];
      assert s == s[..n] + [e];
      var p, q := TurnsLast(s[..n], e, a[..i], b[..j]);
      assert a[..i][..p] == a[..p] && b[..j][..q] == b[..q];
      NoCheaperScript(s[..n], a, b, p, q);
      CostConcat(s[..n], [e]);
      assert Cost([e]) == Price(e);
      LastEdit(e, a, b, i, j, p, q);
    }
  }

  /** One more edit costs the recurrence at most the price of that edit. */
  lemma LastEdit(e: Edit, a: string, b: string, i: nat, j: nat, p: nat, q: nat)
    requires p <= i <= |a| && q <= j <= |b| && i - p == Takes(e)
    requires b[..j][q..] == Emit(e, a[..i][p..])
    ensures Osa(a, b, i, j) <= Osa(a, b, p, q) + Price(e)
  {
    hide Osa;
    assert |b[..j][q..]| == j - q;
    if i == 0 || j == 0 {
      OsaEdge(a, b, i, j);
      OsaEdge(a, b, p, q);
      return;
    }
    OsaCell(a, b, i, j);
    match e
    case Delete =>
    case Insert(c) =>
    case Keep => assert a[..i][p..][0] == a[p] && b[..j][q..][0] == b[q];
    case Substitute(c) =>
    case Swap =>
      assert a[..i][p..][0] == a[p] && a[..i][p..][1] == a[p + 1];
      assert b[..j][q..][0] == b[q] && b[..j][q..][1] == b[q + 1];
      assert HasTransposition(a, b, i - 1, j - 1);
  }

  /** The branch for transpositions is never taken. */
  predicate NoTransposition(a: string, b: string) {
    forall i, j | 0 <= i < |a| && 0 <= j < |b| :: !HasTransposition(a, b, i, j)
  }

  predicate SwapFree(s: Script) {
    forall k | 0 <= k < |s| :: !s[k].Swap?
  }

  /** The recurrence is the price of some last edit and what is left to do before it. */
  lemma CheapestEdit(a: string, b: string, i: nat, j: nat) returns (e: Edit, p: nat, q: nat)
    requires i <= |a| && j <= |b| && i + j > 0
    ensures p <= i && q <= j && p + q < i + j && i - p == Takes(e) && b[q..j] == Emit(e, a[p..i])
    ensures Osa(a, b, i, j) == Osa(a, b, p, q) + Price(e)
    ensures e.Swap? ==> 0 < i && 0 < j && HasTransposition(a, b, i - 1, j - 1)
  {
    hide Osa;
    if j == 0 {
      OsaEdge(a, b, i, j);
      OsaEdge(a, b, i - 1, j);
      return Delete, i - 1, j;
    }
    if i == 0 {
      OsaEdge(a, b, i, j);
      OsaEdge(a, b, i, j - 1);
      return Insert(b[j - 1]), i, j - 1;
    }
    OsaCell(a, b, i, j);
    if Osa(a, b, i, j) == Osa(a, b, i - 1, j) + 1 {
      return Delete, i - 1, j;
    } else if Osa(a, b, i, j) == Osa(a, b, i, j - 1) + 1 {
      return Insert(b[j - 1]), i, j - 1;
    } else if Osa(a, b, i, j) == Osa(a, b, i - 1, j - 1) + Differ(a, b, i - 1, j - 1) {
      e := if a[i - 1] == b[j - 1] then Keep else Substitute(b[j - 1]);
      return e, i - 1, j - 1;
    } else {
      return Swap, i - 2, j - 2;
    }
  }

  /** Some script is as cheap as the recurrence. */
  lemma {:induction false} CheapestScript(a: string, b: string, i: nat, j: nat) returns (s: Script)
    requires i <= |a| && j <= |b|
    ensures Turns(s, a[..i], b[..j]) && Cost(s) == Osa(a, b, i, j)
    ensures NoTransposition(a, b) ==> SwapFree(s)
    decreases i + j
  {
    if i + j == 0 {
      s := [];
    } else {
      hide Osa;
      hide Turns;
      hide Cost;
      hide Emit;
      hide HasTransposition;
      hide SwapFree;
      var e, p, q := CheapestEdit(a, b, i, j);
      s := ExtendScript(e, a, b, i, j, p, q);
    }
  }

  lemma {:induction false} ExtendScript(e: Edit, a: string, b: string, i: nat, j: nat, p: nat, q: nat)
    returns (s: Script)
    requires p <= i <= |a| && q <= j <= |b| && p + q < i + j && i - p == Takes(e)
    requires b[q..j] == Emit(e, a[p..i])
    ensures Turns(s, a[..i], b[..j]) && Cost(s) == Osa(a, b, p, q) + Price(e)
    ensures NoTransposition(a, b) && !e.Swap? ==> SwapFree(s)
    decreases i + j, 0
  {
    var t := CheapestScript(a, b, p, q);
    s := t + [e];
    CostConcat(t, [e]);
    assert Cost([e]) == Price(e);
    assert Turns([e], a[p..i], b[q..j]) by {
      assert [e][1..] == [] && a[p..i][Takes(e)..] == "" && a[p..i][..Takes(e)] == a[p..i];
      assert b[q..j] + "" == b[q..j];
    }
    TurnsConcat(t, [e], a[..p], b[..q], a[p..i], b[q..j]);
    assert a[..p] + a[p..i] == a[..i] && b[..q] + b[q..j] == b[..j];
  }

  // ----- the distance of two whole strings

  function Dist(a: string, b: string): nat {
    Osa(a, b, |a|, |b|)
  }

  /** Dist is the minimum cost over all edit scripts. */
  lemma DistIsMinimal(a: string, b: string)
    ensures exists s :: Turns(s, a, b) && Cost(s) == Dist(a, b)
    ensures forall s :: Turns(s, a, b) ==> Dist(a, b) <= Cost(s)
  {
    assert a[..|a|] == a && b[..|b|] == b;
    var s := CheapestScript(a, b, |a|, |b|);
    forall t | Turns(t, a, b) ensures Dist(a, b) <= Cost(t) {
      NoCheaperScript(t, a, b, |a|, |b|);
    }
  }

  lemma {:induction false} OsaSymmetric(a: string, b: string, i: nat, j: nat)
    requires i <= |a| && j <= |b|
    ensures Osa(a, b, i, j) == Osa(b, a, j, i)
    decreases i + j
  {
    hide Osa;
    if i == 0 || j == 0 {
      OsaEdge(a, b, i, j);
      OsaEdge(b, a, j, i);
    } else {
      OsaCell(a, b, i, j);
      OsaCell(b, a, j, i);
      OsaSymmetric(a, b, i - 1, j);
      OsaSymmetric(a, b, i, j - 1);
      OsaSymmetric(a, b, i - 1, j - 1);
      if HasTransposition(a, b, i - 1, j - 1) {
        OsaSymmetric(a, b, i - 2, j - 2);
      }
    }
  }

  lemma DistSymmetric(a: string, b: string)
    ensures Dist(a, b) == Dist(b, a)
  {
    OsaSymmetric(a, b, |a|, |b|);
  }

  /** A free script only keeps. */
  lemma {:induction false} FreeScript(s: Script, x: string, y: string)
    requires Turns(s, x, y) && Cost(s) == 0
    ensures x == y
  {
    if s != [] {
      FreeScript(s[1..], x[1..], Apply(s[1..], x[1..]).value);
    }
  }

  function Repeat(e: Edit, n: nat): Script {
    seq(n, _ => e)
  }

  lemma {:induction false} KeepAll(x: string)
    ensures Turns(Repeat(Keep, |x|), x, x) && Cost(Repeat(Keep, |x|)) == 0
  {
    if x != "" {
      KeepAll(x[1..]);
      assert Repeat(Keep, |x|)[1..] == Repeat(Keep, |x[1..]|);
      assert x == x[..1] + x[1..];
    }
  }

  lemma {:induction false} DeleteAll(x: string)
    ensures Turns(Repeat(Delete, |x|), x, "") && Cost(Repeat(Delete, |x|)) == |x|
  {
    if x != "" {
      DeleteAll(x[1..]);
      assert Repeat(Delete, |x|)[1..] == Repeat(Delete, |x[1..]|);
      assert Emit(Delete, x[..1]) + "" == "";
    }
  }

  lemma DistZero(a: string, b: string)
    ensures Dist(a, b) == 0 <==> a == b
  {
    DistIsMinimal(a, b);
    var s :| Turns(s, a, b) && Cost(s) == Dist(a, b);
    if Dist(a, b) == 0 {
      FreeScript(s, a, b);
    }
    if a == b {
      KeepAll(a);
    }
  }

  lemma {:induction false} OsaBounds(a: string, b: string, i: nat, j: nat)
    requires i <= |a| && j <= |b|
    ensures i - j <= Osa(a, b, i, j) && j - i <= Osa(a, b, i, j)
    ensures Osa(a, b, i, j) <= if i <= j then j else i
    decreases i + j
  {
    hide Osa;
    if i == 0 || j == 0 {
      OsaEdge(a, b, i, j);
    } else {
      OsaCell(a, b, i, j);
      OsaBounds(a, b, i - 1, j);
      OsaBounds(a, b, i, j - 1);
      OsaBounds(a, b, i - 1, j - 1);
      if HasTransposition(a, b, i - 1, j - 1) {
        OsaBounds(a, b, i - 2, j - 2);
      }
    }
  }

  /** The restricted distance is no metric: CA -> AC -> ABC is cheaper than CA -> ABC. */
  lemma TriangleFails()
    ensures Dist("CA", "ABC") > Dist("CA", "AC") + Dist("AC", "ABC")
  {
    hide Osa;
    var x, y, z := "CA", "AC", "ABC";
    OsaEdge(x, y, 0, 0);
    OsaCell(x, y, 2, 2);
    OsaEdge(y, z, 0, 0);
    OsaCell(y, z, 1, 1);
    OsaCell(y, z, 1, 2);
    OsaCell(y, z, 2, 3);
    Table23(x, z);
  }

  /** What an edit and a later edit of the character it writes come to. */
  function Fuse(d: Edit, e: Edit): Script
    requires !d.Delete? && !d.Swap? && !e.Insert? && !e.Swap?
  {
    match e
    case Keep => [d]
    case Delete => if d.Insert? then [] else [Delete]
    case Substitute(c) => if d.Insert? then [Insert(c)] else [Substitute(c)]
  }

  /** Scripts without swaps can be run into one, at no extra cost. */
  lemma {:induction false} Compose(s: Script, t: Script, a: string, b: string, c: string) returns (r: Script)
    requires SwapFree(s) && SwapFree(t) && Turns(s, a, b) && Turns(t, b, c)
    ensures Turns(r, a, c) && Cost(r) <= Cost(s) + Cost(t)
    decreases |s| + |t|
  {
    if s == [] {
      r := t;
    } else if s[0].Delete? {
      var rest := TurnsFirst(s, a, b);
      assert b == rest && "" + c == c;
      r := Compose(s[1..], t, a[1..], b, c);
      r := Prepend(Delete, r, a, c);
    } else if t != [] && t[0].Insert? {
      var rest := TurnsFirst(t, b, c);
      assert b[0..] == b && a[0..] == a;
      r := Compose(s, t[1..], a, b, rest);
      r := Prepend(t[0], r, a, rest);
    } else {
      r := ComposeHeads(s, t, a, b, c);
    }
  }

  lemma Prepend(e: Edit, r: Script, a: string, c: string) returns (out: Script)
    requires Takes(e) <= |a| && Turns(r, a[Takes(e)..], c)
    ensures Turns(out, a, Emit(e, a[..Takes(e)]) + c) && Cost(out) == Price(e) + Cost(r)
  {
    out := [e] + r;
    assert out[1..] == r;
    TurnsCons(out, a, c);
  }

  lemma {:induction false} ComposeHeads(s: Script, t: Script, a: string, b: string, c: string) returns (r: Script)
    requires SwapFree(s) && SwapFree(t) && Turns(s, a, b) && Turns(t, b, c)
    requires s != [] && !s[0].Delete? && (t != [] ==> !t[0].Insert?)
    ensures Turns(r, a, c) && Cost(r) <= Cost(s) + Cost(t)
    decreases |s| + |t|, 0
  {
    var left := TurnsFirst(s, a, b);
    var k := Takes(s[0]);
    assert b[1..] == left && b[..1] == Emit(s[0], a[..k]);
    var right := TurnsFirst(t, b, c);
    assert c == Emit(t[0], Emit(s[0], a[..k])) + right;
    r := Compose(s[1..], t[1..], a[k..], left, right);
    var f := Fuse(s[0], t[0]);
    if f == [] {
      assert a[0..] == a && "" + right == right;
    } else {
      r := Prepend(f[0], r, a, right);
    }
  }

  /**
    Where the branch for transpositions is never taken on the way, the triangle
    inequality holds.
   */
  lemma TriangleWithoutTransposition(a: string, b: string, c: string)
    requires NoTransposition(a, b) && NoTransposition(b, c)
    ensures Dist(a, c) <= Dist(a, b) + Dist(b, c)
  {
    hide Osa;
    assert a[..|a|] == a && b[..|b|] == b && c[..|c|] == c;
    var s := CheapestScript(a, b, |a|, |b|);
    var t := CheapestScript(b, c, |b|, |c|);
    var r := Compose(s, t, a, b, c);
    NoCheaperScript(r, a, c, |a|, |c|);
  }

  lemma Table23(x: string, z: string)
    requires x == "CA" && z == "ABC"
    ensures Osa(x, z, 2, 3) == 3
  {
    hide Osa;
    for k := 0 to 4
      invariant forall j :: 0 <= j < k ==> Osa(x, z, 0, j) == j
    {
      OsaEdge(x, z, 0, k);
    }
    OsaEdge(x, z, 1, 0);
    OsaEdge(x, z, 2, 0);
    OsaCell(x, z, 1, 1);
    OsaCell(x, z, 1, 2);
    OsaCell(x, z, 1, 3);
    OsaCell(x, z, 2, 1);
    OsaCell(x, z, 2, 2);
    OsaCell(x, z, 2, 3);
  }

  /** strings.Contains */
  predicate Contains(a: string, b: string) {
    exists k: nat :: k + |b| <= |a| && OccursAt(a, b, k)
  }

  predicate OccursAt(a: string, b: string, k: nat)
    requires k + |b| <= |a|
  {
    a[k..k + |b|] == b
  }

  /** Deleting what surrounds an occurrence of b. */
  lemma TrimScript(u: string, b: string, v: string) returns (s: Script)
    ensures Turns(s, u + b + v, b) && Cost(s) == |u| + |v|
  {
    hide *;
    DeleteAll(u);
    KeepAll(b);
    DeleteAll(v);
    var before, kept, after := Repeat(Delete, |u|), Repeat(Keep, |b|), Repeat(Delete, |v|);
    TurnsConcat(before, kept, u, "", b, b);
    TurnsConcat(before + kept, after, u + b, "" + b, v, "");
    assert "" + b + "" == b;
    CostConcat(before, kept);
    CostConcat(before + kept, after);
    s := before + kept + after;
  }

  lemma Surrounded(a: string, b: string) returns (u: string, v: string)
    requires Contains(a, b)
    ensures a == u + b + v
  {
    var k: nat :| k + |b| <= |a| && OccursAt(a, b, k);
    u, v := a[..k], a[k + |b|..];
  }

  /** Containment costs exactly the length difference. */
  lemma DistContains(a: string, b: string)
    requires Contains(a, b)
    ensures Dist(a, b) == |a| - |b|
  {
    var u, v := Surrounded(a, b);
    hide Osa;
    hide Turns;
    hide Cost;
    hide Contains;
    var s := TrimScript(u, b, v);
    DistIsMinimal(a, b);
    OsaBounds(a, b, |a|, |b|);
  }

  /** handleQuick: None when no shortcut applies. */
  function HandleQuick(a: string, b: string): (r: Option<nat>)
    ensures r.Some? ==> r.value == Dist(a, b)
    ensures r.None? ==> a != "" && b != "" && !Contains(a, b) && !Contains(b, a)
  {
    if a == b then DistZero(a, b); Some(0)
    else if a == "" then Some(|b|)
    else if b == "" then Some(|a|)
    else if Contains(a, b) then DistContains(a, b); Some(|a| - |b|)
    else if Contains(b, a) then DistContains(b, a); DistSymmetric(a, b); Some(|b| - |a|)
    else None
  }

  // ----- the rolling rows

  /** The code charges a transposition `sub` rather than one; the minimum is the same. */
  lemma CellIsOsa(a: string, b: string, i: nat, j: nat)
    requires i < |a| && j < |b|
    ensures
      var sub := Differ(a, b, i, j);
      var costSub := Osa(a, b, i, j) + sub;
      var costTrans := if HasTransposition(a, b, i, j) then Osa(a, b, i - 1, j - 1) + sub else costSub;
      Osa(a, b, i + 1, j + 1) ==
        Min(Min(Osa(a, b, i, j + 1) + 1, Osa(a, b, i + 1, j) + 1), Min(costSub, costTrans))
  {
    hide Osa;
    OsaCell(a, b, i + 1, j + 1);
    if HasTransposition(a, b, i, j) {
      OsaCell(a, b, i, j);
    }
  }

  /** Row i of the table, over the prefixes of b. */
  ghost predicate IsRow(row: array<nat>, a: string, b: string, i: nat)
    reads row
  {
    && i <= |a|
    && |b| < row.Length
    && forall j :: 0 <= j <= |b| ==> row[j] == Osa(a, b, i, j)
  }

  class Calculator {
    /** rowsPool: slices with arbitrary contents, by their backing arrays. */
    var rows: set<array<nat>>

    constructor ()
      ensures rows == {}
    {
      rows := {};
    }

    /** newRow: any pooled slice, or a new one, grown to the length asked for. */
    method NewRow(l: nat) returns (row: array<nat>)
      modifies this
      ensures row.Length >= l
      ensures row !in rows && rows <= old(rows)
      ensures forall r | r in old(rows) - rows :: r == row || r.Length < l
      ensures row in old(rows) || fresh(row)
    {
      if * {
        row := new nat[l];
        return;
      }
      if rows == {} {
        row := new nat[l];
      } else {
        row :| row in rows;
        rows := rows - {row};
        if row.Length < l {
          var grown := new nat[l];
          forall k | 0 <= k < row.Length { grown[k] := row[k]; }
          row := grown;
        }
      }
    }

    /** Fills row i + 1 into curr, whatever curr held before. */
    method FillRow(a: string, b: string, i: nat, prevPrev: array<nat>, prev: array<nat>, curr: array<nat>)
      requires i < |a|
      requires curr != prev && curr != prevPrev
      requires |b| < curr.Length
      requires IsRow(prev, a, b, i)
      requires i > 0 ==> IsRow(prevPrev, a, b, i - 1)
      modifies curr
      ensures IsRow(curr, a, b, i + 1)
    {
      hide Osa;
      OsaEdge(a, b, i + 1, 0);
      curr[0] := i + 1;
      for j := 0 to |b|
        invariant forall k :: 0 <= k <= j ==> curr[k] == Osa(a, b, i + 1, k)
      {
        var costDel := prev[j + 1] + 1;
        var costIns := curr[j] + 1;
        var sub := if a[i] != b[j] then 1 else 0;
        var costSub := prev[j] + sub;
        var costTrans := costSub;
        if HasTransposition(a, b, i, j) {
          costTrans := prevPrev[j - 1] + sub;
        }
        curr[j + 1] := Min(Min(costDel, costIns), Min(costSub, costTrans));
        CellIsOsa(a, b, i, j);
      }
    }

    method Distance(a: string, b: string) returns (dist: nat)
      modifies this, rows
      ensures dist == Dist(a, b)
      ensures forall row | row in rows :: row in old(rows) || fresh(row)
      ensures forall row | row in old(rows) && |b| < row.Length :: row in rows
    {
      var quick := HandleQuick(a, b);
      if quick.Some? {
        return quick.value;
      }
      var curr := NewRow(|b| + 1);
      var prev := NewRow(|b| + 1);
      var prevPrev := NewRow(|b| + 1);
      ghost var all := {curr, prev, prevPrev};
      assert forall row | row in all :: row in old(rows) || fresh(row);
      for i := 0 to |b| + 1
        modifies prev
        invariant forall k :: 0 <= k < i ==> prev[k] == k
      {
        prev[i] := i;
      }
      var i := 0;
      while i < |a|
        modifies all
        invariant i <= |a|
        invariant {curr, prev, prevPrev} == all
        invariant curr != prev && curr != prevPrev && prev != prevPrev
        invariant |b| < curr.Length && |b| < prevPrev.Length
        invariant IsRow(prev, a, b, i)
        invariant i > 0 ==> IsRow(prevPrev, a, b, i - 1)
      {
        FillRow(a, b, i, prevPrev, prev, curr);
        prevPrev, prev, curr := prev, curr, prevPrev;
        i := i + 1;
      }
      rows := rows + {curr, prev, prevPrev};
      dist := prev[|b|];
    }
  }
}
