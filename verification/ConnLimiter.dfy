/**
  The stream-connection limiter of internal/connlimiter: one counter with
  hysteresis shared by any number of listeners.  The class methods are the
  critical sections of the code; a run interleaves them in any order.
 */
module ConnLimiter {

  // ----- the counter

  datatype CounterVal = CounterVal(current: nat, isAccepting: bool)

  /** Config.Stop and Config.Resume. */
  datatype Config = Config(stop: nat, resume: nat)

  predicate ValidConfig(c: Config) {
    0 < c.resume <= c.stop
  }

  /** counter.increment on an accepting counter. */
  function Increment(v: CounterVal, c: Config): CounterVal {
    CounterVal(v.current + 1, v.current + 1 < c.stop)
  }

  /** counter.decrement */
  function Decrement(v: CounterVal, c: Config): CounterVal
    requires v.current > 0
  {
    CounterVal(v.current - 1, v.isAccepting || v.current - 1 <= c.resume)
  }

  class Counter {
    const conf: Config
    var current: nat
    var isAccepting: bool

    ghost function Val(): CounterVal
      reads this
    {
      CounterVal(current, isAccepting)
    }

    constructor (conf: Config)
      ensures this.conf == conf && Val() == CounterVal(0, true)
    {
      this.conf, current, isAccepting := conf, 0, true;
    }

    method TryIncrement() returns (shouldAccept: bool)
      modifies this
      ensures shouldAccept == old(isAccepting)
      ensures Val() == if shouldAccept then Increment(old(Val()), conf) else old(Val())
    {
      if !isAccepting {
        return false;
      }
      current := current + 1;
      isAccepting := current < conf.stop;
      return true;
    }

    method Release()
      requires current > 0
      modifies this
      ensures Val() == Decrement(old(Val()), conf)
    {
      current := current - 1;
      isAccepting := isAccepting || current <= conf.resume;
    }
  }

  datatype Turn = Admitted | Refused | Wait

  class LimitListener {
    const counter: Counter
    var isClosed: bool

    constructor (counter: Counter)
      ensures this.counter == counter && !isClosed
    {
      this.counter, isClosed := counter, false;
    }

    /** One turn of the waiting loop of increment, under the lock. */
    method AcceptTurn() returns (turn: Turn)
      modifies counter
      ensures counter.Val() ==
              if old(counter.isAccepting) then Increment(old(counter.Val()), counter.conf) else old(counter.Val())
      ensures turn == if isClosed then Refused else if old(counter.isAccepting) then Admitted else Wait
    {
      var taken := counter.TryIncrement();
      if taken || isClosed {
        return if isClosed then Refused else Admitted;
      }
      return Wait;
    }

    method Close() returns (first: bool)
      modifies this
      ensures first == !old(isClosed) && isClosed
    {
      first := !isClosed;
      isClosed := true;
    }
  }

  class LimitConn {
    const counter: Counter
    var isClosed: bool
    ghost var released: bool

    constructor (counter: Counter)
      ensures this.counter == counter && !isClosed && !released
    {
      this.counter, isClosed, released := counter, false, false;
    }

    /** The compare-and-swap at the start of Close. */
    method Claim() returns (first: bool)
      modifies `isClosed
      ensures first == !old(isClosed) && isClosed
    {
      first := !isClosed;
      isClosed := true;
    }

    /** The decrement at the end of Close, by whoever won the claim. */
    method Finish()
      requires isClosed && !released && counter.current > 0
      modifies `released, counter
      ensures released && counter.Val() == Decrement(old(counter.Val()), counter.conf)
    {
      counter.Release();
      released := true;
    }
  }

  // ----- runs

  /**
    accepting: Accept calls inside the wrapped listener, by call number.
    open, closing, closed: connections by number; closing ones have won the
    compare-and-swap but have not yet decremented the counter.
    slipped: Accept calls that took a slot on an already closed listener.
   */
  datatype State = State(
    counter: CounterVal,
    closedListeners: set<nat>,
    accepting: set<nat>,
    open: set<nat>,
    closing: set<nat>,
    closed: set<nat>,
    slipped: nat)

  datatype Event =
    | Try(call: nat, listener: nat)
    | InnerOk(call: nat, conn: nat)
    | InnerErr(call: nat)
    | CloseConn(conn: nat)
    | FinishClose(conn: nat)
    | CloseListener(listener: nat)

  datatype Run = Start | Then(before: Run, event: Event)

  /** Events that the code cannot take in a state leave it unchanged. */
  ghost function Next(s: State, e: Event, c: Config): State {
    match e
    case Try(call, l) =>
      if call in s.accepting || !s.counter.isAccepting then s
      else if l in s.closedListeners then s.(counter := Increment(s.counter, c), slipped := s.slipped + 1)
      else s.(counter := Increment(s.counter, c), accepting := s.accepting + {call})
    case InnerOk(call, conn) =>
      if call in s.accepting && conn !in s.open + s.closing + s.closed
      then s.(accepting := s.accepting - {call}, open := s.open + {conn})
      else s
    case InnerErr(call) =>
      if call in s.accepting && s.counter.current > 0
      then s.(accepting := s.accepting - {call}, counter := Decrement(s.counter, c))
      else s
    case CloseConn(conn) =>
      if conn in s.open then s.(open := s.open - {conn}, closing := s.closing + {conn}) else s
    case FinishClose(conn) =>
      if conn in s.closing && s.counter.current > 0
      then s.(closing := s.closing - {conn}, closed := s.closed + {conn}, counter := Decrement(s.counter, c))
      else s
    case CloseListener(l) => s.(closedListeners := s.closedListeners + {l})
  }

  ghost function After(r: Run, c: Config): State {
    match r
    case Start => State(CounterVal(0, true), {}, {}, {}, {}, {}, 0)
    case Then(q, e) => Next(After(q, c), e, c)
  }

  ghost function Current(r: Run, c: Config): nat {
    After(r, c).counter.current
  }

  /** Who holds a slot. */
  ghost function Holders(s: State): nat {
    |s.accepting| + |s.open| + |s.closing| + s.slipped
  }

  ghost predicate WithinBounds(v: CounterVal, c: Config) {
    && v.current <= c.stop
    && (v.isAccepting ==> v.current < c.stop)
    && (!v.isAccepting ==> v.current == c.stop || v.current > c.resume)
  }

  ghost predicate Inv(s: State, c: Config) {
    && Counted(s)
    && WithinBounds(s.counter, c)
    && s.open !! s.closing && s.open !! s.closed && s.closing !! s.closed
  }

  /** A step leaves the counter alone, takes a slot, or gives one back. */
  ghost predicate Moves(v: CounterVal, w: CounterVal, c: Config) {
    || w == v
    || (v.isAccepting && w == Increment(v, c))
    || (v.current > 0 && w == Decrement(v, c))
  }

  lemma NextMoves(s: State, e: Event, c: Config)
    ensures Moves(s.counter, Next(s, e, c).counter, c)
  {
  }

  lemma MovesKeepBounds(v: CounterVal, w: CounterVal, c: Config)
    requires ValidConfig(c) && WithinBounds(v, c) && Moves(v, w, c)
    ensures WithinBounds(w, c)
  {
  }

  ghost predicate Counted(s: State) {
    s.counter.current == Holders(s)
  }

  lemma CardAdd(x: nat, xs: set<nat>)
    requires x !in xs
    ensures |xs + {x}| == |xs| + 1
  {
  }

  lemma CardRemove(x: nat, xs: set<nat>)
    requires x in xs
    ensures |xs - {x}| == |xs| - 1
  {
  }

  lemma TryCounts(s: State, call: nat, l: nat, c: Config)
    requires Counted(s)
    ensures Counted(Next(s, Try(call, l), c))
  {
    if call !in s.accepting {
      CardAdd(call, s.accepting);
    }
  }

  lemma InnerOkCounts(s: State, call: nat, conn: nat, c: Config)
    requires Counted(s)
    ensures Counted(Next(s, InnerOk(call, conn), c))
  {
    if call in s.accepting && conn !in s.open + s.closing + s.closed {
      CardRemove(call, s.accepting);
      CardAdd(conn, s.open);
    }
  }

  lemma InnerErrCounts(s: State, call: nat, c: Config)
    requires Counted(s)
    ensures Counted(Next(s, InnerErr(call), c))
  {
    if call in s.accepting {
      CardRemove(call, s.accepting);
    }
  }

  lemma CloseConnCounts(s: State, conn: nat, c: Config)
    requires Counted(s) && s.open !! s.closing
    ensures Counted(Next(s, CloseConn(conn), c))
  {
    if conn in s.open {
      CardRemove(conn, s.open);
      CardAdd(conn, s.closing);
    }
  }

  lemma FinishCloseCounts(s: State, conn: nat, c: Config)
    requires Counted(s)
    ensures Counted(Next(s, FinishClose(conn), c))
  {
    if conn in s.closing {
      CardRemove(conn, s.closing);
    }
  }

  lemma NextCounts(s: State, e: Event, c: Config)
    requires Counted(s) && s.open !! s.closing
    ensures Counted(Next(s, e, c))
  {
    hide Counted;
    match e
    case Try(call, l) => TryCounts(s, call, l, c);
    case InnerOk(call, conn) => InnerOkCounts(s, call, conn, c);
    case InnerErr(call) => InnerErrCounts(s, call, c);
    case CloseConn(conn) => CloseConnCounts(s, conn, c);
    case FinishClose(conn) => FinishCloseCounts(s, conn, c);
    case CloseListener(l) => CloseListenerCounts(s, l, c);
  }

  lemma CloseListenerCounts(s: State, l: nat, c: Config)
    requires Counted(s)
    ensures Counted(Next(s, CloseListener(l), c))
  {
  }

  lemma NextKeepsInv(s: State, e: Event, c: Config)
    requires ValidConfig(c) && Inv(s, c)
    ensures Inv(Next(s, e, c), c)
  {
    hide Counted;
    hide WithinBounds;
    NextCounts(s, e, c);
    NextMoves(s, e, c);
    MovesKeepBounds(s.counter, Next(s, e, c).counter, c);
    hide Moves;
  }

  /** In every run the counter stays within its bounds and equals the slots held. */
  lemma {:induction false} CounterIsExact(r: Run, c: Config)
    requires ValidConfig(c)
    ensures Inv(After(r, c), c)
  {
    if r.Then? {
      CounterIsExact(r.before, c);
      NextKeepsInv(After(r.before, c), r.event, c);
    }
  }

  /** Whoever gives a slot back finds one taken. */
  lemma SlotIsTaken(s: State, c: Config)
    requires Inv(s, c)
    ensures s.accepting != {} || s.open != {} || s.closing != {} ==> s.counter.current > 0
  {
  }

  /** A slot that is given back is always there: the decrements never underflow. */
  lemma NeverUnderflows(r: Run, c: Config)
    requires ValidConfig(c)
    ensures
      var s := After(r, c);
      s.accepting != {} || s.closing != {} ==> s.counter.current > 0
  {
    CounterIsExact(r, c);
    SlotIsTaken(After(r, c), c);
  }

  // ----- what each step does

  /** The last step of closing a connection gives its slot back, and no other step of closing does. */
  lemma ClosingGivesBack(r: Run, c: Config, conn: nat)
    requires ValidConfig(c)
    ensures
      var s, t := After(r, c), After(Then(r, FinishClose(conn)), c);
      if conn in s.closing
      then
        && t.counter.current == s.counter.current - 1
        && t.closing == s.closing - {conn} && t.closed == s.closed + {conn}
      else t == s
    ensures
      var s, t := After(r, c), After(Then(r, CloseConn(conn)), c);
      && t.counter == s.counter
      && (if conn in s.open then t.open == s.open - {conn} && t.closing == s.closing + {conn} else t == s)
  {
    CounterIsExact(r, c);
    SlotIsTaken(After(r, c), c);
  }

  /** An accept in progress ends in a connection, which keeps the slot, or in an error, which gives it back. */
  lemma AcceptEnds(r: Run, c: Config, call: nat, conn: nat)
    requires ValidConfig(c) && call in After(r, c).accepting
    ensures
      var s, t := After(r, c), After(Then(r, InnerErr(call)), c);
      t.counter.current == s.counter.current - 1 && t.accepting == s.accepting - {call} && t.open == s.open
    ensures
      var s, t := After(r, c), After(Then(r, InnerOk(call, conn)), c);
      conn !in s.open + s.closing + s.closed ==>
        t.counter == s.counter && t.accepting == s.accepting - {call} && t.open == s.open + {conn}
  {
    CounterIsExact(r, c);
    SlotIsTaken(After(r, c), c);
  }

  // ----- each connection gives its slot back once

  /** How often the run decremented the counter on behalf of the connection. */
  ghost function Releases(r: Run, c: Config, conn: nat): nat {
    match r
    case Start => 0
    case Then(q, e) =>
      Releases(q, c, conn) +
      if e == FinishClose(conn) && After(r, c).counter.current < Current(q, c) then 1 else 0
  }

  lemma {:induction false} ReleasedOnce(r: Run, c: Config, conn: nat)
    requires ValidConfig(c)
    ensures Releases(r, c, conn) == if conn in After(r, c).closed then 1 else 0
  {
    if r.Then? {
      ReleasedOnce(r.before, c, conn);
      CounterIsExact(r.before, c);
      hide Counted;
      hide After;
      var s := After(r.before, c);
      assert After(r, c) == Next(s, r.event, c) by { AfterThen(r, c); }
    }
  }

  lemma AfterThen(r: Run, c: Config)
    requires r.Then?
    ensures After(r, c) == Next(After(r.before, c), r.event, c)
  {
  }

  // ----- hysteresis

  /** The counter reached stop at some point and has stayed above resume ever since. */
  ghost predicate Blocked(r: Run, c: Config) {
    Current(r, c) == c.stop || (r.Then? && Current(r, c) > c.resume && Blocked(r.before, c))
  }

  lemma {:induction false} AcceptsIffNotBlocked(r: Run, c: Config)
    requires ValidConfig(c)
    ensures After(r, c).counter.isAccepting <==> !Blocked(r, c)
  {
    CounterIsExact(r, c);
    hide Counted;
    if r.Then? {
      AcceptsIffNotBlocked(r.before, c);
      CounterIsExact(r.before, c);
      NextMoves(After(r.before, c), r.event, c);
      AfterThen(r, c);
      hide After;
      hide Next;
    }
  }

  /** A slot is granted exactly when an Accept call tries while the limiter is not blocked. */
  ghost predicate Grants(r: Run, e: Event, c: Config) {
    e.Try? && e.call !in After(r, c).accepting && !Blocked(r, c)
  }

  lemma GrantsIffGrows(r: Run, e: Event, c: Config)
    requires ValidConfig(c)
    ensures Grants(r, e, c) <==> Current(Then(r, e), c) == Current(r, c) + 1
  {
    AcceptsIffNotBlocked(r, c);
  }

  ghost function Granted(r: Run, c: Config): nat {
    match r
    case Start => 0
    case Then(q, e) => Granted(q, c) + if Grants(q, e, c) then 1 else 0
  }

  /** r continues p, and every state after p up to r is above resume. */
  ghost predicate StaysAbove(p: Run, r: Run, c: Config) {
    r == p || (r.Then? && Current(r, c) > c.resume && StaysAbove(p, r.before, c))
  }

  /** After reaching stop nothing is admitted until the counter has fallen to resume. */
  lemma {:induction false} NothingAdmittedUntilResume(p: Run, r: Run, c: Config)
    requires ValidConfig(c)
    requires Current(p, c) == c.stop && StaysAbove(p, r, c)
    ensures Blocked(r, c)
    ensures Granted(r, c) == Granted(p, c)
    ensures Current(r, c) <= c.stop
  {
    CounterIsExact(r, c);
    if r != p {
      NothingAdmittedUntilResume(p, r.before, c);
    }
  }

  // ----- slots taken on closed listeners

  ghost function Slips(r: Run, c: Config): nat {
    match r
    case Start => 0
    case Then(q, e) =>
      Slips(q, c) + if Grants(q, e, c) && e.listener in After(q, c).closedListeners then 1 else 0
  }

  /** The counter is open connections and accepts in progress, plus the slips. */
  lemma {:induction false} CounterCounts(r: Run, c: Config)
    requires ValidConfig(c)
    ensures
      var s := After(r, c);
      s.counter.current == |s.open| + |s.closing| + |s.accepting| + Slips(r, c)
  {
    CounterIsExact(r, c);
    SlipsAreCounted(r, c);
  }

  lemma {:induction false} SlipsAreCounted(r: Run, c: Config)
    requires ValidConfig(c)
    ensures After(r, c).slipped == Slips(r, c)
  {
    if r.Then? {
      SlipsAreCounted(r.before, c);
      AcceptsIffNotBlocked(r.before, c);
    }
  }

  /** When every accept is over and every connection closed, nothing is taken but what slipped. */
  lemma QuietIsFree(r: Run, c: Config)
    requires ValidConfig(c)
    requires
      var s := After(r, c);
      s.accepting == {} && s.open == {} && s.closing == {}
    ensures Current(r, c) == Slips(r, c)
  {
    CounterCounts(r, c);
  }

  /** The documented meaning of the counter holds exactly when no slot slipped. */
  lemma DocumentedCountIff(r: Run, c: Config)
    requires ValidConfig(c)
    ensures
      var s := After(r, c);
      s.counter.current == |s.open| + |s.closing| + |s.accepting| <==> Slips(r, c) == 0
  {
    CounterCounts(r, c);
  }

  /** Closing a listener before its Accept call is enough to lose a slot. */
  lemma SlipHappens(c: Config, call: nat, l: nat)
    requires ValidConfig(c)
    ensures
      var s := After(Then(Then(Start, CloseListener(l)), Try(call, l)), c);
      s.counter.current == 1 && |s.open| + |s.closing| + |s.accepting| == 0
  {
    var q := Then(Start, CloseListener(l));
    assert After(q, c) == Next(After(Start, c), CloseListener(l), c);
    assert After(Then(q, Try(call, l)), c) == Next(After(q, c), Try(call, l), c);
  }

  // ----- the code in a run

  /** The limiter with its listeners and connections, and where the calls in progress stand. */
  class Limiter {
    const counter: Counter
    var listeners: map<nat, LimitListener>
    var conns: map<nat, LimitConn>

    /** The Accept calls inside the wrapped listener, and the connections whose Close is still to decrement. */
    var accepting: set<nat>
    var closing: set<nat>

    /** The Accept calls that were refused and took a slot. */
    ghost var slipped: nat

    ghost function Objects(): set<object>
      reads this
    {
      {counter} + listeners.Values + conns.Values
    }

    ghost predicate Valid()
      reads this, listeners.Values, conns.Values
    {
      && (forall l | l in listeners :: listeners[l].counter == counter)
      && (forall k | k in conns :: conns[k].counter == counter && (conns[k].released ==> conns[k].isClosed))
      && (forall l, m | l in listeners && m in listeners && l != m :: listeners[l] != listeners[m])
      && (forall k, m | k in conns && m in conns && k != m :: conns[k] != conns[m])
      && (forall k | k in closing :: k in conns && conns[k].isClosed && !conns[k].released)
    }

    /** The state of the run. */
    ghost predicate Shows(s: State)
      reads this, counter, listeners.Values, conns.Values
    {
      && counter.Val() == s.counter && accepting == s.accepting && closing == s.closing && slipped == s.slipped
      && (forall l :: l in s.closedListeners <==> l in listeners && listeners[l].isClosed)
      && (forall k :: k in s.open <==> k in conns && !conns[k].isClosed)
      && (forall k :: k in s.closed <==> k in conns && conns[k].isClosed && k !in closing)
    }

    constructor (conf: Config)
      ensures Valid() && fresh(Objects()) && counter.conf == conf && Shows(After(Start, conf))
    {
      counter := new Counter(conf);
      listeners, conns, accepting, closing, slipped := map[], map[], {}, {}, 0;
    }

    /** Makes the listener with a number when it is first used. */
    method Listen(l: nat, ghost s: State)
      requires Valid() && Shows(s)
      modifies `listeners
      ensures Valid() && Shows(s) && fresh(Objects() - old(Objects())) && l in listeners
    {
      if l !in listeners {
        var made := new LimitListener(counter);
        listeners := listeners[l := made];
      }
    }

    /** A turn of Accept that is not inside the wrapped listener already. */
    method Try(call: nat, l: nat, ghost s: State)
      requires Valid() && Shows(s) && l in listeners
      modifies this, counter
      ensures Valid() && Objects() == old(Objects()) && Shows(Next(s, Event.Try(call, l), counter.conf))
    {
      if call in accepting {
        return;
      }
      ghost var before := counter.current;
      var turn := listeners[l].AcceptTurn();
      match turn
      case Admitted => accepting := accepting + {call};
      case Refused =>
        if counter.current > before {
          slipped := slipped + 1;
        }
      case Wait =>
    }

    /** The wrapped listener returns to Accept with a new connection. */
    method InnerOk(call: nat, conn: nat, ghost s: State)
      requires Valid() && Shows(s)
      modifies this
      ensures Valid() && fresh(Objects() - old(Objects())) && Shows(Next(s, Event.InnerOk(call, conn), counter.conf))
    {
      if call in accepting && conn !in conns {
        var made := new LimitConn(counter);
        accepting, conns := accepting - {call}, conns[conn := made];
      }
    }

    /** The wrapped listener returns to Accept with an error. */
    method InnerErr(call: nat, ghost s: State)
      requires Valid() && Shows(s) && Inv(s, counter.conf)
      modifies this, counter
      ensures Valid() && Objects() == old(Objects()) && Shows(Next(s, Event.InnerErr(call), counter.conf))
    {
      SlotIsTaken(s, counter.conf);
      if call in accepting {
        accepting := accepting - {call};
        counter.Release();
      }
    }

    /** A call of Close up to the compare-and-swap. */
    method CloseConn(conn: nat, ghost s: State)
      requires Valid() && Shows(s)
      modifies this, conns.Values
      ensures Valid() && Objects() == old(Objects()) && Shows(Next(s, Event.CloseConn(conn), counter.conf))
    {
      if conn in conns {
        var first := conns[conn].Claim();
        if first {
          closing := closing + {conn};
        }
      }
    }

    /** The rest of the call of Close that won. */
    method FinishClose(conn: nat, ghost s: State)
      requires Valid() && Shows(s) && Inv(s, counter.conf)
      modifies this, Objects()
      ensures Valid() && Objects() == old(Objects()) && Shows(Next(s, Event.FinishClose(conn), counter.conf))
    {
      SlotIsTaken(s, counter.conf);
      if conn in closing {
        conns[conn].Finish();
        closing := closing - {conn};
      }
    }

    method CloseListener(l: nat, ghost s: State)
      requires Valid() && Shows(s) && l in listeners
      modifies listeners.Values
      ensures Valid() && Objects() == old(Objects()) && Shows(Next(s, Event.CloseListener(l), counter.conf))
    {
      var first := listeners[l].Close();
    }

    method Step(e: Event, ghost s: State)
      requires Valid() && Shows(s) && Inv(s, counter.conf)
      modifies this, Objects()
      ensures Valid() && fresh(Objects() - old(Objects())) && Shows(Next(s, e, counter.conf))
    {
      hide Next;
      hide Shows;
      hide Valid;
      hide Inv;
      match e
      case Try(call, l) =>
        Listen(l, s);
        Try(call, l, s);
      case InnerOk(call, conn) => InnerOk(call, conn, s);
      case InnerErr(call) => InnerErr(call, s);
      case CloseConn(conn) => CloseConn(conn, s);
      case FinishClose(conn) => FinishClose(conn, s);
      case CloseListener(l) =>
        Listen(l, s);
        CloseListener(l, s);
    }

    /** Any run of the code is in the state that the laws are about. */
    method Execute(r: Run)
      requires ValidConfig(counter.conf) && Valid() && Shows(After(Start, counter.conf))
      modifies this, Objects()
      ensures Valid() && fresh(Objects() - old(Objects())) && Shows(After(r, counter.conf))
      ensures counter.current == Current(r, counter.conf)
      decreases r
    {
      if r.Then? {
        Execute(r.before);
        CounterIsExact(r.before, counter.conf);
        Step(r.event, After(r.before, counter.conf));
      }
    }
  }
}
