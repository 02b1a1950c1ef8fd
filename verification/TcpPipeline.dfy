/**
  The TCP query pipeline of internal/dnsserver: each connection accepts messages
  one after another, each message takes a permit of the server-wide semaphore and
  one of the connection's pipeline semaphore and is handed to a task.

  acceptTCPMsg is modelled statement by statement with its deferred functions and
  its named result, so that what the deferred functions release follows from
  callOnError rather than being assumed.
 */
module TcpPipeline {
  import opened Wrappers

  /** The counted resources: the two semaphores and the wait group. */
  datatype Resource = Active | Pipe(conn: nat) | Group(conn: nat)

  /** The deferred closures of acceptTCPMsg, in the order in which they are deferred. */
  datatype Deferred = Cancel | ReleaseActive | ReleasePipe

  function NthDeferred(i: nat): Deferred {
    if i == 0 then Cancel else if i == 1 then ReleaseActive else ReleasePipe
  }

  datatype Pc = Reading | AcquiringActive | AcquiringPipe | Adding | Submitting | Undoing | Returning

  datatype TaskPc = Work | ReleasingActive | ReleasingPipe | Cancelling | Finishing

  /**
    err is the named result as the deferred functions see it.  settled is
    bookkeeping: the permits have been handed to a task, or given up by returning
    a nil error.
   */
  datatype Thread =
    | Accepting(conn: nat, pc: Pc, err: bool, panicking: bool, defers: seq<Deferred>, settled: bool)
    | Serving(conn: nat, taskPc: TaskPc)
    | Done(conn: nat, stop: bool)

  /** How the statement at hand turns out. */
  datatype Choice = Good | Bad | Panic

  datatype Effect =
    | Nothing
    | Acquire(res: Resource)
    | Release(res: Resource)
    | Spawn(task: Thread)
    | Lose(res: Resource)

  // ----- one thread

  /** callOnError: the function is called on an error or a panic; a panic goes on. */
  predicate CallsOnError(panicking: bool, err: bool) {
    panicking || err
  }

  function ResourceOf(d: Deferred, conn: nat): Option<Resource> {
    match d
    case Cancel => None
    case ReleaseActive => Some(Active)
    case ReleasePipe => Some(Pipe(conn))
  }

  /** acceptTCPMsg, one statement. */
  function AcceptStep(t: Thread, c: Choice): (Thread, Effect)
    requires t.Accepting?
  {
    var panicked := t.(pc := Returning, panicking := true);
    match t.pc
    case Reading =>
      if c.Panic? then (panicked, Nothing)
      else if c.Bad? then (t.(pc := Returning, err := true), Nothing)
      else (t.(pc := AcquiringActive, defers := t.defers + [Cancel]), Nothing)
    case AcquiringActive =>
      if c.Panic? then (panicked, Nothing)
      else if c.Bad? then (t.(pc := Returning, err := false, settled := true), Nothing)
      else (t.(pc := AcquiringPipe, defers := t.defers + [ReleaseActive]), Acquire(Active))
    case AcquiringPipe =>
      if c.Panic? then (panicked, Nothing)
      else if c.Bad? then (t.(pc := Returning, err := false, settled := true), Lose(Active))
      else (t.(pc := Adding, defers := t.defers + [ReleasePipe]), Acquire(Pipe(t.conn)))
    case Adding => (t.(pc := Submitting), Acquire(Group(t.conn)))
    case Submitting =>
      if c.Panic? then (panicked, Lose(Group(t.conn)))
      else if c.Bad? then (t.(pc := Undoing), Nothing)
      else (t.(pc := Returning, err := false, settled := true), Spawn(Serving(t.conn, Work)))
    case Undoing => (t.(pc := Returning, err := true), Release(Group(t.conn)))
    case Returning =>
      if t.defers == [] then (Done(t.conn, t.err || t.panicking), Nothing)
      else
        var n := |t.defers| - 1;
        var res := ResourceOf(t.defers[n], t.conn);
        var popped := t.(defers := t.defers[..n]);
        if CallsOnError(t.panicking, t.err) && res.Some? then (popped, Release(res.value)) else (popped, Nothing)
  }

  /** The task and its deferred functions; a panic unwinds through the same ones. */
  function TaskStep(t: Thread): (Thread, Effect)
    requires t.Serving?
  {
    match t.taskPc
    case Work => (t.(taskPc := ReleasingActive), Nothing)
    case ReleasingActive => (t.(taskPc := ReleasingPipe), Release(Active))
    case ReleasingPipe => (t.(taskPc := Cancelling), Release(Pipe(t.conn)))
    case Cancelling => (t.(taskPc := Finishing), Nothing)
    case Finishing => (Done(t.conn, false), Release(Group(t.conn)))
  }

  function ThreadStep(t: Thread, c: Choice): (Thread, Effect) {
    match t
    case Accepting(_, _, _, _, _, _) => AcceptStep(t, c)
    case Serving(_, _) => TaskStep(t)
    case Done(_, _) => (t, Nothing)
  }

  /** The deferred functions a call has registered, and when its permits are settled. */
  ghost predicate WellFormed(t: Thread) {
    t.Accepting? ==>
      && InOrder(t.defers)
      && (t.pc != Returning ==> !t.err && !t.panicking && !t.settled && |t.defers| == Registered(t.pc))
      && (t.pc == Returning ==> (CallsOnError(t.panicking, t.err) <==> !t.settled))
  }

  ghost function Registered(pc: Pc): nat {
    match pc
    case Reading => 0
    case AcquiringActive => 1
    case AcquiringPipe => 2
    case _ => 3
  }

  /** How much of a resource a thread holds. */
  ghost function Weight(t: Thread, res: Resource): nat {
    match t
    case Accepting(conn, pc, _, _, defers, settled) => (
      match res
      case Active => if |defers| >= 2 && !settled then 1 else 0
      case Pipe(c) => if c == conn && |defers| >= 3 && !settled then 1 else 0
      case Group(c) => if c == conn && (pc == Submitting || pc == Undoing) then 1 else 0
    )
    case Serving(conn, pc) => (
      match res
      case Active => if pc == Work || pc == ReleasingActive then 1 else 0
      case Pipe(c) => if c == conn && pc != Cancelling && pc != Finishing then 1 else 0
      case Group(c) => if c == conn then 1 else 0
    )
    case Done(_, _) => 0
  }

  /** What an effect does to the number of permits in use, and to those lost. */
  ghost function UsedBy(e: Effect, res: Resource): int {
    if e == Acquire(res) then 1 else if e == Release(res) then -1 else 0
  }

  ghost function LostBy(e: Effect, res: Resource): nat {
    if e == Lose(res) then 1 else 0
  }

  ghost function SpawnedWeight(e: Effect, res: Resource): nat {
    if e.Spawn? then Weight(e.task, res) else 0
  }

  /** The deferred functions are registered in the order of the source, so their number tells which they are. */
  ghost predicate InOrder(defers: seq<Deferred>) {
    |defers| <= 3 && forall i | 0 <= i < |defers| :: defers[i] == NthDeferred(i)
  }

  ghost predicate StepBalances(t: Thread, u: Thread, e: Effect, res: Resource) {
    && WellFormed(u)
    && Weight(u, res) + SpawnedWeight(e, res) + LostBy(e, res) == Weight(t, res) + UsedBy(e, res)
  }

  lemma FirstStepsBalance(t: Thread, c: Choice, res: Resource)
    requires WellFormed(t) && t.Accepting? && (t.pc == Reading || t.pc == AcquiringActive)
    ensures var (u, e) := AcceptStep(t, c); StepBalances(t, u, e, res)
  {
  }

  lemma PipeStepBalances(t: Thread, c: Choice, res: Resource)
    requires WellFormed(t) && t.Accepting? && (t.pc == AcquiringPipe || t.pc == Adding)
    ensures var (u, e) := AcceptStep(t, c); StepBalances(t, u, e, res)
  {
  }

  lemma SubmitStepBalances(t: Thread, c: Choice, res: Resource)
    requires WellFormed(t) && t.Accepting? && (t.pc == Submitting || t.pc == Undoing)
    ensures var (u, e) := AcceptStep(t, c); StepBalances(t, u, e, res)
  {
  }

  /** A statement of the body. */
  lemma BodyStepBalances(t: Thread, c: Choice, res: Resource)
    requires WellFormed(t) && t.Accepting? && t.pc != Returning
    ensures var (u, e) := AcceptStep(t, c); StepBalances(t, u, e, res)
  {
    hide AcceptStep;
    hide StepBalances;
    hide WellFormed;
    match t.pc
    case Reading => FirstStepsBalance(t, c, res);
    case AcquiringActive => FirstStepsBalance(t, c, res);
    case AcquiringPipe => PipeStepBalances(t, c, res);
    case Adding => PipeStepBalances(t, c, res);
    case Submitting => SubmitStepBalances(t, c, res);
    case Undoing => SubmitStepBalances(t, c, res);
  }

  /** A deferred function, or the return itself. */
  lemma ReturnStepBalances(t: Thread, c: Choice, res: Resource)
    requires WellFormed(t) && t.Accepting? && t.pc == Returning
    ensures var (u, e) := AcceptStep(t, c); StepBalances(t, u, e, res)
  {
  }

  lemma TaskStepBalances(t: Thread, res: Resource)
    requires t.Serving?
    ensures
      var (u, e) := TaskStep(t);
      && !e.Spawn? && !e.Lose?
      && Weight(u, res) == Weight(t, res) + UsedBy(e, res)
  {
  }

  // ----- one call from beginning to end

  /** A thread on its own: what becomes of it with each choice in turn, and its effects. */
  function Trace(t: Thread, cs: seq<Choice>): (Thread, seq<Effect>)
    decreases |cs|
  {
    if cs == [] then (t, [])
    else
      var (u, e) := ThreadStep(t, cs[0]);
      var (v, es) := Trace(u, cs[1..]);
      (v, Seen(e, es))
  }

  function Seen(e: Effect, es: seq<Effect>): seq<Effect> {
    if e.Nothing? then es else [e] + es
  }

  lemma TraceFirst(t: Thread, c: Choice, cs: seq<Choice>)
    ensures
      var (u, e) := ThreadStep(t, c);
      var (v, es) := Trace(u, cs);
      Trace(t, [c] + cs) == (v, Seen(e, es))
  {
    hide ThreadStep;
    hide Seen;
    assert ([c] + cs)[1..] == cs;
  }

  lemma {:induction false} TraceDone(conn: nat, stop: bool, cs: seq<Choice>)
    ensures Trace(Done(conn, stop), cs) == (Done(conn, stop), [])
  {
    if cs != [] {
      TraceDone(conn, stop, cs[1..]);
    }
  }

  /** The permits among the first n deferred functions, last first. */
  function Releases(conn: nat, n: nat): seq<Effect> {
    if n == 3 then [Release(Pipe(conn)), Release(Active)] else if n == 2 then [Release(Active)] else []
  }

  lemma {:induction false} TraceReturns(t: Thread, cs: seq<Choice>)
    requires t.Accepting? && t.pc == Returning && InOrder(t.defers) && |cs| > |t.defers|
    ensures
      var failed := t.err || t.panicking;
      Trace(t, cs) == (Done(t.conn, failed), if failed then Releases(t.conn, |t.defers|) else [])
    decreases |t.defers|
  {
    var (u, e) := ThreadStep(t, cs[0]);
    assert cs == [cs[0]] + cs[1..];
    hide Trace;
    TraceFirst(t, cs[0], cs[1..]);
    ReturnPops(t, cs[0]);
    hide ThreadStep;
    if t.defers == [] {
      TraceDone(t.conn, t.err || t.panicking, cs[1..]);
    } else {
      TraceReturns(u, cs[1..]);
      SeenReleases(t.conn);
      hide InOrder;
      hide Releases;
    }
  }

  /** Returning pops the last deferred function, which gives a permit back if the call failed. */
  lemma ReturnPops(t: Thread, c: Choice)
    requires t.Accepting? && t.pc == Returning && InOrder(t.defers)
    ensures
      var (u, e) := ThreadStep(t, c);
      var n, failed := |t.defers|, t.err || t.panicking;
      if n == 0 then u == Done(t.conn, failed) && e == Nothing
      else
        && u == t.(defers := u.defers) && |u.defers| == n - 1 && InOrder(u.defers)
        && e == if !failed || n == 1 then Nothing else if n == 2 then Release(Active) else Release(Pipe(t.conn))
  {
  }

  lemma SeenReleases(conn: nat)
    ensures Seen(Release(Pipe(conn)), Releases(conn, 2)) == Releases(conn, 3)
    ensures Seen(Release(Active), Releases(conn, 1)) == Releases(conn, 2)
  {
  }

  /** A call at the start of acceptTCPMsg. */
  function Arriving(conn: nat): Thread {
    Accepting(conn, Reading, false, false, [], false)
  }

  /** The choices that make acceptTCPMsg return an error or panic, which ends the reading of the connection. */
  ghost predicate Stops(read: Choice, active: Choice, pipe: Choice, submit: Choice) {
    || !read.Good?
    || active.Panic?
    || (active.Good? && (pipe.Panic? || (pipe.Good? && !submit.Good?)))
  }

  /** The effects of a call from the submission on, from the pipeline semaphore on, and from the beginning. */
  ghost function SubmitEffects(conn: nat, submit: Choice): seq<Effect> {
    match submit
    case Good => [Spawn(Serving(conn, Work))]
    case Bad => [Release(Group(conn)), Release(Pipe(conn)), Release(Active)]
    case Panic => [Lose(Group(conn)), Release(Pipe(conn)), Release(Active)]
  }

  ghost function PipeEffects(conn: nat, pipe: Choice, submit: Choice): seq<Effect> {
    match pipe
    case Good => [Acquire(Pipe(conn)), Acquire(Group(conn))] + SubmitEffects(conn, submit)
    case Bad => [Lose(Active)]
    case Panic => [Release(Active)]
  }

  ghost function CallEffects(conn: nat, read: Choice, active: Choice, pipe: Choice, submit: Choice): seq<Effect> {
    if read.Good? && active.Good? then [Acquire(Active)] + PipeEffects(conn, pipe, submit) else []
  }

  const TWO_DEFERS := [Cancel, ReleaseActive]
  const THREE_DEFERS := [Cancel, ReleaseActive, ReleasePipe]

  function Held(conn: nat, pc: Pc, defers: seq<Deferred>): Thread {
    Accepting(conn, pc, false, false, defers, false)
  }

  /** A call on its way out, with an error or a panic, and with its permits settled. */
  lemma TraceLeaves(t: Thread, cs: seq<Choice>, failed: bool)
    requires t.Accepting? && t.pc == Returning && |cs| >= 4 && failed == (t.err || t.panicking)
    requires t.defers in {[], [Cancel], TWO_DEFERS, THREE_DEFERS}
    ensures Trace(t, cs) == (Done(t.conn, failed), if failed then Releases(t.conn, |t.defers|) else [])
  {
    assert InOrder(t.defers);
    TraceReturns(t, cs);
    hide Trace;
  }

  lemma SubmitFits(conn: nat)
    ensures Seen(Spawn(Serving(conn, Work)), []) == SubmitEffects(conn, Good)
    ensures Seen(Nothing, Seen(Release(Group(conn)), Releases(conn, 3))) == SubmitEffects(conn, Bad)
    ensures Seen(Lose(Group(conn)), Releases(conn, 3)) == SubmitEffects(conn, Panic)
  {
  }

  lemma SubmitStep(conn: nat, submit: Choice, next: Choice)
    ensures
      var (u, e) := ThreadStep(Held(conn, Submitting, THREE_DEFERS), submit);
      var (v, f) := ThreadStep(u, next);
      && u.Accepting? && u.conn == conn && u.defers == THREE_DEFERS && |THREE_DEFERS| == 3
      && (submit.Good? ==> u.pc == Returning && !u.err && !u.panicking && e == Spawn(Serving(conn, Work)))
      && (submit.Panic? ==> u.pc == Returning && u.panicking && e == Lose(Group(conn)))
      && (submit.Bad? ==>
            && v.Accepting? && v.conn == conn && v.pc == Returning && v.defers == THREE_DEFERS && v.err
            && e == Nothing && f == Release(Group(conn)))
  {
  }

  /** The end of a call that holds both permits and its place in the group. */
  lemma SubmitEnds(conn: nat, submit: Choice, rest: seq<Choice>)
    requires |rest| >= 5
    ensures Trace(Held(conn, Submitting, THREE_DEFERS), [submit] + rest) ==
            (Done(conn, !submit.Good?), SubmitEffects(conn, submit))
  {
    hide *;
    var t := Held(conn, Submitting, THREE_DEFERS);
    SubmitStep(conn, submit, rest[0]);
    SubmitFits(conn);
    var u := ThreadStep(t, submit).0;
    TraceFirst(t, submit, rest);
    if submit.Bad? {
      assert rest == [rest[0]] + rest[1..];
      TraceFirst(u, rest[0], rest[1..]);
      TraceLeaves(ThreadStep(u, rest[0]).0, rest[1..], true);
    } else {
      TraceLeaves(u, rest, !submit.Good?);
    }
  }

  lemma PipeStep(conn: nat, pipe: Choice)
    ensures
      var (u, e) := ThreadStep(Held(conn, AcquiringPipe, TWO_DEFERS), pipe);
      match pipe
      case Good => u == Held(conn, Adding, THREE_DEFERS) && e == Acquire(Pipe(conn))
      case _ =>
        && u.Accepting? && u.conn == conn && u.pc == Returning && u.defers == TWO_DEFERS && |TWO_DEFERS| == 2
        && !u.err && u.panicking == pipe.Panic? && e == if pipe.Bad? then Lose(Active) else Nothing
  {
  }

  lemma AddStep(conn: nat, add: Choice)
    ensures ThreadStep(Held(conn, Adding, THREE_DEFERS), add) ==
            (Held(conn, Submitting, THREE_DEFERS), Acquire(Group(conn)))
  {
  }

  lemma PipeFits(conn: nat, submit: Choice)
    ensures Seen(Acquire(Pipe(conn)), Seen(Acquire(Group(conn)), SubmitEffects(conn, submit))) ==
            PipeEffects(conn, Good, submit)
    ensures Seen(Lose(Active), []) == PipeEffects(conn, Bad, submit)
    ensures Seen(Nothing, Releases(conn, 2)) == PipeEffects(conn, Panic, submit)
  {
    hide SubmitEffects;
    var es := SubmitEffects(conn, submit);
    assert [Acquire(Pipe(conn))] + ([Acquire(Group(conn))] + es) == [Acquire(Pipe(conn)), Acquire(Group(conn))] + es;
  }

  /** The end of a call that holds the one permit. */
  lemma PipeEnds(conn: nat, pipe: Choice, add: Choice, submit: Choice, rest: seq<Choice>)
    requires |rest| >= 5
    ensures Trace(Held(conn, AcquiringPipe, TWO_DEFERS), [pipe] + ([add] + ([submit] + rest))) ==
            (Done(conn, Stops(Good, Good, pipe, submit)), PipeEffects(conn, pipe, submit))
  {
    assert Stops(Good, Good, pipe, submit) <==> pipe.Panic? || (pipe.Good? && !submit.Good?);
    hide *;
    var t, more := Held(conn, AcquiringPipe, TWO_DEFERS), [add] + ([submit] + rest);
    TraceFirst(t, pipe, more);
    PipeStep(conn, pipe);
    PipeFits(conn, submit);
    var u := ThreadStep(t, pipe).0;
    if pipe.Good? {
      TraceFirst(u, add, [submit] + rest);
      AddStep(conn, add);
      SubmitEnds(conn, submit, rest);
    } else {
      TraceLeaves(u, more, pipe.Panic?);
    }
  }

  lemma ReadStep(conn: nat, read: Choice)
    ensures
      var (u, e) := ThreadStep(Arriving(conn), read);
      && e == Nothing
      && (if read.Good? then u == Held(conn, AcquiringActive, [Cancel])
          else u.Accepting? && u.conn == conn && u.pc == Returning && u.defers == [] && (u.err || u.panicking))
  {
  }

  lemma ActiveStep(conn: nat, active: Choice)
    ensures
      var (u, e) := ThreadStep(Held(conn, AcquiringActive, [Cancel]), active);
      match active
      case Good => u == Held(conn, AcquiringPipe, TWO_DEFERS) && e == Acquire(Active)
      case _ =>
        && u.Accepting? && u.conn == conn && u.pc == Returning && u.defers == [Cancel]
        && !u.err && u.panicking == active.Panic? && e == Nothing
  {
  }

  /** The end of a call that holds nothing yet. */
  lemma ActiveEnds(conn: nat, active: Choice, pipe: Choice, add: Choice, submit: Choice, rest: seq<Choice>)
    requires |rest| >= 5
    ensures Trace(Held(conn, AcquiringActive, [Cancel]), [active] + ([pipe] + ([add] + ([submit] + rest)))) ==
            (Done(conn, Stops(Good, active, pipe, submit)), CallEffects(conn, Good, active, pipe, submit))
  {
    var t, more := Held(conn, AcquiringActive, [Cancel]), [pipe] + ([add] + ([submit] + rest));
    hide Trace;
    hide ThreadStep;
    hide PipeEffects;
    TraceFirst(t, active, more);
    ActiveStep(conn, active);
    if active.Good? {
      PipeEnds(conn, pipe, add, submit, rest);
    } else {
      TraceLeaves(ThreadStep(t, active).0, more, active.Panic?);
    }
  }

  /**
    A whole call: reading, the two semaphores and the submission turn out one way
    or another, and that decides whether the connection is read on, whether a task
    is started, and which permits come back.
   */
  lemma CallEnds(
    conn: nat, read: Choice, active: Choice, pipe: Choice, add: Choice, submit: Choice, rest: seq<Choice>)
    requires |rest| >= 5
    ensures Trace(Arriving(conn), [read] + ([active] + ([pipe] + ([add] + ([submit] + rest))))) ==
            (Done(conn, Stops(read, active, pipe, submit)), CallEffects(conn, read, active, pipe, submit))
  {
    var t, more := Arriving(conn), [active] + ([pipe] + ([add] + ([submit] + rest)));
    hide Trace;
    hide ThreadStep;
    hide PipeEffects;
    hide Arriving;
    TraceFirst(t, read, more);
    ReadStep(conn, read);
    if read.Good? {
      ActiveEnds(conn, active, pipe, add, submit, rest);
    } else {
      TraceLeaves(ThreadStep(t, read).0, more, true);
    }
  }

  /** A whole task gives its permits and its place in the group back. */
  lemma TaskEnds(conn: nat, cs: seq<Choice>)
    requires |cs| >= 5
    ensures Trace(Serving(conn, Work), cs) ==
            (Done(conn, false), [Release(Active), Release(Pipe(conn)), Release(Group(conn))])
  {
    TraceDone(conn, false, cs[5..]);
    hide Trace;
    assert cs == [cs[0]] + ([cs[1]] + ([cs[2]] + ([cs[3]] + ([cs[4]] + cs[5..]))));
    TraceFirst(Serving(conn, Work), cs[0], [cs[1]] + ([cs[2]] + ([cs[3]] + ([cs[4]] + cs[5..]))));
    TraceFirst(Serving(conn, ReleasingActive), cs[1], [cs[2]] + ([cs[3]] + ([cs[4]] + cs[5..])));
    TraceFirst(Serving(conn, ReleasingPipe), cs[2], [cs[3]] + ([cs[4]] + cs[5..]));
    TraceFirst(Serving(conn, Cancelling), cs[3], [cs[4]] + cs[5..]);
    TraceFirst(Serving(conn, Finishing), cs[4], cs[5..]);
    assert [Release(Active)] + ([Release(Pipe(conn))] + ([Release(Group(conn))] + [])) ==
           [Release(Active), Release(Pipe(conn)), Release(Group(conn))];
  }

  // ----- the server

  /** serveTCPConn: looping over messages, waiting for its tasks, or closed. */
  datatype ConnState = Looping(busy: bool) | Draining | Closed

  datatype State = State(
    threads: seq<Thread>,
    used: Resource -> int,
    lost: Resource -> nat,
    conns: map<nat, ConnState>)

  datatype Event =
    | Open(conn: nat)
    | Enter(conn: nat)
    | Step(i: nat, choice: Choice)
    | Quit(conn: nat)
    | Drain(conn: nat)

  /** The semaphore sizes; no size means that there is no semaphore. */
  datatype Config = Config(maxActive: Option<nat>, maxPipeline: Option<nat>)

  predicate Available(cfg: Config, res: Resource, used: int) {
    match res
    case Active => cfg.maxActive.Some? ==> used < cfg.maxActive.value
    case Pipe(_) => cfg.maxPipeline.Some? ==> used < cfg.maxPipeline.value
    case Group(_) => true
  }

  /** Acquiring can fail only where there is a semaphore; without one it always succeeds at once. */
  predicate CanTurnOut(cfg: Config, t: Thread, c: Choice) {
    t.Accepting? && c.Bad? ==>
      && (t.pc == AcquiringActive ==> cfg.maxActive.Some?)
      && (t.pc == AcquiringPipe ==> cfg.maxPipeline.Some?)
  }

  /** Every statement can turn out in every way, but for a semaphore that is not there: it cannot time out. */
  lemma CanTurnOutIff(cfg: Config, t: Thread, c: Choice)
    ensures !CanTurnOut(cfg, t, c) <==>
            t.Accepting? && c.Bad? &&
            ((t.pc == AcquiringActive && cfg.maxActive.None?) || (t.pc == AcquiringPipe && cfg.maxPipeline.None?))
  {
  }

  ghost function ConnsAfter(conns: map<nat, ConnState>, t: Thread, u: Thread): map<nat, ConnState> {
    if t.Accepting? && u.Done? then conns[u.conn := if u.stop then Draining else Looping(false)] else conns
  }

  ghost function Apply(s: State, i: nat, u: Thread, e: Effect): State
    requires i < |s.threads|
  {
    State(
      s.threads[i := u] + (if e.Spawn? then [e.task] else []),
      (res: Resource) => s.used(res) + UsedBy(e, res),
      (res: Resource) => s.lost(res) + LostBy(e, res),
      ConnsAfter(s.conns, s.threads[i], u))
  }

  /** Events that cannot happen in a state leave it unchanged. */
  ghost function Next(s: State, e: Event, cfg: Config): State {
    match e
    case Open(conn) => if conn in s.conns then s else s.(conns := s.conns[conn := Looping(false)])
    case Enter(conn) =>
      if conn in s.conns && s.conns[conn] == Looping(false)
      then s.(conns := s.conns[conn := Looping(true)],
              threads := s.threads + [Arriving(conn)])
      else s
    case Step(i, choice) =>
      if i >= |s.threads| || !CanTurnOut(cfg, s.threads[i], choice) then s
      else
        var (u, eff) := ThreadStep(s.threads[i], choice);
        if eff.Acquire? && !Available(cfg, eff.res, s.used(eff.res)) then s else Apply(s, i, u, eff)
    case Quit(conn) =>
      if conn in s.conns && s.conns[conn] == Looping(false) then s.(conns := s.conns[conn := Draining]) else s
    case Drain(conn) =>
      if conn in s.conns && s.conns[conn] == Draining && s.used(Group(conn)) == 0
      then s.(conns := s.conns[conn := Closed])
      else s
  }

  /**
    What happens to a connection otherwise: it is opened once, a message is read
    while no other is being accepted, it can be left between messages, and it is
    closed as soon as it is left and its group is empty.
   */
  lemma ConnSteps(s: State, conn: nat, cfg: Config)
    ensures
      var t := Next(s, Open(conn), cfg);
      conn !in s.conns ==> t.conns == s.conns[conn := Looping(false)] && t.threads == s.threads
    ensures
      var t := Next(s, Enter(conn), cfg);
      conn in s.conns && s.conns[conn] == Looping(false) ==>
        t.conns == s.conns[conn := Looping(true)] && t.threads == s.threads + [Arriving(conn)]
    ensures
      var t := Next(s, Quit(conn), cfg);
      conn in s.conns && s.conns[conn] == Looping(false) ==>
        t.conns == s.conns[conn := Draining] && t.threads == s.threads
    ensures
      var t := Next(s, Drain(conn), cfg);
      conn in s.conns && s.conns[conn] == Draining && s.used(Group(conn)) == 0 ==>
        t.conns == s.conns[conn := Closed] && t.threads == s.threads
  {
  }

  /** A step of a thread goes through unless it needs a permit that is not there. */
  lemma StepGoesThrough(s: State, i: nat, choice: Choice, cfg: Config)
    requires i < |s.threads| && CanTurnOut(cfg, s.threads[i], choice)
    ensures
      var (u, e) := ThreadStep(s.threads[i], choice);
      var t := Next(s, Step(i, choice), cfg);
      if e.Acquire? && !Available(cfg, e.res, s.used(e.res)) then t == s
      else
        && i < |t.threads| && t.threads[i] == u && (e.Spawn? ==> t.threads == s.threads[i := u] + [e.task])
        && (forall res :: t.used(res) == s.used(res) + UsedBy(e, res))
  {
  }

  /** A call that is over decides on its connection: an error or a panic ends the reading, anything else goes on. */
  lemma CallDecides(s: State, i: nat, choice: Choice, cfg: Config)
    requires i < |s.threads| && s.threads[i].Accepting? && Next(s, Step(i, choice), cfg).threads[i].Done?
    ensures
      var conn, t := s.threads[i].conn, Next(s, Step(i, choice), cfg);
      && conn in t.conns && t.conns[conn] == (if t.threads[i].stop then Draining else Looping(false))
      && (forall other | other != conn :: other in s.conns <==> other in t.conns)
      && (forall other | other in s.conns && other != conn :: t.conns[other] == s.conns[other])
  {
  }

  datatype Run = Start | Then(before: Run, event: Event)

  ghost function After(r: Run, cfg: Config): State {
    match r
    case Start => State([], (_: Resource) => 0, (_: Resource) => 0, map[])
    case Then(q, e) => Next(After(q, cfg), e, cfg)
  }

  // ----- permit accounting

  ghost function Total(ts: seq<Thread>, res: Resource): nat {
    if ts == [] then 0 else Total(ts[..|ts| - 1], res) + Weight(ts[|ts| - 1], res)
  }

  lemma TotalAppend(ts: seq<Thread>, t: Thread, res: Resource)
    ensures Total(ts + [t], res) == Total(ts, res) + Weight(t, res)
  {
    assert (ts + [t])[..|ts|] == ts;
  }

  lemma {:induction false} TotalUpdate(ts: seq<Thread>, i: nat, u: Thread, res: Resource)
    requires i < |ts|
    ensures Total(ts[i := u], res) == Total(ts, res) - Weight(ts[i], res) + Weight(u, res)
  {
    hide Weight;
    var n := |ts| - 1;
    if i < n {
      TotalUpdate(ts[..n], i, u, res);
      assert ts[i := u][..n] == ts[..n][i := u];
    } else {
      assert ts[i := u][..n] == ts[..n];
    }
  }

  lemma {:induction false} WeightBelowTotal(ts: seq<Thread>, i: nat, res: Resource)
    requires i < |ts|
    ensures Weight(ts[i], res) <= Total(ts, res)
  {
    hide Weight;
    var n := |ts| - 1;
    if i < n {
      WeightBelowTotal(ts[..n], i, res);
    }
  }

  ghost predicate AllWellFormed(ts: seq<Thread>) {
    forall i | 0 <= i < |ts| :: WellFormed(ts[i])
  }

  /** Permits in use are those the threads hold and those that were lost. */
  ghost predicate Balanced(s: State, res: Resource) {
    s.used(res) == Total(s.threads, res) + s.lost(res)
  }

  lemma ThreadStepBalances(t: Thread, c: Choice, res: Resource)
    requires WellFormed(t)
    ensures
      var (u, e) := ThreadStep(t, c);
      && WellFormed(u)
      && (e.Spawn? ==> WellFormed(e.task))
      && Weight(u, res) + SpawnedWeight(e, res) + LostBy(e, res) == Weight(t, res) + UsedBy(e, res)
  {
    if t.Accepting? && t.pc == Returning {
      ReturnStepBalances(t, c, res);
    } else if t.Accepting? {
      BodyStepBalances(t, c, res);
    } else if t.Serving? {
      TaskStepBalances(t, res);
    }
  }

  lemma ApplyBalances(s: State, i: nat, u: Thread, e: Effect, res: Resource)
    requires i < |s.threads| && Balanced(s, res)
    requires Weight(u, res) + SpawnedWeight(e, res) + LostBy(e, res) == Weight(s.threads[i], res) + UsedBy(e, res)
    ensures Balanced(Apply(s, i, u, e), res)
  {
    hide Weight;
    hide UsedBy;
    hide LostBy;
    var ts := s.threads[i := u];
    TotalUpdate(s.threads, i, u, res);
    hide Total;
    if e.Spawn? {
      TotalAppend(ts, e.task, res);
    } else {
      assert ts + [] == ts;
    }
  }

  lemma NextBalances(s: State, e: Event, cfg: Config, res: Resource)
    requires AllWellFormed(s.threads) && Balanced(s, res)
    ensures AllWellFormed(Next(s, e, cfg).threads) && Balanced(Next(s, e, cfg), res)
  {
    hide Total;
    hide ThreadStep;
    if e.Step? && e.i < |s.threads| {
      var (u, eff) := ThreadStep(s.threads[e.i], e.choice);
      ThreadStepBalances(s.threads[e.i], e.choice, res);
      ApplyBalances(s, e.i, u, eff, res);
      hide Balanced;
      hide WellFormed;
    } else if e.Enter? {
      TotalAppend(s.threads, Accepting(e.conn, Reading, false, false, [], false), res);
    }
  }

  /** In every run, for every semaphore and wait group, permits in use equal permits held plus permits lost. */
  lemma {:induction false} PermitsBalance(r: Run, cfg: Config, res: Resource)
    ensures AllWellFormed(After(r, cfg).threads)
    ensures Balanced(After(r, cfg), res)
  {
    if r.Then? {
      PermitsBalance(r.before, cfg, res);
      NextBalances(After(r.before, cfg), r.event, cfg, res);
    }
  }

  /** Nothing is released twice: whoever releases a permit finds at least one in use. */
  lemma ReleaseNeverUnderflows(r: Run, cfg: Config, i: nat, c: Choice)
    requires i < |After(r, cfg).threads|
    ensures
      var s := After(r, cfg);
      var (_, e) := ThreadStep(s.threads[i], c);
      e.Release? ==> s.used(e.res) > 0
  {
    var s := After(r, cfg);
    hide After;
    var (u, e) := ThreadStep(s.threads[i], c);
    if e.Release? {
      PermitsBalance(r, cfg, e.res);
      ThreadStepBalances(s.threads[i], c, e.res);
      WeightBelowTotal(s.threads, i, e.res);
    }
  }

  /** The semaphores are never over-committed. */
  lemma {:induction false} WithinCapacity(r: Run, cfg: Config, conn: nat)
    ensures cfg.maxActive.Some? ==> After(r, cfg).used(Active) <= cfg.maxActive.value
    ensures cfg.maxPipeline.Some? ==> After(r, cfg).used(Pipe(conn)) <= cfg.maxPipeline.value
  {
    hide ThreadStep;
    if r.Then? {
      WithinCapacity(r.before, cfg, conn);
    }
  }

  // ----- what can be lost

  /** Messages for which the pipeline semaphore could not be acquired. */
  ghost function PipeFailures(r: Run, cfg: Config): nat {
    match r
    case Start => 0
    case Then(q, e) => PipeFailures(q, cfg) + if FailsAt(After(q, cfg), e, AcquiringPipe, Bad, cfg) then 1 else 0
  }

  /** Panics inside the task pool's Submit. */
  ghost function SubmitPanics(r: Run, cfg: Config, conn: nat): nat {
    match r
    case Start => 0
    case Then(q, e) =>
      SubmitPanics(q, cfg, conn) +
      if FailsAt(After(q, cfg), e, Submitting, Panic, cfg) && After(q, cfg).threads[e.i].conn == conn then 1 else 0
  }

  ghost predicate FailsAt(s: State, e: Event, pc: Pc, c: Choice, cfg: Config) {
    && e.Step? && e.i < |s.threads| && e.choice == c && CanTurnOut(cfg, s.threads[e.i], c)
    && s.threads[e.i].Accepting? && s.threads[e.i].pc == pc
  }

  lemma StepLoses(t: Thread, c: Choice, res: Resource)
    ensures
      var (_, e) := ThreadStep(t, c);
      e == Lose(res) <==>
        && t.Accepting?
        && (|| (res == Active && t.pc == AcquiringPipe && c == Bad)
            || (res == Group(t.conn) && t.pc == Submitting && c == Panic))
  {
  }

  lemma {:induction false} LossesAreFailures(r: Run, cfg: Config, conn: nat)
    ensures After(r, cfg).lost(Active) == PipeFailures(r, cfg)
    ensures After(r, cfg).lost(Pipe(conn)) == 0
    ensures After(r, cfg).lost(Group(conn)) == SubmitPanics(r, cfg, conn)
  {
    if r.Then? {
      LossesAreFailures(r.before, cfg, conn);
      var s, e := After(r.before, cfg), r.event;
      hide ThreadStep;
      if e.Step? && e.i < |s.threads| {
        StepLoses(s.threads[e.i], e.choice, Active);
        StepLoses(s.threads[e.i], e.choice, Pipe(conn));
        StepLoses(s.threads[e.i], e.choice, Group(conn));
      }
    }
  }

  /** Exact accounting: active permits drift by the pipeline failures, pipeline permits never do. */
  lemma ExactAccounting(r: Run, cfg: Config, conn: nat)
    ensures
      var s := After(r, cfg);
      && s.used(Active) == Total(s.threads, Active) + PipeFailures(r, cfg)
      && s.used(Pipe(conn)) == Total(s.threads, Pipe(conn))
      && s.used(Group(conn)) == Total(s.threads, Group(conn)) + SubmitPanics(r, cfg, conn)
  {
    PermitsBalance(r, cfg, Active);
    PermitsBalance(r, cfg, Pipe(conn));
    PermitsBalance(r, cfg, Group(conn));
    LossesAreFailures(r, cfg, conn);
  }

  ghost predicate Quiet(s: State) {
    forall i | 0 <= i < |s.threads| :: s.threads[i].Done?
  }

  lemma {:induction false} QuietHoldsNothing(ts: seq<Thread>, res: Resource)
    requires forall i | 0 <= i < |ts| :: ts[i].Done?
    ensures Total(ts, res) == 0
  {
    if ts != [] {
      QuietHoldsNothing(ts[..|ts| - 1], res);
    }
  }

  /** When all work is over, every active-request permit is back if and only if no pipeline acquisition failed. */
  lemma QuietIsFreeIff(r: Run, cfg: Config, conn: nat)
    requires Quiet(After(r, cfg))
    ensures After(r, cfg).used(Active) == 0 <==> PipeFailures(r, cfg) == 0
    ensures After(r, cfg).used(Pipe(conn)) == 0
    ensures After(r, cfg).used(Group(conn)) == 0 <==> SubmitPanics(r, cfg, conn) == 0
  {
    ExactAccounting(r, cfg, conn);
    QuietHoldsNothing(After(r, cfg).threads, Active);
    QuietHoldsNothing(After(r, cfg).threads, Pipe(conn));
    QuietHoldsNothing(After(r, cfg).threads, Group(conn));
  }

  // ----- losing a permit

  /** What matters of a state in which only connection 0 is open and thread t, between pre and post, is at hand. */
  datatype View = View(
    pre: seq<Thread>, t: Thread, post: seq<Thread>, active: int, pipe: int, group: int, conn: ConnState, failures: nat)

  ghost predicate Shows(r: Run, cfg: Config, v: View) {
    var s := After(r, cfg);
    && s.threads == v.pre + [v.t] + v.post && s.conns == map[0 := v.conn]
    && s.used(Active) == v.active && s.used(Pipe(0)) == v.pipe && s.used(Group(0)) == v.group
    && PipeFailures(r, cfg) == v.failures
  }

  predicate Enabled(v: View, c: Choice, cfg: Config) {
    && v.t.conn == 0 && CanTurnOut(cfg, v.t, c)
    && var (_, e) := ThreadStep(v.t, c);
       e.Acquire? ==> Available(cfg, e.res, if e.res.Active? then v.active else if e.res.Pipe? then v.pipe else v.group)
  }

  ghost function Moved(v: View, c: Choice): View {
    var (u, e) := ThreadStep(v.t, c);
    View(v.pre, u, v.post + (if e.Spawn? then [e.task] else []),
         v.active + UsedBy(e, Active), v.pipe + UsedBy(e, Pipe(0)), v.group + UsedBy(e, Group(0)),
         if v.t.Accepting? && u.Done? then (if u.stop then Draining else Looping(false)) else v.conn,
         v.failures + if v.t.Accepting? && v.t.pc == AcquiringPipe && c == Bad then 1 else 0)
  }

  lemma EffectIsOfConn(t: Thread, c: Choice)
    ensures
      var (u, e) := ThreadStep(t, c);
      && u.conn == t.conn
      && (e.Acquire? ==> e.res in {Active, Pipe(t.conn), Group(t.conn)})
  {
  }

  /** A step of the thread at hand changes just that. */
  lemma StepShows(r: Run, cfg: Config, v: View, c: Choice)
    requires Shows(r, cfg, v) && Enabled(v, c, cfg)
    ensures Shows(Then(r, Step(|v.pre|, c)), cfg, Moved(v, c))
  {
    EffectIsOfConn(v.t, c);
    hide ThreadStep;
    var s := After(r, cfg);
    var (u, e) := ThreadStep(v.t, c);
    assert s.threads[|v.pre|] == v.t;
    assert s.threads[|v.pre| := u] == v.pre + [u] + v.post;
  }

  ghost predicate Leads(v: View, c: Choice, w: View, cfg: Config) {
    Enabled(v, c, cfg) && w == Moved(v, c)
  }

  /** n steps of thread i without trouble. */
  ghost function Steps(r: Run, i: nat, n: nat): Run {
    if n == 0 then r else Then(Steps(r, i, n - 1), Step(i, Good))
  }

  lemma {:induction false} StepsShow(r: Run, cfg: Config, stage: nat -> View, n: nat)
    requires Shows(r, cfg, stage(0))
    requires forall j: nat | j < n :: Leads(stage(j), Good, stage(j + 1), cfg)
    ensures |stage(n).pre| == |stage(0).pre| && Shows(Steps(r, |stage(0).pre|, n), cfg, stage(n))
  {
    if n > 0 {
      StepsShow(r, cfg, stage, n - 1);
      hide Shows;
      hide Enabled;
      hide ThreadStep;
      assert Leads(stage(n - 1), Good, stage(n - 1 + 1), cfg);
      StepShows(Steps(r, |stage(0).pre|, n - 1), cfg, stage(n - 1), Good);
    }
  }

  /** The threads of k messages being served: the calls that accepted them are over and their tasks at work. */
  ghost function Tasks(k: nat): seq<Thread> {
    if k == 0 then [] else Tasks(k - 1) + [Done(0, false), Serving(0, Work)]
  }

  lemma {:induction false} TasksLength(k: nat)
    ensures |Tasks(k)| == 2 * k
  {
    if k > 0 {
      TasksLength(k - 1);
    }
  }

  ghost predicate Busy(r: Run, cfg: Config, k: nat) {
    var s := After(r, cfg);
    && s.threads == Tasks(k) && s.conns == map[0 := Looping(false)]
    && s.used(Active) == k && s.used(Pipe(0)) == k && s.used(Group(0)) == k
    && PipeFailures(r, cfg) == 0
  }

  ghost predicate HasRoom(cfg: Config, k: nat) {
    && (cfg.maxActive.Some? ==> k < cfg.maxActive.value)
    && (cfg.maxPipeline.Some? ==> k < cfg.maxPipeline.value)
  }

  /** The first n deferred functions, and a call that has registered them. */
  ghost function Defers(n: nat): seq<Deferred>
    requires n <= 3
  {
    [Cancel, ReleaseActive, ReleasePipe][..n]
  }

  ghost function Call(pc: Pc, n: nat): Thread
    requires n <= 3
  {
    Accepting(0, pc, false, false, Defers(n), false)
  }

  /** A call on its way out, by a return that settled its permits or by a panic that did not. */
  ghost function Leaving(n: nat, panicking: bool): Thread
    requires n <= 3
  {
    Accepting(0, Returning, false, panicking, Defers(n), !panicking)
  }

  lemma BodySteps()
    ensures ThreadStep(Call(Reading, 0), Good) == (Call(AcquiringActive, 1), Nothing)
    ensures ThreadStep(Call(AcquiringActive, 1), Good) == (Call(AcquiringPipe, 2), Acquire(Active))
    ensures ThreadStep(Call(AcquiringPipe, 2), Good) == (Call(Adding, 3), Acquire(Pipe(0)))
    ensures ThreadStep(Call(AcquiringPipe, 2), Bad) == (Leaving(2, false), Lose(Active))
  {
    assert Defers(0) + [Cancel] == Defers(1);
    assert Defers(1) + [ReleaseActive] == Defers(2);
    assert Defers(2) + [ReleasePipe] == Defers(3);
  }

  lemma SubmitSteps()
    ensures ThreadStep(Call(Adding, 3), Good) == (Call(Submitting, 3), Acquire(Group(0)))
    ensures ThreadStep(Call(Submitting, 3), Good) == (Leaving(3, false), Spawn(Serving(0, Work)))
    ensures ThreadStep(Call(Submitting, 3), Panic) == (Leaving(3, true), Lose(Group(0)))
  {
  }

  lemma LeavingSteps(n: nat, panicking: bool)
    requires n <= 3
    ensures ThreadStep(Leaving(n, panicking), Good) ==
            if n == 0 then (Done(0, panicking), Nothing)
            else (Leaving(n - 1, panicking),
                  if n == 1 || !panicking then Nothing else Release(if n == 2 then Active else Pipe(0)))
  {
    if n > 0 {
      assert Defers(n)[..n - 1] == Defers(n - 1);
    }
  }

  /** A call of acceptTCPMsg that succeeds, entered with k messages being served; n steps into it. */
  ghost function Accepts(k: nat, n: nat): View {
    var task := [Serving(0, Work)];
    if n == 0 then View(Tasks(k), Call(Reading, 0), [], k, k, k, Looping(true), 0)
    else if n == 1 then View(Tasks(k), Call(AcquiringActive, 1), [], k, k, k, Looping(true), 0)
    else if n == 2 then View(Tasks(k), Call(AcquiringPipe, 2), [], k + 1, k, k, Looping(true), 0)
    else if n == 3 then View(Tasks(k), Call(Adding, 3), [], k + 1, k + 1, k, Looping(true), 0)
    else if n == 4 then View(Tasks(k), Call(Submitting, 3), [], k + 1, k + 1, k + 1, Looping(true), 0)
    else if n < 9 then View(Tasks(k), Leaving(8 - n, false), task, k + 1, k + 1, k + 1, Looping(true), 0)
    else View(Tasks(k), Done(0, false), task, k + 1, k + 1, k + 1, Looping(false), 0)
  }

  lemma BodyLeads(k: nat, n: nat, cfg: Config)
    requires n < 3 && (n < 2 || HasRoom(cfg, k)) && (cfg.maxActive.Some? ==> k < cfg.maxActive.value)
    ensures Leads(Accepts(k, n), Good, Accepts(k, n + 1), cfg)
  {
    BodySteps();
    hide Tasks;
    hide ThreadStep;
    hide Defers;
  }

  lemma SubmitLeads(k: nat, n: nat, cfg: Config)
    requires 3 <= n < 5
    ensures Leads(Accepts(k, n), Good, Accepts(k, n + 1), cfg)
  {
    SubmitSteps();
    hide Tasks;
    hide ThreadStep;
    hide Defers;
    assert [] + [Serving(0, Work)] == [Serving(0, Work)];
  }

  lemma LeavingLeads(k: nat, n: nat, cfg: Config)
    requires 5 <= n < 9
    ensures Leads(Accepts(k, n), Good, Accepts(k, n + 1), cfg)
  {
    LeavingSteps(8 - n, false);
    hide Tasks;
    hide ThreadStep;
    hide Defers;
  }

  lemma AcceptsLeads(k: nat, n: nat, cfg: Config)
    requires n < 9 && (n < 2 || HasRoom(cfg, k)) && (cfg.maxActive.Some? ==> k < cfg.maxActive.value)
    ensures Leads(Accepts(k, n), Good, Accepts(k, n + 1), cfg)
  {
    hide *;
    if n < 3 {
      BodyLeads(k, n, cfg);
    } else if n < 5 {
      SubmitLeads(k, n, cfg);
    } else {
      LeavingLeads(k, n, cfg);
    }
  }

  lemma EnterShows(r: Run, k: nat, cfg: Config)
    requires Busy(r, cfg, k)
    ensures Shows(Then(r, Enter(0)), cfg, Accepts(k, 0))
  {
    hide Tasks;
  }

  /** A message that is accepted and handed to a task. */
  ghost function AcceptAt(r: Run, i: nat): Run {
    Steps(Then(r, Enter(0)), i, 9)
  }

  lemma AcceptOne(r: Run, k: nat, cfg: Config)
    requires Busy(r, cfg, k) && HasRoom(cfg, k)
    ensures Busy(AcceptAt(r, 2 * k), cfg, k + 1)
  {
    assert cfg.maxActive.Some? ==> k < cfg.maxActive.value;
    hide *;
    TasksLength(k);
    EnterShows(r, k, cfg);
    var stage := (n: nat) => Accepts(k, n);
    forall n: nat | n < 9 ensures Leads(stage(n), Good, stage(n + 1), cfg) {
      AcceptsLeads(k, n, cfg);
    }
    AcceptsPre(k, 0);
    StepsShow(Then(r, Enter(0)), cfg, stage, 9);
    AcceptedIsBusy(Steps(Then(r, Enter(0)), 2 * k, 9), k, cfg);
    AcceptAtIs(r, 2 * k);
  }

  lemma AcceptAtIs(r: Run, i: nat)
    ensures AcceptAt(r, i) == Steps(Then(r, Enter(0)), i, 9)
  {
    hide Steps;
  }

  lemma AcceptsPre(k: nat, n: nat)
    ensures Accepts(k, n).pre == Tasks(k)
  {
    hide Tasks;
  }

  lemma AcceptedIsBusy(r: Run, k: nat, cfg: Config)
    requires Shows(r, cfg, Accepts(k, 9))
    ensures Busy(r, cfg, k + 1)
  {
    hide After;
    hide PipeFailures;
    assert Tasks(k + 1) == Tasks(k) + [Done(0, false)] + [Serving(0, Work)];
  }

  /** n messages being served. */
  ghost function Served(n: nat): Run {
    if n == 0 then Then(Start, Open(0)) else AcceptAt(Served(n - 1), 2 * (n - 1))
  }

  lemma OpenedIsBusy(cfg: Config)
    ensures Busy(Then(Start, Open(0)), cfg, 0)
  {
    var s := After(Start, cfg);
    assert After(Then(Start, Open(0)), cfg) == Next(s, Open(0), cfg);
    assert PipeFailures(Start, cfg) == 0;
  }

  lemma {:induction false} ServedIsBusy(n: nat, cfg: Config)
    requires cfg.maxActive.Some? ==> n <= cfg.maxActive.value
    requires cfg.maxPipeline.Some? ==> n <= cfg.maxPipeline.value
    ensures Busy(Served(n), cfg, n)
  {
    hide Busy;
    hide AcceptAt;
    if n == 0 {
      OpenedIsBusy(cfg);
    } else {
      ServedIsBusy(n - 1, cfg);
      AcceptOne(Served(n - 1), n - 1, cfg);
    }
  }

  /** One more message that waits for the pipeline semaphore, and its end when that has timed out. */
  ghost function Waiting(n: nat): Run {
    Steps(Then(Served(n), Enter(0)), 2 * n, 2)
  }

  ghost function TurnedAway(n: nat): Run {
    Steps(Then(Waiting(n), Step(2 * n, Bad)), 2 * n, 3)
  }

  ghost function Leaves(k: nat, n: nat): View {
    if n < 3 then View(Tasks(k), Leaving(2 - n, false), [], k + 1, k, k, Looping(true), 1)
    else View(Tasks(k), Done(0, false), [], k + 1, k, k, Looping(false), 1)
  }

  lemma LeavesLeads(k: nat, n: nat, cfg: Config)
    requires n < 3
    ensures Leads(Leaves(k, n), Good, Leaves(k, n + 1), cfg)
  {
    LeavingSteps(2 - n, false);
    hide Tasks;
    hide ThreadStep;
    hide Defers;
  }

  lemma WaitingShows(n: nat, cfg: Config)
    requires cfg.maxPipeline == Some(n) && (cfg.maxActive.Some? ==> n < cfg.maxActive.value)
    ensures Shows(Waiting(n), cfg, Accepts(n, 2))
  {
    TasksLength(n);
    ServedIsBusy(n, cfg);
    EnterShows(Served(n), n, cfg);
    var stage := (j: nat) => Accepts(n, j);
    forall j: nat | j < 2 ensures Leads(stage(j), Good, stage(j + 1), cfg) {
      AcceptsLeads(n, j, cfg);
    }
    hide Leads;
    hide Steps;
    hide Shows;
    hide Busy;
    StepsShow(Then(Served(n), Enter(0)), cfg, stage, 2);
  }

  lemma TurnedAwayShows(n: nat, cfg: Config)
    requires cfg.maxPipeline == Some(n) && (cfg.maxActive.Some? ==> n < cfg.maxActive.value)
    ensures Shows(TurnedAway(n), cfg, Leaves(n, 3))
  {
    TasksLength(n);
    WaitingShows(n, cfg);
    BodySteps();
    hide Shows;
    hide Steps;
    hide Waiting;
    var stage := (j: nat) => Leaves(n, j);
    forall j: nat | j < 3 ensures Leads(stage(j), Good, stage(j + 1), cfg) {
      LeavesLeads(n, j, cfg);
    }
    assert Enabled(Accepts(n, 2), Bad, cfg) && Moved(Accepts(n, 2), Bad) == Leaves(n, 0) by {
      hide ThreadStep;
      hide Tasks;
    }
    StepShows(Waiting(n), cfg, Accepts(n, 2), Bad);
    hide Leads;
    StepsShow(Then(Waiting(n), Step(2 * n, Bad)), cfg, stage, 3);
  }

  /** The last k of n tasks finish, the last one first. */
  ghost function Finished(r: Run, n: nat, k: nat): Run
    requires k <= n
  {
    if k == 0 then r else Steps(Finished(r, n, k - 1), 2 * (n - k) + 1, 5)
  }

  ghost predicate AllDone(ts: seq<Thread>) {
    forall i | 0 <= i < |ts| :: ts[i].Done?
  }

  /** The first k tasks are at work and all other threads are done; one message has been turned away. */
  ghost predicate Ending(r: Run, cfg: Config, k: nat, rest: seq<Thread>) {
    var s := After(r, cfg);
    && s.threads == Tasks(k) + rest && AllDone(rest) && s.conns == map[0 := Looping(false)]
    && PipeFailures(r, cfg) == 1
  }

  /** A task n steps into its end. */
  ghost function Ends(v: View, n: nat): View {
    if n == 0 then v.(t := Serving(0, Work))
    else if n == 1 then v.(t := Serving(0, ReleasingActive))
    else if n == 2 then v.(t := Serving(0, ReleasingPipe), active := v.active - 1)
    else if n == 3 then v.(t := Serving(0, Cancelling), active := v.active - 1, pipe := v.pipe - 1)
    else if n == 4 then v.(t := Serving(0, Finishing), active := v.active - 1, pipe := v.pipe - 1)
    else v.(t := Done(0, false), active := v.active - 1, pipe := v.pipe - 1, group := v.group - 1)
  }

  lemma EndsLeads(v: View, n: nat, cfg: Config)
    requires n < 5
    ensures Leads(Ends(v, n), Good, Ends(v, n + 1), cfg)
  {
    assert v.post + [] == v.post;
  }

  lemma EndingShows(r: Run, cfg: Config, k: nat, rest: seq<Thread>) returns (v: View)
    requires k > 0 && Ending(r, cfg, k, rest)
    ensures v.pre == Tasks(k - 1) + [Done(0, false)] && v.t == Serving(0, Work) && v.post == rest && AllDone(rest)
    ensures v.conn == Looping(false) && v.failures == 1
    ensures Shows(r, cfg, v) && Ends(v, 0) == v
    ensures Ends(v, 5) == v.(t := Done(0, false), active := v.active - 1, pipe := v.pipe - 1, group := v.group - 1)
  {
    var s := After(r, cfg);
    var pre := Tasks(k - 1) + [Done(0, false)];
    assert s.threads == pre + [Serving(0, Work)] + rest;
    v := View(pre, Serving(0, Work), rest, s.used(Active), s.used(Pipe(0)), s.used(Group(0)), Looping(false), 1);
  }

  lemma FinishOne(r: Run, cfg: Config, k: nat, rest: seq<Thread>)
    requires k > 0 && Ending(r, cfg, k, rest)
    ensures Ending(Steps(r, 2 * (k - 1) + 1, 5), cfg, k - 1, [Done(0, false), Done(0, false)] + rest)
  {
    hide *;
    TasksLength(k - 1);
    var v := EndingShows(r, cfg, k, rest);
    var stage := (n: nat) => Ends(v, n);
    forall n: nat | n < 5 ensures Leads(stage(n), Good, stage(n + 1), cfg) {
      EndsLeads(v, n, cfg);
    }
    StepsShow(r, cfg, stage, 5);
    ShowsEnding(Steps(r, 2 * (k - 1) + 1, 5), cfg, k - 1, Ends(v, 5));
  }

  lemma ShowsEnding(r: Run, cfg: Config, k: nat, v: View)
    requires Shows(r, cfg, v) && v.pre == Tasks(k) + [Done(0, false)] && v.t == Done(0, false) && AllDone(v.post)
    requires v.conn == Looping(false) && v.failures == 1
    ensures Ending(r, cfg, k, [Done(0, false), Done(0, false)] + v.post)
  {
    hide Tasks;
    hide After;
    assert v.pre + [v.t] + v.post == Tasks(k) + ([Done(0, false), Done(0, false)] + v.post);
  }

  lemma {:induction false} FinishedIsEnding(r: Run, cfg: Config, n: nat, k: nat, rest: seq<Thread>)
    returns (more: seq<Thread>)
    requires k <= n && Ending(r, cfg, n, rest)
    ensures Ending(Finished(r, n, k), cfg, n - k, more)
  {
    hide Ending;
    hide Steps;
    if k == 0 {
      more := rest;
    } else {
      more := FinishedIsEnding(r, cfg, n, k - 1, rest);
      FinishOne(Finished(r, n, k - 1), cfg, n - k + 1, more);
      more := [Done(0, false), Done(0, false)] + more;
    }
  }

  lemma AllOver(r: Run, cfg: Config, rest: seq<Thread>)
    requires Ending(r, cfg, 0, rest)
    ensures
      var s := After(r, cfg);
      Quiet(s) && s.used(Active) == 1 && s.used(Pipe(0)) == 0
  {
    var s := After(r, cfg);
    assert s.threads == [] + rest == rest;
    hide After;
    ExactAccounting(r, cfg, 0);
    QuietHoldsNothing(s.threads, Active);
    QuietHoldsNothing(s.threads, Pipe(0));
  }

  /**
    With the pipeline full, one more message waits in vain and is turned away;
    when all the others have been served, its active-request permit is still
    taken.
   */
  lemma TurnedAwayKeepsPermit(n: nat, cfg: Config)
    requires cfg.maxPipeline == Some(n) && (cfg.maxActive.Some? ==> n < cfg.maxActive.value)
    ensures !Available(cfg, Pipe(0), After(Waiting(n), cfg).used(Pipe(0)))
    ensures
      var s := After(Finished(TurnedAway(n), n, n), cfg);
      Quiet(s) && s.used(Active) == 1 && s.used(Pipe(0)) == 0
  {
    WaitingShows(n, cfg);
    TurnedAwayShows(n, cfg);
    hide TurnedAway;
    hide Waiting;
    hide Tasks;
    assert After(Waiting(n), cfg).used(Pipe(0)) == n;
    var turned := TurnedAway(n);
    assert Tasks(n) + [Done(0, false)] + [] == Tasks(n) + [Done(0, false)];
    assert Ending(turned, cfg, n, [Done(0, false)]);
    var more := FinishedIsEnding(turned, cfg, n, n, [Done(0, false)]);
    AllOver(Finished(turned, n, n), cfg, more);
  }

  /** One message whose submission panics, and nothing else. */
  ghost function SubmitPanicked(): Run {
    Steps(Then(Steps(Then(Served(0), Enter(0)), 0, 4), Step(0, Panic)), 0, 4)
  }

  ghost function Panics(n: nat): View {
    if n < 4 then
      View([], Leaving(3 - n, true), [], if n < 2 then 1 else 0, if n < 1 then 1 else 0, 1, Looping(true), 0)
    else View([], Done(0, true), [], 0, 0, 1, Draining, 0)
  }

  lemma PanicsLeads(n: nat, cfg: Config)
    requires n < 4
    ensures Leads(Panics(n), Good, Panics(n + 1), cfg)
  {
    LeavingSteps(3 - n, true);
    hide ThreadStep;
    hide Defers;
  }

  lemma SubmittingShows(cfg: Config)
    requires HasRoom(cfg, 0)
    ensures Shows(Steps(Then(Served(0), Enter(0)), 0, 4), cfg, Accepts(0, 4))
  {
    ServedIsBusy(0, cfg);
    EnterShows(Served(0), 0, cfg);
    var stage := (j: nat) => Accepts(0, j);
    forall j: nat | j < 4 ensures Leads(stage(j), Good, stage(j + 1), cfg) {
      AcceptsLeads(0, j, cfg);
    }
    hide Leads;
    hide Steps;
    hide Shows;
    hide Busy;
    StepsShow(Then(Served(0), Enter(0)), cfg, stage, 4);
  }

  lemma PanicMoves(cfg: Config)
    ensures Enabled(Accepts(0, 4), Panic, cfg) && Moved(Accepts(0, 4), Panic) == Panics(0)
  {
    SubmitSteps();
    hide ThreadStep;
    hide Defers;
  }

  lemma PanickedShows(cfg: Config)
    requires HasRoom(cfg, 0)
    ensures Shows(SubmitPanicked(), cfg, Panics(4))
  {
    SubmittingShows(cfg);
    PanicMoves(cfg);
    hide Moved;
    hide Enabled;
    hide Shows;
    hide Steps;
    var stage := (j: nat) => Panics(j);
    forall j: nat | j < 4 ensures Leads(stage(j), Good, stage(j + 1), cfg) {
      PanicsLeads(j, cfg);
    }
    var r := Steps(Then(Served(0), Enter(0)), 0, 4);
    StepShows(r, cfg, Accepts(0, 4), Panic);
    hide Leads;
    StepsShow(Then(r, Step(0, Panic)), cfg, stage, 4);
  }

  /** The panic gives both permits back and leaves the wait group at one, so that the connection waits for ever. */
  lemma SubmitPanicKeepsGroup(cfg: Config)
    requires HasRoom(cfg, 0)
    ensures
      var s := After(SubmitPanicked(), cfg);
      && Quiet(s) && s.used(Group(0)) == 1 && s.used(Active) == 0 && s.used(Pipe(0)) == 0
      && s.conns == map[0 := Draining] && Next(s, Drain(0), cfg) == s
  {
    hide *;
    PanickedShows(cfg);
    PanickedHangs(SubmitPanicked(), cfg);
  }

  lemma PanickedHangs(r: Run, cfg: Config)
    requires Shows(r, cfg, Panics(4))
    ensures
      var s := After(r, cfg);
      && Quiet(s) && s.used(Group(0)) == 1 && s.used(Active) == 0 && s.used(Pipe(0)) == 0
      && s.conns == map[0 := Draining] && Next(s, Drain(0), cfg) == s
  {
    hide After;
    hide PipeFailures;
    hide ThreadStep;
    assert After(r, cfg).threads == [Done(0, true)];
  }

  // ----- closing a connection

  ghost predicate ThreadAllowed(t: Thread, conns: map<nat, ConnState>) {
    && (t.Accepting? ==> t.conn in conns && conns[t.conn] == Looping(true))
    && (t.Serving? ==> t.conn in conns && conns[t.conn] != Closed)
  }

  ghost predicate ConnsSound(s: State) {
    && (forall i | 0 <= i < |s.threads| :: ThreadAllowed(s.threads[i], s.conns))
    && (forall i, j | 0 <= i < j < |s.threads| && s.threads[i].Accepting? && s.threads[j].Accepting? ::
          s.threads[i].conn != s.threads[j].conn)
  }

  /** A step stays on its connection, and only an accepting thread spawns a task. */
  lemma StepStays(t: Thread, c: Choice)
    ensures
      var (u, e) := ThreadStep(t, c);
      && u.conn == t.conn
      && (u.Accepting? ==> t.Accepting?)
      && (u.Serving? ==> t.Serving?)
      && (e.Spawn? ==> t.Accepting? && u.Accepting? && e.task.Serving? && e.task.conn == t.conn)
  {
  }

  lemma StepKeepsConns(s: State, i: nat, c: Choice)
    requires i < |s.threads| && ConnsSound(s)
    ensures var (u, e) := ThreadStep(s.threads[i], c); ConnsSound(Apply(s, i, u, e))
  {
    var (u, e) := ThreadStep(s.threads[i], c);
    StepStays(s.threads[i], c);
    hide ThreadStep;
    var t := Apply(s, i, u, e);
    assert ThreadAllowed(s.threads[i], s.conns);
    forall k | 0 <= k < |t.threads| ensures ThreadAllowed(t.threads[k], t.conns) {
      if k < |s.threads| {
        assert ThreadAllowed(s.threads[k], s.conns);
      }
    }
  }

  lemma DrainKeepsConns(s: State, conn: nat, cfg: Config)
    requires ConnsSound(s) && Balanced(s, Group(conn))
    ensures ConnsSound(Next(s, Drain(conn), cfg))
  {
    hide Total;
    var t := Next(s, Drain(conn), cfg);
    forall k | 0 <= k < |t.threads| ensures ThreadAllowed(t.threads[k], t.conns) {
      assert ThreadAllowed(s.threads[k], s.conns);
      WeightBelowTotal(s.threads, k, Group(conn));
    }
  }

  lemma NextKeepsConns(s: State, e: Event, cfg: Config)
    requires ConnsSound(s) && (e.Drain? ==> Balanced(s, Group(e.conn)))
    ensures ConnsSound(Next(s, e, cfg))
  {
    hide ThreadStep;
    hide Balanced;
    match e
    case Step(i, c) =>
      if i < |s.threads| {
        StepKeepsConns(s, i, c);
        hide ConnsSound;
      }
    case Drain(conn) =>
      DrainKeepsConns(s, conn, cfg);
      hide ConnsSound;
    case _ =>
      var t := Next(s, e, cfg);
      forall k | 0 <= k < |t.threads| ensures ThreadAllowed(t.threads[k], t.conns) {
        if k < |s.threads| {
          assert ThreadAllowed(s.threads[k], s.conns);
        }
      }
  }

  lemma {:induction false} ConnsAreSound(r: Run, cfg: Config)
    ensures ConnsSound(After(r, cfg))
  {
    if r.Then? {
      ConnsAreSound(r.before, cfg);
      if r.event.Drain? {
        PermitsBalance(r.before, cfg, Group(r.event.conn));
      }
      NextKeepsConns(After(r.before, cfg), r.event, cfg);
    }
  }

  /** serveTCPConn closes a connection only when none of its messages is being accepted or served. */
  lemma ClosedIsIdle(r: Run, cfg: Config, conn: nat, i: nat)
    requires
      var s := After(r, cfg);
      conn in s.conns && s.conns[conn].Closed? && i < |s.threads| && s.threads[i].conn == conn
    ensures After(r, cfg).threads[i].Done?
  {
    ConnsAreSound(r, cfg);
    assert ThreadAllowed(After(r, cfg).threads[i], After(r, cfg).conns);
  }
}
