/**
  Every interleaving of Record calls and Refresh calls of the billing recorder.
  A Refresh is two steps: it takes the pending records away, and later its upload
  is either accepted or fails and is merged back.
 */
module BillingRuns {
  import opened Billing

  datatype Status = InFlight | Accepted | Merged

  datatype Batch = Batch(recs: Records, status: Status)

  datatype State = State(pending: Records, batches: seq<Batch>)

  datatype Event = Recorded(dev: string, query: Query) | Began | Uploaded(i: nat) | Failed(i: nat)

  /** The events so far, the latest one outermost. */
  datatype Run = Start | Then(before: Run, event: Event)

  ghost function Length(r: Run): nat {
    if r.Start? then 0 else Length(r.before) + 1
  }

  predicate IsInFlight(s: State, i: nat) {
    i < |s.batches| && s.batches[i].status.InFlight?
  }

  /** The step of the n-th event. */
  function Next(s: State, e: Event, n: nat): State {
    match e
    case Recorded(dev, q) => s.(pending := AddQuery(s.pending, dev, q, n))
    case Began => State(map[], s.batches + [Batch(s.pending, InFlight)])
    case Uploaded(i) =>
      if IsInFlight(s, i) then s.(batches := s.batches[i := s.batches[i].(status := Accepted)]) else s
    case Failed(i) =>
      if IsInFlight(s, i)
      then State(Remerge(s.pending, s.batches[i].recs), s.batches[i := s.batches[i].(status := Merged)])
      else s
  }

  ghost function After(r: Run): State {
    match r
    case Start => State(map[], [])
    case Then(q, e) => Next(After(q), e, Length(q))
  }

  /** Beginning an upload takes all pending records; ending it settles that batch for good. */
  lemma UploadsSettleOnce(r: Run, i: nat)
    ensures
      var s, t := After(r), After(Then(r, Began));
      t.pending == map[] && t.batches == s.batches + [Batch(s.pending, InFlight)]
    ensures
      var s, t, u := After(r), After(Then(r, Uploaded(i))), After(Then(r, Failed(i)));
      IsInFlight(s, i) ==>
        && t.pending == s.pending && t.batches == s.batches[i := Batch(s.batches[i].recs, Accepted)]
        && u.batches == s.batches[i := Batch(s.batches[i].recs, Merged)]
        && (forall again | again in {Uploaded(i), Failed(i)} ::
              && After(Then(Then(r, Uploaded(i)), again)) == t
              && After(Then(Then(r, Failed(i)), again)) == u)
  {
    hide Remerge;
    var s := After(r);
    hide After;
    forall e: Event ensures After(Then(r, e)) == Next(s, e, Length(r)) {
      AfterIs(r, e);
    }
    forall e: Event, again: Event ensures
      After(Then(Then(r, e), again)) == Next(Next(s, e, Length(r)), again, Length(r) + 1)
    {
      AfterIs(r, e);
      AfterIs(Then(r, e), again);
    }
  }

  lemma AfterIs(r: Run, e: Event)
    ensures After(Then(r, e)) == Next(After(r), e, Length(r)) && Length(Then(r, e)) == Length(r) + 1
  {
  }

  // ----- conservation

  ghost function Calls(r: Run, dev: string): nat {
    match r
    case Start => 0
    case Then(q, e) => Calls(q, dev) + Gain(e, dev)
  }

  function Gain(e: Event, dev: string): nat {
    if e.Recorded? && e.dev == dev then 1 else 0
  }

  ghost function Count(rs: Records, dev: string): int {
    if dev in rs then rs[dev].queries else 0
  }

  /** Merged batches live on in the pending records. */
  ghost function Share(b: Batch, dev: string): int {
    if b.status.Merged? then 0 else Count(b.recs, dev)
  }

  ghost function Sum(bs: seq<Batch>, dev: string): int {
    if bs == [] then 0 else Sum(bs[..|bs| - 1], dev) + Share(bs[|bs| - 1], dev)
  }

  /** Queries in accepted uploads, in batches in flight and in pending records. */
  ghost function Accounted(s: State, dev: string): int {
    Count(s.pending, dev) + Sum(s.batches, dev)
  }

  lemma {:induction false} SumUpdate(bs: seq<Batch>, i: nat, b: Batch, dev: string)
    requires i < |bs|
    ensures Sum(bs[i := b], dev) == Sum(bs, dev) - Share(bs[i], dev) + Share(b, dev)
  {
    hide Share;
    var n := |bs| - 1;
    if i < n {
      SumUpdate(bs[..n], i, b, dev);
      assert bs[i := b][..n] == bs[..n][i := b];
    } else {
      assert bs[i := b][..n] == bs[..n];
    }
  }

  lemma SumAppend(bs: seq<Batch>, b: Batch, dev: string)
    ensures Sum(bs + [b], dev) == Sum(bs, dev) + Share(b, dev)
  {
    assert (bs + [b])[..|bs|] == bs;
  }

  /** What a step adds to the account, up to int32 wrap-around. */
  lemma StepAccount(s: State, e: Event, n: nat, dev: string)
    ensures (Accounted(Next(s, e, n), dev) - Accounted(s, dev) - Gain(e, dev)) % INT32_SPAN == 0
  {
    hide Sum;
    hide Wrap;
    match e
    case Recorded(_, _) =>
    case Began => SumAppend(s.batches, Batch(s.pending, InFlight), dev);
    case Uploaded(i) =>
      if IsInFlight(s, i) {
        SumUpdate(s.batches, i, s.batches[i].(status := Accepted), dev);
      }
    case Failed(i) =>
      if IsInFlight(s, i) {
        SumUpdate(s.batches, i, s.batches[i].(status := Merged), dev);
      }
  }

  /** Nothing is lost and nothing is counted twice, up to int32 wrap-around. */
  lemma {:induction false} Conservation(r: Run, dev: string)
    ensures (Calls(r, dev) - Accounted(After(r), dev)) % INT32_SPAN == 0
  {
    if r.Then? {
      Conservation(r.before, dev);
      var s, t := After(r.before), After(r);
      assert t == Next(s, r.event, Length(r.before));
      assert Calls(r, dev) == Calls(r.before, dev) + Gain(r.event, dev);
      hide *;
      StepAccount(s, r.event, Length(r.before), dev);
      Congruent(Calls(r.before, dev), Accounted(s, dev), Accounted(t, dev), Gain(r.event, dev));
    }
  }

  lemma Congruent(calls: int, was: int, now: int, gain: int)
    requires (calls - was) % INT32_SPAN == 0 && (now - was - gain) % INT32_SPAN == 0
    ensures (calls + gain - now) % INT32_SPAN == 0
  {
  }

  ghost predicate NonNegative(s: State, dev: string) {
    && Count(s.pending, dev) >= 0
    && forall i | 0 <= i < |s.batches| :: Count(s.batches[i].recs, dev) >= 0
  }

  lemma {:induction false} ShareBelowSum(bs: seq<Batch>, dev: string)
    requires forall i | 0 <= i < |bs| :: Count(bs[i].recs, dev) >= 0
    ensures Sum(bs, dev) >= 0
    ensures forall i | 0 <= i < |bs| :: Share(bs[i], dev) <= Sum(bs, dev)
  {
    if bs != [] {
      ShareBelowSum(bs[..|bs| - 1], dev);
    }
  }

  /** A device below the int32 limit is accounted for exactly. */
  lemma {:induction false} ExactConservation(r: Run, dev: string)
    requires Calls(r, dev) <= INT32_MAX
    ensures Accounted(After(r), dev) == Calls(r, dev)
    ensures NonNegative(After(r), dev)
  {
    if r.Then? {
      ExactConservation(r.before, dev);
      ExactStep(After(r.before), r.event, Length(r.before), dev);
    }
  }

  lemma ExactStep(s: State, e: Event, n: nat, dev: string)
    requires NonNegative(s, dev)
    requires Accounted(s, dev) + Gain(e, dev) <= INT32_MAX
    ensures NonNegative(Next(s, e, n), dev)
    ensures Accounted(Next(s, e, n), dev) == Accounted(s, dev) + Gain(e, dev)
  {
    hide Sum;
    ShareBelowSum(s.batches, dev);
    match e
    case Recorded(_, _) =>
    case Began => SumAppend(s.batches, Batch(s.pending, InFlight), dev);
    case Uploaded(i) =>
      if IsInFlight(s, i) {
        SumUpdate(s.batches, i, s.batches[i].(status := Accepted), dev);
      }
    case Failed(i) =>
      if IsInFlight(s, i) {
        assert Share(s.batches[i], dev) == Count(s.batches[i].recs, dev);
        SumUpdate(s.batches, i, s.batches[i].(status := Merged), dev);
      }
  }

  // ----- freshness

  /** The number of the latest Record call for the device, or -1. */
  ghost function Latest(r: Run, dev: string): (n: int)
    ensures n < Length(r)
  {
    match r
    case Start => -1
    case Then(q, e) => if e.Recorded? && e.dev == dev then Length(q) else Latest(q, dev)
  }

  ghost predicate Fresh(r: Run) {
    var s := After(r);
    forall dev | dev in s.pending :: s.pending[dev].call == Latest(r, dev)
  }

  ghost predicate AlwaysFresh(r: Run) {
    Fresh(r) && (r.Then? ==> AlwaysFresh(r.before))
  }

  /** Somebody newer than batch i holds the device. */
  ghost predicate Newer(s: State, i: nat, dev: string) {
    dev in s.pending || HeldAfter(s.batches, i, dev)
  }

  ghost predicate HeldAfter(bs: seq<Batch>, i: nat, dev: string) {
    exists j :: i < j < |bs| && dev in bs[j].recs
  }

  /**
    A failure is orderly when each device it brings back is either already pending
    or held by no later batch.
   */
  ghost predicate Orderly(s: State, e: Event) {
    e.Failed? && IsInFlight(s, e.i) ==>
      forall dev | dev in s.batches[e.i].recs && dev !in s.pending :: !HeldAfter(s.batches, e.i, dev)
  }

  ghost predicate AllOrderly(r: Run) {
    r.Then? ==> AllOrderly(r.before) && Orderly(After(r.before), r.event)
  }

  ghost predicate InRank(s: State, i: nat, dev: string, latest: int)
    requires i < |s.batches| && dev in s.batches[i].recs
  {
    var call := s.batches[i].recs[dev].call;
    if s.batches[i].status.Merged? then Newer(s, i, dev)
    else call <= latest && (call == latest <==> !Newer(s, i, dev))
  }

  /** What is known of one device: a holder is up to date exactly when nobody newer holds it. */
  ghost predicate Ranked(s: State, dev: string, latest: int) {
    && (dev in s.pending ==> s.pending[dev].call == latest)
    && forall i: nat | i < |s.batches| && dev in s.batches[i].recs :: InRank(s, i, dev, latest)
  }

  lemma RankedRecord(s: State, e: Event, n: nat, dev: string, latest: int)
    requires Ranked(s, dev, latest) && latest < n && e.Recorded?
    ensures Ranked(Next(s, e, n), dev, if e.dev == dev then n else latest)
  {
    hide HeldAfter;
    hide Wrap;
    var t := Next(s, e, n);
    forall i: nat | i < |t.batches| && dev in t.batches[i].recs
      ensures InRank(t, i, dev, if e.dev == dev then n else latest)
    {
      assert InRank(s, i, dev, latest);
    }
  }

  lemma RankedBegin(s: State, n: nat, dev: string, latest: int)
    requires Ranked(s, dev, latest)
    ensures Ranked(Next(s, Began, n), dev, latest)
  {
    var t := Next(s, Began, n);
    var k := |s.batches|;
    forall i: nat | i < |t.batches| && dev in t.batches[i].recs ensures InRank(t, i, dev, latest) {
      if i < k {
        assert InRank(s, i, dev, latest);
        HeldAppend(s.batches, t.batches[k], i, dev);
      }
    }
  }

  lemma HeldAppend(bs: seq<Batch>, b: Batch, i: nat, dev: string)
    requires i < |bs|
    ensures HeldAfter(bs + [b], i, dev) <==> HeldAfter(bs, i, dev) || dev in b.recs
  {
    var cs := bs + [b];
    if HeldAfter(bs, i, dev) {
      var j :| i < j < |bs| && dev in bs[j].recs;
      assert dev in cs[j].recs;
    }
    if dev in b.recs {
      assert dev in cs[|bs|].recs;
    }
  }

  lemma HeldStatus(bs: seq<Batch>, k: nat, status: Status, i: nat, dev: string)
    requires k < |bs|
    ensures HeldAfter(bs[k := bs[k].(status := status)], i, dev) <==> HeldAfter(bs, i, dev)
  {
    var cs := bs[k := bs[k].(status := status)];
    assert forall j | 0 <= j < |bs| :: cs[j].recs == bs[j].recs;
  }

  lemma RankedUpload(s: State, e: Event, n: nat, dev: string, latest: int)
    requires Ranked(s, dev, latest) && e.Uploaded?
    ensures Ranked(Next(s, e, n), dev, latest)
  {
    hide HeldAfter;
    if IsInFlight(s, e.i) {
      var t := Next(s, e, n);
      forall i: nat | i < |t.batches| && dev in t.batches[i].recs ensures InRank(t, i, dev, latest) {
        assert InRank(s, i, dev, latest);
        HeldStatus(s.batches, e.i, Accepted, i, dev);
      }
    }
  }

  lemma RankedFailure(s: State, e: Event, n: nat, dev: string, latest: int)
    requires Ranked(s, dev, latest) && e.Failed? && Orderly(s, e)
    ensures Ranked(Next(s, e, n), dev, latest)
  {
    hide HeldAfter;
    hide Wrap;
    if IsInFlight(s, e.i) {
      var t := Next(s, e, n);
      if dev in s.batches[e.i].recs {
        assert InRank(s, e.i, dev, latest);
      }
      forall i: nat | i < |t.batches| && dev in t.batches[i].recs ensures InRank(t, i, dev, latest) {
        assert InRank(s, i, dev, latest);
        HeldStatus(s.batches, e.i, Merged, i, dev);
        if i != e.i && dev in s.batches[e.i].recs && dev !in s.pending {
          assert !HeldAfter(s.batches, e.i, dev);
          NotHeld(s.batches, e.i, i, dev);
        }
      }
    }
  }

  lemma NotHeld(bs: seq<Batch>, k: nat, i: nat, dev: string)
    requires k < |bs| && i < |bs| && i != k && dev in bs[k].recs && dev in bs[i].recs
    requires !HeldAfter(bs, k, dev)
    ensures HeldAfter(bs, i, dev)
  {
  }

  lemma {:induction false} OrderlyIsRanked(r: Run, dev: string)
    requires AllOrderly(r)
    ensures Ranked(After(r), dev, Latest(r, dev))
  {
    if r.Then? {
      OrderlyIsRanked(r.before, dev);
      var s, n, latest := After(r.before), Length(r.before), Latest(r.before, dev);
      assert After(r) == Next(s, r.event, n);
      hide Ranked;
      hide Next;
      hide Orderly;
      match r.event
      case Recorded(_, _) => RankedRecord(s, r.event, n, dev, latest);
      case Began => RankedBegin(s, n, dev, latest);
      case Uploaded(_) => RankedUpload(s, r.event, n, dev, latest);
      case Failed(_) => RankedFailure(s, r.event, n, dev, latest);
    }
  }

  /** A disorderly failure after an orderly run brings stale data back. */
  lemma DisorderlyIsStale(r: Run, e: Event)
    requires AllOrderly(r) && !Orderly(After(r), e)
    ensures !Fresh(Then(r, e))
  {
    hide HeldAfter;
    hide Wrap;
    hide AllOrderly;
    var s := After(r);
    var dev :| dev in s.batches[e.i].recs && dev !in s.pending && HeldAfter(s.batches, e.i, dev);
    OrderlyIsRanked(r, dev);
    assert InRank(s, e.i, dev, Latest(r, dev));
    var t := After(Then(r, e));
    assert t == Next(s, e, Length(r));
    assert t.pending[dev] == s.batches[e.i].recs[dev];
  }

  /** Pending records always carry the latest data if and only if every failure is orderly. */
  lemma {:induction false} FreshIffOrderly(r: Run)
    ensures AlwaysFresh(r) <==> AllOrderly(r)
  {
    if r.Then? {
      FreshIffOrderly(r.before);
      if AllOrderly(r.before) && !Orderly(After(r.before), r.event) {
        DisorderlyIsStale(r.before, r.event);
      }
    }
    if AllOrderly(r) {
      forall dev | dev in After(r).pending ensures After(r).pending[dev].call == Latest(r, dev) {
        OrderlyIsRanked(r, dev);
      }
    }
  }

  // ----- one refresh at a time

  ghost predicate Idle(s: State) {
    forall i: nat | i < |s.batches| :: !IsInFlight(s, i)
  }

  ghost predicate OneAtATime(r: Run) {
    r.Then? ==> OneAtATime(r.before) && (r.event.Began? ==> Idle(After(r.before)))
  }

  lemma {:induction false} OneAtATimeIsOrderly(r: Run)
    requires OneAtATime(r)
    ensures AllOrderly(r)
    ensures OnlyLast(After(r))
  {
    if r.Then? {
      OneAtATimeIsOrderly(r.before);
      OnlyLastStep(After(r.before), r.event, Length(r.before));
    }
  }

  ghost predicate OnlyLast(s: State) {
    forall i: nat | i < |s.batches| && IsInFlight(s, i) :: i == |s.batches| - 1
  }

  lemma OnlyLastStep(s: State, e: Event, n: nat)
    requires OnlyLast(s) && (e.Began? ==> Idle(s))
    ensures OnlyLast(Next(s, e, n)) && Orderly(s, e)
  {
    var t := Next(s, e, n);
    forall i: nat | i < |t.batches| && IsInFlight(t, i) ensures i == |t.batches| - 1 {
      assert i < |s.batches| ==> IsInFlight(s, i);
    }
  }

  ghost function EventAt(r: Run, n: nat): Event
    requires n < Length(r)
  {
    if n == Length(r.before) then r.event else EventAt(r.before, n)
  }

  /** Each record carries the data of the call it names. */
  ghost predicate Genuine(r: Run, rs: Records) {
    forall dev | dev in rs ::
      rs[dev].call < Length(r) && EventAt(r, rs[dev].call) == Recorded(dev, rs[dev].query)
  }

  lemma {:induction false} RecordsAreGenuine(r: Run)
    ensures Genuine(r, After(r).pending)
    ensures forall i | 0 <= i < |After(r).batches| :: Genuine(r, After(r).batches[i].recs)
  {
    hide Wrap;
    if r.Then? {
      RecordsAreGenuine(r.before);
    }
  }

  /** With at most one Refresh in flight, a pending record shows the device's latest query. */
  lemma PendingShowsLatestQuery(r: Run, dev: string)
    requires OneAtATime(r) && dev in After(r).pending
    ensures 0 <= Latest(r, dev)
    ensures EventAt(r, Latest(r, dev)) == Recorded(dev, After(r).pending[dev].query)
  {
    OneAtATimeIsOrderly(r);
    FreshIffOrderly(r);
    RecordsAreGenuine(r);
  }

  /** Overlapping refreshes can bring old data back over newer. */
  lemma OverlapCanBeStale(dev: string, older: Query, newer: Query)
    ensures
      var later := Then(Then(Then(Start, Recorded(dev, older)), Began), Recorded(dev, newer));
      !Fresh(Then(Then(later, Began), Failed(0)))
  {
    var r1 := Then(Start, Recorded(dev, older));
    var r2 := Then(r1, Began);
    var r3 := Then(r2, Recorded(dev, newer));
    var r4 := Then(r3, Began);
    var x, y := map[dev := RecordVal(older, 1, 0)], map[dev := RecordVal(newer, 1, 2)];
    assert After(r1) == State(x, []) by { assert Length(Start) == 0; }
    assert After(r2) == State(map[], [Batch(x, InFlight)]);
    assert After(r3) == State(y, [Batch(x, InFlight)]);
    assert After(r4) == State(map[], [Batch(x, InFlight), Batch(y, InFlight)]);
    assert Latest(r4, dev) == 2;
    var s := After(Then(r4, Failed(0)));
    assert s == Next(After(r4), Failed(0), 4);
    assert s.pending[dev].call == 0;
  }

  // ----- the code in a run

  /** The records of a batch in flight are its own. */
  ghost predicate Flying(rec: RuntimeRecorder, batch: map<string, Record>, recs: Records)
    reads rec, batch.Values
  {
    Distinct(batch) && View(batch) == recs && batch.Values !! rec.records.Values
  }

  ghost function AllRecords(batches: seq<map<string, Record>>): set<object> {
    set i, r | 0 <= i < |batches| && r in batches[i].Values :: r
  }

  lemma AllRecordsSnoc(batches: seq<map<string, Record>>, batch: map<string, Record>)
    ensures AllRecords(batches + [batch]) <= AllRecords(batches) + batch.Values
  {
  }

  lemma BatchIsRecorded(batches: seq<map<string, Record>>, i: nat)
    requires i < |batches|
    ensures batches[i].Values <= AllRecords(batches)
  {
  }

  /** A batch that is being uploaded is what it was when it was taken, whatever has been recorded since. */
  ghost predicate Shows(rec: RuntimeRecorder, batches: seq<map<string, Record>>, statuses: seq<Status>, s: State)
    reads rec, rec.records.Values, AllRecords(batches)
  {
    && Distinct(rec.records) && View(rec.records) == s.pending && |batches| == |statuses| == |s.batches|
    && (forall i | 0 <= i < |batches| :: statuses[i] == s.batches[i].status)
    && (forall i | 0 <= i < |batches| && statuses[i].InFlight? :: Flying(rec, batches[i], s.batches[i].recs))
    && (forall i, j | 0 <= i < j < |batches| && statuses[i].InFlight? && statuses[j].InFlight? ::
          batches[i].Values !! batches[j].Values)
  }

  method StepRecord(
    rec: RuntimeRecorder, batches: seq<map<string, Record>>, statuses: seq<Status>, dev: string, q: Query,
    ghost n: nat, ghost s: State)
    requires Shows(rec, batches, statuses, s)
    modifies rec, rec.records.Values
    ensures Shows(rec, batches, statuses, Next(s, Recorded(dev, q), n))
    ensures forall r | r in rec.records.Values :: r in old(rec.records.Values) || fresh(r)
  {
    hide AddQuery;
    hide View;
    rec.Record(dev, q, n);
  }

  method StepBegin(
    rec: RuntimeRecorder, batches: seq<map<string, Record>>, statuses: seq<Status>, ghost n: nat, ghost s: State)
    returns (batches': seq<map<string, Record>>, statuses': seq<Status>)
    requires Shows(rec, batches, statuses, s)
    modifies rec
    ensures Shows(rec, batches', statuses', Next(s, Began, n))
    ensures rec.records == map[] && batches' == batches + [old(rec.records)]
  {
    var batch := rec.ResetRecords();
    batches', statuses' := batches + [batch], statuses + [InFlight];
  }

  method StepMerge(
    rec: RuntimeRecorder, batches: seq<map<string, Record>>, statuses: seq<Status>, i: nat, ghost n: nat,
    ghost s: State)
    returns (statuses': seq<Status>)
    requires Shows(rec, batches, statuses, s) && i < |batches| && statuses[i].InFlight?
    modifies rec, rec.records.Values
    ensures Shows(rec, batches, statuses', Next(s, Failed(i), n))
    ensures rec.records.Values <= old(rec.records.Values) + batches[i].Values
  {
    assert Flying(rec, batches[i], s.batches[i].recs);
    hide View;
    hide Remerge;
    rec.RemergeRecords(batches[i]);
    statuses' := statuses[i := Merged];
  }

  /** Any run of the code, its uploads overlapping as they may, is in the state that the laws are about. */
  method Execute(rec: RuntimeRecorder, r: Run) returns (batches: seq<map<string, Record>>, statuses: seq<Status>)
    requires rec.records == map[]
    modifies rec
    ensures Shows(rec, batches, statuses, After(r))
    ensures fresh(rec.records.Values) && fresh(AllRecords(batches))
    decreases r
  {
    if r.Start? {
      batches, statuses := [], [];
      return;
    }
    batches, statuses := Execute(rec, r.before);
    ghost var n, s := Length(r.before), After(r.before);
    assert After(r) == Next(s, r.event, n);
    hide After;
    hide AllRecords;
    match r.event
    case Recorded(dev, q) => StepRecord(rec, batches, statuses, dev, q, n, s);
    case Began =>
      AllRecordsSnoc(batches, rec.records);
      batches, statuses := StepBegin(rec, batches, statuses, n, s);
    case Uploaded(i) =>
      if i < |statuses| && statuses[i].InFlight? {
        statuses := statuses[i := Accepted];
      }
    case Failed(i) =>
      if i < |statuses| && statuses[i].InFlight? {
        BatchIsRecorded(batches, i);
        statuses := StepMerge(rec, batches, statuses, i, n, s);
      }
  }
}
