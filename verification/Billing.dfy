/**
  The runtime billing recorder of internal/billstat.  Queries are recorded per
  device while batches of records are being uploaded; a failed upload merges its
  batch back.
 */
module Billing {

  // ----- values

  /** What the latest query of a device looked like. */
  datatype Query = Query(time: int, country: string, asn: nat, proto: nat)

  /** A record; call is the number of the Record call that its data comes from. */
  datatype RecordVal = RecordVal(query: Query, queries: int, call: nat)

  type Records = map<string, RecordVal>

  const INT32_SPAN := 0x1_0000_0000
  const INT32_MAX := 0x7FFF_FFFF

  /** Conversion to int32, which wraps around. */
  function Wrap(x: int): (w: int)
    ensures -0x8000_0000 <= w <= INT32_MAX
    ensures (w - x) % INT32_SPAN == 0
    ensures 0 <= x <= INT32_MAX ==> w == x
  {
    (x + 0x8000_0000) % INT32_SPAN - 0x8000_0000
  }

  /** Record under the mutex. */
  function AddQuery(rs: Records, dev: string, q: Query, call: nat): Records {
    if dev in rs then rs[dev := RecordVal(q, Wrap(rs[dev].queries + 1), call)]
    else rs[dev := RecordVal(q, 1, call)]
  }

  /** remergeRecords: current data wins, counts add up. */
  function Remerge(rs: Records, batch: Records): Records {
    map dev | dev in rs.Keys + batch.Keys ::
      if dev !in rs then batch[dev]
      else if dev !in batch then rs[dev]
      else rs[dev].(queries := Wrap(rs[dev].queries + batch[dev].queries))
  }

  ghost function Restrict(rs: Records, devs: set<string>): Records {
    map dev | dev in rs && dev in devs :: rs[dev]
  }

  lemma RemergeNothing(rs: Records, batch: Records)
    requires batch.Keys == {}
    ensures Remerge(rs, batch) == rs
  {
  }

  lemma RestrictEnds(rs: Records)
    ensures Restrict(rs, {}).Keys == {}
    ensures Restrict(rs, rs.Keys) == rs
  {
  }

  /** Batch entries can be merged one at a time. */
  lemma RemergeStep(rs: Records, batch: Records, done: set<string>, dev: string)
    requires dev in batch && dev !in done
    ensures Remerge(Remerge(rs, Restrict(batch, done)), map[dev := batch[dev]]) ==
            Remerge(rs, Restrict(batch, done + {dev}))
  {
    hide Wrap;
  }

  // ----- the recorder

  class Record {
    var query: Query
    var queries: int
    ghost var call: nat

    constructor (query: Query, queries: int, ghost call: nat)
      ensures this.query == query && this.queries == queries && this.call == call
    {
      this.query, this.queries, this.call := query, queries, call;
    }
  }

  ghost predicate Distinct(rs: map<string, Record>) {
    forall i, j | i in rs && j in rs && i != j :: rs[i] != rs[j]
  }

  ghost function View(rs: map<string, Record>): Records
    reads rs.Values
  {
    map dev | dev in rs :: RecordVal(rs[dev].query, rs[dev].queries, rs[dev].call)
  }

  class RuntimeRecorder {
    var records: map<string, Record>

    constructor ()
      ensures records == map[]
    {
      records := map[];
    }

    method Record(dev: string, query: Query, ghost call: nat)
      requires Distinct(records)
      modifies this, records.Values
      ensures Distinct(records)
      ensures View(records) == AddQuery(old(View(records)), dev, query, call)
      ensures forall r | r in records.Values :: r in old(records.Values) || fresh(r)
    {
      if dev !in records {
        var rec := new Record(query, 1, call);
        records := records[dev := rec];
      } else {
        var rec := records[dev];
        rec.query := query;
        rec.queries := Wrap(rec.queries + 1);
        rec.call := call;
      }
    }

    method ResetRecords() returns (batch: map<string, Record>)
      modifies this
      ensures batch == old(records) && records == map[]
    {
      batch, records := records, map[];
    }

    /** One turn of the loop in remergeRecords. */
    method MergeOne(dev: string, prev: Record)
      requires Distinct(records) && prev !in records.Values
      modifies this, if dev in records then {records[dev]} else {}
      ensures Distinct(records)
      ensures records == if dev in old(records) then old(records) else old(records)[dev := prev]
      ensures View(records) == Remerge(old(View(records)), map[dev := RecordVal(prev.query, prev.queries, prev.call)])
    {
      hide Wrap;
      if dev !in records {
        records := records[dev := prev];
      } else {
        var curr := records[dev];
        curr.queries := Wrap(curr.queries + prev.queries);
      }
    }

    /** The loop visits the batch in any order; its result does not depend on it. */
    method RemergeRecords(batch: map<string, Record>)
      requires Distinct(records) && Distinct(batch)
      requires batch.Values !! records.Values
      modifies this, records.Values
      ensures Distinct(records)
      ensures records.Values <= old(records.Values) + batch.Values
      ensures View(records) == Remerge(old(View(records)), old(View(batch)))
    {
      hide Remerge;
      hide Restrict;
      ghost var before, vals := View(records), View(batch);
      assert vals.Keys == batch.Keys;
      assert forall d | d in batch :: vals[d] == RecordVal(batch[d].query, batch[d].queries, batch[d].call);
      hide View;
      RestrictEnds(vals);
      ghost var mine := records.Values;
      ghost var done: set<string> := {};
      var todo := batch.Keys;
      RemergeNothing(before, Restrict(vals, done));
      while todo != {}
        invariant todo !! done && todo + done == batch.Keys == vals.Keys
        invariant Distinct(records)
        invariant forall d | d in records :: records[d] in mine || (d in done && records[d] == batch[d])
        invariant forall d | d in todo :: vals[d] == RecordVal(batch[d].query, batch[d].queries, batch[d].call)
        invariant View(records) == Remerge(before, Restrict(vals, done))
      {
        var dev :| dev in todo;
        var prev := batch[dev];
        MergeOne(dev, prev);
        RemergeStep(before, vals, done, dev);
        todo, done := todo - {dev}, done + {dev};
      }
    }

    /** Refresh with nothing happening during the upload. */
    method Refresh(uploaded: bool) returns (batch: map<string, Record>)
      requires Distinct(records)
      modifies this, records.Values
      ensures Distinct(records) && batch == old(records)
      ensures View(records) == if uploaded then map[] else old(View(records))
    {
      ghost var before := View(records);
      batch := ResetRecords();
      if !uploaded {
        RemergeRecords(batch);
        assert View(records) == before;
      }
    }
  }
}
