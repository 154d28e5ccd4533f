// Probing for one name: the sorted records, the tiebreak and the schedule of queries.
module Probes {
  import opened Bytes
  import opened DnsRecords
  import opened Tiebreak

  const PROBE_WAIT := 250
  const PROBE_TIME := 750
  const YIELD_WAIT := 1000

  /** `startTime` is the time of the first query, `nextSend` that of the next one. */
  datatype ProbeState = ProbeState(records: seq<Record>, waiting: set<bytes>, startTime: nat, nextSend: nat) {
    predicate Expired(now: nat) {
      now >= startTime + PROBE_TIME
    }
  }

  function NewProbe(startTime: nat): ProbeState {
    ProbeState([], {}, startTime, startTime)
  }

  /** The order of records in a probe: class first, then type. */
  predicate InSortOrder(a: Record, b: Record) {
    a.rrclass < b.rrclass || (a.rrclass == b.rrclass && a.rdata.Type().Code() <= b.rdata.Type().Code())
  }

  /** By class and type, as one number of 32 bits. */
  lemma SortOrderIff(a: Record, b: Record)
    ensures InSortOrder(a, b) <==>
            a.rrclass * 0x1_0000 + a.rdata.Type().Code() <= b.rrclass * 0x1_0000 + b.rdata.Type().Code()
  {
  }

  ghost predicate Sorted(rs: seq<Record>) {
    forall i, j :: 0 <= i < j < |rs| ==> InSortOrder(rs[i], rs[j])
  }

  /** A place for `rec` in `rs` that keeps the order. */
  predicate GoodPlace(rs: seq<Record>, rec: Record, pos: nat) {
    && pos <= |rs|
    && (forall i :: 0 <= i < pos ==> InSortOrder(rs[i], rec))
    && (forall i :: pos <= i < |rs| ==> InSortOrder(rec, rs[i]))
  }

  function InsertAt(rs: seq<Record>, rec: Record, pos: nat): seq<Record>
    requires pos <= |rs|
  {
    rs[..pos] + [rec] + rs[pos..]
  }

  /** `rs'` is `rs` with `rec` put in at a place that keeps the order. */
  ghost predicate Inserted(rs: seq<Record>, rec: Record, rs': seq<Record>) {
    exists pos: nat :: GoodPlace(rs, rec, pos) && rs' == InsertAt(rs, rec, pos)
  }

  lemma InsertedSorted(rs: seq<Record>, rec: Record, pos: nat)
    requires GoodPlace(rs, rec, pos) && Sorted(rs)
    ensures Sorted(InsertAt(rs, rec, pos))
  {
    hide InSortOrder;
    var rs' := InsertAt(rs, rec, pos);
    assert forall i :: 0 <= i < pos ==> rs'[i] == rs[i];
    assert forall i :: pos < i < |rs'| ==> rs'[i] == rs[i - 1];
  }

  lemma InsertedFacts(rs: seq<Record>, rec: Record, rs': seq<Record>)
    requires Inserted(rs, rec, rs')
    ensures Sorted(rs) ==> Sorted(rs')
    ensures multiset(rs') == multiset(rs) + multiset{rec}
    ensures |rs'| == |rs| + 1
    ensures forall r :: r in rs' <==> r in rs || r == rec
  {
    hide InSortOrder, Sorted;
    var pos: nat :| GoodPlace(rs, rec, pos) && rs' == InsertAt(rs, rec, pos);
    if Sorted(rs) { InsertedSorted(rs, rec, pos); }
    assert rs == rs[..pos] + rs[pos..];
    assert multiset(rs') == multiset(rs) + multiset{rec};
    forall r
      ensures r in rs' <==> r in rs || r == rec
    {
      assert r in rs' <==> r in multiset(rs');
      assert r in rs <==> r in multiset(rs);
    }
  }

  lemma OrderTransitive(a: Record, b: Record, c: Record)
    requires InSortOrder(a, b) && InSortOrder(b, c)
    ensures InSortOrder(a, c)
  {
  }

  /** Binary search for the place of a record. */
  method FindPlace(rs: seq<Record>, rec: Record) returns (pos: nat)
    requires Sorted(rs)
    ensures GoodPlace(rs, rec, pos)
  {
    var lo, hi := 0, |rs|;
    while lo < hi
      invariant 0 <= lo <= hi <= |rs|
      invariant forall i :: 0 <= i < lo ==> InSortOrder(rs[i], rec)
      invariant forall i :: hi <= i < |rs| ==> InSortOrder(rec, rs[i])
    {
      var mid := lo + (hi - lo) / 2;
      var existing := rs[mid];
      if InSortOrder(existing, rec) && InSortOrder(rec, existing) {
        SplitsAt(rs, rec, mid);
        return mid;
      } else if InSortOrder(existing, rec) {
        SplitsAt(rs, rec, mid);
        lo := mid + 1;
      } else {
        SplitsAt(rs, rec, mid);
        hi := mid;
      }
    }
    pos := lo;
  }

  lemma SplitsAt(rs: seq<Record>, rec: Record, mid: nat)
    requires Sorted(rs) && mid < |rs|
    ensures InSortOrder(rs[mid], rec) ==> forall i :: 0 <= i <= mid ==> InSortOrder(rs[i], rec)
    ensures InSortOrder(rec, rs[mid]) ==> forall i :: mid <= i < |rs| ==> InSortOrder(rec, rs[i])
    ensures InSortOrder(rs[mid], rec) || InSortOrder(rec, rs[mid])
  {
    forall i | 0 <= i <= mid && InSortOrder(rs[mid], rec)
      ensures InSortOrder(rs[i], rec)
    {
      if i < mid { OrderTransitive(rs[i], rs[mid], rec); }
    }
    forall i | mid <= i < |rs| && InSortOrder(rec, rs[mid])
      ensures InSortOrder(rec, rs[i])
    {
      if i > mid { OrderTransitive(rec, rs[mid], rs[i]); }
    }
  }

  /** RFC 6762 section 8.2: the loser of the tiebreak waits for a second and starts again. */
  function TiebreakAt(p: ProbeState, incoming: seq<Record>, now: nat): ProbeState {
    if p.startTime < now && Yields(p.records, incoming) then
      p.(startTime := now + YIELD_WAIT, nextSend := now + YIELD_WAIT)
    else p
  }

  /** RFC 6762 section 8.2: a probe that has started and loses waits for a second; nothing else changes. */
  lemma TiebreakOutcome(p: ProbeState, incoming: seq<Record>, now: nat)
    ensures var p' := TiebreakAt(p, incoming, now);
            if p.startTime < now && Yields(p.records, incoming) then
              p' == ProbeState(p.records, p.waiting, now + 1000, now + 1000)
            else p' == p
  {
  }

  lemma {:induction false} CompareSkip(a: seq<Record>, b: seq<Record>, n: nat)
    requires n <= |a| && n <= |b| && forall i :: 0 <= i < n ==> Compare(a[i], b[i]) == Equal
    ensures CompareLists(a, b) == CompareLists(a[n..], b[n..])
  {
    hide Compare;
    if n > 0 {
      assert forall i :: 0 <= i < n - 1 ==> Compare(a[1..][i], b[1..][i]) == Compare(a[i + 1], b[i + 1]);
      CompareSkip(a[1..], b[1..], n - 1);
      assert a[1..][n - 1..] == a[n..] && b[1..][n - 1..] == b[n..];
    } else {
      assert a[0..] == a && b[0..] == b;
    }
  }

  class Probe {
    var records: seq<Record>
    var waitingServices: set<bytes>
    var startTime: nat
    var nextSend: nat

    function Value(): ProbeState
      reads this
    {
      ProbeState(records, waitingServices, startTime, nextSend)
    }

    constructor (startTime: nat)
      ensures Value() == NewProbe(startTime)
    {
      records, waitingServices := [], {};
      this.startTime, nextSend := startTime, startTime;
    }

    constructor Load(p: ProbeState)
      ensures Value() == p
    {
      records, waitingServices := p.records, p.waiting;
      startTime, nextSend := p.startTime, p.nextSend;
    }

    method InsertRecord(rec: Record)
      requires Sorted(records)
      modifies this`records
      ensures Sorted(records) && Inserted(old(records), rec, records)
    {
      var pos := FindPlace(records, rec);
      records := records[..pos] + [rec] + records[pos..];
      assert Inserted(old(records), rec, records);
      InsertedFacts(old(records), rec, records);
    }

    /** `authorities` are those of the peer's query. */
    method Tiebreaking(authorities: seq<Record>, probeName: bytes, now: nat)
      modifies this`startTime, this`nextSend
      ensures Value() == TiebreakAt(old(Value()), ForName(authorities, probeName, |authorities|), now)
    {
      hide Compare;
      if startTime >= now {
        return;
      }
      var incoming: seq<Record> := [];
      for i := 0 to |authorities|
        invariant Value() == old(Value()) && incoming == ForName(authorities, probeName, i)
      {
        if authorities[i].GetName() == probeName {
          incoming := incoming + [authorities[i]];
        }
      }
      var minLen := if |records| < |incoming| then |records| else |incoming|;
      var cmpResult := Equal;
      var i := 0;
      while i < minLen && cmpResult == Equal
        invariant 0 <= i <= minLen && Value() == old(Value())
        invariant cmpResult == Equal ==> forall j :: 0 <= j < i ==> Compare(records[j], incoming[j]) == Equal
        invariant cmpResult != Equal ==> CompareLists(records, incoming) == cmpResult
      {
        cmpResult := Compare(records[i], incoming[i]);
        CompareSkip(records, incoming, i);
        i := i + 1;
      }
      if cmpResult == Equal {
        CompareSkip(records, incoming, minLen);
        cmpResult := CompareNat(|records|, |incoming|);
      }
      assert CompareLists(records, incoming) == cmpResult;
      if cmpResult == Less {
        startTime := now + YIELD_WAIT;
        nextSend := now + YIELD_WAIT;
      }
    }

    method UpdateNextSend(now: nat)
      modifies this`nextSend
      ensures Value() == old(Value()).(nextSend := now + PROBE_WAIT)
    {
      nextSend := now + 250;
    }
  }

  /** The first `n` records that are about `name`. */
  function ForName(rs: seq<Record>, name: bytes, n: nat): seq<Record>
    requires n <= |rs|
  {
    if n == 0 then []
    else ForName(rs, name, n - 1) + if rs[n - 1].GetName() == name then [rs[n - 1]] else []
  }

  // ----- The schedule -----

  predicate Nondecreasing(ts: seq<nat>) {
    forall i, j :: 0 <= i < j < |ts| ==> ts[i] <= ts[j]
  }

  /** The times of the queries that a probe sends if it is looked at at the times `polls`. */
  function Queries(p: ProbeState, polls: seq<nat>): seq<nat>
    decreases |polls|
  {
    if polls == [] then []
    else if polls[0] < p.nextSend then Queries(p, polls[1..])
    else if p.Expired(polls[0]) then []
    else [polls[0]] + Queries(p.(nextSend := polls[0] + PROBE_WAIT), polls[1..])
  }

  /** The times at which something is due, if the probe never came to an end. */
  function Dues(next: nat, polls: seq<nat>): seq<nat>
    decreases |polls|
  {
    if polls == [] then []
    else if polls[0] < next then Dues(next, polls[1..])
    else [polls[0]] + Dues(polls[0] + PROBE_WAIT, polls[1..])
  }

  /** Each time is at least 250 milliseconds behind the one before it, and the first at or after `next`. */
  ghost predicate Spaced(d: seq<nat>, next: nat) {
    && (d != [] ==> d[0] >= next)
    && forall i, j :: 0 <= i && j == i + 1 && j < |d| ==> d[j] >= d[i] + 250
  }

  lemma SpacedMore(first: nat, rest: seq<nat>, next: nat)
    requires first >= next && Spaced(rest, first + PROBE_WAIT)
    ensures Spaced([first] + rest, next)
  {
    var d := [first] + rest;
    forall i, j | 0 <= i && j == i + 1 && j < |d|
      ensures d[j] >= d[i] + PROBE_WAIT
    {
      assert d[j] == rest[i];
      if i > 0 { assert d[i] == rest[i - 1]; }
    }
  }

  lemma {:induction false} DuesSpaced(next: nat, polls: seq<nat>)
    ensures Spaced(Dues(next, polls), next)
    decreases |polls|
  {
    if polls != [] {
      if polls[0] < next {
        DuesSpaced(next, polls[1..]);
      } else {
        DuesSpaced(polls[0] + PROBE_WAIT, polls[1..]);
        SpacedMore(polls[0], Dues(polls[0] + PROBE_WAIT, polls[1..]), next);
      }
    }
  }

  /** The queries are what is due before the probe is over. */
  lemma {:induction false} QueriesAreDues(p: ProbeState, polls: seq<nat>)
    requires Nondecreasing(polls)
    ensures var q, d := Queries(p, polls), Dues(p.nextSend, polls);
            && |q| <= |d| && q == d[..|q|]
            && (forall i :: 0 <= i < |q| ==> d[i] < p.startTime + PROBE_TIME)
            && (|q| < |d| ==> d[|q|] >= p.startTime + PROBE_TIME)
    decreases |polls|
  {
    if polls != [] {
      assert Nondecreasing(polls[1..]);
      if polls[0] < p.nextSend {
        QueriesAreDues(p, polls[1..]);
      } else if !p.Expired(polls[0]) {
        QueriesAreDues(p.(nextSend := polls[0] + PROBE_WAIT), polls[1..]);
      }
    }
  }

  /** What holds of every probe: first, distance and end of its queries, and so their number. */
  lemma QueriesBound(p: ProbeState, polls: seq<nat>)
    requires Nondecreasing(polls)
    ensures var q := Queries(p, polls);
            && Spaced(q, p.nextSend)
            && (forall i :: 0 <= i < |q| ==> p.nextSend + 250 * i <= q[i] < p.startTime + 750)
  {
    QueriesAreDues(p, polls);
    DuesSpaced(p.nextSend, polls);
    var q, d := Queries(p, polls), Dues(p.nextSend, polls);
    assert forall i :: 0 <= i < |q| ==> q[i] == d[i];
    forall i | 0 <= i < |q|
      ensures q[i] >= p.nextSend + PROBE_WAIT * i
    {
      SpacedFrom(q, p.nextSend, i);
    }
  }

  lemma {:induction false} SpacedFrom(d: seq<nat>, next: nat, i: nat)
    requires Spaced(d, next) && i < |d|
    ensures d[i] >= next + PROBE_WAIT * i
  {
    if i > 0 {
      SpacedFrom(d, next, i - 1);
    }
  }

  /**
   * RFC 6762 section 8.1, for a probe whose next query is not due before its start: at most three queries,
   * none before the start, 250 milliseconds apart, all within 750.
   */
  lemma AtMostThreeQueries(p: ProbeState, polls: seq<nat>)
    requires p.nextSend >= p.startTime && Nondecreasing(polls)
    ensures var q := Queries(p, polls);
            && |q| <= 3 && Spaced(q, p.startTime)
            && (forall i :: 0 <= i < |q| ==> p.startTime <= q[i] < p.startTime + PROBE_TIME)
  {
    QueriesBound(p, polls);
    var q := Queries(p, polls);
    if q != [] { assert q[|q| - 1] >= p.nextSend + PROBE_WAIT * (|q| - 1); }
  }

  ghost predicate AlwaysAtMostThree(p: ProbeState) {
    forall polls: seq<nat> :: Nondecreasing(polls) ==> |Queries(p, polls)| <= 3
  }

  ghost predicate NeverBeforeStart(p: ProbeState) {
    forall polls: seq<nat> :: Nondecreasing(polls) ==> forall t <- Queries(p, polls) :: t >= p.startTime
  }

  lemma QueriedAt(p: ProbeState, t: nat, rest: seq<nat>)
    requires p.nextSend <= t < p.startTime + PROBE_TIME
    ensures Queries(p, [t] + rest) == [t] + Queries(p.(nextSend := t + PROBE_WAIT), rest)
  {
    assert ([t] + rest)[1..] == rest;
  }

  /** Four polls on time, for a probe that was restarted while its next query was due earlier. */
  lemma EarlyProbe(p: ProbeState) returns (polls: seq<nat>)
    requires p.nextSend < p.startTime
    ensures |polls| == 4 && polls[0] == p.nextSend && Nondecreasing(polls) && Queries(p, polls) == polls
  {
    var t := p.nextSend;
    var p1, p2, p3 := p.(nextSend := t + 250), p.(nextSend := t + 500), p.(nextSend := t + 750);
    polls := [t, t + 250, t + 500, t + 750];
    QueriedAt(p3, t + 750, []);
    QueriedAt(p2, t + 500, [t + 750]);
    QueriedAt(p1, t + 250, [t + 500, t + 750]);
    QueriedAt(p, t, [t + 250, t + 500, t + 750]);
    assert Queries(p.(nextSend := t + 1000), []) == [];
    hide Queries;
    assert [t + 750] + [] == [t + 750] && [t + 500] + [t + 750] == [t + 500, t + 750];
    assert [t + 250] + [t + 500, t + 750] == [t + 250, t + 500, t + 750];
    assert [t] + [t + 250, t + 500, t + 750] == polls;
  }

  /** Exactly if its next query is not due before its start does a probe keep to three queries, however it is polled. */
  lemma AtMostThreeIff(p: ProbeState)
    ensures AlwaysAtMostThree(p) <==> p.nextSend >= p.startTime
    ensures NeverBeforeStart(p) <==> p.nextSend >= p.startTime
  {
    hide Queries, Nondecreasing;
    if p.nextSend >= p.startTime {
      forall polls: seq<nat> | Nondecreasing(polls)
        ensures |Queries(p, polls)| <= 3 && forall t <- Queries(p, polls) :: t >= p.startTime
      {
        AtMostThreeQueries(p, polls);
      }
    } else {
      var polls := EarlyProbe(p);
      assert polls[0] in Queries(p, polls);
    }
  }

  /** Only the times of a probe matter. */
  lemma {:induction false} SameTimes(p: ProbeState, p': ProbeState, polls: seq<nat>)
    requires p.startTime == p'.startTime && p.nextSend == p'.nextSend
    ensures Queries(p, polls) == Queries(p', polls)
    decreases |polls|
  {
    if polls != [] {
      SameTimes(p, p', polls[1..]);
      SameTimes(p.(nextSend := polls[0] + PROBE_WAIT), p'.(nextSend := polls[0] + PROBE_WAIT), polls[1..]);
    }
  }

  /** How much later than due the first three queries come, in all. */
  function Lateness(d: seq<nat>, start: nat): int
    requires |d| >= 3
  {
    (d[0] - start) + (d[1] - (d[0] + PROBE_WAIT)) + (d[2] - (d[1] + PROBE_WAIT))
  }

  /**
   * The three queries of RFC 6762 section 8.1 are all sent exactly if the daemon is late for them by
   * less than 250 milliseconds in all; otherwise the probe is taken as finished with fewer.
   */
  lemma ThreeQueriesIffOnTime(p: ProbeState, polls: seq<nat>)
    requires p.nextSend == p.startTime && Nondecreasing(polls)
    requires |Dues(p.nextSend, polls)| >= 3
    ensures |Queries(p, polls)| == 3 <==> Lateness(Dues(p.nextSend, polls), p.startTime) < 250
  {
    QueriesAreDues(p, polls);
    AtMostThreeQueries(p, polls);
    DuesSpaced(p.nextSend, polls);
    var d := Dues(p.nextSend, polls);
    assert d[0] >= p.startTime && d[1] >= d[0] + PROBE_WAIT && d[2] >= d[1] + PROBE_WAIT;
  }
}
