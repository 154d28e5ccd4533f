// Whole runs of a responder's registry: nothing is lost, and nothing becomes active without its probe.
module RegistryRuns {
  import opened Bytes
  import opened DnsRecords
  import opened Probes
  import opened Tiebreak
  import opened RegistryState
  import opened RegistrySteps

  datatype Op =
    | Ask(answer: Record, service: bytes, startTime: nat)
    | Conflict(answers: seq<Record>, ifIndex: u32, createTimes: seq<nat>)
    | Poll(now: nat)
    | Tie(name: bytes, authorities: seq<Record>, at: nat)

  ghost predicate Step(reg: Reg, op: Op, reg': Reg) {
    match op
    case Ask(answer, service, startTime) => Asked(reg, answer, service, startTime, reg')
    case Conflict(answers, ifIndex, createTimes) =>
      |createTimes| == |answers| && AllAnswered(reg, answers, ifIndex, createTimes, reg')
    case Poll(now) => reg' == Polled(reg, now)
    case Tie(name, authorities, now) => reg' == Tied(reg, name, authorities, now)
  }

  /** The states of a registry that starts empty. */
  ghost predicate Run(regs: seq<Reg>, ops: seq<Op>) {
    && |regs| == |ops| + 1
    && regs[0] == Reg(map[], map[], map[])
    && forall i :: 0 <= i < |ops| ==> Step(regs[i], ops[i], regs[i + 1])
  }

  /** What the operation registers that was not registered yet. */
  ghost function News(reg: Reg, op: Op): multiset<Record> {
    if op.Ask? && IsNew(reg, op.answer, op.startTime) then multiset{Core(op.answer)} else multiset{}
  }

  ghost function AllNews(regs: seq<Reg>, ops: seq<Op>): multiset<Record>
    requires |regs| == |ops| + 1
  {
    if ops == [] then multiset{}
    else AllNews(regs[..|ops|], ops[..|ops| - 1]) + News(regs[|ops| - 1], ops[|ops| - 1])
  }

  lemma StepKeeps(reg: Reg, op: Op, reg': Reg)
    requires RegOk(reg) && Step(reg, op, reg')
    ensures RegOk(reg') && Census(reg') == Census(reg) + News(reg, op)
  {
    hide RegOk, Census, Core, Asked, AllAnswered, Polled, Tied;
    match op
    case Ask(answer, service, startTime) => AskedKeeps(reg, answer, service, startTime, reg');
    case Conflict(answers, ifIndex, createTimes) => AllAnsweredKeeps(reg, answers, ifIndex, createTimes, reg');
    case Poll(now) => PolledKeeps(reg, now);
    case Tie(name, authorities, now) => TiedKeeps(reg, name, authorities, now);
  }

  /**
   * In every run each record is filed under its current name and each probe is in order, and the
   * records, counted with their multiplicity, are exactly those that were registered: conflicts,
   * renames, new SRV targets, tiebreaks and finished probes neither lose nor double one.
   */
  lemma {:induction false} NothingIsLost(regs: seq<Reg>, ops: seq<Op>)
    requires Run(regs, ops)
    ensures RegOk(regs[|ops|]) && Census(regs[|ops|]) == AllNews(regs, ops)
  {
    hide Step, News;
    if ops == [] {
      assert Census(regs[0]) == multiset{};
    } else {
      hide RegOk, Census;
      var n := |ops| - 1;
      assert Run(regs[..n + 1], ops[..n]) by { Shorter(regs, ops); }
      NothingIsLost(regs[..n + 1], ops[..n]);
      StepKeeps(regs[n], ops[n], regs[n + 1]);
    }
  }

  lemma Shorter(regs: seq<Reg>, ops: seq<Op>)
    requires Run(regs, ops) && ops != []
    ensures Run(regs[..|ops|], ops[..|ops| - 1])
  {
    hide Step;
    forall i | 0 <= i < |ops| - 1
      ensures Step(regs[..|ops|][i], ops[..|ops| - 1][i], regs[..|ops|][i + 1])
    {
      assert Step(regs[i], ops[i], regs[i + 1]);
    }
  }

  // ----- How a record becomes active -----

  predicate ActiveAs(reg: Reg, name: bytes, r: Record) {
    name in reg.active && r in reg.active[name]
  }

  /** The probe for `name` has had its 750 milliseconds, and `r` is one of its records. */
  predicate ProbedFor(reg: Reg, op: Op, name: bytes, r: Record) {
    && op.Poll? && name in reg.probing && r in reg.probing[name].records
    && op.now >= reg.probing[name].startTime + 750
  }

  lemma ActiveByProbeOnly(reg: Reg, op: Op, reg': Reg, name: bytes, r: Record)
    requires Step(reg, op, reg') && ActiveAs(reg', name, r)
    ensures ActiveAs(reg, name, r) || ProbedFor(reg, op, name, r)
  {
    match op
    case Ask(answer, service, startTime) =>
    case Conflict(answers, ifIndex, createTimes) =>
      AllAnsweredActive(reg, answers, ifIndex, createTimes, reg', name, r);
    case Poll(now) =>
    case Tie(_, _, _) =>
  }

  lemma {:induction false} AllAnsweredActive(
    reg: Reg, answers: seq<Record>, ifIndex: u32, times: seq<nat>, reg': Reg, name: bytes, r: Record)
    requires |times| == |answers| && AllAnswered(reg, answers, ifIndex, times, reg') && ActiveAs(reg', name, r)
    ensures ActiveAs(reg, name, r)
    decreases |answers|
  {
    hide AllRehomed, Harmless;
    if answers != [] {
      var n := |answers| - 1;
      var before: Reg :|
        && AllAnswered(reg, answers[..n], ifIndex, times[..n], before)
        && Answered(before, answers[n], ifIndex, times[n], reg');
      var from := answers[n].GetName();
      if from in before.probing && !Harmless(before.probing[from].records, answers[n], ifIndex) {
        var p := before.probing[from];
        AllRehomedActive(WithoutConflicts(before, from, answers[n]), from, RenamedRecords(p.records, answers[n], from),
                         p.waiting, times[n], reg', name, r);
      }
      AllAnsweredActive(reg, answers[..n], ifIndex, times[..n], before, name, r);
    }
  }

  lemma {:induction false} AllRehomedActive(
    reg: Reg, from: bytes, rs: seq<Record>, waiting: set<bytes>, time: nat, reg': Reg, name: bytes, r: Record)
    requires AllRehomed(reg, from, rs, waiting, time, reg') && ActiveAs(reg', name, r)
    ensures ActiveAs(reg, name, r)
    decreases |rs|
  {
    hide Inserted, Reprobed;
    if rs != [] {
      var n := |rs| - 1;
      var before: Reg :|
        AllRehomed(reg, from, rs[..n], waiting, time, before) && Rehomed(before, from, rs[n], waiting, time, reg');
      var mid: Reg :| RehomedVia(before, from, rs[n], waiting, time, mid, reg');
      assert reg'.active[name] == Staying(before.active[name], from);
      AllRehomedActive(reg, from, rs[..n], waiting, time, before, name, r);
    }
  }

  /** An active record got there when a probe for its name finished, 750 milliseconds or more after its start. */
  lemma {:induction false} ActiveWasProbed(regs: seq<Reg>, ops: seq<Op>, name: bytes, r: Record)
    requires Run(regs, ops) && ActiveAs(regs[|ops|], name, r)
    ensures exists j :: 0 <= j < |ops| && ProbedFor(regs[j], ops[j], name, r)
  {
    hide Step, ProbedFor;
    if ops != [] {
      var n := |ops| - 1;
      assert Step(regs[n], ops[n], regs[n + 1]);
      ActiveByProbeOnly(regs[n], ops[n], regs[n + 1], name, r);
      if !ProbedFor(regs[n], ops[n], name, r) {
        Shorter(regs, ops);
        ActiveWasProbed(regs[..n + 1], ops[..n], name, r);
        var j :| 0 <= j < n && ProbedFor(regs[..n + 1][j], ops[..n][j], name, r);
        assert ProbedFor(regs[j], ops[j], name, r);
      }
    }
  }

  // ----- The schedule of a probe in a run -----

  /** Some stretch of a run. */
  ghost predicate Segment(regs: seq<Reg>, ops: seq<Op>) {
    |regs| == |ops| + 1 && forall i :: 0 <= i < |ops| ==> Step(regs[i], ops[i], regs[i + 1])
  }

  function PollTimes(ops: seq<Op>): seq<nat> {
    if ops == [] then []
    else (if ops[0].Poll? then [ops[0].now] else []) + PollTimes(ops[1..])
  }

  /** The times of the polls at which a query for `name` goes out. */
  function SentTimes(regs: seq<Reg>, ops: seq<Op>, name: bytes): seq<nat>
    requires |regs| == |ops| + 1
  {
    if ops == [] then []
    else
      var sends := ops[0].Poll? && name in regs[0].probing && SendsQuery(regs[0].probing[name], ops[0].now);
      (if sends then [ops[0].now] else []) + SentTimes(regs[1..], ops[1..], name)
  }

  /** The probe for `name` is there all the time, until the last operation perhaps ends it, and is not started again. */
  ghost predicate OneStart(regs: seq<Reg>, name: bytes) {
    && regs != [] && name in regs[0].probing
    && forall i :: 0 <= i < |regs| - 1 ==>
         name in regs[i].probing && regs[i].probing[name].startTime == regs[0].probing[name].startTime
  }

  /** Between polls, whatever else happens, the next query of a probe moves only with a lost tiebreak. */
  lemma NextSendKept(reg: Reg, op: Op, reg': Reg, name: bytes)
    requires Step(reg, op, reg') && !op.Poll? && name in reg.probing
    ensures name in reg'.probing
    ensures var p, p' := reg.probing[name], reg'.probing[name];
            p'.nextSend == p.nextSend || (op.Tie? && p'.nextSend == p'.startTime == op.at + 1000 > p.startTime)
  {
    match op
    case Ask(_, _, _) => hide Inserted;
    case Conflict(answers, ifIndex, createTimes) => AllAnsweredNextSend(reg, answers, ifIndex, createTimes, reg', name);
    case Tie(_, _, _) => hide Yields;
  }

  lemma {:induction false} AllAnsweredNextSend(
    reg: Reg, answers: seq<Record>, ifIndex: u32, times: seq<nat>, reg': Reg, name: bytes)
    requires |times| == |answers| && AllAnswered(reg, answers, ifIndex, times, reg') && name in reg.probing
    ensures name in reg'.probing && reg'.probing[name].nextSend == reg.probing[name].nextSend
    decreases |answers|
  {
    hide Answered;
    if answers != [] {
      var n := |answers| - 1;
      var before: Reg :|
        && AllAnswered(reg, answers[..n], ifIndex, times[..n], before)
        && Answered(before, answers[n], ifIndex, times[n], reg');
      AllAnsweredNextSend(reg, answers[..n], ifIndex, times[..n], before, name);
      AnsweredStarts(before, answers[n], ifIndex, times[n], reg', name);
    }
  }

  /** A probe that is new has both its times from `time`; an old one keeps its next query, and may be started again. */
  ghost predicate StartedBy(reg: Reg, time: nat, reg': Reg, name: bytes) {
    if name in reg.probing then
      && name in reg'.probing && reg'.probing[name].nextSend == reg.probing[name].nextSend
      && reg'.probing[name].startTime in {reg.probing[name].startTime, time}
    else name in reg'.probing ==> reg'.probing[name].nextSend == reg'.probing[name].startTime == time
  }

  /** What one answer of a peer does to the times of each probe. */
  lemma AnsweredStarts(reg: Reg, answer: Record, ifIndex: u32, time: nat, reg': Reg, name: bytes)
    requires Answered(reg, answer, ifIndex, time, reg')
    ensures StartedBy(reg, time, reg', name)
  {
    hide AllRehomed, Harmless, Kept, RenamedRecords;
    var from := answer.GetName();
    if from in reg.probing && !Harmless(reg.probing[from].records, answer, ifIndex) {
      var p := reg.probing[from];
      AllRehomedStarts(WithoutConflicts(reg, from, answer), from, RenamedRecords(p.records, answer, from), p.waiting,
                       time, reg', name);
    }
  }

  lemma {:induction false} AllRehomedStarts(
    reg: Reg, from: bytes, rs: seq<Record>, waiting: set<bytes>, time: nat, reg': Reg, name: bytes)
    requires AllRehomed(reg, from, rs, waiting, time, reg')
    ensures StartedBy(reg, time, reg', name)
    decreases |rs|
  {
    hide Rehomed;
    if rs != [] {
      var n := |rs| - 1;
      var before: Reg :|
        AllRehomed(reg, from, rs[..n], waiting, time, before) && Rehomed(before, from, rs[n], waiting, time, reg');
      AllRehomedStarts(reg, from, rs[..n], waiting, time, before, name);
      RehomedStarts(before, from, rs[n], waiting, time, reg', name);
    }
  }

  lemma RehomedStarts(reg: Reg, from: bytes, r: Record, waiting: set<bytes>, time: nat, reg': Reg, name: bytes)
    requires Rehomed(reg, from, r, waiting, time, reg')
    ensures StartedBy(reg, time, reg', name)
  {
    hide Inserted, Sorted, Staying, Moving, Moved, Record.GetName;
    var mid: Reg :| RehomedVia(reg, from, r, waiting, time, mid, reg');
    if name in mid.probing {
      assert Reprobed(reg, name, from, r.GetName(), time, mid.probing[name]);
    }
  }

  lemma PolledProbe(reg: Reg, now: nat, name: bytes)
    requires name in reg.probing
    ensures var p, reg' := reg.probing[name], Polled(reg, now);
            if now < p.nextSend then name in reg'.probing && reg'.probing[name] == p
            else if p.Expired(now) then name !in reg'.probing
            else name in reg'.probing && reg'.probing[name] == p.(nextSend := now + PROBE_WAIT)
  {
  }

  /** In every run, a probe sends its queries from one start to the next as its schedule says. */
  lemma {:induction false} SentOnSchedule(regs: seq<Reg>, ops: seq<Op>, name: bytes)
    requires Segment(regs, ops) && OneStart(regs, name)
    ensures SentTimes(regs, ops, name) == Queries(regs[0].probing[name], PollTimes(ops))
    decreases |ops|
  {
    hide Step, Polled, ProbeState.Expired;
    if |ops| > 1 {
      hide OneStart, Queries, SentTimes, SendsQuery;
      RestHasOneStart(regs, ops, name);
      SegmentRest(regs, ops);
      SentOnSchedule(regs[1..], ops[1..], name);
      if ops[0].Poll? {
        StartsThere(regs, name);
        StartsThere(regs[1..], name);
        FirstPoll(regs, ops, name);
      } else {
        FirstNoPoll(regs, ops, name);
      }
    } else if |ops| == 1 {
      assert Step(regs[0], ops[0], regs[1]);
      assert ops[1..] == [];
      StepOnSchedule(regs[0], ops[0], regs[1], name);
    }
  }

  lemma StartsThere(regs: seq<Reg>, name: bytes)
    requires OneStart(regs, name)
    ensures name in regs[0].probing
  {
  }

  lemma RestHasOneStart(regs: seq<Reg>, ops: seq<Op>, name: bytes)
    requires |regs| == |ops| + 1 && |ops| > 1 && OneStart(regs, name)
    ensures OneStart(regs[1..], name)
  {
    forall i | 0 <= i < |regs[1..]| - 1
      ensures name in regs[1..][i].probing
      ensures regs[1..][i].probing[name].startTime == regs[0].probing[name].startTime
    {
      assert regs[1..][i] == regs[i + 1];
    }
  }

  lemma FirstPoll(regs: seq<Reg>, ops: seq<Op>, name: bytes)
    requires Segment(regs, ops) && |ops| > 1 && ops[0].Poll? && name in regs[0].probing && name in regs[1].probing
    requires SentTimes(regs[1..], ops[1..], name) == Queries(regs[1].probing[name], PollTimes(ops[1..]))
    ensures SentTimes(regs, ops, name) == Queries(regs[0].probing[name], PollTimes(ops))
  {
    hide Step, Polled, ProbeState.Expired, Queries, SentTimes, PollTimes, OneStart;
    var p, now, rest := regs[0].probing[name], ops[0].now, PollTimes(ops[1..]);
    assert Step(regs[0], ops[0], regs[1]);
    StepOnSchedule(regs[0], ops[0], regs[1], name);
    QueriesFirst(p, now, rest);
    FirstSent(regs, ops, name);
    PollFirst(ops);
  }

  lemma PollFirst(ops: seq<Op>)
    requires ops != [] && ops[0].Poll?
    ensures PollTimes(ops) == [ops[0].now] + PollTimes(ops[1..])
  {
  }

  lemma QueriesFirst(p: ProbeState, now: nat, rest: seq<nat>)
    ensures Queries(p, [now] + rest) == if now < p.nextSend then Queries(p, rest)
                                        else if p.Expired(now) then []
                                        else [now] + Queries(p.(nextSend := now + PROBE_WAIT), rest)
  {
    assert ([now] + rest)[1..] == rest;
  }

  lemma FirstSent(regs: seq<Reg>, ops: seq<Op>, name: bytes)
    requires |regs| == |ops| + 1 && ops != [] && ops[0].Poll? && name in regs[0].probing
    ensures SentTimes(regs, ops, name)
         == (if SendsQuery(regs[0].probing[name], ops[0].now) then [ops[0].now] else [])
            + SentTimes(regs[1..], ops[1..], name)
  {
  }

  lemma FirstNoPoll(regs: seq<Reg>, ops: seq<Op>, name: bytes)
    requires Segment(regs, ops) && OneStart(regs, name) && |ops| > 1 && !ops[0].Poll? && OneStart(regs[1..], name)
    requires SentTimes(regs[1..], ops[1..], name) == Queries(regs[1].probing[name], PollTimes(ops[1..]))
    ensures SentTimes(regs, ops, name) == Queries(regs[0].probing[name], PollTimes(ops))
  {
    hide Step, Queries;
    assert Step(regs[0], ops[0], regs[1]);
    StepOnSchedule(regs[0], ops[0], regs[1], name);
    assert PollTimes(ops) == PollTimes(ops[1..]);
    assert regs[1].probing[name].startTime == regs[0].probing[name].startTime;
    SameTimes(regs[1].probing[name], regs[0].probing[name], PollTimes(ops[1..]));
  }

  lemma StepOnSchedule(reg: Reg, op: Op, reg': Reg, name: bytes)
    requires Step(reg, op, reg') && name in reg.probing
    ensures var p := reg.probing[name];
            if op.Poll? then
              if op.now < p.nextSend then name in reg'.probing && reg'.probing[name] == p
              else if p.Expired(op.now) then name !in reg'.probing
              else name in reg'.probing && reg'.probing[name] == p.(nextSend := op.now + PROBE_WAIT)
            else
              name in reg'.probing
              && (reg'.probing[name].startTime == p.startTime ==> reg'.probing[name].nextSend == p.nextSend)
  {
    if op.Poll? {
      PolledProbe(reg, op.now, name);
    } else {
      NextSendKept(reg, op, reg', name);
    }
  }

  lemma SegmentRest(regs: seq<Reg>, ops: seq<Op>)
    requires Segment(regs, ops) && ops != []
    ensures Segment(regs[1..], ops[1..])
  {
    hide Step;
    forall i | 0 <= i < |ops[1..]|
      ensures Step(regs[1..][i], ops[1..][i], regs[1..][i + 1])
    {
      assert Step(regs[i + 1], ops[i + 1], regs[i + 2]);
    }
  }

  /**
   * In every run whose polls are in order, from one start to the next a probe whose next query is not due
   * before its start sends at most three queries, none before the start, at least 250 milliseconds apart.
   */
  lemma ThreeQueriesAStart(regs: seq<Reg>, ops: seq<Op>, name: bytes)
    requires Segment(regs, ops) && OneStart(regs, name) && Nondecreasing(PollTimes(ops))
    requires regs[0].probing[name].nextSend >= regs[0].probing[name].startTime
    ensures var sent, p := SentTimes(regs, ops, name), regs[0].probing[name];
            && |sent| <= 3 && Spaced(sent, p.startTime)
            && forall i :: 0 <= i < |sent| ==> p.startTime <= sent[i] < p.startTime + 750
  {
    SentOnSchedule(regs, ops, name);
    AtMostThreeQueries(regs[0].probing[name], PollTimes(ops));
  }

  /** A probe that a registration makes new, or that has lost a tiebreak, is of this kind. */
  lemma NewStartsTogether(reg: Reg, op: Op, reg': Reg, name: bytes)
    requires Step(reg, op, reg') && (op.Ask? || op.Tie?) && name in reg'.probing
    requires name !in reg.probing || reg'.probing[name].startTime != reg.probing[name].startTime
    ensures reg'.probing[name].nextSend == reg'.probing[name].startTime
  {
    match op
    case Ask(_, _, _) => hide Inserted;
    case Tie(_, _, _) => hide Yields;
  }

  /** So is one that a single answer of a peer makes new: RFC 6762 section 9, the new name is probed for. */
  lemma AnswerStartsTogether(reg: Reg, answer: Record, ifIndex: u32, time: nat, reg': Reg, name: bytes)
    requires Answered(reg, answer, ifIndex, time, reg') && name !in reg.probing && name in reg'.probing
    ensures reg'.probing[name].nextSend == reg'.probing[name].startTime == time
  {
    hide Answered;
    AnsweredStarts(reg, answer, ifIndex, time, reg', name);
  }

  /** The states of the registry between the answers of a response. */
  ghost predicate Answering(regs: seq<Reg>, answers: seq<Record>, ifIndex: u32, times: seq<nat>) {
    && |regs| == |answers| + 1 && |times| == |answers|
    && forall k :: 0 <= k < |answers| ==> Answered(regs[k], answers[k], ifIndex, times[k], regs[k + 1])
  }

  /** The probe for `name` is new, or has been started again. */
  predicate Starts(reg: Reg, reg': Reg, name: bytes) {
    name in reg'.probing && (name !in reg.probing || reg'.probing[name].startTime != reg.probing[name].startTime)
  }

  lemma {:induction false} ResponseHasStates(
    reg: Reg, answers: seq<Record>, ifIndex: u32, times: seq<nat>, reg': Reg) returns (regs: seq<Reg>)
    requires |times| == |answers| && AllAnswered(reg, answers, ifIndex, times, reg')
    ensures Answering(regs, answers, ifIndex, times) && regs[0] == reg && regs[|answers|] == reg'
    decreases |answers|
  {
    hide Answered;
    if answers == [] {
      regs := [reg];
    } else {
      var n := |answers| - 1;
      var before: Reg :|
        && AllAnswered(reg, answers[..n], ifIndex, times[..n], before)
        && Answered(before, answers[n], ifIndex, times[n], reg');
      regs := ResponseHasStates(reg, answers[..n], ifIndex, times[..n], before);
      regs := regs + [reg'];
    }
  }

  /**
   * Each answer of a response draws its own time. A probe that is new after the whole response sends its first
   * query at the time of the answer `i` that made it new, but starts at that of the last answer `j` that
   * started it, which is another one if an SRV record in it pointed to a host that `j` renames: it keeps to three
   * queries, none before the start, exactly if `j` did not draw the later time.
   */
  lemma {:induction false} ResponseStartsTogetherIff(
    regs: seq<Reg>, answers: seq<Record>, ifIndex: u32, times: seq<nat>, name: bytes) returns (i: nat, j: nat)
    requires Answering(regs, answers, ifIndex, times) && name !in regs[0].probing && name in regs[|answers|].probing
    ensures i <= j < |answers| && name !in regs[i].probing && name in regs[i + 1].probing
    ensures Starts(regs[j], regs[j + 1], name) && forall k :: j < k < |answers| ==> !Starts(regs[k], regs[k + 1], name)
    ensures var p := regs[|answers|].probing[name];
            && p.nextSend == times[i] && p.startTime == times[j]
            && (AlwaysAtMostThree(p) <==> times[j] <= times[i])
    decreases |answers|
  {
    hide Answered, AlwaysAtMostThree;
    var n := |answers| - 1;
    assert Answered(regs[n], answers[n], ifIndex, times[n], regs[n + 1]);
    AnsweredStarts(regs[n], answers[n], ifIndex, times[n], regs[n + 1], name);
    AtMostThreeIff(regs[n + 1].probing[name]);
    if name !in regs[n].probing {
      i, j := n, n;
    } else {
      i, j := ResponseStartsTogetherIff(regs[..n + 1], answers[..n], ifIndex, times[..n], name);
      if Starts(regs[n], regs[n + 1], name) {
        j := n;
      }
    }
  }

  /** One that a new host name starts again is of this kind exactly if its next query was not due before `time`. */
  lemma RestartIsEarlyIff(reg: Reg, host: bytes, newHost: bytes, time: nat, reg': Reg, name: bytes)
    requires HostUpdated(reg, host, newHost, time, reg') && name in reg.probing && Moved(reg, name, host, newHost) != []
    ensures name in reg'.probing && reg'.probing[name].startTime == time
    ensures AlwaysAtMostThree(reg'.probing[name]) <==> reg.probing[name].nextSend >= time
  {
    hide Moved, Staying, Sorted, AlwaysAtMostThree;
    assert Reprobed(reg, name, host, newHost, time, reg'.probing[name]);
    AtMostThreeIff(reg'.probing[name]);
  }
}
