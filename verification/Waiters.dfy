// Services that wait for a probe are told when it is over.
module Waiters {
  import opened Bytes
  import opened DnsRecords
  import opened Probes
  import opened RegistryState
  import opened RegistrySteps
  import opened RegistryRuns
  import opened DnsRegistry

  predicate Waits(reg: Reg, name: bytes, service: bytes) {
    name in reg.probing && service in reg.probing[name].waiting
  }

  /** The probe for `name` is over at this poll; if it has any records, the service is among those that are woken. */
  ghost predicate IsWoken(reg: Reg, op: Op, name: bytes, service: bytes) {
    && op.Poll? && name in reg.probing
    && op.now >= reg.probing[name].nextSend && op.now >= reg.probing[name].startTime + 750
    && (reg.probing[name].records != [] ==> service in Woken(reg.probing, Over(reg.probing, op.now)))
  }

  /** Who asks for a record that is not active yet waits for the probe of its name. */
  lemma AskerWaits(reg: Reg, answer: Record, service: bytes, startTime: nat, reg': Reg)
    requires Asked(reg, answer, service, startTime, reg')
    ensures !IsActive(reg, answer) ==> Waits(reg', answer.GetName(), service)
  {
    hide Inserted, Listed;
  }

  /** One record gets a new name: all go on waiting, and those who waited for the old name wait for the new one. */
  lemma OneRehomedWaits(
    reg: Reg, from: bytes, r: Record, waiting: set<bytes>, time: nat, mid: Reg, reg': Reg, name: bytes, service: bytes)
    requires RehomedVia(reg, from, r, waiting, time, mid, reg')
    ensures Waits(reg, name, service) ==> Waits(reg', name, service)
    ensures service in waiting ==> Waits(reg', r.GetName(), service)
  {
    hide Inserted, Moved, Staying, Sorted, Record.GetName;
    if Waits(reg, name, service) {
      assert Reprobed(reg, name, from, r.GetName(), time, mid.probing[name]);
    }
  }

  lemma {:induction false} RehomedKeepsWaiting(
    reg: Reg, from: bytes, rs: seq<Record>, waiting: set<bytes>, time: nat, reg': Reg, name: bytes, service: bytes)
    requires AllRehomed(reg, from, rs, waiting, time, reg') && Waits(reg, name, service)
    ensures Waits(reg', name, service)
    decreases |rs|
  {
    hide RehomedVia, Waits, Record.GetName;
    if rs != [] {
      var n := |rs| - 1;
      var before: Reg :|
        AllRehomed(reg, from, rs[..n], waiting, time, before) && Rehomed(before, from, rs[n], waiting, time, reg');
      RehomedKeepsWaiting(reg, from, rs[..n], waiting, time, before, name, service);
      var mid: Reg :| RehomedVia(before, from, rs[n], waiting, time, mid, reg');
      OneRehomedWaits(before, from, rs[n], waiting, time, mid, reg', name, service);
    }
  }

  /** Who waits for a name waits for each new name of one of its records, too. */
  lemma {:induction false} RehomedWaits(
    reg: Reg, from: bytes, rs: seq<Record>, waiting: set<bytes>, time: nat, reg': Reg, r: Record, service: bytes)
    requires AllRehomed(reg, from, rs, waiting, time, reg') && r in rs && service in waiting
    ensures Waits(reg', r.GetName(), service)
    decreases |rs|
  {
    hide RehomedVia, Waits, Record.GetName;
    var n := |rs| - 1;
    var before: Reg :|
      AllRehomed(reg, from, rs[..n], waiting, time, before) && Rehomed(before, from, rs[n], waiting, time, reg');
    var mid: Reg :| RehomedVia(before, from, rs[n], waiting, time, mid, reg');
    if r != rs[n] {
      RehomedWaits(reg, from, rs[..n], waiting, time, before, r, service);
    }
    OneRehomedWaits(before, from, rs[n], waiting, time, mid, reg', r.GetName(), service);
  }

  lemma {:induction false} AllAnsweredWait(
    reg: Reg, answers: seq<Record>, ifIndex: u32, times: seq<nat>, reg': Reg, name: bytes, service: bytes)
    requires |times| == |answers| && AllAnswered(reg, answers, ifIndex, times, reg') && Waits(reg, name, service)
    ensures Waits(reg', name, service)
    decreases |answers|
  {
    hide AllRehomed, Harmless, RenamedRecords;
    if answers != [] {
      var n := |answers| - 1;
      var before: Reg :|
        && AllAnswered(reg, answers[..n], ifIndex, times[..n], before)
        && Answered(before, answers[n], ifIndex, times[n], reg');
      AllAnsweredWait(reg, answers[..n], ifIndex, times[..n], before, name, service);
      var from := answers[n].GetName();
      if from in before.probing && !Harmless(before.probing[from].records, answers[n], ifIndex) {
        var p := before.probing[from];
        RehomedKeepsWaiting(WithoutConflicts(before, from, answers[n]), from,
                            RenamedRecords(p.records, answers[n], from), p.waiting, times[n], reg', name, service);
      }
    }
  }

  /** A service waits on until the probe is over, and is woken then. */
  lemma StepWaits(reg: Reg, op: Op, reg': Reg, name: bytes, service: bytes)
    requires Step(reg, op, reg') && Waits(reg, name, service)
    ensures Waits(reg', name, service) || IsWoken(reg, op, name, service)
  {
    match op
    case Ask(_, _, _) => hide Inserted, Listed;
    case Conflict(answers, ifIndex, createTimes) =>
      AllAnsweredWait(reg, answers, ifIndex, createTimes, reg', name, service);
    case Poll(now) => PollWaits(reg, now, name, service);
    case Tie(_, _, _) => hide TiebreakAt;
      TieWaits(reg, op, reg', name, service);
  }

  lemma TieWaits(reg: Reg, op: Op, reg': Reg, name: bytes, service: bytes)
    requires Step(reg, op, reg') && op.Tie? && Waits(reg, name, service)
    ensures Waits(reg', name, service)
  {
  }

  lemma PollWaits(reg: Reg, now: nat, name: bytes, service: bytes)
    requires Waits(reg, name, service)
    ensures Waits(Polled(reg, now), name, service) || IsWoken(reg, Poll(now), name, service)
  {
    PolledProbe(reg, now, name);
    hide Polled;
    if now >= reg.probing[name].nextSend && reg.probing[name].Expired(now) {
      assert name in Over(reg.probing, now);
    }
  }

  /** In every run, whoever asks for a record that is not active is woken when the probe is over, or still waits. */
  lemma {:induction false} AskersAreWoken(regs: seq<Reg>, ops: seq<Op>, name: bytes, service: bytes)
    requires Segment(regs, ops) && Waits(regs[0], name, service)
    ensures Waits(regs[|ops|], name, service) || exists i :: 0 <= i < |ops| && IsWoken(regs[i], ops[i], name, service)
    decreases |ops|
  {
    hide Step, IsWoken, Waits;
    if ops != [] {
      assert Step(regs[0], ops[0], regs[1]);
      StepWaits(regs[0], ops[0], regs[1], name, service);
      SegmentRest(regs, ops);
      if Waits(regs[1], name, service) {
        AskersAreWoken(regs[1..], ops[1..], name, service);
        if i :| 0 <= i < |ops[1..]| && IsWoken(regs[1..][i], ops[1..][i], name, service) {
          assert IsWoken(regs[i + 1], ops[i + 1], name, service);
        }
      }
    }
  }

  /** The events of finished probes: one for each record that has a new name, with its original name and its type. */
  lemma {:induction false} EventsIff(rs: seq<Record>, e: NameChanged)
    ensures e in EventsIn(rs) <==>
            exists r <- rs :: r.newName == Some(e.newName) && r.name == e.original && r.rdata.Type() == e.rrType
  {
    if rs != [] {
      var front, last := rs[..|rs| - 1], rs[|rs| - 1];
      EventsIff(front, e);
      assert forall r :: r in rs <==> r in front || r == last;
    }
  }
}
