// Records that stay under the old name when a conflict renames only others of their probe.
module StaleNames {
  import opened Bytes
  import opened DnsRecords
  import opened Probes
  import opened RegistryState
  import opened RegistrySteps
  import opened RegistryRuns
  import opened Renaming
  import opened EscapedNames
  import opened Announce

  lemma {:induction false} KeptHas(rs: seq<Record>, answer: Record, r: Record)
    requires r in rs && !Contradicts(answer, r)
    ensures r in Kept(rs, answer)
  {
    hide Contradicts;
    if rs[|rs| - 1] != r {
      KeptHas(rs[..|rs| - 1], answer, r);
    }
  }

  /** A record that an answer for its name does not contradict stays where it is. */
  lemma UncontradictedStays(reg: Reg, answer: Record, ifIndex: u32, time: nat, reg': Reg, name: bytes, r: Record)
    requires Answered(reg, answer, ifIndex, time, reg') && name in reg.probing && r in reg.probing[name].records
    requires !PointsTo(r, answer.GetName()) && (name == answer.GetName() ==> !Contradicts(answer, r))
    ensures name in reg'.probing && r in reg'.probing[name].records
  {
    hide Harmless, AllRehomed, Contradicts, RenamedRecords, Kept;
    if name != answer.GetName() {
      AnsweredLeaves(reg, answer, ifIndex, time, reg', name, r);
    } else if !Harmless(reg.probing[name].records, answer, ifIndex) {
      var p := reg.probing[name];
      KeptHas(p.records, answer, r);
      AllRehomedLeaves(WithoutConflicts(reg, name, answer), name, RenamedRecords(p.records, answer, name), p.waiting,
                       time, reg', name, r);
    }
  }

  /**
   * A conflict renames a record of the probe exactly if the answer contradicts it; SRV records aside that point to
   * the name itself or to what it is changed to.
   */
  lemma StaleIff(reg: Reg, answer: Record, ifIndex: u32, time: nat, reg': Reg, r: Record)
    requires Answered(reg, answer, ifIndex, time, reg') && answer.GetName() in reg.probing
    requires !Harmless(reg.probing[answer.GetName()].records, answer, ifIndex)
    requires r in reg.probing[answer.GetName()].records
    requires var name := answer.GetName();
             r.rdata.Srv? ==> r.rdata.host !in {name, HostChange(name), NameChange(name)}
    ensures var name := answer.GetName();
            && name in reg'.probing
            && (r in reg'.probing[name].records <==> !Contradicts(answer, r))
  {
    hide Contradicts, AllRehomed, Harmless, HostChange, NameChange;
    var name := answer.GetName();
    ConflictIsSettled(reg, answer, ifIndex, time, reg');
    AnsweredStarts(reg, answer, ifIndex, time, reg', name);
    if !Contradicts(answer, r) {
      UncontradictedStays(reg, answer, ifIndex, time, reg', name, r);
    }
  }

  /** The record is under this name, active or on its way there. */
  predicate HeldAs(reg: Reg, name: bytes, r: Record) {
    ActiveAs(reg, name, r) || (name in reg.probing && r in reg.probing[name].records)
  }

  /** No answer for the name contradicts it. */
  predicate Uncontradicted(op: Op, name: bytes, r: Record) {
    op.Conflict? ==> forall a <- op.answers :: a.GetName() == name ==> !Contradicts(a, r)
  }

  lemma {:induction false} RehomedStaysActive(
    reg: Reg, from: bytes, rs: seq<Record>, waiting: set<bytes>, time: nat, reg': Reg, name: bytes, r: Record)
    requires AllRehomed(reg, from, rs, waiting, time, reg') && ActiveAs(reg, name, r) && !r.rdata.Srv?
    ensures ActiveAs(reg', name, r)
    decreases |rs|
  {
    hide Inserted, Reprobed, Staying;
    if rs != [] {
      var n := |rs| - 1;
      var before: Reg :|
        AllRehomed(reg, from, rs[..n], waiting, time, before) && Rehomed(before, from, rs[n], waiting, time, reg');
      RehomedStaysActive(reg, from, rs[..n], waiting, time, before, name, r);
      var mid: Reg :| RehomedVia(before, from, rs[n], waiting, time, mid, reg');
      StayingHas(before.active[name], from, r);
    }
  }

  lemma AnsweredStaysActive(reg: Reg, answer: Record, ifIndex: u32, time: nat, reg': Reg, name: bytes, r: Record)
    requires Answered(reg, answer, ifIndex, time, reg') && ActiveAs(reg, name, r) && !r.rdata.Srv?
    ensures ActiveAs(reg', name, r)
  {
    hide Harmless, AllRehomed, Kept, RenamedRecords;
    var from := answer.GetName();
    if from in reg.probing && !Harmless(reg.probing[from].records, answer, ifIndex) {
      var p := reg.probing[from];
      RehomedStaysActive(WithoutConflicts(reg, from, answer), from, RenamedRecords(p.records, answer, from), p.waiting,
                         time, reg', name, r);
    }
  }

  lemma {:induction false} AllAnsweredHold(
    reg: Reg, answers: seq<Record>, ifIndex: u32, times: seq<nat>, reg': Reg, name: bytes, r: Record)
    requires |times| == |answers| && AllAnswered(reg, answers, ifIndex, times, reg') && !r.rdata.Srv?
    ensures ActiveAs(reg, name, r) ==> ActiveAs(reg', name, r)
    ensures HeldAs(reg, name, r) && (forall a <- answers :: a.GetName() == name ==> !Contradicts(a, r)) ==>
              HeldAs(reg', name, r)
    decreases |answers|
  {
    hide Answered, Contradicts, Record.GetName;
    if answers != [] {
      var n := |answers| - 1;
      var before: Reg :|
        && AllAnswered(reg, answers[..n], ifIndex, times[..n], before)
        && Answered(before, answers[n], ifIndex, times[n], reg');
      AllAnsweredHold(reg, answers[..n], ifIndex, times[..n], before, name, r);
      assert answers[n] in answers;
      if ActiveAs(before, name, r) {
        AnsweredStaysActive(before, answers[n], ifIndex, times[n], reg', name, r);
      } else if HeldAs(before, name, r) && (answers[n].GetName() == name ==> !Contradicts(answers[n], r)) {
        UncontradictedStays(before, answers[n], ifIndex, times[n], reg', name, r);
      }
    }
  }

  lemma StepHolds(reg: Reg, op: Op, reg': Reg, name: bytes, r: Record)
    requires Step(reg, op, reg') && !r.rdata.Srv?
    ensures ActiveAs(reg, name, r) ==> ActiveAs(reg', name, r)
    ensures HeldAs(reg, name, r) && Uncontradicted(op, name, r) ==> HeldAs(reg', name, r)
  {
    hide Contradicts, Sorted, Record.GetName;
    if HeldAs(reg, name, r) {
      match op
      case Ask(answer, service, startTime) => AskHolds(reg, answer, service, startTime, reg', name, r);
      case Conflict(answers, ifIndex, createTimes) =>
        AllAnsweredHold(reg, answers, ifIndex, createTimes, reg', name, r);
      case Poll(now) => PollHolds(reg, now, name, r);
      case Tie(_, _, _) => hide TiebreakAt;
    }
  }

  lemma AskHolds(reg: Reg, answer: Record, service: bytes, time: nat, reg': Reg, name: bytes, r: Record)
    requires Asked(reg, answer, service, time, reg') && HeldAs(reg, name, r)
    ensures HeldAs(reg', name, r) && (ActiveAs(reg, name, r) ==> ActiveAs(reg', name, r))
  {
    hide Listed, IsActive, Sorted, Inserted;
    if !IsActive(reg, answer) && name == answer.GetName() && name in reg.probing && r in reg.probing[name].records {
      if reg'.probing[name].records != reg.probing[name].records {
        InsertedFacts(reg.probing[name].records, answer, reg'.probing[name].records);
      }
    }
  }

  lemma PollHolds(reg: Reg, now: nat, name: bytes, r: Record)
    requires HeldAs(reg, name, r)
    ensures HeldAs(Polled(reg, now), name, r) && (ActiveAs(reg, name, r) ==> ActiveAs(Polled(reg, now), name, r))
    ensures name in Over(reg.probing, now) ==> ActiveAs(Polled(reg, now), name, r)
  {
    hide ProbeState.Expired, HasNewName;
  }

  /**
   * In every run, whatever else happens, a record that is active under a name stays there, SRV records aside; and one
   * that is probed for there gets there, if no answer for that name contradicts it.
   */
  lemma {:induction false} StaleStays(regs: seq<Reg>, ops: seq<Op>, name: bytes, r: Record)
    requires Segment(regs, ops) && !r.rdata.Srv? && HeldAs(regs[0], name, r)
    requires ActiveAs(regs[0], name, r) || forall op <- ops :: Uncontradicted(op, name, r)
    ensures HeldAs(regs[|ops|], name, r)
    ensures ActiveAs(regs[0], name, r) ==> ActiveAs(regs[|ops|], name, r)
    ensures (exists i :: 0 <= i < |ops| && ops[i].Poll? && name in Over(regs[i].probing, ops[i].now)) ==>
              ActiveAs(regs[|ops|], name, r)
    decreases |ops|
  {
    hide Step, Over, Uncontradicted, ActiveAs, HeldAs, Polled;
    if ops != [] {
      assert Step(regs[0], ops[0], regs[1]);
      HeldFacts(regs[0], name, r);
      StepHolds(regs[0], ops[0], regs[1], name, r);
      SegmentRest(regs, ops);
      HeldFacts(regs[1], name, r);
      assert ops[0] in ops;
      if ops[0].Poll? && name in Over(regs[0].probing, ops[0].now) {
        PollEnds(regs[0], ops[0], regs[1], name, r);
      }
      StaleStays(regs[1..], ops[1..], name, r);
      if i :| 0 <= i < |ops| && ops[i].Poll? && name in Over(regs[i].probing, ops[i].now) {
        if i > 0 {
          assert ops[1..][i - 1].Poll? && name in Over(regs[1..][i - 1].probing, ops[1..][i - 1].now);
        }
      }
    }
  }

  lemma HeldFacts(reg: Reg, name: bytes, r: Record)
    ensures ActiveAs(reg, name, r) ==> HeldAs(reg, name, r)
  {
  }

  lemma PollEnds(reg: Reg, op: Op, reg': Reg, name: bytes, r: Record)
    requires Step(reg, op, reg') && op.Poll? && HeldAs(reg, name, r) && name in Over(reg.probing, op.now)
    ensures ActiveAs(reg', name, r)
  {
    hide Polled, Over, ActiveAs, HeldAs;
    PollHolds(reg, op.now, name, r);
  }

  // ----- What the service asks for instead -----

  lemma {:induction false} ChangeIsKnown(
    reg: Reg, from: bytes, rs: seq<Record>, waiting: set<bytes>, time: nat, reg': Reg, original: bytes, name: bytes)
    requires AllRehomed(reg, from, rs, waiting, time, reg') && forall r <- rs :: r.GetName() == name
    requires (exists r <- rs :: r.name == original)
             || (original in reg.nameChanges && reg.nameChanges[original] == name)
    ensures original in reg'.nameChanges && reg'.nameChanges[original] == name
    decreases |rs|
  {
    hide Inserted, Reprobed, Staying, Record.GetName;
    if rs != [] {
      var n := |rs| - 1;
      var before: Reg :|
        AllRehomed(reg, from, rs[..n], waiting, time, before) && Rehomed(before, from, rs[n], waiting, time, reg');
      assert rs[n] in rs;
      var mid: Reg :| RehomedVia(before, from, rs[n], waiting, time, mid, reg');
      if rs[n].name != original {
        ChangeIsKnown(reg, from, rs[..n], waiting, time, before, original, name);
      }
    }
  }

  lemma {:induction false} RenamedAs(rs: seq<Record>, answer: Record, name: bytes)
    requires !answer.IsAddress()
    ensures forall r <- RenamedRecords(rs, answer, name) :: r.GetName() == NameChange(name)
  {
    if rs != [] {
      hide NameChange;
      RenamedAs(rs[..|rs| - 1], answer, name);
    }
  }

  /**
   * An answer contradicts the record `lost` of a service, but not its record `stale`: from then on all unique records
   * of the service but addresses are asked for under the new name, and `stale` stays under the old one.
   */
  lemma StaleIsLeftBehind(
    reg: Reg, answer: Record, ifIndex: u32, time: nat, reg': Reg, lost: Record, stale: Record, info: ServiceInfo,
    now: nat)
    requires Answered(reg, answer, ifIndex, time, reg') && answer.GetName() in reg.probing
    requires var rs := reg.probing[answer.GetName()].records;
             lost in rs && stale in rs && !Harmless(rs, answer, ifIndex)
    requires Contradicts(answer, lost) && !answer.IsAddress() && lost.name == info.fullname
    requires !Contradicts(answer, stale) && !stale.rdata.Srv?
    ensures var name := answer.GetName();
            && HeldAs(reg', name, stale)
            && SrvOf(reg', info, now).GetName() == TxtOf(reg', info, now).GetName() == NameChange(name) != name
  {
    hide Contradicts, AllRehomed, NameChange, Harmless, RenamedRecords, Record.GetName;
    var name := answer.GetName();
    var p := reg.probing[name];
    UncontradictedStays(reg, answer, ifIndex, time, reg', name, stale);
    RenamedHas(p.records, answer, name, lost);
    RenamedAs(p.records, answer, name);
    NewNamesDiffer(name);
    assert RenamedRecord(lost, name).name == info.fullname;
    ChangeIsKnown(WithoutConflicts(reg, name, answer), name, RenamedRecords(p.records, answer, name), p.waiting, time,
                  reg', info.fullname, NameChange(name));
    OwnNames(reg', info.fullname, info.hostTtl, SrvOf(reg', info, now).rdata, now);
    OwnNames(reg', info.fullname, info.otherTtl, Txt(info.text), now);
  }
}
