// The registry of a responder on one interface: probing, conflicts, renames and what is active.
module DnsRegistry {
  import opened Bytes
  import opened DnsRecords
  import opened Probes
  import opened RegistryState
  import opened RegistrySteps
  import opened Renaming
  import opened HostRewrite

  method Find(rs: seq<Record>, answer: Record) returns (found: bool)
    ensures found <==> Listed(rs, answer)
  {
    for i := 0 to |rs|
      invariant forall r <- rs[..i] :: !answer.Matches(r)
    {
      if answer.Matches(rs[i]) {
        return true;
      }
      assert rs[..i + 1] == rs[..i] + [rs[i]];
    }
    assert rs[..|rs|] == rs;
    return false;
  }

  /** Divides the records of a probe into those that stay and those that need a new name. */
  method TakeConflicts(rs: seq<Record>, answer: Record, name: bytes) returns (kept: seq<Record>, renamed: seq<Record>)
    ensures kept == Kept(rs, answer) && renamed == RenamedRecords(rs, answer, name)
  {
    hide Contradicts, HostChange, NameChange;
    kept, renamed := [], [];
    for i := 0 to |rs|
      invariant kept == Kept(rs[..i], answer) && renamed == RenamedRecords(rs[..i], answer, name)
    {
      assert rs[..i + 1][..i] == rs[..i];
      if Contradicts(answer, rs[i]) {
        var newName := if rs[i].IsAddress() then HostChange(name) else NameChange(name);
        renamed := renamed + [rs[i].SetNewName(newName)];
      } else {
        kept := kept + [rs[i]];
      }
    }
    assert rs[..|rs|] == rs;
  }

  /** There is a timer for the first query of each new probe; for the others, nothing is due at another time. */
  ghost predicate NewOnesTimed(before: map<bytes, ProbeState>, after: map<bytes, ProbeState>, timers: seq<nat>) {
    && before.Keys <= after.Keys
    && forall n <- after ::
         if n in before then after[n].nextSend == before[n].nextSend else after[n].nextSend in timers
  }

  lemma SameTimed(a: map<bytes, ProbeState>, b: map<bytes, ProbeState>)
    requires a.Keys == b.Keys && forall n <- a :: a[n].nextSend == b[n].nextSend
    ensures NewOnesTimed(a, b, [])
  {
  }

  lemma TimedInTwoSteps(
    a: map<bytes, ProbeState>, b: map<bytes, ProbeState>, c: map<bytes, ProbeState>, timers: seq<nat>, more: seq<nat>)
    requires NewOnesTimed(a, b, timers) && NewOnesTimed(b, c, more)
    ensures NewOnesTimed(a, c, timers + more)
  {
  }

  lemma AllRehomedMore(
    reg: Reg, name: bytes, rs: seq<Record>, i: nat, waiting: set<bytes>, time: nat, before: Reg, reg': Reg)
    requires i < |rs|
    requires AllRehomed(reg, name, rs[..i], waiting, time, before) && Rehomed(before, name, rs[i], waiting, time, reg')
    ensures AllRehomed(reg, name, rs[..i + 1], waiting, time, reg')
  {
    hide Rehomed;
    assert rs[..i + 1][..i] == rs[..i];
  }

  lemma AllAnsweredMore(
    reg: Reg, answers: seq<Record>, i: nat, ifIndex: u32, times: seq<nat>, before: Reg, reg': Reg)
    requires i < |answers| == |times|
    requires AllAnswered(reg, answers[..i], ifIndex, times[..i], before)
    requires Answered(before, answers[i], ifIndex, times[i], reg')
    ensures AllAnswered(reg, answers[..i + 1], ifIndex, times[..i + 1], reg')
  {
    hide Answered;
    assert answers[..i + 1][..i] == answers[..i] && times[..i + 1][..i] == times[..i];
  }

  function Elements(names: seq<bytes>): set<bytes> {
    set n | n in names
  }

  predicate NoneTwice(names: seq<bytes>) {
    forall i, j :: 0 <= i < j < |names| ==> names[i] != names[j]
  }

  /** RFC 6762 section 8.2: the Authority Section holds all records that are probed for. */
  function RecordsOf(probing: map<bytes, ProbeState>, names: seq<bytes>): seq<Record>
    requires forall n <- names :: n in probing
  {
    if names == [] then []
    else RecordsOf(probing, names[..|names| - 1]) + probing[names[|names| - 1]].records
  }

  /** One question for each name in `asked`: those whose next query is due, and no name twice. */
  ghost predicate Asks(
    probing: map<bytes, ProbeState>, now: nat, asked: seq<bytes>, questions: seq<Question>, authorities: seq<Record>)
  {
    && NoneTwice(asked)
    && (forall n :: n in asked <==> n in probing && SendsQuery(probing[n], now))
    && questions == Questions(asked)
    && authorities == RecordsOf(probing, asked)
  }

  function Questions(names: seq<bytes>): seq<Question> {
    seq(|names|, i requires 0 <= i < |names| => Question(names[i], ANY, 1, false))
  }

  class DnsRegistry {
    var probing: map<bytes, ProbeState>
    var active: Records
    var newTimers: seq<nat>
    var nameChanges: map<bytes, bytes>

    function Value(): Reg
      reads this
    {
      Reg(probing, active, nameChanges)
    }

    constructor ()
      ensures Value() == Reg(map[], map[], map[]) && newTimers == []
    {
      probing, active, newTimers, nameChanges := map[], map[], [], map[];
    }

    /** Whether `answer` may be used; if not, its name is being probed for it from now on. */
    method IsProbingDone(answer: Record, service: bytes, startTime: nat) returns (done: bool)
      requires RegOk(Value())
      modifies this`probing, this`newTimers
      ensures RegOk(Value())
      ensures Asked(old(Value()), answer, service, startTime, Value())
      ensures done == IsActive(old(Value()), answer)
      ensures newTimers == old(newTimers) + if done then [] else [probing[answer.GetName()].nextSend]
    {
      hide Record.Matches, Sorted, Inserted, Listed, Filed, Record.GetName;
      var name := answer.GetName();
      if name in active {
        var found := Find(active[name], answer);
        if found {
          return true;
        }
      }
      EmptySorted();
      var p := if name in probing then probing[name] else NewProbe(startTime);
      newTimers := newTimers + [p.nextSend];
      var found := Find(p.records, answer);
      if found {
        probing := probing[name := p.(waiting := p.waiting + {service})];
      } else {
        var probe := new Probe.Load(p);
        probe.InsertRecord(answer);
        probe.waitingServices := probe.waitingServices + {service};
        probing := probing[name := probe.Value()];
      }
      AskedKeeps(old(Value()), answer, service, startTime, Value());
      return false;
    }

    /** Puts records into the probes for their names, which start again or are new. */
    method ProbeAgain(records: seq<Record>, probeTime: nat) returns (newTimerAdded: bool)
      requires AllSorted(probing)
      modifies this`probing
      ensures Placed(old(probing), records, probeTime, probing)
      ensures newTimerAdded <==> exists n <- probing :: n !in old(probing)
    {
      hide Record.GetName, Sorted, Placed, Inserted;
      newTimerAdded := false;
      NonePlaced(probing, probeTime);
      EmptySorted();
      for i := 0 to |records|
        invariant Placed(old(probing), records[..i], probeTime, probing) && AllSorted(probing)
        invariant newTimerAdded <==> exists n <- probing :: n !in old(probing)
        invariant old(probing).Keys <= probing.Keys
      {
        var record := records[i];
        var name := record.GetName();
        var probe: Probe;
        if name in probing {
          probe := new Probe.Load(probing[name]);
          probe.startTime := probeTime;
        } else {
          probe := new Probe(probeTime);
          newTimerAdded := true;
        }
        probe.InsertRecord(record);
        PlacedMore(old(probing), records[..i], probeTime, probing, record, probe.Value());
        assert records[..i + 1] == records[..i] + [record];
        probing := probing[name := probe.Value()];
      }
      assert records[..|records|] == records;
    }

    /** Looks for SRV records that point to `original` and probes for them anew with the new target. */
    method UpdateHostname(original: bytes, newName: bytes, probeTime: nat) returns (newTimerAdded: bool)
      requires RegOk(Value())
      modifies this`probing, this`active
      ensures RegOk(Value())
      ensures HostUpdated(old(Value()), original, newName, probeTime, Value())
      ensures newTimerAdded <==> exists n <- probing :: n !in old(probing)
    {
      hide Record.GetName, Sorted, Filed, Staying, Moving, FoundUnder, Placed, Inserted, HostUpdated;
      ghost var before := Value();
      var keptRecords, found := TakeAllPointers(RecordsIn(probing), original, newName);
      var kept := map n | n in probing :: probing[n].(records := keptRecords[n]);
      var keptActive, found' := TakeAllPointers(active, original, newName);
      KeptInOrder(before, kept, original);
      probing, active := kept, keptActive;
      newTimerAdded := ProbeAgain(found + found', probeTime);
      PlacedIsUpdated(before, Value(), kept, found, found', original, newName, probeTime);
      HostUpdateKeeps(before, original, newName, probeTime, Value());
    }

    /** Adds a renamed record to the probe for its new name. */
    method Insert(record: Record, createTime: nat, waiting: set<bytes>) returns (timers: seq<nat>)
      requires AllSorted(probing)
      modifies this`probing
      ensures Joined(old(probing), record, createTime, waiting, probing)
      ensures NewOnesTimed(old(probing), probing, timers)
    {
      hide Record.GetName, Sorted, Inserted;
      timers := [];
      var newName := record.GetName();
      var probe: Probe;
      if newName in probing {
        probe := new Probe.Load(probing[newName]);
      } else {
        EmptySorted();
        probe := new Probe(createTime);
        timers := timers + [probe.nextSend];
      }
      probe.InsertRecord(record);
      probe.waitingServices := probe.waitingServices + waiting;
      probing := probing[newName := probe.Value()];
    }

    /** Probes for a renamed record; `name` is the name it had. */
    method Rehome(record: Record, name: bytes, createTime: nat, waiting: set<bytes>) returns (timers: seq<nat>)
      requires RegOk(Value())
      modifies this`probing, this`active, this`nameChanges
      ensures RegOk(Value())
      ensures Rehomed(old(Value()), name, record, waiting, createTime, Value())
      ensures NewOnesTimed(old(probing), probing, timers)
    {
      hide Record.GetName, Sorted, Filed, Joined, HostUpdated, NewOnesTimed;
      var newName := record.GetName();
      var added := UpdateHostname(name, newName, createTime);
      timers := if added then [createTime] else [];
      ghost var mid := Value();
      HostUpdatedTimes(old(Value()), name, newName, createTime, mid, added);
      nameChanges := nameChanges[record.name := newName];
      var more := Insert(record, createTime, waiting);
      TimedInTwoSteps(old(probing), mid.probing, probing, timers, more);
      timers := timers + more;
      JoinedIsRehomed(old(Value()), name, record, waiting, createTime, mid, Value());
      RehomedKeeps(old(Value()), name, record, waiting, createTime, mid, Value());
    }

    method RehomeAll(records: seq<Record>, name: bytes, createTime: nat, waiting: set<bytes>) returns (timers: seq<nat>)
      requires RegOk(Value())
      modifies this`probing, this`active, this`nameChanges
      ensures RegOk(Value())
      ensures AllRehomed(old(Value()), name, records, waiting, createTime, Value())
      ensures NewOnesTimed(old(probing), probing, timers)
    {
      hide RegOk, Rehomed, NewOnesTimed;
      timers := [];
      SameTimed(probing, probing);
      for i := 0 to |records|
        invariant RegOk(Value())
        invariant AllRehomed(old(Value()), name, records[..i], waiting, createTime, Value())
        invariant NewOnesTimed(old(probing), probing, timers)
      {
        ghost var before := Value();
        var more := Rehome(records[i], name, createTime, waiting);
        AllRehomedMore(old(Value()), name, records, i, waiting, createTime, before, Value());
        TimedInTwoSteps(old(probing), before.probing, probing, timers, more);
        timers := timers + more;
      }
      assert records[..|records|] == records;
    }

    /** One answer of a peer's response. */
    method HandleAnswer(answer: Record, ifIndex: u32, createTime: nat) returns (timers: seq<nat>)
      requires RegOk(Value())
      modifies this`probing, this`active, this`nameChanges
      ensures RegOk(Value())
      ensures Answered(old(Value()), answer, ifIndex, createTime, Value())
      ensures NewOnesTimed(old(probing), probing, timers)
    {
      hide Record.GetName, RegOk, AllRehomed, NewOnesTimed, Kept, RenamedRecords, Agrees;
      SameTimed(probing, probing);
      var name := answer.GetName();
      if name !in probing {
        return [];
      }
      var p := probing[name];
      if answer.IsAddress() {
        if IntfIndex(answer) != ifIndex {
          return [];
        }
        if exists r <- p.records :: Agrees(answer, r) {
          return [];
        }
      }
      var kept, renamed := TakeConflicts(p.records, answer, name);
      WithoutConflictsKeeps(Value(), name, answer);
      probing := probing[name := p.(records := kept)];
      SameTimed(old(probing), probing);
      ghost var mid := probing;
      timers := RehomeAll(renamed, name, createTime, p.waiting);
      TimedInTwoSteps(old(probing), mid, probing, [], timers);
      assert [] + timers == timers;
    }

    /** Gives way in conflicts with the answers of a response. `createTimes` are now, with jitter. */
    method ConflictHandler(answers: seq<Record>, ifIndex: u32, createTimes: seq<nat>) returns (timers: seq<nat>)
      requires RegOk(Value()) && |createTimes| == |answers|
      modifies this`probing, this`active, this`nameChanges
      ensures RegOk(Value())
      ensures AllAnswered(old(Value()), answers, ifIndex, createTimes, Value())
      ensures NewOnesTimed(old(probing), probing, timers)
    {
      hide RegOk, Answered, NewOnesTimed;
      timers := [];
      SameTimed(probing, probing);
      for i := 0 to |answers|
        invariant RegOk(Value())
        invariant AllAnswered(old(Value()), answers[..i], ifIndex, createTimes[..i], Value())
        invariant NewOnesTimed(old(probing), probing, timers)
      {
        ghost var before := Value();
        var more := HandleAnswer(answers[i], ifIndex, createTimes[i]);
        TimedInTwoSteps(old(probing), before.probing, probing, timers, more);
        timers := timers + more;
        AllAnsweredMore(old(Value()), answers, i, ifIndex, createTimes, before, Value());
      }
      assert answers[..|answers|] == answers && createTimes[..|answers|] == createTimes;
    }

    /** A query of a peer that is probing for `name` as well; `authorities` are the records it wants there. */
    method ReceiveProbe(name: bytes, authorities: seq<Record>, now: nat)
      modifies this`probing
      ensures Value() == Tied(old(Value()), name, authorities, now)
    {
      if name in probing {
        var probe := new Probe.Load(probing[name]);
        probe.Tiebreaking(authorities, name, now);
        probing := probing[name := probe.Value()];
      }
    }

    /** What a query does to the probes: each question of type ANY ties the probe for its name. */
    method ReceiveQuery(questions: seq<Question>, authorities: seq<Record>, now: nat)
      modifies this`probing
      ensures Value() == TiedAll(old(Value()), questions, authorities, |questions|, now)
    {
      hide Tied;
      for i := 0 to |questions|
        invariant Value() == TiedAll(old(Value()), questions, authorities, i, now)
      {
        if questions[i].ty == ANY && authorities != [] {
          ReceiveProbe(questions[i].name, authorities, now);
        }
      }
    }

    /** The questions and authorities of the next probing query, and the probes that are over. */
    method CheckProbing(now: nat)
      returns (questions: seq<Question>, authorities: seq<Record>, timers: seq<nat>, expired: seq<bytes>,
               ghost asked: seq<bytes>)
      modifies this`probing
      ensures probing == Queried(old(probing), now)
      ensures NoneTwice(expired) && forall n :: n in expired <==> n in Over(old(probing), now)
      ensures Asks(old(probing), now, asked, questions, authorities)
      ensures |timers| == |questions| && forall t <- timers :: t == now + PROBE_WAIT
    {
      hide ProbeState.Expired, RecordsOf;
      questions, authorities, timers, expired, asked := [], [], [], [], [];
      NothingAsked(probing);
      var todo := probing.Keys;
      while todo != {}
        invariant todo <= probing.Keys == old(probing).Keys
        invariant forall n <- probing ::
                    probing[n] == if n in todo then old(probing)[n] else AfterPoll(old(probing)[n], now)
        invariant NoneTwice(expired) && forall n :: n in expired <==> n in Over(old(probing), now) - todo
        invariant NoneTwice(asked)
        invariant forall n :: n in asked <==> n in probing && n !in todo && SendsQuery(old(probing)[n], now)
        invariant questions == Questions(asked) && authorities == RecordsOf(old(probing), asked)
        invariant |timers| == |questions| && forall t <- timers :: t == now + PROBE_WAIT
      {
        var name :| name in todo;
        var p := probing[name];
        if now >= p.nextSend {
          if p.Expired(now) {
            NoneTwiceMore(expired, name);
            expired := expired + [name];
          } else {
            questions := questions + [Question(name, ANY, 1, false)];
            authorities := authorities + p.records;
            var probe := new Probe.Load(p);
            probe.UpdateNextSend(now);
            probing := probing[name := probe.Value()];
            timers := timers + [probe.nextSend];
            OneMoreAsked(old(probing), asked, name);
            asked := asked + [name];
          }
        }
        todo := todo - {name};
      }
    }

    /** Tells of the new names of records that now are `name`'s. */
    method NotifyRenames(rs: seq<Record>, name: bytes) returns (events: seq<NameChanged>)
      requires Filed(rs, name)
      modifies this`nameChanges
      ensures events == EventsIn(rs)
      ensures nameChanges == if HasNewName(rs) then old(nameChanges)[name := name] else old(nameChanges)
    {
      hide Filed, HasNewName, EventsIn;
      events := [];
      HasNewNameNone();
      for i := 0 to |rs|
        invariant events == EventsIn(rs[..i])
        invariant nameChanges == if HasNewName(rs[..i]) then old(nameChanges)[name := name] else old(nameChanges)
      {
        var record := rs[i];
        assert rs[..i + 1] == rs[..i] + [record];
        FiledAt(rs, name, i);
        HasNewNameMore(rs[..i], record);
        if record.newName.Some? {
          nameChanges := nameChanges[name := record.newName.value];
          events := events + [NameChanged(record.name, record.newName.value, record.rdata.Type())];
        }
      }
      assert rs[..|rs|] == rs;
    }

    /** The end of the probe for `name`. */
    method FinishProbe(name: bytes) returns (woken: set<bytes>, events: seq<NameChanged>)
      requires name in probing ==> Filed(probing[name].records, name)
      modifies this`probing, this`active, this`nameChanges
      ensures Value() == FinishOne(old(Value()), name)
      ensures woken == WokenBy(old(probing), name) && events == EventsOf(old(probing), name)
    {
      hide HasNewName, EventsIn;
      woken, events := {}, [];
      if name in probing {
        var p := probing[name];
        probing := probing - {name};
        events := NotifyRenames(p.records, name);
        if p.records != [] {
          assert [] + p.records == p.records;
          active := active[name := if name in active then active[name] + p.records else p.records];
          woken := p.waiting;
        }
      }
    }

    /** Probes that are over: their records become active, and the services that wait for them are woken. */
    method HandleExpiredProbes(expired: seq<bytes>) returns (waiting: set<bytes>, events: seq<NameChanged>)
      requires RegOk(Value())
      modifies this`probing, this`active, this`nameChanges
      ensures RegOk(Value()) && Value() == Finish(old(Value()), Elements(expired))
      ensures waiting == Woken(old(probing), Elements(expired))
      ensures events == Events(old(probing), expired)
    {
      hide Finish, FinishOne, RegOk, EventsOf, WokenBy, Woken, Elements;
      waiting, events := {}, [];
      ghost var before := Value();
      ExpiredStart(before);
      for i := 0 to |expired|
        invariant Value() == Finish(before, Elements(expired[..i]))
        invariant waiting == Woken(before.probing, Elements(expired[..i]))
        invariant events == Events(before.probing, expired[..i])
      {
        ExpiredStep(before, expired[..i], expired[i]);
        assert expired[..i + 1] == expired[..i] + [expired[i]];
        var woken, more := FinishProbe(expired[i]);
        waiting, events := waiting + woken, events + more;
      }
      assert expired[..|expired|] == expired;
      FinishKeeps(before, Elements(expired));
    }

    /** One round of the probing handler. */
    method ProbingHandler(now: nat) returns (
        questions: seq<Question>, authorities: seq<Record>, timers: seq<nat>, waiting: set<bytes>,
        events: seq<NameChanged>)
      requires RegOk(Value())
      modifies this`probing, this`active, this`nameChanges
      ensures RegOk(Value()) && Value() == Polled(old(Value()), now)
      ensures waiting == Woken(old(probing), Over(old(probing), now))
    {
      hide RegOk, Finish;
      var expired;
      ghost var asked;
      questions, authorities, timers, expired, asked := CheckProbing(now);
      assert RegOk(Value()) by { QueriedKeeps(old(Value()), now); }
      assert Elements(expired) == Over(old(probing), now);
      waiting, events := HandleExpiredProbes(expired);
      QueriesWakeNone(old(probing), now);
    }
  }

  datatype NameChanged = NameChanged(original: bytes, newName: bytes, rrType: RRType)

  function EventsIn(rs: seq<Record>): seq<NameChanged> {
    if rs == [] then []
    else
      var last := rs[|rs| - 1];
      EventsIn(rs[..|rs| - 1]) +
      if last.newName.Some? then [NameChanged(last.name, last.newName.value, last.rdata.Type())] else []
  }

  function Events(probing: map<bytes, ProbeState>, names: seq<bytes>): seq<NameChanged> {
    if names == [] then []
    else
      var front, last := names[..|names| - 1], names[|names| - 1];
      Events(probing, front) + if last !in front then EventsOf(probing, last) else []
  }

  function EventsOf(probing: map<bytes, ProbeState>, name: bytes): seq<NameChanged> {
    if name in probing then EventsIn(probing[name].records) else []
  }

  function WokenBy(probing: map<bytes, ProbeState>, name: bytes): set<bytes> {
    if name in probing && probing[name].records != [] then probing[name].waiting else {}
  }

  function FinishOne(reg: Reg, name: bytes): Reg {
    if name !in reg.probing then reg
    else
      var p := reg.probing[name];
      Reg(reg.probing - {name},
          if p.records == [] then reg.active else reg.active[name := Under(reg.active, name) + p.records],
          if HasNewName(p.records) then reg.nameChanges[name := name] else reg.nameChanges)
  }

  lemma ExpiredStart(reg: Reg)
    ensures Finish(reg, Elements([])) == reg && Woken(reg.probing, Elements([])) == {} && Events(reg.probing, []) == []
  {
    assert Elements([]) == {};
    FinishNone(reg);
  }

  /** One name more, in the loop over those whose probes are over. */
  lemma ExpiredStep(reg: Reg, done: seq<bytes>, name: bytes)
    requires RegOk(reg)
    ensures var now := Finish(reg, Elements(done));
            && Finish(reg, Elements(done + [name])) == FinishOne(now, name)
            && Woken(reg.probing, Elements(done + [name]))
               == Woken(reg.probing, Elements(done)) + WokenBy(now.probing, name)
            && Events(reg.probing, done + [name]) == Events(reg.probing, done) + EventsOf(now.probing, name)
            && (name in now.probing ==> Filed(now.probing[name].records, name))
  {
    hide Finish, HasNewName, Sorted, EventsIn;
    var names := Elements(done);
    assert Elements(done + [name]) == names + {name};
    assert (done + [name])[..|done|] == done;
    WokenMore(reg.probing, names, name);
    if name !in reg.probing || name in names {
      FinishSame(reg, names, name);
      assert EventsOf(Finish(reg, names).probing, name) == [];
    } else {
      FinishMore(reg, names, name);
    }
  }

  lemma WokenMore(probing: map<bytes, ProbeState>, names: set<bytes>, name: bytes)
    ensures Woken(probing, names + {name}) == Woken(probing, names) + WokenBy(probing, name)
    ensures name in names ==> WokenBy(probing, name) <= Woken(probing, names)
  {
  }

  /** The services that wait for the probes for `names`; a probe without records wakes none. */
  function Woken(probing: map<bytes, ProbeState>, names: set<bytes>): set<bytes> {
    set n, s | n in names && n in probing && probing[n].records != [] && s in probing[n].waiting :: s
  }

  lemma QueriesWakeNone(probing: map<bytes, ProbeState>, now: nat)
    ensures Woken(Queried(probing, now), Over(probing, now)) == Woken(probing, Over(probing, now))
  {
    hide ProbeState.Expired;
    var over, q := Over(probing, now), Queried(probing, now);
    assert forall n <- over :: q[n] == probing[n] by {
      assert forall n <- over :: !SendsQuery(probing[n], now);
    }
    forall s
      ensures s in Woken(q, over) <==> s in Woken(probing, over)
    {
      assert s in Woken(q, over) <==> exists n :: n in over && n in q && q[n].records != [] && s in q[n].waiting;
    }
  }

  lemma HasNewNameNone()
    ensures !HasNewName([]) && EventsIn([]) == []
  {
  }

  lemma FiledAt(rs: seq<Record>, name: bytes, i: nat)
    requires Filed(rs, name) && i < |rs|
    ensures rs[i].GetName() == name
  {
  }

  lemma HasNewNameMore(rs: seq<Record>, r: Record)
    ensures HasNewName(rs + [r]) <==> HasNewName(rs) || r.newName.Some?
    ensures EventsIn(rs + [r]) ==
            EventsIn(rs) + if r.newName.Some? then [NameChanged(r.name, r.newName.value, r.rdata.Type())] else []
  {
    assert (rs + [r])[..|rs|] == rs;
    if HasNewName(rs) {
      var x :| x in rs && x.newName.Some?;
      assert x in rs + [r];
    }
    assert r in rs + [r];
  }

  lemma FinishNone(reg: Reg)
    ensures Finish(reg, {}) == reg
  {
    assert FinishedActive(reg, {}) == reg.active;
    assert FinishedChanges(reg, {}) == reg.nameChanges;
  }

  lemma FinishSame(reg: Reg, names: set<bytes>, n: bytes)
    requires n !in reg.probing || n in names
    ensures n !in Finish(reg, names).probing && Finish(reg, names + {n}) == Finish(reg, names)
  {
    hide HasNewName;
    assert Filled(reg, names + {n}) == Filled(reg, names);
    assert FinishedActive(reg, names + {n}) == FinishedActive(reg, names);
    assert FinishedChanges(reg, names + {n}) == FinishedChanges(reg, names);
    assert reg.probing - (names + {n}) == reg.probing - names;
  }

  lemma FinishMore(reg: Reg, names: set<bytes>, n: bytes)
    requires n in reg.probing && n !in names
    ensures var a, b, p := Finish(reg, names), Finish(reg, names + {n}), reg.probing[n];
            && n in a.probing && a.probing[n] == p
            && b.probing == a.probing - {n}
            && b.active == (if p.records == [] then a.active else a.active[n := Under(a.active, n) + p.records])
            && b.nameChanges == (if HasNewName(p.records) then a.nameChanges[n := n] else a.nameChanges)
  {
    hide HasNewName, FinishedActive, FinishedChanges;
    FinishMoreActive(reg, names, n);
    FinishMoreChanges(reg, names, n);
    assert reg.probing - (names + {n}) == reg.probing - names - {n};
  }

  lemma FinishMoreActive(reg: Reg, names: set<bytes>, n: bytes)
    requires n in reg.probing && n !in names
    ensures var a, p := FinishedActive(reg, names), reg.probing[n];
            FinishedActive(reg, names + {n})
            == (if p.records == [] then a else a[n := Under(a, n) + p.records])
  {
    var a, b, p := FinishedActive(reg, names), FinishedActive(reg, names + {n}), reg.probing[n];
    assert n !in Filled(reg, names);
    assert Under(a, n) == Under(reg.active, n);
    assert Filled(reg, names + {n}) == Filled(reg, names) + if p.records == [] then {} else {n};
    assert b == if p.records == [] then a else a[n := Under(a, n) + p.records];
  }

  lemma FinishMoreChanges(reg: Reg, names: set<bytes>, n: bytes)
    requires n in reg.probing && n !in names
    ensures var a := FinishedChanges(reg, names);
            FinishedChanges(reg, names + {n}) == (if HasNewName(reg.probing[n].records) then a[n := n] else a)
  {
    hide HasNewName;
    var a, b := FinishedChanges(reg, names), FinishedChanges(reg, names + {n});
    assert b == if HasNewName(reg.probing[n].records) then a[n := n] else a;
  }

  lemma QueriedKeeps(reg: Reg, now: nat)
    requires RegOk(reg)
    ensures RegOk(reg.(probing := Queried(reg.probing, now)))
  {
    hide Sorted;
  }

  lemma NoneTwiceMore(names: seq<bytes>, n: bytes)
    requires NoneTwice(names) && n !in names
    ensures NoneTwice(names + [n])
    ensures forall k :: k in names + [n] <==> k in names || k == n
  {
  }

  function AfterPoll(p: ProbeState, now: nat): ProbeState {
    if SendsQuery(p, now) then p.(nextSend := now + PROBE_WAIT) else p
  }

  lemma NothingAsked(probing: map<bytes, ProbeState>)
    ensures Questions([]) == [] && RecordsOf(probing, []) == []
  {
  }

  lemma OneMoreAsked(probing: map<bytes, ProbeState>, asked: seq<bytes>, name: bytes)
    requires name in probing && forall n <- asked :: n in probing
    ensures Questions(asked + [name]) == Questions(asked) + [Question(name, ANY, 1, false)]
    ensures RecordsOf(probing, asked + [name]) == RecordsOf(probing, asked) + probing[name].records
  {
    assert (asked + [name])[..|asked|] == asked;
  }

  ghost predicate Joined(
    before: map<bytes, ProbeState>, record: Record, time: nat, waiting: set<bytes>, after: map<bytes, ProbeState>)
  {
    var name := record.GetName();
    var p := if name in before then before[name] else NewProbe(time);
    && name in after && after == before[name := after[name]]
    && after[name] == p.(records := after[name].records, waiting := p.waiting + waiting)
    && Inserted(p.records, record, after[name].records)
  }

  lemma JoinedIsRehomed(reg: Reg, name: bytes, r: Record, waiting: set<bytes>, time: nat, mid: Reg, reg': Reg)
    requires HostUpdated(reg, name, r.GetName(), time, mid)
    requires Joined(mid.probing, r, time, waiting, reg'.probing)
    requires reg'.active == mid.active && reg'.nameChanges == mid.nameChanges[r.name := r.GetName()]
    ensures RehomedVia(reg, name, r, waiting, time, mid, reg')
  {
    hide HostUpdated, Inserted, Record.GetName;
  }

  lemma HostUpdatedTimes(reg: Reg, host: bytes, newHost: bytes, time: nat, reg': Reg, added: bool)
    requires HostUpdated(reg, host, newHost, time, reg')
    requires added <==> exists n <- reg'.probing :: n !in reg.probing
    ensures NewOnesTimed(reg.probing, reg'.probing, if added then [time] else [])
  {
    hide Sorted, Staying, Moving;
    forall n <- reg'.probing
      ensures reg'.probing[n].nextSend == if n in reg.probing then reg.probing[n].nextSend else time
    {
      assert Reprobed(reg, n, host, newHost, time, reg'.probing[n]);
    }
  }

  ghost predicate AllSorted(probing: map<bytes, ProbeState>) {
    forall n <- probing :: Sorted(probing[n].records)
  }

  lemma KeptInOrder(reg: Reg, kept: map<bytes, ProbeState>, host: bytes)
    requires RegOk(reg) && kept.Keys == reg.probing.Keys
    requires forall n <- kept :: kept[n] == reg.probing[n].(records := Staying(reg.probing[n].records, host))
    ensures AllSorted(kept)
  {
    hide Sorted, Staying;
    forall n <- kept
      ensures Sorted(kept[n].records)
    {
      StayingSorted(reg.probing[n].records, host);
    }
  }
}
