// What conflicts, polls and lost tiebreaks do to the registry, and that no record is lost in them.
module RegistrySteps {
  import opened Bytes
  import opened DnsRecords
  import opened Probes
  import opened RegistryState
  import opened Renaming

  // ----- Conflicts (RFC 6762 section 9) -----

  /** The answer of a peer has the type and class of our record, but other data. */
  predicate Contradicts(answer: Record, r: Record) {
    r.rdata.Type() == answer.rdata.Type() && r.rrclass == answer.rrclass && !r.RrdataMatch(answer)
  }

  predicate Agrees(answer: Record, r: Record) {
    r.rdata.Type() == answer.rdata.Type() && r.rrclass == answer.rrclass && r.RrdataMatch(answer)
  }

  function IntfIndex(answer: Record): u32
    requires answer.IsAddress()
  {
    match answer.rdata
    case Addr4(_, intf) => intf.index
    case Addr6(_, intf) => intf.index
  }

  /** An address is no conflict if it came from another link, or if it is one of ours. */
  predicate Harmless(rs: seq<Record>, answer: Record, ifIndex: u32) {
    answer.IsAddress() && (IntfIndex(answer) != ifIndex || exists r <- rs :: Agrees(answer, r))
  }

  function RenamedRecord(r: Record, name: bytes): Record {
    r.SetNewName(if r.IsAddress() then HostChange(name) else NameChange(name))
  }

  function Kept(rs: seq<Record>, answer: Record): (k: seq<Record>)
    ensures forall x <- k :: x in rs && !Contradicts(answer, x)
  {
    if rs == [] then []
    else
      var front := Kept(rs[..|rs| - 1], answer);
      if Contradicts(answer, rs[|rs| - 1]) then front else front + [rs[|rs| - 1]]
  }

  function RenamedRecords(rs: seq<Record>, answer: Record, name: bytes): seq<Record> {
    if rs == [] then []
    else
      var front := RenamedRecords(rs[..|rs| - 1], answer, name);
      if Contradicts(answer, rs[|rs| - 1]) then front + [RenamedRecord(rs[|rs| - 1], name)] else front
  }

  /** A renamed record goes into the probe for its new name; SRV records that point to the old one follow. */
  ghost predicate RehomedVia(reg: Reg, old_: bytes, r: Record, waiting: set<bytes>, time: nat, mid: Reg, reg': Reg) {
    var name := r.GetName();
    && HostUpdated(reg, old_, name, time, mid)
    && name in reg'.probing
    && var p, p' := ProbeOrNew(mid, name, time), reg'.probing[name];
       && reg' == Reg(mid.probing[name := p'], mid.active, mid.nameChanges[r.name := name])
       && p' == p.(records := p'.records, waiting := p.waiting + waiting)
       && Inserted(p.records, r, p'.records)
  }

  ghost predicate Rehomed(reg: Reg, old_: bytes, r: Record, waiting: set<bytes>, time: nat, reg': Reg) {
    exists mid: Reg :: RehomedVia(reg, old_, r, waiting, time, mid, reg')
  }

  lemma RehomedKeeps(reg: Reg, old_: bytes, r: Record, waiting: set<bytes>, time: nat, mid: Reg, reg': Reg)
    requires RegOk(reg) && RehomedVia(reg, old_, r, waiting, time, mid, reg')
    ensures RegOk(reg')
    ensures Census(reg') == Census(reg) + multiset{Core(r)}
  {
    hide CoreBag, Core, Bag, Sorted, Inserted, HostUpdated;
    HostUpdateKeeps(reg, old_, r.GetName(), time, mid);
    var name := r.GetName();
    var p, p' := ProbeOrNew(mid, name, time), reg'.probing[name];
    EmptySorted();
    EmptyBag();
    InsertedFacts(p.records, r, p'.records);
    CoreBagInserted(p.records, r, p'.records);
    CensusOfProbe(mid, name, p');
    assert Census(reg') == Census(mid.(probing := mid.probing[name := p']));
    Cancel(Census(reg'), Census(mid) + multiset{Core(r)}, CoreBag(p.records));
  }

  ghost predicate AllRehomed(reg: Reg, old_: bytes, rs: seq<Record>, waiting: set<bytes>, time: nat, reg': Reg)
    decreases |rs|
  {
    if rs == [] then reg' == reg
    else
      var n := |rs| - 1;
      exists before: Reg ::
        AllRehomed(reg, old_, rs[..n], waiting, time, before) && Rehomed(before, old_, rs[n], waiting, time, reg')
  }

  lemma {:induction false} AllRehomedKeeps(
    reg: Reg, old_: bytes, rs: seq<Record>, waiting: set<bytes>, time: nat, reg': Reg)
    requires RegOk(reg) && AllRehomed(reg, old_, rs, waiting, time, reg')
    ensures RegOk(reg')
    ensures Census(reg') == Census(reg) + CoreBag(rs)
    decreases |rs|
  {
    hide CoreBag, Core, RehomedVia, RegOk, Census;
    EmptyBag();
    if rs != [] {
      var front, r := rs[..|rs| - 1], rs[|rs| - 1];
      var before: Reg :|
        AllRehomed(reg, old_, front, waiting, time, before) && Rehomed(before, old_, r, waiting, time, reg');
      var mid: Reg :| RehomedVia(before, old_, r, waiting, time, mid, reg');
      AllRehomedKeeps(reg, old_, front, waiting, time, before);
      RehomedKeeps(before, old_, r, waiting, time, mid, reg');
      assert rs == front + [r];
      CoreBagConcat(front, [r]);
      CoreBagOne(r);
    }
  }

  lemma {:induction false} KeptAndRenamed(rs: seq<Record>, answer: Record, name: bytes)
    ensures CoreBag(rs) == CoreBag(Kept(rs, answer)) + CoreBag(RenamedRecords(rs, answer, name))
  {
    if rs != [] {
      hide CoreBag, Core, Contradicts, RenamedRecord, Cores;
      var front, last := rs[..|rs| - 1], rs[|rs| - 1];
      KeptAndRenamed(front, answer, name);
      assert rs == front + [last];
      CoreBagConcat(front, [last]);
      CoreBagOne(last);
      var kept, renamed := Kept(front, answer), RenamedRecords(front, answer, name);
      if Contradicts(answer, last) {
        assert Kept(rs, answer) == kept && RenamedRecords(rs, answer, name) == renamed + [RenamedRecord(last, name)];
        hide Kept, RenamedRecords;
        CoreBagConcat(renamed, [RenamedRecord(last, name)]);
        CoreBagOne(RenamedRecord(last, name));
        RenamedCore(last, name);
      } else {
        assert Kept(rs, answer) == kept + [last] && RenamedRecords(rs, answer, name) == renamed;
        hide Kept, RenamedRecords;
        CoreBagConcat(kept, [last]);
      }
    } else {
      EmptyBag();
    }
  }

  lemma {:induction false} KeptSorted(rs: seq<Record>, answer: Record)
    requires Sorted(rs)
    ensures Sorted(Kept(rs, answer))
  {
    if rs != [] {
      hide Contradicts, InSortOrder;
      var front, last := rs[..|rs| - 1], rs[|rs| - 1];
      KeptSorted(front, answer);
      forall r <- Kept(front, answer)
        ensures InSortOrder(r, last)
      {
        assert r in front;
      }
    }
  }

  lemma RenamedCore(r: Record, name: bytes)
    ensures Core(RenamedRecord(r, name)) == Core(r)
  {
  }

  /** What the answer of a peer does to the registry: all records that it contradicts get a new name. */
  ghost predicate Answered(reg: Reg, answer: Record, ifIndex: u32, time: nat, reg': Reg) {
    var name := answer.GetName();
    if name !in reg.probing || Harmless(reg.probing[name].records, answer, ifIndex) then reg' == reg
    else
      var p := reg.probing[name];
      AllRehomed(WithoutConflicts(reg, name, answer), name, RenamedRecords(p.records, answer, name), p.waiting,
                 time, reg')
  }

  function WithoutConflicts(reg: Reg, name: bytes, answer: Record): Reg
    requires name in reg.probing
  {
    var p := reg.probing[name];
    reg.(probing := reg.probing[name := p.(records := Kept(p.records, answer))])
  }

  /** Renaming loses nothing: the records of the registry are the same up to name and SRV target. */
  lemma AnsweredKeeps(reg: Reg, answer: Record, ifIndex: u32, time: nat, reg': Reg)
    requires RegOk(reg) && Answered(reg, answer, ifIndex, time, reg')
    ensures RegOk(reg')
    ensures Census(reg') == Census(reg)
  {
    hide CoreBag, Core, Census, RegOk, Kept, RenamedRecords, AllRehomed, Harmless, WithoutConflicts;
    var name := answer.GetName();
    if name in reg.probing && !Harmless(reg.probing[name].records, answer, ifIndex) {
      var p, renamed := reg.probing[name], RenamedRecords(reg.probing[name].records, answer, name);
      var mid := WithoutConflicts(reg, name, answer);
      WithoutConflictsKeeps(reg, name, answer);
      AllRehomedKeeps(mid, name, renamed, p.waiting, time, reg');
    }
  }

  lemma WithoutConflictsKeeps(reg: Reg, name: bytes, answer: Record)
    requires RegOk(reg) && name in reg.probing
    ensures RegOk(WithoutConflicts(reg, name, answer))
    ensures Census(reg) == Census(WithoutConflicts(reg, name, answer))
                           + CoreBag(RenamedRecords(reg.probing[name].records, answer, name))
  {
    hide CoreBag, Core, Census, Sorted, Kept, RenamedRecords;
    var p, mid := reg.probing[name], WithoutConflicts(reg, name, answer);
    KeptAndRenamed(p.records, answer, name);
    KeptSorted(p.records, answer);
    CensusOfProbe(reg, name, mid.probing[name]);
    Move(Census(reg), Census(mid), CoreBag(p.records), CoreBag(mid.probing[name].records),
         CoreBag(RenamedRecords(p.records, answer, name)));
  }

  lemma Move(census: multiset<Record>, mid: multiset<Record>,
    all: multiset<Record>, kept: multiset<Record>, renamed: multiset<Record>)
    requires mid + all == census + kept && all == kept + renamed
    ensures mid + renamed == census
  {
    forall r
      ensures (mid + renamed)[r] == census[r]
    {
      assert (mid + all)[r] == (census + kept)[r];
    }
  }

  /** Nothing that the answer contradicts stays under its name. */
  ghost predicate Settled(reg: Reg, name: bytes, answer: Record) {
    name in reg.probing ==>
      forall r <- reg.probing[name].records ::
        Contradicts(answer, r) ==> r.rdata.Srv? && r.rdata.host in {HostChange(name), NameChange(name)}
  }

  lemma RehomedSettles(
    reg: Reg, name: bytes, r: Record, waiting: set<bytes>, time: nat, mid: Reg, reg': Reg, answer: Record)
    requires RehomedVia(reg, name, r, waiting, time, mid, reg') && Settled(reg, name, answer) && name in reg.probing
    requires r.GetName() in {HostChange(name), NameChange(name)}
    ensures Settled(reg', name, answer) && name in reg'.probing
  {
    hide Contradicts, Inserted, HostChange, NameChange, Sorted;
    NewNamesDiffer(name);
    assert Reprobed(reg, name, name, r.GetName(), time, mid.probing[name]);
    var old_, new_ := reg.probing[name].records, mid.probing[name].records;
    forall x <- reg'.probing[name].records | Contradicts(answer, x)
      ensures x.rdata.Srv? && x.rdata.host in {HostChange(name), NameChange(name)}
    {
      assert x in multiset(new_);
      assert x in Staying(old_, name) || x in Moved(reg, name, name, r.GetName());
    }
  }

  lemma {:induction false} AllRehomedSettles(
    reg: Reg, name: bytes, all: seq<Record>, rs: seq<Record>, waiting: set<bytes>, time: nat, reg': Reg, answer: Record)
    requires rs <= RenamedRecords(all, answer, name)
    requires AllRehomed(reg, name, rs, waiting, time, reg') && Settled(reg, name, answer) && name in reg.probing
    ensures Settled(reg', name, answer) && name in reg'.probing
    decreases |rs|
  {
    hide Contradicts, RehomedVia, RenamedRecords, Settled, HostChange, NameChange;
    if rs != [] {
      var front, r := rs[..|rs| - 1], rs[|rs| - 1];
      var before: Reg :|
        AllRehomed(reg, name, front, waiting, time, before) && Rehomed(before, name, r, waiting, time, reg');
      var mid: Reg :| RehomedVia(before, name, r, waiting, time, mid, reg');
      AllRehomedSettles(reg, name, all, front, waiting, time, before, answer);
      assert r == RenamedRecords(all, answer, name)[|rs| - 1];
      RenamedNames(all, answer, name);
      RehomedSettles(before, name, r, waiting, time, mid, reg', answer);
    }
  }

  lemma {:induction false} RenamedNames(rs: seq<Record>, answer: Record, name: bytes)
    ensures forall r <- RenamedRecords(rs, answer, name) :: r.GetName() in {HostChange(name), NameChange(name)}
  {
    if rs != [] {
      hide Contradicts, HostChange, NameChange;
      RenamedNames(rs[..|rs| - 1], answer, name);
    }
  }

  /**
   * RFC 6762 section 9: after a conflict the name is given up. A record that the answer contradicts can
   * only be an SRV record that pointed to this very name and now points to the new one.
   */
  lemma ConflictIsSettled(reg: Reg, answer: Record, ifIndex: u32, time: nat, reg': Reg)
    requires Answered(reg, answer, ifIndex, time, reg')
    requires answer.GetName() in reg.probing
    requires !Harmless(reg.probing[answer.GetName()].records, answer, ifIndex)
    ensures Settled(reg', answer.GetName(), answer)
  {
    hide Contradicts, AllRehomed, RenamedRecords, HostChange, NameChange;
    var name := answer.GetName();
    var rs := reg.probing[name].records;
    var mid := WithoutConflicts(reg, name, answer);
    assert Settled(mid, name, answer);
    var renamed := RenamedRecords(rs, answer, name);
    AllRehomedSettles(mid, name, rs, renamed, reg.probing[name].waiting, time, reg', answer);
  }

  ghost predicate AllAnswered(reg: Reg, answers: seq<Record>, ifIndex: u32, times: seq<nat>, reg': Reg)
    requires |times| == |answers|
    decreases |answers|
  {
    if answers == [] then reg' == reg
    else
      var n := |answers| - 1;
      exists before: Reg ::
        && AllAnswered(reg, answers[..n], ifIndex, times[..n], before)
        && Answered(before, answers[n], ifIndex, times[n], reg')
  }

  lemma {:induction false} AllAnsweredKeeps(reg: Reg, answers: seq<Record>, ifIndex: u32, times: seq<nat>, reg': Reg)
    requires |times| == |answers|
    requires RegOk(reg) && AllAnswered(reg, answers, ifIndex, times, reg')
    ensures RegOk(reg') && Census(reg') == Census(reg)
    decreases |answers|
  {
    hide RegOk, Census, Answered;
    if answers != [] {
      var n := |answers| - 1;
      var before: Reg :|
        && AllAnswered(reg, answers[..n], ifIndex, times[..n], before)
        && Answered(before, answers[n], ifIndex, times[n], reg');
      AllAnsweredKeeps(reg, answers[..n], ifIndex, times[..n], before);
      AnsweredKeeps(before, answers[n], ifIndex, times[n], reg');
    }
  }

  // ----- Polls: the next queries, and the end of probes -----

  predicate SendsQuery(p: ProbeState, now: nat) {
    now >= p.nextSend && !p.Expired(now)
  }

  /** Probes that are due and have had their 750 milliseconds. */
  function Over(probing: map<bytes, ProbeState>, now: nat): set<bytes> {
    set n | n in probing && now >= probing[n].nextSend && probing[n].Expired(now)
  }

  function Queried(probing: map<bytes, ProbeState>, now: nat): map<bytes, ProbeState> {
    map n | n in probing ::
      if SendsQuery(probing[n], now) then probing[n].(nextSend := now + PROBE_WAIT) else probing[n]
  }

  predicate HasNewName(rs: seq<Record>) {
    exists r <- rs :: r.newName.Some?
  }

  /** Probes for `names` that have records to give. */
  function Filled(reg: Reg, names: set<bytes>): set<bytes> {
    set n | n in names && n in reg.probing && reg.probing[n].records != []
  }

  function FinishedActive(reg: Reg, names: set<bytes>): Records {
    map n | n in reg.active.Keys + Filled(reg, names) ::
      if n in Filled(reg, names) then Under(reg.active, n) + reg.probing[n].records else reg.active[n]
  }

  function FinishedChanges(reg: Reg, names: set<bytes>): map<bytes, bytes> {
    reg.nameChanges + map n | n in names && n in reg.probing && HasNewName(reg.probing[n].records) :: n
  }

  /** The records of the probes for `names` become active. */
  function Finish(reg: Reg, names: set<bytes>): Reg {
    Reg(reg.probing - names, FinishedActive(reg, names), FinishedChanges(reg, names))
  }

  lemma FinishKeepsAt(reg: Reg, names: set<bytes>, n: bytes)
    ensures var reg' := Finish(reg, names);
            SameAt(RecordsIn(reg.probing), reg.active, RecordsIn(reg'.probing), reg'.active, n)
  {
    hide CoreBag;
    var reg' := Finish(reg, names);
    EmptyBag();
    if n in names && n in reg.probing {
      CoreBagConcat(Under(reg.active, n), reg.probing[n].records);
      assert Under(reg'.active, n) == Under(reg.active, n) + reg.probing[n].records;
    } else {
      assert Under(reg'.active, n) == Under(reg.active, n);
    }
  }

  lemma FinishKeeps(reg: Reg, names: set<bytes>)
    ensures RegOk(reg) ==> RegOk(Finish(reg, names))
    ensures Census(Finish(reg, names)) == Census(reg)
  {
    hide CoreBag, Bag, Sorted, SameAt;
    var reg' := Finish(reg, names);
    var all := reg.probing.Keys + reg.active.Keys + reg'.active.Keys;
    forall n <- all
      ensures SameAt(RecordsIn(reg.probing), reg.active, RecordsIn(reg'.probing), reg'.active, n)
    {
      FinishKeepsAt(reg, names, n);
    }
    SameBags(RecordsIn(reg.probing), reg.active, RecordsIn(reg'.probing), reg'.active, all);
  }

  /** One round of the probing handler. */
  function Polled(reg: Reg, now: nat): Reg {
    Finish(reg.(probing := Queried(reg.probing, now)), Over(reg.probing, now))
  }

  lemma PolledKeeps(reg: Reg, now: nat)
    ensures RegOk(reg) ==> RegOk(Polled(reg, now))
    ensures Census(Polled(reg, now)) == Census(reg)
  {
    hide CoreBag, Bag, Sorted, Finish;
    FinishKeeps(reg.(probing := Queried(reg.probing, now)), Over(reg.probing, now));
    assert RecordsIn(Queried(reg.probing, now)) == RecordsIn(reg.probing);
  }

  // ----- Tiebreaks -----

  /** A query of a peer that is probing for `name`, too. */
  function Tied(reg: Reg, name: bytes, authorities: seq<Record>, now: nat): Reg {
    if name !in reg.probing then reg
    else
      var p := TiebreakAt(reg.probing[name], ForName(authorities, name, |authorities|), now);
      reg.(probing := reg.probing[name := p])
  }

  /** A question that is of type ANY, in a query with records in its authority section, is a probe. */
  function TiedAll(reg: Reg, questions: seq<Question>, authorities: seq<Record>, n: nat, now: nat): Reg
    requires n <= |questions|
  {
    if n == 0 then reg
    else
      var front, q := TiedAll(reg, questions, authorities, n - 1, now), questions[n - 1];
      if q.ty == ANY && authorities != [] then Tied(front, q.name, authorities, now) else front
  }

  predicate AsksFor(questions: seq<Question>, n: nat, name: bytes)
    requires n <= |questions|
  {
    exists i :: 0 <= i < n && questions[i].ty == ANY && questions[i].name == name
  }

  /** However often a query asks for a name, it ties the probe for it once. */
  lemma {:induction false} TiedAllOnce(
    reg: Reg, questions: seq<Question>, authorities: seq<Record>, n: nat, now: nat, name: bytes)
    requires n <= |questions| && name in reg.probing
    ensures var reg' := TiedAll(reg, questions, authorities, n, now);
            && name in reg'.probing
            && reg'.probing[name]
               == if AsksFor(questions, n, name) then
                    TiebreakAt(reg.probing[name], ForName(authorities, name, |authorities|), now)
                  else reg.probing[name]
  {
    hide ForName;
    if n > 0 {
      TiedAllOnce(reg, questions, authorities, n - 1, now, name);
      AsksForNext(questions, n, name);
      NoneNoTie(reg.probing[name], name, now);
    }
  }

  lemma AsksForNext(questions: seq<Question>, n: nat, name: bytes)
    requires 0 < n <= |questions|
    ensures AsksFor(questions, n, name) <==>
            AsksFor(questions, n - 1, name) || (questions[n - 1].ty == ANY && questions[n - 1].name == name)
  {
  }

  lemma NoneNoTie(p: ProbeState, name: bytes, now: nat)
    ensures ForName([], name, 0) == [] && TiebreakAt(p, [], now) == p
  {
  }

  lemma TiedKeeps(reg: Reg, name: bytes, authorities: seq<Record>, now: nat)
    ensures RegOk(reg) ==> RegOk(Tied(reg, name, authorities, now))
    ensures Census(Tied(reg, name, authorities, now)) == Census(reg)
  {
    hide Bag, Sorted;
    assert RecordsIn(Tied(reg, name, authorities, now).probing) == RecordsIn(reg.probing);
  }
}
