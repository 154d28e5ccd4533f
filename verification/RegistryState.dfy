// The records that a responder probes for or has made its own, on one interface.
module RegistryState {
  import opened Bytes
  import opened DnsRecords
  import opened Probes

  type Records = map<bytes, seq<Record>>

  datatype Reg = Reg(probing: map<bytes, ProbeState>, active: Records, nameChanges: map<bytes, bytes>)

  function RecordsIn(probing: map<bytes, ProbeState>): Records {
    map n | n in probing :: probing[n].records
  }

  ghost predicate Filed(rs: seq<Record>, name: bytes) {
    forall r <- rs :: r.GetName() == name
  }

  /** Every record sits under its current name, and those of a probe are in order. */
  ghost predicate RegOk(reg: Reg) {
    && (forall n <- reg.probing :: Sorted(reg.probing[n].records) && Filed(reg.probing[n].records, n))
    && (forall n <- reg.active :: Filed(reg.active[n], n))
  }

  /** A record without what conflict resolution may change: its new name, and the host of an SRV. */
  function Core(r: Record): Record {
    match r.rdata
    case Srv(priority, weight, port, _) => r.(newName := None, rdata := Srv(priority, weight, port, []))
    case _ => r.(newName := None)
  }

  /** Records have one core exactly if they are the same up to new names and, both being SRV, their hosts. */
  lemma CoreIff(a: Record, b: Record)
    ensures Core(a) == Core(b) <==>
            && a.(newName := None, rdata := b.rdata) == b.(newName := None)
            && if a.rdata.Srv? then b.rdata.Srv? && a.rdata.(host := b.rdata.host) == b.rdata else a.rdata == b.rdata
  {
  }

  function Cores(rs: seq<Record>): seq<Record> {
    seq(|rs|, i requires 0 <= i < |rs| => Core(rs[i]))
  }

  function CoreBag(rs: seq<Record>): multiset<Record> {
    multiset(Cores(rs))
  }

  lemma CoreBagConcat(a: seq<Record>, b: seq<Record>)
    ensures CoreBag(a + b) == CoreBag(a) + CoreBag(b)
  {
    hide Core;
    assert Cores(a + b) == Cores(a) + Cores(b);
  }

  lemma CoreBagInserted(rs: seq<Record>, rec: Record, rs': seq<Record>)
    requires Inserted(rs, rec, rs')
    ensures CoreBag(rs') == CoreBag(rs) + multiset{Core(rec)}
  {
    hide CoreBag, InSortOrder;
    var pos: nat :| GoodPlace(rs, rec, pos) && rs' == InsertAt(rs, rec, pos);
    assert pos <= |rs| by { GoodPlaceInside(rs, rec, pos); }
    assert rs == rs[..pos] + rs[pos..];
    CoreBagConcat(rs[..pos], rs[pos..]);
    CoreBagConcat(rs[..pos] + [rec], rs[pos..]);
    CoreBagConcat(rs[..pos], [rec]);
    CoreBagOne(rec);
  }

  lemma GoodPlaceInside(rs: seq<Record>, rec: Record, pos: nat)
    requires GoodPlace(rs, rec, pos)
    ensures pos <= |rs|
  {
  }

  lemma CoreBagOne(rec: Record)
    ensures CoreBag([rec]) == multiset{Core(rec)}
    ensures CoreBag([]) == multiset{}
  {
    hide Core;
    assert Cores([rec]) == [Core(rec)];
    assert Cores([]) == [];
  }

  /** All records of a table, up to what conflict resolution may change. */
  ghost function Bag(m: Records): multiset<Record>
    decreases |m|
  {
    if m == map[] then multiset{}
    else
      var n :| n in m;
      CoreBag(m[n]) + Bag(m - {n})
  }

  lemma {:induction false} BagSplit(m: Records, n: bytes)
    requires n in m
    ensures Bag(m) == CoreBag(m[n]) + Bag(m - {n})
    decreases |m|
  {
    hide CoreBag;
    var k :| k in m && Bag(m) == CoreBag(m[k]) + Bag(m - {k});
    if k != n {
      BagSplit(m - {k}, n);
      BagSplit(m - {n}, k);
      assert m - {k} - {n} == m - {n} - {k};
    }
  }

  lemma BagUpdate(m: Records, n: bytes, rs: seq<Record>)
    ensures Bag(m[n := rs]) == CoreBag(rs) + Bag(m - {n})
    ensures n !in m ==> Bag(m - {n}) == Bag(m)
  {
    hide CoreBag;
    BagSplit(m[n := rs], n);
    assert m[n := rs] - {n} == m - {n};
    if n !in m {
      assert m - {n} == m;
    }
  }

  /** All records of the registry: what no operation but a new registration may change. */
  ghost function Census(reg: Reg): multiset<Record> {
    Bag(RecordsIn(reg.probing)) + Bag(reg.active)
  }

  lemma RecordsInUpdate(probing: map<bytes, ProbeState>, n: bytes, p: ProbeState)
    ensures RecordsIn(probing[n := p]) == RecordsIn(probing)[n := p.records]
    ensures RecordsIn(probing - {n}) == RecordsIn(probing) - {n}
  {
  }

  /** Changing the records of one probe changes the census by just that. */
  lemma CensusOfProbe(reg: Reg, n: bytes, p: ProbeState)
    ensures var before := if n in reg.probing then CoreBag(reg.probing[n].records) else multiset{};
            Census(reg.(probing := reg.probing[n := p])) + before == Census(reg) + CoreBag(p.records)
  {
    hide CoreBag;
    RecordsInUpdate(reg.probing, n, p);
    BagUpdate(RecordsIn(reg.probing), n, p.records);
    if n in reg.probing {
      BagSplit(RecordsIn(reg.probing), n);
    }
  }

  // ----- One operation on the registry -----

  function ProbeOrNew(reg: Reg, name: bytes, startTime: nat): ProbeState {
    if name in reg.probing then reg.probing[name] else NewProbe(startTime)
  }

  predicate Listed(rs: seq<Record>, answer: Record) {
    exists r <- rs :: answer.Matches(r)
  }

  predicate IsActive(reg: Reg, answer: Record) {
    answer.GetName() in reg.active && Listed(reg.active[answer.GetName()], answer)
  }

  /** What asking whether `answer` is through with probing does to the registry. */
  ghost predicate Asked(reg: Reg, answer: Record, service: bytes, startTime: nat, reg': Reg) {
    var name := answer.GetName();
    if IsActive(reg, answer) then reg' == reg
    else
      && name in reg'.probing
      && var p, p' := ProbeOrNew(reg, name, startTime), reg'.probing[name];
         && reg' == reg.(probing := reg.probing[name := p'])
         && p' == p.(records := p'.records, waiting := p.waiting + {service})
         && if Listed(p.records, answer) then p'.records == p.records else Inserted(p.records, answer, p'.records)
  }

  /** How many records a registration adds: one, unless it is known already. */
  predicate IsNew(reg: Reg, answer: Record, startTime: nat) {
    !IsActive(reg, answer) && !Listed(ProbeOrNew(reg, answer.GetName(), startTime).records, answer)
  }

  lemma AskedKeeps(reg: Reg, answer: Record, service: bytes, startTime: nat, reg': Reg)
    requires RegOk(reg) && Asked(reg, answer, service, startTime, reg')
    ensures RegOk(reg')
    ensures Census(reg') == Census(reg) + if IsNew(reg, answer, startTime) then multiset{Core(answer)} else multiset{}
  {
    hide CoreBag, Core, Record.Matches, Bag, Sorted, Inserted, Census;
    if !IsActive(reg, answer) {
      var name := answer.GetName();
      var p, p' := ProbeOrNew(reg, name, startTime), reg'.probing[name];
      CensusOfProbe(reg, name, p');
      CoreBagOne(answer);
      EmptySorted();
      assert reg' == reg.(probing := reg.probing[name := p']);
      assert CoreBag(p.records) == if name in reg.probing then CoreBag(reg.probing[name].records) else multiset{};
      if !Listed(p.records, answer) {
        InsertedFacts(p.records, answer, p'.records);
        CoreBagInserted(p.records, answer, p'.records);
        Cancel(Census(reg'), Census(reg) + multiset{Core(answer)}, CoreBag(p.records));
      } else {
        Cancel(Census(reg'), Census(reg), CoreBag(p.records));
      }
    }
  }

  lemma Cancel(a: multiset<Record>, b: multiset<Record>, c: multiset<Record>)
    requires a + c == b + c
    ensures a == b
  {
    forall r
      ensures a[r] == b[r]
    {
      assert (a + c)[r] == (b + c)[r];
    }
  }

  lemma EmptySorted()
    ensures Sorted([])
  {
  }

  // ----- A host name changes -----

  predicate PointsTo(r: Record, host: bytes) {
    r.rdata.Srv? && r.rdata.host == host
  }

  function Pointed(r: Record, host: bytes): Record
    requires r.rdata.Srv?
  {
    r.(rdata := r.rdata.(host := host))
  }

  /** The records that stay as they are, ... */
  function Staying(rs: seq<Record>, host: bytes): (r: seq<Record>)
    ensures forall x <- r :: x in rs && !PointsTo(x, host)
  {
    if rs == [] then []
    else
      var front := Staying(rs[..|rs| - 1], host);
      if PointsTo(rs[|rs| - 1], host) then front else front + [rs[|rs| - 1]]
  }

  /** ... and the SRV records that point to `host`, with their new target. */
  function Moving(rs: seq<Record>, host: bytes, newHost: bytes): (r: seq<Record>)
    ensures forall x <- r :: x.rdata.Srv? && x.rdata.host == newHost
  {
    if rs == [] then []
    else
      var front := Moving(rs[..|rs| - 1], host, newHost);
      if PointsTo(rs[|rs| - 1], host) then front + [Pointed(rs[|rs| - 1], newHost)] else front
  }

  lemma {:induction false} MovingKeepsName(rs: seq<Record>, host: bytes, newHost: bytes, name: bytes)
    requires Filed(rs, name)
    ensures Filed(Moving(rs, host, newHost), name) && Filed(Staying(rs, host), name)
  {
    if rs != [] {
      assert forall r <- rs[..|rs| - 1] :: r in rs;
      assert rs[|rs| - 1] in rs;
      MovingKeepsName(rs[..|rs| - 1], host, newHost, name);
    }
  }

  lemma {:induction false} StayingSorted(rs: seq<Record>, host: bytes)
    requires Sorted(rs)
    ensures Sorted(Staying(rs, host))
  {
    if rs != [] {
      var front, last := rs[..|rs| - 1], rs[|rs| - 1];
      assert Sorted(front);
      StayingSorted(front, host);
      forall r <- Staying(front, host)
        ensures InSortOrder(r, last)
      {
        assert r in front;
      }
    }
  }

  lemma {:induction false} StayingAndMoving(rs: seq<Record>, host: bytes, newHost: bytes)
    ensures CoreBag(rs) == CoreBag(Staying(rs, host)) + CoreBag(Moving(rs, host, newHost))
  {
    if rs != [] {
      hide CoreBag, Core;
      var front, last := rs[..|rs| - 1], rs[|rs| - 1];
      StayingAndMoving(front, host, newHost);
      assert rs == front + [last];
      CoreBagConcat(front, [last]);
      CoreBagConcat(Staying(front, host), [last]);
      CoreBagOne(last);
      if PointsTo(last, host) {
        CoreBagConcat(Moving(front, host, newHost), [Pointed(last, newHost)]);
        CoreBagOne(Pointed(last, newHost));
        SameCore(last, newHost);
      }
    }
  }

  lemma SameCore(r: Record, host: bytes)
    requires r.rdata.Srv?
    ensures Core(Pointed(r, host)) == Core(r)
  {
  }

  function Under(m: Records, n: bytes): seq<Record> {
    if n in m then m[n] else []
  }

  lemma BagDrop(m: Records, n: bytes)
    ensures Bag(m) == CoreBag(Under(m, n)) + Bag(m - {n})
  {
    hide CoreBag;
    if n in m {
      BagSplit(m, n);
    } else {
      assert m - {n} == m;
      assert CoreBag([]) == multiset{} by { EmptyBag(); }
    }
  }

  lemma EmptyBag()
    ensures CoreBag([]) == multiset{}
  {
    assert Cores([]) == [];
  }

  ghost predicate SameAt(p: Records, a: Records, p': Records, a': Records, n: bytes) {
    CoreBag(Under(p, n)) + CoreBag(Under(a, n)) == CoreBag(Under(p', n)) + CoreBag(Under(a', n))
  }

  /** Two pairs of tables that hold the same records under every name hold the same records. */
  lemma {:induction false} SameBags(p: Records, a: Records, p': Records, a': Records, names: set<bytes>)
    requires p.Keys + a.Keys + p'.Keys + a'.Keys <= names
    requires forall n <- names :: SameAt(p, a, p', a', n)
    ensures Bag(p) + Bag(a) == Bag(p') + Bag(a')
    decreases |names|
  {
    hide CoreBag, SameAt, Bag;
    if names == {} {
      assert p == map[] && a == map[] && p' == map[] && a' == map[];
    } else {
      var n :| n in names;
      forall k <- names - {n}
        ensures SameAt(p - {n}, a - {n}, p' - {n}, a' - {n}, k)
      {
        SameAtOther(p, a, p', a', n, k);
      }
      SameBags(p - {n}, a - {n}, p' - {n}, a' - {n}, names - {n});
      SameBagsStep(p, a, p', a', n);
    }
  }

  lemma SameAtOther(p: Records, a: Records, p': Records, a': Records, n: bytes, k: bytes)
    requires k != n && SameAt(p, a, p', a', k)
    ensures SameAt(p - {n}, a - {n}, p' - {n}, a' - {n}, k)
  {
    hide CoreBag;
  }

  lemma SameBagsStep(p: Records, a: Records, p': Records, a': Records, n: bytes)
    requires SameAt(p, a, p', a', n)
    requires Bag(p - {n}) + Bag(a - {n}) == Bag(p' - {n}) + Bag(a' - {n})
    ensures Bag(p) + Bag(a) == Bag(p') + Bag(a')
  {
    hide CoreBag, Bag;
    BagDrop(p, n);
    BagDrop(a, n);
    BagDrop(p', n);
    BagDrop(a', n);
    SwapMiddle(CoreBag(Under(p, n)), Bag(p - {n}), CoreBag(Under(a, n)), Bag(a - {n}));
    SwapMiddle(CoreBag(Under(p', n)), Bag(p' - {n}), CoreBag(Under(a', n)), Bag(a' - {n}));
  }

  lemma SwapMiddle(a: multiset<Record>, b: multiset<Record>, c: multiset<Record>, d: multiset<Record>)
    ensures (a + b) + (c + d) == (a + c) + (b + d)
  {
  }

  lemma {:induction false} CoreBagOfSame(a: seq<Record>, b: seq<Record>)
    requires multiset(a) == multiset(b)
    ensures CoreBag(a) == CoreBag(b)
  {
    hide *;
    if a == [] {
      assert |multiset(b)| == 0;
      assert b == [];
    } else {
      var k := PlaceOf(a, b);
      TakenOut(a, 0);
      TakenOut(b, k);
      CoreBagOfSame(a[..0] + a[1..], b[..k] + b[k + 1..]);
    }
  }

  lemma PlaceOf(a: seq<Record>, b: seq<Record>) returns (k: nat)
    requires a != [] && multiset(a) == multiset(b)
    ensures k < |b| && b[k] == a[0]
  {
    hide *;
    assert a[0] in multiset(a);
    assert a[0] in b;
    k :| 0 <= k < |b| && b[k] == a[0];
  }

  /** One record after the other may be taken out of a bag. */
  lemma TakenOut(b: seq<Record>, k: nat)
    requires k < |b|
    ensures var rest := b[..k] + b[k + 1..];
            && multiset(rest) == multiset(b) - multiset{b[k]}
            && CoreBag(b) == CoreBag([b[k]]) + CoreBag(rest)
  {
    hide CoreBag;
    assert b == b[..k] + [b[k]] + b[k + 1..];
    CoreBagConcat(b[..k] + [b[k]], b[k + 1..]);
    CoreBagConcat(b[..k], [b[k]]);
    CoreBagConcat(b[..k], b[k + 1..]);
  }

  /** All records under `n` that point to `host`, with their new target. */
  function Moved(reg: Reg, n: bytes, host: bytes, newHost: bytes): seq<Record> {
    Moving(Under(RecordsIn(reg.probing), n), host, newHost) + Moving(Under(reg.active, n), host, newHost)
  }

  /** The probe for a name that records have moved to is started again, or started at all. */
  ghost predicate Reprobed(reg: Reg, n: bytes, host: bytes, newHost: bytes, time: nat, p': ProbeState) {
    var p, moved := ProbeOrNew(reg, n, time), Moved(reg, n, host, newHost);
    && multiset(p'.records) == multiset(Staying(p.records, host)) + multiset(moved)
    && Sorted(p'.records)
    && p' == p.(records := p'.records, startTime := if moved == [] then p.startTime else time)
  }

  /** What a new name of `host` does: each SRV record that points there has to be probed again. */
  ghost predicate HostUpdated(reg: Reg, host: bytes, newHost: bytes, time: nat, reg': Reg) {
    && reg'.nameChanges == reg.nameChanges
    && reg'.active.Keys == reg.active.Keys
    && (forall n <- reg.active :: reg'.active[n] == Staying(reg.active[n], host))
    && (forall n :: n in reg'.probing <==> n in reg.probing || Moved(reg, n, host, newHost) != [])
    && (forall n <- reg'.probing :: Reprobed(reg, n, host, newHost, time, reg'.probing[n]))
  }

  lemma {:induction false} MovingHas(rs: seq<Record>, host: bytes, newHost: bytes, r: Record)
    requires r in rs && r.rdata.Srv?
    ensures r.rdata.host == host ==> r.(rdata := r.rdata.(host := newHost)) in Moving(rs, host, newHost)
    ensures r.rdata.host != host ==> r in Staying(rs, host)
  {
    if rs[|rs| - 1] != r {
      MovingHas(rs[..|rs| - 1], host, newHost, r);
    }
  }

  /** A new name of a host is followed by all SRV records: none points to the old one afterwards. */
  lemma NoneLeftBehind(reg: Reg, host: bytes, newHost: bytes, time: nat, reg': Reg, n: bytes)
    requires HostUpdated(reg, host, newHost, time, reg') && host != newHost
    ensures forall r <- Under(RecordsIn(reg'.probing), n) + Under(reg'.active, n) ::
              !(r.rdata.Srv? && r.rdata.host == host)
  {
    hide Sorted, Staying, Moving;
    if n in reg'.probing {
      ProbeHasNone(reg, host, newHost, time, reg', n);
    }
  }

  lemma ProbeHasNone(reg: Reg, host: bytes, newHost: bytes, time: nat, reg': Reg, n: bytes)
    requires HostUpdated(reg, host, newHost, time, reg') && host != newHost && n in reg'.probing
    ensures forall r <- reg'.probing[n].records :: !(r.rdata.Srv? && r.rdata.host == host)
  {
    hide Sorted, Staying, Moving, Under, RecordsIn;
    assert Reprobed(reg, n, host, newHost, time, reg'.probing[n]);
    var staying, moved := Staying(ProbeOrNew(reg, n, time).records, host), Moved(reg, n, host, newHost);
    forall r <- reg'.probing[n].records
      ensures !(r.rdata.Srv? && r.rdata.host == host)
    {
      assert r in multiset(reg'.probing[n].records);
      assert r in staying || r in moved;
    }
  }

  /** Each of them is in the probe for its name, which is started again, with the new host and all else as before. */
  lemma AllFollow(reg: Reg, host: bytes, newHost: bytes, time: nat, reg': Reg, n: bytes, r: Record)
    requires HostUpdated(reg, host, newHost, time, reg') && r.rdata.Srv? && r.rdata.host == host
    requires r in Under(RecordsIn(reg.probing), n) || r in Under(reg.active, n)
    ensures n in reg'.probing && reg'.probing[n].startTime == time
    ensures r.(rdata := r.rdata.(host := newHost)) in reg'.probing[n].records
  {
    hide Sorted, Staying, Moving;
    var p, a := Under(RecordsIn(reg.probing), n), Under(reg.active, n);
    if r in p { MovingHas(p, host, newHost, r); } else { MovingHas(a, host, newHost, r); }
    var moved := r.(rdata := r.rdata.(host := newHost));
    assert moved in Moved(reg, n, host, newHost);
    assert Reprobed(reg, n, host, newHost, time, reg'.probing[n]);
    assert moved in multiset(reg'.probing[n].records);
  }

  /** No record is lost on the way, whether it stays or moves. */
  lemma HostUpdateKeeps(reg: Reg, host: bytes, newHost: bytes, time: nat, reg': Reg)
    requires HostUpdated(reg, host, newHost, time, reg')
    ensures Census(reg') == Census(reg)
    ensures RegOk(reg) ==> RegOk(reg')
  {
    hide *;
    HostUpdateCensus(reg, host, newHost, time, reg');
    if RegOk(reg) { HostUpdateFiles(reg, host, newHost, time, reg'); }
  }

  lemma HostUpdateCensus(reg: Reg, host: bytes, newHost: bytes, time: nat, reg': Reg)
    requires HostUpdated(reg, host, newHost, time, reg')
    ensures Census(reg') == Census(reg)
  {
    hide HostUpdated, SameAt, Bag;
    var names := reg.probing.Keys + reg.active.Keys + reg'.probing.Keys + reg'.active.Keys;
    forall n <- names
      ensures SameAt(RecordsIn(reg.probing), reg.active, RecordsIn(reg'.probing), reg'.active, n)
    {
      HostUpdateKeepsAt(reg, host, newHost, time, reg', n);
    }
    SameBags(RecordsIn(reg.probing), reg.active, RecordsIn(reg'.probing), reg'.active, names);
  }

  lemma HostUpdateKeepsAt(reg: Reg, host: bytes, newHost: bytes, time: nat, reg': Reg, n: bytes)
    requires HostUpdated(reg, host, newHost, time, reg')
    ensures SameAt(RecordsIn(reg.probing), reg.active, RecordsIn(reg'.probing), reg'.active, n)
  {
    hide CoreBag, Staying, Moving;
    var p, a := Under(RecordsIn(reg.probing), n), Under(reg.active, n);
    var p', a' := Under(RecordsIn(reg'.probing), n), Under(reg'.active, n);
    EmptySplit(host, newHost);
    StayingAndMoving(p, host, newHost);
    StayingAndMoving(a, host, newHost);
    assert a' == Staying(a, host);
    var moved := Moved(reg, n, host, newHost);
    var all := Staying(p, host) + moved;
    assert multiset(p') == multiset(all) by {
      if n in reg'.probing { assert Reprobed(reg, n, host, newHost, time, reg'.probing[n]); }
    }
    CoreBagOfSame(p', all);
    CoreBagConcat(Staying(p, host), moved);
    CoreBagConcat(Moving(p, host, newHost), Moving(a, host, newHost));
  }

  lemma EmptySplit(host: bytes, newHost: bytes)
    ensures Staying([], host) == [] && Moving([], host, newHost) == []
  {
  }

  lemma HostUpdateFilesAt(reg: Reg, host: bytes, newHost: bytes, time: nat, reg': Reg, n: bytes)
    requires RegOk(reg) && HostUpdated(reg, host, newHost, time, reg') && n in reg'.probing
    ensures Sorted(reg'.probing[n].records) && Filed(reg'.probing[n].records, n)
  {
    hide Staying, Moving, Sorted;
    assert Reprobed(reg, n, host, newHost, time, reg'.probing[n]);
    var p, a := ProbeOrNew(reg, n, time).records, Under(reg.active, n);
    MovingKeepsName(Under(RecordsIn(reg.probing), n), host, newHost, n);
    MovingKeepsName(p, host, newHost, n);
    MovingKeepsName(a, host, newHost, n);
    forall r <- reg'.probing[n].records
      ensures r.GetName() == n
    {
      assert r in multiset(reg'.probing[n].records);
    }
  }

  lemma HostUpdateFiles(reg: Reg, host: bytes, newHost: bytes, time: nat, reg': Reg)
    requires RegOk(reg) && HostUpdated(reg, host, newHost, time, reg')
    ensures RegOk(reg')
  {
    hide Staying, Moving, Sorted, Reprobed, Moved;
    forall n <- reg'.probing
      ensures Sorted(reg'.probing[n].records) && Filed(reg'.probing[n].records, n)
    {
      HostUpdateFilesAt(reg, host, newHost, time, reg', n);
    }
    forall n <- reg'.active
      ensures Filed(reg'.active[n], n)
    {
      MovingKeepsName(reg.active[n], host, newHost, n);
    }
  }
}
