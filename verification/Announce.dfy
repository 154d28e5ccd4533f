// Announcing a service (RFC 6762 section 8.3): only once all its unique records are through with probing.
module Announce {
  import opened Bytes
  import opened DnsRecords
  import opened Probes
  import opened RegistryState
  import opened RegistrySteps
  import opened RegistryRuns
  import opened DnsRegistry

  const CLASS_IN: u16 := 1
  const CLASS_UNIQUE: u16 := 0x8001

  datatype ServiceInfo = ServiceInfo(
    fullname: bytes, ty: bytes, subtype: Option<bytes>, hostname: bytes, otherTtl: u32, hostTtl: u32,
    priority: u16, weight: u16, port: u16, text: bytes, requiresProbe: bool)

  function ResolveName(reg: Reg, name: bytes): bytes {
    if name in reg.nameChanges then reg.nameChanges[name] else name
  }

  /** A record of the service, under its name after conflicts. */
  function OwnRecord(reg: Reg, name: bytes, ttl: u32, rdata: RData, now: nat): Record {
    var r := NewRecord(name, CLASS_UNIQUE, ttl, rdata, now);
    if name in reg.nameChanges then r.SetNewName(reg.nameChanges[name]) else r
  }

  function SrvOf(reg: Reg, info: ServiceInfo, now: nat): Record {
    OwnRecord(reg, info.fullname, info.hostTtl,
              Srv(info.priority, info.weight, info.port, ResolveName(reg, info.hostname)), now)
  }

  function TxtOf(reg: Reg, info: ServiceInfo, now: nat): Record {
    OwnRecord(reg, info.fullname, info.otherTtl, Txt(info.text), now)
  }

  function AddressesOf(reg: Reg, info: ServiceInfo, addrs: seq<RData>, now: nat): seq<Record> {
    if addrs == [] then []
    else
      var n := |addrs| - 1;
      AddressesOf(reg, info, addrs[..n], now) + [OwnRecord(reg, info.hostname, info.hostTtl, addrs[n], now)]
  }

  /** The unique records of a service on one interface. */
  function UniqueRecords(reg: Reg, info: ServiceInfo, addrs: seq<RData>, now: nat): seq<Record> {
    [SrvOf(reg, info, now), TxtOf(reg, info, now)] + AddressesOf(reg, info, addrs, now)
  }

  /** The shared records. */
  function Pointers(reg: Reg, info: ServiceInfo, now: nat): seq<Record> {
    var alias := Pointer(false, ResolveName(reg, info.fullname));
    [NewRecord(info.ty, CLASS_IN, info.otherTtl, alias, now)] +
    match info.subtype
    case Some(sub) => [NewRecord(sub, CLASS_IN, info.otherTtl, alias, now)]
    case None => []
  }

  predicate AllActive(reg: Reg, rs: seq<Record>) {
    forall r <- rs :: IsActive(reg, r)
  }

  /** `rs` have been asked for one after the other. */
  ghost predicate AllAsked(reg: Reg, rs: seq<Record>, service: bytes, time: nat, reg': Reg)
    decreases |rs|
  {
    if rs == [] then reg' == reg
    else
      var n := |rs| - 1;
      exists before: Reg ::
        AllAsked(reg, rs[..n], service, time, before) && Asked(before, rs[n], service, time, reg')
  }

  /** How far the announcement has come: `rs` have been asked for. */
  ghost predicate SoFar(
    reg: Reg, info: ServiceInfo, rs: seq<Record>, time: nat, reg': Reg, pointers: seq<Record>, answers: seq<Record>,
    probingCount: nat)
  {
    && (if info.requiresProbe then AllAsked(reg, rs, info.fullname, time, reg') else reg' == reg)
    && reg'.active == reg.active && reg'.nameChanges == reg.nameChanges
    && (probingCount == 0 <==> info.requiresProbe ==> AllActive(reg, rs))
    && (probingCount == 0 ==> answers == pointers + rs && reg' == reg)
  }

  lemma SoFarNothing(reg: Reg, info: ServiceInfo, time: nat, pointers: seq<Record>)
    ensures SoFar(reg, info, [], time, reg, pointers, pointers, 0)
  {
    assert pointers + [] == pointers;
  }

  lemma SoFarMore(
    reg: Reg, info: ServiceInfo, rs: seq<Record>, time: nat, reg': Reg, pointers: seq<Record>, answers: seq<Record>,
    probingCount: nat, r: Record, reg'': Reg, usable: bool)
    requires SoFar(reg, info, rs, time, reg', pointers, answers, probingCount)
    requires usable <==> info.requiresProbe ==> IsActive(reg', r)
    requires if info.requiresProbe then Asked(reg', r, info.fullname, time, reg'') else reg'' == reg'
    ensures SoFar(reg, info, rs + [r], time, reg'', pointers,
                  if usable then answers + [r] else answers, if usable then probingCount else probingCount + 1)
  {
    hide Record.Matches, Inserted, Record.GetName, Listed;
    assert (rs + [r])[..|rs|] == rs;
    assert pointers + (rs + [r]) == pointers + rs + [r];
    assert AllActive(reg, rs + [r]) <==> AllActive(reg, rs) && IsActive(reg, r) by {
      assert forall x :: x in rs + [r] <==> x in rs || x == r;
    }
  }

  /** Whether a record may be announced, as far as probing goes. */
  method Claim(registry: DnsRegistry, info: ServiceInfo, record: Record, createTime: nat)
    returns (usable: bool)
    requires RegOk(registry.Value())
    modifies registry`probing, registry`newTimers
    ensures RegOk(registry.Value())
    ensures usable <==> info.requiresProbe ==> IsActive(old(registry.Value()), record)
    ensures if info.requiresProbe then Asked(old(registry.Value()), record, info.fullname, createTime, registry.Value())
            else registry.Value() == old(registry.Value())
  {
    hide RegOk, Asked, IsActive;
    if !info.requiresProbe {
      return true;
    }
    usable := registry.IsProbingDone(record, info.fullname, createTime);
  }

  /**
   * The announcement of a service, or nothing if it has no address here or is still probing. What is
   * announced is all shared and unique records; each unique one is active if the service has to probe.
   */
  method PrepareAnnounce(
      info: ServiceInfo, addrs: seq<RData>, registry: DnsRegistry, now: nat, createTime: nat)
    returns (out: Option<seq<Record>>)
    requires RegOk(registry.Value())
    modifies registry`probing, registry`newTimers
    ensures RegOk(registry.Value())
    ensures var reg, reg' := old(registry.Value()), registry.Value();
            var unique := UniqueRecords(reg, info, addrs, now);
            && (out.Some? <==> addrs != [] && (info.requiresProbe ==> AllActive(reg, unique)))
            && (out.Some? ==> out.value == Pointers(reg, info, now) + unique && reg' == reg)
            && (out.Some? ==> Announces(reg, info, addrs, now, out.value))
            && (if addrs != [] && info.requiresProbe then AllAsked(reg, unique, info.fullname, createTime, reg')
                else reg' == reg)
  {
    hide RegOk, AllAsked, AllActive, Asked, IsActive, SoFar, OwnRecord, Announces;
    if addrs == [] {
      return None;
    }
    ghost var reg := registry.Value();
    var serviceFullname := ResolveName(registry.Value(), info.fullname);
    var probingCount := 0;
    var answers := [NewRecord(info.ty, CLASS_IN, info.otherTtl, Pointer(false, serviceFullname), now)];
    if info.subtype.Some? {
      var subtype := NewRecord(info.subtype.value, CLASS_IN, info.otherTtl, Pointer(false, serviceFullname), now);
      answers := answers + [subtype];
    }
    ghost var pointers := answers;
    assert pointers == Pointers(reg, info, now);
    SoFarNothing(reg, info, createTime, pointers);

    var srv := SrvOf(registry.Value(), info, now);
    var usable := Claim(registry, info, srv, createTime);
    SoFarMore(reg, info, [], createTime, reg, pointers, answers, probingCount, srv, registry.Value(), usable);
    if usable { answers := answers + [srv]; } else { probingCount := probingCount + 1; }
    assert [] + [srv] == [srv];

    ghost var reg1 := registry.Value();
    SoFarKeepsNames(reg, info, [srv], createTime, reg1, pointers, answers, probingCount);
    var txt := TxtOf(registry.Value(), info, now);
    usable := Claim(registry, info, txt, createTime);
    SoFarMore(reg, info, [srv], createTime, reg1, pointers, answers, probingCount, txt, registry.Value(), usable);
    if usable { answers := answers + [txt]; } else { probingCount := probingCount + 1; }
    assert txt == TxtOf(reg, info, now) by { SameNames(reg, reg1, info, now); }

    ghost var rs := [srv] + [txt];
    for i := 0 to |addrs|
      invariant RegOk(registry.Value())
      invariant rs == [srv, txt] + AddressesOf(reg, info, addrs[..i], now)
      invariant SoFar(reg, info, rs, createTime, registry.Value(), pointers, answers, probingCount)
    {
      ghost var reg2 := registry.Value();
      SoFarKeepsNames(reg, info, rs, createTime, reg2, pointers, answers, probingCount);
      var dnsAddr := OwnRecord(registry.Value(), info.hostname, info.hostTtl, addrs[i], now);
      SameOwn(reg, reg2, info.hostname, info.hostTtl, addrs[i], now);
      usable := Claim(registry, info, dnsAddr, createTime);
      SoFarMore(reg, info, rs, createTime, reg2, pointers, answers, probingCount, dnsAddr, registry.Value(), usable);
      if usable { answers := answers + [dnsAddr]; } else { probingCount := probingCount + 1; }
      rs := rs + [dnsAddr];
      assert addrs[..i + 1][..i] == addrs[..i];
    }
    assert addrs[..|addrs|] == addrs;
    Concluded(reg, info, rs, createTime, registry.Value(), pointers, answers, probingCount);
    if probingCount > 0 {
      return None;
    }
    AnnouncementFields(reg, info, addrs, now);
    return Some(answers);
  }

  lemma SoFarKeepsNames(
    reg: Reg, info: ServiceInfo, rs: seq<Record>, time: nat, reg': Reg, pointers: seq<Record>, answers: seq<Record>,
    probingCount: nat)
    requires SoFar(reg, info, rs, time, reg', pointers, answers, probingCount)
    ensures reg'.nameChanges == reg.nameChanges
  {
  }

  lemma Concluded(
    reg: Reg, info: ServiceInfo, rs: seq<Record>, time: nat, reg': Reg, pointers: seq<Record>, answers: seq<Record>,
    probingCount: nat)
    requires SoFar(reg, info, rs, time, reg', pointers, answers, probingCount)
    ensures if info.requiresProbe then AllAsked(reg, rs, info.fullname, time, reg') else reg' == reg
    ensures probingCount == 0 <==> info.requiresProbe ==> AllActive(reg, rs)
    ensures probingCount == 0 ==> answers == pointers + rs && reg' == reg
  {
  }

  lemma SameOwn(reg: Reg, reg': Reg, name: bytes, ttl: u32, rdata: RData, now: nat)
    requires reg'.nameChanges == reg.nameChanges
    ensures OwnRecord(reg', name, ttl, rdata, now) == OwnRecord(reg, name, ttl, rdata, now)
  {
  }

  lemma SameNames(reg: Reg, reg': Reg, info: ServiceInfo, now: nat)
    requires reg'.nameChanges == reg.nameChanges
    ensures TxtOf(reg', info, now) == TxtOf(reg, info, now)
  {
  }

  /** The records of an announcement belong together, however often the service and its host were renamed. */
  lemma AnnouncedNamesAgree(reg: Reg, info: ServiceInfo, addrs: seq<RData>, now: nat)
    ensures var srv, txt := SrvOf(reg, info, now), TxtOf(reg, info, now);
            && (forall p <- Pointers(reg, info, now) :: p.rdata.Pointer? && p.rdata.alias == srv.GetName())
            && txt.GetName() == srv.GetName()
            && srv.rdata.Srv?
            && (forall a <- AddressesOf(reg, info, addrs, now) :: a.GetName() == srv.rdata.host)
  {
    OwnNames(reg, info.fullname, info.hostTtl, SrvOf(reg, info, now).rdata, now);
    OwnNames(reg, info.fullname, info.otherTtl, Txt(info.text), now);
    AddressNames(reg, info, addrs, now);
  }

  /** The name that conflicts have left for `name`. */
  function Current(reg: Reg, name: bytes): bytes {
    if name in reg.nameChanges then reg.nameChanges[name] else name
  }

  /** A record of class IN that lives for `ttl` seconds from `now`. */
  predicate Lives(r: Record, ttl: u32, now: nat) {
    && r.rrclass == 1 && r.life.ttl == ttl && r.life.created == now && r.life.expires == now + 1000 * ttl
  }

  /** A shared PTR record from `owner` to the service. */
  predicate IsPointer(r: Record, reg: Reg, owner: bytes, info: ServiceInfo, now: nat) {
    && r.name == r.GetName() == owner && !r.flush && Lives(r, info.otherTtl, now)
    && r.rdata == Pointer(false, Current(reg, info.fullname))
  }

  /** A unique record: its original name, its name by now, and the cache-flush bit. */
  predicate IsUnique(r: Record, reg: Reg, original: bytes, ttl: u32, now: nat) {
    r.name == original && r.GetName() == Current(reg, original) && r.flush && Lives(r, ttl, now)
  }

  predicate IsAddress(r: Record, reg: Reg, info: ServiceInfo, address: RData, now: nat) {
    IsUnique(r, reg, info.hostname, info.hostTtl, now) && r.rdata == address
  }

  /**
   * RFC 6763 section 12.1 and RFC 2782, field by field: the PTR records of type and subtype, the SRV record with
   * priority, weight, port and host of the service, its TXT record, and a record for each of its addresses.
   */
  predicate Announces(reg: Reg, info: ServiceInfo, addrs: seq<RData>, now: nat, rs: seq<Record>) {
    var n := if info.subtype.Some? then 2 else 1;
    && |rs| == n + 2 + |addrs|
    && IsPointer(rs[0], reg, info.ty, info, now)
    && (info.subtype.Some? ==> IsPointer(rs[1], reg, info.subtype.value, info, now))
    && IsUnique(rs[n], reg, info.fullname, info.hostTtl, now)
    && rs[n].rdata.Srv? && rs[n].rdata.priority == info.priority && rs[n].rdata.weight == info.weight
    && rs[n].rdata.port == info.port && rs[n].rdata.host == Current(reg, info.hostname)
    && IsUnique(rs[n + 1], reg, info.fullname, info.otherTtl, now) && rs[n + 1].rdata == Txt(info.text)
    && forall i :: 0 <= i < |addrs| ==> IsAddress(rs[n + 2 + i], reg, info, addrs[i], now)
  }

  lemma {:induction false} AddressFields(reg: Reg, info: ServiceInfo, addrs: seq<RData>, now: nat)
    ensures var rs := AddressesOf(reg, info, addrs, now);
            && |rs| == |addrs|
            && forall i :: 0 <= i < |addrs| ==> IsAddress(rs[i], reg, info, addrs[i], now)
  {
    if addrs != [] {
      AddressFields(reg, info, addrs[..|addrs| - 1], now);
      OwnFields(reg, info.hostname, info.hostTtl, addrs[|addrs| - 1], now);
      hide OwnRecord, IsUnique;
    }
  }

  lemma OwnFields(reg: Reg, name: bytes, ttl: u32, rdata: RData, now: nat)
    ensures var r := OwnRecord(reg, name, ttl, rdata, now); IsUnique(r, reg, name, ttl, now) && r.rdata == rdata
  {
  }

  /** What is announced is right in every field. */
  lemma AnnouncementFields(reg: Reg, info: ServiceInfo, addrs: seq<RData>, now: nat)
    ensures Announces(reg, info, addrs, now, Pointers(reg, info, now) + UniqueRecords(reg, info, addrs, now))
  {
    hide OwnRecord, IsUnique, IsPointer, IsAddress, Pointers, UniqueRecords;
    PointerFields(reg, info, now);
    UniqueFields(reg, info, addrs, now);
    var ps, us := Pointers(reg, info, now), UniqueRecords(reg, info, addrs, now);
    forall i | 0 <= i < |addrs|
      ensures IsAddress((ps + us)[|ps| + 2 + i], reg, info, addrs[i], now)
    {
      assert (ps + us)[|ps| + 2 + i] == us[2 + i];
    }
  }

  lemma PointerFields(reg: Reg, info: ServiceInfo, now: nat)
    ensures var ps := Pointers(reg, info, now);
            && |ps| == (if info.subtype.Some? then 2 else 1)
            && IsPointer(ps[0], reg, info.ty, info, now)
            && (info.subtype.Some? ==> IsPointer(ps[1], reg, info.subtype.value, info, now))
  {
  }

  lemma UniqueFields(reg: Reg, info: ServiceInfo, addrs: seq<RData>, now: nat)
    ensures var us := UniqueRecords(reg, info, addrs, now);
            && |us| == 2 + |addrs|
            && IsUnique(us[0], reg, info.fullname, info.hostTtl, now)
            && us[0].rdata == Srv(info.priority, info.weight, info.port, Current(reg, info.hostname))
            && IsUnique(us[1], reg, info.fullname, info.otherTtl, now) && us[1].rdata == Txt(info.text)
            && forall i :: 0 <= i < |addrs| ==> IsAddress(us[2 + i], reg, info, addrs[i], now)
  {
    hide OwnRecord, IsUnique;
    AddressFields(reg, info, addrs, now);
    OwnFields(reg, info.fullname, info.hostTtl, SrvOf(reg, info, now).rdata, now);
    OwnFields(reg, info.fullname, info.otherTtl, Txt(info.text), now);
    SrvFields(reg, info, now);
    var us, addresses := UniqueRecords(reg, info, addrs, now), AddressesOf(reg, info, addrs, now);
    assert us == [SrvOf(reg, info, now), TxtOf(reg, info, now)] + addresses;
    assert forall i :: 0 <= i < |addrs| ==> us[2 + i] == addresses[i];
  }

  lemma SrvFields(reg: Reg, info: ServiceInfo, now: nat)
    ensures SrvOf(reg, info, now).rdata == Srv(info.priority, info.weight, info.port, Current(reg, info.hostname))
  {
  }

  lemma OwnNames(reg: Reg, name: bytes, ttl: u32, rdata: RData, now: nat)
    ensures OwnRecord(reg, name, ttl, rdata, now).GetName() == ResolveName(reg, name)
  {
  }

  lemma {:induction false} AddressNames(reg: Reg, info: ServiceInfo, addrs: seq<RData>, now: nat)
    ensures forall a <- AddressesOf(reg, info, addrs, now) :: a.GetName() == ResolveName(reg, info.hostname)
  {
    if addrs != [] {
      hide OwnRecord, ResolveName;
      AddressNames(reg, info, addrs[..|addrs| - 1], now);
      OwnNames(reg, info.hostname, info.hostTtl, addrs[|addrs| - 1], now);
    }
  }

  /**
   * No premature announcement: in every run of the registry, if a service that has to probe is announced,
   * then each of its unique records matches an active one whose probe has had its 750 milliseconds.
   */
  lemma NoPrematureAnnouncement(
    regs: seq<Reg>, ops: seq<Op>, info: ServiceInfo, addrs: seq<RData>, now: nat, record: Record)
    requires Run(regs, ops)
    requires AllActive(regs[|ops|], UniqueRecords(regs[|ops|], info, addrs, now))
    requires record in UniqueRecords(regs[|ops|], info, addrs, now)
    ensures exists r, j ::
              record.Matches(r) && 0 <= j < |ops| && ProbedFor(regs[j], ops[j], record.GetName(), r)
  {
    hide UniqueRecords, Record.Matches, Step, ProbedFor, Record.GetName;
    var reg, name := regs[|ops|], record.GetName();
    assert IsActive(reg, record);
    var r :| r in reg.active[name] && record.Matches(r);
    ActiveWasProbed(regs, ops, name, r);
  }

  // ----- What a probe does not promise -----

  /**
   * The 750 milliseconds are those of the probe, not of the record. A record that is asked for and is not
   * active yet becomes active in the very same millisecond, exactly if there is a probe for its name that is
   * due and has had its time; it need not have been in a query.
   */
  lemma LateRecordsJoinIff(reg: Reg, record: Record, service: bytes, reg': Reg, now: nat)
    requires RegOk(reg) && Asked(reg, record, service, now, reg') && !IsActive(reg, record)
    ensures var name := record.GetName();
            IsActive(Polled(reg', now), record) <==>
            name in reg.probing && now >= reg.probing[name].nextSend && reg.probing[name].Expired(now)
  {
    hide Record.Matches, Sorted, Inserted, Listed, Record.GetName;
    var name := record.GetName();
    var p' := reg'.probing[name];
    JoinedIsListed(ProbeOrNew(reg, name, now), record, p');
    if now >= p'.nextSend && p'.Expired(now) {
      assert Polled(reg', now).active[name] == Under(reg'.active, name) + p'.records
          || (p'.records == [] && name !in Polled(reg', now).active);
      ListedInEither(Under(reg'.active, name), p'.records, record);
    } else {
      assert Under(Polled(reg', now).active, name) == Under(reg.active, name);
    }
  }

  lemma JoinedIsListed(p: ProbeState, record: Record, p': ProbeState)
    requires if Listed(p.records, record) then p'.records == p.records else Inserted(p.records, record, p'.records)
    ensures Listed(p'.records, record) && p'.records != []
  {
    hide Record.Matches, Sorted, Inserted;
    if !Listed(p.records, record) {
      InsertedFacts(p.records, record, p'.records);
      MatchesSelf(record);
      assert record in p'.records;
    }
  }

  lemma ListedInEither(a: seq<Record>, b: seq<Record>, record: Record)
    ensures Listed(b, record) ==> Listed(a + b, record)
  {
    if Listed(b, record) {
      var r :| r in b && record.Matches(r);
      assert r in a + b;
    }
  }

  lemma MatchesSelf(r: Record)
    ensures r.Matches(r)
  {
  }
}
