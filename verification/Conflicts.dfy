// Which answers of a peer are conflicts, and what becomes of the records that they are about (RFC 6762 section 9).
module Conflicts {
  import opened Bytes
  import opened DnsRecords
  import opened Probes
  import opened RegistryState
  import opened RegistrySteps
  import opened RegistryRuns
  import opened Renaming
  import opened EscapedNames
  import opened StaleNames
  import opened Waiters

  /** Data of one type that are not the same; on which interface an address was seen does not matter. */
  predicate Differ(ours: RData, theirs: RData) {
    match (ours, theirs)
    case (Addr4(x, _), Addr4(y, _)) => x != y
    case (Addr6(x, _), Addr6(y, _)) => x != y
    case (Pointer(c, x), Pointer(c', y)) => c == c' && x != y
    case (Srv(p, w, q, h), Srv(p', w', q', h')) => p != p' || w != w' || q != q' || h != h'
    case (Txt(x), Txt(y)) => x != y
    case _ => false
  }

  predicate SameAddress(ours: RData, theirs: RData) {
    || (ours.Addr4? && theirs.Addr4? && ours.ip == theirs.ip)
    || (ours.Addr6? && theirs.Addr6? && ours.ip6 == theirs.ip6)
  }

  /** An address counts if it was seen on the link itself, and is none of the addresses that we have there. */
  predicate Counts(rs: seq<Record>, answer: Record, ifIndex: u32) {
    answer.rdata.Addr4? || answer.rdata.Addr6? ==>
      && answer.rdata.intf.index == ifIndex
      && forall o <- rs :: !(o.rrclass == answer.rrclass && SameAddress(o.rdata, answer.rdata))
  }

  /** The answer is a conflict for the record `r` among `rs`. */
  predicate Clashes(rs: seq<Record>, answer: Record, ifIndex: u32, r: Record) {
    Counts(rs, answer, ifIndex) && r.rrclass == answer.rrclass && Differ(r.rdata, answer.rdata)
  }

  lemma ClashIs(rs: seq<Record>, answer: Record, ifIndex: u32, r: Record)
    ensures Clashes(rs, answer, ifIndex, r) <==> Contradicts(answer, r) && !Harmless(rs, answer, ifIndex)
  {
  }

  /** Of SRV records, those that point to the name in question, or to what it is changed to, have another target. */
  predicate Elsewhere(r: Record, name: bytes) {
    r.rdata.Srv? ==> r.rdata.host !in {name, HostChange(name), NameChange(name)}
  }

  /** Without a clash, nothing happens. */
  lemma NoClashChangesNothing(reg: Reg, answer: Record, ifIndex: u32, time: nat, reg': Reg)
    requires Answered(reg, answer, ifIndex, time, reg') && answer.GetName() in reg.probing
    requires forall r <- reg.probing[answer.GetName()].records ::
               !Clashes(reg.probing[answer.GetName()].records, answer, ifIndex, r)
    ensures reg' == reg
  {
    hide Contradicts, Harmless, Clashes, Record.GetName;
    var name := answer.GetName();
    var p := reg.probing[name];
    forall r <- p.records
      ensures Contradicts(answer, r) ==> Harmless(p.records, answer, ifIndex)
    {
      ClashIs(p.records, answer, ifIndex, r);
    }
    if !Harmless(p.records, answer, ifIndex) {
      NoneContradicted(p.records, answer, name);
    }
  }

  lemma {:induction false} NoneContradicted(rs: seq<Record>, answer: Record, name: bytes)
    requires forall r <- rs :: !Contradicts(answer, r)
    ensures Kept(rs, answer) == rs && RenamedRecords(rs, answer, name) == []
  {
    if rs != [] {
      hide Contradicts;
      var front, last := rs[..|rs| - 1], rs[|rs| - 1];
      assert rs == front + [last] && last in rs;
      NoneContradicted(front, answer, name);
    }
  }

  /** A record that has a new name is in the probe for that name, and stays there while others are renamed. */
  lemma {:induction false} AllRehomedHas(
    reg: Reg, from: bytes, rs: seq<Record>, waiting: set<bytes>, time: nat, reg': Reg, r: Record)
    requires AllRehomed(reg, from, rs, waiting, time, reg') && r in rs && !PointsTo(r, from)
    ensures r.GetName() in reg'.probing && r in reg'.probing[r.GetName()].records
    decreases |rs|
  {
    hide HostUpdated, Sorted, PointsTo, Record.GetName, Inserted;
    var n := |rs| - 1;
    var before: Reg :|
      AllRehomed(reg, from, rs[..n], waiting, time, before) && Rehomed(before, from, rs[n], waiting, time, reg');
    var mid: Reg :| RehomedVia(before, from, rs[n], waiting, time, mid, reg');
    if r == rs[n] {
      InsertedFacts(ProbeOrNew(mid, r.GetName(), time).records, r, reg'.probing[r.GetName()].records);
    } else {
      AllRehomedHas(reg, from, rs[..n], waiting, time, before, r);
      RehomedLeaves(before, from, rs[n], waiting, time, mid, reg', r.GetName(), r);
    }
  }

  /** The changed name for a record: that of a host for an address. */
  function NewNameFor(r: Record, name: bytes): bytes {
    if r.rdata.Addr4? || r.rdata.Addr6? then HostChange(name) else NameChange(name)
  }

  /** `r` under another name; its original name is no new name. */
  function UnderName(r: Record, name: bytes): Record {
    r.(newName := if name == r.name then None else Some(name))
  }

  /**
   * An answer for the name of a probe leaves a record under this name exactly if it does not clash with it; a
   * record with which it clashes is in the probe for the changed name, with its original name and its data.
   */
  lemma RenamedIff(reg: Reg, answer: Record, ifIndex: u32, time: nat, reg': Reg, r: Record)
    requires Answered(reg, answer, ifIndex, time, reg') && answer.GetName() in reg.probing
    requires r in reg.probing[answer.GetName()].records && Elsewhere(r, answer.GetName())
    ensures var name := answer.GetName();
            var rs, newName := reg.probing[name].records, NewNameFor(r, name);
            && name in reg'.probing
            && (r in reg'.probing[name].records <==> !Clashes(rs, answer, ifIndex, r))
            && (Clashes(rs, answer, ifIndex, r) ==>
                  && newName != name && newName in reg'.probing
                  && UnderName(r, newName) in reg'.probing[newName].records
                  && reg.probing[name].waiting <= reg'.probing[newName].waiting)
  {
    hide Contradicts, Harmless, Clashes, HostChange, NameChange, AllRehomed, Sorted, RenamedRecords;
    var name := answer.GetName();
    var p := reg.probing[name];
    ClashIs(p.records, answer, ifIndex, r);
    if Harmless(p.records, answer, ifIndex) {
      assert reg' == reg;
    } else {
      StaleIff(reg, answer, ifIndex, time, reg', r);
      NewNamesDiffer(name);
      if Contradicts(answer, r) {
        RenamedHas(p.records, answer, name, r);
        assert RenamedRecord(r, name) == UnderName(r, NewNameFor(r, name));
        AllRehomedHas(WithoutConflicts(reg, name, answer), name, RenamedRecords(p.records, answer, name), p.waiting,
                      time, reg', UnderName(r, NewNameFor(r, name)));
        forall service <- p.waiting
          ensures Waits(reg', NewNameFor(r, name), service)
        {
          RehomedWaits(WithoutConflicts(reg, name, answer), name, RenamedRecords(p.records, answer, name), p.waiting,
                       time, reg', UnderName(r, NewNameFor(r, name)), service);
        }
      }
    }
  }
}
