// Instance names with dots or backslashes are escaped in the daemon, but come back unescaped from the wire.
module EscapedNames {
  import opened Bytes
  import opened DnsName
  import opened DnsRecords
  import opened Wire
  import opened RoundTrip
  import opened Renaming
  import opened Probes
  import opened RegistryState
  import opened RegistrySteps
  import opened RegistryRuns

  // ----- Conflicts -----

  lemma {:induction false} StayingHas(rs: seq<Record>, host: bytes, r: Record)
    requires r in rs && !PointsTo(r, host)
    ensures r in Staying(rs, host)
  {
    if rs[|rs| - 1] != r {
      StayingHas(rs[..|rs| - 1], host, r);
    }
  }

  /** New names for records of one probe leave those of another, but for SRV records that point to its name. */
  lemma {:induction false} AllRehomedLeaves(
    reg: Reg, from: bytes, rs: seq<Record>, waiting: set<bytes>, time: nat, reg': Reg, name: bytes, r: Record)
    requires AllRehomed(reg, from, rs, waiting, time, reg') && name in reg.probing
    requires r in reg.probing[name].records && !PointsTo(r, from)
    ensures name in reg'.probing && r in reg'.probing[name].records
    decreases |rs|
  {
    hide RehomedVia;
    if rs != [] {
      var n := |rs| - 1;
      var before: Reg :|
        AllRehomed(reg, from, rs[..n], waiting, time, before) && Rehomed(before, from, rs[n], waiting, time, reg');
      AllRehomedLeaves(reg, from, rs[..n], waiting, time, before, name, r);
      var mid: Reg :| RehomedVia(before, from, rs[n], waiting, time, mid, reg');
      RehomedLeaves(before, from, rs[n], waiting, time, mid, reg', name, r);
    }
  }

  lemma RehomedLeaves(
    reg: Reg, from: bytes, moved: Record, waiting: set<bytes>, time: nat, mid: Reg, reg': Reg, name: bytes, r: Record)
    requires RehomedVia(reg, from, moved, waiting, time, mid, reg') && name in reg.probing
    requires r in reg.probing[name].records && !PointsTo(r, from)
    ensures name in reg'.probing && r in reg'.probing[name].records
  {
    hide Sorted, Staying, Moving, Moved, Inserted, Record.GetName, PointsTo;
    StayingHas(reg.probing[name].records, from, r);
    assert Reprobed(reg, name, from, moved.GetName(), time, mid.probing[name]);
    assert r in multiset(mid.probing[name].records);
    if name == moved.GetName() {
      InsertedFacts(mid.probing[name].records, moved, reg'.probing[name].records);
      assert r in multiset(reg'.probing[name].records);
    }
  }

  /** An answer for another name leaves all records of a probe but SRV records that point to that name. */
  lemma AnsweredLeaves(reg: Reg, answer: Record, ifIndex: u32, time: nat, reg': Reg, name: bytes, r: Record)
    requires Answered(reg, answer, ifIndex, time, reg') && name in reg.probing && name != answer.GetName()
    requires r in reg.probing[name].records && !PointsTo(r, answer.GetName())
    ensures name in reg'.probing && r in reg'.probing[name].records
  {
    hide Harmless, AllRehomed, Kept, RenamedRecords;
    var from := answer.GetName();
    if from in reg.probing && !Harmless(reg.probing[from].records, answer, ifIndex) {
      var p := reg.probing[from];
      AllRehomedLeaves(WithoutConflicts(reg, from, answer), from, RenamedRecords(p.records, answer, from), p.waiting,
                       time, reg', name, r);
    }
  }

  /** A contradicted record that is not settled, nor will be by a new name of the host `elsewhere` that it points to. */
  ghost predicate Unsettled(reg: Reg, name: bytes, answer: Record, elsewhere: bytes) {
    name in reg.probing &&
    exists r <- reg.probing[name].records ::
      && Contradicts(answer, r) && !(r.rdata.Srv? && r.rdata.host in {HostChange(name), NameChange(name)})
      && (elsewhere in reg.probing && elsewhere != name ==> !PointsTo(r, elsewhere))
  }

  /**
   * A peer answers for the name of a probe with other data. The conflict is settled exactly if the name comes
   * back from the wire as it is. Otherwise the answer is taken to be for another name: all records stay
   * under their name, but for SRV records that point to that other name.
   */
  lemma ConflictIsSeenIff(
    reg: Reg, name: bytes, peer: Record, intf: InterfaceId, now: nat, ifIndex: u32, time: nat, reg': Reg)
    requires name in reg.probing && peer.GetName() == name
    requires var answer := EchoRecord(peer, 0, true, intf, now);
             && Answered(reg, answer, ifIndex, time, reg') && Unsettled(reg, name, answer, Dotted(name))
             && !Harmless(reg.probing[name].records, answer, ifIndex)
    ensures Settled(reg', name, EchoRecord(peer, 0, true, intf, now)) <==> Canonical(name)
    ensures !Canonical(name) ==>
              && (Dotted(name) !in reg.probing ==> reg' == reg)
              && name in reg'.probing
              && forall r <- reg.probing[name].records :: !PointsTo(r, Dotted(name)) ==> r in reg'.probing[name].records
  {
    hide Dotted, Harmless, EchoRData, AllRehomed, Contradicts, NameChange, HostChange;
    var answer := EchoRecord(peer, 0, true, intf, now);
    assert answer.GetName() == Dotted(name);
    if Canonical(name) {
      ConflictIsSettled(reg, answer, ifIndex, time, reg');
    } else {
      forall r <- reg.probing[name].records | !PointsTo(r, Dotted(name))
        ensures name in reg'.probing && r in reg'.probing[name].records
      {
        AnsweredLeaves(reg, answer, ifIndex, time, reg', name, r);
      }
      AnsweredStarts(reg, answer, ifIndex, time, reg', name);
    }
  }

  // ----- A peer that is renamed for -----

  /** The name of an instance that is called as ours is escaped comes back from the wire as our own. */
  lemma TwiceEscapedIsOurs(instance: bytes, ty: bytes)
    requires instance != [] && ty != [] && Canonical(ty)
    ensures Dotted(Escape(Escape(instance)) + [DOT] + ty) == Escape(instance) + [DOT] + ty
  {
    hide Scan, Text, Escape, Canonical;
    EscapeGrows(instance);
    InstanceStaysOneLabel(Escape(instance), ty);
    TextConcat(Close(Escape(instance)), Labels(ty));
    CloseText(Escape(instance));
    CanonicalText(ty);
  }

  lemma {:induction false} RenamedHas(rs: seq<Record>, answer: Record, name: bytes, r: Record)
    requires r in rs && Contradicts(answer, r)
    ensures RenamedRecord(r, name) in RenamedRecords(rs, answer, name)
  {
    hide Contradicts, RenamedRecord;
    if rs[|rs| - 1] != r {
      RenamedHas(rs[..|rs| - 1], answer, name, r);
    }
  }

  lemma {:induction false} AllRehomedFiles(
    reg: Reg, from: bytes, rs: seq<Record>, waiting: set<bytes>, time: nat, reg': Reg, r: Record)
    requires AllRehomed(reg, from, rs, waiting, time, reg') && r in rs
    ensures r.GetName() in reg'.probing
    decreases |rs|
  {
    hide HostUpdated, Inserted;
    var n := |rs| - 1;
    var before: Reg :|
      AllRehomed(reg, from, rs[..n], waiting, time, before) && Rehomed(before, from, rs[n], waiting, time, reg');
    if r != rs[n] {
      AllRehomedFiles(reg, from, rs[..n], waiting, time, before, r);
      RehomedStarts(before, from, rs[n], waiting, time, reg', r.GetName());
    }
  }

  /**
   * A peer whose instance is called as ours is escaped hits our probe, and a record of ours that it contradicts gets
   * a new name. That still is one label in front of the type exactly if our instance has no dot in front of its
   * last byte: otherwise the rename cuts it in two, at the first dot.
   */
  lemma OtherNameRenamesUs(
    reg: Reg, instance: bytes, ty: bytes, peer: Record, r: Record, intf: InterfaceId, now: nat, ifIndex: u32,
    time: nat, reg': Reg)
    requires instance != [] && ty != [] && Canonical(ty) && peer.GetName() == Escape(Escape(instance)) + [DOT] + ty
    requires var name, answer := Escape(instance) + [DOT] + ty, EchoRecord(peer, 0, true, intf, now);
             && name in reg.probing && !Harmless(reg.probing[name].records, answer, ifIndex)
             && r in reg.probing[name].records && !r.IsAddress() && Contradicts(answer, r)
             && Answered(reg, answer, ifIndex, time, reg')
    ensures var name, answer := Escape(instance) + [DOT] + ty, EchoRecord(peer, 0, true, intf, now);
            && answer.GetName() == name && Settled(reg', name, answer) && NameChange(name) in reg'.probing
            && ((exists l :: Labels(NameChange(name)) == [l] + Labels(ty)) <==> StaysWhole(instance))
  {
    var name, answer := Escape(instance) + [DOT] + ty, EchoRecord(peer, 0, true, intf, now);
    assert answer.GetName() == name by {
      hide Escape, Dotted;
      TwiceEscapedIsOurs(instance, ty);
    }
    hide Escape, Dotted, Labels, NameChange, HostChange, StaysWhole;
    hide Contradicts, AllRehomed, Settled, EchoRecord, Harmless;
    ConflictIsSettled(reg, answer, ifIndex, time, reg');
    RenameKeepsOneLabelIff(instance, ty);
    var p := reg.probing[name];
    RenamedHas(p.records, answer, name, r);
    AllRehomedFiles(WithoutConflicts(reg, name, answer), name, RenamedRecords(p.records, answer, name), p.waiting, time,
                    reg', RenamedRecord(r, name));
    assert RenamedRecord(r, name).GetName() == NameChange(name);
  }

  // ----- Such a peer, and its answer -----

  /** The peer can send its name exactly if our escaped instance fits in a label, and the type can be sent. */
  lemma OtherNameSendableIff(instance: bytes, ty: bytes)
    requires instance != [] && ty != []
    ensures NameTooLong(Escape(Escape(instance)) + [DOT] + ty) <==>
            |Escape(instance)| > MAX_LABEL_BYTES || NameTooLong(ty)
  {
    hide Labels, Escape;
    EscapeGrows(instance);
    InstanceStaysOneLabel(Escape(instance), ty);
    var labels := Labels(Escape(Escape(instance)) + [DOT] + ty);
    assert labels == [Escape(instance)] + Labels(ty);
    assert labels[0] in labels;
  }

  function TextUnder(name: bytes, text: bytes): Record {
    Record(name, 1, true, NewLife(120, 0), None, Txt(text))
  }

  function OneProbe(name: bytes, rs: seq<Record>): Reg {
    Reg(map[name := ProbeState(rs, {}, 0, 0)], map[], map[])
  }

  /** A new name for a registry without records: nothing moves. */
  lemma NothingMoves(name: bytes, newName: bytes, time: nat)
    ensures HostUpdated(OneProbe(name, []), name, newName, time, OneProbe(name, []))
  {
    var reg := OneProbe(name, []);
    forall n: bytes
      ensures Moved(reg, n, name, newName) == []
    {
      assert Under(RecordsIn(reg.probing), n) == [] && Under(reg.active, n) == [];
    }
    assert Staying([], name) == [];
    assert Reprobed(reg, name, name, newName, time, reg.probing[name]);
  }

  lemma InsertedAlone(r: Record)
    ensures Inserted([], r, [r])
  {
    assert GoodPlace([], r, 0) && InsertAt([], r, 0) == [r];
  }

  /** For every instance and type there is a registry in which that happens. */
  lemma OtherNameHappens(instance: bytes, ty: bytes, intf: InterfaceId, now: nat, ifIndex: u32, time: nat)
    returns (reg: Reg, peer: Record, r: Record, reg': Reg)
    requires instance != [] && ty != [] && Canonical(ty)
    ensures peer.GetName() == Escape(Escape(instance)) + [DOT] + ty
    ensures var name, answer := Escape(instance) + [DOT] + ty, EchoRecord(peer, 0, true, intf, now);
            && name in reg.probing && !Harmless(reg.probing[name].records, answer, ifIndex)
            && r in reg.probing[name].records && !r.IsAddress() && Contradicts(answer, r)
            && Answered(reg, answer, ifIndex, time, reg')
  {
    var name := Escape(instance) + [DOT] + ty;
    peer := TextUnder(Escape(Escape(instance)) + [DOT] + ty, [1, 97]);
    r := TextUnder(name, [0]);
    reg := OneProbe(name, [r]);
    var answer := EchoRecord(peer, 0, true, intf, now);
    assert answer.GetName() == name by {
      hide Escape, Dotted;
      TwiceEscapedIsOurs(instance, ty);
    }
    assert Contradicts(answer, r) && !answer.IsAddress();
    reg' := AnswerOnText(name, r, answer, ifIndex, time);
  }

  lemma AnswerOnText(name: bytes, r: Record, answer: Record, ifIndex: u32, time: nat) returns (reg': Reg)
    requires answer.GetName() == name && r.GetName() == r.name == name && Contradicts(answer, r) && !answer.IsAddress()
    ensures Answered(OneProbe(name, [r]), answer, ifIndex, time, reg')
  {
    hide NameChange, HostChange, Contradicts, HostUpdated, Inserted, Record.GetName;
    var reg, base, renamed := OneProbe(name, [r]), OneProbe(name, []), RenamedRecord(r, name);
    NewNamesDiffer(name);
    var newName := renamed.GetName();
    assert newName != name by { RenamedDiffers(r, name); }
    assert [r][..0] == [];
    assert RenamedRecords([r], answer, name) == [renamed];
    assert Kept([r], answer) == [];
    assert WithoutConflicts(reg, name, answer) == base;
    NothingMoves(name, newName, time);
    InsertedAlone(renamed);
    reg' := Reg(base.probing[newName := ProbeState([renamed], {}, time, time)], map[], map[renamed.name := newName]);
    assert RehomedVia(base, name, renamed, {}, time, base, reg');
    assert Rehomed(base, name, renamed, {}, time, reg');
    assert [renamed][..0] == [];
    assert AllRehomed(base, name, [], {}, time, base);
    assert AllRehomed(base, name, [renamed], {}, time, reg');
  }

  lemma RenamedDiffers(r: Record, name: bytes)
    requires r.GetName() == r.name == name
    ensures RenamedRecord(r, name).GetName() != name
  {
    hide NameChange, HostChange;
    NewNamesDiffer(name);
  }

  // ----- Renames -----

  /** A label that ends in something else than a backslash, and what follows its dot. */
  lemma {:induction false} ScanLabel(u: bytes, current: bytes, rest: bytes) returns (l: bytes)
    requires DOT !in u && u != [] && u[|u| - 1] != BACKSLASH
    ensures Scan(u + [DOT] + rest, current) == [l] + Scan(rest, []) && l != []
    decreases |u|
  {
    var s := u + [DOT] + rest;
    assert u[0] in u;
    if |u| == 1 {
      l := current + [u[0]];
      assert s[1..] == [DOT] + rest && ([DOT] + rest)[1..] == rest;
    } else if u[0] == BACKSLASH && u[1] == BACKSLASH {
      assert s[2..] == u[2..] + [DOT] + rest;
      l := ScanLabel(u[2..], current + [u[1]], rest);
    } else {
      assert u[1] in u;
      assert s[1..] == u[1..] + [DOT] + rest;
      l := ScanLabel(u[1..], current + [u[0]], rest);
    }
  }

  lemma {:induction false} EscapeConcat(a: bytes, b: bytes)
    ensures Escape(a + b) == Escape(a) + Escape(b)
  {
    if a == [] {
      assert a + b == b;
    } else {
      assert (a + b)[1..] == a[1..] + b;
      EscapeConcat(a[1..], b);
    }
  }

  lemma {:induction false} EscapeHasNoDot(name: bytes)
    requires DOT !in name
    ensures DOT !in Escape(name)
  {
    if name != [] {
      assert name[0] in name && forall b <- name[1..] :: b in name;
      EscapeHasNoDot(name[1..]);
    }
  }

  /** A numbered label has no more dots than before, and ends in a parenthesis. */
  lemma NumberedEnds(first: bytes)
    ensures DOT !in first ==> DOT !in NumberLabel(first)
    ensures var u := NumberLabel(first); u != [] && u[|u| - 1] == CLOSE
  {
    hide NumberLabel;
    var base, k := NumberLabelForm(first);
    TailsHaveNoDot(k);
    if DOT !in first { NoDotInPrefix(base, first); }
    NumberTailIs(k);
  }

  lemma StripBehind(front: bytes, ty: bytes)
    requires ty != []
    ensures StripDot(front + ty) == front + StripDot(ty)
  {
  }

  /** The renamed name of an instance whose name has no dot but perhaps its last byte. */
  predicate StaysWhole(instance: bytes) {
    forall i :: 0 <= i < |instance| - 1 ==> instance[i] != DOT
  }

  /**
   * After a conflict the instance is one label in front of the type still, exactly if its name has no dot
   * in front of its last byte: otherwise the rename cuts it in two, at the first dot.
   */
  lemma RenameKeepsOneLabelIff(instance: bytes, ty: bytes)
    requires ty != []
    ensures (exists l :: Labels(NameChange(Escape(instance) + [DOT] + ty)) == [l] + Labels(ty))
       <==> StaysWhole(instance)
  {
    hide Scan, NumberLabel, Escape;
    var at := FirstAt(instance, DOT);
    if at == |instance| {
      WholeInstance(instance, ty);
    } else {
      CutInstance(instance, ty, at);
    }
  }

  /** The name of an instance without a dot, after a conflict. */
  lemma WholeName(instance: bytes, ty: bytes) returns (u: bytes)
    requires DOT !in instance
    ensures DOT !in u && u != [] && u[|u| - 1] == CLOSE
    ensures NameChange(Escape(instance) + [DOT] + ty) == u + [DOT] + ty
  {
    hide NumberLabel, Escape, FirstAt;
    var first, rest := Escape(instance), [DOT] + ty;
    EscapeHasNoDot(instance);
    DotsAt(first, rest);
    assert Escape(instance) + [DOT] + ty == first + rest;
    assert (first + rest)[..|first|] == first && (first + rest)[|first|..] == rest;
    NumberedEnds(first);
    u := NumberLabel(first);
    assert u + rest == u + [DOT] + ty;
  }

  lemma WholeInstance(instance: bytes, ty: bytes)
    requires ty != [] && FirstAt(instance, DOT) == |instance|
    ensures exists l :: Labels(NameChange(Escape(instance) + [DOT] + ty)) == [l] + Labels(ty)
    ensures StaysWhole(instance)
  {
    hide Scan, NameChange, Escape, FirstAt;
    assert instance == instance[..|instance|];
    assert forall i :: 0 <= i < |instance| ==> instance[i] in instance;
    var u := WholeName(instance, ty);
    StripBehind(u + [DOT], ty);
    var l := ScanLabel(u, [], StripDot(ty));
  }

  /** The name of an instance with its first dot at `at`, after a conflict. */
  lemma CutName(instance: bytes, ty: bytes, at: nat) returns (u: bytes)
    requires FirstAt(instance, DOT) == at < |instance|
    ensures DOT !in u && u != [] && u[|u| - 1] == CLOSE
    ensures NameChange(Escape(instance) + [DOT] + ty) == u + [DOT] + (Escape(instance[at + 1..]) + [DOT] + ty)
  {
    hide NumberLabel, Escape, FirstAt;
    var x, y := instance[..at], instance[at + 1..];
    var first, rest := Escape(x) + [BACKSLASH], Escape(y) + [DOT] + ty;
    EscapeAround(instance, at);
    EscapeHasNoDot(x);
    var name := Escape(instance) + [DOT] + ty;
    assert name == first + ([DOT] + rest);
    DotsAt(first, [DOT] + rest);
    assert name[..|first|] == first && name[|first|..] == [DOT] + rest;
    NumberedEnds(first);
    u := NumberLabel(first);
    assert u + ([DOT] + rest) == u + [DOT] + rest;
  }

  lemma CutLabels(u: bytes, y: bytes, ty: bytes) returns (l: bytes)
    requires ty != [] && DOT !in u && u != [] && u[|u| - 1] == CLOSE
    ensures Labels(u + [DOT] + (Escape(y) + [DOT] + ty)) == [l] + (Close(y) + Labels(ty))
  {
    hide Scan, Escape;
    assert u + [DOT] + (Escape(y) + [DOT] + ty) == (u + [DOT] + Escape(y) + [DOT]) + ty;
    StripBehind(u + [DOT] + Escape(y) + [DOT], ty);
    assert (u + [DOT] + Escape(y) + [DOT]) + StripDot(ty) == u + [DOT] + (Escape(y) + [DOT] + StripDot(ty));
    l := ScanLabel(u, [], Escape(y) + [DOT] + StripDot(ty));
    ScanEscaped(y, [], StripDot(ty));
    assert [] + y == y;
  }

  lemma CutInstance(instance: bytes, ty: bytes, at: nat)
    requires ty != [] && FirstAt(instance, DOT) == at < |instance|
    ensures (exists l :: Labels(NameChange(Escape(instance) + [DOT] + ty)) == [l] + Labels(ty))
       <==> StaysWhole(instance)
  {
    hide Labels, NameChange, Escape, FirstAt;
    var y := instance[at + 1..];
    var u := CutName(instance, ty, at);
    var l := CutLabels(u, y, ty);
    var labels := Labels(NameChange(Escape(instance) + [DOT] + ty));
    assert labels == [l] + (Close(y) + Labels(ty));
    if y == [] {
      assert Close(y) + Labels(ty) == Labels(ty);
      forall i | 0 <= i < |instance| - 1
        ensures instance[i] != DOT
      {
        assert instance[i] == instance[..at][i];
        assert instance[i] in instance[..at];
      }
    } else {
      assert |labels| == 2 + |Labels(ty)|;
      assert instance[at] == DOT;
    }
  }

  lemma EscapeAround(instance: bytes, at: nat)
    requires at < |instance| && instance[at] == DOT
    ensures Escape(instance) == Escape(instance[..at]) + [BACKSLASH, DOT] + Escape(instance[at + 1..])
  {
    assert instance == instance[..at] + instance[at..];
    EscapeConcat(instance[..at], instance[at..]);
    assert instance[at..][1..] == instance[at + 1..];
  }
}
