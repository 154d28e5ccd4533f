// The query of a host that probes, on its way to a peer that probes, too: packet by packet.
module ProbeQueries {
  import opened Bytes
  import opened DnsName
  import opened DnsRecords
  import opened Wire
  import opened NameReader
  import opened PacketWriter
  import opened Encoding
  import opened Packing
  import opened PacketBuilder
  import opened PacketReader
  import opened RoundTrip
  import opened MessageRoundTrip
  import opened Tiebreak
  import opened Probes
  import RegistryState
  import RegistrySteps
  import DnsRegistry

  type Reg = RegistryState.Reg

  /** The size limit and IP version by which a query is sent, and the interface at which it arrives. */
  datatype Path = Path(maxSize: nat, isIpv4: bool, intf: InterfaceId) {
    function Lim(): Limits {
      LimitsOf(maxSize, isIpv4)
    }

    predicate Legal() {
      maxSize <= MAX_PKT_ABSOLUTE_IPV6
    }
  }

  /** The query for the probes `asked`. */
  function Query(peer: Reg, asked: seq<bytes>): Outgoing
    requires forall n <- asked :: n in peer.probing
  {
    Outgoing(0, 0, true, DnsRegistry.Questions(asked), [], DnsRegistry.RecordsOf(peer.probing, asked), [])
  }

  /** What its packets hold. */
  function Sent(out: Outgoing, path: Path): seq<seq<Item>> {
    Packets(out.Items(), path.Lim())
  }

  /** Its packets as bytes. */
  function OnWire(out: Outgoing, path: Path): seq<bytes> {
    var sent := Sent(out, path);
    seq(|sent|, k requires 0 <= k < |sent| => Sealed(out.WireId(), FlagsOf(out, k, |sent|), sent[k]))
  }

  /** Each packet is a message of its own for the host that it arrives at. */
  function Receive(reg: Reg, d: bytes, intf: InterfaceId, now: nat): Reg {
    match Parse(d, intf, now)
    case Got(m, _) =>
      if m.flags < 0x8000 then RegistrySteps.TiedAll(reg, m.questions, m.authorities, |m.questions|, now) else reg
    case _ => reg
  }

  /** After `n` packets, each at its time. */
  function Received(reg: Reg, packets: seq<bytes>, intf: InterfaceId, times: seq<nat>, n: nat): Reg
    requires n <= |packets| == |times|
  {
    if n == 0 then reg else Receive(Received(reg, packets, intf, times, n - 1), packets[n - 1], intf, times[n - 1])
  }

  /** The question for `name` is in the packet, as it will be read. */
  ghost predicate AskedIn(items: seq<Item>, name: bytes) {
    exists i <- items :: i.Ask? && i.question.ty == ANY && Dotted(i.question.name) == name
  }

  /** The records in the packet that the question for `name` is about. */
  function For(items: seq<Item>, name: bytes): seq<Record> {
    if items == [] then []
    else
      var last := items[|items| - 1];
      For(items[..|items| - 1], name)
      + if last.Tell? && last.section == Authorities && Dotted(last.rec.GetName()) == name then [last.rec] else []
  }

  /** A list of records as a peer sees it. */
  function Seen(rs: seq<Record>, intf: InterfaceId, now: nat): seq<Record> {
    if rs == [] then [] else [EchoRecord(rs[0], 0, false, intf, now)] + Seen(rs[1..], intf, now)
  }

  lemma {:induction false} SeenMore(rs: seq<Record>, r: Record, intf: InterfaceId, now: nat)
    ensures Seen(rs + [r], intf, now) == Seen(rs, intf, now) + [EchoRecord(r, 0, false, intf, now)]
  {
    hide EchoRecord;
    if rs == [] {
      assert [r][1..] == [] && [] + [r] == [r];
    } else {
      assert (rs + [r])[1..] == rs[1..] + [r];
      SeenMore(rs[1..], r, intf, now);
    }
  }

  lemma {:induction false} SeenPrefix(rs: seq<Record>, m: nat, intf: InterfaceId, now: nat)
    requires m <= |rs|
    ensures |Seen(rs, intf, now)| == |rs| && Seen(rs[..m], intf, now) == Seen(rs, intf, now)[..m]
  {
    hide EchoRecord;
    if m > 0 {
      SeenPrefix(rs[1..], m - 1, intf, now);
      assert rs[..m][1..] == rs[1..][..m - 1];
    } else if rs != [] {
      SeenPrefix(rs[1..], 0, intf, now);
    }
  }

  // ----- One packet -----

  /** Records in the authority section are sent with their whole TTL. */
  predicate WholeTtl(items: seq<Item>) {
    forall i <- items :: i.Tell? && i.section == Authorities ==> i.time == 0
  }

  lemma ForNameMore(rs: seq<Record>, r: Record, name: bytes)
    ensures ForName(rs + [r], name, |rs| + 1) == ForName(rs, name, |rs|) + if r.GetName() == name then [r] else []
  {
    ForNamePrefix(rs, [r], name, |rs|);
  }

  lemma {:induction false} ForNamePrefix(rs: seq<Record>, more: seq<Record>, name: bytes, n: nat)
    requires n <= |rs|
    ensures ForName(rs + more, name, n) == ForName(rs, name, n)
  {
    if n > 0 {
      hide Record.GetName;
      ForNamePrefix(rs, more, name, n - 1);
    }
  }

  lemma EchoMore(items: seq<Item>, last: Item, intf: InterfaceId, now: nat)
    requires (forall i <- items :: i.Tell?) && last.Tell? && last.time == 0
    ensures EchoRecords(items + [last], false, intf, now)
         == EchoRecords(items, false, intf, now) + [EchoRecord(last.rec, 0, false, intf, now)]
  {
    hide EchoRecord;
  }

  /** What arrives and bears the name is what was sent for it. */
  lemma {:induction false} ArrivesFor(items: seq<Item>, name: bytes, intf: InterfaceId, now: nat)
    requires WellPlaced(items) && WholeTtl(items)
    ensures var rs := EchoRecords(Of(items, Authorities), false, intf, now);
            ForName(rs, name, |rs|) == Seen(For(items, name), intf, now)
  {
    hide EchoRecord, EchoRecords, Dotted, ForName, Seen, Of, Record.GetName;
    if items != [] {
      var front, last := items[..|items| - 1], items[|items| - 1];
      assert forall i <- front :: i in items;
      ArrivesFor(front, name, intf, now);
      OfLast(items, Authorities);
      assert last in items;
      if last.Tell? && last.section == Authorities {
        var before, r := Of(front, Authorities), EchoRecord(last.rec, 0, false, intf, now);
        EchoMore(before, last, intf, now);
        ForNameMore(EchoRecords(before, false, intf, now), r, name);
        EchoName(last.rec, intf, now);
        SeenMore(For(front, name), last.rec, intf, now);
        EchoCount(before, intf, now);
        assert Of(items, Authorities) == before + [last];
        assert For(items, name)
            == if Dotted(last.rec.GetName()) == name then For(front, name) + [last.rec] else For(front, name);
        var rs := EchoRecords(before, false, intf, now);
        assert EchoRecords(Of(items, Authorities), false, intf, now) == rs + [r] && |rs + [r]| == |rs| + 1;
      } else {
        assert SectionOf(last) != Authorities;
        assert Of(items, Authorities) == Of(front, Authorities) && For(items, name) == For(front, name);
      }
    } else {
      NothingArrives(name, intf, now);
    }
  }

  lemma EchoCount(items: seq<Item>, intf: InterfaceId, now: nat)
    requires forall i <- items :: i.Tell?
    ensures |EchoRecords(items, false, intf, now)| == |items|
  {
  }

  lemma NothingArrives(name: bytes, intf: InterfaceId, now: nat)
    ensures EchoRecords(Of([], Authorities), false, intf, now) == [] && ForName([], name, 0) == []
    ensures Seen(For([], name), intf, now) == []
  {
  }

  lemma EchoName(r: Record, intf: InterfaceId, now: nat)
    ensures EchoRecord(r, 0, false, intf, now).GetName() == Dotted(r.GetName())
  {
    hide Dotted;
  }

  /** Whether the question arrives. */
  lemma AskArrives(items: seq<Item>, name: bytes)
    requires WellPlaced(items) && forall i <- items :: i.Ask? ==> SectionOf(i) == Questions
    ensures var qs := EchoQuestions(Of(items, Questions));
            RegistrySteps.AsksFor(qs, |qs|, name) <==> AskedIn(items, name)
  {
    hide Dotted;
    var asks := Of(items, Questions);
    var qs := EchoQuestions(asks);
    if i :| i in items && i.Ask? && i.question.ty == ANY && Dotted(i.question.name) == name {
      OfHas(items, Questions, i);
      var k :| 0 <= k < |asks| && asks[k] == i;
      assert qs[k] == EchoQuestion(i.question);
    }
    if RegistrySteps.AsksFor(qs, |qs|, name) {
      var k :| 0 <= k < |qs| && qs[k].ty == ANY && qs[k].name == name;
      assert asks[k] in asks;
      assert asks[k] in items;
    }
  }

  lemma {:induction false} OfHas(items: seq<Item>, section: Section, i: Item)
    requires i in items && SectionOf(i) == section
    ensures i in Of(items, section)
  {
    if items[|items| - 1] != i {
      OfHas(items[..|items| - 1], section, i);
    }
  }

  /** What a packet does to the probe for `name`. */
  ghost function Told(p: ProbeState, items: seq<Item>, name: bytes, intf: InterfaceId, now: nat): ProbeState {
    if AskedIn(items, name) then TiebreakAt(p, Seen(For(items, name), intf, now), now) else p
  }

  lemma PacketTells(reg: Reg, out: Outgoing, path: Path, k: nat, now: nat, name: bytes)
    requires path.Legal() && out.flags == 0 && forall i <- out.Items() :: NamesFit(i)
    requires k < |Sent(out, path)| && name in reg.probing
    ensures var reg' := Receive(reg, OnWire(out, path)[k], path.intf, now);
            && name in reg'.probing
            && reg'.probing[name] == Told(reg.probing[name], Sent(out, path)[k], name, path.intf, now)
  {
    hide Sealed, Parse, Packets, Of, For, Seen, ForName, EchoQuestions, EchoRecords, AskedIn, RegistrySteps.AsksFor;
    hide Outgoing.Items, NamesFit, RegistrySteps.TiedAll;
    MessageReadsBack(out, path.maxSize, path.isIpv4, path.intf, now);
    var items, flags := Sent(out, path)[k], FlagsOf(out, k, |Sent(out, path)|);
    FlagsOfQuery(out, k, |Sent(out, path)|);
    var m := Echo(out.WireId(), flags, items, path.intf, now);
    TiedAllOnce(reg, m, now, name);
    PacketItems(out, path, k);
    ArrivesFor(items, name, path.intf, now);
    AskArrives(items, name);
  }

  lemma TiedAllOnce(reg: Reg, m: Message, now: nat, name: bytes)
    requires name in reg.probing
    ensures var reg' := RegistrySteps.TiedAll(reg, m.questions, m.authorities, |m.questions|, now);
            && name in reg'.probing
            && reg'.probing[name]
               == if RegistrySteps.AsksFor(m.questions, |m.questions|, name) then
                    TiebreakAt(reg.probing[name], ForName(m.authorities, name, |m.authorities|), now)
                  else reg.probing[name]
  {
    RegistrySteps.TiedAllOnce(reg, m.questions, m.authorities, |m.questions|, now, name);
  }

  lemma FlagsOfQuery(out: Outgoing, k: nat, count: nat)
    requires out.flags == 0
    ensures FlagsOf(out, k, count) < 0x8000
  {
  }

  lemma PacketItems(out: Outgoing, path: Path, k: nat)
    requires path.Legal() && (forall i <- out.Items() :: NamesFit(i)) && k < |Sent(out, path)|
    ensures forall i <- Sent(out, path)[k] :: i in out.Items()
    ensures WholeTtl(Sent(out, path)[k]) && forall i <- Sent(out, path)[k] :: i.Ask? ==> SectionOf(i) == Questions
  {
    hide Kept, Packets, NamesFit;
    var items, sent := out.Items(), Sent(out, path);
    var ends := PackingIsExact(items, path.Lim());
    assert StretchOk(items, sent, ends, k, path.Lim());
    KeptItems(items[Start(ends, k)..ends[k]], path.Lim());
  }

  // ----- The whole query -----

  /** Packet `k` makes a probe with these records and this start give way. */
  ghost predicate Beats(p: ProbeState, items: seq<Item>, name: bytes, intf: InterfaceId, now: nat) {
    AskedIn(items, name) && p.startTime < now && Yields(p.records, Seen(For(items, name), intf, now))
  }

  /** A probe gives way to a query exactly if it gives way to one of its packets alone. */
  lemma {:induction false} ReceivedTells(reg: Reg, out: Outgoing, path: Path, times: seq<nat>, n: nat, name: bytes)
    requires path.Legal() && out.flags == 0 && forall i <- out.Items() :: NamesFit(i)
    requires n <= |Sent(out, path)| == |times| && name in reg.probing
    ensures var reg', p := Received(reg, OnWire(out, path), path.intf, times, n), reg.probing[name];
            && name in reg'.probing && reg'.probing[name].records == p.records
            && (reg'.probing[name] == p || p.startTime < reg'.probing[name].startTime)
            && (reg'.probing[name] != p <==>
                  exists k :: 0 <= k < n && Beats(p, Sent(out, path)[k], name, path.intf, times[k]))
  {
    hide OnWire, Sent, NamesFit, Outgoing.Items, AskedIn, For, Seen, Receive, Yields;
    if n > 0 {
      var p := reg.probing[name];
      ReceivedTells(reg, out, path, times, n - 1, name);
      WireCount(out, path);
      var before := Received(reg, OnWire(out, path), path.intf, times, n - 1);
      PacketTells(before, out, path, n - 1, times[n - 1], name);
      if k :| 0 <= k < n && Beats(p, Sent(out, path)[k], name, path.intf, times[k]) {
        assert k < n - 1 ==> before.probing[name] != p;
      }
    }
  }

  lemma WireCount(out: Outgoing, path: Path)
    ensures |OnWire(out, path)| == |Sent(out, path)|
  {
  }

  // ----- What arrives with the question -----

  /** The records that the question for `name` is about, in the last packet that holds it; there is one such packet. */
  ghost function Arriving(sent: seq<seq<Item>>, name: bytes): seq<Record> {
    if sent == [] then []
    else
      var n := |sent| - 1;
      if AskedIn(sent[n], name) then For(sent[n], name) else Arriving(sent[..n], name)
  }

  lemma {:induction false} ForConcat(a: seq<Item>, b: seq<Item>, name: bytes)
    ensures For(a + b, name) == For(a, name) + For(b, name)
    decreases |b|
  {
    hide Dotted;
    if b == [] {
      assert a + b == a;
    } else {
      ForConcat(a, b[..|b| - 1], name);
      assert (a + b)[..|a + b| - 1] == a + b[..|b| - 1];
    }
  }

  lemma {:induction false} QuestionsForNone(items: seq<Item>, name: bytes)
    requires forall i <- items :: i.Ask?
    ensures For(items, name) == []
  {
    if items != [] {
      hide Dotted;
      assert items[|items| - 1] in items;
      QuestionsForNone(items[..|items| - 1], name);
    }
  }

  /** In front of a question there are only questions. */
  lemma QuestionsFirst(before: seq<Item>, items: seq<Item>, name: bytes)
    requires InOrder(before + items) && AskedIn(items, name)
    ensures forall i <- before :: i.Ask?
  {
    hide Dotted;
    var all := before + items;
    var q :| q in items && q.Ask? && q.question.ty == ANY && Dotted(q.question.name) == name;
    var k :| 0 <= k < |items| && items[k] == q;
    assert all[|before| + k] == q;
    forall i <- before
      ensures i.Ask?
    {
      var j :| 0 <= j < |before| && before[j] == i;
      assert all[j] == i && i in all;
      assert Rank(SectionOf(all[j])) <= Rank(SectionOf(all[|before| + k]));
    }
  }

  lemma PrefixInOrder(a: seq<Item>, b: seq<Item>)
    requires InOrder(a + b)
    ensures InOrder(a)
  {
    forall i, j | 0 <= i < j < |a|
      ensures Rank(SectionOf(a[i])) <= Rank(SectionOf(a[j]))
    {
      assert (a + b)[i] == a[i] && (a + b)[j] == a[j];
    }
    assert forall i <- a :: i in a + b;
  }

  /** Each packet that holds the question holds these records, or none. */
  lemma {:induction false} HoldersAgree(sent: seq<seq<Item>>, name: bytes, k: nat)
    requires InOrder(Flatten(sent)) && k < |sent| && AskedIn(sent[k], name)
    ensures For(sent[k], name) in {Arriving(sent, name), []}
  {
    hide For, AskedIn, InOrder;
    var n := |sent| - 1;
    if k < n {
      var front := Flatten(sent[..n]);
      if AskedIn(sent[n], name) {
        QuestionsFirst(front, sent[n], name);
        FlattenHas(sent[..n], k);
        QuestionsForNone(sent[k], name);
      } else {
        PrefixInOrder(front, sent[n]);
        HoldersAgree(sent[..n], name, k);
      }
    }
  }

  lemma {:induction false} FlattenHas(sent: seq<seq<Item>>, k: nat)
    requires k < |sent|
    ensures forall i <- sent[k] :: i in Flatten(sent)
  {
    var n := |sent| - 1;
    if k < n {
      FlattenHas(sent[..n], k);
    }
  }

  lemma {:induction false} ArrivingIsHeld(sent: seq<seq<Item>>, name: bytes)
    ensures Arriving(sent, name) == []
            || exists k :: 0 <= k < |sent| && AskedIn(sent[k], name) && For(sent[k], name) == Arriving(sent, name)
  {
    hide For, AskedIn;
    if sent != [] {
      var n := |sent| - 1;
      ArrivingIsHeld(sent[..n], name);
      if !AskedIn(sent[n], name) && Arriving(sent, name) != [] {
        var k :| 0 <= k < n && AskedIn(sent[..n][k], name) && For(sent[..n][k], name) == Arriving(sent[..n], name);
        assert sent[k] == sent[..n][k];
      }
    }
  }

  // ----- Packets are stretches of the message -----

  /** The items without those that no packet can hold, for a label of theirs is too long. */
  function Short(items: seq<Item>): seq<Item> {
    if items == [] then []
    else
      var last := items[|items| - 1];
      Short(items[..|items| - 1]) + if TooLong(last) then [] else [last]
  }

  lemma ShortLast(front: seq<Item>, last: Item)
    ensures Short(front + [last]) == if TooLong(last) then Short(front) else Short(front) + [last]
  {
    hide TooLong;
    assert (front + [last])[..|front|] == front;
  }

  lemma {:induction false} ShortFrom(items: seq<Item>)
    ensures forall i <- Short(items) :: i in items && !TooLong(i)
  {
    hide TooLong;
    if items != [] {
      ShortFrom(items[..|items| - 1]);
    }
  }

  lemma {:induction false} ShortConcat(a: seq<Item>, b: seq<Item>)
    ensures Short(a + b) == Short(a) + Short(b)
    decreases |b|
  {
    hide TooLong;
    if b == [] {
      assert a + b == a;
    } else {
      ShortConcat(a, b[..|b| - 1]);
      assert (a + b)[..|a + b| - 1] == a + b[..|b| - 1];
    }
  }

  lemma NothingIsShort()
    ensures Short([]) == []
  {
  }

  lemma ShortMore(input: seq<Item>, lo: nat, n: nat)
    requires lo <= n < |input|
    ensures Short(input[lo..n + 1]) == Short(input[lo..n]) + if TooLong(input[n]) then [] else [input[n]]
  {
    hide TooLong, Short;
    assert input[lo..n + 1] == input[lo..n] + [input[n]];
    ShortLast(input[lo..n], input[n]);
  }

  ghost predicate IsStretch(input: seq<Item>, packet: seq<Item>, lo: nat, hi: nat) {
    lo <= hi <= |input| && packet == Short(input[lo..hi])
  }

  ghost predicate EndsAt(input: seq<Item>, packet: seq<Item>, n: nat) {
    exists lo: nat :: IsStretch(input, packet, lo, n)
  }

  ghost predicate IsSomeStretch(input: seq<Item>, packet: seq<Item>) {
    exists hi: nat :: EndsAt(input, packet, hi)
  }

  ghost predicate AreStretches(input: seq<Item>, plan: Plan, n: nat) {
    EndsAt(input, plan.cur, n) && forall packet <- plan.done :: IsSomeStretch(input, packet)
  }

  /** A packet that takes in the next item, or passes over it. */
  lemma StretchGrows(input: seq<Item>, packet: seq<Item>, n: nat)
    requires n < |input| && EndsAt(input, packet, n)
    ensures EndsAt(input, if TooLong(input[n]) then packet else packet + [input[n]], n + 1)
  {
    hide TooLong, Short;
    var lo: nat :| IsStretch(input, packet, lo, n);
    ShortMore(input, lo, n);
    assert IsStretch(input, if TooLong(input[n]) then packet else packet + [input[n]], lo, n + 1);
  }

  lemma NothingEndsAt(input: seq<Item>, n: nat)
    requires n <= |input|
    ensures EndsAt(input, [], n)
  {
    ShortOfNone(input, n);
    assert IsStretch(input, [], n, n);
  }

  lemma StepIsStretch(input: seq<Item>, plan: Plan, n: nat, lim: Limits)
    requires n < |input| && AreStretches(input, plan, n)
    ensures AreStretches(input, Step(plan, input[n], n, lim), n + 1)
  {
    hide TooLong, Size, Short, EndsAt;
    var item := input[n];
    StretchGrows(input, plan.cur, n);
    NothingEndsAt(input, n);
    NothingEndsAt(input, n + 1);
    StretchGrows(input, [], n);
    assert [] + [item] == [item];
    assert IsSomeStretch(input, plan.cur);
    if !TooLong(item) { assert IsSomeStretch(input, [item]); }
  }

  lemma ShortOfNone(input: seq<Item>, n: nat)
    requires n <= |input|
    ensures Short(input[n..n]) == []
  {
  }

  lemma {:induction false} PlanIsStretches(input: seq<Item>, n: nat, lim: Limits)
    requires n <= |input|
    ensures AreStretches(input, PlanOf(input, n, lim), n)
  {
    hide AreStretches, Step;
    if n == 0 {
      NoStretches(input);
    } else {
      PlanIsStretches(input, n - 1, lim);
      StepIsStretch(input, PlanOf(input, n - 1, lim), n - 1, lim);
    }
  }

  lemma NoStretches(input: seq<Item>)
    ensures AreStretches(input, Plan([], [], []), 0)
  {
    NothingEndsAt(input, 0);
  }

  /** A packet misses nothing between its first and its last item but what no packet can hold. */
  lemma PacketIsStretch(input: seq<Item>, lim: Limits, k: nat) returns (lo: nat, hi: nat)
    requires k < |Packets(input, lim)|
    ensures IsStretch(input, Packets(input, lim)[k], lo, hi)
  {
    hide PlanOf, IsStretch;
    PlanIsStretches(input, |input|, lim);
    assert IsSomeStretch(input, Packets(input, lim)[k]);
    hi :| EndsAt(input, Packets(input, lim)[k], hi);
    lo :| IsStretch(input, Packets(input, lim)[k], lo, hi);
  }

  lemma AskedInMore(some: seq<Item>, all: seq<Item>, name: bytes)
    requires AskedIn(some, name) && forall i <- some :: i in all
    ensures AskedIn(all, name)
  {
    hide Dotted;
  }

  /** From the question on, a packet shows the beginning of all that there is for the name. */
  lemma StretchShowsPrefix(items: seq<Item>, packet: seq<Item>, lo: nat, hi: nat, name: bytes)
    requires InOrder(items) && IsStretch(items, packet, lo, hi) && AskedIn(packet, name)
    ensures For(packet, name) <= For(Short(items), name)
  {
    hide For, Short, InOrder, TooLong, Dotted;
    var a, b, c := items[..lo], items[lo..hi], items[hi..];
    assert items == (a + b) + c;
    PrefixInOrder(a + b, c);
    ShortFrom(a);
    ShortFrom(b);
    AskedInMore(packet, b, name);
    QuestionsFirst(a, b, name);
    QuestionsForNone(Short(a), name);
    ShortConcat(a + b, c);
    ShortConcat(a, b);
    ForConcat(Short(a) + Short(b), Short(c), name);
    ForConcat(Short(a), Short(b), name);
  }

  // ----- What is sent -----

  /** No label keeps the record from being sent. */
  predicate CanGo(r: Record) {
    !TooLong(Tell(Authorities, r, 0))
  }

  /** The records that can be sent. */
  function Sendable(rs: seq<Record>): seq<Record> {
    if rs == [] then []
    else
      var last := rs[|rs| - 1];
      Sendable(rs[..|rs| - 1]) + if CanGo(last) then [last] else []
  }

  ghost predicate NoneTooLong(rs: seq<Record>) {
    forall r <- rs :: CanGo(r)
  }

  lemma SendableLast(front: seq<Record>, last: Record)
    ensures Sendable(front + [last]) == if CanGo(last) then Sendable(front) + [last] else Sendable(front)
  {
    hide CanGo;
    assert (front + [last])[..|front|] == front;
  }

  lemma {:induction false} SendableAll(rs: seq<Record>)
    requires NoneTooLong(rs)
    ensures Sendable(rs) == rs
  {
    hide CanGo;
    if rs != [] {
      hide Sendable;
      var front, last := rs[..|rs| - 1], rs[|rs| - 1];
      assert rs == front + [last] && last in rs;
      SendableAll(front);
      SendableLast(front, last);
    }
  }

  lemma {:induction false} SendableNone(rs: seq<Record>)
    requires forall r <- rs :: !CanGo(r)
    ensures Sendable(rs) == []
  {
    hide CanGo;
    if rs != [] {
      hide Sendable;
      var front, last := rs[..|rs| - 1], rs[|rs| - 1];
      assert rs == front + [last] && last in rs;
      SendableNone(front);
      SendableLast(front, last);
    }
  }

  /** No other name that is asked for is read as this one. */
  predicate NoAlias(asked: seq<bytes>, name: bytes) {
    forall n <- asked :: n != name ==> Dotted(n) != name
  }

  /** A query that asks for `name`, and perhaps for others. */
  ghost predicate Asking(peer: Reg, asked: seq<bytes>, name: bytes) {
    && name in asked && (forall n <- asked :: n in peer.probing) && DnsRegistry.NoneTwice(asked)
    && (forall n <- asked :: RegistryState.Filed(peer.probing[n].records, n)) && NoAlias(asked, name)
    && forall i <- Query(peer, asked).Items() :: NamesFit(i)
  }

  lemma ForLast(front: seq<Item>, last: Item, name: bytes)
    ensures For(front + [last], name)
         == if last.Tell? && last.section == Authorities && Dotted(last.rec.GetName()) == name then
              For(front, name) + [last.rec]
            else For(front, name)
  {
    hide Dotted;
    assert (front + [last])[..|front|] == front;
  }

  lemma {:induction false} ShortTells(rs: seq<Record>, n: bytes, name: bytes)
    requires RegistryState.Filed(rs, n)
    ensures For(Short(Tells(Authorities, rs)), name) == if Dotted(n) == name then Sendable(rs) else []
  {
    hide Dotted, TooLong, Record.GetName;
    if rs == [] {
      NothingShort(name);
    } else {
      hide Short, For, Sendable;
      var front, last := rs[..|rs| - 1], rs[|rs| - 1];
      assert rs == front + [last] && last in rs;
      ShortTells(front, n, name);
      TellsConcat(front, [last]);
      assert Tells(Authorities, [last]) == [Tell(Authorities, last, 0)];
      ShortLast(Tells(Authorities, front), Tell(Authorities, last, 0));
      ForLast(Short(Tells(Authorities, front)), Tell(Authorities, last, 0), name);
      SendableLast(front, last);
    }
  }

  lemma TellsConcat(a: seq<Record>, b: seq<Record>)
    ensures Tells(Authorities, a + b) == Tells(Authorities, a) + Tells(Authorities, b)
  {
  }

  lemma LastAsked(peer: Reg, asked: seq<bytes>)
    requires asked != [] && (forall n <- asked :: n in peer.probing) && DnsRegistry.NoneTwice(asked)
    ensures var front, n := asked[..|asked| - 1], asked[|asked| - 1];
            && n !in front && DnsRegistry.NoneTwice(front) && (forall x :: x in asked <==> x in front || x == n)
            && DnsRegistry.RecordsOf(peer.probing, asked)
               == DnsRegistry.RecordsOf(peer.probing, front) + peer.probing[n].records
  {
  }

  /** Of the records of all probes that are asked for, those for `name`. */
  lemma {:induction false} SentForName(peer: Reg, asked: seq<bytes>, name: bytes)
    requires (forall n <- asked :: n in peer.probing) && DnsRegistry.NoneTwice(asked) && NoAlias(asked, name)
    requires forall n <- asked :: RegistryState.Filed(peer.probing[n].records, n)
    ensures For(Short(Tells(Authorities, DnsRegistry.RecordsOf(peer.probing, asked))), name)
         == if name in asked && Canonical(name) then Sendable(peer.probing[name].records) else []
    decreases |asked|
  {
    hide Dotted, Short, For, Sendable, RegistryState.Filed, Tells, DnsRegistry.NoneTwice;
    if asked == [] {
      NothingShort(name);
    } else {
      hide DnsRegistry.RecordsOf;
      var front, n := asked[..|asked| - 1], asked[|asked| - 1];
      LastAsked(peer, asked);
      SentForName(peer, front, name);
      var a, b := DnsRegistry.RecordsOf(peer.probing, front), peer.probing[n].records;
      TellsConcat(a, b);
      ShortConcat(Tells(Authorities, a), Tells(Authorities, b));
      ForConcat(Short(Tells(Authorities, a)), Short(Tells(Authorities, b)), name);
      ShortTells(b, n, name);
    }
  }

  lemma NothingShort(name: bytes)
    ensures For(Short(Tells(Authorities, [])), name) == []
  {
    assert Tells(Authorities, []) == [];
  }

  lemma QueryItems(peer: Reg, asked: seq<bytes>)
    requires forall n <- asked :: n in peer.probing
    ensures Query(peer, asked).Items()
         == Asks(DnsRegistry.Questions(asked)) + Tells(Authorities, DnsRegistry.RecordsOf(peer.probing, asked))
  {
  }

  /** What there is for the name in the whole message, if the name comes back as it is. */
  lemma AllForName(peer: Reg, asked: seq<bytes>, name: bytes)
    requires Asking(peer, asked, name)
    ensures For(Short(Query(peer, asked).Items()), name)
         == if Canonical(name) then Sendable(peer.probing[name].records) else []
  {
    hide Dotted, Short, For, Sendable, NamesFit, RegistryState.Filed;
    hide Outgoing.Items, Query, DnsRegistry.RecordsOf, DnsRegistry.NoneTwice, NoAlias;
    QueryItems(peer, asked);
    var qs, rs := Asks(DnsRegistry.Questions(asked)), Tells(Authorities, DnsRegistry.RecordsOf(peer.probing, asked));
    ShortConcat(qs, rs);
    ForConcat(Short(qs), Short(rs), name);
    ShortFrom(qs);
    QuestionsForNone(Short(qs), name);
    SentForName(peer, asked, name);
  }

  lemma SentInOrder(out: Outgoing, path: Path)
    requires path.Legal() && forall i <- out.Items() :: NamesFit(i)
    ensures InOrder(out.Items()) && InOrder(Flatten(Sent(out, path)))
  {
    hide Packets, Flatten, InOrder, Outgoing.Items, Kept, NamesFit;
    PackingLosesNothing(out.Items(), path.Lim());
    ItemsInOrder(out);
    KeptInOrder(out.Items(), path.Lim());
  }

  /** What arrives with the question is the beginning of the records for the name, without those that are too long. */
  lemma ArrivingIsPrefix(peer: Reg, asked: seq<bytes>, name: bytes, path: Path)
    requires path.Legal() && Asking(peer, asked, name)
    ensures var shown := Arriving(Sent(Query(peer, asked), path), name);
            if Canonical(name) then shown <= Sendable(peer.probing[name].records) else shown == []
  {
    hide Dotted, Short, For, Sendable, Packets, InOrder, AskedIn, Arriving, Query, Outgoing.Items, Asking, Flatten;
    AskingFits(peer, asked, name);
    var out := Query(peer, asked);
    var sent := Sent(out, path);
    AllForName(peer, asked, name);
    SentInOrder(out, path);
    ArrivingIsHeld(sent, name);
    if Arriving(sent, name) != [] {
      var k :| 0 <= k < |sent| && AskedIn(sent[k], name) && For(sent[k], name) == Arriving(sent, name);
      var lo, hi := PacketIsStretch(out.Items(), path.Lim(), k);
      StretchShowsPrefix(out.Items(), sent[k], lo, hi, name);
    }
  }

  lemma AskingFits(peer: Reg, asked: seq<bytes>, name: bytes)
    requires Asking(peer, asked, name)
    ensures name in asked && forall n <- asked :: n in peer.probing
    ensures forall i <- Query(peer, asked).Items() :: NamesFit(i)
  {
  }

  /** A name that does not come back as it is is not asked for, as far as the peer can see. */
  lemma NotAskedFor(peer: Reg, asked: seq<bytes>, name: bytes, path: Path, k: nat)
    requires path.Legal() && Asking(peer, asked, name) && !Canonical(name) && k < |Sent(Query(peer, asked), path)|
    ensures !AskedIn(Sent(Query(peer, asked), path)[k], name)
  {
    hide Dotted, Packets, NamesFit, DnsRegistry.RecordsOf, DnsRegistry.NoneTwice;
    PacketItems(Query(peer, asked), path, k);
    QueryItems(peer, asked);
  }

  // ----- Queries that fit in one packet -----

  /** All that can be sent of the query goes out in one packet. */
  predicate GoesWhole(out: Outgoing, path: Path) {
    Size(Short(out.Items())) <= path.maxSize
  }

  lemma {:induction false} WholePlan(input: seq<Item>, n: nat, lim: Limits)
    requires n <= |input| && Size(Short(input)) <= lim.max
    ensures PlanOf(input, n, lim) == Plan([], [], Short(input[..n]))
  {
    hide TooLong, Size, Short;
    if n == 0 {
      ShortOfNone(input, 0);
      assert input[..0] == input[0..0];
    } else {
      WholePlan(input, n - 1, lim);
      ShortMore(input, 0, n - 1);
      assert input[0..n] == input[..n] && input[0..n - 1] == input[..n - 1];
      assert input == input[..n] + input[n..];
      ShortConcat(input[..n], input[n..]);
      SizeOfPrefix(Short(input), |Short(input[..n])|);
    }
  }

  lemma {:induction false} SizeOfPrefix(items: seq<Item>, n: nat)
    requires n <= |items|
    ensures Size(items[..n]) <= Size(items)
    decreases |items|
  {
    if n == |items| {
      assert items[..n] == items;
    } else {
      var front, last := items[..|items| - 1], items[|items| - 1];
      assert items == front + [last] && front[..n] == items[..n];
      SizeOfPrefix(front, n);
      hide Encode, EncodeItem;
      EncodeSnoc(front, last);
    }
  }

  lemma GoesWholeIs(out: Outgoing, path: Path)
    requires GoesWhole(out, path)
    ensures Sent(out, path) == [Short(out.Items())]
  {
    hide TooLong, Size, PlanOf, Outgoing.Items, Short;
    var items := out.Items();
    WholePlan(items, |items|, path.Lim());
    assert items[..|items|] == items;
  }

  /** Then all records of the name that can be sent arrive with the question. */
  lemma WholeArrives(peer: Reg, asked: seq<bytes>, name: bytes, path: Path)
    requires Asking(peer, asked, name) && GoesWhole(Query(peer, asked), path) && Canonical(name)
    ensures Arriving(Sent(Query(peer, asked), path), name) == Sendable(peer.probing[name].records)
  {
    hide Dotted, For, Outgoing.Items, Query, NameTooLong, Short, Sendable, AskedIn, Sent;
    var out := Query(peer, asked);
    GoesWholeIs(out, path);
    AllForName(peer, asked, name);
    var items := Short(out.Items());
    assert [items][..0] == [];
    if NameTooLong(name) {
      SendableNone(peer.probing[name].records);
    } else {
      QuestionIn(peer, asked, name);
    }
  }

  lemma QuestionIn(peer: Reg, asked: seq<bytes>, name: bytes)
    requires name in asked && (forall n <- asked :: n in peer.probing) && Canonical(name) && !NameTooLong(name)
    ensures AskedIn(Short(Query(peer, asked).Items()), name)
  {
    hide Dotted, DnsRegistry.RecordsOf, NameTooLong;
    QueryItems(peer, asked);
    var k :| 0 <= k < |asked| && asked[k] == name;
    var qs := Asks(DnsRegistry.Questions(asked));
    assert qs[k] == Ask(Question(name, ANY, 1, false)) && qs[k] in qs;
    ShortHas(Query(peer, asked).Items(), qs[k]);
  }

  lemma {:induction false} ShortHas(items: seq<Item>, i: Item)
    requires i in items && !TooLong(i)
    ensures i in Short(items)
  {
    hide TooLong;
    if items[|items| - 1] != i {
      ShortHas(items[..|items| - 1], i);
    }
  }
}
