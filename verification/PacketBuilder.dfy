// The builder that encodes one outgoing message into packets.
module PacketBuilder {
  import opened Bytes
  import opened DnsRecords
  import opened Wire
  import opened NameReader
  import opened PacketWriter
  import opened Encoding
  import opened Packing

  datatype Outgoing = Outgoing(
    flags: u16, id: u16, multicast: bool, questions: seq<Question>, answers: seq<(Record, nat)>,
    authorities: seq<Record>, additionals: seq<Record>)
  {
    function WireId(): u16 {
      if multicast then 0 else id
    }

    /** The top bit of the flags is clear. */
    predicate IsQuery() {
      flags < 0x8000
    }

    /** The items of the message in the order in which they are written. */
    function Items(): seq<Item> {
      Asks(questions) + Timed(answers) + Tells(Authorities, authorities) + Tells(Additionals, additionals)
    }
  }

  function Asks(questions: seq<Question>): (items: seq<Item>)
    ensures |items| == |questions|
  {
    seq(|questions|, i requires 0 <= i < |questions| => Ask(questions[i]))
  }

  function Timed(answers: seq<(Record, nat)>): (items: seq<Item>)
    ensures |items| == |answers|
  {
    seq(|answers|, i requires 0 <= i < |answers| => Tell(Answers, answers[i].0, answers[i].1))
  }

  function Tells(section: Section, records: seq<Record>): (items: seq<Item>)
    ensures |items| == |records|
  {
    seq(|records|, i requires 0 <= i < |records| => Tell(section, records[i], 0))
  }

  function LimitsOf(maxSize: nat, isIpv4: bool): Limits {
    Limits(maxSize, if isIpv4 then MAX_PKT_ABSOLUTE_IPV4 else MAX_PKT_ABSOLUTE_IPV6)
  }

  /** The bytes of a packet that holds `items`, with its header filled in. */
  function Sealed(id: u16, flags: u16, items: seq<Item>): bytes {
    EncodeGrows(items);
    Header(id, flags, CountsOf(items)) + Encode(items).data[MSG_HEADER_LEN..]
  }

  /** Every packet of a query but the last says that more follows. */
  function FlagsOf(out: Outgoing, k: nat, count: nat): u16 {
    if out.IsQuery() && k + 1 < count then Truncated(out.flags) else out.flags
  }

  lemma SealedTruncated(id: u16, flags: u16, items: seq<Item>)
    ensures var d := Sealed(id, flags, items);
            && |d| >= MSG_HEADER_LEN && U16(d[2], d[3]) == flags
            && Patched(d, 2, Truncated(flags)) == Sealed(id, Truncated(flags), items)
  {
    hide Truncated, CountsOf, Encode;
    EncodeGrows(items);
    TruncatedHeader(id, flags, CountsOf(items));
    hide Header;
    var h, rest := Header(id, flags, CountsOf(items)), Encode(items).data[MSG_HEADER_LEN..];
    assert Patched(h + rest, 2, Truncated(flags)) == Patched(h, 2, Truncated(flags)) + rest;
  }

  lemma TruncatedHeader(id: u16, flags: u16, c: Counts)
    ensures var h := Header(id, flags, c);
            U16(h[2], h[3]) == flags && Patched(h, 2, Truncated(flags)) == Header(id, Truncated(flags), c)
  {
    hide Truncated, U16;
    var h, a, b, f := Header(id, flags, c), Be16(id), Be16(flags), Be16(Truncated(flags));
    var rest := Be16(c.qd) + Be16(c.an) + Be16(c.ns) + Be16(c.ar);
    hide Be16;
    assert h == a + (b + rest) && h[2] == b[0] && h[3] == b[1];
    assert h[..2] == a && h[4..] == rest;
    assert Header(id, Truncated(flags), c) == a + f + rest;
  }

  lemma SmallCur(input: seq<Item>, lim: Limits)
    requires lim.Legal() && forall i <- input :: NamesFit(i)
    ensures var plan := PlanOf(input, |input|, lim);
            && Size(plan.cur) <= MAX_PKT_ABSOLUTE_IPV6
            && Writable(plan.cur)
            && (CountsOf(plan.cur) == Counts(0, 0, 0, 0) <==> plan.cur == [])
  {
    var plan := PlanOf(input, |input|, lim);
    PlanIsOk(input, |input|, lim);
    hide Kept, PlanOf, NameReach, CountsOf;
    KeptItems(input[Start(plan.ends, |plan.ends|)..|input|], lim);
    EncodeGrows(plan.cur);
    NoCounts(plan.cur);
  }

  lemma NoCounts(items: seq<Item>)
    requires |items| < 0x1_0000
    ensures CountsOf(items) == Counts(0, 0, 0, 0) <==> items == []
  {
    hide CountsOf;
    CountsAreExact(items);
    NothingCounted();
  }

  /** The number of the item matters only for the record of where packets end. */
  lemma StepShape(plan: Plan, item: Item, n: nat, lim: Limits)
    ensures Step(plan, item, n, lim).cur == Step(plan, item, 0, lim).cur
    ensures Step(plan, item, n, lim).done == Step(plan, item, 0, lim).done
    ensures TooLong(item) ==> Step(plan, item, n, lim) == plan
    ensures !TooLong(item) && Fits(plan.cur, item, lim.max) ==>
              Step(plan, item, n, lim) == plan.(cur := plan.cur + [item])
  {
    hide TooLong, Size;
  }

  lemma WritableNext(items: seq<Item>, item: Item)
    requires Writable(items) && NamesFit(item)
    ensures !TooLong(item) && Size(items + [item]) <= POINTER_LIMIT ==> Writable(items + [item])
  {
  }

  lemma PlanNext(input: seq<Item>, item: Item, lim: Limits)
    ensures PlanOf(input + [item], |input| + 1, lim) == Step(PlanOf(input, |input|, lim), item, |input|, lim)
  {
    PlanPrefix(input, [item], |input|, lim);
  }

  lemma {:induction false} PlanPrefix(input: seq<Item>, more: seq<Item>, n: nat, lim: Limits)
    requires n <= |input|
    ensures PlanOf(input + more, n, lim) == PlanOf(input, n, lim)
  {
    if n > 0 {
      PlanPrefix(input, more, n - 1, lim);
    }
  }

  class Builder {
    const out: Outgoing
    const maxSize: nat
    const isIpv4: bool
    var finished: seq<OutPacket>
    var current: OutPacket
    /** The items added so far. */
    ghost var seen: seq<Item>

    ghost function Now(): Plan
      reads this
    {
      PlanOf(seen, |seen|, LimitsOf(maxSize, isIpv4))
    }

    ghost predicate Separate()
      reads this
    {
      && (forall i :: 0 <= i < |finished| ==> finished[i] != current)
      && (forall i, j :: 0 <= i < j < |finished| ==> finished[i] != finished[j])
    }

    ghost predicate CurrentIs(items: seq<Item>)
      reads this, current
    {
      CurrentHolds(items) && current.maxSize == maxSize
    }

    ghost predicate StateIs(plan: Plan)
      reads this, current, finished
    {
      Separate() && CurrentIs(plan.cur) && FinishedAre(plan.done)
    }

    /** Whatever packet the builder holds, it held before or has made since. */
    twostate predicate OnlyNew(finished0: seq<OutPacket>, current0: OutPacket)
      reads this
    {
      && (current == current0 || fresh(current))
      && forall p <- finished :: p in finished0 || p == current0 || fresh(p)
    }

    ghost predicate FinishedAre(packets: seq<seq<Item>>)
      reads this, finished
    {
      && |finished| == |packets|
      && forall i :: 0 <= i < |packets| ==> finished[i].data == Sealed(out.WireId(), out.flags, packets[i])
    }

    /** The builder has done to the packets what its plan says. */
    ghost predicate Valid()
      reads this, current, finished
    {
      && LimitsOf(maxSize, isIpv4).Legal()
      && (forall i <- seen :: NamesFit(i))
      && StateIs(Now())
    }

    constructor (out: Outgoing, maxSize: nat, isIpv4: bool)
      requires maxSize <= MAX_PKT_ABSOLUTE_IPV6
      ensures Valid() && seen == [] && finished == [] && fresh(current)
      ensures this.out == out && this.maxSize == maxSize && this.isIpv4 == isIpv4
    {
      this.out := out;
      this.maxSize := maxSize;
      this.isIpv4 := isIpv4;
      finished := [];
      current := new OutPacket(maxSize);
      seen := [];
    }

    /** Tries to write one item into the current packet, which holds `items`. */
    method Write(item: Item, ghost items: seq<Item>) returns (r: WriteResult)
      requires current.Value() == Encode(items) && Writable(items) && NamesFit(item)
      modifies current`data, current`names
      ensures r == TooLongName <==> TooLong(item)
      ensures r == Done <==> !TooLong(item) && Fits(items, item, current.maxSize)
      ensures r == Done ==> current.Value() == Encode(items + [item])
      ensures r != Done ==> current.Value() == old(current.Value())
    {
      EncodeIsSound(items);
      SoundPointsInside(Encode(items));
      EncodeSnoc(items, item);
      hide EncodeItem, Encode;
      match item
      case Ask(q) => r := current.WriteQuestion(q);
      case Tell(section, rec, time) => r := current.WriteRecord(section, rec, time);
    }

    /** Writes one item into the current packet and counts it, if there is room. */
    method WriteAndCount(item: Item, ghost items: seq<Item>) returns (r: WriteResult)
      requires CurrentHolds(items) && NamesFit(item) && current.maxSize <= MAX_PKT_ABSOLUTE_IPV4
      modifies current`data, current`names, current`counts
      ensures r == TooLongName <==> TooLong(item)
      ensures r == Done <==> !TooLong(item) && Fits(items, item, current.maxSize)
      ensures CurrentHolds(if r == Done then items + [item] else items)
    {
      hide Encode, Writable, CountsOf;
      EncodeSnoc(items, item);
      WritableNext(items, item);
      r := Write(item, items);
      if r == Done {
        CountsNext(items, item);
        current.Bump(SectionOf(item));
      }
    }

    ghost predicate CurrentHolds(items: seq<Item>)
      reads this, current
    {
      current.Value() == Encode(items) && current.counts == CountsOf(items) && Writable(items)
    }

    /** Finishes the current packet and starts a new one. */
    method Flush(ghost items: seq<Item>)
      requires CurrentHolds(items) && Separate()
      modifies this`finished, this`current, current
      ensures Separate() && fresh(current)
      ensures finished == old(finished) + [old(current)]
      ensures old(current).data == Sealed(out.WireId(), out.flags, items)
      ensures CurrentHolds([]) && current.maxSize == maxSize
    {
      hide Header, CountsOf;
      EncodeGrows(items);
      NothingCounted();
      current.WriteHeader(out.WireId(), out.flags);
      finished := finished + [current];
      current := new OutPacket(maxSize);
    }

    /** The last resort for a record that does not fit: a packet of its own, up to the IP ceiling. */
    method SendAlone(item: Item, ghost plan: Plan)
      requires StateIs(plan) && |plan.cur| == 0 && NamesFit(item) && !TooLong(item)
      modifies this`finished, this`current, current
      ensures StateIs(if Fits([], item, LimitsOf(maxSize, isIpv4).ceiling)
                      then Plan(plan.done + [[item]], plan.ends + [0], []) else plan)
      ensures OnlyNew(old(finished), old(current))
    {
      hide Encode, Sealed, NameReach, CountsOf;
      current.maxSize := if isIpv4 then MAX_PKT_ABSOLUTE_IPV4 else MAX_PKT_ABSOLUTE_IPV6;
      var r := WriteAndCount(item, []);
      assert FinishedAre(plan.done);
      if r == Done {
        assert [] + [item] == [item];
        Flush([item]);
      } else {
        current.maxSize := maxSize;
      }
    }

    /** The current packet has no room for `item`. */
    method Spill(item: Item, ghost plan: Plan)
      requires StateIs(plan) && NamesFit(item) && !TooLong(item) && maxSize <= MAX_PKT_ABSOLUTE_IPV6
      requires !Fits(plan.cur, item, maxSize) && (current.IsEmpty() <==> plan.cur == [])
      modifies this`finished, this`current, current
      ensures StateIs(Step(plan, item, 0, LimitsOf(maxSize, isIpv4)))
      ensures OnlyNew(old(finished), old(current))
    {
      hide Encode, Sealed, NameReach, CountsOf;
      ghost var plan' := plan;
      assert [] + [item] == [item];
      if !current.IsEmpty() {
        Flush(plan.cur);
        plan' := Plan(plan.done + [plan.cur], plan.ends + [0], []);
        assert FinishedAre(plan'.done);
        var r := WriteAndCount(item, []);
        assert FinishedAre(plan'.done);
        if r == Done {
          return;
        }
      }
      if item.Tell? {
        SendAlone(item, plan');
      }
    }

    /** One more question or record of the message. */
    method Add(item: Item)
      requires Valid() && NamesFit(item)
      modifies this, current
      ensures Valid() && seen == old(seen) + [item]
      ensures OnlyNew(old(finished), old(current))
    {
      hide Encode, Sealed, PlanOf, NameReach, Step, CountsOf;
      ghost var lim := LimitsOf(maxSize, isIpv4);
      ghost var plan := Now();
      SmallCur(seen, lim);
      PlanNext(seen, item, lim);
      StepShape(plan, item, |seen|, lim);
      var r := WriteAndCount(item, plan.cur);
      assert FinishedAre(plan.done);
      if r == Full {
        Spill(item, plan);
      }
      seen := seen + [item];
    }

    /** The four loops over the sections of a message, run one after the other. */
    method AddAll(items: seq<Item>)
      requires Valid() && seen == [] && forall i <- items :: NamesFit(i)
      modifies this, current
      ensures Valid() && seen == items
      ensures current == old(current) || fresh(current)
      ensures forall p <- finished :: p in old(finished) || p == old(current) || fresh(p)
    {
      hide NamesFit, StateIs, Limits.Legal;
      for i := 0 to |items|
        invariant Valid() && seen == items[..i] && OnlyNew(old(finished), old(current))
      {
        assert items[..i + 1] == items[..i] + [items[i]];
        Add(items[i]);
      }
    }

    /** The packets of the message: all but the last of a query are marked as truncated. */
    method Finish() returns (packets: seq<OutPacket>)
      requires Valid()
      modifies this`finished, this`current, current, finished
      ensures AreSent(out, old(seen), LimitsOf(maxSize, isIpv4), packets)
    {
      hide Encode, Sealed, PlanOf, NameReach, Truncated, CountsOf;
      ghost var lim := LimitsOf(maxSize, isIpv4);
      ghost var plan := Now();
      ghost var sent := Packets(seen, lim);
      SmallCur(seen, lim);
      if !current.IsEmpty() || finished == [] {
        Flush(plan.cur);
      }
      packets := finished;
      assert FinishedAre(sent);
      if out.IsQuery() {
        MarkTruncated(packets, out, sent);
      }
    }
  }

  /** Sets the truncation bit of all packets but the last. */
  method MarkTruncated(packets: seq<OutPacket>, ghost out: Outgoing, ghost sent: seq<seq<Item>>)
    requires |packets| == |sent|
    requires forall i, j :: 0 <= i < j < |packets| ==> packets[i] != packets[j]
    requires forall i :: 0 <= i < |packets| ==> packets[i].data == Sealed(out.WireId(), out.flags, sent[i])
    modifies packets
    ensures forall i :: 0 <= i < |packets| ==>
      packets[i].data == Sealed(out.WireId(), if i + 1 < |packets| then Truncated(out.flags) else out.flags, sent[i])
  {
    hide Truncated, Sealed, Patched;
    var k := 0;
    while k + 1 < |packets|
      invariant 0 <= k <= |packets|
      invariant k + 1 <= |packets| || k == 0
      invariant forall i :: 0 <= i < k ==> packets[i].data == Sealed(out.WireId(), Truncated(out.flags), sent[i])
      invariant forall i :: k <= i < |packets| ==> packets[i].data == Sealed(out.WireId(), out.flags, sent[i])
    {
      SealedTruncated(out.WireId(), out.flags, sent[k]);
      packets[k].SetTruncated();
      k := k + 1;
    }
  }

  /** `packets` are what the packing plan says, each with its header. */
  ghost predicate AreSent(out: Outgoing, items: seq<Item>, lim: Limits, packets: seq<OutPacket>)
    reads packets
  {
    var sent := Packets(items, lim);
    && |packets| == |sent|
    && forall k :: 0 <= k < |sent| ==>
                     packets[k].data == Sealed(out.WireId(), FlagsOf(out, k, |sent|), sent[k])
  }

  method ToPackets(out: Outgoing, maxSize: nat, isIpv4: bool) returns (packets: seq<OutPacket>)
    requires maxSize <= MAX_PKT_ABSOLUTE_IPV6 && forall i <- out.Items() :: NamesFit(i)
    ensures AreSent(out, out.Items(), LimitsOf(maxSize, isIpv4), packets)
  {
    hide NameReach, Outgoing.Items, PlanOf, Encode, Sealed;
    var builder := new Builder(out, maxSize, isIpv4);
    ghost var first := builder.current;
    builder.AddAll(out.Items());
    assert forall i :: 0 <= i < |builder.finished| ==>
             builder.finished[i] in builder.finished && fresh(builder.finished[i]);
    packets := builder.Finish();
  }
}
