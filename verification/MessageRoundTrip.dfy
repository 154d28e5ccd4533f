// The round trip of a whole message: every packet of it parses, and the sections of the
// parsed packets, put together, are the items of the message.
module MessageRoundTrip {
  import opened Bytes
  import opened DnsRecords
  import opened Wire
  import opened NameReader
  import opened PacketWriter
  import opened Encoding
  import opened Packing
  import opened PacketBuilder
  import opened PacketReader
  import opened RoundTrip

  function Rank(section: Section): nat {
    match section
    case Questions => 0
    case Answers => 1
    case Authorities => 2
    case Additionals => 3
  }

  /** The items of `section`, in order. */
  function Of(items: seq<Item>, section: Section): (r: seq<Item>)
    ensures forall i <- r :: i in items && SectionOf(i) == section
  {
    if items == [] then []
    else
      var front := Of(items[..|items| - 1], section);
      var last := items[|items| - 1];
      if SectionOf(last) == section then front + [last] else front
  }

  /** Questions are questions, and only records are in the other sections. */
  predicate WellPlaced(items: seq<Item>) {
    forall i <- items :: i.Tell? ==> i.section != Questions
  }

  predicate InOrder(items: seq<Item>) {
    && WellPlaced(items)
    && forall i, j :: 0 <= i < j < |items| ==> Rank(SectionOf(items[i])) <= Rank(SectionOf(items[j]))
  }

  lemma {:induction false} OfConcat(a: seq<Item>, b: seq<Item>, section: Section)
    ensures Of(a + b, section) == Of(a, section) + Of(b, section)
  {
    if b == [] {
      assert a + b == a;
    } else {
      OfConcat(a, b[..|b| - 1], section);
      assert (a + b)[..|a + b| - 1] == a + b[..|b| - 1];
    }
  }

  lemma {:induction false} TallyOf(items: seq<Item>, section: Section)
    ensures Tally(items, section) == |Of(items, section)|
  {
    if items != [] {
      TallyOf(items[..|items| - 1], section);
    }
  }

  lemma OfLast(items: seq<Item>, section: Section)
    requires items != []
    ensures Of(items, section) == Of(items[..|items| - 1], section)
                                  + if SectionOf(items[|items| - 1]) == section then [items[|items| - 1]] else []
  {
  }

  lemma LaterSectionsEmpty(items: seq<Item>, s: Section)
    requires InOrder(items) && items != [] && Rank(s) > Rank(SectionOf(items[|items| - 1]))
    ensures Of(items[..|items| - 1], s) == []
  {
    var front := items[..|items| - 1];
    forall i <- front
      ensures SectionOf(i) != s
    {
      var k :| 0 <= k < |front| && front[k] == i;
      assert items[k] == i;
    }
    hide Of;
    if Of(front, s) != [] {
      assert Of(front, s)[0] in Of(front, s);
    }
  }

  lemma AppendToSection(q: seq<Item>, a: seq<Item>, n: seq<Item>, r: seq<Item>, last: Item, s: Section)
    requires Rank(s) < 1 ==> a == []
    requires Rank(s) < 2 ==> n == []
    requires Rank(s) < 3 ==> r == []
    ensures q + a + n + r + [last]
         == (q + if s == Questions then [last] else []) + (a + if s == Answers then [last] else [])
            + (n + if s == Authorities then [last] else []) + (r + if s == Additionals then [last] else [])
  {
  }

  function Sections(items: seq<Item>): seq<Item> {
    Of(items, Questions) + Of(items, Answers) + Of(items, Authorities) + Of(items, Additionals)
  }

  lemma SectionsLast(items: seq<Item>)
    requires InOrder(items) && items != []
    ensures Sections(items) == Sections(items[..|items| - 1]) + [items[|items| - 1]]
  {
    hide Of, InOrder;
    var front, last := items[..|items| - 1], items[|items| - 1];
    OfLast(items, Questions);
    OfLast(items, Answers);
    OfLast(items, Authorities);
    OfLast(items, Additionals);
    var s := SectionOf(last);
    if Rank(s) < 1 { LaterSectionsEmpty(items, Answers); }
    if Rank(s) < 2 { LaterSectionsEmpty(items, Authorities); }
    if Rank(s) < 3 { LaterSectionsEmpty(items, Additionals); }
    AppendToSection(Of(front, Questions), Of(front, Answers), Of(front, Authorities), Of(front, Additionals), last, s);
  }

  /** What a packet holds is its four sections, one behind the other. */
  lemma {:induction false} SectionsInOrder(items: seq<Item>)
    requires InOrder(items)
    ensures items == Sections(items)
  {
    if items != [] {
      hide Sections, InOrder;
      FrontInOrder(items);
      SectionsInOrder(items[..|items| - 1]);
      SectionsLast(items);
      assert items == items[..|items| - 1] + [items[|items| - 1]];
    }
  }

  lemma FrontInOrder(items: seq<Item>)
    requires InOrder(items) && items != []
    ensures InOrder(items[..|items| - 1])
  {
    assert forall i <- items[..|items| - 1] :: i in items;
  }

  /** Where the sections of a packet lie among its items. */
  lemma SectionSlices(items: seq<Item>)
    requires InOrder(items)
    ensures var i1 := |Of(items, Questions)|;
            var i2 := i1 + |Of(items, Answers)|;
            var i3 := i2 + |Of(items, Authorities)|;
            && i3 + |Of(items, Additionals)| == |items|
            && items[0..i1] == Of(items, Questions) && items[i1..i2] == Of(items, Answers)
            && items[i2..i3] == Of(items, Authorities) && items[i3..|items|] == Of(items, Additionals)
  {
    hide Of, InOrder;
    SectionsInOrder(items);
  }

  lemma {:induction false} KeptInOrder(items: seq<Item>, lim: Limits)
    requires InOrder(items)
    ensures InOrder(Kept(items, lim))
  {
    if items != [] {
      hide Encodable;
      var front, last := items[..|items| - 1], items[|items| - 1];
      assert forall i <- front :: i in items;
      KeptInOrder(front, lim);
      KeptItems(front, lim);
      forall i <- Kept(front, lim)
        ensures Rank(SectionOf(i)) <= Rank(SectionOf(last))
      {
        var k :| 0 <= k < |front| && front[k] == i;
        assert items[k] == i;
      }
    }
  }

  lemma InOrderConcat(a: seq<Item>, b: seq<Item>)
    requires InOrder(a) && InOrder(b)
    requires forall i <- a, j <- b :: Rank(SectionOf(i)) <= Rank(SectionOf(j))
    ensures InOrder(a + b)
  {
    var c := a + b;
    forall i, j | 0 <= i < j < |c|
      ensures Rank(SectionOf(c[i])) <= Rank(SectionOf(c[j]))
    {
      if i < |a| <= j {
        assert a[i] in a && b[j - |a|] in b;
      }
    }
  }

  lemma ItemsInOrder(out: Outgoing)
    ensures InOrder(out.Items())
  {
    var q, a := Asks(out.questions), Timed(out.answers);
    var n, r := Tells(Authorities, out.authorities), Tells(Additionals, out.additionals);
    InOrderConcat(q, a);
    InOrderConcat(q + a, n);
    InOrderConcat(q + a + n, r);
  }

  /** The part of a message that goes to `section`. */
  function Part(out: Outgoing, section: Section): (r: seq<Item>)
    ensures forall i <- r :: SectionOf(i) == section
  {
    match section
    case Questions => Asks(out.questions)
    case Answers => Timed(out.answers)
    case Authorities => Tells(Authorities, out.authorities)
    case Additionals => Tells(Additionals, out.additionals)
  }

  lemma PartsOfItems(out: Outgoing, s: Section)
    ensures Of(out.Items(), s) == Part(out, s)
  {
    hide Of;
    var q, a := Part(out, Questions), Part(out, Answers);
    var n, r := Part(out, Authorities), Part(out, Additionals);
    OfConcat(q + a + n, r, s);
    OfConcat(q + a, n, s);
    OfConcat(q, a, s);
    OfUniform(q, Questions, s);
    OfUniform(a, Answers, s);
    OfUniform(n, Authorities, s);
    OfUniform(r, Additionals, s);
  }

  lemma {:induction false} OfUniform(items: seq<Item>, section: Section, s: Section)
    requires forall i <- items :: SectionOf(i) == section
    ensures Of(items, s) == if s == section then items else []
  {
    if items != [] {
      var front := items[..|items| - 1];
      assert forall i <- front :: i in items;
      OfUniform(front, section, s);
      assert items == front + [items[|items| - 1]];
      assert items[|items| - 1] in items;
    }
  }

  /** What the reader makes of a packet that holds `items`. */
  function Echo(id: u16, flags: u16, items: seq<Item>, intf: InterfaceId, now: nat): Message
    requires WellPlaced(items)
  {
    var isResponse := flags >= 0x8000;
    Message(id, flags, EchoQuestions(Of(items, Questions)),
            EchoRecords(Of(items, Answers), isResponse, intf, now),
            EchoRecords(Of(items, Authorities), isResponse, intf, now),
            EchoRecords(Of(items, Additionals), isResponse, intf, now))
  }

  lemma HeaderBack(d: bytes, id: u16, flags: u16, c: Counts)
    requires |d| >= MSG_HEADER_LEN && d[..MSG_HEADER_LEN] == Header(id, flags, c)
    ensures ShortAt(d, 0) == id && ShortAt(d, 2) == flags
    ensures ShortAt(d, 4) == c.qd && ShortAt(d, 6) == c.an && ShortAt(d, 8) == c.ns && ShortAt(d, 10) == c.ar
  {
    hide U16;
    var h := d[..MSG_HEADER_LEN];
    assert forall i :: 0 <= i < MSG_HEADER_LEN ==> d[i] == h[i];
    assert h == Be16(id) + Be16(flags) + Be16(c.qd) + Be16(c.an) + Be16(c.ns) + Be16(c.ar);
  }

  lemma SealedExtends(id: u16, flags: u16, items: seq<Item>)
    ensures var d := Sealed(id, flags, items);
            && |d| == Size(items) && Extends(Encode(items).data, d)
            && d[..MSG_HEADER_LEN] == Header(id, flags, CountsOf(items))
  {
    hide Header, Encode;
    EncodeGrows(items);
  }

  /** The reader's result, from what its sections return. */
  lemma ParseFromParts(
    d: bytes, intf: InterfaceId, now: nat, q: Read<seq<Question>>, a: Read<seq<Record>>, n: Read<seq<Record>>,
    r: Read<seq<Record>>)
    requires |d| >= MSG_HEADER_LEN && q.Got? && a.Got? && n.Got? && r.Got?
    requires TakeQuestions(d, MSG_HEADER_LEN, ShortAt(d, 4)) == q
    requires TakeRecords(d, q.next, ShortAt(d, 6), ShortAt(d, 2) >= 0x8000, intf, now) == a
    requires TakeRecords(d, a.next, ShortAt(d, 8), ShortAt(d, 2) >= 0x8000, intf, now) == n
    requires TakeRecords(d, n.next, ShortAt(d, 10), ShortAt(d, 2) >= 0x8000, intf, now) == r
    ensures Parse(d, intf, now) == Got(Message(ShortAt(d, 0), ShortAt(d, 2), q.val, a.val, n.val, r.val), r.next)
  {
    hide TakeQuestions, TakeRecords, U16;
  }

  /** The round trip of one packet. */
  lemma PacketBack(id: u16, flags: u16, items: seq<Item>, intf: InterfaceId, now: nat)
    requires Writable(items) && InOrder(items) && WellPlaced(items)
    ensures Parse(Sealed(id, flags, items), intf, now) == Got(Echo(id, flags, items, intf, now), Size(items))
  {
    hide Sealed, Header, Encode, EchoQuestions, EchoRecords, TakeQuestions, TakeRecords;
    hide NameReach, Of, InOrder, Parse, Extends, Tally;
    var d := Sealed(id, flags, items);
    var q, a := Of(items, Questions), Of(items, Answers);
    var n, r := Of(items, Authorities), Of(items, Additionals);
    SealedExtends(id, flags, items);
    EncodeGrows(items);
    CountsAreExact(items);
    HeaderBack(d, id, flags, CountsOf(items));
    TallyOf(items, Questions);
    TallyOf(items, Answers);
    TallyOf(items, Authorities);
    TallyOf(items, Additionals);
    SectionSlices(items);
    var i1 := |q|;
    var i2 := i1 + |a|;
    var i3 := i2 + |n|;
    assert items[..0] == [] && items[..|items|] == items;
    assert Size([]) == MSG_HEADER_LEN by { EmptySize(); }
    QuestionsBack(items, 0, i1, d);
    RecordsBack(items, i1, i2, d, flags >= 0x8000, intf, now);
    RecordsBack(items, i2, i3, d, flags >= 0x8000, intf, now);
    RecordsBack(items, i3, |items|, d, flags >= 0x8000, intf, now);
    assert ShortAt(d, 4) == i1 - 0 && ShortAt(d, 6) == i2 - i1;
    assert ShortAt(d, 8) == i3 - i2 && ShortAt(d, 10) == |items| - i3;
    ParseFromParts(d, intf, now, Got(EchoQuestions(q), Offset(items, i1)),
                   Got(EchoRecords(a, flags >= 0x8000, intf, now), Offset(items, i2)),
                   Got(EchoRecords(n, flags >= 0x8000, intf, now), Offset(items, i3)),
                   Got(EchoRecords(r, flags >= 0x8000, intf, now), Offset(items, |items|)));
  }

  lemma EmptySize()
    ensures Size([]) == MSG_HEADER_LEN
  {
  }

  lemma {:induction false} SliceInOrder(items: seq<Item>, lo: nat, hi: nat)
    requires InOrder(items) && lo <= hi <= |items|
    ensures InOrder(items[lo..hi])
  {
    assert forall i <- items[lo..hi] :: i in items;
  }

  /** Each packet of a message can be written and holds its sections in order. */
  lemma PacketsAreWritable(out: Outgoing, lim: Limits, k: nat)
    requires lim.Legal() && forall i <- out.Items() :: NamesFit(i)
    requires k < |Packets(out.Items(), lim)|
    ensures Writable(Packets(out.Items(), lim)[k]) && InOrder(Packets(out.Items(), lim)[k])
  {
    hide Encode, NameReach, PlanOf, Packets, Outgoing.Items, Kept, NameTooLong, RDataTooLong;
    var items := out.Items();
    var ends := PackingIsExact(items, lim);
    var packet := Packets(items, lim)[k];
    assert StretchOk(items, Packets(items, lim), ends, k, lim);
    var stretch := items[Start(ends, k)..ends[k]];
    ItemsInOrder(out);
    SliceInOrder(items, Start(ends, k), ends[k]);
    KeptInOrder(stretch, lim);
    KeptItems(stretch, lim);
    EmptySize();
    assert forall i <- packet :: i in items;
  }

  /** The items that arrive in `section`, over all packets. */
  function Arrived(packets: seq<seq<Item>>, section: Section): seq<Item> {
    if packets == [] then []
    else Arrived(packets[..|packets| - 1], section) + Of(packets[|packets| - 1], section)
  }

  lemma {:induction false} ArrivedIsOfAll(packets: seq<seq<Item>>, section: Section)
    ensures Arrived(packets, section) == Of(Flatten(packets), section)
  {
    if packets != [] {
      hide Of;
      ArrivedIsOfAll(packets[..|packets| - 1], section);
      OfConcat(Flatten(packets[..|packets| - 1]), packets[|packets| - 1], section);
    } else {
      assert Of([], section) == [];
    }
  }

  lemma {:induction false} OfKept(items: seq<Item>, section: Section, lim: Limits)
    ensures Of(Kept(items, lim), section) == Kept(Of(items, section), lim)
  {
    if items != [] {
      hide Encodable;
      var front, last := items[..|items| - 1], items[|items| - 1];
      OfKept(front, section, lim);
      OfConcat(Kept(front, lim), [last], section);
      KeptConcat(Of(front, section), [last], lim);
      OneItem(last, section, lim);
    }
  }

  lemma OneItem(item: Item, section: Section, lim: Limits)
    ensures Of([item], section) == if SectionOf(item) == section then [item] else []
    ensures Kept([item], lim) == if Encodable(item, lim) then [item] else []
  {
    hide Encodable;
    assert [item][..0] == [];
    assert Of([], section) == [] && Kept([], lim) == [];
  }

  /**
   * The round trip of a message. Every packet parses, its sections are those of the items it holds,
   * and, over all packets, each section brings exactly the encodable items of that section of the
   * message, in order.
   */
  lemma MessageReadsBack(out: Outgoing, maxSize: nat, isIpv4: bool, intf: InterfaceId, now: nat)
    requires maxSize <= MAX_PKT_ABSOLUTE_IPV6 && forall i <- out.Items() :: NamesFit(i)
    ensures var lim := LimitsOf(maxSize, isIpv4);
            var sent := Packets(out.Items(), lim);
            && (forall k :: 0 <= k < |sent| ==>
                  && WellPlaced(sent[k])
                  && Parse(Sealed(out.WireId(), FlagsOf(out, k, |sent|), sent[k]), intf, now)
                  == Got(Echo(out.WireId(), FlagsOf(out, k, |sent|), sent[k], intf, now), Size(sent[k])))
            && forall s: Section :: Arrived(sent, s) == Kept(Part(out, s), lim)
  {
    hide Of, Encode, NameReach, Kept, Packets, Outgoing.Items, Parse, Sealed, Writable, Echo, Arrived, Flatten;
    var lim := LimitsOf(maxSize, isIpv4);
    var sent := Packets(out.Items(), lim);
    forall k | 0 <= k < |sent|
      ensures WellPlaced(sent[k])
      ensures Parse(Sealed(out.WireId(), FlagsOf(out, k, |sent|), sent[k]), intf, now)
           == Got(Echo(out.WireId(), FlagsOf(out, k, |sent|), sent[k], intf, now), Size(sent[k]))
    {
      PacketsAreWritable(out, lim, k);
      PacketBack(out.WireId(), FlagsOf(out, k, |sent|), sent[k], intf, now);
    }
    forall s: Section
      ensures Arrived(sent, s) == Kept(Part(out, s), lim)
    {
      ArrivedIsOfAll(sent, s);
      PackingLosesNothing(out.Items(), lim);
      OfKept(out.Items(), s, lim);
      PartsOfItems(out, s);
    }
  }

  /**
   * The headers: each count is the number of items that the packet holds of that section, without
   * any wrap; no packet is empty but a lone one; the truncation bit is set in all packets of a query
   * but the last, and otherwise the flags are those of the message.
   */
  lemma HeadersAreTrue(out: Outgoing, maxSize: nat, isIpv4: bool, k: nat)
    requires maxSize <= MAX_PKT_ABSOLUTE_IPV6 && forall i <- out.Items() :: NamesFit(i)
    requires k < |Packets(out.Items(), LimitsOf(maxSize, isIpv4))|
    ensures var sent := Packets(out.Items(), LimitsOf(maxSize, isIpv4));
            var d := Sealed(out.WireId(), FlagsOf(out, k, |sent|), sent[k]);
            && |d| >= MSG_HEADER_LEN
            && (sent[k] == [] ==> |sent| == 1)
            && ShortAt(d, 0) == (if out.multicast then 0 else out.id)
            && ShortAt(d, 2) / 0x400 == out.flags / 0x400 && ShortAt(d, 2) % 0x200 == out.flags % 0x200
            && (ShortAt(d, 2) / 0x200 % 2 == 1 <==>
                  out.flags / 0x200 % 2 == 1 || (out.flags < 0x8000 && k < |sent| - 1))
            && ShortAt(d, 4) == |Of(sent[k], Questions)| && ShortAt(d, 6) == |Of(sent[k], Answers)|
            && ShortAt(d, 8) == |Of(sent[k], Authorities)| && ShortAt(d, 10) == |Of(sent[k], Additionals)|
  {
    hide Of, Encode, NameReach, Kept, Packets, Outgoing.Items, Sealed, U16, Header, Tally, InOrder, Truncated;
    var lim := LimitsOf(maxSize, isIpv4);
    var sent := Packets(out.Items(), lim);
    PacketsAreWritable(out, lim, k);
    var ends := PackingIsExact(out.Items(), lim);
    assert StretchOk(out.Items(), sent, ends, k, lim);
    EncodeGrows(sent[k]);
    CountsAreExact(sent[k]);
    SealedExtends(out.WireId(), FlagsOf(out, k, |sent|), sent[k]);
    HeaderBack(Sealed(out.WireId(), FlagsOf(out, k, |sent|), sent[k]), out.WireId(), FlagsOf(out, k, |sent|),
               CountsOf(sent[k]));
    TallyOf(sent[k], Questions);
    TallyOf(sent[k], Answers);
    TallyOf(sent[k], Authorities);
    TallyOf(sent[k], Additionals);
  }

  /**
   * No packet exceeds the limit, but for a record that does not fit otherwise: that may go alone in 8972 bytes over
   * IPv4, and in 8952 bytes over IPv6.
   */
  lemma SizesAreLegal(out: Outgoing, maxSize: nat, isIpv4: bool, k: nat)
    requires maxSize <= MAX_PKT_ABSOLUTE_IPV6 && forall i <- out.Items() :: NamesFit(i)
    requires k < |Packets(out.Items(), LimitsOf(maxSize, isIpv4))|
    ensures var sent := Packets(out.Items(), LimitsOf(maxSize, isIpv4));
            var size := |Sealed(out.WireId(), FlagsOf(out, k, |sent|), sent[k])|;
            sent[k] != [] ==>
              || size <= maxSize
              || (|sent[k]| == 1 && sent[k][0].Tell? && size <= if isIpv4 then 8972 else 8952)
  {
    hide Encode, Kept, Packets, Outgoing.Items, Sealed, NamesFit, ClosedFor;
    var sent := Packets(out.Items(), LimitsOf(maxSize, isIpv4));
    var ends := PackingIsExact(out.Items(), LimitsOf(maxSize, isIpv4));
    assert StretchOk(out.Items(), sent, ends, k, LimitsOf(maxSize, isIpv4));
    SealedExtends(out.WireId(), FlagsOf(out, k, |sent|), sent[k]);
  }

  /** What is sent of a message, by sizes: questions up to the limit, records up to what IP carries. */
  lemma SentIff(out: Outgoing, maxSize: nat, isIpv4: bool, item: Item)
    requires maxSize <= MAX_PKT_ABSOLUTE_IPV6 && forall i <- out.Items() :: NamesFit(i)
    ensures item in Flatten(Packets(out.Items(), LimitsOf(maxSize, isIpv4))) <==>
            && item in out.Items() && !TooLong(item)
            && Size([item]) <= if item.Ask? then maxSize else if isIpv4 then 8972 else 8952
  {
    hide Packets, Outgoing.Items, Kept, NamesFit, Size, TooLong, Flatten;
    var lim := LimitsOf(maxSize, isIpv4);
    PackingLosesNothing(out.Items(), lim);
    KeptIff(out.Items(), lim, item);
  }

  lemma {:induction false} KeptIff(items: seq<Item>, lim: Limits, item: Item)
    ensures item in Kept(items, lim) <==> item in items && Encodable(item, lim)
  {
    if items != [] {
      hide Encodable;
      var front, last := items[..|items| - 1], items[|items| - 1];
      KeptIff(front, lim, item);
      assert items == front + [last];
    }
  }
}
