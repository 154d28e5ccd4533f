// What arrives of a record, field by field, and a message byte by byte.
module WireFields {
  import opened Bytes
  import opened DnsName
  import opened DnsRecords
  import opened Wire
  import opened NameReader
  import opened PacketWriter
  import opened Encoding
  import opened Packing
  import opened PacketBuilder
  import opened PacketReader
  import opened RoundTrip
  import opened MessageRoundTrip

  /** The same data, with names in the form in which they are read. */
  predicate SameData(sent: RData, got: RData, intf: InterfaceId) {
    match sent
    case Addr4(ip, _) => got.Addr4? && got.ip == ip && got.intf == intf
    case Addr6(ip, _) => got.Addr6? && got.ip6 == ip && got.intf == intf
    case Pointer(cname, alias) => got.Pointer? && got.cname == cname && got.alias == Dotted(alias)
    case Srv(priority, weight, port, host) =>
      && got.Srv? && got.priority == priority && got.weight == weight && got.port == port
      && got.host == Dotted(host)
    case Txt(text) => got.Txt? && got.text == text
  }

  /** The seconds that a record has left at `time`; 0 stands for a record that is sent with its whole TTL. */
  function SecondsLeft(rec: Record, time: nat): int {
    if time == 0 then rec.life.ttl else (rec.life.created + 1000 * rec.life.ttl - time) / 1000
  }

  /**
   * `got` is `rec`, sent at `time` and read at `now`: class, cache-flush bit and data are the same; in a response
   * a TTL of 0 is read as 1; and the life of the record begins when it arrives.
   */
  predicate CameThrough(rec: Record, time: nat, isResponse: bool, got: Record, intf: InterfaceId, now: nat) {
    && got.name == Dotted(rec.GetName()) && got.newName == None
    && got.rrclass == rec.rrclass && got.flush == rec.flush && SameData(rec.rdata, got.rdata, intf)
    && (time == 0 || rec.life.created <= time <= rec.life.created + 1000 * rec.life.ttl ==>
          got.life.ttl == if SecondsLeft(rec, time) == 0 && isResponse then 1 else SecondsLeft(rec, time))
    && got.life.created == now
    && got.life.expires == now + 1000 * got.life.ttl && got.life.refresh == now + 800 * got.life.ttl
  }

  lemma EchoCameThrough(rec: Record, time: nat, isResponse: bool, intf: InterfaceId, now: nat)
    ensures CameThrough(rec, time, isResponse, EchoRecord(rec, time, isResponse, intf, now), intf, now)
  {
    hide Dotted;
    LeftOnWire(rec, time);
  }

  lemma LeftOnWire(rec: Record, time: nat)
    ensures time == 0 || rec.life.created <= time <= rec.life.created + 1000 * rec.life.ttl ==>
              WireTtl(rec, time) == SecondsLeft(rec, time)
  {
    if time != 0 && rec.life.created <= time <= rec.life.created + 1000 * rec.life.ttl {
      assert ExpirationTime(rec.life.created, rec.life.ttl, 100) == rec.life.created + 1000 * rec.life.ttl;
    }
  }

  /** The records of a section came through one by one, in order. */
  ghost predicate AllCameThrough(items: seq<Item>, isResponse: bool, got: seq<Record>, intf: InterfaceId, now: nat)
    requires forall i <- items :: i.Tell?
  {
    && |got| == |items|
    && forall j :: 0 <= j < |items| ==> CameThrough(items[j].rec, items[j].time, isResponse, got[j], intf, now)
  }

  lemma EchoesCameThrough(items: seq<Item>, isResponse: bool, intf: InterfaceId, now: nat)
    requires forall i <- items :: i.Tell?
    ensures AllCameThrough(items, isResponse, EchoRecords(items, isResponse, intf, now), intf, now)
  {
    hide EchoRecord, CameThrough;
    forall j | 0 <= j < |items|
      ensures CameThrough(items[j].rec, items[j].time, isResponse, EchoRecords(items, isResponse, intf, now)[j], intf,
                          now)
    {
      EchoCameThrough(items[j].rec, items[j].time, isResponse, intf, now);
    }
  }

  /** The questions of a packet arrive with their names, types and classes. */
  ghost predicate AllAsked(items: seq<Item>, got: seq<Question>)
    requires forall i <- items :: i.Ask?
  {
    && |got| == |items|
    && forall j :: 0 <= j < |items| ==>
         var q := items[j].question;
         got[j].name == Dotted(q.name) && got[j].ty == q.ty && got[j].rrclass == q.rrclass
  }

  /** The round trip of a message, field by field: all of each packet comes through. */
  lemma FieldsReadBack(out: Outgoing, maxSize: nat, isIpv4: bool, intf: InterfaceId, now: nat, k: nat)
    requires maxSize <= MAX_PKT_ABSOLUTE_IPV6 && forall i <- out.Items() :: NamesFit(i)
    requires k < |Packets(out.Items(), LimitsOf(maxSize, isIpv4))|
    ensures var sent := Packets(out.Items(), LimitsOf(maxSize, isIpv4));
            var r := Parse(Sealed(out.WireId(), FlagsOf(out, k, |sent|), sent[k]), intf, now);
            && WellPlaced(sent[k]) && r.Got? && AllAsked(Of(sent[k], Questions), r.val.questions)
            && AllCameThrough(Of(sent[k], Answers), out.flags >= 0x8000, r.val.answers, intf, now)
            && AllCameThrough(Of(sent[k], Authorities), out.flags >= 0x8000, r.val.authorities, intf, now)
            && AllCameThrough(Of(sent[k], Additionals), out.flags >= 0x8000, r.val.additionals, intf, now)
  {
    hide Of, Parse, Sealed, EchoRecords, AllCameThrough, Packets, Outgoing.Items, NamesFit;
    var sent := Packets(out.Items(), LimitsOf(maxSize, isIpv4));
    var isResponse := out.flags >= 0x8000;
    MessageReadsBack(out, maxSize, isIpv4, intf, now);
    SameKind(out, k, |sent|);
    EchoesCameThrough(Of(sent[k], Answers), isResponse, intf, now);
    EchoesCameThrough(Of(sent[k], Authorities), isResponse, intf, now);
    EchoesCameThrough(Of(sent[k], Additionals), isResponse, intf, now);
  }

  lemma SameKind(out: Outgoing, k: nat, count: nat)
    ensures FlagsOf(out, k, count) >= 0x8000 <==> out.flags >= 0x8000
  {
  }

  // ----- A message, byte by byte -----

  /** `s.l.`, one SRV record of which points to `h.l.` */
  const SERVICE: bytes := [115, 46, 108, 46]
  const HOST: bytes := [104, 46, 108, 46]

  function ExampleRecord(): Record {
    Record(SERVICE, 1, true, NewLife(120, 0), None, Srv(1, 2, 8080, HOST))
  }

  lemma ExampleLabels()
    ensures Labels(SERVICE) == [[115], [108]] && Labels(HOST) == [[104], [108]]
    ensures Join([[115], [108]]) == [115, 46, 108] && Join([[104], [108]]) == [104, 46, 108] && Join([[108]]) == [108]
  {
    var s: bytes, h: bytes, l: bytes := [115], [104], [108];
    TwoLabels(s, l);
    TwoLabels(h, l);
    assert SERVICE == s + [DOT] + l + [DOT] && HOST == h + [DOT] + l + [DOT];
    hide Labels;
    assert [s, l][1..] == [l] && [h, l][1..] == [l];
  }

  lemma TwoLabels(a: bytes, b: bytes)
    requires Plain(a) && Plain(b)
    ensures Labels(a + [DOT] + b + [DOT]) == [a, b]
  {
    hide Labels, Plain;
    assert [a, b][1..] == [b] && [b][1..] == [];
    assert Text([a, b]) == a + [DOT] + (b + [DOT] + Text([])) == a + [DOT] + b + [DOT];
    TextRoundTrip([a, b]);
  }

  /** The name of the service, written first: its two suffixes are in the table then. */
  lemma ExampleOwner()
    ensures EncodeName(map[], 12, SERVICE) == Enc([1, 115, 1, 108, 0], map[[115, 46, 108] := 12, [108] := 14])
  {
    hide Labels, Join;
    ExampleLabels();
    assert SERVICE == [115] + [DOT] + [108] + [DOT];
    var labels: seq<bytes> := [[115], [108]];
    assert labels[1..] == [[108]] && [[108]][1..] == [];
    EncodeStep(map[], 12, labels);
    EncodeStep(map[[115, 46, 108] := 12], 14, [[108]]);
    EncodeStep(map[[115, 46, 108] := 12, [108] := 14], 16, []);
  }

  /** The target, written behind it: one label, and a pointer to the suffix. */
  lemma ExampleTarget(names: NameTable)
    requires names == map[[115, 46, 108] := 12, [108] := 14]
    ensures EncodeName(names, 39, HOST).out == [1, 104, 0xC0, 14]
  {
    hide Labels, Join;
    ExampleLabels();
    var labels: seq<bytes> := [[104], [108]];
    assert labels[1..] == [[108]];
    EncodeStep(names, 39, labels);
    EncodeStep(names[[104, 46, 108] := 39], 41, [[108]]);
    assert PointerBytes(14) == [0xC0, 14];
  }

  lemma ExampleQuestion()
    ensures Encode([Ask(Question(SERVICE, SRV, 1, false))])
         == Packet(BLANK_HEADER + [1, 115, 1, 108, 0, 0, 33, 0, 1], map[[115, 46, 108] := 12, [108] := 14])
  {
    hide EncodeName;
    ExampleOwner();
    var q := Ask(Question(SERVICE, SRV, 1, false));
    assert [q][..0] == [] && [q][0] == q;
    assert Be16(33) == [0, 33] && Be16(1) == [0, 1];
  }

  lemma ExampleOwnerAgain(names: NameTable)
    requires names == map[[115, 46, 108] := 12, [108] := 14]
    ensures EncodeName(names, 21, SERVICE) == Enc([0xC0, 12], names)
  {
    hide Labels, Join;
    ExampleLabels();
    EncodeStep(names, 21, [[115], [108]]);
    assert PointerBytes(12) == [0xC0, 12];
  }

  lemma ExampleRData(names: NameTable)
    requires names == map[[115, 46, 108] := 12, [108] := 14]
    ensures EncodeRData(names, 33, Srv(1, 2, 8080, HOST)).out == [0, 1, 0, 2, 31, 144, 1, 104, 0xC0, 14]
  {
    hide EncodeName;
    ExampleTarget(names);
    assert Be16(1) == [0, 1] && Be16(2) == [0, 2] && Be16(8080) == [31, 144];
  }

  lemma TwoBytes(v: u16, hi: byte, lo: byte)
    requires v == hi * 0x100 + lo
    ensures Be16(v) == [hi, lo]
  {
  }

  lemma FourBytes(v: u32, lo: byte)
    requires v == lo
    ensures Be32(v) == [0, 0, 0, lo]
  {
    hide Be16, U16, U32;
    assert v / 0x1_0000 == 0 && v % 0x1_0000 == v;
    TwoBytes(0, 0, 0);
    TwoBytes(v, 0, lo);
  }

  lemma ExampleFields()
    ensures RecordFields(ExampleRecord(), 0, 10) == [0, 33, 0x80, 1, 0, 0, 0, 120, 0, 10]
  {
    hide Be16, Be32;
    TwoBytes(33, 0, 33);
    TwoBytes(0x8001, 0x80, 1);
    FourBytes(120, 120);
    TwoBytes(10, 0, 10);
    assert RecordFields(ExampleRecord(), 0, 10) == Be16(33) + Be16(0x8001) + Be32(120) + Be16(10);
  }

  lemma ExampleAnswer(names: NameTable)
    requires names == map[[115, 46, 108] := 12, [108] := 14]
    ensures EncodeItem(names, 21, Tell(Answers, ExampleRecord(), 0)).out
         == [0xC0, 12, 0, 33, 0x80, 1, 0, 0, 0, 120, 0, 10, 0, 1, 0, 2, 31, 144, 1, 104, 0xC0, 14]
  {
    hide EncodeName, RecordFields, EncodeRData;
    ExampleOwnerAgain(names);
    ExampleRData(names);
    ExampleFields();
  }

  lemma HeaderBytes(flags: u16, c: Counts, hi: byte, lo: byte, qd: byte, an: byte)
    requires flags == hi * 0x100 + lo && c == Counts(qd, an, 0, 0)
    ensures Header(0, flags, c) == [0, 0, hi, lo, 0, qd, 0, an, 0, 0, 0, 0]
  {
    hide Be16;
    TwoBytes(0, 0, 0);
    TwoBytes(qd, 0, qd);
    TwoBytes(an, 0, an);
    TwoBytes(flags, hi, lo);
    assert Header(0, flags, c) == Be16(0) + Be16(flags) + Be16(qd) + Be16(an) + Be16(0) + Be16(0);
  }

  lemma ExampleCounts()
    ensures CountsOf([Ask(Question(SERVICE, SRV, 1, false)), Tell(Answers, ExampleRecord(), 0)]) == Counts(1, 1, 0, 0)
  {
    hide CountsOf;
    var q, t := Ask(Question(SERVICE, SRV, 1, false)), Tell(Answers, ExampleRecord(), 0);
    assert [] + [q] == [q] && [q] + [t] == [q, t];
    NothingCounted();
    CountsNext([], q);
    CountsNext([q], t);
  }

  /**
   * RFC 1035 section 4.1 and RFC 2782 on an example: an authoritative response with one question and one unique SRV
   * record, as it is on the wire. Numbers are big-endian, the top bit of the class is that of the cache flush,
   * and repeated names are pointers.
   */
  lemma ExampleOnWire()
    ensures Sealed(0, 0x8400, [Ask(Question(SERVICE, SRV, 1, false)), Tell(Answers, ExampleRecord(), 0)])
         == [0, 0, 0x84, 0, 0, 1, 0, 1, 0, 0, 0, 0]
            + [1, 115, 1, 108, 0, 0, 33, 0, 1]
            + [0xC0, 12, 0, 33, 0x80, 1, 0, 0, 0, 120, 0, 10, 0, 1, 0, 2, 31, 144, 1, 104, 0xC0, 14]
  {
    hide Encode, EncodeItem, CountsOf, Header;
    var q, t := Ask(Question(SERVICE, SRV, 1, false)), Tell(Answers, ExampleRecord(), 0);
    ExampleQuestion();
    ExampleAnswer(map[[115, 46, 108] := 12, [108] := 14]);
    ExampleCounts();
    HeaderBytes(0x8400, CountsOf([q, t]), 0x84, 0, 1, 1);
    assert [q] + [t] == [q, t];
    EncodeSnoc([q], t);
  }
}
