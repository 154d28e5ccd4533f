// What the reader makes of the writer's packets.
module RoundTrip {
  import opened Bytes
  import opened DnsName
  import opened DnsRecords
  import opened Wire
  import opened NameReader
  import opened PacketWriter
  import opened Encoding
  import opened Packing
  import opened PacketBuilder
  import opened PacketReader

  /** A question as it arrives: the name as dotted text, and no cache-flush bit. */
  function EchoQuestion(q: Question): Question {
    Question(Dotted(q.name), q.ty, q.rrclass, false)
  }

  function EchoRData(rdata: RData, intf: InterfaceId): RData {
    match rdata
    case Addr4(ip, _) => Addr4(ip, intf)
    case Addr6(ip, _) => Addr6(ip, intf)
    case Pointer(cname, alias) => Pointer(cname, Dotted(alias))
    case Srv(priority, weight, port, host) => Srv(priority, weight, port, Dotted(host))
    case Txt(text) => Txt(text)
  }

  /** A record as it arrives at `now` through `intf`. */
  function EchoRecord(rec: Record, time: nat, isResponse: bool, intf: InterfaceId, now: nat): Record {
    NewRecord(Dotted(rec.GetName()), WireClass(rec.rrclass, rec.flush),
              ReadTtl(WireTtl(rec, time), isResponse), EchoRData(rec.rdata, intf), now)
  }

  /** `d'` goes on where `d` ends, and may have another header. */
  ghost predicate Extends(d: bytes, d': bytes) {
    MSG_HEADER_LEN <= |d| <= |d'| && d'[MSG_HEADER_LEN..|d|] == d[MSG_HEADER_LEN..]
  }

  lemma ExtendsPrefix(before: bytes, after: bytes, d': bytes)
    requires MSG_HEADER_LEN <= |before| && Extends(before + after, d')
    ensures Extends(before, d')
    ensures |before| + |after| <= |d'| && d'[|before|..|before| + |after|] == after
  {
    assert forall i :: MSG_HEADER_LEN <= i < |before + after| ==>
                         d'[i] == d'[MSG_HEADER_LEN..|before + after|][i - MSG_HEADER_LEN];
    assert d'[MSG_HEADER_LEN..|before|] == before[MSG_HEADER_LEN..];
  }

  lemma TakeNameBack(before: bytes, names: NameTable, name: bytes, d': bytes)
    requires MSG_HEADER_LEN <= |before| && TableReads(before, names) && !NameTooLong(name)
    requires |before| + PlainLength(Labels(name)) <= 0x1_0000
    requires Extends(before + EncodeName(names, |before|, name).out, d')
    ensures TakeName(d', |before|) == Got(Dotted(name), |before| + |EncodeName(names, |before|, name).out|)
  {
    hide SafeRead, TableReads, EncodeName;
    var d := before + EncodeName(names, |before|, name).out;
    NameReadsBack(before, names, name);
    SafeReadStable(d, |before|, |before|, |d|, d', |before|, |d'|);
    SafeNameIsRead(d', |before|, |d'|);
  }

  lemma ShortBack(d: bytes, off: nat, v: u16)
    requires off + 2 <= |d| && d[off..off + 2] == Be16(v)
    ensures ShortAt(d, off) == v
  {
    assert d[off] == d[off..off + 2][0] && d[off + 1] == d[off..off + 2][1];
  }

  lemma FieldsBack(d: bytes, off: nat, rec: Record, time: nat, length: nat)
    requires off + 10 <= |d| && d[off..off + 10] == RecordFields(rec, time, length)
    ensures ShortAt(d, off) == rec.rdata.Type().Code()
    ensures ShortAt(d, off + 2) == WireClass(rec.rrclass, rec.flush)
    ensures LongAt(d, off + 4) == WireTtl(rec, time)
    ensures ShortAt(d, off + 8) == length % 0x1_0000
  {
    hide WireTtl, WireClass, U16, U32, Be16, Be32;
    var f := d[off..off + 10];
    assert f == Be16(rec.rdata.Type().Code()) + Be16(WireClass(rec.rrclass, rec.flush)) + Be32(WireTtl(rec, time))
             + Be16(length % 0x1_0000);
    assert forall i :: 0 <= i < 10 ==> d[off + i] == f[i];
  }

  lemma QuestionBack(p: Packet, q: Question, d': bytes)
    requires Sound(p) && !NameTooLong(q.name) && NamesFit(Ask(q))
    requires Extends(Append(p, Ask(q)).data, d')
    ensures TakeQuestion(d', |p.data|) == Got(EchoQuestion(q), |Append(p, Ask(q)).data|)
  {
    hide TableReads, EncodeName, Be16, U16, TakeName, FromCode, Labels;
    var n := EncodeName(p.names, |p.data|, q.name).out;
    var ty, cls := Be16(q.ty.Code()), Be16(q.rrclass);
    var b1 := p.data + n;
    assert Append(p, Ask(q)).data == b1 + ty + cls;
    ExtendsPrefix(b1 + ty, cls, d');
    ExtendsPrefix(b1, ty, d');
    TakeNameBack(p.data, p.names, q.name, d');
    ShortBack(d', |b1|, q.ty.Code());
    ShortBack(d', |b1| + 2, q.rrclass);
  }

  lemma RDataBack(d: bytes, names: NameTable, rdata: RData, d': bytes, intf: InterfaceId)
    requires MSG_HEADER_LEN <= |d| && TableReads(d, names) && !RDataTooLong(rdata)
    requires RDataOffsetsFit(|d|, rdata)
    requires Extends(d + EncodeRData(names, |d|, rdata).out, d')
    ensures var length := |EncodeRData(names, |d|, rdata).out|;
            TakeRData(d', |d|, Some(rdata.Type()), length, intf) == Got(Some(EchoRData(rdata, intf)), |d| + length)
  {
    hide TableReads, EncodeName, Be16, U16, TakeName, Labels;
    var out := EncodeRData(names, |d|, rdata).out;
    ExtendsPrefix(d, out, d');
    match rdata
    case Addr4(_, _) =>
    case Addr6(_, _) =>
    case Txt(_) =>
    case Pointer(_, alias) => TakeNameBack(d, names, alias, d');
    case Srv(_, _, _, _) => SrvBack(d, names, rdata, d', intf);
  }

  lemma SrvBack(d: bytes, names: NameTable, srv: RData, d': bytes, intf: InterfaceId)
    requires MSG_HEADER_LEN <= |d| && TableReads(d, names) && srv.Srv? && !RDataTooLong(srv)
    requires RDataOffsetsFit(|d|, srv)
    requires Extends(d + EncodeRData(names, |d|, srv).out, d')
    ensures var length := |EncodeRData(names, |d|, srv).out|;
            TakeRData(d', |d|, Some(SRV), length, intf) == Got(Some(EchoRData(srv, intf)), |d| + length)
  {
    hide TableReads, EncodeName, Be16, U16, TakeName, Labels;
    var b1 := d + Be16(srv.priority);
    var b2 := b1 + Be16(srv.weight);
    var b3 := b2 + Be16(srv.port);
    var n := EncodeName(names, |d| + 6, srv.host).out;
    assert d + EncodeRData(names, |d|, srv).out == b3 + n;
    ExtendsPrefix(b3, n, d');
    ExtendsPrefix(b2, Be16(srv.port), d');
    ExtendsPrefix(b1, Be16(srv.weight), d');
    ExtendsPrefix(d, Be16(srv.priority), d');
    ShortBack(d', |d|, srv.priority);
    ShortBack(d', |d| + 2, srv.weight);
    ShortBack(d', |d| + 4, srv.port);
    TableSurvives(d, names, b3);
    TakeNameBack(b3, names, srv.host, d');
  }

  /** The reader's record loop body, from what its parts return. */
  lemma RecordFromParts(
    d: bytes, off: nat, name: bytes, next: nat, rdata: RData, isResponse: bool, intf: InterfaceId, now: nat)
    requires TakeName(d, off) == Got(name, next) && next + 10 <= |d|
    requires next + 10 + ShortAt(d, next + 8) <= |d|
    requires TakeRData(d, next + 10, FromCode(ShortAt(d, next)), ShortAt(d, next + 8), intf)
          == Got(Some(rdata), next + 10 + ShortAt(d, next + 8))
    ensures TakeRecord(d, off, isResponse, intf, now)
         == Got(Some(NewRecord(name, ShortAt(d, next + 2), ReadTtl(LongAt(d, next + 4), isResponse), rdata, now)),
                next + 10 + ShortAt(d, next + 8))
  {
    hide TakeName, TakeRData, U16, U32, FromCode;
  }

  /** The parts of a packet that has just gained a record: its owner name and its rdata, ... */
  function OwnerPart(p: Packet, rec: Record): Enc {
    EncodeName(p.names, |p.data|, rec.GetName())
  }

  function BodyPart(p: Packet, rec: Record): Enc {
    EncodeRData(OwnerPart(p, rec).names, |p.data| + |OwnerPart(p, rec).out| + 10, rec.rdata)
  }

  /** ... and the packet up to the fixed fields, and up to the rdata. */
  function ToFields(p: Packet, rec: Record): bytes {
    p.data + OwnerPart(p, rec).out
  }

  function ToBody(p: Packet, rec: Record, time: nat): bytes {
    ToFields(p, rec) + RecordFields(rec, time, |BodyPart(p, rec).out|)
  }

  lemma RecordLayout(p: Packet, item: Item)
    requires item.Tell?
    ensures Append(p, item).data == ToBody(p, item.rec, item.time) + BodyPart(p, item.rec).out
    ensures |ToBody(p, item.rec, item.time)| == |ToFields(p, item.rec)| + 10
                                             == |p.data| + |OwnerPart(p, item.rec).out| + 10
  {
    hide EncodeName, EncodeRData, RecordFields;
    var rec := item.rec;
    var fields := RecordFields(rec, item.time, |BodyPart(p, rec).out|);
    assert Append(p, item).data == p.data + (OwnerPart(p, rec).out + fields + BodyPart(p, rec).out);
  }

  lemma BodyTable(p: Packet, item: Item)
    requires Sound(p) && item.Tell? && !TooLong(item) && NamesFit(item)
    requires |Append(p, item).data| <= POINTER_LIMIT
    ensures |p.data| + PlainLength(Labels(item.rec.GetName())) <= 0x1_0000
    ensures var d := ToBody(p, item.rec, item.time);
            TableReads(d, OwnerPart(p, item.rec).names) && RDataOffsetsFit(|d|, item.rec.rdata)
  {
    hide TableReads, EncodeName, EncodeRData, RecordFields, PlainLength, BodyPart, Append, Labels;
    RecordLayout(p, item);
    NameGrows(p.names, |p.data|, item.rec.GetName());
    NameReadsBack(p.data, p.names, item.rec.GetName());
    TableSurvives(ToFields(p, item.rec), OwnerPart(p, item.rec).names, ToBody(p, item.rec, item.time));
  }

  lemma RecordBack(p: Packet, item: Item, d': bytes, isResponse: bool, intf: InterfaceId, now: nat)
    requires Sound(p) && item.Tell? && !TooLong(item) && NamesFit(item)
    requires |Append(p, item).data| <= POINTER_LIMIT && Extends(Append(p, item).data, d')
    ensures TakeRecord(d', |p.data|, isResponse, intf, now)
         == Got(Some(EchoRecord(item.rec, item.time, isResponse, intf, now)), |Append(p, item).data|)
  {
    hide TableReads, EncodeName, EncodeRData, RecordFields, TakeName, TakeRData, TakeRecord, FromCode, PlainLength,
      RDataOffsetsFit, Append, U16, U32, Extends, BodyPart, Labels, WireClass, WireTtl, ReadTtl, NewRecord;
    var rec := item.rec;
    RecordLayout(p, item);
    BodyTable(p, item);
    var body := BodyPart(p, rec).out;
    ExtendsPrefix(ToBody(p, rec, item.time), body, d');
    ExtendsPrefix(ToFields(p, rec), RecordFields(rec, item.time, |body|), d');
    TakeNameBack(p.data, p.names, rec.GetName(), d');
    FieldsBack(d', |ToFields(p, rec)|, rec, item.time, |body|);
    BodyBack(p, item, d', intf);
    RecordFromParts(d', |p.data|, Dotted(rec.GetName()), |ToFields(p, rec)|, EchoRData(rec.rdata, intf), isResponse,
                    intf, now);
  }

  lemma BodyBack(p: Packet, item: Item, d': bytes, intf: InterfaceId)
    requires Sound(p) && item.Tell? && !TooLong(item) && NamesFit(item)
    requires |Append(p, item).data| <= POINTER_LIMIT && Extends(Append(p, item).data, d')
    ensures var off := |ToFields(p, item.rec)| + 10;
            TakeRData(d', off, Some(item.rec.rdata.Type()), |BodyPart(p, item.rec).out|, intf)
              == Got(Some(EchoRData(item.rec.rdata, intf)), off + |BodyPart(p, item.rec).out|)
  {
    hide TableReads, EncodeName, EncodeRData, RecordFields, TakeRData, PlainLength;
    hide RDataOffsetsFit, Append, ToFields, EchoRData;
    RecordLayout(p, item);
    BodyTable(p, item);
    var d := ToBody(p, item.rec, item.time);
    hide ToBody, Sound;
    RDataBack(d, OwnerPart(p, item.rec).names, item.rec.rdata, d', intf);
  }

  lemma EncodeOfPrefix(items: seq<Item>, k: nat)
    requires k < |items|
    ensures Encode(items[..k + 1]) == Append(Encode(items[..k]), items[k])
  {
    assert items[..k + 1][..k] == items[..k];
  }

  /** A packet goes through the packets of all shorter lists of its items. */
  lemma {:induction false} PrefixPacket(items: seq<Item>, k: nat)
    requires Writable(items) && k <= |items|
    ensures Writable(items[..k]) && Extends(Encode(items[..k]).data, Encode(items).data)
    decreases |items| - k
  {
    hide Encode, Append, NamesFit, TooLong, Extends;
    if k == |items| {
      assert items[..k] == items;
      EncodeGrows(items);
      ExtendsItself(Encode(items).data);
    } else {
      PrefixPacket(items, k + 1);
      AppendExtends(items, k);
      ExtendsTransitive(Encode(items[..k]).data, Encode(items[..k + 1]).data, Encode(items).data);
      assert forall i <- items[..k] :: i in items;
    }
  }

  lemma AppendExtends(items: seq<Item>, k: nat)
    requires k < |items|
    ensures Extends(Encode(items[..k]).data, Encode(items[..k + 1]).data)
    ensures Size(items[..k]) <= Size(items[..k + 1])
  {
    hide Encode, EncodeItem;
    EncodeOfPrefix(items, k);
    EncodeGrows(items[..k]);
  }

  lemma ExtendsItself(d: bytes)
    requires |d| >= MSG_HEADER_LEN
    ensures Extends(d, d)
  {
  }

  lemma ExtendsTransitive(a: bytes, b: bytes, c: bytes)
    requires Extends(a, b) && Extends(b, c)
    ensures Extends(a, c)
  {
    assert c[MSG_HEADER_LEN..|a|] == c[MSG_HEADER_LEN..|b|][..|a| - MSG_HEADER_LEN];
  }

  /** Where item `k` starts. */
  function Offset(items: seq<Item>, k: nat): nat
    requires k <= |items|
  {
    Size(items[..k])
  }

  function EchoQuestions(items: seq<Item>): seq<Question>
    requires forall i <- items :: i.Ask?
  {
    seq(|items|, k requires 0 <= k < |items| => EchoQuestion(items[k].question))
  }

  function EchoRecords(items: seq<Item>, isResponse: bool, intf: InterfaceId, now: nat): seq<Record>
    requires forall i <- items :: i.Tell?
  {
    seq(|items|, k requires 0 <= k < |items| => EchoRecord(items[k].rec, items[k].time, isResponse, intf, now))
  }

  lemma {:induction false} QuestionsBack(items: seq<Item>, lo: nat, hi: nat, d': bytes)
    requires Writable(items) && lo <= hi <= |items| && Extends(Encode(items).data, d')
    requires forall i <- items[lo..hi] :: i.Ask?
    ensures TakeQuestions(d', Offset(items, lo), hi - lo) == Got(EchoQuestions(items[lo..hi]), Offset(items, hi))
    decreases hi - lo
  {
    hide TakeQuestion, Encode, NameTooLong, NameReach, Append;
    if lo < hi {
      var q := items[lo];
      assert q in items && q.Ask?;
      assert items[lo..hi][0] == q && items[lo..hi][1..] == items[lo + 1..hi];
      QuestionsBack(items, lo + 1, hi, d');
      EncodeOfPrefix(items, lo);
      PrefixPacket(items, lo);
      PrefixPacket(items, lo + 1);
      EncodeIsSound(items[..lo]);
      ExtendsTransitive(Encode(items[..lo + 1]).data, Encode(items).data, d');
      QuestionBack(Encode(items[..lo]), q.question, d');
      assert EchoQuestions(items[lo..hi]) == [EchoQuestion(q.question)] + EchoQuestions(items[lo + 1..hi]);
    }
  }

  lemma {:induction false} RecordsBack(
    items: seq<Item>, lo: nat, hi: nat, d': bytes, isResponse: bool, intf: InterfaceId, now: nat)
    requires Writable(items) && lo <= hi <= |items| && Extends(Encode(items).data, d')
    requires forall i <- items[lo..hi] :: i.Tell?
    ensures TakeRecords(d', Offset(items, lo), hi - lo, isResponse, intf, now)
         == Got(EchoRecords(items[lo..hi], isResponse, intf, now), Offset(items, hi))
    decreases hi - lo
  {
    hide TakeRecord, Encode, TooLong, NameReach, Append, EchoRecord;
    if lo < hi {
      var r := items[lo];
      assert items[lo..hi][0] == r && items[lo..hi][1..] == items[lo + 1..hi];
      RecordsBack(items, lo + 1, hi, d', isResponse, intf, now);
      EncodeOfPrefix(items, lo);
      PrefixPacket(items, lo);
      PrefixPacket(items, lo + 1);
      EncodeIsSound(items[..lo]);
      ExtendsTransitive(Encode(items[..lo + 1]).data, Encode(items).data, d');
      RecordBack(Encode(items[..lo]), r, d', isResponse, intf, now);
      assert EchoRecords(items[lo..hi], isResponse, intf, now)
          == Listed(Some(EchoRecord(r.rec, r.time, isResponse, intf, now)))
             + EchoRecords(items[lo + 1..hi], isResponse, intf, now);
    }
  }
}
