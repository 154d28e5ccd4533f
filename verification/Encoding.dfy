// The value of a packet that holds a list of items, and what every such packet keeps.
module Encoding {
  import opened Bytes
  import opened DnsName
  import opened DnsRecords
  import opened Wire
  import opened NameReader
  import opened PacketWriter

  function Append(p: Packet, item: Item): Packet {
    var e := EncodeItem(p.names, |p.data|, item);
    Packet(p.data + e.out, e.names)
  }

  /** The packet that results from writing `items` in order. */
  function Encode(items: seq<Item>): Packet {
    if items == [] then EMPTY_PACKET else Append(Encode(items[..|items| - 1]), items[|items| - 1])
  }

  function Size(items: seq<Item>): nat {
    |Encode(items).data|
  }

  lemma EncodeSnoc(items: seq<Item>, item: Item)
    ensures Encode(items + [item]) == Append(Encode(items), item)
  {
    assert (items + [item])[..|items|] == items;
  }

  /**
   * Far beyond the 255 bytes of RFC 1035 section 2.3.4: the names of the item take at most 4096
   * bytes in all.
   */
  predicate NamesFit(item: Item) {
    NameReach(item) <= 0x1000
  }

  /** Whether the packet has a sound compression table. */
  ghost predicate Sound(p: Packet) {
    MSG_HEADER_LEN <= |p.data| <= POINTER_LIMIT && TableReads(p.data, p.names)
  }

  lemma SoundPointsInside(p: Packet)
    requires Sound(p)
    ensures forall k <- p.names :: p.names[k] < |p.data|
  {
    forall k <- p.names
      ensures p.names[k] < |p.data|
    {
      assert EntryReads(p.data, k, p.names[k]);
    }
  }

  lemma RDataKeepsTable(d: bytes, names: NameTable, rdata: RData)
    requires MSG_HEADER_LEN <= |d| && TableReads(d, names) && !RDataTooLong(rdata)
    requires RDataOffsetsFit(|d|, rdata)
    requires |d + EncodeRData(names, |d|, rdata).out| <= POINTER_LIMIT
    ensures var e := EncodeRData(names, |d|, rdata); TableReads(d + e.out, e.names)
  {
    hide SafeRead, TableReads, EncodeName, Be16;
    var e := EncodeRData(names, |d|, rdata);
    match rdata
    case Pointer(_, alias) => NameReadsBack(d, names, alias);
    case Srv(priority, weight, port, host) =>
      var fixed := Be16(priority) + Be16(weight) + Be16(port);
      TableSurvives(d, names, d + fixed);
      NameReadsBack(d + fixed, names, host);
      assert d + e.out == d + fixed + EncodeName(names, |d| + 6, host).out;
    case _ => TableSurvives(d, names, d + e.out);
  }

  /** Writing an item keeps the compression table sound, if the packet stays within pointer reach. */
  lemma ItemKeepsTable(d: bytes, names: NameTable, item: Item)
    requires MSG_HEADER_LEN <= |d| && TableReads(d, names) && !TooLong(item) && OffsetsFit(|d|, item)
    requires |d + EncodeItem(names, |d|, item).out| <= POINTER_LIMIT
    ensures var e := EncodeItem(names, |d|, item); TableReads(d + e.out, e.names)
  {
    hide SafeRead, TableReads, EncodeName, EncodeRData, Be16, RecordFields, PlainLength, Labels;
    var e := EncodeItem(names, |d|, item);
    match item
    case Ask(q) =>
      var n := EncodeName(names, |d|, q.name);
      NameReadsBack(d, names, q.name);
      assert d + e.out == d + n.out + (Be16(q.ty.Code()) + Be16(q.rrclass));
      TableSurvives(d + n.out, n.names, d + e.out);
    case Tell(_, rec, time) =>
      var n := EncodeName(names, |d|, rec.GetName());
      NameGrows(names, |d|, rec.GetName());
      NameReadsBack(d, names, rec.GetName());
      var r := EncodeRData(n.names, |d + n.out| + 10, rec.rdata);
      var d1 := d + n.out + RecordFields(rec, time, |r.out|);
      TableSurvives(d + n.out, n.names, d1);
      assert d + e.out == d1 + r.out;
      RDataKeepsTable(d1, n.names, rec.rdata);
  }

  lemma AppendKeepsSound(p: Packet, item: Item)
    requires Sound(p) && !TooLong(item) && NamesFit(item)
    requires |Append(p, item).data| <= POINTER_LIMIT
    ensures Sound(Append(p, item))
  {
    ItemKeepsTable(p.data, p.names, item);
  }

  ghost predicate Writable(items: seq<Item>) {
    && Size(items) <= POINTER_LIMIT
    && forall i <- items :: !TooLong(i) && NamesFit(i)
  }

  lemma {:induction false} EncodeGrows(items: seq<Item>)
    ensures Size(items) >= MSG_HEADER_LEN + 5 * |items|
  {
    if items != [] {
      hide EncodeName, EncodeRData;
      EncodeGrows(items[..|items| - 1]);
      var p := Encode(items[..|items| - 1]);
      var owner := match items[|items| - 1] case Ask(q) => q.name case Tell(_, rec, _) => rec.GetName();
      NameNotEmpty(p.names, |p.data|, owner);
    }
  }

  lemma NameNotEmpty(names: NameTable, pos: nat, name: bytes)
    ensures |EncodeName(names, pos, name).out| >= 1
  {
  }

  /** Every packet that the writer can build has a sound table, whatever it holds. */
  lemma {:induction false} EncodeIsSound(items: seq<Item>)
    requires Writable(items)
    ensures Sound(Encode(items))
  {
    if items != [] {
      var front := items[..|items| - 1];
      assert forall i <- front :: i in items;
      EncodeIsSound(front);
      AppendKeepsSound(Encode(front), items[|items| - 1]);
    }
  }

  function Tally(items: seq<Item>, section: Section): nat {
    if items == [] then 0
    else Tally(items[..|items| - 1], section) + if SectionOf(items[|items| - 1]) == section then 1 else 0
  }

  /** The counts in the header of a packet that holds `items`, in 16 bits. */
  function CountsOf(items: seq<Item>): Counts {
    Counts(Tally(items, Questions) % 0x1_0000, Tally(items, Answers) % 0x1_0000, Tally(items, Authorities) % 0x1_0000,
           Tally(items, Additionals) % 0x1_0000)
  }

  lemma TallyNext(items: seq<Item>, item: Item, section: Section)
    ensures var t := Tally(items, section) % 0x1_0000;
            Tally(items + [item], section) % 0x1_0000 == if SectionOf(item) == section then (t + 1) % 0x1_0000 else t
  {
    assert (items + [item])[..|items|] == items;
  }

  /** Counting up one by one gives these counts. */
  lemma CountsNext(items: seq<Item>, item: Item)
    ensures CountsOf(items + [item]) == Bumped(CountsOf(items), SectionOf(item))
  {
    TallyNext(items, item, Questions);
    TallyNext(items, item, Answers);
    TallyNext(items, item, Authorities);
    TallyNext(items, item, Additionals);
    hide Tally;
  }

  lemma NothingCounted()
    ensures CountsOf([]) == Counts(0, 0, 0, 0)
  {
  }

  lemma {:induction false} TallyAll(items: seq<Item>)
    ensures Tally(items, Questions) + Tally(items, Answers) + Tally(items, Authorities) + Tally(items, Additionals)
         == |items|
  {
    if items != [] {
      TallyAll(items[..|items| - 1]);
    }
  }

  /** The header counts are exact: no 16-bit count wraps in a packet that can be sent. */
  lemma CountsAreExact(items: seq<Item>)
    requires |items| < 0x1_0000
    ensures var c := CountsOf(items);
            && c.qd == Tally(items, Questions) && c.an == Tally(items, Answers)
            && c.ns == Tally(items, Authorities) && c.ar == Tally(items, Additionals)
            && c.qd + c.an + c.ns + c.ar == |items|
  {
    hide Tally;
    TallyAll(items);
  }
}
