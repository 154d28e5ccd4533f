// The wire form of questions and records: which bytes a packet gains, and which
// names its compression table gains, when an item is written at its end.
module Wire {
  import opened Bytes
  import opened DnsName
  import opened DnsRecords

  const MSG_HEADER_LEN := 12
  const MAX_LABEL_BYTES := 63
  /** Offsets at or above this do not fit in a compression pointer. */
  const POINTER_LIMIT := 0x4000
  const MAX_PKT_ABSOLUTE_IPV4 := 8972
  const MAX_PKT_ABSOLUTE_IPV6 := 8952

  type NameTable = map<bytes, u16>

  datatype Section = Questions | Answers | Authorities | Additionals
  datatype Item =
    | Ask(question: Question)
    | Tell(section: Section, rec: Record, time: nat)

  datatype Enc = Enc(out: bytes, names: NameTable)

  /** The two top bits are or-ed in, so an offset of 15 bits or more loses its top. */
  function PointerBytes(offset: u16): bytes {
    Be16(0xC000 + offset % POINTER_LIMIT)
  }

  predicate NameTooLong(name: bytes) {
    exists l <- Labels(name) :: |l| > MAX_LABEL_BYTES
  }

  /** A label behind its length byte. */
  function Piece(l: bytes): (r: bytes)
    ensures |r| == 1 + |l|
  {
    [|l| % 0x100] + l
  }

  function EncodeLabels(names: NameTable, pos: nat, labels: seq<bytes>): Enc
    decreases labels
  {
    if labels == [] then Enc([0], names)
    else if Join(labels) in names then Enc(PointerBytes(names[Join(labels)]), names)
    else
      var rest := EncodeLabels(names[Join(labels) := pos % 0x1_0000], pos + |Piece(labels[0])|, labels[1..]);
      Enc(Piece(labels[0]) + rest.out, rest.names)
  }

  /** The three ways in which writing labels can go on. */
  lemma EncodeStep(names: NameTable, pos: nat, labels: seq<bytes>)
    ensures labels == [] ==> EncodeLabels(names, pos, labels) == Enc([0], names)
    ensures labels != [] && Join(labels) in names ==>
              EncodeLabels(names, pos, labels) == Enc(PointerBytes(names[Join(labels)]), names)
    ensures labels != [] && Join(labels) !in names ==>
              var rest := EncodeLabels(names[Join(labels) := pos % 0x1_0000], pos + |Piece(labels[0])|, labels[1..]);
              EncodeLabels(names, pos, labels) == Enc(Piece(labels[0]) + rest.out, rest.names)
  {
  }

  /** `written` is what has been written of `whole` when `labels` are still to come, at `pos`. */
  ghost predicate Progress(whole: Enc, written: bytes, names: NameTable, pos: nat, labels: seq<bytes>) {
    var rest := EncodeLabels(names, pos, labels);
    whole == Enc(written + rest.out, rest.names)
  }

  lemma ProgressStarts(names: NameTable, pos: nat, labels: seq<bytes>)
    ensures Progress(EncodeLabels(names, pos, labels), [], names, pos, labels)
  {
    var rest := EncodeLabels(names, pos, labels);
    assert [] + rest.out == rest.out;
  }

  lemma ProgressByLabel(whole: Enc, written: bytes, names: NameTable, pos: nat, labels: seq<bytes>)
    requires Progress(whole, written, names, pos, labels) && labels != [] && Join(labels) !in names
    ensures Progress(whole, written + Piece(labels[0]), names[Join(labels) := pos % 0x1_0000],
                     pos + |Piece(labels[0])|, labels[1..])
  {
    hide EncodeLabels, Piece, Join;
    EncodeStep(names, pos, labels);
    var piece := Piece(labels[0]);
    var rest := EncodeLabels(names[Join(labels) := pos % 0x1_0000], pos + |piece|, labels[1..]);
    assert written + (piece + rest.out) == (written + piece) + rest.out;
  }

  lemma ProgressEnds(whole: Enc, written: bytes, names: NameTable, pos: nat, labels: seq<bytes>)
    requires Progress(whole, written, names, pos, labels)
    ensures labels == [] ==> whole == Enc(written + [0], names)
    ensures labels != [] && Join(labels) in names ==> whole == Enc(written + PointerBytes(names[Join(labels)]), names)
  {
    EncodeStep(names, pos, labels);
  }

  function EncodeName(names: NameTable, pos: nat, name: bytes): Enc {
    EncodeLabels(names, pos, Labels(name))
  }

  function EncodeRData(names: NameTable, pos: nat, rdata: RData): Enc {
    match rdata
    case Addr4(ip, _) => Enc(ip, names)
    case Addr6(ip, _) => Enc(ip, names)
    case Pointer(_, alias) => EncodeName(names, pos, alias)
    case Srv(priority, weight, port, host) =>
      var e := EncodeName(names, pos + 6, host);
      Enc(Be16(priority) + Be16(weight) + Be16(port) + e.out, e.names)
    case Txt(text) => Enc(text, names)
  }

  predicate RDataTooLong(rdata: RData) {
    match rdata
    case Pointer(_, alias) => NameTooLong(alias)
    case Srv(_, _, _, host) => NameTooLong(host)
    case _ => false
  }

  function WireTtl(rec: Record, time: nat): u32 {
    if time == 0 then rec.life.ttl else RemainingTtl(rec.life.created, rec.life.ttl, time)
  }

  /** TYPE, CLASS, TTL and RDLENGTH of a record whose rdata takes `length` bytes. */
  function RecordFields(rec: Record, time: nat, length: nat): (r: bytes)
    ensures |r| == 10
  {
    Be16(rec.rdata.Type().Code()) + Be16(WireClass(rec.rrclass, rec.flush)) + Be32(WireTtl(rec, time))
    + Be16(length % 0x1_0000)
  }

  function EncodeRecord(names: NameTable, pos: nat, rec: Record, time: nat): Enc {
    var owner := EncodeName(names, pos, rec.GetName());
    var rdata := EncodeRData(owner.names, pos + |owner.out| + 10, rec.rdata);
    Enc(owner.out + RecordFields(rec, time, |rdata.out|) + rdata.out, rdata.names)
  }

  function EncodeQuestion(names: NameTable, pos: nat, q: Question): Enc {
    var e := EncodeName(names, pos, q.name);
    Enc(e.out + Be16(q.ty.Code()) + Be16(q.rrclass), e.names)
  }

  function EncodeItem(names: NameTable, pos: nat, item: Item): Enc {
    match item
    case Ask(q) => EncodeQuestion(names, pos, q)
    case Tell(_, rec, time) => EncodeRecord(names, pos, rec, time)
  }

  /** The item has a label that no packet can hold. */
  predicate TooLong(item: Item) {
    match item
    case Ask(q) => NameTooLong(q.name)
    case Tell(_, rec, _) => NameTooLong(rec.GetName()) || RDataTooLong(rec.rdata)
  }

  /** Bytes that the labels take when nothing is compressed. */
  function PlainLength(labels: seq<bytes>): nat {
    if labels == [] then 1 else 1 + |labels[0]| + PlainLength(labels[1..])
  }

  /** No label of the item can start this far or further behind the start of the item. */
  function NameReach(item: Item): nat {
    match item
    case Ask(q) => PlainLength(Labels(q.name))
    case Tell(_, rec, _) =>
      PlainLength(Labels(rec.GetName())) +
      match rec.rdata
      case Pointer(_, alias) => 10 + PlainLength(Labels(alias))
      case Srv(_, _, _, host) => 16 + PlainLength(Labels(host))
      case _ => 0
  }

  /** Every offset that writing `item` at `pos` may cache fits in 16 bits. */
  predicate OffsetsFit(pos: nat, item: Item) {
    pos + NameReach(item) <= 0x1_0000
  }

  lemma {:induction false} CompressionNeverLonger(names: NameTable, pos: nat, labels: seq<bytes>)
    requires [] !in labels
    ensures |EncodeLabels(names, pos, labels).out| <= PlainLength(labels)
    decreases labels
  {
    if labels != [] {
      assert labels[0] in labels;
      assert PlainLength(labels[1..]) >= 1;
      if Join(labels) !in names {
        CompressionNeverLonger(names[Join(labels) := pos % 0x1_0000], pos + |Piece(labels[0])|, labels[1..]);
      }
    }
  }

  /** The table keeps what it had; what it gains starts at or behind `pos`. */
  ghost predicate Grows(names: NameTable, names': NameTable, pos: nat) {
    && (forall k <- names :: k in names' && names'[k] == names[k])
    && (forall k <- names' :: k in names || names'[k] >= pos)
  }

  lemma {:induction false} LabelsGrow(names: NameTable, pos: nat, labels: seq<bytes>)
    requires pos + PlainLength(labels) <= 0x1_0000
    ensures Grows(names, EncodeLabels(names, pos, labels).names, pos)
    decreases labels
  {
    if labels != [] && Join(labels) !in names {
      LabelsGrow(names[Join(labels) := pos % 0x1_0000], pos + |Piece(labels[0])|, labels[1..]);
    }
  }

  lemma NameGrows(names: NameTable, pos: nat, name: bytes)
    requires pos + PlainLength(Labels(name)) <= 0x1_0000
    ensures Grows(names, EncodeName(names, pos, name).names, pos)
    ensures |EncodeName(names, pos, name).out| <= PlainLength(Labels(name))
  {
    LabelsGrow(names, pos, Labels(name));
    LabelsNotEmpty(StripDot(name), []);
    CompressionNeverLonger(names, pos, Labels(name));
  }

  predicate RDataOffsetsFit(pos: nat, rdata: RData) {
    match rdata
    case Pointer(_, alias) => pos + PlainLength(Labels(alias)) <= 0x1_0000
    case Srv(_, _, _, host) => pos + 6 + PlainLength(Labels(host)) <= 0x1_0000
    case _ => true
  }

  lemma RDataGrows(names: NameTable, pos: nat, rdata: RData)
    requires RDataOffsetsFit(pos, rdata)
    ensures Grows(names, EncodeRData(names, pos, rdata).names, pos)
  {
    match rdata
    case Pointer(_, alias) => NameGrows(names, pos, alias);
    case Srv(_, _, _, host) => NameGrows(names, pos + 6, host);
    case _ =>
  }

  lemma GrowsTransitive(n0: NameTable, n1: NameTable, n2: NameTable, pos: nat, pos': nat)
    requires Grows(n0, n1, pos) && Grows(n1, n2, pos') && pos <= pos'
    ensures Grows(n0, n2, pos)
  {
  }

  lemma ItemGrows(names: NameTable, pos: nat, item: Item)
    requires OffsetsFit(pos, item)
    ensures Grows(names, EncodeItem(names, pos, item).names, pos)
  {
    hide RecordFields, EncodeName, EncodeRData, PlainLength, Grows;
    match item
    case Ask(q) => NameGrows(names, pos, q.name);
    case Tell(_, rec, time) =>
      var owner := EncodeName(names, pos, rec.GetName());
      var at := pos + |owner.out| + 10;
      assert Grows(names, owner.names, pos) && |owner.out| <= PlainLength(Labels(rec.GetName())) by {
        NameGrows(names, pos, rec.GetName());
      }
      RDataGrows(owner.names, at, rec.rdata);
      GrowsTransitive(names, owner.names, EncodeRData(owner.names, at, rec.rdata).names, pos, at);
      assert EncodeRecord(names, pos, rec, time).names == EncodeRData(owner.names, at, rec.rdata).names;
  }
}
