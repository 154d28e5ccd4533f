// One outgoing packet: writing items at its end, and undoing a write that fails.
module PacketWriter {
  import opened Bytes
  import opened DnsName
  import opened DnsRecords
  import opened Wire

  datatype WriteResult = Done | TooLongName | Full

  /** What a packet holds: its bytes and its compression table. */
  datatype Packet = Packet(data: bytes, names: NameTable)

  /** The four counts of a header. */
  datatype Counts = Counts(qd: u16, an: u16, ns: u16, ar: u16)

  const BLANK_HEADER: bytes := [0, 0, 0, 0, 0, 0, 0, 0, 0, 0, 0, 0]

  const EMPTY_PACKET := Packet(BLANK_HEADER, map[])

  /** One more item in `section`, in the 16-bit arithmetic of the header fields. */
  function Bumped(c: Counts, section: Section): Counts {
    match section
    case Questions => c.(qd := (c.qd + 1) % 0x1_0000)
    case Answers => c.(an := (c.an + 1) % 0x1_0000)
    case Authorities => c.(ns := (c.ns + 1) % 0x1_0000)
    case Additionals => c.(ar := (c.ar + 1) % 0x1_0000)
  }

  function SectionOf(item: Item): Section {
    match item
    case Ask(_) => Questions
    case Tell(section, _, _) => section
  }

  /** What writing `item` does to a packet with `data` and `names` whose size limit is `max`. */
  function Outcome(data: bytes, names: NameTable, item: Item, max: nat): WriteResult {
    if TooLong(item) then TooLongName
    else if |data| + |EncodeItem(names, |data|, item).out| > max then Full
    else Done
  }

  function Patched(d: bytes, index: nat, v: u16): (r: bytes)
    requires index + 2 <= |d|
    ensures |r| == |d|
  {
    d[..index] + Be16(v) + d[index + 2..]
  }

  const FLAGS_TC: u16 := 0x0200

  /** `flags` with the truncation bit set. */
  function Truncated(flags: u16): (r: u16)
    ensures r / FLAGS_TC % 2 == 1 && r / 0x400 == flags / 0x400 && r % FLAGS_TC == flags % FLAGS_TC
  {
    if flags / FLAGS_TC % 2 == 1 then flags else flags + FLAGS_TC
  }

  /** RFC 1035 section 4.1.1. */
  function Header(id: u16, flags: u16, c: Counts): (r: bytes)
    ensures |r| == MSG_HEADER_LEN
  {
    Be16(id) + Be16(flags) + Be16(c.qd) + Be16(c.an) + Be16(c.ns) + Be16(c.ar)
  }

  lemma PatchNext(front: bytes, d: bytes, v: u16, d': bytes)
    requires |front| + 2 <= |d| && d' == front + d[|front|..]
    ensures Patched(d', |front|, v) == front + Be16(v) + d[|front + Be16(v)|..]
  {
    hide Be16;
  }

  lemma HeaderIsPatches(d: bytes, id: u16, flags: u16, c: Counts)
    requires |d| >= MSG_HEADER_LEN
    ensures var d1 := Patched(Patched(Patched(d, 0, id), 2, flags), 4, c.qd);
            Patched(Patched(Patched(d1, 6, c.an), 8, c.ns), 10, c.ar) == Header(id, flags, c) + d[MSG_HEADER_LEN..]
  {
    hide Be16, Patched;
    assert d == [] + d[0..];
    PatchNext([], d, id, d);
    var h1 := [] + Be16(id);
    PatchNext(h1, d, flags, h1 + d[2..]);
    var h2 := h1 + Be16(flags);
    PatchNext(h2, d, c.qd, h2 + d[4..]);
    var h3 := h2 + Be16(c.qd);
    PatchNext(h3, d, c.an, h3 + d[6..]);
    var h4 := h3 + Be16(c.an);
    PatchNext(h4, d, c.ns, h4 + d[8..]);
    var h5 := h4 + Be16(c.ns);
    PatchNext(h5, d, c.ar, h5 + d[10..]);
    assert h1 == Be16(id);
  }

  function Below(names: NameTable, start: nat): NameTable {
    map k | k in names && names[k] < start :: names[k]
  }

  /** The table after a write of `item` at `pos` that failed, and was rolled back. */
  function Undone(names: NameTable, pos: nat, item: Item): NameTable {
    match item
    case Ask(q) => if NameTooLong(q.name) then names else Below(EncodeQuestion(names, pos, q).names, pos)
    case Tell(_, rec, time) =>
      if NameTooLong(rec.GetName()) then names
      else if RDataTooLong(rec.rdata) then Below(EncodeName(names, pos, rec.GetName()).names, pos)
      else Below(EncodeRecord(names, pos, rec, time).names, pos)
  }

  lemma NothingToUndo(names: NameTable, data: bytes)
    requires forall k <- names :: names[k] < |data|
    ensures Below(names, |data|) == names
  {
  }

  /** A rollback gives back the table as it was, if no offset was cut to 16 bits on the way. */
  lemma RollbackRestores(names: NameTable, data: bytes, names': NameTable)
    requires forall k <- names :: names[k] < |data|
    requires Grows(names, names', |data|)
    ensures Below(names', |data|) == names
  {
  }

  lemma RollbackAfterItem(names: NameTable, data: bytes, item: Item)
    requires forall k <- names :: names[k] < |data|
    ensures OffsetsFit(|data|, item) ==> Below(EncodeItem(names, |data|, item).names, |data|) == names
  {
    if OffsetsFit(|data|, item) {
      ItemGrows(names, |data|, item);
      RollbackRestores(names, data, EncodeItem(names, |data|, item).names);
    }
  }

  lemma RollbackAfterOwner(names: NameTable, data: bytes, rec: Record, names': NameTable)
    requires forall k <- names :: names[k] < |data|
    requires names' == EncodeName(names, |data|, rec.GetName()).names
    ensures forall s, t :: OffsetsFit(|data|, Tell(s, rec, t)) ==> Below(names', |data|) == names
  {
    if |data| + PlainLength(Labels(rec.GetName())) <= 0x1_0000 {
      NameGrows(names, |data|, rec.GetName());
      RollbackRestores(names, data, names');
    }
  }

  /** Patching the placeholder gives the fields with the true length in them. */
  lemma PatchFields(before: bytes, rec: Record, now: nat, body: bytes)
    ensures var d := before + RecordFields(rec, now, 0) + body;
            Patched(d, |before| + 8, |body| % 0x1_0000) == before + (RecordFields(rec, now, |body|) + body)
  {
    hide RemainingTtl, Be16, Be32, WireTtl, WireClass;
  }

  class OutPacket {
    var data: bytes
    var names: NameTable
    var maxSize: nat
    var counts: Counts

    constructor (maxSize: nat)
      ensures Value() == EMPTY_PACKET && counts == Counts(0, 0, 0, 0) && this.maxSize == maxSize
    {
      data := BLANK_HEADER;
      names := map[];
      this.maxSize := maxSize;
      counts := Counts(0, 0, 0, 0);
    }

    ghost function Value(): Packet
      reads this`data, this`names
    {
      Packet(data, names)
    }

    /** The table points into the packet. */
    ghost predicate Valid()
      reads this
    {
      |data| >= MSG_HEADER_LEN && forall k <- names :: names[k] < |data|
    }

    predicate IsEmpty()
      reads this
    {
      counts == Counts(0, 0, 0, 0)
    }

    method Bump(section: Section)
      modifies this`counts
      ensures counts == Bumped(old(counts), section)
    {
      match section
      case Questions => counts := counts.(qd := (counts.qd + 1) % 0x1_0000);
      case Answers => counts := counts.(an := (counts.an + 1) % 0x1_0000);
      case Authorities => counts := counts.(ns := (counts.ns + 1) % 0x1_0000);
      case Additionals => counts := counts.(ar := (counts.ar + 1) % 0x1_0000);
    }

    method WriteBytes(s: bytes)
      modifies this`data
      ensures data == old(data) + s
    {
      data := data + s;
    }

    method WriteShort(v: u16)
      modifies this`data
      ensures data == old(data) + Be16(v)
    {
      data := data + Be16(v);
    }

    method SetShortAt(index: nat, v: u16)
      requires index + 2 <= |data|
      modifies this`data
      ensures data == Patched(old(data), index, v)
    {
      data := data[..index] + Be16(v) + data[index + 2..];
    }

    /** Drops the bytes from `start` on, and every table entry that points at or behind them. */
    method Rollback(start: nat)
      requires start <= |data|
      modifies this`data, this`names
      ensures data == old(data[..start]) && names == Below(old(names), start)
    {
      data := data[..start];
      names := map k | k in names && names[k] < start :: names[k];
    }

    /** The loop of `WriteName`: one label at a time, until a suffix is found in the table. */
    method WriteLabels(labels: seq<bytes>)
      modifies this`data, this`names
      ensures data == old(data) + EncodeLabels(old(names), |old(data)|, labels).out
      ensures names == EncodeLabels(old(names), |old(data)|, labels).names
    {
      hide *;
      ghost var whole := EncodeLabels(names, |data|, labels);
      ghost var written: bytes := [];
      ProgressStarts(names, |data|, labels);
      var i := 0;
      while i < |labels|
        invariant 0 <= i <= |labels|
        invariant data == old(data) + written
        invariant Progress(whole, written, names, |data|, labels[i..])
      {
        var remaining := Join(labels[i..]);
        if remaining in names {
          ProgressEnds(whole, written, names, |data|, labels[i..]);
          WriteBytes(PointerBytes(names[remaining]));
          return;
        }
        ProgressByLabel(whole, written, names, |data|, labels[i..]);
        assert labels[i..][1..] == labels[i + 1..];
        names := names[remaining := |data| % 0x1_0000];
        WriteBytes(Piece(labels[i]));
        written := written + Piece(labels[i]);
        i := i + 1;
      }
      assert labels[i..] == [];
      ProgressEnds(whole, written, names, |data|, []);
      WriteBytes([0]);
    }

    method WriteName(name: bytes) returns (r: WriteResult)
      modifies this`data, this`names
      ensures r == if NameTooLong(name) then TooLongName else Done
      ensures r == TooLongName ==> data == old(data) && names == old(names)
      ensures r == Done ==>
                var e := EncodeName(old(names), |old(data)|, name);
                data == old(data) + e.out && names == e.names
    {
      var toParse := if |name| > 0 && name[|name| - 1] == DOT then name[..|name| - 1] else name;
      var labels := ParseEscapedName(toParse);
      assert labels == Labels(name);
      if labels == [] {
        EncodeStep(names, |data|, []);
        WriteBytes([0]);
        return Done;
      }
      if exists l <- labels :: |l| > MAX_LABEL_BYTES {
        return TooLongName;
      }
      WriteLabels(labels);
      return Done;
    }

    /** Either the whole question is written, or nothing is. */
    method WriteQuestion(q: Question) returns (r: WriteResult)
      requires Valid()
      modifies this`data, this`names
      ensures r == Outcome(old(data), old(names), Ask(q), maxSize)
      ensures r == Done ==>
                var e := EncodeQuestion(old(names), |old(data)|, q);
                data == old(data) + e.out && names == e.names
      ensures r != Done ==> data == old(data) && names == Undone(old(names), |old(data)|, Ask(q))
      ensures r != Done && OffsetsFit(|old(data)|, Ask(q)) ==> names == old(names)
    {
      var start := |data|;
      r := WriteName(q.name);
      if r != Done {
        NothingToUndo(names, data);
        Rollback(start);
        return;
      }
      WriteShort(q.ty.Code());
      WriteShort(q.rrclass);
      if |data| > maxSize {
        RollbackAfterItem(old(names), old(data), Ask(q));
        Rollback(start);
        return Full;
      }
    }

    method WriteRData(rdata: RData) returns (r: WriteResult)
      modifies this`data, this`names
      ensures r == if RDataTooLong(rdata) then TooLongName else Done
      ensures r == TooLongName ==> old(data) <= data && names == old(names)
      ensures r == Done ==>
                var e := EncodeRData(old(names), |old(data)|, rdata);
                data == old(data) + e.out && names == e.names
    {
      hide EncodeName, NameTooLong, Be16;
      match rdata
      case Addr4(ip, _) => WriteBytes(ip); r := Done;
      case Addr6(ip, _) => WriteBytes(ip); r := Done;
      case Pointer(_, alias) => r := WriteName(alias);
      case Txt(text) => WriteBytes(text); r := Done;
      case Srv(priority, weight, port, host) =>
        WriteShort(priority);
        WriteShort(weight);
        WriteShort(port);
        r := WriteName(host);
    }

    /** TYPE, CLASS, TTL and a placeholder for RDLENGTH. */
    method WriteFields(rec: Record, now: nat)
      modifies this`data
      ensures data == old(data) + RecordFields(rec, now, 0)
    {
      hide RemainingTtl, Be16, Be32;
      WriteShort(rec.rdata.Type().Code());
      if rec.flush {
        WriteShort(rec.rrclass + CLASS_CACHE_FLUSH);
      } else {
        WriteShort(rec.rrclass);
      }
      if now == 0 {
        WriteBytes(Be32(rec.life.ttl));
      } else {
        WriteBytes(Be32(RemainingTtl(rec.life.created, rec.life.ttl, now)));
      }
      WriteShort(0);
    }

    /** Either the whole record is written, or nothing is. */
    method WriteRecord(section: Section, rec: Record, now: nat) returns (r: WriteResult)
      requires Valid()
      modifies this`data, this`names
      ensures r == Outcome(old(data), old(names), Tell(section, rec, now), maxSize)
      ensures r == Done ==>
                var e := EncodeRecord(old(names), |old(data)|, rec, now);
                data == old(data) + e.out && names == e.names
      ensures r != Done ==> data == old(data) && names == Undone(old(names), |old(data)|, Tell(section, rec, now))
      ensures r != Done && OffsetsFit(|old(data)|, Tell(section, rec, now)) ==> names == old(names)
    {
      hide NameTooLong, RDataTooLong, EncodeName, EncodeRData, RecordFields, Patched, Below, OffsetsFit, Grows;
      var start := |data|;
      ghost var item := Tell(section, rec, now);
      var owner := WriteName(rec.GetName());
      if owner != Done {
        return owner;
      }
      ghost var ownerOut := EncodeName(old(names), start, rec.GetName()).out;
      WriteFields(rec, now);
      var recordOffset := |data|;
      ghost var ownerNames := names;
      assert data == old(data) + ownerOut + RecordFields(rec, now, 0);
      var body := WriteRData(rec.rdata);
      if body != Done {
        RollbackAfterOwner(old(names), old(data), rec, ownerNames);
        assert data[..start] == old(data);
        Rollback(start);
        return body;
      }
      ghost var rdata := EncodeRData(ownerNames, recordOffset, rec.rdata);
      PatchFields(old(data) + ownerOut, rec, now, rdata.out);
      SetShortAt(recordOffset - 2, (|data| - recordOffset) % 0x1_0000);
      ghost var e := EncodeRecord(old(names), start, rec, now);
      assert data == old(data) + e.out && names == e.names;
      if |data| > maxSize {
        RollbackAfterItem(old(names), old(data), item);
        assert data[..start] == old(data);
        Rollback(start);
        return Full;
      }
      return Done;
    }

    method WriteHeader(id: u16, flags: u16)
      requires |data| >= MSG_HEADER_LEN
      modifies this`data
      ensures data == Header(id, flags, counts) + old(data)[MSG_HEADER_LEN..]
    {
      hide Be16, Patched;
      ghost var before := data;
      HeaderIsPatches(before, id, flags, counts);
      SetShortAt(0, id);
      SetShortAt(2, flags);
      SetShortAt(4, counts.qd);
      SetShortAt(6, counts.an);
      SetShortAt(8, counts.ns);
      SetShortAt(10, counts.ar);
    }

    method SetTruncated()
      requires |data| >= MSG_HEADER_LEN
      modifies this`data
      ensures data == Patched(old(data), 2, Truncated(U16(old(data)[2], old(data)[3])))
    {
      SetShortAt(2, Truncated(U16(data[2], data[3])));
    }
  }
}
