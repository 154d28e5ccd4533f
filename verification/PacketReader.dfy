// Parsing an incoming packet.
module PacketReader {
  import opened Bytes
  import opened DnsName
  import opened DnsRecords
  import opened Wire
  import opened NameReader

  const RR_HEADER_REMAIN := 10

  /** A value and where it ends. `Stuck` is a read that does not come to an end. */
  datatype Read<+T> = Got(val: T, next: nat) | Malformed | Stuck {
    predicate IsFailure() {
      !Got?
    }

    function PropagateFailure<U>(): Read<U>
      requires !Got?
    {
      if Stuck? then Stuck else Malformed
    }

    function Extract(): (T, nat)
      requires Got?
    {
      (val, next)
    }
  }

  datatype Message = Message(
    id: u16, flags: u16, questions: seq<Question>, answers: seq<Record>, authorities: seq<Record>,
    additionals: seq<Record>)

  function ShortAt(d: bytes, off: nat): u16
    requires off + 2 <= |d|
  {
    U16(d[off], d[off + 1])
  }

  function LongAt(d: bytes, off: nat): u32
    requires off + 4 <= |d|
  {
    U32(d[off], d[off + 1], d[off + 2], d[off + 3])
  }

  lemma {:induction false} NameAdvances(d: bytes, start: nat, off: nat, fuel: nat)
    ensures var r := ReadFrom(d, start, off, fuel); r.Name? ==> off < r.next <= |d|
    decreases fuel
  {
    if fuel > 0 && off < |d| && 0 < d[off] < 0x40 {
      NameAdvances(d, start, off + 1 + d[off], fuel - 1);
    }
  }

  function TakeName(d: bytes, off: nat): (r: Read<bytes>)
    ensures r.Got? ==> off < r.next <= |d|
  {
    NameAdvances(d, off, off, |d| + 1);
    match ReadName(d, off)
    case Name(text, next) => Got(text, next)
    case Bad => Malformed
    case Endless => Stuck
  }

  function TakeQuestion(d: bytes, off: nat): Read<Question> {
    var (name, next) :- TakeName(d, off);
    if next + 4 > |d| then Malformed
    else
      match FromCode(ShortAt(d, next))
      case None => Malformed
      case Some(ty) =>
        var rrclass := ShortAt(d, next + 2);
        Got(Question(name, ty, rrclass % CLASS_CACHE_FLUSH, rrclass >= CLASS_CACHE_FLUSH), next + 4)
  }

  function TakeQuestions(d: bytes, off: nat, count: nat): Read<seq<Question>>
    decreases count
  {
    if count == 0 then Got([], off)
    else
      var (q, next) :- TakeQuestion(d, off);
      var (rest, end) :- TakeQuestions(d, next, count - 1);
      Got([q] + rest, end)
  }

  /** The rdata of `length` bytes at `off`; `None` for a type that the reader skips. */
  function TakeRData(d: bytes, off: nat, ty: Option<RRType>, length: nat, intf: InterfaceId): Read<Option<RData>> {
    if ty == Some(PTR) || ty == Some(CNAME) then
      var (alias, next) :- TakeName(d, off);
      Got(Some(Pointer(ty == Some(CNAME), alias)), next)
    else if ty == Some(TXT) then
      if off + length > |d| then Malformed else Got(Some(Txt(d[off..off + length])), off + length)
    else if ty == Some(SRV) then
      if off + 6 > |d| then Malformed
      else
        var (host, next) :- TakeName(d, off + 6);
        Got(Some(Srv(ShortAt(d, off), ShortAt(d, off + 2), ShortAt(d, off + 4), host)), next)
    else if ty == Some(A) then
      if off + 4 > |d| then Malformed else Got(Some(Addr4(d[off..off + 4], intf)), off + 4)
    else if ty == Some(AAAA) then
      if off + 16 > |d| then Malformed else Got(Some(Addr6(d[off..off + 16], intf)), off + 16)
    else Got(None, off + length)
  }

  /** RFC 6762 section 10.1: a TTL of zero in a response is recorded as one second. */
  function ReadTtl(ttl: u32, isResponse: bool): u32 {
    if ttl == 0 && isResponse then 1 else ttl
  }

  function TakeRecord(d: bytes, off: nat, isResponse: bool, intf: InterfaceId, now: nat): Read<Option<Record>> {
    var (name, next) :- TakeName(d, off);
    if next + RR_HEADER_REMAIN > |d| then Malformed
    else
      var length := ShortAt(d, next + 8);
      var end := next + RR_HEADER_REMAIN + length;
      if end > |d| then Malformed
      else
        var (rdata, stop) :- TakeRData(d, next + RR_HEADER_REMAIN, FromCode(ShortAt(d, next)), length, intf);
        if stop != end then Malformed
        else if rdata.None? then Got(None, end)
        else
          var ttl := ReadTtl(LongAt(d, next + 4), isResponse);
          Got(Some(NewRecord(name, ShortAt(d, next + 2), ttl, rdata.value, now)), end)
  }

  function Listed<T>(x: Option<T>): seq<T> {
    match x
    case None => []
    case Some(v) => [v]
  }

  function TakeRecords(d: bytes, off: nat, count: nat, isResponse: bool, intf: InterfaceId, now: nat): Read<seq<Record>>
    decreases count
  {
    if count == 0 then Got([], off)
    else
      var (rec, next) :- TakeRecord(d, off, isResponse, intf, now);
      var (rest, end) :- TakeRecords(d, next, count - 1, isResponse, intf, now);
      Got(Listed(rec) + rest, end)
  }

  /** The types that are read into records: A, CNAME, PTR, TXT, AAAA and SRV. */
  predicate ReadsType(code: u16) {
    code in {1, 5, 12, 16, 28, 33}
  }

  /** A record of another type is skipped by its length, and what follows it is read as if it were not there. */
  lemma OtherTypesAreSkipped(
    d: bytes, off: nat, name: bytes, next: nat, count: nat, isResponse: bool, intf: InterfaceId, now: nat)
    requires TakeName(d, off) == Got(name, next) && next + 10 <= |d| && !ReadsType(ShortAt(d, next))
    requires next + 10 + ShortAt(d, next + 8) <= |d|
    ensures var end := next + 10 + ShortAt(d, next + 8);
            && TakeRecord(d, off, isResponse, intf, now) == Got(None, end)
            && TakeRecords(d, off, count + 1, isResponse, intf, now)
               == TakeRecords(d, end, count, isResponse, intf, now)
  {
    hide TakeName, ShortAt;
    var end := next + 10 + ShortAt(d, next + 8);
    assert TakeRecord(d, off, isResponse, intf, now) == Got(None, end);
    hide TakeRecord;
    var r := TakeRecords(d, end, count, isResponse, intf, now);
    if r.Got? { assert Listed<Record>(None) + r.val == r.val; }
  }

  /** Whatever the bytes are, a record that is read ends where its length says; addresses have their fixed lengths. */
  lemma RecordEndsAsItSays(d: bytes, off: nat, isResponse: bool, intf: InterfaceId, now: nat)
    requires TakeRecord(d, off, isResponse, intf, now).Got?
    ensures var r := TakeRecord(d, off, isResponse, intf, now);
            var name := TakeName(d, off);
            && name.Got? && name.next + 10 <= |d|
            && r.next == name.next + 10 + ShortAt(d, name.next + 8) <= |d|
            && (r.val.Some? <==> ReadsType(ShortAt(d, name.next)))
            && (r.val.Some? && r.val.value.rdata.Addr4? ==> ShortAt(d, name.next + 8) == 4)
            && (r.val.Some? && r.val.value.rdata.Addr6? ==> ShortAt(d, name.next + 8) == 16)
  {
    hide TakeName, U16;
  }

  /** What a loop returns that has read `done` so far and goes on like `r`. */
  function Prepend<T>(done: seq<T>, r: Read<seq<T>>): Read<seq<T>> {
    var (rest, end) :- r;
    Got(done + rest, end)
  }

  lemma PrependNothing<T>(r: Read<seq<T>>)
    ensures Prepend([], r) == r
  {
    if r.Got? {
      assert [] + r.val == r.val;
    }
  }

  lemma NoQuestions(d: bytes, off: nat)
    ensures TakeQuestions(d, off, 0) == Got([], off)
  {
  }

  lemma NoRecords(d: bytes, off: nat, isResponse: bool, intf: InterfaceId, now: nat)
    ensures TakeRecords(d, off, 0, isResponse, intf, now) == Got([], off)
  {
  }

  lemma PrependTwice<T>(a: seq<T>, b: seq<T>, r: Read<seq<T>>)
    ensures Prepend(a, Prepend(b, r)) == Prepend(a + b, r)
  {
    if r.Got? {
      assert a + (b + r.val) == a + b + r.val;
    }
  }

  lemma QuestionStep(d: bytes, off: nat, count: nat)
    requires count > 0
    ensures TakeQuestions(d, off, count)
         == match TakeQuestion(d, off)
            case Got(q, next) => Prepend([q], TakeQuestions(d, next, count - 1))
            case Malformed => Malformed
            case Stuck => Stuck
  {
    hide TakeQuestion;
  }

  lemma RecordStep(d: bytes, off: nat, count: nat, isResponse: bool, intf: InterfaceId, now: nat)
    requires count > 0
    ensures TakeRecords(d, off, count, isResponse, intf, now)
         == match TakeRecord(d, off, isResponse, intf, now)
            case Got(rec, next) => Prepend(Listed(rec), TakeRecords(d, next, count - 1, isResponse, intf, now))
            case Malformed => Malformed
            case Stuck => Stuck
  {
    hide TakeRecord;
  }

  /** The whole packet: header, questions and the three record sections. */
  function Parse(d: bytes, intf: InterfaceId, now: nat): Read<Message> {
    if |d| < MSG_HEADER_LEN then Malformed
    else
      var flags := ShortAt(d, 2);
      var (questions, o1) :- TakeQuestions(d, MSG_HEADER_LEN, ShortAt(d, 4));
      var (answers, o2) :- TakeRecords(d, o1, ShortAt(d, 6), flags >= 0x8000, intf, now);
      var (authorities, o3) :- TakeRecords(d, o2, ShortAt(d, 8), flags >= 0x8000, intf, now);
      var (additionals, o4) :- TakeRecords(d, o3, ShortAt(d, 10), flags >= 0x8000, intf, now);
      Got(Message(ShortAt(d, 0), flags, questions, answers, authorities, additionals), o4)
  }

  /** What the name loop returns that has read `name`, and has seen a pointer that ends at `end`. */
  function Resume(name: bytes, end: Option<nat>, r: NameRead): NameRead {
    match r
    case Name(text, next) => Name(name + text, if end.Some? then end.value else next)
    case failed => failed
  }

  lemma NameStarts(r: NameRead)
    ensures Resume([], None, r) == r
  {
    if r.Name? {
      assert [] + r.text == r.text;
    }
  }

  /** One turn of the name loop. */
  lemma NameStep(d: bytes, start: nat, off: nat, fuel: nat, name: bytes, end: Option<nat>)
    requires !ReadFrom(d, start, off, fuel).Endless?
    ensures fuel > 0
    ensures off >= |d| ==> ReadFrom(d, start, off, fuel).Bad?
    ensures off < |d| && d[off] == 0 ==>
              Resume(name, end, ReadFrom(d, start, off, fuel)) == Name(name, if end.Some? then end.value else off + 1)
    ensures off < |d| && 0 < d[off] < 0x40 ==>
              var ending := off + 1 + d[off];
              if ending > |d| then ReadFrom(d, start, off, fuel).Bad?
              else (!ReadFrom(d, start, ending, fuel - 1).Endless?
                    && Resume(name, end, ReadFrom(d, start, off, fuel))
                    == Resume(name + d[off + 1..ending] + [DOT], end, ReadFrom(d, start, ending, fuel - 1)))
    ensures off < |d| && 0x40 <= d[off] < 0xC0 ==> ReadFrom(d, start, off, fuel).Bad?
    ensures off < |d| && d[off] >= 0xC0 ==>
              if off + 2 > |d| || U16(d[off] - 0xC0, d[off + 1]) >= start then ReadFrom(d, start, off, fuel).Bad?
              else
                (var pointer := U16(d[off] - 0xC0, d[off + 1]);
                 !ReadFrom(d, start, pointer, fuel - 1).Endless?
                 && Resume(name, end, ReadFrom(d, start, off, fuel))
                 == Resume(name, Some(if end.Some? then end.value else off + 2), ReadFrom(d, start, pointer, fuel - 1)))
    ensures ReadFrom(d, start, off, fuel).Bad? ==> Resume(name, end, ReadFrom(d, start, off, fuel)).Bad?
  {
    if off < |d| && d[off] == 0 {
      assert name + [] == name;
    } else if off < |d| && 0 < d[off] < 0x40 && off + 1 + d[off] <= |d| {
      var ending := off + 1 + d[off];
      var rest := ReadFrom(d, start, ending, fuel - 1);
      if rest.Name? {
        assert name + (d[off + 1..ending] + [DOT] + rest.text) == name + d[off + 1..ending] + [DOT] + rest.text;
      }
    }
  }

  class DnsIncoming {
    const data: bytes
    const intf: InterfaceId
    const now: nat
    var offset: nat
    var id: u16
    var flags: u16
    var numQuestions: u16
    var numAnswers: u16
    var numAuthorities: u16
    var numAdditionals: u16
    var questions: seq<Question>
    var answers: seq<Record>
    var authorities: seq<Record>
    var additionals: seq<Record>

    constructor (data: bytes, intf: InterfaceId, now: nat)
      ensures this.data == data && this.intf == intf && this.now == now && offset == 0
    {
      this.data := data;
      this.intf := intf;
      this.now := now;
      offset := 0;
      id, flags := 0, 0;
      numQuestions, numAnswers, numAuthorities, numAdditionals := 0, 0, 0, 0;
      questions := [];
      answers, authorities, additionals := [], [], [];
    }

    /** The loop stops for every name whose read comes to an end. */
    method ReadName() returns (r: Option<bytes>)
      requires !TakeName(data, offset).Stuck?
      modifies this`offset
      ensures match TakeName(data, old(offset))
              case Got(text, next) => r == Some(text) && offset == next
              case _ => r == None
    {
      hide ReadFrom, Resume;
      var start := offset;
      var off: nat := start;
      var name: bytes := [];
      var atEnd := false;
      var end: nat := 0;
      ghost var fuel: nat := |data| + 1;
      NameStarts(ReadFrom(data, start, start, fuel));
      while true
        invariant offset == start == old(offset)
        invariant NameReader.ReadName(data, start)
               == Resume(name, if atEnd then Some(end) else None, ReadFrom(data, start, off, fuel))
        invariant !ReadFrom(data, start, off, fuel).Endless?
        decreases fuel
      {
        NameStep(data, start, off, fuel, name, if atEnd then Some(end) else None);
        if off >= |data| {
          return None;
        }
        var length := data[off];
        if length == 0 {
          if !atEnd {
            end := off + 1;
          }
          break;
        }
        if length < 0x40 {
          off := off + 1;
          var ending := off + length;
          if ending > |data| {
            return None;
          }
          name := name + data[off..ending] + [DOT];
          off := off + length;
        } else if length >= 0xC0 {
          if off + 2 > |data| {
            return None;
          }
          var pointer := U16(length - 0xC0, data[off + 1]);
          if pointer >= start {
            return None;
          }
          if !atEnd {
            end := off + 2;
            atEnd := true;
          }
          off := pointer;
        } else {
          return None;
        }
        fuel := fuel - 1;
      }
      offset := end;
      return Some(name);
    }

    method ReadU16() returns (r: Option<u16>)
      modifies this`offset
      ensures if old(offset) + 2 > |data| then r == None && offset == old(offset)
              else r == Some(ShortAt(data, old(offset))) && offset == old(offset) + 2
    {
      if offset + 2 > |data| {
        return None;
      }
      r := Some(ShortAt(data, offset));
      offset := offset + 2;
    }

    method ReadVec(length: nat) returns (r: Option<bytes>)
      modifies this`offset
      ensures if old(offset) + length > |data| then r == None && offset == old(offset)
              else r == Some(data[old(offset)..old(offset) + length]) && offset == old(offset) + length
    {
      if |data| < offset + length {
        return None;
      }
      r := Some(data[offset..offset + length]);
      offset := offset + length;
    }

    /** One turn of the loop over questions; `None` where the source returns an error. */
    method ReadQuestion() returns (r: Option<Question>)
      requires !TakeQuestion(data, offset).Stuck?
      modifies this`offset
      ensures match TakeQuestion(data, old(offset))
              case Got(q, next) => r == Some(q) && offset == next
              case _ => r == None
    {
      var name := ReadName();
      if name.None? || offset + 4 > |data| {
        return None;
      }
      var ty := FromCode(ShortAt(data, offset));
      var rrclass := ShortAt(data, offset + 2);
      offset := offset + 4;
      if ty.None? {
        return None;
      }
      return Some(Question(name.value, ty.value, rrclass % CLASS_CACHE_FLUSH, rrclass >= CLASS_CACHE_FLUSH));
    }

    method ReadQuestions() returns (ok: bool)
      requires !TakeQuestions(data, offset, numQuestions).Stuck?
      modifies this`offset, this`questions
      ensures match TakeQuestions(data, old(offset), numQuestions)
              case Got(qs, next) => ok && questions == qs && offset == next
              case _ => !ok
    {
      hide TakeQuestions, TakeQuestion;
      ghost var all := TakeQuestions(data, offset, numQuestions);
      questions := [];
      PrependNothing(all);
      for i := 0 to numQuestions
        invariant all == Prepend(questions, TakeQuestions(data, offset, numQuestions - i))
      {
        QuestionStep(data, offset, numQuestions - i);
        var q := ReadQuestion();
        if q.None? {
          return false;
        }
        PrependTwice(questions, [q.value], TakeQuestions(data, offset, numQuestions - i - 1));
        questions := questions + [q.value];
      }
      NoQuestions(data, offset);
      assert questions + [] == questions;
      return true;
    }

    /** `None` for an error, `Some(None)` for a type that is skipped. */
    method ReadRData(ty: Option<RRType>, length: nat) returns (r: Option<Option<RData>>)
      requires !TakeRData(data, offset, ty, length, intf).Stuck?
      modifies this`offset
      ensures match TakeRData(data, old(offset), ty, length, intf)
              case Got(rdata, next) => r == Some(rdata) && offset == next
              case _ => r == None
    {
      hide TakeName;
      if ty == Some(PTR) || ty == Some(CNAME) {
        var alias := ReadName();
        if alias.None? { return None; }
        return Some(Some(Pointer(ty == Some(CNAME), alias.value)));
      } else if ty == Some(TXT) {
        var text := ReadVec(length);
        if text.None? { return None; }
        return Some(Some(Txt(text.value)));
      } else if ty == Some(SRV) {
        var priority := ReadU16();
        if priority.None? { return None; }
        var weight := ReadU16();
        if weight.None? { return None; }
        var port := ReadU16();
        if port.None? { return None; }
        var host := ReadName();
        if host.None? { return None; }
        return Some(Some(Srv(priority.value, weight.value, port.value, host.value)));
      } else if ty == Some(A) {
        var ip := ReadVec(4);
        if ip.None? { return None; }
        return Some(Some(Addr4(ip.value, intf)));
      } else if ty == Some(AAAA) {
        var ip := ReadVec(16);
        if ip.None? { return None; }
        return Some(Some(Addr6(ip.value, intf)));
      }
      offset := offset + length;
      return Some(None);
    }

    /** One turn of the loop over records; `None` where the source returns an error. */
    method ReadRecord() returns (r: Option<Option<Record>>)
      requires !TakeRecord(data, offset, flags >= 0x8000, intf, now).Stuck?
      modifies this`offset
      ensures match TakeRecord(data, old(offset), flags >= 0x8000, intf, now)
              case Got(rec, next) => r == Some(rec) && offset == next
              case _ => r == None
    {
      hide TakeName, TakeRData;
      var name := ReadName();
      if name.None? || offset + RR_HEADER_REMAIN > |data| {
        return None;
      }
      var ty := ShortAt(data, offset);
      var rrclass := ShortAt(data, offset + 2);
      var ttl := LongAt(data, offset + 4);
      if ttl == 0 && flags >= 0x8000 {
        ttl := 1;
      }
      var length := ShortAt(data, offset + 8);
      offset := offset + RR_HEADER_REMAIN;
      var end := offset + length;
      if end > |data| {
        return None;
      }
      var rdata := ReadRData(FromCode(ty), length);
      if rdata.None? || offset != end {
        return None;
      }
      match rdata.value
      case None => return Some(None);
      case Some(rd) => return Some(Some(NewRecord(name.value, rrclass, ttl, rd, now)));
    }

    method ReadRecords(count: u16) returns (r: Option<seq<Record>>)
      requires !TakeRecords(data, offset, count, flags >= 0x8000, intf, now).Stuck?
      modifies this`offset
      ensures match TakeRecords(data, old(offset), count, flags >= 0x8000, intf, now)
              case Got(recs, next) => r == Some(recs) && offset == next
              case _ => r == None
    {
      hide TakeRecords, TakeRecord;
      ghost var all := TakeRecords(data, offset, count, flags >= 0x8000, intf, now);
      var recs: seq<Record> := [];
      PrependNothing(all);
      for i := 0 to count
        invariant all == Prepend(recs, TakeRecords(data, offset, count - i, flags >= 0x8000, intf, now))
      {
        RecordStep(data, offset, count - i, flags >= 0x8000, intf, now);
        var rec := ReadRecord();
        if rec.None? {
          return None;
        }
        PrependTwice(recs, Listed(rec.value), TakeRecords(data, offset, count - i - 1, flags >= 0x8000, intf, now));
        recs := recs + Listed(rec.value);
      }
      NoRecords(data, offset, flags >= 0x8000, intf, now);
      assert recs + [] == recs;
      return Some(recs);
    }

    method ReadHeader()
      requires |data| >= MSG_HEADER_LEN
      modifies this
      ensures id == ShortAt(data, 0) && flags == ShortAt(data, 2) && numQuestions == ShortAt(data, 4)
      ensures numAnswers == ShortAt(data, 6) && numAuthorities == ShortAt(data, 8)
      ensures numAdditionals == ShortAt(data, 10) && offset == MSG_HEADER_LEN
    {
      id := ShortAt(data, 0);
      flags := ShortAt(data, 2);
      numQuestions := ShortAt(data, 4);
      numAnswers := ShortAt(data, 6);
      numAuthorities := ShortAt(data, 8);
      numAdditionals := ShortAt(data, 10);
      offset := MSG_HEADER_LEN;
    }

    ghost function Value(): Message
      reads this
    {
      Message(id, flags, questions, answers, authorities, additionals)
    }

    /** `DnsIncoming::new`: partial correctness, for packets on which the reader comes to an end. */
    method ReadAll() returns (ok: bool)
      requires !Parse(data, intf, now).Stuck?
      modifies this
      ensures match Parse(data, intf, now)
              case Got(msg, _) => ok && Value() == msg
              case _ => !ok
    {
      hide TakeRecords, TakeQuestions, U16;
      if |data| < MSG_HEADER_LEN {
        return false;
      }
      ReadHeader();
      ok := ReadQuestions();
      if !ok {
        return;
      }
      var recs := ReadRecords(numAnswers);
      if recs.None? {
        return false;
      }
      answers := recs.value;
      recs := ReadRecords(numAuthorities);
      if recs.None? {
        return false;
      }
      authorities := recs.value;
      recs := ReadRecords(numAdditionals);
      if recs.None? {
        return false;
      }
      additionals := recs.value;
      return true;
    }
  }
}
