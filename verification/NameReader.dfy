// Reading a possibly compressed name, and why names written by `Wire` read back.
module NameReader {
  import opened Bytes
  import opened DnsName
  import opened Wire

  /** `Endless` stands for a read that is still running when its step budget is spent. */
  datatype NameRead = Name(text: bytes, next: nat) | Bad | Endless

  /** The reader's loop at `off`, for a name that starts at `start`. */
  function ReadFrom(d: bytes, start: nat, off: nat, fuel: nat): NameRead
    decreases fuel
  {
    if fuel == 0 then Endless
    else if off >= |d| then Bad
    else if d[off] == 0 then Name([], off + 1)
    else if d[off] < 0x40 then
      var ending := off + 1 + d[off];
      if ending > |d| then Bad
      else
        match ReadFrom(d, start, ending, fuel - 1)
        case Name(text, next) => Name(d[off + 1..ending] + [DOT] + text, next)
        case failed => failed
    else if d[off] >= 0xC0 then
      if off + 2 > |d| then Bad
      else
        var pointer := U16(d[off] - 0xC0, d[off + 1]);
        if pointer >= start then Bad
        else
          match ReadFrom(d, start, pointer, fuel - 1)
          case Name(text, _) => Name(text, off + 2)
          case failed => failed
    else Bad
  }

  /** A read visits no offset twice unless it never ends, so this budget cuts no finite read short. */
  function ReadName(d: bytes, start: nat): NameRead {
    ReadFrom(d, start, start, |d| + 1)
  }

  /**
   * A stricter reader that is total: the labels at hand must lie in `[base, limit)`, and a pointer
   * must lead below `base`, to labels that end before `base`.
   */
  function SafeRead(d: bytes, base: nat, off: nat, limit: nat): NameRead
    requires base <= off && limit <= |d|
    decreases base, limit - off
  {
    if off >= limit then Bad
    else if d[off] == 0 then Name([], off + 1)
    else if d[off] < 0x40 then
      var ending := off + 1 + d[off];
      if ending > limit then Bad
      else
        match SafeRead(d, base, ending, limit)
        case Name(text, next) => Name(d[off + 1..ending] + [DOT] + text, next)
        case failed => failed
    else if d[off] >= 0xC0 && off + 2 <= limit then
      var pointer := U16(d[off] - 0xC0, d[off + 1]);
      if MSG_HEADER_LEN <= pointer < base then
        match SafeRead(d, pointer, pointer, base)
        case Name(text, _) => Name(text, off + 2)
        case failed => failed
      else Bad
    else Bad
  }

  /** More budget does not change a finished read. */
  lemma {:induction false} FuelIrrelevant(d: bytes, start: nat, off: nat, fuel: nat, fuel': nat)
    requires !ReadFrom(d, start, off, fuel).Endless? && fuel <= fuel'
    ensures ReadFrom(d, start, off, fuel') == ReadFrom(d, start, off, fuel)
    decreases fuel
  {
    if off < |d| && 0 < d[off] < 0x40 && off + 1 + d[off] <= |d| {
      FuelIrrelevant(d, start, off + 1 + d[off], fuel - 1, fuel' - 1);
    } else if off + 2 <= |d| && d[off] >= 0xC0 && U16(d[off] - 0xC0, d[off + 1]) < start {
      FuelIrrelevant(d, start, U16(d[off] - 0xC0, d[off + 1]), fuel - 1, fuel' - 1);
    }
  }

  /**
   * The step budget of `ReadName` is exact. A reader that ends visits every offset at most once: an
   * offset in `seen` was left behind with more than `fuel` steps to go.
   */
  lemma {:induction false} VisitsAreDistinct(d: bytes, start: nat, off: nat, fuel: nat, seen: set<nat>)
    requires !ReadFrom(d, start, off, fuel).Endless?
    requires fuel > 1 ==> ReadFrom(d, start, off, fuel - 1).Endless?
    requires forall o <- seen :: o < |d| && ReadFrom(d, start, o, fuel).Endless?
    ensures fuel + |seen| <= |d| + 1
    decreases fuel
  {
    if fuel == 1 {
      SubsetSize(seen, |d|);
    } else {
      var next := if d[off] < 0x40 then off + 1 + d[off] else U16(d[off] - 0xC0, d[off + 1]);
      forall o <- seen + {off}
        ensures o < |d| && ReadFrom(d, start, o, fuel - 1).Endless?
      {
        if o != off && !ReadFrom(d, start, o, fuel - 1).Endless? {
          FuelIrrelevant(d, start, o, fuel - 1, fuel);
        }
      }
      VisitsAreDistinct(d, start, next, fuel - 1, seen + {off});
    }
  }

  lemma {:induction false} SubsetSize(s: set<nat>, n: nat)
    requires forall x <- s :: x < n
    ensures |s| <= n
  {
    if n > 0 {
      SubsetSize(s - {n - 1}, n - 1);
    } else {
      assert s == {};
    }
  }

  /** A read that ends within any number of steps ends within the budget, with the same result. */
  lemma {:induction false} BudgetIsEnough(d: bytes, start: nat, fuel: nat)
    requires !ReadFrom(d, start, start, fuel).Endless?
    ensures ReadName(d, start) == ReadFrom(d, start, start, fuel)
    decreases fuel
  {
    if fuel > 1 && !ReadFrom(d, start, start, fuel - 1).Endless? {
      BudgetIsEnough(d, start, fuel - 1);
      FuelIrrelevant(d, start, start, fuel - 1, fuel);
    } else {
      VisitsAreDistinct(d, start, start, fuel, {});
      FuelIrrelevant(d, start, start, fuel, |d| + 1);
    }
  }

  /** The strict reader and the real one agree, and the real one needs at most one step a byte. */
  lemma {:induction false} SafeReadAgrees(d: bytes, base: nat, off: nat, limit: nat, start: nat, fuel: nat)
    requires base <= off && limit <= |d| && base <= start
    requires SafeRead(d, base, off, limit).Name?
    requires fuel >= limit - off + base
    ensures ReadFrom(d, start, off, fuel) == SafeRead(d, base, off, limit)
    decreases base, limit - off
  {
    if d[off] == 0 {
    } else if d[off] < 0x40 {
      SafeReadAgrees(d, base, off + 1 + d[off], limit, start, fuel - 1);
    } else {
      var pointer := U16(d[off] - 0xC0, d[off + 1]);
      SafeReadAgrees(d, pointer, pointer, base, start, fuel - 1);
    }
  }

  lemma SafeNameIsRead(d: bytes, start: nat, limit: nat)
    requires start <= limit <= |d| && SafeRead(d, start, start, limit).Name?
    ensures ReadName(d, start) == SafeRead(d, start, start, limit)
  {
    SafeReadAgrees(d, start, start, limit, start, |d| + 1);
  }

  /** A strict read survives new bytes at the end, a wider limit, a higher base and a new header. */
  lemma {:induction false} SafeReadStable(
    d: bytes, base: nat, off: nat, limit: nat, d': bytes, base': nat, limit': nat)
    requires MSG_HEADER_LEN <= base <= base' <= off && limit <= |d| && limit <= limit' <= |d'|
    requires MSG_HEADER_LEN <= |d| <= |d'| && d'[MSG_HEADER_LEN..|d|] == d[MSG_HEADER_LEN..]
    requires SafeRead(d, base, off, limit).Name?
    ensures SafeRead(d', base', off, limit') == SafeRead(d, base, off, limit)
    decreases base, limit - off
  {
    assert forall i :: MSG_HEADER_LEN <= i < |d| ==>
                         d'[i] == d'[MSG_HEADER_LEN..|d|][i - MSG_HEADER_LEN]
                               == d[MSG_HEADER_LEN..][i - MSG_HEADER_LEN] == d[i];
    if d[off] == 0 {
    } else if d[off] < 0x40 {
      var ending := off + 1 + d[off];
      SafeReadStable(d, base, ending, limit, d', base', limit');
      assert d[off + 1..ending] == d'[off + 1..ending];
    } else {
      var pointer := U16(d[off] - 0xC0, d[off + 1]);
      SafeReadStable(d, pointer, pointer, base, d', pointer, base');
    }
  }

  /** Reading at `off` gives the text of `key`, without leaving the labels written so far. */
  ghost predicate EntryReads(d: bytes, key: bytes, off: nat) {
    && MSG_HEADER_LEN <= off < |d|
    && var r := SafeRead(d, off, off, |d|);
       r.Name? && r.text == key + [DOT]
  }

  /** The compression invariant: every table entry fits in a pointer and reads back as its key. */
  ghost predicate TableReads(d: bytes, names: NameTable) {
    forall k <- names :: names[k] < POINTER_LIMIT && EntryReads(d, k, names[k])
  }

  lemma TableSurvives(d: bytes, names: NameTable, d': bytes)
    requires TableReads(d, names) && MSG_HEADER_LEN <= |d| <= |d'|
    requires d'[MSG_HEADER_LEN..|d|] == d[MSG_HEADER_LEN..]
    ensures TableReads(d', names)
  {
    forall k <- names
      ensures names[k] < POINTER_LIMIT && EntryReads(d', k, names[k])
    {
      assert EntryReads(d, k, names[k]);
      SafeReadStable(d, names[k], names[k], |d|, d', names[k], |d'|);
    }
  }

  /** `names` is `table` and, in addition, only keys longer than `length`. */
  ghost predicate AddsOnlyLonger(table: NameTable, names: NameTable, length: nat) {
    && (forall k <- table :: k in names && names[k] == table[k])
    && (forall k <- names :: k in table || |k| > length)
  }

  function KeyLength(labels: seq<bytes>): nat {
    if labels == [] then 0 else |Join(labels)|
  }

  ghost predicate NewEntriesRead(before: NameTable, after: NameTable, d: bytes, from: nat) {
    forall k <- after :: (k in before && after[k] == before[k]) || (from <= after[k] && EntryReads(d, k, after[k]))
  }

  lemma {:induction false} JoinShrinks(labels: seq<bytes>)
    requires |labels| > 1
    ensures |Join(labels[1..])| < |Join(labels)|
  {
  }

  lemma PointerIsLossless(off: nat)
    requires off < POINTER_LIMIT
    ensures var p := PointerBytes(off); |p| == 2 && p[0] >= 0xC0 && U16(p[0] - 0xC0, p[1]) == off
  {
  }

  lemma EntryOf(d: bytes, table: NameTable, key: bytes)
    requires TableReads(d, table) && key in table
    ensures table[key] < POINTER_LIMIT && EntryReads(d, key, table[key])
  {
  }

  /** The pointer to a table entry reads as the entry. */
  lemma PointerReads(d: bytes, table: NameTable, start: nat, key: bytes)
    requires MSG_HEADER_LEN <= start <= |d| && TableReads(d[..start], table) && key in table
    ensures var d' := d + PointerBytes(table[key]);
            SafeRead(d', start, |d|, |d'|) == Name(key + [DOT], |d'|)
  {
    var off := table[key];
    var p := PointerBytes(off);
    PointerIsLossless(off);
    hide PointerBytes, U16, TableReads;
    var d' := d + p;
    EntryOf(d[..start], table, key);
    assert d'[MSG_HEADER_LEN..start] == d[..start][MSG_HEADER_LEN..];
    SafeReadStable(d[..start], off, off, start, d', off, start);
    assert d'[|d|] == p[0] && d'[|d| + 1] == p[1];
  }

  /** A label in front of a readable rest reads as the label, a dot and the rest. */
  lemma LabelReads(d: bytes, start: nat, piece: bytes, rest: bytes, text: bytes)
    requires MSG_HEADER_LEN <= start <= |d| && 0 < |piece| <= MAX_LABEL_BYTES
    requires var d1 := d + Piece(piece); SafeRead(d1 + rest, start, |d1|, |d1 + rest|) == Name(text, |d1 + rest|)
    ensures var d' := d + (Piece(piece) + rest);
            && SafeRead(d', start, |d|, |d'|) == Name(piece + [DOT] + text, |d'|)
            && SafeRead(d', |d|, |d|, |d'|) == Name(piece + [DOT] + text, |d'|)
  {
    var d1 := d + Piece(piece);
    var d' := d + (Piece(piece) + rest);
    assert d' == d1 + rest;
    assert d'[|d| + 1..|d1|] == piece;
    SafeReadStable(d', start, |d|, |d'|, d', |d|, |d'|);
  }

  /** Writing `e` at the end of `d` gives `labels`, for a name that starts at `start`. */
  ghost predicate ReadsBack(d: bytes, names: NameTable, start: nat, labels: seq<bytes>, e: Enc)
    requires start <= |d|
  {
    && SafeRead(d + e.out, start, |d|, |d + e.out|) == Name(Text(labels), |d + e.out|)
    && NewEntriesRead(names, e.names, d + e.out, |d|)
  }

  lemma EndReads(d: bytes, names: NameTable, start: nat)
    requires start <= |d|
    ensures ReadsBack(d, names, start, [], Enc([0], names))
  {
  }

  lemma LabelsArePointer(d: bytes, names: NameTable, start: nat, labels: seq<bytes>)
    requires start <= |d| && labels != [] && Join(labels) in names
    requires var d' := d + PointerBytes(names[Join(labels)]);
             SafeRead(d', start, |d|, |d'|) == Name(Text(labels), |d'|)
    ensures ReadsBack(d, names, start, labels, EncodeLabels(names, |d|, labels))
  {
  }

  /** One step of the induction below: a new label in front of labels that already read back. */
  lemma FirstLabelReads(d: bytes, names: NameTable, start: nat, labels: seq<bytes>, rest: Enc)
    requires MSG_HEADER_LEN <= start <= |d| < 0x1_0000 && labels != [] && 0 < |labels[0]| <= MAX_LABEL_BYTES
    requires Join(labels) !in names
    requires ReadsBack(d + Piece(labels[0]), names[Join(labels) := |d|], start, labels[1..], rest)
    ensures ReadsBack(d, names, start, labels, Enc(Piece(labels[0]) + rest.out, rest.names))
  {
    hide SafeRead, Join, Piece;
    var d' := d + (Piece(labels[0]) + rest.out);
    assert d' == d + Piece(labels[0]) + rest.out;
    LabelReads(d, start, labels[0], rest.out, Text(labels[1..]));
    JoinIsText(labels);
    assert EntryReads(d', Join(labels), |d|);
  }

  /**
   * Labels appended at the end of `d`, for a name that starts at `start`, read back as their text;
   * and so does every table entry that writing them adds.
   */
  lemma {:induction false} LabelsRead(d: bytes, table: NameTable, names: NameTable, start: nat, labels: seq<bytes>)
    requires MSG_HEADER_LEN <= start <= |d| && TableReads(d[..start], table)
    requires AddsOnlyLonger(table, names, KeyLength(labels))
    requires forall l <- labels :: 0 < |l| <= MAX_LABEL_BYTES
    requires |d| + PlainLength(labels) <= 0x1_0000
    ensures ReadsBack(d, names, start, labels, EncodeLabels(names, |d|, labels))
    decreases labels
  {
    hide ReadsBack, TableReads, EncodeLabels, Piece;
    if labels != [] { assert labels[0] in labels; }
    EncodeStep(names, |d|, labels);
    if labels == [] {
      EndReads(d, names, start);
    } else if Join(labels) in names {
      PointerReads(d, table, start, Join(labels));
      JoinIsText(labels);
      LabelsArePointer(d, names, start, labels);
    } else {
      var d1 := d + Piece(labels[0]);
      assert labels[0] in labels;
      assert d1[..start] == d[..start];
      if |labels| > 1 { JoinShrinks(labels); }
      LabelsRead(d1, table, names[Join(labels) := |d|], start, labels[1..]);
      FirstLabelReads(d, names, start, labels,
                      EncodeLabels(names[Join(labels) := |d|], |d1|, labels[1..]));
    }
  }

  /**
   * The round trip of one name: written at the end of a packet whose table is sound, it reads back
   * as its dotted text, and the table stays sound if the packet stays within reach of a pointer.
   */
  lemma NameReadsBack(d: bytes, names: NameTable, name: bytes)
    requires MSG_HEADER_LEN <= |d| && TableReads(d, names) && !NameTooLong(name)
    requires |d| + PlainLength(Labels(name)) <= 0x1_0000
    ensures var e := EncodeName(names, |d|, name);
            && SafeRead(d + e.out, |d|, |d|, |d + e.out|) == Name(Dotted(name), |d + e.out|)
            && (|d + e.out| <= POINTER_LIMIT ==> TableReads(d + e.out, e.names))
  {
    hide SafeRead, TableReads, EncodeLabels, NewEntriesRead;
    var labels := Labels(name);
    var e := EncodeName(names, |d|, name);
    LabelsNotEmpty(StripDot(name), []);
    assert d[..|d|] == d;
    LabelsRead(d, names, names, |d|, labels);
    assert ReadsBack(d, names, |d|, labels, e);
    TableSurvives(d, names, d + e.out);
    if |d + e.out| <= POINTER_LIMIT { NewTableReads(d, names, e.names, d + e.out); }
  }

  lemma NewTableReads(d: bytes, names: NameTable, names': NameTable, d': bytes)
    requires TableReads(d', names) && NewEntriesRead(names, names', d', |d|) && |d'| <= POINTER_LIMIT
    ensures TableReads(d', names')
  {
    hide SafeRead;
  }
}
