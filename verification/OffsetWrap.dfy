// Where the 16-bit offsets of the compression table stop being lossless.
module OffsetWrap {
  import opened Bytes
  import opened DnsName
  import opened DnsRecords
  import opened Wire
  import opened PacketWriter

  /** Writing labels never changes or drops a table entry, whatever wraps. */
  lemma {:induction false} LabelsKeepEntries(names: NameTable, pos: nat, labels: seq<bytes>)
    ensures forall k <- names :: k in EncodeLabels(names, pos, labels).names
                                 && EncodeLabels(names, pos, labels).names[k] == names[k]
    decreases labels
  {
    if labels != [] && Join(labels) !in names {
      LabelsKeepEntries(names[Join(labels) := pos % 0x1_0000], pos + |Piece(labels[0])|, labels[1..]);
    }
  }

  /** How far behind the start of a name its label `i` starts when nothing is compressed. */
  function LabelStart(labels: seq<bytes>, i: nat): nat
    requires i <= |labels|
  {
    if i == 0 then 0 else |Piece(labels[0])| + LabelStart(labels[1..], i - 1)
  }

  /** How many labels are written before the first suffix that the table knows already. */
  function FreshCount(known: set<bytes>, labels: seq<bytes>): (n: nat)
    ensures n <= |labels|
  {
    if labels == [] || Join(labels) in known then 0 else 1 + FreshCount(known, labels[1..])
  }

  /** The keys that the table gains from them. */
  function FreshKeys(known: set<bytes>, labels: seq<bytes>): set<bytes> {
    if labels == [] || Join(labels) in known then {} else {Join(labels)} + FreshKeys(known, labels[1..])
  }

  /** How many bytes the name takes. */
  function WrittenLength(known: set<bytes>, labels: seq<bytes>): nat {
    LabelStart(labels, FreshCount(known, labels)) + if FreshCount(known, labels) == |labels| then 1 else 2
  }

  /** The offset of such a label, cut to 16 bits, falls in front of `start`. */
  predicate Wraps(known: set<bytes>, pos: nat, labels: seq<bytes>, start: nat) {
    exists i :: 0 <= i < FreshCount(known, labels) && (pos + LabelStart(labels, i)) % 0x1_0000 < start
  }

  lemma {:induction false} LongerKeysDoNotCount(known: set<bytes>, key: bytes, labels: seq<bytes>)
    requires labels != [] ==> |key| > |Join(labels)|
    ensures FreshCount(known + {key}, labels) == FreshCount(known, labels)
    ensures FreshKeys(known + {key}, labels) == FreshKeys(known, labels)
  {
    if labels != [] && Join(labels) !in known {
      LongerKeysDoNotCount(known, key, labels[1..]);
    }
  }

  lemma {:induction false} FreshKeyAt(known: set<bytes>, labels: seq<bytes>, k: bytes)
    ensures k in FreshKeys(known, labels) <==> exists i :: 0 <= i < FreshCount(known, labels) && k == Join(labels[i..])
    ensures k in FreshKeys(known, labels) ==> k !in known
  {
    if labels != [] && Join(labels) !in known {
      hide Join;
      FreshKeyAt(known, labels[1..], k);
      assert labels[0..] == labels;
      if i :| 0 <= i < FreshCount(known, labels) && k == Join(labels[i..]) {
        if i > 0 { assert labels[i..] == labels[1..][i - 1..]; }
      }
      if i :| 0 <= i < FreshCount(known, labels[1..]) && k == Join(labels[1..][i..]) {
        assert labels[i + 1..] == labels[1..][i..];
      }
    }
  }

  /** Which keys the table gains from a name, and how long the name is. */
  lemma {:induction false} LabelsGain(names: NameTable, pos: nat, labels: seq<bytes>)
    ensures var e := EncodeLabels(names, pos, labels);
            && e.names.Keys == names.Keys + FreshKeys(names.Keys, labels)
            && |e.out| == WrittenLength(names.Keys, labels)
    decreases labels
  {
    hide Piece, PointerBytes, EncodeLabels, Join;
    EncodeStep(names, pos, labels);
    if labels != [] && Join(labels) !in names {
      var names1 := names[Join(labels) := pos % 0x1_0000];
      assert names1.Keys == names.Keys + {Join(labels)};
      JoinIsLonger(labels);
      LongerKeysDoNotCount(names.Keys, Join(labels), labels[1..]);
      LabelsGain(names1, pos + |Piece(labels[0])|, labels[1..]);
    } else if labels != [] {
      TwoBytes(names[Join(labels)]);
    }
  }

  lemma JoinIsLonger(labels: seq<bytes>)
    requires labels != []
    ensures labels[1..] != [] ==> |Join(labels)| > |Join(labels[1..])|
  {
  }

  /** At which offset each of them starts. */
  lemma {:induction false} LabelsOffsets(names: NameTable, pos: nat, labels: seq<bytes>, i: nat)
    requires i < FreshCount(names.Keys, labels)
    ensures var e := EncodeLabels(names, pos, labels).names;
            && Join(labels[i..]) in e && Join(labels[i..]) !in names
            && e[Join(labels[i..])] == (pos + LabelStart(labels, i)) % 0x1_0000
    decreases labels
  {
    hide Piece, EncodeLabels, Join;
    EncodeStep(names, pos, labels);
    var names1, pos1 := names[Join(labels) := pos % 0x1_0000], pos + |Piece(labels[0])|;
    if i == 0 {
      assert labels[0..] == labels;
      LabelsKeepEntries(names1, pos1, labels[1..]);
    } else {
      assert names1.Keys == names.Keys + {Join(labels)};
      JoinIsLonger(labels);
      LongerKeysDoNotCount(names.Keys, Join(labels), labels[1..]);
      LabelsOffsets(names1, pos1, labels[1..], i - 1);
      assert labels[i..] == labels[1..][i - 1..];
    }
  }

  lemma TwoBytes(offset: u16)
    ensures |PointerBytes(offset)| == 2
  {
  }

  /** `late` are the new entries that a rollback to `start` keeps. */
  lemma NameRestoredIff(names: NameTable, pos: nat, labels: seq<bytes>, start: nat)
    ensures var e := EncodeLabels(names, pos, labels).names;
            (exists k <- e :: k !in names && e[k] < start) <==> Wraps(names.Keys, pos, labels, start)
  {
    hide EncodeLabels, LabelStart, FreshCount, FreshKeys, Join;
    LabelsGain(names, pos, labels);
    LabelsKeepEntries(names, pos, labels);
    var e := EncodeLabels(names, pos, labels).names;
    forall i | 0 <= i < FreshCount(names.Keys, labels)
      ensures Join(labels[i..]) in e && Join(labels[i..]) !in names
      ensures e[Join(labels[i..])] == (pos + LabelStart(labels, i)) % 0x1_0000
    {
      LabelsOffsets(names, pos, labels, i);
    }
    if k :| k in e && k !in names && e[k] < start {
      FreshKeyAt(names.Keys, labels, k);
    }
  }

  /** The name in the rdata, and how far behind the start of the rdata it is. */
  function NameIn(rdata: RData): Option<(bytes, nat)> {
    match rdata
    case Pointer(_, alias) => Some((alias, 0))
    case Srv(_, _, _, host) => Some((host, 6))
    case _ => None
  }

  /** Of an item to be written at `pos`, some offset wraps to in front of it, before the write fails. */
  predicate OffsetWraps(known: set<bytes>, pos: nat, item: Item) {
    match item
    case Ask(q) => !NameTooLong(q.name) && Wraps(known, pos, Labels(q.name), pos)
    case Tell(_, rec, _) =>
      var owner := Labels(rec.GetName());
      && !NameTooLong(rec.GetName())
      && (|| Wraps(known, pos, owner, pos)
          || (match NameIn(rec.rdata)
              case None => false
              case Some((name, ahead)) =>
                && !NameTooLong(name)
                && Wraps(known + FreshKeys(known, owner), pos + WrittenLength(known, owner) + 10 + ahead,
                         Labels(name), pos)))
  }

  lemma BelowIff(names: NameTable, names': NameTable, start: nat)
    requires forall k <- names :: names[k] < start && k in names' && names'[k] == names[k]
    ensures Below(names', start) == names <==> !exists k <- names' :: k !in names && names'[k] < start
  {
    if k :| k in names' && k !in names && names'[k] < start {
      assert k in Below(names', start);
    }
  }

  /**
   * A failed write leaves the table as it was exactly if no label that it writes, before the first
   * suffix that the table knows, starts at an offset that wraps to in front of the item.
   */
  lemma RollbackRestoresIff(names: NameTable, data: bytes, item: Item)
    requires forall k <- names :: names[k] < |data|
    ensures Undone(names, |data|, item) == names <==> !OffsetWraps(names.Keys, |data|, item)
  {
    hide EncodeLabels, Wraps, NameTooLong, FreshKeys, WrittenLength, Labels, RecordFields, Below;
    var pos := |data|;
    match item
    case Ask(q) => OwnerRestoredIff(names, pos, q.name);
    case Tell(_, rec, time) =>
      var owner := EncodeName(names, pos, rec.GetName());
      OwnerRestoredIff(names, pos, rec.GetName());
      LabelsGain(names, pos, Labels(rec.GetName()));
      match NameIn(rec.rdata)
      case None =>
      case Some((name, ahead)) =>
        var at := pos + |owner.out| + 10 + ahead;
        BothRestoredIff(names, pos, rec.GetName(), at, name);
        assert EncodeRecord(names, pos, rec, time).names == EncodeName(owner.names, at, name).names;
  }

  lemma OwnerRestoredIff(names: NameTable, pos: nat, name: bytes)
    requires forall k <- names :: names[k] < pos
    ensures Below(EncodeName(names, pos, name).names, pos) == names <==> !Wraps(names.Keys, pos, Labels(name), pos)
  {
    hide EncodeLabels, Wraps, Below;
    LabelsKeepEntries(names, pos, Labels(name));
    NameRestoredIff(names, pos, Labels(name), pos);
    BelowIff(names, EncodeName(names, pos, name).names, pos);
  }

  lemma BothRestoredIff(names: NameTable, pos: nat, owner: bytes, at: nat, name: bytes)
    requires forall k <- names :: names[k] < pos
    ensures var names1 := EncodeName(names, pos, owner).names;
            Below(EncodeName(names1, at, name).names, pos) == names <==>
            !Wraps(names.Keys, pos, Labels(owner), pos) && !Wraps(names1.Keys, at, Labels(name), pos)
  {
    hide EncodeLabels, Wraps, Below;
    var names1 := EncodeName(names, pos, owner).names;
    var names2 := EncodeName(names1, at, name).names;
    LabelsKeepEntries(names, pos, Labels(owner));
    LabelsKeepEntries(names1, at, Labels(name));
    NameRestoredIff(names, pos, Labels(owner), pos);
    NameRestoredIff(names1, at, Labels(name), pos);
    BelowIff(names, names2, pos);
    if k :| k in names1 && k !in names && names1[k] < pos {
      assert k in names2 && names2[k] < pos;
    }
  }

  // ----- A service type for which it does not -----

  const A: byte := 97
  const TCP: bytes := [95, 116, 99, 112]
  const LOCAL: bytes := [108, 111, 99, 97, 108]

  /** `._tcp.local.`, which every service type ends with. */
  const DOMAIN: bytes := [46, 95, 116, 99, 112, 46, 108, 111, 99, 97, 108, 46]

  function Letters(n: nat): (r: bytes)
    ensures |r| == n && forall b <- r :: b == A
  {
    seq(n, i => A)
  }

  function FullLabels(n: nat): (r: seq<bytes>)
    ensures |r| == n && forall l <- r :: l == Letters(MAX_LABEL_BYTES)
  {
    seq(n, i => Letters(MAX_LABEL_BYTES))
  }

  lemma {:induction false} FullLabelsStart(labels: seq<bytes>, i: nat)
    requires i <= |labels| && forall k :: 0 <= k < i ==> |labels[k]| == MAX_LABEL_BYTES
    ensures LabelStart(labels, i) == 64 * i
  {
    if i > 0 {
      FullLabelsStart(labels[1..], i - 1);
    }
  }

  lemma {:induction false} StartsGoUp(labels: seq<bytes>, i: nat, j: nat)
    requires i <= j <= |labels|
    ensures LabelStart(labels, i) <= LabelStart(labels, j)
  {
    if i > 0 {
      StartsGoUp(labels[1..], i - 1, j - 1);
    }
  }

  /** Labels of which the last but one starts 65536 bytes behind the start of the packet. */
  function LongLabels(): seq<bytes> {
    [Letters(51)] + FullLabels(1023) + [TCP, LOCAL]
  }

  lemma LongLabelsFacts()
    ensures var labels := LongLabels();
            && |labels| == 1026 && (forall l <- labels :: Plain(l) && |l| <= MAX_LABEL_BYTES)
            && MSG_HEADER_LEN + LabelStart(labels, 1024) == 0x1_0000
  {
    hide LabelStart, Plain;
    var labels := LongLabels();
    var rest: seq<bytes> := FullLabels(1023) + [TCP, LOCAL];
    assert labels == [Letters(51)] + rest;
    FullLabelsStart(rest, 1023);
    StartBehind(Letters(51), rest, 1023);
    PlainLabels(51);
    PlainLabels(MAX_LABEL_BYTES);
  }

  lemma StartBehind(first: bytes, rest: seq<bytes>, i: nat)
    requires i <= |rest|
    ensures LabelStart([first] + rest, i + 1) == 1 + |first| + LabelStart(rest, i)
  {
    assert ([first] + rest)[1..] == rest;
  }

  lemma PlainLabels(n: nat)
    requires n > 0
    ensures Plain(Letters(n)) && Plain(TCP) && Plain(LOCAL)
  {
  }

  lemma {:induction false} AllFresh(labels: seq<bytes>)
    ensures FreshCount({}, labels) == |labels|
  {
    if labels != [] {
      AllFresh(labels[1..]);
    }
  }

  lemma {:induction false} JoinConcat(a: seq<bytes>, b: seq<bytes>)
    requires a != [] && b != []
    ensures Join(a + b) == Join(a) + [DOT] + Join(b)
  {
    if |a| == 1 {
      assert a + b == [a[0]] + b && (a + b)[1..] == b;
    } else {
      assert (a + b)[1..] == a[1..] + b;
      JoinConcat(a[1..], b);
    }
  }

  /** The name of the service type, and the text in front of its domain. */
  function LongType(): bytes {
    Join(LongLabels()) + [DOT]
  }

  lemma DomainIs()
    ensures [DOT] + Join([TCP, LOCAL]) + [DOT] == DOMAIN
  {
    assert [TCP, LOCAL][1..] == [LOCAL];
    assert Join([TCP, LOCAL]) == TCP + [DOT] + LOCAL;
  }

  lemma LongTypeEnds() returns (front: bytes)
    ensures LongType() == front + DOMAIN
  {
    hide Letters, FullLabels, Join;
    var first: seq<bytes> := [Letters(51)] + FullLabels(1023);
    front := Join(first);
    JoinConcat(first, [TCP, LOCAL]);
    DomainIs();
    Regroup(front, Join([TCP, LOCAL]));
  }

  lemma Regroup(a: bytes, b: bytes)
    ensures a + [DOT] + b + [DOT] == a + ([DOT] + b + [DOT])
  {
  }

  lemma LongTypeLabels()
    ensures Labels(LongType()) == LongLabels()
  {
    hide LongLabels, Plain, Scan, Join;
    LongLabelsFacts();
    ScanJoin(LongLabels());
    assert StripDot(LongType()) == Join(LongLabels());
  }

  /**
   * So the table can outlive its packet contents: a browse for a service type of some 64 kilobytes
   * fails, and leaves an entry in a packet that is otherwise still empty.
   */
  lemma LongTypeLeavesEntry()
    ensures var item := Ask(Question(LongType(), PTR, 1, false));
            && (exists front :: LongType() == front + DOMAIN)
            && (forall max: nat :: max <= MAX_PKT_ABSOLUTE_IPV6 ==> Outcome(BLANK_HEADER, map[], item, max) == Full)
            && Undone(map[], MSG_HEADER_LEN, item) != map[]
  {
    hide LongLabels, LongType, Undone, Outcome, OffsetWraps, TooLong;
    var item := Ask(Question(LongType(), PTR, 1, false));
    var front := LongTypeEnds();
    LongTypeWraps();
    var none: NameTable := map[];
    assert none.Keys == {};
    RollbackRestoresIff(none, BLANK_HEADER, item);
    assert |BLANK_HEADER| == MSG_HEADER_LEN;
  }

  lemma LongTypeWraps()
    ensures var item := Ask(Question(LongType(), PTR, 1, false));
            && OffsetWraps({}, MSG_HEADER_LEN, item)
            && forall max: nat :: max <= MAX_PKT_ABSOLUTE_IPV6 ==> Outcome(BLANK_HEADER, map[], item, max) == Full
  {
    hide LabelStart, FreshCount, LongLabels, LongType, EncodeLabels, Labels, Plain, Outcome;
    var labels := LongLabels();
    LongTypeLabels();
    LongLabelsFacts();
    AllFresh(labels);
    var none: NameTable := map[];
    assert none.Keys == {};
    LabelsGain(none, MSG_HEADER_LEN, labels);
    StartsGoUp(labels, 1024, 1026);
    assert (MSG_HEADER_LEN + LabelStart(labels, 1024)) % 0x1_0000 < MSG_HEADER_LEN;
    TooBigIsFull(LongType());
  }

  lemma TooBigIsFull(name: bytes)
    requires !NameTooLong(name) && |EncodeName(map[], MSG_HEADER_LEN, name).out| > 0x8000
    ensures var item := Ask(Question(name, PTR, 1, false));
            forall max: nat :: max <= MAX_PKT_ABSOLUTE_IPV6 ==> Outcome(BLANK_HEADER, map[], item, max) == Full
  {
    hide EncodeName, NameTooLong, Be16;
    assert |BLANK_HEADER| == MSG_HEADER_LEN;
  }
}
