// Where a new packet begins, and when it need not have begun.
module NeedlessSplit {
  import opened Bytes
  import opened DnsName
  import opened DnsRecords
  import opened Wire
  import opened NameReader
  import opened PacketWriter
  import opened Encoding
  import opened Packing
  import opened PacketBuilder

  /** The number of the first item from `i` on that is not dropped, or of the end. */
  function NextKept(input: seq<Item>, i: nat, lim: Limits): (j: nat)
    requires i <= |input|
    ensures i <= j <= |input|
    decreases |input| - i
  {
    if i == |input| || Encodable(input[i], lim) then i else NextKept(input, i + 1, lim)
  }

  lemma {:induction false} NextKeptIs(input: seq<Item>, i: nat, lim: Limits)
    requires i <= |input|
    ensures var j := NextKept(input, i, lim);
            && (j < |input| ==> Encodable(input[j], lim))
            && (forall m :: i <= m < j ==> !Encodable(input[m], lim))
    decreases |input| - i
  {
    hide Encodable;
    if i < |input| && !Encodable(input[i], lim) {
      NextKeptIs(input, i + 1, lim);
    }
  }

  lemma {:induction false} KeptFrom(input: seq<Item>, i: nat, end: nat, lim: Limits)
    requires i <= end <= |input|
    ensures var j := NextKept(input, i, lim);
            if j < end then Kept(input[i..end], lim) != [] && Kept(input[i..end], lim)[0] == input[j]
            else Kept(input[i..end], lim) == []
    decreases end
  {
    hide Encodable, Kept, NextKept;
    NextKeptIs(input, i, lim);
    if i == end {
      EmptyKept(input, i, lim);
    } else {
      KeptFrom(input, i, end - 1, lim);
      KeptNext(input, i, end - 1, lim);
    }
  }

  /** Every packet but the first begins with the first item that is kept from where the last one was closed. */
  lemma NextPacketBegins(input: seq<Item>, packets: seq<seq<Item>>, ends: seq<nat>, k: nat, lim: Limits)
    requires CutsAt(input, packets, ends, lim) && k + 1 < |packets|
    ensures ends[k] < |input| && packets[k + 1] != []
    ensures var j := NextKept(input, ends[k], lim);
            && j < ends[k + 1] <= |input| && packets[k + 1][0] == input[j]
            && (j == ends[k] <==> Encodable(input[ends[k]], lim))
  {
    hide Encodable, Kept, ClosedFor, SizeOk, NextKept;
    assert StretchOk(input, packets, ends, k, lim) && StretchOk(input, packets, ends, k + 1, lim);
    NextKeptIs(input, ends[k], lim);
    KeptFrom(input, ends[k], ends[k + 1], lim);
  }

  lemma SizeGrows(items: seq<Item>, item: Item)
    ensures Size(items + [item]) >= Size(items)
  {
    hide Encode, EncodeItem;
    EncodeSnoc(items, item);
  }

  /**
   * A new packet begins for nothing, that is, with an item that had room in the one before, exactly if
   * the item at which that one was closed was dropped and the next item that is kept has room there.
   * What was dropped then is too big even for a packet of its own.
   */
  lemma NeedlessSplitIff(input: seq<Item>, packets: seq<seq<Item>>, ends: seq<nat>, k: nat, lim: Limits)
    requires CutsAt(input, packets, ends, lim) && k + 1 < |packets|
    ensures ends[k] < |input| && packets[k + 1] != []
    ensures Fits(packets[k], packets[k + 1][0], lim.max) <==>
            var j := NextKept(input, ends[k], lim);
            j < |input| && !Encodable(input[ends[k]], lim) && Fits(packets[k], input[j], lim.max)
    ensures Fits(packets[k], packets[k + 1][0], lim.max) ==> !TooLong(input[ends[k]])
  {
    hide Encodable, Kept, Size, NextKept;
    NextPacketBegins(input, packets, ends, k, lim);
    assert StretchOk(input, packets, ends, k, lim);
    SizeGrows(packets[k], packets[k + 1][0]);
  }

  /** A message in which nothing is dropped for its size has no packet that begins for nothing. */
  lemma NothingDroppedSplitsNone(input: seq<Item>, packets: seq<seq<Item>>, ends: seq<nat>, k: nat, lim: Limits)
    requires CutsAt(input, packets, ends, lim) && k + 1 < |packets|
    requires forall i <- input :: TooLong(i) || Encodable(i, lim)
    ensures packets[k + 1] != [] && !Fits(packets[k], packets[k + 1][0], lim.max)
  {
    hide Encodable, TooLong, Size, NextKept, StretchOk;
    NeedlessSplitIff(input, packets, ends, k, lim);
    assert input[ends[k]] in input;
  }

  // ----- A message for which it does -----

  const SHORT_NAME: bytes := [97]

  function ShortQuestion(): Question {
    Question(SHORT_NAME, ANY, 1, false)
  }

  function TextRecord(length: nat): (r: Record)
    ensures r.GetName() == SHORT_NAME && r.rdata.Txt? && |r.rdata.text| == length
  {
    Record(SHORT_NAME, 1, true, NewLife(120, 0), None, Txt(seq(length, i => 0)))
  }

  /** A question with two answers, of 9000 bytes and of none. */
  function BigAnswerFirst(): Outgoing {
    Outgoing(0x8400, 0, true, [ShortQuestion()], [(TextRecord(9000), 0), (TextRecord(0), 0)], [], [])
  }

  lemma ItsItems()
    ensures BigAnswerFirst().Items()
         == [Ask(ShortQuestion()), Tell(Answers, TextRecord(9000), 0), Tell(Answers, TextRecord(0), 0)]
  {
    hide TextRecord;
    var out := BigAnswerFirst();
    assert Asks(out.questions) == [Ask(ShortQuestion())];
    assert Timed(out.answers) == [Tell(Answers, TextRecord(9000), 0), Tell(Answers, TextRecord(0), 0)];
    assert Tells(Authorities, out.authorities) == [] && Tells(Additionals, out.additionals) == [];
  }

  lemma ItemSize(names: NameTable, pos: nat, item: Item)
    requires HasOneName(item) && OwnerOf(item) == SHORT_NAME
    ensures !TooLong(item) && Rest(item) <= |EncodeItem(names, pos, item).out| <= 3 + Rest(item)
  {
    hide EncodeItem, EncodeName, PlainLength, Labels, NameTooLong;
    OneLetter();
    NameLengthBound(SHORT_NAME);
    ItemLength(names, pos, item);
  }

  lemma ExampleSizes(q: Item, big: Item, small: Item)
    requires q == Ask(ShortQuestion()) && big == Tell(Answers, TextRecord(9000), 0)
    requires small == Tell(Answers, TextRecord(0), 0)
    ensures !TooLong(q) && !TooLong(big) && !TooLong(small)
    ensures Size([q]) <= 19 && Size([small]) <= 25 && Size([q, small]) <= 32
    ensures Size([big]) > 9000 && Size([q, big]) > 9000
  {
    hide Encode, EncodeItem, TooLong, TextRecord;
    SingleSize(q);
    SingleSize(big);
    SingleSize(small);
    ItemSize(map[], MSG_HEADER_LEN, q);
    ItemSize(map[], MSG_HEADER_LEN, big);
    ItemSize(map[], MSG_HEADER_LEN, small);
    var p := Encode([q]);
    ItemSize(p.names, |p.data|, big);
    ItemSize(p.names, |p.data|, small);
    EncodeSnoc([q], big);
    EncodeSnoc([q], small);
    assert [q] + [big] == [q, big] && [q] + [small] == [q, small];
  }

  /** The big answer is dropped, and the two items around it, for which one packet would do, go into two. */
  lemma DroppedAnswerSplitsPackets(lim: Limits)
    requires lim.Legal() && lim.max >= 32
    ensures var input := BigAnswerFirst().Items();
            && |input| == 3 && !Encodable(input[1], lim)
            && Packets(input, lim) == [[input[0]], [input[2]]]
            && Packets([input[0], input[2]], lim) == [[input[0], input[2]]]
  {
    ItsItems();
    hide Encode, TooLong, TextRecord, Outgoing.Items;
    var q, big, small := Ask(ShortQuestion()), Tell(Answers, TextRecord(9000), 0), Tell(Answers, TextRecord(0), 0);
    ExampleSizes(q, big, small);
    AroundDropped(q, big, small, lim);
  }

  lemma AroundDropped(a: Item, big: Item, c: Item, lim: Limits)
    requires lim.Legal() && !TooLong(a) && !TooLong(big) && !TooLong(c) && big.Tell?
    requires Size([a]) <= lim.max && Size([c]) <= lim.max && Size([a, c]) <= lim.max
    requires Size([a, big]) > lim.max && Size([big]) > lim.ceiling
    ensures Packets([a, big, c], lim) == [[a], [c]] && Packets([a, c], lim) == [[a, c]] && !Encodable(big, lim)
  {
    hide Encode, TooLong;
    var input := [a, big, c];
    assert [] + [a] == [a] && [a] + [big] == [a, big] && [] + [c] == [c] && [] + [big] == [big] && [a] + [c] == [a, c];
    assert PlanOf(input, 0, lim) == Plan([], [], []);
    assert PlanOf(input, 1, lim) == Plan([], [], [a]);
    assert PlanOf(input, 2, lim) == Plan([[a]], [1], []);
    assert PlanOf(input, 3, lim) == Plan([[a]], [1], [c]);
    assert PlanOf([a, c], 0, lim) == Plan([], [], []);
    assert PlanOf([a, c], 1, lim) == Plan([], [], [a]);
    assert PlanOf([a, c], 2, lim) == Plan([], [], [a, c]);
  }

  lemma OneLetter()
    ensures Labels(SHORT_NAME) == [SHORT_NAME] && PlainLength([SHORT_NAME]) == 3 && !NameTooLong(SHORT_NAME)
  {
    var name := SHORT_NAME;
    assert StripDot(name) == name;
    assert Scan([], [97]) == [[97]];
    assert name[1..] == [] && [] + [name[0]] == [97];
    assert Scan(name, []) == Scan(name[1..], [97]);
    assert [SHORT_NAME][1..] == [];
  }
}
