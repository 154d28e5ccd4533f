// How the items of a message are spread over packets.
module Packing {
  import opened Bytes
  import opened DnsName
  import opened DnsRecords
  import opened Wire
  import opened NameReader
  import opened PacketWriter
  import opened Encoding

  /** `max` bounds a packet of several items, `ceiling` a packet that holds a lone record. */
  datatype Limits = Limits(max: nat, ceiling: nat) {
    predicate Legal() {
      max <= MAX_PKT_ABSOLUTE_IPV6 <= ceiling <= MAX_PKT_ABSOLUTE_IPV4
    }
  }

  /**
   * The packets closed so far, each with the number of items of the message looked at before it
   * was closed, and the packet at hand.
   */
  datatype Plan = Plan(done: seq<seq<Item>>, ends: seq<nat>, cur: seq<Item>)

  predicate Fits(items: seq<Item>, item: Item, max: nat) {
    Size(items + [item]) <= max
  }

  /** The builder's next step: `item` is number `n` of the message. */
  function Step(plan: Plan, item: Item, n: nat, lim: Limits): Plan {
    if TooLong(item) then plan
    else if Fits(plan.cur, item, lim.max) then plan.(cur := plan.cur + [item])
    else
      var fresh' := if plan.cur == [] then plan else Plan(plan.done + [plan.cur], plan.ends + [n], []);
      if plan.cur != [] && Fits([], item, lim.max) then fresh'.(cur := [item])
      else if item.Tell? && Fits([], item, lim.ceiling) then
        Plan(fresh'.done + [[item]], fresh'.ends + [n + 1], [])
      else fresh'
  }

  function PlanOf(input: seq<Item>, n: nat, lim: Limits): Plan
    requires n <= |input|
  {
    if n == 0 then Plan([], [], []) else Step(PlanOf(input, n - 1, lim), input[n - 1], n - 1, lim)
  }

  /** The packets that are sent: never an empty one, unless there is nothing else. */
  function Packets(input: seq<Item>, lim: Limits): seq<seq<Item>> {
    var plan := PlanOf(input, |input|, lim);
    if plan.cur != [] || plan.done == [] then plan.done + [plan.cur] else plan.done
  }

  /** The item can be sent: on its own it fits in a packet. */
  predicate Encodable(item: Item, lim: Limits) {
    !TooLong(item) && Size([item]) <= if item.Ask? then lim.max else lim.ceiling
  }

  function Kept(items: seq<Item>, lim: Limits): seq<Item> {
    if items == [] then []
    else
      var front := Kept(items[..|items| - 1], lim);
      var last := items[|items| - 1];
      if Encodable(last, lim) then front + [last] else front
  }

  lemma {:induction false} KeptConcat(a: seq<Item>, b: seq<Item>, lim: Limits)
    ensures Kept(a + b, lim) == Kept(a, lim) + Kept(b, lim)
    decreases |b|
  {
    hide Encodable;
    if b == [] {
      assert a + b == a;
    } else {
      var front := b[..|b| - 1];
      KeptConcat(a, front, lim);
      assert (a + b)[..|a + b| - 1] == a + front;
    }
  }

  lemma {:induction false} TextFitsInPacket(d: bytes, base: nat, off: nat, limit: nat)
    requires MSG_HEADER_LEN <= base <= off && limit <= |d|
    requires SafeRead(d, base, off, limit).Name?
    ensures |SafeRead(d, base, off, limit).text| + 1 <= limit - off + base - MSG_HEADER_LEN
    decreases base, limit - off
  {
    if d[off] == 0 {
    } else if d[off] < 0x40 {
      TextFitsInPacket(d, base, off + 1 + d[off], limit);
    } else {
      var pointer := U16(d[off] - 0xC0, d[off + 1]);
      TextFitsInPacket(d, pointer, pointer, base);
    }
  }

  lemma {:induction false} JoinLength(labels: seq<bytes>)
    requires labels != []
    ensures PlainLength(labels) == |Join(labels)| + 2
  {
    if |labels| == 1 {
      assert PlainLength(labels[1..]) == 1;
    } else {
      JoinLength(labels[1..]);
    }
  }

  /**
   * What compression saves on a name is already in the packet: the packet and the compressed name
   * take no less than the name takes on its own.
   */
  lemma {:induction false} LabelsNeedRoom(d: bytes, table: NameTable, names: NameTable, pos: nat, labels: seq<bytes>)
    requires MSG_HEADER_LEN <= |d| && TableReads(d, table)
    requires AddsOnlyLonger(table, names, KeyLength(labels)) && [] !in labels
    ensures |EncodeLabels(names, pos, labels).out| + |d| - MSG_HEADER_LEN >= PlainLength(labels)
    ensures table == map[] ==> |EncodeLabels(names, pos, labels).out| == PlainLength(labels)
    decreases labels
  {
    hide SafeRead, EncodeLabels, Piece, PointerBytes, TableReads, Join;
    EncodeStep(names, pos, labels);
    if labels == [] {
    } else if Join(labels) in names {
      EntryFits(d, table, labels);
      PointerTakesTwo(names[Join(labels)]);
    } else {
      KeyShrinks(labels);
      LabelsNeedRoom(d, table, names[Join(labels) := pos % 0x1_0000], pos + |Piece(labels[0])|, labels[1..]);
    }
  }

  lemma KeyShrinks(labels: seq<bytes>)
    requires labels != [] && [] !in labels
    ensures KeyLength(labels[1..]) < KeyLength(labels)
  {
    assert labels[0] in labels;
    if |labels| > 1 { JoinShrinks(labels); }
  }

  lemma EntryFits(d: bytes, table: NameTable, labels: seq<bytes>)
    requires MSG_HEADER_LEN <= |d| && TableReads(d, table)
    requires labels != [] && Join(labels) in table && [] !in labels
    ensures |d| - MSG_HEADER_LEN + 2 >= PlainLength(labels)
  {
    hide SafeRead, Join;
    var off := table[Join(labels)];
    assert EntryReads(d, Join(labels), off);
    TextFitsInPacket(d, off, off, |d|);
    JoinLength(labels);
  }

  lemma PointerTakesTwo(off: u16)
    ensures |PointerBytes(off)| == 2
  {
  }

  lemma NameNeedsRoom(d: bytes, names: NameTable, pos: nat, name: bytes)
    requires MSG_HEADER_LEN <= |d| && TableReads(d, names)
    ensures |EncodeName(names, pos, name).out| + |d| - MSG_HEADER_LEN >= PlainLength(Labels(name))
    ensures names == map[] ==> |EncodeName(names, pos, name).out| == PlainLength(Labels(name))
  {
    LabelsNotEmpty(StripDot(name), []);
    LabelsNeedRoom(d, names, names, pos, Labels(name));
  }

  lemma SingleSize(item: Item)
    ensures Size([item]) == MSG_HEADER_LEN + |EncodeItem(map[], MSG_HEADER_LEN, item).out|
  {
    assert [item][..0] == [];
    assert Encode([item]) == Append(EMPTY_PACKET, item);
  }

  function OwnerOf(item: Item): bytes {
    match item
    case Ask(q) => q.name
    case Tell(_, rec, _) => rec.GetName()
  }

  predicate HasOneName(item: Item) {
    item.Ask? || !(item.rec.rdata.Pointer? || item.rec.rdata.Srv?)
  }

  /** What the item takes besides its first name, if that is its only name. */
  function Rest(item: Item): nat {
    match item
    case Ask(_) => 4
    case Tell(_, rec, _) =>
      10 + match rec.rdata
      case Addr4(_, _) => 4
      case Addr6(_, _) => 16
      case Txt(text) => |text|
      case _ => 0
  }

  lemma ItemLength(names: NameTable, pos: nat, item: Item)
    requires HasOneName(item)
    ensures |EncodeItem(names, pos, item).out| == |EncodeName(names, pos, OwnerOf(item)).out| + Rest(item)
  {
    hide EncodeName, Be16, RecordFields;
  }

  lemma TwoNamesLength(item: Item)
    requires !HasOneName(item)
    ensures |EncodeItem(map[], MSG_HEADER_LEN, item).out| <= NameReach(item)
  {
    hide EncodeName, Be16, RecordFields, PlainLength, Labels;
    NameLengthBound(item.rec.GetName());
    match item.rec.rdata
    case Pointer(_, alias) => NameLengthBound(alias);
    case Srv(_, _, _, host) => NameLengthBound(host);
  }

  /** Room in a packet means room on its own, at least up to the smaller of the two ceilings. */
  lemma AloneIsSmallest(p: Packet, item: Item)
    requires Sound(p) && NamesFit(item)
    ensures Size([item]) <= |Append(p, item).data| || (item.Tell? && Size([item]) <= MAX_PKT_ABSOLUTE_IPV6)
  {
    hide TableReads, EncodeItem, EncodeName, PlainLength, NameReach;
    SingleSize(item);
    if HasOneName(item) {
      EmptyTableReads(BLANK_HEADER);
      NameNeedsRoom(BLANK_HEADER, map[], MSG_HEADER_LEN, OwnerOf(item));
      NameNeedsRoom(p.data, p.names, |p.data|, OwnerOf(item));
      ItemLength(map[], MSG_HEADER_LEN, item);
      ItemLength(p.names, |p.data|, item);
    } else {
      TwoNamesLength(item);
    }
  }

  lemma EmptyTableReads(d: bytes)
    ensures TableReads(d, map[])
  {
  }

  lemma NameLengthBound(name: bytes)
    ensures forall names, pos: nat :: |EncodeName(names, pos, name).out| <= PlainLength(Labels(name))
  {
    forall names, pos: nat
      ensures |EncodeName(names, pos, name).out| <= PlainLength(Labels(name))
    {
      LabelsNotEmpty(StripDot(name), []);
      CompressionNeverLonger(names, pos, Labels(name));
    }
  }

  function Start(ends: seq<nat>, k: nat): nat
    requires k <= |ends|
  {
    if k == 0 then 0 else ends[k - 1]
  }

  /**
   * Why a packet was closed after `end` items of the message: the next item did not fit, or the
   * packet holds one record that is too big to share a packet.
   */
  ghost predicate ClosedFor(input: seq<Item>, packet: seq<Item>, end: nat, lim: Limits) {
    || (Size(packet) <= lim.max && end < |input| && !TooLong(input[end]) && !Fits(packet, input[end], lim.max))
    || (|packet| == 1 && packet[0].Tell? && lim.max < Size(packet) <= lim.ceiling)
  }

  /** Packet `k` holds exactly the encodable items of its stretch of the message. */
  ghost predicate PacketOk(input: seq<Item>, done: seq<seq<Item>>, ends: seq<nat>, k: nat, lim: Limits)
    requires k < |done| == |ends|
  {
    && Start(ends, k) <= ends[k] <= |input|
    && done[k] == Kept(input[Start(ends, k)..ends[k]], lim) != []
    && ClosedFor(input, done[k], ends[k], lim)
  }

  ghost predicate PlanOk(input: seq<Item>, n: nat, plan: Plan, lim: Limits)
    requires n <= |input|
  {
    && |plan.done| == |plan.ends|
    && (forall k :: 0 <= k < |plan.done| ==> PacketOk(input, plan.done, plan.ends, k, lim))
    && Start(plan.ends, |plan.ends|) <= n
    && plan.cur == Kept(input[Start(plan.ends, |plan.ends|)..n], lim)
    && (plan.cur != [] ==> Size(plan.cur) <= lim.max)
  }

  lemma KeptNext(input: seq<Item>, lo: nat, n: nat, lim: Limits)
    requires lo <= n < |input|
    ensures Kept(input[lo..n + 1], lim)
         == Kept(input[lo..n], lim) + if Encodable(input[n], lim) then [input[n]] else []
  {
    hide Encodable;
    assert input[lo..n + 1][..n - lo] == input[lo..n];
  }

  lemma {:induction false} KeptItems(items: seq<Item>, lim: Limits)
    ensures forall i <- Kept(items, lim) :: i in items && Encodable(i, lim)
  {
    if items != [] {
      hide Encodable;
      KeptItems(items[..|items| - 1], lim);
    }
  }

  /** Closing the packet at hand. */
  lemma ClosePacket(input: seq<Item>, plan: Plan, packet: seq<Item>, end: nat, lim: Limits)
    requires |plan.done| == |plan.ends|
    requires forall k :: 0 <= k < |plan.done| ==> PacketOk(input, plan.done, plan.ends, k, lim)
    requires Start(plan.ends, |plan.ends|) <= end <= |input| && packet != []
    requires packet == Kept(input[Start(plan.ends, |plan.ends|)..end], lim)
    requires ClosedFor(input, packet, end, lim)
    ensures forall k :: 0 <= k <= |plan.done| ==> PacketOk(input, plan.done + [packet], plan.ends + [end], k, lim)
  {
    hide ClosedFor, Kept;
    var done, ends := plan.done + [packet], plan.ends + [end];
    forall k | 0 <= k <= |plan.done|
      ensures PacketOk(input, done, ends, k, lim)
    {
      if k < |plan.done| {
        assert PacketOk(input, plan.done, plan.ends, k, lim);
        assert done[k] == plan.done[k] && ends[k] == plan.ends[k] && Start(ends, k) == Start(plan.ends, k);
      } else {
        assert done[k] == packet && ends[k] == end && Start(ends, k) == Start(plan.ends, k);
      }
    }
  }

  /** An item that fits in the packet at hand can be sent on its own, too. */
  lemma FitsIsEncodable(cur: seq<Item>, item: Item, lim: Limits)
    requires lim.Legal() && !TooLong(item) && NamesFit(item) && Fits(cur, item, lim.max)
    requires cur != [] ==> Writable(cur)
    ensures Encodable(item, lim)
  {
    if cur == [] {
      assert cur + [item] == [item];
    } else {
      EncodeIsSound(cur);
      EncodeSnoc(cur, item);
      AloneIsSmallest(Encode(cur), item);
    }
  }

  lemma StepKeepsPlan(input: seq<Item>, n: nat, plan: Plan, lim: Limits)
    requires lim.Legal() && n < |input| && PlanOk(input, n, plan, lim)
    requires forall i <- input :: NamesFit(i)
    ensures PlanOk(input, n + 1, Step(plan, input[n], n, lim), lim)
  {
    hide Kept, Encode, NameReach, TooLong;
    var item := input[n];
    var lo := Start(plan.ends, |plan.ends|);
    KeptNext(input, lo, n, lim);
    assert [] + [item] == [item];
    if TooLong(item) {
    } else if Fits(plan.cur, item, lim.max) {
      KeptItems(input[lo..n], lim);
      FitsIsEncodable(plan.cur, item, lim);
    } else {
      EmptyKept(input, n, lim);
      KeptNext(input, n, n, lim);
      if plan.cur != [] {
        ClosePacket(input, plan, plan.cur, n, lim);
      }
      var fresh' := if plan.cur == [] then plan else Plan(plan.done + [plan.cur], plan.ends + [n], []);
      EmptyKept(input, n + 1, lim);
      if !Fits([], item, lim.max) && item.Tell? && Fits([], item, lim.ceiling) {
        ClosePacket(input, fresh', [item], n + 1, lim);
      }
    }
  }

  lemma EmptyKept(input: seq<Item>, n: nat, lim: Limits)
    requires n <= |input|
    ensures Kept(input[n..n], lim) == []
  {
  }

  lemma NoPlanYet(input: seq<Item>, lim: Limits)
    ensures PlanOk(input, 0, Plan([], [], []), lim)
  {
    EmptyKept(input, 0, lim);
  }

  /** The state of the builder after any number of items. */
  lemma {:induction false} PlanIsOk(input: seq<Item>, n: nat, lim: Limits)
    requires lim.Legal() && n <= |input|
    requires forall i <- input :: NamesFit(i)
    ensures PlanOk(input, n, PlanOf(input, n, lim), lim)
  {
    hide Step, NamesFit, PlanOk, Limits.Legal;
    if n == 0 {
      NoPlanYet(input, lim);
    } else {
      PlanIsOk(input, n - 1, lim);
      StepKeepsPlan(input, n - 1, PlanOf(input, n - 1, lim), lim);
    }
  }

  /** What the sizes of a packet's contents must be. */
  ghost predicate SizeOk(packet: seq<Item>, lim: Limits) {
    Size(packet) <= lim.max || (|packet| == 1 && packet[0].Tell? && Size(packet) <= lim.ceiling)
  }

  /**
   * Packet `k` holds, in order, all encodable items of its stretch of the message, is no bigger than
   * allowed, is not empty unless it is the only one, and was closed for a reason if another follows.
   */
  ghost predicate StretchOk(input: seq<Item>, packets: seq<seq<Item>>, ends: seq<nat>, k: nat, lim: Limits)
    requires k < |packets| == |ends|
  {
    && Start(ends, k) <= ends[k] <= |input|
    && packets[k] == Kept(input[Start(ends, k)..ends[k]], lim)
    && (k < |packets| - 1 ==> ClosedFor(input, packets[k], ends[k], lim))
    && (packets[k] == [] ==> |packets| == 1)
    && (packets[k] != [] ==> SizeOk(packets[k], lim))
  }

  /** `packets` cut the message at `ends`. */
  ghost predicate CutsAt(input: seq<Item>, packets: seq<seq<Item>>, ends: seq<nat>, lim: Limits) {
    && |packets| == |ends| >= 1
    && ends[|ends| - 1] == |input|
    && forall k :: 0 <= k < |packets| ==> StretchOk(input, packets, ends, k, lim)
  }

  lemma ClosedSize(input: seq<Item>, packet: seq<Item>, end: nat, lim: Limits)
    requires ClosedFor(input, packet, end, lim)
    ensures SizeOk(packet, lim)
  {
  }

  /** A packet that was closed by the builder and is not the last one. */
  lemma InnerStretch(input: seq<Item>, plan: Plan, packets: seq<seq<Item>>, ends: seq<nat>, k: nat, lim: Limits)
    requires PlanOk(input, |input|, plan, lim) && k < |plan.done| <= |packets| == |ends|
    requires packets[k] == plan.done[k] && Start(ends, k) == Start(plan.ends, k) && ends[k] == plan.ends[k]
    ensures StretchOk(input, packets, ends, k, lim)
  {
    hide Kept, Encode, TooLong;
    assert PacketOk(input, plan.done, plan.ends, k, lim);
    ClosedSize(input, plan.done[k], plan.ends[k], lim);
  }

  /** The last packet stands for the rest of the message, too, if nothing of that is sent. */
  lemma LastPacketToEnd(input: seq<Item>, plan: Plan, lim: Limits)
    requires PlanOk(input, |input|, plan, lim) && plan.cur == [] && plan.done != []
    ensures var last := |plan.ends| - 1;
            Start(plan.ends, last) <= |input| && plan.done[last] == Kept(input[Start(plan.ends, last)..], lim)
  {
    hide Kept, ClosedFor;
    var last := |plan.ends| - 1;
    assert PacketOk(input, plan.done, plan.ends, last, lim);
    var lo, end := Start(plan.ends, last), plan.ends[last];
    assert input[lo..] == input[lo..end] + input[end..];
    KeptConcat(input[lo..end], input[end..], lim);
    assert input[end..] == input[end..|input|];
  }

  lemma LastStretch(input: seq<Item>, plan: Plan, packets: seq<seq<Item>>, ends: seq<nat>, lim: Limits)
    requires PlanOk(input, |input|, plan, lim) && |packets| == |ends| >= 1
    requires packets == if plan.cur != [] || plan.done == [] then plan.done + [plan.cur] else plan.done
    requires Start(ends, |ends| - 1) == Start(plan.ends, |ends| - 1) && ends[|ends| - 1] == |input|
    ensures StretchOk(input, packets, ends, |ends| - 1, lim)
  {
    hide Kept, Encode, TooLong, ClosedFor;
    var last := |ends| - 1;
    if plan.cur != [] || plan.done == [] {
      if plan.cur != [] { SmallIsOk(plan.cur, lim); }
    } else {
      LastPacketToEnd(input, plan, lim);
      assert input[Start(ends, last)..|input|] == input[Start(ends, last)..];
      assert PacketOk(input, plan.done, plan.ends, last, lim);
      ClosedSize(input, plan.done[last], plan.ends[last], lim);
    }
  }

  /** The packing theorem. */
  lemma PackingIsExact(input: seq<Item>, lim: Limits) returns (ends: seq<nat>)
    requires lim.Legal() && forall i <- input :: NamesFit(i)
    ensures CutsAt(input, Packets(input, lim), ends, lim)
    ensures |ends| == |Packets(input, lim)| && Start(ends, |ends|) == |input|
  {
    hide Kept, Encode, NameReach, TooLong, ClosedFor, PlanOf, SizeOk, PacketOk, StretchOk;
    var n := |input|;
    var plan := PlanOf(input, n, lim);
    var packets := Packets(input, lim);
    PlanIsOk(input, n, lim);
    ends := if plan.cur != [] || plan.done == [] then plan.ends + [n] else plan.ends[..|plan.ends| - 1] + [n];
    forall k | 0 <= k < |packets|
      ensures StretchOk(input, packets, ends, k, lim)
    {
      assert Start(ends, k) == Start(plan.ends, k);
      if k < |packets| - 1 {
        InnerStretch(input, plan, packets, ends, k, lim);
      } else {
        LastStretch(input, plan, packets, ends, lim);
      }
    }
  }

  lemma SmallIsOk(packet: seq<Item>, lim: Limits)
    requires Size(packet) <= lim.max
    ensures SizeOk(packet, lim)
  {
  }

  function Flatten(packets: seq<seq<Item>>): seq<Item> {
    if packets == [] then [] else Flatten(packets[..|packets| - 1]) + packets[|packets| - 1]
  }

  lemma {:induction false} CutsFlatten(input: seq<Item>, packets: seq<seq<Item>>, ends: seq<nat>, k: nat, lim: Limits)
    requires CutsAt(input, packets, ends, lim) && k <= |packets|
    ensures Start(ends, k) <= |input| && Flatten(packets[..k]) == Kept(input[..Start(ends, k)], lim)
  {
    hide Kept, ClosedFor, SizeOk;
    if k > 0 {
      CutsFlatten(input, packets, ends, k - 1, lim);
      assert packets[..k][..k - 1] == packets[..k - 1];
      var lo := Start(ends, k - 1);
      assert StretchOk(input, packets, ends, k - 1, lim);
      assert input[..ends[k - 1]] == input[..lo] + input[lo..ends[k - 1]];
      KeptConcat(input[..lo], input[lo..ends[k - 1]], lim);
    } else {
      assert packets[..0] == [] && input[..0] == input[0..0];
      EmptyKept(input, 0, lim);
    }
  }

  /** Nothing is lost for lack of room, nothing is sent twice, and the order is kept. */
  lemma PackingLosesNothing(input: seq<Item>, lim: Limits)
    requires lim.Legal() && forall i <- input :: NamesFit(i)
    ensures Flatten(Packets(input, lim)) == Kept(input, lim)
  {
    hide *;
    var ends := PackingIsExact(input, lim);
    var packets := Packets(input, lim);
    CutsFlatten(input, packets, ends, |packets|, lim);
    assert packets[..|packets|] == packets && input[..|input|] == input;
  }

  lemma {:induction false} KeptFirst(items: seq<Item>, lim: Limits)
    requires items != [] && Encodable(items[0], lim)
    ensures Kept(items, lim) != [] && Kept(items, lim)[0] == items[0]
  {
    hide Encodable;
    if |items| == 1 {
      assert items[..0] == [];
      assert Kept(items, lim) == [] + [items[0]];
    } else {
      KeptFirst(items[..|items| - 1], lim);
    }
  }
}
