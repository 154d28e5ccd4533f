// Two hosts that probe for the same name at the same time, each seeing the query of the other as it arrives.
module Duel {
  import opened Bytes
  import opened DnsName
  import opened DnsRecords
  import opened Wire
  import opened Encoding
  import opened Packing
  import opened PacketWriter
  import opened PacketBuilder
  import opened MessageRoundTrip
  import opened RoundTrip
  import opened Tiebreak
  import opened Probes
  import opened ProbeQueries
  import DnsRegistry
  import RegistryState

  /** A host that probes: its registry, the probes that it asks for in one query, and the way of that query. */
  datatype Prober = Prober(reg: Reg, asked: seq<bytes>, path: Path)

  /** It asks for `name`, which no other name that it asks for is read as. */
  ghost predicate ProbesFor(host: Prober, name: bytes) {
    host.path.Legal() && Asking(host.reg, host.asked, name)
  }

  function RecordsOf(host: Prober, name: bytes): seq<Record>
    requires name in host.reg.probing
  {
    host.reg.probing[name].records
  }

  predicate AllProbing(host: Prober) {
    forall n <- host.asked :: n in host.reg.probing
  }

  function QueryOf(host: Prober): Outgoing
    requires AllProbing(host)
  {
    Query(host.reg, host.asked)
  }

  /** The records of `name` in the packet that holds the question for it. */
  ghost function Shown(host: Prober, name: bytes): seq<Record>
    requires AllProbing(host)
  {
    Arriving(Sent(QueryOf(host), host.path), name)
  }

  /** The query of `peer` has arrived, each packet at its time. */
  function Met(reg: Reg, peer: Prober, times: seq<nat>): Reg
    requires AllProbing(peer) && |times| == |Sent(QueryOf(peer), peer.path)|
  {
    Received(reg, OnWire(QueryOf(peer), peer.path), peer.path.intf, times, |times|)
  }

  /** It has made our probe for `name` wait and start again. */
  predicate GivesWay(reg: Reg, name: bytes, peer: Prober, times: seq<nat>)
    requires AllProbing(peer) && |times| == |Sent(QueryOf(peer), peer.path)|
  {
    name in reg.probing && var reg' := Met(reg, peer, times);
    name in reg'.probing && reg'.probing[name] != reg.probing[name]
  }

  /** There is one arrival time for each packet, and our probe for `name` has started by all of them. */
  ghost predicate Arrives(reg: Reg, name: bytes, peer: Prober, times: seq<nat>) {
    && AllProbing(peer) && |times| == |Sent(QueryOf(peer), peer.path)|
    && name in reg.probing && forall t <- times :: reg.probing[name].startTime < t
  }

  /**
   * A host gives way to the query of a peer exactly if the name comes back from the wire as it is and its records
   * are earlier than those of the name in the packet that holds the question, as they are read there.
   */
  lemma GivesWayIff(reg: Reg, name: bytes, peer: Prober, times: seq<nat>, now: nat)
    requires ProbesFor(peer, name) && Arrives(reg, name, peer, times)
    ensures GivesWay(reg, name, peer, times) <==>
            Canonical(name) && Yields(reg.probing[name].records, Seen(Shown(peer, name), peer.path.intf, now))
  {
    hide Dotted, Sent, Seen, For, AskedIn, Yields, InOrder, Received, Arriving, Asking;
    assert Asking(peer.reg, peer.asked, name);
    var out, sent, intf := QueryOf(peer), Sent(QueryOf(peer), peer.path), peer.path.intf;
    var p, shown := reg.probing[name], Shown(peer, name);
    QueryIsOne(peer, name);
    ReceivedTells(reg, out, peer.path, times, |times|, name);
    SentInOrder(out, peer.path);
    if !Canonical(name) {
      forall k | 0 <= k < |sent|
        ensures !Beats(p, sent[k], name, intf, times[k])
      {
        NotAskedFor(peer.reg, peer.asked, name, peer.path, k);
      }
    } else {
      if k :| 0 <= k < |sent| && Beats(p, sent[k], name, intf, times[k]) {
        HoldersAgree(sent, name, k);
        NoneYields(p.records, intf, times[k]);
        SeenAnyTime(p.records, shown, intf, times[k], now);
      }
      if Yields(p.records, Seen(shown, intf, now)) {
        ArrivingIsHeld(sent, name);
        NoneYields(p.records, intf, now);
        var k :| 0 <= k < |sent| && AskedIn(sent[k], name) && For(sent[k], name) == shown;
        SeenAnyTime(p.records, shown, intf, times[k], now);
        assert times[k] in times && Beats(p, sent[k], name, intf, times[k]);
      }
    }
  }

  lemma QueryIsOne(peer: Prober, name: bytes)
    requires Asking(peer.reg, peer.asked, name)
    ensures AllProbing(peer) && QueryOf(peer).flags == 0
    ensures forall i <- QueryOf(peer).Items() :: NamesFit(i)
  {
  }

  lemma NoneYields(mine: seq<Record>, intf: InterfaceId, now: nat)
    ensures !Yields(mine, Seen([], intf, now))
  {
  }

  /** When a record arrives does not matter. */
  lemma SeenAnyTime(mine: seq<Record>, rs: seq<Record>, intf: InterfaceId, t: nat, now: nat)
    ensures Yields(mine, Seen(rs, intf, t)) <==> Yields(mine, Seen(rs, intf, now))
  {
    SameSeenKeys(rs, intf, t, now);
    EqualKeysCompareAlike(mine, Seen(rs, intf, t), Seen(rs, intf, now));
  }

  lemma {:induction false} SameSeenKeys(rs: seq<Record>, intf: InterfaceId, t: nat, now: nat)
    ensures Keys(Seen(rs, intf, t)) == Keys(Seen(rs, intf, now))
  {
    hide EchoRecord, KeyOf;
    if rs != [] {
      SameSeenKeys(rs[1..], intf, t, now);
      SeenFirst(rs, intf, t);
      SeenFirst(rs, intf, now);
      EchoKey(rs[0], intf, t);
      EchoKey(rs[0], intf, now);
    }
  }

  lemma SeenFirst(rs: seq<Record>, intf: InterfaceId, now: nat)
    requires rs != []
    ensures Seen(rs, intf, now)[0] == EchoRecord(rs[0], 0, false, intf, now)
    ensures Seen(rs, intf, now)[1..] == Seen(rs[1..], intf, now)
  {
    hide EchoRecord;
  }

  // ----- Hosts with different records -----

  /** The name in the rdata comes back as it is. */
  predicate CanonicalRData(rdata: RData) {
    match rdata
    case Pointer(_, alias) => Canonical(alias)
    case Srv(_, _, _, host) => Canonical(host)
    case _ => true
  }

  lemma {:induction false} SeenKeys(rs: seq<Record>, intf: InterfaceId, now: nat)
    requires forall r <- rs :: CanonicalRData(r.rdata)
    ensures Keys(Seen(rs, intf, now)) == Keys(rs)
  {
    if rs != [] {
      assert rs[0] in rs;
      SeenKeys(rs[1..], intf, now);
      assert Seen(rs, intf, now)[1..] == Seen(rs[1..], intf, now);
      EchoKey(rs[0], intf, now);
    }
  }

  lemma EchoKey(r: Record, intf: InterfaceId, now: nat)
    ensures var k := KeyOf(EchoRecord(r, 0, false, intf, now));
            && k == Key(KeyOf(r).rrclass, KeyOf(r).code, Payload(EchoRData(r.rdata, intf)))
            && (CanonicalRData(r.rdata) ==> k == KeyOf(r))
  {
    hide Dotted;
  }

  lemma EqualKeysCompareAlike(a: seq<Record>, b: seq<Record>, c: seq<Record>)
    requires Keys(b) == Keys(c)
    ensures CompareLists(a, b) == CompareLists(a, c)
  {
    hide CompareLists, Keys;
    ListsAntisymmetric(b, c);
    ListsAntisymmetric(a, b);
    ListsAntisymmetric(a, c);
    ListsAntisymmetric(c, b);
    if CompareLists(a, b) != Greater {
      ListsTransitive(a, b, c);
    } else if CompareLists(a, c) != Greater {
      ListsTransitive(a, c, b);
    }
  }

  /** What a host shows of its records for a name if no label of them is too long: the beginning of the list. */
  lemma ShowsPrefix(peer: Prober, name: bytes)
    requires ProbesFor(peer, name) && Canonical(name) && NoneTooLong(RecordsOf(peer, name))
    ensures Shown(peer, name) <= RecordsOf(peer, name)
  {
    hide Dotted, Sent, Arriving, Query, NoneTooLong, Sendable;
    ArrivingIsPrefix(peer.reg, peer.asked, name, peer.path);
    SendableAll(RecordsOf(peer, name));
  }

  /** One host against the other, where the names in rdata come back as they are. */
  lemma GivesWayToPrefixIff(reg: Reg, name: bytes, peer: Prober, times: seq<nat>)
    requires ProbesFor(peer, name) && Arrives(reg, name, peer, times) && NoneTooLong(RecordsOf(peer, name))
    requires forall r <- RecordsOf(peer, name) :: CanonicalRData(r.rdata)
    ensures GivesWay(reg, name, peer, times) <==>
            && Canonical(name) && Yields(reg.probing[name].records, RecordsOf(peer, name))
            && FirstDifference(Keys(reg.probing[name].records), Keys(RecordsOf(peer, name))) < |Shown(peer, name)|
  {
    hide GivesWay, CanonicalRData, Canonical, Seen, Keys, Yields, Arriving, NoneTooLong, FirstDifference, Sent;
    var mine, theirs := reg.probing[name].records, RecordsOf(peer, name);
    GivesWayIff(reg, name, peer, times, 0);
    if Canonical(name) {
      ShowsPrefix(peer, name);
      var shown := Shown(peer, name);
      assert shown == theirs[..|shown|];
      assert forall r <- shown :: r in theirs;
      SeenKeys(shown, peer.path.intf, 0);
      YieldsAlike(mine, shown, Seen(shown, peer.path.intf, 0));
      YieldsToPrefixIff(mine, theirs, |shown|);
    }
  }

  /**
   * RFC 6762 section 8.2. If no label of their records is too long and the names in rdata come back as they are, two
   * hosts that meet never both give way, over however many packets their queries go. One does exactly if the name
   * comes back as it is, their records differ, and the first difference is in what the later host shows together
   * with its question.
   */
  lemma OneGivesWayIff(a: Prober, b: Prober, name: bytes, atA: seq<nat>, atB: seq<nat>)
    requires ProbesFor(a, name) && ProbesFor(b, name) && Arrives(a.reg, name, b, atA) && Arrives(b.reg, name, a, atB)
    requires NoneTooLong(RecordsOf(a, name)) && NoneTooLong(RecordsOf(b, name))
    requires forall r <- RecordsOf(a, name) + RecordsOf(b, name) :: CanonicalRData(r.rdata)
    ensures var mine, theirs := RecordsOf(a, name), RecordsOf(b, name);
            var aDoes, bDoes := GivesWay(a.reg, name, b, atA), GivesWay(b.reg, name, a, atB);
            var later := if Yields(mine, theirs) then b else a;
            && !(aDoes && bDoes)
            && (aDoes || bDoes <==>
                  && Canonical(name) && Keys(mine) != Keys(theirs)
                  && FirstDifference(Keys(mine), Keys(theirs)) < |Shown(later, name)|)
  {
    hide GivesWay, CanonicalRData, Canonical, Keys, Yields, Arriving, NoneTooLong, FirstDifference, Sent, Query;
    var mine, theirs := RecordsOf(a, name), RecordsOf(b, name);
    assert forall r <- mine :: r in mine + theirs;
    assert forall r <- theirs :: r in mine + theirs;
    GivesWayToPrefixIff(a.reg, name, b, atA);
    GivesWayToPrefixIff(b.reg, name, a, atB);
    OneYields(mine, theirs);
    DifferenceSymmetric(Keys(mine), Keys(theirs));
  }

  /** The same for queries that go out in one packet each: one host gives way exactly if their records differ. */
  lemma WholeQueriesDecideIff(a: Prober, b: Prober, name: bytes, atA: seq<nat>, atB: seq<nat>)
    requires ProbesFor(a, name) && ProbesFor(b, name) && Arrives(a.reg, name, b, atA) && Arrives(b.reg, name, a, atB)
    requires NoneTooLong(RecordsOf(a, name)) && NoneTooLong(RecordsOf(b, name))
    requires GoesWhole(QueryOf(a), a.path) && GoesWhole(QueryOf(b), b.path)
    requires forall r <- RecordsOf(a, name) + RecordsOf(b, name) :: CanonicalRData(r.rdata)
    ensures var mine, theirs := RecordsOf(a, name), RecordsOf(b, name);
            var aDoes, bDoes := GivesWay(a.reg, name, b, atA), GivesWay(b.reg, name, a, atB);
            && !(aDoes && bDoes)
            && (aDoes || bDoes <==> Canonical(name) && Keys(mine) != Keys(theirs))
  {
    hide GivesWay, CanonicalRData, Canonical, Keys, CompareLists, Arriving, NoneTooLong, Sent, Query, GoesWhole;
    var mine, theirs := RecordsOf(a, name), RecordsOf(b, name);
    OneGivesWayIff(a, b, name, atA, atB);
    if Canonical(name) {
      ShowsAll(a, name);
      ShowsAll(b, name);
      DifferenceInside(mine, theirs);
      OneYields(mine, theirs);
    }
  }

  lemma ShowsAll(peer: Prober, name: bytes)
    requires ProbesFor(peer, name) && Canonical(name) && NoneTooLong(RecordsOf(peer, name))
    requires GoesWhole(QueryOf(peer), peer.path)
    ensures Shown(peer, name) == RecordsOf(peer, name)
  {
    hide Dotted, Sent, Arriving, Query, NoneTooLong, GoesWhole, Sendable;
    WholeArrives(peer.reg, peer.asked, name, peer.path);
    SendableAll(RecordsOf(peer, name));
  }

  /** The first difference is inside the later of two lists. */
  lemma {:induction false} DifferenceInside(a: seq<Record>, b: seq<Record>)
    ensures Yields(a, b) ==> FirstDifference(Keys(a), Keys(b)) < |b|
    ensures Yields(b, a) ==> FirstDifference(Keys(a), Keys(b)) < |a|
  {
    YieldsToPrefixIff(a, b, |b|);
    YieldsToPrefixIff(b, a, |a|);
    DifferenceSymmetric(Keys(a), Keys(b));
    assert b[..|b|] == b && a[..|a|] == a;
  }

  lemma YieldsAlike(a: seq<Record>, b: seq<Record>, c: seq<Record>)
    requires Keys(b) == Keys(c)
    ensures Yields(a, b) <==> Yields(a, c)
  {
    EqualKeysCompareAlike(a, b, c);
  }

  // ----- Hosts with the same records -----

  /** The first rdata that does not come back as it is comes back later. */
  predicate ComesBackLater(rs: seq<Record>, intf: InterfaceId) {
    exists i :: 0 <= i < |rs|
                && CompareBytes(Payload(rs[i].rdata), Payload(EchoRData(rs[i].rdata, intf))) == Less
                && forall j :: 0 <= j < i ==> Payload(rs[j].rdata) == Payload(EchoRData(rs[j].rdata, intf))
  }

  lemma CompareWithEcho(r: Record, intf: InterfaceId, now: nat)
    ensures Compare(r, EchoRecord(r, 0, false, intf, now))
         == CompareBytes(Payload(r.rdata), Payload(EchoRData(r.rdata, intf)))
    ensures CompareBytes(Payload(r.rdata), Payload(EchoRData(r.rdata, intf))) == Equal <==>
            Payload(r.rdata) == Payload(EchoRData(r.rdata, intf))
  {
    hide Compare, EchoRecord, EchoRData, CompareBytes, Payload;
    EchoKey(r, intf, now);
    CompareIsKeyOrder(r, EchoRecord(r, 0, false, intf, now));
    BytesAntisymmetric(Payload(r.rdata), Payload(EchoRData(r.rdata, intf)));
  }

  lemma LaterFrom(rs: seq<Record>, intf: InterfaceId)
    requires rs != []
    ensures var p, q := Payload(rs[0].rdata), Payload(EchoRData(rs[0].rdata, intf));
            ComesBackLater(rs, intf) <==> CompareBytes(p, q) == Less || (p == q && ComesBackLater(rs[1..], intf))
  {
    hide EchoRData, Payload, CompareBytes;
    var rest := rs[1..];
    BytesAntisymmetric(Payload(rs[0].rdata), Payload(EchoRData(rs[0].rdata, intf)));
    if i :| 0 <= i < |rest|
            && CompareBytes(Payload(rest[i].rdata), Payload(EchoRData(rest[i].rdata, intf))) == Less
            && forall j :: 0 <= j < i ==> Payload(rest[j].rdata) == Payload(EchoRData(rest[j].rdata, intf)) {
      if Payload(rs[0].rdata) == Payload(EchoRData(rs[0].rdata, intf)) {
        assert rs[i + 1] == rest[i];
        assert forall j :: 1 <= j < i + 1 ==> rs[j] == rest[j - 1];
      }
    }
    if i :| 0 <= i < |rs|
            && CompareBytes(Payload(rs[i].rdata), Payload(EchoRData(rs[i].rdata, intf))) == Less
            && forall j :: 0 <= j < i ==> Payload(rs[j].rdata) == Payload(EchoRData(rs[j].rdata, intf)) {
      if i > 0 {
        assert rs[i] == rest[i - 1];
        assert forall j :: 0 <= j < i - 1 ==> rest[j] == rs[j + 1];
      }
    }
  }

  /**
   * Two hosts with the same records need not give way at all. If no label of them is too long, one does exactly if the
   * name comes back as it is and, of what the other shows, the first rdata that does not comes back later.
   */
  lemma TwinGivesWayIff(reg: Reg, peer: Prober, name: bytes, times: seq<nat>)
    requires ProbesFor(peer, name) && Arrives(reg, name, peer, times) && NoneTooLong(RecordsOf(peer, name))
    requires reg.probing[name].records == RecordsOf(peer, name)
    ensures GivesWay(reg, name, peer, times) <==> Canonical(name) && ComesBackLater(Shown(peer, name), peer.path.intf)
  {
    hide GivesWay, Canonical, CompareLists, ComesBackLater, Arriving, NoneTooLong, Sent, Query, Seen;
    GivesWayIff(reg, name, peer, times, 0);
    if Canonical(name) {
      ShowsPrefix(peer, name);
      var rs, shown := RecordsOf(peer, name), Shown(peer, name);
      assert shown == rs[..|shown|];
      PrefixEchoIsLater(rs, |shown|, peer.path.intf, 0);
    }
  }

  /** Against the echo of its own beginning, a list loses where that would lose against its echo. */
  lemma {:induction false} PrefixEchoIsLater(rs: seq<Record>, m: nat, intf: InterfaceId, now: nat)
    requires m <= |rs|
    ensures Yields(rs, Seen(rs[..m], intf, now)) <==> ComesBackLater(rs[..m], intf)
  {
    hide Compare, EchoRData, EchoRecord, Payload, CompareBytes, KeyOf, ComesBackLater;
    if m == 0 {
      NothingComesBack(intf);
    } else {
      var e := EchoRecord(rs[0], 0, false, intf, now);
      assert rs[..m][1..] == rs[1..][..m - 1];
      PrefixEchoIsLater(rs[1..], m - 1, intf, now);
      SeenFirst(rs[..m], intf, now);
      CompareWithEcho(rs[0], intf, now);
      LaterFrom(rs[..m], intf);
    }
  }

  lemma NothingComesBack(intf: InterfaceId)
    ensures !ComesBackLater([], intf)
  {
  }

  /**
   * So two such hosts whose queries go out in one packet each both give way, each time they meet, exactly if the
   * name comes back as it is and the first rdata that does not comes back later; otherwise neither does.
   */
  lemma TwinsGiveWayIff(a: Prober, b: Prober, name: bytes, atA: seq<nat>, atB: seq<nat>)
    requires ProbesFor(a, name) && ProbesFor(b, name) && Arrives(a.reg, name, b, atA) && Arrives(b.reg, name, a, atB)
    requires GoesWhole(QueryOf(a), a.path) && GoesWhole(QueryOf(b), b.path) && RecordsOf(a, name) == RecordsOf(b, name)
    requires NoneTooLong(RecordsOf(a, name))
    ensures var rs := RecordsOf(a, name);
            && (GivesWay(a.reg, name, b, atA) <==> Canonical(name) && ComesBackLater(rs, b.path.intf))
            && (GivesWay(b.reg, name, a, atB) <==> Canonical(name) && ComesBackLater(rs, a.path.intf))
            && (ComesBackLater(rs, a.path.intf) <==> ComesBackLater(rs, b.path.intf))
  {
    hide GivesWay, Canonical, ComesBackLater, Arriving, NoneTooLong, Sent, Query, GoesWhole;
    if Canonical(name) {
      ShowsAll(a, name);
      ShowsAll(b, name);
    }
    TwinGivesWayIff(a.reg, b, name, atA);
    TwinGivesWayIff(b.reg, a, name, atB);
    SameEcho(RecordsOf(a, name), a.path.intf, b.path.intf);
  }

  lemma SameEcho(rs: seq<Record>, x: InterfaceId, y: InterfaceId)
    ensures ComesBackLater(rs, x) <==> ComesBackLater(rs, y)
  {
    hide Dotted, CompareBytes;
    assert forall r: RData :: Payload(EchoRData(r, x)) == Payload(EchoRData(r, y));
    hide EchoRData, Payload;
  }

  /** With one SRV record behind records that hold no name: both give way exactly if the host comes back later. */
  lemma SameTargetIff(rs: seq<Record>, srv: Record, intf: InterfaceId)
    requires srv.rdata.Srv? && forall r <- rs :: r.IsAddress() || r.rdata.Txt?
    ensures ComesBackLater(rs + [srv], intf) <==> CompareBytes(srv.rdata.host, Dotted(srv.rdata.host)) == Less
  {
    hide Dotted, CompareBytes, Be16;
    var all := rs + [srv];
    forall i | 0 <= i < |rs|
      ensures Payload(all[i].rdata) == Payload(EchoRData(all[i].rdata, intf))
    {
      assert rs[i] in rs;
    }
    BytesAntisymmetric(srv.rdata.host, Dotted(srv.rdata.host));
    var fixed := Be16(srv.rdata.priority) + Be16(srv.rdata.weight) + Be16(srv.rdata.port);
    PrefixCompares(fixed, fixed, srv.rdata.host, Dotted(srv.rdata.host));
    BytesAntisymmetric(fixed, fixed);
    assert all[|rs|] == srv;
    forall p: bytes
      ensures CompareBytes(p, p) == Equal
    {
      BytesAntisymmetric(p, p);
    }
  }

  // ----- A host name that comes back later -----

  const LOCAL_DOMAIN: bytes := [46, 108, 111, 99, 97, 108, 46]

  /** What a service may have as its host name: it ends with `.local.` and has something in front of it. */
  predicate HostnameOk(hostname: bytes) {
    && |hostname| >= |LOCAL_DOMAIN| && hostname[|hostname| - |LOCAL_DOMAIN|..] == LOCAL_DOMAIN
    && hostname != LOCAL_DOMAIN && |hostname| <= 255
  }

  const LOCAL: bytes := [108, 111, 99, 97, 108]

  /** A host name with two dots behind its first label: `a..local.`, say. */
  function DoubleDot(first: bytes): bytes {
    first + [DOT] + LOCAL_DOMAIN
  }

  lemma ScanEnd(current: bytes)
    ensures Scan([], current) == Close(current)
  {
  }

  lemma DoubleDotLabels(first: bytes)
    requires Plain(first)
    ensures Labels(DoubleDot(first)) == [first, LOCAL]
  {
    hide Scan;
    var front := first + ([DOT] + ([DOT] + LOCAL));
    assert LOCAL_DOMAIN == [DOT] + LOCAL + [DOT];
    assert DoubleDot(first) == front + [DOT];
    assert (front + [DOT])[..|front|] == front;
    ScanPlain(first, [], [DOT] + ([DOT] + LOCAL));
    ScanDot([DOT] + LOCAL, first);
    ScanDot(LOCAL, []);
    ScanPlain(LOCAL, [], []);
    ScanEnd(LOCAL);
    assert [] + first == first && [] + LOCAL == LOCAL && LOCAL + [] == LOCAL;
  }

  /**
   * Registration accepts it, up to 247 bytes of the label. The empty label vanishes on the wire: the name comes back
   * with a single dot, which is later. It can be sent exactly if the label has at most 63 bytes.
   */
  lemma DoubleDotComesBackLater(first: bytes)
    requires Plain(first) && |first| <= 247
    ensures HostnameOk(DoubleDot(first)) && CompareBytes(DoubleDot(first), Dotted(DoubleDot(first))) == Less
    ensures NameTooLong(DoubleDot(first)) <==> |first| > MAX_LABEL_BYTES
  {
    hide Labels, CompareBytes;
    DoubleDotLabels(first);
    assert [first, LOCAL][1..] == [LOCAL] && [LOCAL][1..] == [];
    assert Text([LOCAL]) == LOCAL + [DOT] + Text([]);
    var front, dots, one: bytes := first + [DOT], [DOT] + LOCAL + [DOT], LOCAL + [DOT];
    assert Dotted(DoubleDot(first)) == front + one;
    assert DoubleDot(first) == front + dots;
    PrefixCompares(front, front, dots, one);
    BytesAntisymmetric(front, front);
    DotIsEarlier(LOCAL + [DOT], LOCAL[1..] + [DOT]);
    assert [46] + (LOCAL + [DOT]) == dots && [108] + (LOCAL[1..] + [DOT]) == one;
    LongLabel(first);
  }

  lemma LongLabel(first: bytes)
    requires Labels(DoubleDot(first)) == [first, LOCAL]
    ensures NameTooLong(DoubleDot(first)) <==> |first| > MAX_LABEL_BYTES
  {
    hide Labels;
    assert [first, LOCAL][0] == first;
  }

  /** So two instances of one service on hosts of that name give way to each other whenever they meet. */
  lemma TwinsOnDoubleDot(
    a: Prober, b: Prober, name: bytes, first: bytes, rs: seq<Record>, srv: Record, atA: seq<nat>, atB: seq<nat>)
    requires ProbesFor(a, name) && ProbesFor(b, name) && Arrives(a.reg, name, b, atA) && Arrives(b.reg, name, a, atB)
    requires GoesWhole(QueryOf(a), a.path) && GoesWhole(QueryOf(b), b.path) && Canonical(name)
    requires RecordsOf(a, name) == RecordsOf(b, name) == rs + [srv] && !NameTooLong(name)
    requires Plain(first) && |first| <= MAX_LABEL_BYTES
    requires srv.rdata.Srv? && srv.rdata.host == DoubleDot(first) && forall r <- rs :: r.IsAddress() || r.rdata.Txt?
    ensures GivesWay(a.reg, name, b, atA) && GivesWay(b.reg, name, a, atB)
  {
    hide GivesWay, Canonical, ComesBackLater, Sent, Query, GoesWhole, DoubleDot, NameTooLong, ProbesFor;
    DoubleDotComesBackLater(first);
    FiledUnder(a, name);
    assert forall r <- rs :: r in rs + [srv];
    assert srv in rs + [srv];
    TwinsGiveWayIff(a, b, name, atA, atB);
    SameTargetIff(rs, srv, a.path.intf);
  }

  lemma FiledUnder(peer: Prober, name: bytes)
    requires ProbesFor(peer, name)
    ensures name in peer.reg.probing && forall r <- RecordsOf(peer, name) :: r.GetName() == name
  {
  }

  // ----- Two such hosts -----

  /** A host that probes for a name with one record. */
  function Lone(name: bytes, r: Record, path: Path): Prober {
    Prober(RegistryState.Reg(map[name := ProbeState([r], {}, 0, 0)], map[], map[]), [name], path)
  }

  function SrvUnder(name: bytes, host: bytes): Record {
    Record(name, 1, true, NewLife(120, 0), None, Srv(0, 0, 80, host))
  }

  lemma OneLabel(own: bytes)
    requires Plain(own)
    ensures Labels(own + [DOT]) == [own] && Canonical(own + [DOT])
  {
    hide Labels;
    assert [own][1..] == [] && Text([own]) == own + [DOT] + Text([]);
    assert Text([own]) == own + [DOT];
    TextRoundTrip([own]);
  }

  /** With labels of at most 63 bytes, question and record take less than 300 bytes. */
  lemma LoneIsSmall(own: bytes, first: bytes)
    requires Plain(own) && Plain(first) && |own| <= MAX_LABEL_BYTES && |first| <= MAX_LABEL_BYTES
    ensures var name := own + [DOT];
            var q, r := Ask(Question(name, ANY, 1, false)), Tell(Authorities, SrvUnder(name, DoubleDot(first)), 0);
            && Size([q] + [r]) <= 300 && NamesFit(q) && NamesFit(r) && !TooLong(q) && !TooLong(r)
            && !NameTooLong(name)
  {
    hide Labels, EncodeName, Be16, Be32, DoubleDot, RecordFields;
    var name, host := own + [DOT], DoubleDot(first);
    OneLabel(own);
    DoubleDotLabels(first);
    assert [own][1..] == [] && [first, LOCAL][1..] == [LOCAL] && [LOCAL][1..] == [];
    assert PlainLength([own]) == 2 + |own| && PlainLength([LOCAL]) == 7 && PlainLength([first, LOCAL]) == 8 + |first|;
    NameLengthBound(name);
    NameLengthBound(host);
    var q, r := Ask(Question(name, ANY, 1, false)), Tell(Authorities, SrvUnder(name, host), 0);
    SingleSize(q);
    EncodeSnoc([q], r);
  }

  /**
   * All this happens: two hosts with a lone SRV record on a name with two dots, their query in one packet, whatever
   * the interface, give way to each other.
   */
  lemma TwinsHappen(own: bytes, first: bytes, path: Path, at: nat)
    requires Plain(own) && Plain(first) && |own| <= MAX_LABEL_BYTES && |first| <= MAX_LABEL_BYTES
    requires path.Legal() && path.maxSize >= 300 && at > 0
    ensures var name := own + [DOT];
            var host := Lone(name, SrvUnder(name, DoubleDot(first)), path);
            && ProbesFor(host, name) && Arrives(host.reg, name, host, [at]) && GoesWhole(QueryOf(host), path)
            && HostnameOk(DoubleDot(first)) && GivesWay(host.reg, name, host, [at])
  {
    var name := own + [DOT];
    var srv := SrvUnder(name, DoubleDot(first));
    var host := Lone(name, srv, path);
    hide GivesWay, Canonical, DoubleDot, Labels, CompareBytes, Dotted, ProbesFor, Arrives, GoesWhole;
    hide HostnameOk, NameTooLong, TooLong, NamesFit, Size, Plain;
    OneLabel(own);
    DoubleDotComesBackLater(first);
    LoneIsSmall(own, first);
    LoneProbes(name, srv, path, at);
    assert [] + [srv] == [srv];
    TwinsOnDoubleDot(host, host, name, first, [], srv, [at], [at]);
  }

  lemma LoneProbes(name: bytes, r: Record, path: Path, at: nat)
    requires r.GetName() == name && path.Legal() && at > 0
    requires var q, t := Ask(Question(name, ANY, 1, false)), Tell(Authorities, r, 0);
             Size([q] + [t]) <= path.maxSize && NamesFit(q) && NamesFit(t) && !TooLong(q) && !TooLong(t)
    ensures var host := Lone(name, r, path);
            ProbesFor(host, name) && Arrives(host.reg, name, host, [at]) && GoesWhole(QueryOf(host), path)
  {
    hide Size, TooLong, NamesFit, Outgoing.Items, Record.GetName, Short, QueryOf, Asking;
    var host := Lone(name, r, path);
    var q, t := Ask(Question(name, ANY, 1, false)), Tell(Authorities, r, 0);
    OneAskedItems(host, name);
    assert Tells(Authorities, [r]) == [t];
    BothShort(q, t);
    GoesWholeIs(QueryOf(host), path);
    LoneAsks(name, r, path);
  }

  lemma BothShort(q: Item, t: Item)
    requires !TooLong(q) && !TooLong(t)
    ensures Short([q] + [t]) == [q] + [t]
  {
    hide TooLong, Short;
    NothingIsShort();
    ShortLast([], q);
    ShortLast([q], t);
    assert [] + [q] == [q];
  }

  lemma LoneAsks(name: bytes, r: Record, path: Path)
    requires r.GetName() == name
    requires NamesFit(Ask(Question(name, ANY, 1, false))) && NamesFit(Tell(Authorities, r, 0))
    ensures var host := Lone(name, r, path); Asking(host.reg, host.asked, name)
  {
    hide NamesFit, Outgoing.Items, Record.GetName, Query;
    var host := Lone(name, r, path);
    OneAskedItems(host, name);
    assert QueryOf(host) == Query(host.reg, host.asked);
    assert Tells(Authorities, [r]) == [Tell(Authorities, r, 0)];
  }

  // ----- Records that do not arrive with the question -----

  /** Who can send no record of the name makes nobody give way. */
  lemma UnsendableBeatsNone(reg: Reg, name: bytes, peer: Prober, times: seq<nat>)
    requires ProbesFor(peer, name) && Arrives(reg, name, peer, times) && Sendable(RecordsOf(peer, name)) == []
    ensures !GivesWay(reg, name, peer, times)
  {
    hide GivesWay, Canonical, Seen, Yields, Sent, Sendable, Query, Arriving;
    GivesWayIff(reg, name, peer, times, 0);
    ArrivingIsPrefix(peer.reg, peer.asked, name, peer.path);
    NoneYields(reg.probing[name].records, peer.path.intf, 0);
  }

  /** On a host whose first label is too long neither of two twins gives way, for all that its name comes back later. */
  lemma LongTwinsStay(
    a: Prober, b: Prober, name: bytes, first: bytes, srv: Record, atA: seq<nat>, atB: seq<nat>)
    requires ProbesFor(a, name) && ProbesFor(b, name) && Arrives(a.reg, name, b, atA) && Arrives(b.reg, name, a, atB)
    requires RecordsOf(a, name) == RecordsOf(b, name) == [srv] && srv.rdata.Srv? && srv.rdata.host == DoubleDot(first)
    requires Plain(first) && MAX_LABEL_BYTES < |first| <= 247
    ensures ComesBackLater([srv], a.path.intf) && HostnameOk(srv.rdata.host)
    ensures !GivesWay(a.reg, name, b, atA) && !GivesWay(b.reg, name, a, atB)
  {
    hide GivesWay, ComesBackLater, Sent, Query, DoubleDot, Labels, CompareBytes, Dotted;
    DoubleDotComesBackLater(first);
    assert [] + [srv] == [srv];
    SameTargetIff([], srv, a.path.intf);
    SendableNone([srv]);
    UnsendableBeatsNone(a.reg, name, b, atA);
    UnsendableBeatsNone(b.reg, name, a, atB);
  }

  /**
   * What may happen where a label is too long: two hosts with the same two SRV records, all names of which come back as
   * they are, both give way, for each misses the first in the query of the other.
   */
  lemma TwinsMissingOneGiveWay(
    a: Prober, b: Prober, name: bytes, x: Record, y: Record, atA: seq<nat>, atB: seq<nat>)
    requires ProbesFor(a, name) && ProbesFor(b, name) && Arrives(a.reg, name, b, atA) && Arrives(b.reg, name, a, atB)
    requires GoesWhole(QueryOf(a), a.path) && GoesWhole(QueryOf(b), b.path) && Canonical(name)
    requires RecordsOf(a, name) == RecordsOf(b, name) == [x, y] && CanonicalRData(y.rdata) && Compare(x, y) == Less
    requires !CanGo(x) && CanGo(y)
    ensures GivesWay(a.reg, name, b, atA) && GivesWay(b.reg, name, a, atB)
  {
    MissingOneBeats(a.reg, name, b, x, y, atA);
    MissingOneBeats(b.reg, name, a, x, y, atB);
  }

  lemma MissingOneBeats(reg: Reg, name: bytes, peer: Prober, x: Record, y: Record, times: seq<nat>)
    requires ProbesFor(peer, name) && Arrives(reg, name, peer, times)
    requires GoesWhole(QueryOf(peer), peer.path) && Canonical(name)
    requires reg.probing[name].records == RecordsOf(peer, name) == [x, y]
    requires CanonicalRData(y.rdata) && Compare(x, y) == Less
    requires !CanGo(x) && CanGo(y)
    ensures GivesWay(reg, name, peer, times)
  {
    hide GivesWay, Canonical, CanonicalRData, Sent, Query, Arriving, GoesWhole, TooLong, Seen, Compare, ProbesFor;
    GivesWayIff(reg, name, peer, times, 0);
    assert Shown(peer, name) == Sendable([x, y]) by { ShowsSendable(peer, name); }
    assert [x, y][..1] == [x] && [x][..0] == [];
    assert Sendable([x]) == [];
    assert Sendable([x, y]) == [y];
    var intf := peer.path.intf;
    SeenKeys([y], intf, 0);
    YieldsAlike([x, y], [y], Seen([y], intf, 0));
    assert CompareLists([x, y], [y]) == Less;
  }

  lemma ShowsSendable(peer: Prober, name: bytes)
    requires ProbesFor(peer, name) && Canonical(name) && GoesWhole(QueryOf(peer), peer.path)
    ensures Shown(peer, name) == Sendable(RecordsOf(peer, name))
  {
    hide Dotted, Sent, Arriving, Query, GoesWhole, Sendable;
    WholeArrives(peer.reg, peer.asked, name, peer.path);
  }

  /** A query for one probe, whose first record finds no room beside the question. */
  ghost predicate FirstApart(peer: Prober, name: bytes)
    requires name in peer.reg.probing
  {
    && peer.asked == [name] && RecordsOf(peer, name) != []
    && var first := Tell(Authorities, RecordsOf(peer, name)[0], 0);
       !TooLong(first) && !Fits([Ask(Question(name, ANY, 1, false))], first, peer.path.maxSize)
  }

  /** Its question arrives alone, so that it makes nobody give way. */
  lemma FirstApartBeatsNone(reg: Reg, name: bytes, peer: Prober, times: seq<nat>)
    requires ProbesFor(peer, name) && Arrives(reg, name, peer, times) && FirstApart(peer, name)
    ensures !GivesWay(reg, name, peer, times)
  {
    hide GivesWay, Canonical, Seen, Yields, For, Sent, Query, Arriving, AskedIn, FirstApart, ProbesFor;
    GivesWayIff(reg, name, peer, times, 0);
    var sent := Sent(QueryOf(peer), peer.path);
    ArrivingIsHeld(sent, name);
    if k :| 0 <= k < |sent| && AskedIn(sent[k], name) && For(sent[k], name) == Arriving(sent, name) {
      QuestionAlone(peer, name, k);
      QuestionsForNone(sent[k], name);
    }
    NoneYields(reg.probing[name].records, peer.path.intf, 0);
  }

  lemma OneAskedItems(peer: Prober, name: bytes)
    requires peer.asked == [name] && name in peer.reg.probing
    ensures QueryOf(peer).Items() == [Ask(Question(name, ANY, 1, false))] + Tells(Authorities, RecordsOf(peer, name))
  {
    QueryItems(peer.reg, peer.asked);
    assert peer.asked[..0] == [];
    assert DnsRegistry.RecordsOf(peer.reg.probing, peer.asked) == RecordsOf(peer, name);
    assert DnsRegistry.Questions(peer.asked) == [Question(name, ANY, 1, false)];
  }

  lemma QuestionAlone(peer: Prober, name: bytes, k: nat)
    requires ProbesFor(peer, name) && FirstApart(peer, name)
    requires k < |Sent(QueryOf(peer), peer.path)| && AskedIn(Sent(QueryOf(peer), peer.path)[k], name)
    ensures forall i <- Sent(QueryOf(peer), peer.path)[k] :: i.Ask?
  {
    hide Kept, TooLong, Size, PlanOf, Query, Outgoing.Items, Dotted, NamesFit, ClosedFor, Short;
    var items, sent, lim := QueryOf(peer).Items(), Sent(QueryOf(peer), peer.path), peer.path.Lim();
    OneAskedItems(peer, name);
    QueryIsOne(peer, name);
    var ends := PackingIsExact(items, lim);
    assert StretchOk(items, sent, ends, k, lim);
    var lo, hi := PacketIsStretch(items, lim, k);
    LaterAreRecords(items, lo, hi);
    OnlyQuestion(items, sent[k], lo, hi, lim);
  }

  lemma LaterAreRecords(items: seq<Item>, lo: nat, end: nat)
    requires lo <= end <= |items| && forall i :: 1 <= i < |items| ==> items[i].Tell?
    ensures lo >= 1 ==> forall i <- items[lo..end] :: i.Tell?
  {
  }

  lemma ShortFromStart(items: seq<Item>, end: nat)
    requires 2 <= end <= |items| && !TooLong(items[0]) && !TooLong(items[1])
    ensures [items[0]] + [items[1]] <= Short(items[0..end])
  {
    hide TooLong;
    assert items[0..end] == ([items[0]] + [items[1]]) + items[2..end];
    ShortConcat([items[0]] + [items[1]], items[2..end]);
    ShortConcat([items[0]], [items[1]]);
    assert [items[0]][..0] == [] && [items[1]][..0] == [];
  }

  /** A packet that holds the question does not hold the first record, too. */
  lemma OnlyQuestion(items: seq<Item>, packet: seq<Item>, lo: nat, hi: nat, lim: Limits)
    requires |items| >= 2 && items[0].Ask? && items[1].Tell? && !TooLong(items[1])
    requires IsStretch(items, packet, lo, hi) && !Fits([items[0]], items[1], lim.max)
    requires packet != [] ==> SizeOk(packet, lim)
    requires exists i <- packet :: i.Ask?
    requires lo >= 1 ==> forall i <- items[lo..hi] :: i.Tell?
    requires forall i :: 1 <= i < |items| ==> items[i].Tell?
    ensures forall i <- packet :: i.Ask?
  {
    hide TooLong, Size, Short;
    ShortFrom(items[lo..hi]);
    var q: Item :| q in packet && q.Ask?;
    assert lo == 0 && q in items[0..hi] && q == items[0];
    if hi >= 2 {
      ShortFromStart(items, hi);
      assert packet[..2] == [items[0]] + [items[1]];
      SizeOfPrefix(packet, 2);
    }
  }

  /**
   * Two hosts that probe for one name, each with one TXT record that is longer than a packet may be: however they
   * differ, neither gives way, for the question arrives without the record.
   */
  lemma BigTextsDecideNothing(a: Prober, b: Prober, name: bytes, x: Record, y: Record, atA: seq<nat>, atB: seq<nat>)
    requires ProbesFor(a, name) && ProbesFor(b, name) && Arrives(a.reg, name, b, atA) && Arrives(b.reg, name, a, atB)
    requires a.asked == b.asked == [name] && RecordsOf(a, name) == [x] && RecordsOf(b, name) == [y]
    requires !NameTooLong(name)
    requires x.rdata.Txt? && a.path.maxSize < |x.rdata.text|
    requires y.rdata.Txt? && b.path.maxSize < |y.rdata.text|
    ensures !GivesWay(a.reg, name, b, atA) && !GivesWay(b.reg, name, a, atB)
  {
    hide GivesWay, FirstApart, Sent, Query, NameTooLong, ProbesFor;
    BigTextApart(a, name, x);
    BigTextApart(b, name, y);
    FirstApartBeatsNone(a.reg, name, b, atA);
    FirstApartBeatsNone(b.reg, name, a, atB);
  }

  lemma BigTextApart(peer: Prober, name: bytes, x: Record)
    requires ProbesFor(peer, name) && peer.asked == [name] && RecordsOf(peer, name) == [x] && !NameTooLong(name)
    requires x.rdata.Txt? && peer.path.maxSize < |x.rdata.text|
    ensures FirstApart(peer, name)
  {
    hide EncodeItem, EncodeName, Query, NameTooLong, PlainLength, Labels, Dotted;
    var q, item := Ask(Question(name, ANY, 1, false)), Tell(Authorities, x, 0);
    OneAskedItems(peer, name);
    assert QueryOf(peer).Items()[1] == item;
    assert x in RecordsOf(peer, name) && x.GetName() == name;
    QueryIsOne(peer, name);
    EncodeSnoc([q], item);
    var p := Encode([q]);
    ItemLength(p.names, |p.data|, item);
  }

  lemma DotIsEarlier(s: bytes, t: bytes)
    ensures CompareBytes([46] + s, [108] + t) == Less
  {
  }
}
