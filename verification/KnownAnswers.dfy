// Known answers in a query that may take several packets (RFC 6762 section 7).
module KnownAnswers {
  import opened Bytes
  import opened DnsName
  import opened DnsRecords
  import opened Wire
  import opened PacketWriter
  import opened Encoding
  import opened PacketBuilder
  import opened PacketReader
  import opened RoundTrip
  import opened MessageRoundTrip
  import opened ProbeQueries
  import opened RecordLife

  /** A query for shared records, with the answers that the querier knows. */
  function KnownQuery(name: bytes, listed: seq<Record>): Outgoing {
    Outgoing(0, 0, true, [Question(name, PTR, 1, false)],
             seq(|listed|, i requires 0 <= i < |listed| => (listed[i], 0)), [], [])
  }

  /** A responder looks only at the answers in the packet that it handles: it keeps `mine` to itself. */
  ghost predicate Silent(mine: Record, d: bytes, intf: InterfaceId, now: nat) {
    match Parse(d, intf, now)
    case Got(m, _) => exists a <- m.answers :: mine.SuppressedByAnswer(a)
    case _ => false
  }

  lemma ListedItems(name: bytes, listed: seq<Record>)
    ensures forall i <- KnownQuery(name, listed).Items() ::
              i.Ask? || exists j :: 0 <= j < |listed| && i == Tell(Answers, listed[j], 0)
  {
    var out := KnownQuery(name, listed);
    var answers := Timed(out.answers);
    forall i <- answers
      ensures exists j :: 0 <= j < |listed| && i == Tell(Answers, listed[j], 0)
    {
      var j :| 0 <= j < |answers| && answers[j] == i;
      assert i == Tell(Answers, listed[j], 0);
    }
    assert out.Items() == PacketBuilder.Asks(out.questions) + answers;
  }

  /** Exactly the answers in the packet count. */
  lemma SilentOnPacketIff(mine: Record, name: bytes, listed: seq<Record>, path: Path, k: nat, now: nat)
    requires path.Legal() && forall i <- KnownQuery(name, listed).Items() :: NamesFit(i)
    requires k < |Sent(KnownQuery(name, listed), path)|
    ensures Silent(mine, OnWire(KnownQuery(name, listed), path)[k], path.intf, now) <==>
            exists j :: 0 <= j < |listed| && Tell(Answers, listed[j], 0) in Sent(KnownQuery(name, listed), path)[k]
                        && mine.SuppressedByAnswer(EchoRecord(listed[j], 0, false, path.intf, now))
  {
    hide Sealed, Parse, Of, EchoQuestions, EchoRecord, Outgoing.Items, NamesFit, Record.SuppressedByAnswer, KnownQuery;
    hide Packing.Packets;
    var out := KnownQuery(name, listed);
    var items, flags := Sent(out, path)[k], FlagsOf(out, k, |Sent(out, path)|);
    KnownFlags(name, listed);
    MessageReadsBack(out, path.maxSize, path.isIpv4, path.intf, now);
    FlagsOfQuery(out, k, |Sent(out, path)|);
    PacketItems(out, path, k);
    ListedItems(name, listed);
    var of := Of(items, Answers);
    var answers := EchoRecords(of, false, path.intf, now);
    if a :| a in answers && mine.SuppressedByAnswer(a) {
      var n :| 0 <= n < |answers| && answers[n] == a;
      assert of[n] in of && of[n] in items;
      var j :| 0 <= j < |listed| && of[n] == Tell(Answers, listed[j], 0);
    }
    if j :| 0 <= j < |listed| && Tell(Answers, listed[j], 0) in items
            && mine.SuppressedByAnswer(EchoRecord(listed[j], 0, false, path.intf, now)) {
      OfHas(items, Answers, Tell(Answers, listed[j], 0));
      var n :| 0 <= n < |of| && of[n] == Tell(Answers, listed[j], 0);
      assert answers[n] in answers;
    }
  }

  lemma KnownFlags(name: bytes, listed: seq<Record>)
    ensures KnownQuery(name, listed).flags == 0
  {
  }

  /**
   * Known-answer suppression for a whole query. A querier lists the record `mine`, cached at `created`, among others
   * that do not suppress it: the responder stays silent about it exactly if the listed copy is in the very packet
   * that holds the question, its names come back as they are, and it is not the half-way point of an even TTL.
   */
  lemma SilentIff(
    mine: Record, created: nat, now: nat, name: bytes, listed: seq<Record>, p: nat, atQuerier: InterfaceId, path: Path,
    k: nat, later: nat)
    requires mine.rdata.Pointer? && !mine.flush && mine.newName == None && mine.life.ttl >= 1 && created <= now
    requires path.Legal() && forall i <- KnownQuery(name, listed).Items() :: NamesFit(i)
    requires k < |Sent(KnownQuery(name, listed), path)| && p < |listed|
    requires var cached := EchoRecord(mine, 0, true, atQuerier, created);
             IsKnownAnswer(cached, now) && listed[p] == cached.(life := cached.life.UpdateTtl(now))
    requires forall j :: 0 <= j < |listed| && j != p ==>
               !mine.SuppressedByAnswer(EchoRecord(listed[j], 0, false, path.intf, later))
    ensures Silent(mine, OnWire(KnownQuery(name, listed), path)[k], path.intf, later) <==>
            && Tell(Answers, listed[p], 0) in Sent(KnownQuery(name, listed), path)[k]
            && Canonical(mine.name) && Canonical(mine.rdata.alias)
            && !(now - created == 500 * mine.life.ttl && mine.life.ttl % 2 == 0)
  {
    hide Silent, Sent, OnWire, KnownQuery, EchoRecord, NamesFit, Canonical, Record.SuppressedByAnswer, IsKnownAnswer;
    SilentOnPacketIff(mine, name, listed, path, k, later);
    KnownAnswerSuppression(mine, created, now, atQuerier, path.intf, later);
  }
}
