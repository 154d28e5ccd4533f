// The life of a cached record: expiry, refresh and the known answers made from it.
module RecordLife {
  import opened Bytes
  import opened DnsName
  import opened DnsRecords
  import opened PacketReader
  import opened RoundTrip

  /** RFC 6762 section 10.2, for a record that a cache flush applies to. */
  function Flushed(l: Life, now: nat): Life {
    if now > l.created + 1000 && l.expires > now + 1000 then l.(expires := now + 1000) else l
  }

  class DnsRecord {
    var ttl: u32
    var created: nat
    var expires: nat
    var refresh: nat

    ghost function Value(): Life
      reads this
    {
      Life(ttl, created, expires, refresh)
    }

    constructor (ttl: u32, now: nat)
      ensures Value() == NewLife(ttl, now)
    {
      this.ttl := ttl;
      created := now;
      refresh := ExpirationTime(now, ttl, 80);
      expires := ExpirationTime(now, ttl, 100);
    }

    method RefreshNoMore()
      modifies this
      ensures Value() == old(Value()).RefreshNoMore()
    {
      refresh := ExpirationTime(created, ttl, 100);
    }

    method RefreshMaybe(now: nat) returns (asks: bool)
      modifies this
      ensures asks == old(Value()).AsksRefresh(now)
      ensures Value() == old(Value()).RefreshMaybe(now)
    {
      if now >= expires || now < refresh {
        return false;
      }
      if refresh == ExpirationTime(created, ttl, 80) {
        refresh := ExpirationTime(created, ttl, 85);
      } else if refresh == ExpirationTime(created, ttl, 85) {
        refresh := ExpirationTime(created, ttl, 90);
      } else if refresh == ExpirationTime(created, ttl, 90) {
        refresh := ExpirationTime(created, ttl, 95);
      } else {
        RefreshNoMore();
      }
      return true;
    }

    method SetExpireSooner(at: nat)
      modifies this
      ensures Value() == old(Value()).SetExpireSooner(at)
    {
      if at < expires {
        expires := at;
      }
    }

    method ResetTtl(other: DnsRecord)
      requires other != this
      modifies this
      ensures Value() == old(Value()).ResetTtl(old(other.Value()))
    {
      ttl := other.ttl;
      created := other.created;
      expires := ExpirationTime(created, ttl, 100);
      refresh := if ttl > 1 then ExpirationTime(created, ttl, 80) else expires;
    }

    method UpdateTtl(now: nat)
      modifies this
      ensures Value() == old(Value()).UpdateTtl(now)
    {
      if now > created {
        var elapsed := now - created;
        ttl := (ttl - elapsed / 1000 % 0x1_0000_0000) % 0x1_0000_0000;
      }
    }
  }

  /** What can happen to a cached record between two resets of its TTL. */
  datatype Event =
    | Refresh(now: nat)
    | RefreshOnce(now: nat)
    | CacheFlush(now: nat)
    | ExpireSooner(at: nat)
    | NoMore

  function After(l: Life, e: Event): Life {
    match e
    case Refresh(now) => l.RefreshMaybe(now)
    case RefreshOnce(now) => l.RefreshOnce(now)
    case CacheFlush(now) => Flushed(l, now)
    case ExpireSooner(at) => l.SetExpireSooner(at)
    case NoMore => l.RefreshNoMore()
  }

  predicate Asks(l: Life, e: Event) {
    (e.Refresh? || e.RefreshOnce?) && l.AsksRefresh(e.now)
  }

  function Run(l: Life, events: seq<Event>): Life {
    if events == [] then l else After(Run(l, events[..|events| - 1]), events[|events| - 1])
  }

  function Asked(l: Life, events: seq<Event>): nat {
    if events == [] then 0
    else
      var front := events[..|events| - 1];
      Asked(l, front) + if Asks(Run(l, front), events[|events| - 1]) then 1 else 0
  }

  /** The record stands at step `step` of its schedule: 80, 85, 90, 95 or 100 percent. */
  ghost predicate AtStep(l: Life, step: nat) {
    && step <= 4 && l.refresh == ExpirationTime(l.created, l.ttl, 80 + 5 * step)
    && l.expires <= ExpirationTime(l.created, l.ttl, 100)
  }

  lemma Percent(created: nat, ttl: u32, p: nat)
    ensures ExpirationTime(created, ttl, p) == created + ttl * (p * 10)
    ensures forall q: nat :: p < q && ttl >= 1 ==> ExpirationTime(created, ttl, p) < ExpirationTime(created, ttl, q)
  {
    forall q: nat | p < q && ttl >= 1
      ensures ExpirationTime(created, ttl, p) < ExpirationTime(created, ttl, q)
    {
      assert ttl * q == ttl * p + ttl * (q - p);
      assert ttl * (q - p) >= 1;
    }
  }

  /** One event: a record that asks moves on by a step; no event brings it back or prolongs it. */
  lemma StepForward(l: Life, e: Event, step: nat) returns (step': nat)
    requires AtStep(l, step) && l.ttl >= 1
    ensures AtStep(After(l, e), step') && After(l, e).ttl == l.ttl && After(l, e).created == l.created
    ensures After(l, e).expires <= l.expires
    ensures Asks(l, e) ==> step < step' && (e.RefreshOnce? ==> step' == 4) && After(l, e).refresh > l.refresh
    ensures !Asks(l, e) ==> step' == step || (e.NoMore? && step' == 4)
    ensures e.Refresh? && Asks(l, e) ==> step' == step + 1
  {
    Percent(l.created, l.ttl, 80);
    Percent(l.created, l.ttl, 85);
    Percent(l.created, l.ttl, 90);
    Percent(l.created, l.ttl, 95);
    hide ExpirationTime;
    assert step == 0 || step == 1 || step == 2 || step == 3 || step == 4;
    step' := if Asks(l, e) && e.Refresh? then step + 1 else if Asks(l, e) || e.NoMore? then 4 else step;
  }

  /** How far a record is along its schedule after `events`. */
  lemma {:induction false} RunSteps(l: Life, events: seq<Event>, start: nat) returns (step: nat)
    requires AtStep(l, start) && l.ttl >= 1
    ensures AtStep(Run(l, events), step) && Run(l, events).ttl == l.ttl && Run(l, events).created == l.created
    ensures start + Asked(l, events) <= step
    ensures Run(l, events).expires <= l.expires
  {
    if events == [] {
      step := start;
    } else {
      var front := events[..|events| - 1];
      var before := RunSteps(l, front, start);
      step := StepForward(Run(l, front), events[|events| - 1], before);
    }
  }

  /**
   * RFC 6762 section 5.2, for a record that has just been created: whatever happens to it, it asks
   * for refresh at most four times, and it never outlives its TTL.
   */
  lemma RefreshSchedule(ttl: u32, created: nat, events: seq<Event>)
    requires ttl >= 1
    ensures var l := Run(NewLife(ttl, created), events);
            && Asked(NewLife(ttl, created), events) <= 4
            && l.expires <= created + 1000 * ttl
            && exists step: nat :: AtStep(l, step) && Asked(NewLife(ttl, created), events) <= step
  {
    var step := RunSteps(NewLife(ttl, created), events, 0);
  }

  /** The same after a reset; a record that is about to go, with a TTL of at most 1, never asks. */
  lemma RefreshScheduleAfterReset(l: Life, other: Life, events: seq<Event>)
    requires other.ttl >= 1
    ensures Asked(l.ResetTtl(other), events) <= if other.ttl > 1 then 4 else 0
    ensures Run(l.ResetTtl(other), events).expires <= other.created + 1000 * other.ttl
  {
    var step := RunSteps(l.ResetTtl(other), events, if other.ttl > 1 then 0 else 4);
  }

  // ----- A record that is only refreshed -----

  function Refreshes(times: seq<nat>): seq<Event> {
    seq(|times|, i requires 0 <= i < |times| => Refresh(times[i]))
  }

  lemma {:induction false} StepsAreAsks(l: Life, times: seq<nat>)
    requires AtStep(l, 0) && l.ttl >= 1
    ensures var r := Run(l, Refreshes(times));
            && AtStep(r, Asked(l, Refreshes(times)))
            && r.ttl == l.ttl && r.created == l.created && r.expires == l.expires
  {
    if times != [] {
      var n := |times| - 1;
      StepsAreAsks(l, times[..n]);
      assert Refreshes(times)[..n] == Refreshes(times[..n]);
      var step := StepForward(Run(l, Refreshes(times[..n])), Refresh(times[n]), Asked(l, Refreshes(times[..n])));
    }
  }

  /**
   * RFC 6762 section 5.2, from both sides: a record that has asked `n` times, at whatever times it was looked at, asks
   * at `now` exactly if it is alive, has asked less than four times, and 80, 85, 90 or 95 percent of its life,
   * by the number of its asks so far, are over.
   */
  lemma AsksIff(ttl: u32, created: nat, times: seq<nat>, now: nat)
    requires ttl >= 1
    ensures var l, events := NewLife(ttl, created), Refreshes(times);
            var n := Asked(l, events);
            && n <= 4
            && (Asks(Run(l, events), Refresh(now)) <==>
                  n < 4 && created + ttl * (800 + 50 * n) <= now < created + 1000 * ttl)
  {
    var l := NewLife(ttl, created);
    StepsAreAsks(l, times);
    AsksAtStep(Run(l, Refreshes(times)), Asked(l, Refreshes(times)), now);
  }

  lemma AsksAtStep(l: Life, step: nat, now: nat)
    requires AtStep(l, step) && l.ttl >= 1 && l.expires == l.created + 1000 * l.ttl
    ensures Asks(l, Refresh(now)) <==>
            step < 4 && l.created + l.ttl * (800 + 50 * step) <= now < l.created + 1000 * l.ttl
  {
    Percent(l.created, l.ttl, 80 + 5 * step);
    Percent(l.created, l.ttl, 100);
    assert l.ttl * ((80 + 5 * step) * 10) == l.ttl * (800 + 50 * step);
    hide ExpirationTime;
    if step == 4 { assert l.ttl * 1000 == l.ttl * (800 + 50 * step); }
  }

  /** The same after a reset, but for a record that is about to go. */
  lemma AsksAfterResetIff(l: Life, other: Life, times: seq<nat>, now: nat)
    requires other.ttl > 1
    ensures var r, events := l.ResetTtl(other), Refreshes(times);
            var n := Asked(r, events);
            && n <= 4
            && (Asks(Run(r, events), Refresh(now)) <==>
                  n < 4 && other.created + other.ttl * (800 + 50 * n) <= now < other.created + 1000 * other.ttl)
  {
    AsksIff(other.ttl, other.created, times, now);
    assert l.ResetTtl(other) == NewLife(other.ttl, other.created);
  }

  /** The times of the four steps. */
  function StepTimes(ttl: u32, created: nat): seq<nat> {
    [created + ttl * 800, created + ttl * 850, created + ttl * 900, created + ttl * 950]
  }

  /** A record that is looked at at 80, 85, 90 and 95 percent of its life asks each time. */
  lemma AsksAtEachStep(ttl: u32, created: nat, i: nat)
    requires ttl >= 1 && i < 4
    ensures var l, times := NewLife(ttl, created), StepTimes(ttl, created);
            Asked(l, Refreshes(times[..i])) == i && Asks(Run(l, Refreshes(times[..i])), Refresh(times[i]))
    decreases i
  {
    var l, times := NewLife(ttl, created), StepTimes(ttl, created);
    if i > 0 {
      AsksAtEachStep(ttl, created, i - 1);
      assert Refreshes(times[..i])[..i - 1] == Refreshes(times[..i - 1]);
    }
    AsksIff(ttl, created, times[..i], times[i]);
  }

  /** An address that a host resolver has asked for is never asked for again, until its TTL is reset. */
  lemma RefreshedOnce(ttl: u32, created: nat, events: seq<Event>, now: nat, more: seq<Event>)
    requires ttl >= 1 && Asks(Run(NewLife(ttl, created), events), RefreshOnce(now))
    ensures Asked(After(Run(NewLife(ttl, created), events), RefreshOnce(now)), more) == 0
  {
    var l := Run(NewLife(ttl, created), events);
    var step := RunSteps(NewLife(ttl, created), events, 0);
    var step' := StepForward(l, RefreshOnce(now), step);
    var last := RunSteps(After(l, RefreshOnce(now)), more, step');
  }

  /** Each refresh moves the next one strictly later, in any run. */
  lemma RefreshMovesOn(ttl: u32, created: nat, events: seq<Event>, e: Event)
    requires ttl >= 1
    ensures var l := Run(NewLife(ttl, created), events);
            && After(l, e).refresh >= l.refresh
            && (Asks(l, e) ==> After(l, e).refresh > l.refresh)
  {
    var step := RunSteps(NewLife(ttl, created), events, 0);
    var l := Run(NewLife(ttl, created), events);
    var step' := StepForward(l, e, step);
    Percent(l.created, l.ttl, 80 + 5 * step);
  }

  /** RFC 6762 section 7.1: a querier lists a shared record until half of its TTL is over. */
  predicate IsKnownAnswer(rec: Record, now: nat) {
    !rec.flush && !rec.life.HalflifePassed(now)
  }

  /**
   * A listed answer still has its TTL to show, without underflow; and that is more than half of the
   * original, as suppression wants, except at the very half-way point of an even TTL.
   */
  lemma KnownAnswerTtl(l: Life, now: nat)
    requires l.created <= now && !l.HalflifePassed(now)
    ensures l.UpdateTtl(now).ttl == l.ttl - (now - l.created) / 1000
    ensures l.UpdateTtl(now).ttl > l.ttl / 2 <==> !(now - l.created == 500 * l.ttl && l.ttl % 2 == 0)
  {
  }

  /**
   * Known-answer suppression of one record by its listed copy, over the wire. A responder announces the shared record
   * `mine`, a querier caches it, and lists it in a query at `now`: the copy suppresses the record exactly if both
   * names of the record come back from the wire as they are, and it is not the half-way point of an even TTL.
   */
  lemma KnownAnswerSuppression(
    mine: Record, created: nat, now: nat, atQuerier: InterfaceId, atMe: InterfaceId, later: nat)
    requires mine.rdata.Pointer? && !mine.flush && mine.newName == None && mine.life.ttl >= 1 && created <= now
    ensures var cached := EchoRecord(mine, 0, true, atQuerier, created);
            var listed := cached.(life := cached.life.UpdateTtl(now));
            var arrived := EchoRecord(listed, 0, false, atMe, later);
            IsKnownAnswer(cached, now) ==>
              (mine.SuppressedByAnswer(arrived) <==>
                 && Canonical(mine.name) && Canonical(mine.rdata.alias)
                 && !(now - created == 500 * mine.life.ttl && mine.life.ttl % 2 == 0))
    ensures now - created < 500 * mine.life.ttl ==> IsKnownAnswer(EchoRecord(mine, 0, true, atQuerier, created), now)
  {
    DottedTwice(mine.name);
    DottedTwice(mine.rdata.alias);
    hide Dotted;
    var cached := EchoRecord(mine, 0, true, atQuerier, created);
    if IsKnownAnswer(cached, now) {
      KnownAnswerTtl(cached.life, now);
    }
  }
}
