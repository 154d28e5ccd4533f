// The daemon's main loop: it never sleeps past a deadline.
module Daemon {
  import opened Bytes
  import opened DnsName
  import opened DnsRecords
  import opened CacheState
  import opened DnsCache
  import opened RunLoop
  import opened HostQueries

  /** What comes in through the sockets. */
  datatype Event =
    | Response(records: seq<Record>, src: InterfaceId, isForUs: bool, resolved: set<bytes>, unresolved: seq<bytes>)
    | QueryWithAnswers(
        records: seq<Record>, src: InterfaceId, isForUs: bool, resolved: set<bytes>, unresolved: seq<bytes>)
    | Query(answers: seq<Record>, ifIndex: u32, isIpv4: bool)
    | InterfaceDown(id: InterfaceId)
    | AddrsDisabled(index: u32, v4: bool, v6: bool)

  /** Removes what `keep` does not hold of, one at a time. */
  method Retain(before: seq<ReRun>, keep: ReRun -> bool) returns (rs: seq<ReRun>)
    ensures rs == Filter(before, keep)
  {
    hide Retaining;
    rs := before;
    ghost var k := 0;
    var i := 0;
    RetainStart(before, keep);
    while i < |rs|
      invariant Retaining(before, k, i, rs, keep) && k <= |before| && |rs| - i == |before| - k
      decreases |rs| - i
    {
      RetainNext(before, k, i, rs, keep);
      if keep(rs[i]) {
        i := i + 1;
      } else {
        rs := rs[..i] + rs[i + 1..];
      }
      k := k + 1;
    }
    RetainEnd(before, k, i, rs, keep);
  }

  /** `k` of the retransmissions `before` have been looked at. */
  ghost predicate Retaining(before: seq<ReRun>, k: nat, i: nat, rs: seq<ReRun>, keep: ReRun -> bool) {
    && k <= |before|
    && var kept := Filter(before[..k], keep);
       i == |kept| && rs == kept + before[k..]
  }

  lemma RetainStart(before: seq<ReRun>, keep: ReRun -> bool)
    ensures Retaining(before, 0, 0, before, keep)
  {
    assert [] + before[0..] == before;
  }

  lemma RetainNext(before: seq<ReRun>, k: nat, i: nat, rs: seq<ReRun>, keep: ReRun -> bool)
    requires Retaining(before, k, i, rs, keep) && i < |rs|
    ensures k < |before|
    ensures if keep(rs[i]) then Retaining(before, k + 1, i + 1, rs, keep)
            else Retaining(before, k + 1, i, rs[..i] + rs[i + 1..], keep)
  {
    hide Filter;
    var kept := Filter(before[..k], keep);
    AtTheSeam(kept, before, k, rs);
    FilterStep(before, k, keep);
  }

  lemma RetainEnd(before: seq<ReRun>, k: nat, i: nat, rs: seq<ReRun>, keep: ReRun -> bool)
    requires Retaining(before, k, i, rs, keep) && i == |rs|
    ensures rs == Filter(before, keep)
  {
    hide Filter;
    assert k == |before| && before[..k] == before;
  }

  class Daemon {
    var timers: multiset<nat>
    var retransmissions: seq<ReRun>
    var delayedResponses: seq<DelayedResponse>
    var hostnameResolvers: map<bytes, Option<nat>>
    var serviceQueriers: set<bytes>
    var pendingResolves: set<bytes>
    var reran: seq<ReRun>
    var responded: seq<DelayedResponse>
    var clock: nat
    ghost var lastPop: nat
    const cache: DnsCache

    constructor ()
      ensures InTime() && fresh(cache)
    {
      timers, retransmissions, delayedResponses := multiset{}, [], [];
      hostnameResolvers, serviceQueriers, pendingResolves := map[], {}, {};
      reran, responded, clock, lastPop := [], [], 0, 0;
      cache := new DnsCache();
    }

    /** Deadlines that have passed since the last pop may have lost their timer; all others have one. */
    ghost predicate Timed()
      reads this`timers, this`retransmissions, this`delayedResponses, this`hostnameResolvers, this`clock,
            this`lastPop, cache
    {
      && lastPop <= clock
      && QueueTimed(retransmissions, timers, lastPop)
      && DelayedTimed(delayedResponses, timers, lastPop)
      && ResolversTimed(hostnameResolvers, timers, lastPop)
      && CacheTimed(cache.Value(), timers, lastPop)
    }

    /** At the head of an iteration, what waits in a queue has a timer in any case. */
    ghost predicate InTime()
      reads this, cache
    {
      && Timed()
      && (forall r <- retransmissions :: r.nextTime in timers)
      && (forall d <- delayedResponses :: d.nextTime in timers)
      && (forall h <- hostnameResolvers :: hostnameResolvers[h].Some? ==> hostnameResolvers[h].value in timers)
    }

    ghost predicate IsDeadline(d: nat)
      reads this`retransmissions, this`delayedResponses, this`hostnameResolvers, this`lastPop, cache
    {
      || (exists r <- retransmissions :: r.nextTime == d)
      || (exists r <- delayedResponses :: r.nextTime == d)
      || (exists h <- hostnameResolvers :: hostnameResolvers[h] == Some(d))
      || (d > lastPop && exists kind: Kind, key: bytes, e ::
            e in cache.Value().BucketOf(kind, key) && e.rec.life.expires == d)
    }

    lemma DeadlinesHaveTimers(d: nat)
      requires InTime() && IsDeadline(d)
      ensures d in timers
    {
      if d > lastPop && exists kind: Kind, key: bytes, e ::
           e in cache.Value().BucketOf(kind, key) && e.rec.life.expires == d {
        var kind: Kind, key: bytes, e :| e in cache.Value().BucketOf(kind, key) && e.rec.life.expires == d;
        assert BucketTimed(cache.Value().BucketOf(kind, key), timers, lastPop);
      }
    }

    // ----- Clock and timers -----

    method PeekEarliestTimer() returns (r: Option<nat>)
      ensures r == None <==> timers == multiset{}
      ensures r.Some? ==> r.value in timers && forall t <- timers :: r.value <= t
    {
      if timers == multiset{} {
        return None;
      }
      ghost var first := Earliest(timers);
      var v: nat :| v in timers && forall t <- timers :: v <= t;
      return Some(v);
    }

    /** How long to sleep at most: to the first deadline, or one millisecond if that has passed. */
    method PollTimeout(now: nat) returns (timeout: Option<nat>)
      requires InTime()
      ensures forall d: nat :: IsDeadline(d) ==>
                timeout.Some? && now + timeout.value <= (if d > now then d else now + 1)
    {
      hide Timed;
      var earliest := PeekEarliestTimer();
      match earliest {
        case None => timeout := None;
        case Some(timer) => timeout := Some(if timer > now then timer - now else 1);
      }
      forall d: nat | IsDeadline(d)
        ensures timeout.Some? && now + timeout.value <= (if d > now then d else now + 1)
      {
        DeadlinesHaveTimers(d);
      }
    }

    method PopTimersTill(now: nat)
      requires Timed() && now == clock
      modifies this`timers, this`lastPop
      ensures Timed() && lastPop == now
      ensures forall t: nat :: timers[t] == if t <= now then 0 else old(timers)[t]
    {
      hide CacheTimed;
      ghost var before := timers;
      while true
        invariant timers <= before && lastPop == old(lastPop)
        invariant forall t: nat :: t > now ==> timers[t] == before[t]
        decreases |timers|
      {
        var earliest := PeekEarliestTimer();
        if earliest.None? || earliest.value > now {
          break;
        }
        timers := timers - multiset{earliest.value};
      }
      PopTimed(cache.Value(), before, timers, lastPop, now);
      lastPop := now;
    }

    ghost predicate ResolversIn()
      reads this`hostnameResolvers, this`timers
    {
      TimeoutsIn(hostnameResolvers, timers)
    }

    /** Time goes on, and timers are only added. */
    twostate predicate GoesOn()
      reads this
    {
      && lastPop == old(lastPop) && clock >= old(clock) && old(timers) <= timers
      && (old(ResolversIn()) ==> ResolversIn())
    }

    /** The host resolvers and the queries for them. */
    ghost function HostView(): HostState
      reads this`hostnameResolvers, this`retransmissions
    {
      HostState(hostnameResolvers, HostsOf(retransmissions))
    }

    twostate predicate HostsKept()
      reads this`hostnameResolvers, this`retransmissions
    {
      HostView() == old(HostView())
    }

    twostate lemma StillTimed()
      requires old(Timed()) && GoesOn() && cache.Value() == old(cache.Value())
      requires forall r <- retransmissions ::
                 r in old(retransmissions) || (r.nextTime in timers && r.command.Repeats())
      requires forall d <- delayedResponses :: d in old(delayedResponses) || d.nextTime in timers
      requires forall h <- hostnameResolvers ::
                 (h in old(hostnameResolvers) && hostnameResolvers[h] == old(hostnameResolvers)[h])
                 || (hostnameResolvers[h].Some? ==> hostnameResolvers[h].value in timers)
      ensures Timed()
    {
      MoreTimers(cache.Value(), old(timers), timers, lastPop);
    }

    /** Some time, not before the last one. */
    method Now() returns (t: nat)
      requires Timed()
      modifies this`clock
      ensures Timed() && t == clock >= old(clock)
    {
      t :| t >= clock;
      clock := t;
    }

    method AddTimer(nextTime: nat)
      requires Timed()
      modifies this`timers
      ensures Timed() && GoesOn()
      ensures timers == old(timers) + multiset{nextTime}
    {
      hide CacheTimed;
      timers := timers + multiset{nextTime};
      StillTimed();
    }

    method AddRetransmission(nextTime: nat, command: Command)
      requires Timed() && command.Repeats()
      modifies this`retransmissions, this`timers
      ensures Timed() && GoesOn()
      ensures retransmissions == old(retransmissions) + [ReRun(nextTime, command)]
      ensures timers == old(timers) + multiset{nextTime}
      ensures !command.ResolveHostname? ==> HostsKept()
    {
      hide CacheTimed, HostsOf;
      AddTimer(nextTime);
      HostsMore(retransmissions, ReRun(nextTime, command));
      retransmissions := retransmissions + [ReRun(nextTime, command)];
      StillTimed();
    }

    // ----- Commands -----

    /** The first call sends nothing but waits for a moment; each later one doubles the interval. */
    method ExecBrowse(repeating: bool, ty: bytes, nextDelay: nat, cacheOnly: bool) returns (listening: bool)
      requires Timed() && (repeating ==> 1 <= nextDelay <= MAX_DELAY)
      modifies this`retransmissions, this`timers, this`serviceQueriers, this`clock
      ensures Timed() && GoesOn()
      ensures HostsKept()
      ensures serviceQueriers == old(serviceQueriers) + if listening && !repeating then {ty} else {}
      ensures if listening && !cacheOnly then
                if repeating then
                  OneMore(old(retransmissions), retransmissions, Browse(ty, NextDelay(nextDelay), cacheOnly),
                          clock + nextDelay * 1000, clock + nextDelay * 1000)
                else OneMore(old(retransmissions), retransmissions, Browse(ty, 1, cacheOnly), clock + 10, clock + 49)
              else retransmissions == old(retransmissions)
    {
      hide Timed, ResolversIn, HostsOf;
      listening := *;
      if !listening {
        return;
      }
      var now := Now();
      if !repeating {
        serviceQueriers := serviceQueriers + {ty};
      }
      if !cacheOnly {
        if !repeating {
          var jitter: nat :| 10 <= jitter < 50;
          AddRetransmission(now + jitter, Browse(ty, 1, cacheOnly));
        } else {
          AddRetransmission(now + nextDelay * 1000, Browse(ty, NextDelay(nextDelay), cacheOnly));
        }
      }
    }

    method AddHostnameResolver(hostname: bytes, timeout: Option<nat>)
      requires Timed()
      modifies this`hostnameResolvers, this`timers, this`clock
      ensures Timed() && GoesOn()
      ensures hostnameResolvers == old(hostnameResolvers)[
                Lower(hostname) := if timeout.Some? then Some(clock + timeout.value) else None]
    {
      hide Lower, QueueTimed, DelayedTimed, ResolversTimed, CacheTimed, TimeoutsIn;
      var now := Now();
      var realTimeout := if timeout.Some? then Some(now + timeout.value) else None;
      var key := Lower(hostname);
      hostnameResolvers := hostnameResolvers[key := realTimeout];
      if realTimeout.Some? {
        timers := timers + multiset{realTimeout.value};
      }
      MoreForQueues(retransmissions, delayedResponses, old(timers), timers, lastPop);
      OneMoreResolver(old(hostnameResolvers), old(timers), lastPop, key, realTimeout, timers);
      MoreTimers(cache.Value(), old(timers), timers, lastPop);
    }

    method ExecResolveHostname(repeating: bool, hostname: bytes, nextDelay: nat, timeout: Option<nat>)
      returns (listening: bool)
      requires Timed() && (repeating ==> 1 <= nextDelay <= MAX_DELAY)
      modifies this`retransmissions, this`timers, this`hostnameResolvers, this`clock
      ensures Timed() && GoesOn()
      ensures hostnameResolvers ==
              if listening && !repeating then
                old(hostnameResolvers)[Lower(hostname) := if timeout.Some? then Some(clock + timeout.value) else None]
              else old(hostnameResolvers)
      ensures var again := clock + nextDelay * 1000;
              if listening && !repeating then
                OneMore(old(retransmissions), retransmissions, ResolveHostname(hostname, 1, None), old(clock) + 10,
                        clock + 49)
              else if listening && QueriesHostAgain(hostnameResolvers, hostname, again) then
                OneMore(old(retransmissions), retransmissions, ResolveHostname(hostname, NextDelay(nextDelay), None),
                        again, again)
              else retransmissions == old(retransmissions)
    {
      hide Timed, ResolversIn, Lower;
      listening := *;
      if !listening {
        return;
      }
      var now := Now();
      if !repeating {
        AddHostnameResolver(hostname, timeout);
        var jitter: nat :| 10 <= jitter < 50;
        AddRetransmission(now + jitter, ResolveHostname(hostname, 1, None));
      } else {
        var nextTime := now + nextDelay * 1000;
        if QueriesHostAgain(hostnameResolvers, hostname, nextTime) {
          AddRetransmission(nextTime, ResolveHostname(hostname, NextDelay(nextDelay), None));
        }
      }
    }

    /** A service whose SRV or address records are missing is asked for, five times at most. */
    method ExecResolve(instance: bytes, tryCount: nat)
      requires Timed() && tryCount >= 1
      modifies this`retransmissions, this`timers, this`clock
      ensures Timed() && GoesOn()
      ensures HostsKept()
      ensures if Unresolved(cache.Value(), instance) && tryCount < MAX_RESOLVE_TRIES then
                OneMore(old(retransmissions), retransmissions, Resolve(instance, tryCount + 1),
                        clock + ResolveGap(tryCount), clock + ResolveGap(tryCount))
              else retransmissions == old(retransmissions)
    {
      hide Timed, ResolversIn, Lower, DotCount, HostsOf;
      var pendingQuery := cache.QueryUnresolved(instance);
      if pendingQuery && tryCount < MAX_RESOLVE_TRIES {
        var now := Now();
        AddRetransmission(now + ResolveGap(tryCount), Resolve(instance, tryCount + 1));
      }
    }

    method AddPendingResolve(instance: bytes)
      requires Timed()
      modifies this`retransmissions, this`timers, this`pendingResolves, this`clock
      ensures Timed() && GoesOn() && pendingResolves == old(pendingResolves) + {instance}
      ensures HostsKept()
      ensures if instance in old(pendingResolves) then retransmissions == old(retransmissions)
              else
                OneMore(old(retransmissions), retransmissions, Resolve(instance, 1), clock + RESOLVE_WAIT,
                        clock + RESOLVE_WAIT)
    {
      hide Timed, ResolversIn, HostsOf;
      if instance !in pendingResolves {
        var now := Now();
        AddRetransmission(now + RESOLVE_WAIT, Resolve(instance, 1));
        pendingResolves := pendingResolves + {instance};
      }
    }

    /** Instances that are complete now need no more queries; for the others, one is planned. */
    method ResolveUpdated(resolved: set<bytes>, unresolved: seq<bytes>)
      requires Timed()
      modifies this`retransmissions, this`timers, this`pendingResolves, this`clock
      ensures Timed() && GoesOn()
      ensures HostsKept()
      ensures Grown(old(retransmissions), retransmissions, old(clock))
      ensures pendingResolves == old(pendingResolves) - resolved + set i | i in unresolved
    {
      hide Timed, ResolversIn, HostsOf;
      pendingResolves := pendingResolves - resolved;
      for i := 0 to |unresolved|
        invariant Timed() && GoesOn() && HostsKept()
        invariant Grown(old(retransmissions), retransmissions, old(clock))
        invariant pendingResolves == old(pendingResolves) - resolved + set u | u in unresolved[..i]
      {
        AddPendingResolve(unresolved[i]);
        assert unresolved[..i + 1] == unresolved[..i] + [unresolved[i]];
      }
      assert unresolved[..|unresolved|] == unresolved;
    }

    /** The queries to verify an instance; its records and addresses are cut to the deadline. */
    method VerifyBy(instance: bytes, expireAt: nat) returns (queries: seq<(bytes, RRType)>)
      requires Timed()
      modifies this`timers, cache
      ensures Timed() && GoesOn()
      ensures cache.Value() == Verified(old(cache.Value()), instance, expireAt)
      ensures queries != [] <==> instance in old(cache.srv)
    {
      hide CacheTimed, Verified, VerifyQueries;
      queries := cache.ServiceVerifyQueries(instance, Some(expireAt));
      if queries != [] {
        VerifiedTimed(old(cache.Value()), instance, expireAt, timers, lastPop);
        timers := timers + multiset{expireAt};
      } else {
        NothingVerified(old(cache.Value()), instance, expireAt);
      }
    }

    /** RFC 6762 section 10.4: asks twice; what does not answer in time is gone at the deadline. */
    method ExecVerify(instance: bytes, patience: nat, repeating: bool)
      requires Timed()
      modifies this`retransmissions, this`timers, this`clock, cache
      ensures Timed() && GoesOn()
      ensures HostsKept()
      ensures cache.Value() == if repeating then old(cache.Value())
                               else Verified(old(cache.Value()), instance, clock + patience)
      ensures if !repeating && instance in old(cache.srv) then
                OneMore(old(retransmissions), retransmissions, Verify(instance, patience), clock + 1000, clock + 1000)
              else retransmissions == old(retransmissions)
    {
      hide Timed, ResolversIn, Verified, VerifyQueries, HostsOf;
      var now := Now();
      if repeating {
        return;
      }
      var queries := VerifyBy(instance, now + patience);
      if queries != [] {
        AddRetransmission(now + 1000, Verify(instance, patience));
      }
    }

    method ExecRegister(fullname: bytes, ifIndexes: seq<u32>)
      requires Timed()
      modifies this`retransmissions, this`timers, this`clock
      ensures Timed() && GoesOn()
      ensures HostsKept()
      ensures Grown(old(retransmissions), retransmissions, old(clock))
      ensures exists at :: clock + 1100 <= at < clock + 1150
                           && retransmissions == old(retransmissions) + Resends(fullname, ifIndexes, at)
    {
      hide Timed, ResolversIn, HostsOf;
      var now := Now();
      var jitter: nat :| jitter < 50;
      var nextTime := now + 1100 + jitter;
      for i := 0 to |ifIndexes|
        invariant Timed() && GoesOn() && HostsKept()
        invariant Grown(old(retransmissions), retransmissions, old(clock))
        invariant retransmissions == old(retransmissions) + Resends(fullname, ifIndexes[..i], nextTime) && clock == now
      {
        AddRetransmission(nextTime, RegisterResend(fullname, ifIndexes[i]));
      }
      assert ifIndexes[..|ifIndexes|] == ifIndexes;
    }

    /** A goodbye packet is sent once more, in case it got lost. */
    method ExecUnregister(packets: seq<bytes>)
      requires Timed()
      modifies this`retransmissions, this`timers, this`clock
      ensures Timed() && GoesOn()
      ensures HostsKept()
      ensures Grown(old(retransmissions), retransmissions, old(clock))
      ensures |retransmissions| <= |old(retransmissions)| + |packets|
    {
      hide Timed, ResolversIn, HostsOf;
      for i := 0 to |packets|
        invariant Timed() && GoesOn() && HostsKept()
        invariant Grown(old(retransmissions), retransmissions, old(clock))
        invariant |retransmissions| <= |old(retransmissions)| + i
      {
        if packets[i] != [] {
          var now := Now();
          AddRetransmission(now + 120, UnregisterResend(packets[i]));
        }
      }
    }

    method RetainRetransmissions(keep: ReRun -> bool)
      requires Timed()
      modifies this`retransmissions
      ensures Timed()
      ensures retransmissions == Filter(old(retransmissions), keep)
    {
      hide CacheTimed, Filter;
      retransmissions := Retain(retransmissions, keep);
      StillTimed();
    }

    method ExecStopBrowse(ty: bytes)
      requires Timed()
      modifies this`retransmissions, this`serviceQueriers, this`pendingResolves, this`clock
      ensures Timed() && GoesOn() && serviceQueriers == old(serviceQueriers) - {ty}
      ensures HostsKept()
      ensures var live := LiveInstances(cache.ptr, ty, clock);
              if ty in old(serviceQueriers) then
                && retransmissions == Filter(Filter(old(retransmissions), NotBrowse(ty)), NotResolve(live))
                && pendingResolves == old(pendingResolves) - live
              else retransmissions == old(retransmissions) && pendingResolves == old(pendingResolves)
    {
      hide Timed, Filter, LiveInstances, ResolversIn, HostsOf;
      if ty in serviceQueriers {
        serviceQueriers := serviceQueriers - {ty};
        HostsStay(retransmissions, NotBrowse(ty));
        RetainRetransmissions(NotBrowse(ty));
        var now := Now();
        var instances := LiveInstances(cache.ptr, ty, now);
        HostsStay(retransmissions, NotResolve(instances));
        RetainRetransmissions(NotResolve(instances));
        pendingResolves := pendingResolves - instances;
      }
    }

    /** Only retransmissions that resolve an instance of this very name are removed with a host resolver. */
    method ExecStopResolveHostname(hostname: bytes)
      requires Timed()
      modifies this`retransmissions, this`hostnameResolvers
      ensures Timed() && GoesOn() && hostnameResolvers == old(hostnameResolvers) - {hostname}
      ensures retransmissions == if hostname in old(hostnameResolvers) then
                                   Filter(old(retransmissions), NotResolve({hostname}))
                                 else old(retransmissions)
      ensures HostView() == HostState(old(hostnameResolvers) - {hostname}, HostsOf(old(retransmissions)))
    {
      hide CacheTimed, Filter, HostsOf;
      if hostname in hostnameResolvers {
        hostnameResolvers := hostnameResolvers - {hostname};
        StillTimed();
        HostsStay(retransmissions, NotResolve({hostname}));
        RetainRetransmissions(NotResolve({hostname}));
      }
    }

    /**
     * A command from the channel, or one whose time has come again. `hosts` is what it does to host resolvers
     * the first time, `heard` how it went if it repeats.
     */
    method ExecCommand(command: Command, repeating: bool) returns (ghost hosts: seq<HostCommand>, ghost heard: Heard)
      requires Timed() && (repeating ==> command.Repeats()) && (command.Resolve? ==> command.tryCount >= 1)
      modifies this`retransmissions, this`timers, this`hostnameResolvers, this`serviceQueriers, this`pendingResolves,
               this`clock, cache
      ensures Timed() && GoesOn()
      ensures repeating ==> Grown(old(retransmissions), retransmissions, old(clock))
      ensures repeating ==> HostView() == AskedAgain(old(HostView()), command, heard) && heard.at >= old(clock)
      ensures !repeating ==> HostView() == AfterCommands(old(HostView()), hosts)
      ensures !repeating ==> forall c <- hosts :: CommandFits(c, old(clock))
    {
      hide Timed, ResolversIn, Filter, LiveInstances, Verified, Lower, HostsOf;
      hosts, heard := [], Heard(false, clock);
      AskedNothing(HostView(), command, heard);
      match command
      case Browse(ty, nextDelay, cacheOnly) => var listening := ExecBrowse(repeating, ty, nextDelay, cacheOnly);
      case ResolveHostname(hostname, nextDelay, timeout) =>
        var listening := ExecResolveHostname(repeating, hostname, nextDelay, timeout);
        hosts, heard := HostExecuted(old(hostnameResolvers), old(retransmissions), retransmissions, command, listening,
                                     repeating, old(clock), clock);
      case Resolve(instance, tryCount) => ExecResolve(instance, tryCount);
      case Verify(instance, patience) => ExecVerify(instance, patience, repeating);
      case Register(fullname, ifIndexes) => ExecRegister(fullname, ifIndexes);
      case RegisterResend(_, _) =>
      case Unregister(_, packets) => ExecUnregister(packets);
      case UnregisterResend(_) =>
      case StopBrowse(ty) => ExecStopBrowse(ty);
      case StopResolveHostname(hostname) =>
        ExecStopResolveHostname(Lower(hostname));
        hosts := [Stop(hostname)];
        OneCommand(old(HostView()), hosts[0]);
    }

    // ----- What comes in -----

    /** Records that have expired go. */
    method DropExpired(records: seq<Record>, now: nat) returns (alive: seq<Record>)
      requires CacheTimed(cache.Value(), timers, lastPop)
      modifies cache
      ensures alive == Filter(records, StillAlive(now))
      ensures cache.Value() == Run(old(cache.Value()), Removals(Filter(records, Gone(now))))
      ensures CacheTimed(cache.Value(), timers, lastPop)
    {
      hide CacheTimed, Filter, CacheState.After;
      alive := [];
      ghost var gone: seq<Record> := [];
      FilterNone(records, StillAlive(now));
      FilterNone(records, Gone(now));
      for i := 0 to |records|
        invariant alive == Filter(records[..i], StillAlive(now)) && gone == Filter(records[..i], Gone(now))
        invariant cache.Value() == Run(old(cache.Value()), Removals(gone))
        invariant CacheTimed(cache.Value(), timers, lastPop)
      {
        FilterStep(records, i, StillAlive(now));
        FilterStep(records, i, Gone(now));
        if records[i].life.IsExpired(now) {
          RemoveTimed(cache.Value(), records[i], timers, lastPop);
          RunMore(old(cache.Value()), Removals(gone), RemoveRecord(records[i], 0));
          assert Removals(gone + [records[i]]) == Removals(gone) + [RemoveRecord(records[i], 0)];
          gone := gone + [records[i]];
          var found := cache.Remove(records[i]);
        } else {
          alive := alive + [records[i]];
        }
      }
      assert records[..|records|] == records;
    }

    /** The others are added, each at its time; the timers they need are returned. */
    method TakeIn(records: seq<Record>, src: InterfaceId, isForUs: bool)
      returns (newTimers: seq<nat>, ghost times: seq<nat>)
      requires CacheTimed(cache.Value(), timers, lastPop)
      modifies this`clock, cache
      ensures clock >= old(clock) && |times| == |records| && forall t <- times :: old(clock) <= t <= clock
      ensures cache.Value() == Run(old(cache.Value()), Additions(records, src, isForUs, times))
      ensures CacheTimed(cache.Value(), timers + multiset(newTimers), lastPop)
    {
      hide CacheTimed, CacheState.After, AddVerdict, AfterAdd;
      newTimers, times := [], [];
      assert timers + multiset([]) == timers;
      for i := 0 to |records|
        invariant clock >= old(clock) && |times| == i && forall t <- times :: old(clock) <= t <= clock
        invariant cache.Value() == Run(old(cache.Value()), Additions(records[..i], src, isForUs, times))
        invariant CacheTimed(cache.Value(), timers + multiset(newTimers), lastPop)
      {
        var now: nat :| now >= clock;
        clock := now;
        ghost var op := Add(records[i], src, isForUs, now);
        AddTimed(cache.Value(), records[i], src, isForUs, now, timers + multiset(newTimers), lastPop);
        RunMore(old(cache.Value()), Additions(records[..i], src, isForUs, times), op);
        assert Additions(records[..i + 1], src, isForUs, times + [now])
            == Additions(records[..i], src, isForUs, times) + [op];
        times := times + [now];
        ghost var before := cache.Value();
        AddIsAfter(before, op);
        var v := cache.AddOrUpdate(src, records[i], isForUs, now);
        newTimers := AddedTimers(cache.Value(), newTimers, v, timers, lastPop);
      }
      assert records[..|records|] == records;
    }

    method AddTimers(more: seq<nat>)
      modifies this`timers
      ensures timers == old(timers) + multiset(more)
    {
      for i := 0 to |more|
        invariant timers == old(timers) + multiset(more[..i])
      {
        assert more[..i + 1] == more[..i] + [more[i]];
        timers := timers + multiset{more[i]};
      }
      assert more[..|more|] == more;
    }

    /**
     * A response: what has expired is removed, the rest is cached. `resolved` and `unresolved` are the instances
     * that it completes and those of which something is still missing.
     */
    method HandleResponse(
        records: seq<Record>, src: InterfaceId, isForUs: bool, resolved: set<bytes>, unresolved: seq<bytes>)
      returns (ghost now: nat, ghost times: seq<nat>)
      requires Timed()
      modifies this`retransmissions, this`timers, this`pendingResolves, this`clock, cache
      ensures Timed() && GoesOn()
      ensures HostsKept()
      ensures Grown(old(retransmissions), retransmissions, old(clock))
      ensures pendingResolves == old(pendingResolves) - resolved + set i | i in unresolved
      ensures var alive, gone := Filter(records, StillAlive(now)), Filter(records, Gone(now));
              && |times| == |alive|
              && cache.Value() == Run(old(cache.Value()), Removals(gone) + Additions(alive, src, isForUs, times))
    {
      hide Filter, Run, ResolversIn, Timed, HostsOf;
      var newTimers;
      now, newTimers, times := Ingest(records, src, isForUs);
      ResolveUpdated(resolved, unresolved);
    }

    method Ingest(records: seq<Record>, src: InterfaceId, isForUs: bool)
      returns (now: nat, newTimers: seq<nat>, ghost times: seq<nat>)
      requires Timed()
      modifies this`timers, this`clock, cache
      ensures Timed() && GoesOn()
      ensures var alive, gone := Filter(records, StillAlive(now)), Filter(records, Gone(now));
              && |times| == |alive|
              && cache.Value() == Run(old(cache.Value()), Removals(gone) + Additions(alive, src, isForUs, times))
    {
      hide Filter, Run, CacheTimed;
      now := Now();
      var alive := DropExpired(records, now);
      newTimers, times := TakeIn(alive, src, isForUs);
      RunConcat(old(cache.Value()), Removals(Filter(records, Gone(now))), Additions(alive, src, isForUs, times));
      AddTimers(newTimers);
    }

    /** Of the records of a query, those that have expired are passed over. */
    method KeepAlive(records: seq<Record>, now: nat) returns (alive: seq<Record>)
      ensures alive == Filter(records, StillAlive(now))
    {
      hide Filter;
      alive := [];
      FilterNone(records, StillAlive(now));
      for i := 0 to |records|
        invariant alive == Filter(records[..i], StillAlive(now))
      {
        FilterStep(records, i, StillAlive(now));
        if !records[i].life.IsExpired(now) {
          alive := alive + [records[i]];
        }
      }
      assert records[..|records|] == records;
    }

    /** A query that carries answers fills the cache, too, if they are for us; it never removes anything. */
    method IngestRecords(
        records: seq<Record>, src: InterfaceId, isForUs: bool, resolved: set<bytes>, unresolved: seq<bytes>)
      returns (ghost now: nat, ghost times: seq<nat>)
      requires Timed()
      modifies this`retransmissions, this`timers, this`pendingResolves, this`clock, cache
      ensures Timed() && GoesOn()
      ensures HostsKept()
      ensures Grown(old(retransmissions), retransmissions, old(clock))
      ensures var alive := Filter(records, StillAlive(now));
              if isForUs then
                && |times| == |alive| && cache.Value() == Run(old(cache.Value()), Additions(alive, src, true, times))
                && pendingResolves == old(pendingResolves) - resolved + set i | i in unresolved
              else cache.Value() == old(cache.Value()) && pendingResolves == old(pendingResolves)
    {
      hide Filter, Run, ResolversIn, Timed, HostsOf;
      now, times := clock, [];
      if !isForUs {
        return;
      }
      now, times := TakeInAlive(records, src);
      ResolveUpdated(resolved, unresolved);
    }

    method TakeInAlive(records: seq<Record>, src: InterfaceId) returns (now: nat, ghost times: seq<nat>)
      requires Timed()
      modifies this`timers, this`clock, cache
      ensures Timed() && GoesOn()
      ensures var alive := Filter(records, StillAlive(now));
              |times| == |alive| && cache.Value() == Run(old(cache.Value()), Additions(alive, src, true, times))
    {
      hide Filter, Run, CacheTimed;
      now := Now();
      var alive := KeepAlive(records, now);
      var newTimers;
      newTimers, times := TakeIn(alive, src, true);
      AddTimers(newTimers);
    }

    /** RFC 6762 section 6: the answers to a shared question wait for a random moment. */
    method DelayResponse(answers: seq<Record>, ifIndex: u32, isIpv4: bool)
      requires Timed()
      modifies this`delayedResponses, this`timers, this`clock
      ensures Timed() && GoesOn()
      ensures answers == [] ==> delayedResponses == old(delayedResponses)
      ensures answers != [] ==>
                && |delayedResponses| == |old(delayedResponses)| + 1 && old(delayedResponses) <= delayedResponses
                && var d := delayedResponses[|old(delayedResponses)|];
                   d == DelayedResponse(d.nextTime, answers, ifIndex, isIpv4) && clock + 10 <= d.nextTime < clock + 50
    {
      hide CacheTimed;
      if answers != [] {
        var now := Now();
        var delay: nat :| 10 <= delay < 50;
        delayedResponses := delayedResponses + [DelayedResponse(now + delay, answers, ifIndex, isIpv4)];
        timers := timers + multiset{now + delay};
        StillTimed();
      }
    }

    method InterfaceDown(id: InterfaceId)
      requires Timed()
      modifies cache
      ensures Timed() && GoesOn() && cache.Value() == WithoutInterface(old(cache.Value()), id)
    {
      hide CacheTimed, Removal;
      InterfaceTimed(cache.Value(), id, timers, lastPop);
      var removal := cache.RemoveRecordsOnIntf(id);
    }

    method AddrsDisabled(index: u32, v4: bool, v6: bool)
      requires Timed()
      modifies cache
      ensures Timed() && GoesOn()
      ensures cache.Value() == CacheState.After(old(cache.Value()), DisableAddrs(index, v4, v6, 0))
    {
      hide CacheTimed, CacheState.After;
      DisableTimed(cache.Value(), index, v4, v6, timers, lastPop);
      cache.RemoveAddrsOnDisabledIntf(index, v4, v6);
    }

    method HandleEvents(events: seq<Event>)
      requires Timed()
      modifies this`retransmissions, this`timers, this`delayedResponses, this`pendingResolves, this`clock, cache
      ensures Timed() && GoesOn()
      ensures HostsKept()
      ensures Grown(old(retransmissions), retransmissions, old(clock)) && old(delayedResponses) <= delayedResponses
    {
      hide Timed, ResolversIn, Filter, Run, WithoutInterface, HostsOf;
      for i := 0 to |events|
        invariant Timed() && GoesOn() && HostsKept()
        invariant Grown(old(retransmissions), retransmissions, old(clock)) && old(delayedResponses) <= delayedResponses
      {
        match events[i]
        case Response(records, src, isForUs, resolved, unresolved) =>
          ghost var now, times := HandleResponse(records, src, isForUs, resolved, unresolved);
        case QueryWithAnswers(records, src, isForUs, resolved, unresolved) =>
          ghost var now, times := IngestRecords(records, src, isForUs, resolved, unresolved);
        case Query(answers, ifIndex, isIpv4) => DelayResponse(answers, ifIndex, isIpv4);
        case InterfaceDown(id) => InterfaceDown(id);
        case AddrsDisabled(index, v4, v6) => AddrsDisabled(index, v4, v6);
      }
    }

    // ----- What is due -----

    /** Resolvers whose time is up are told so, and removed. */
    method RemoveExpiredResolvers(now: nat) returns (timedOut: set<bytes>)
      requires Timed() && now == lastPop
      modifies this`hostnameResolvers
      ensures Timed() && GoesOn() && ResolversIn()
      ensures timedOut == set h | h in old(hostnameResolvers) && TimedOut(old(hostnameResolvers)[h], now)
      ensures hostnameResolvers == old(hostnameResolvers) - timedOut
      ensures hostnameResolvers == Remaining(old(hostnameResolvers), now)
    {
      hide CacheTimed;
      timedOut := {};
      var todo := hostnameResolvers.Keys;
      while todo != {}
        invariant todo <= old(hostnameResolvers).Keys
        invariant timedOut == set h | h in old(hostnameResolvers) && h !in todo
                                      && TimedOut(old(hostnameResolvers)[h], now)
        invariant hostnameResolvers == old(hostnameResolvers) - timedOut
      {
        var h :| h in todo;
        if TimedOut(hostnameResolvers[h], now) {
          timedOut := timedOut + {h};
          hostnameResolvers := hostnameResolvers - {h};
        }
        todo := todo - {h};
      }
      StillTimed();
    }

    method ExecCommands(commands: seq<Command>) returns (ghost hosts: seq<HostCommand>)
      requires Timed() && forall c <- commands :: c.Resolve? ==> c.tryCount >= 1
      modifies this`retransmissions, this`timers, this`hostnameResolvers, this`serviceQueriers, this`pendingResolves,
               this`clock, cache
      ensures Timed() && GoesOn()
      ensures HostView() == AfterCommands(old(HostView()), hosts) && forall c <- hosts :: CommandFits(c, old(clock))
    {
      hide Timed, ResolversIn, HostsOf, AfterCommands;
      hosts := [];
      NoCommand(HostView());
      for i := 0 to |commands|
        invariant Timed() && GoesOn()
        invariant HostView() == AfterCommands(old(HostView()), hosts) && forall c <- hosts :: CommandFits(c, old(clock))
      {
        ghost var more, heard := ExecCommand(commands[i], false);
        CommandsConcat(old(HostView()), hosts, more);
        hosts := hosts + more;
      }
    }

    /** Takes the retransmission at `i` out of the list and executes its command again. */
    method RerunAt(i: nat) returns (ghost heard: Heard)
      requires Timed() && i < |retransmissions|
      modifies this`retransmissions, this`timers, this`hostnameResolvers, this`serviceQueriers, this`pendingResolves,
               this`clock, this`reran, cache
      ensures Timed() && GoesOn()
      ensures var before := old(retransmissions);
              && Grown(before[..i] + before[i + 1..], retransmissions, old(clock))
              && reran == old(reran) + [before[i]] && heard.at >= old(clock)
              && HostView() == AskedAgain(HostState(old(hostnameResolvers), HostsOf(before[..i] + before[i + 1..])),
                                          before[i].command, heard)
    {
      hide CacheTimed, HostsOf;
      var rerun := retransmissions[i];
      retransmissions := retransmissions[..i] + retransmissions[i + 1..];
      StillTimed();
      reran := reran + [rerun];
      hide *;
      ghost var hosts;
      hosts, heard := ExecCommand(rerun.command, true);
    }

    /** One turn of the loop of `RerunDue`: the retransmission at `i` is executed again, or passed by. */
    method RerunNext(
        now: nat, i: nat, ghost before: seq<ReRun>, ghost k: nat, ghost pushed: seq<ReRun>, ghost ran: seq<ReRun>,
        ghost heard: seq<Heard>)
      returns (next: nat, ghost pushed': seq<ReRun>, ghost more: seq<ReRun>, ghost heard': seq<Heard>)
      requires Timed() && now <= clock && i < |retransmissions| && k <= |before|
      requires Rerunning(before, k, i, pushed, now, retransmissions, ran)
      requires HostsReran(hostnameResolvers, pushed, ran, heard, now)
      modifies this`retransmissions, this`timers, this`hostnameResolvers, this`serviceQueriers, this`pendingResolves,
               this`clock, this`reran, cache
      ensures Timed() && GoesOn() && next <= |retransmissions|
      ensures Rerunning(before, if k < |before| then k + 1 else k, next, pushed', now, retransmissions, ran + more)
      ensures Appended(old(reran), reran, more) && hostnameResolvers == old(hostnameResolvers)
      ensures HostsReran(hostnameResolvers, pushed', ran + more, heard', now)
      ensures k == |before| ==> |retransmissions| - next < |old(retransmissions)| - i
    {
      hide Timed, ResolversIn, Rerunning, Grown, Filter, HostsReran, HostsOf;
      ghost var rs, at := retransmissions, clock;
      if now >= retransmissions[i].nextTime {
        ghost var heardNow := RerunAt(i);
        ghost var front;
        pushed', front := RerunDueStep(before, k, i, pushed, now, rs, ran, retransmissions, at);
        heard' := HostsReranMore(hostnameResolvers, front, pushed, pushed', ran, rs[i], heard, heardNow, now);
        next, more := i, [rs[i]];
      } else {
        RerunKeepStep(before, k, i, pushed, now, rs, ran);
        next, pushed', more, heard' := i + 1, pushed, [], heard;
        assert ran + more == ran;
      }
    }

    /**
     * Every retransmission that is due is executed again, once and in order; those that are not due keep
     * their order, and what the executions add is not due yet, so that the loop comes to an end.
     */
    method RerunDue(now: nat) returns (ghost heard: seq<Heard>)
      requires Timed() && now == lastPop
      modifies this`retransmissions, this`timers, this`hostnameResolvers, this`serviceQueriers, this`pendingResolves,
               this`clock, this`reran, cache
      ensures Timed() && GoesOn()
      ensures reran == old(reran) + Filter(old(retransmissions), IsDue(now))
      ensures Grown(Filter(old(retransmissions), NotDue(now)), retransmissions, now)
      ensures NoneDue(retransmissions, now)
      ensures HostsRerun(old(HostView()), HostView(), now, heard)
    {
      assert now <= clock;
      hide Timed, ResolversIn, Filter, Grown, Rerunning, NotDue, IsDue, NoneDue, Appended;
      hide HostsReran, HostsRerun, HostsOf;
      ghost var before, pushed, ran := retransmissions, [], [];
      AppendedNothing(reran);
      heard := [];
      HostsReranStart(hostnameResolvers, now);
      ghost var k: nat := 0;
      var i: nat := 0;
      RerunStart(before, now);
      while i < |retransmissions|
        invariant Timed() && GoesOn() && Appended(old(reran), reran, ran)
        invariant Rerunning(before, k, i, pushed, now, retransmissions, ran) && k <= |before| && i <= |retransmissions|
        invariant hostnameResolvers == old(hostnameResolvers)
        invariant HostsReran(hostnameResolvers, pushed, ran, heard, now)
        decreases |before| - k, |retransmissions| - i
      {
        ghost var more, mid := [], reran;
        i, pushed, more, heard := RerunNext(now, i, before, k, pushed, ran, heard);
        k := if k < |before| then k + 1 else k;
        AppendedMore(old(reran), mid, reran, ran, more);
        ran := ran + more;
      }
      AppendedIs(old(reran), reran, ran);
      RerunEnd(before, k, i, pushed, now, retransmissions, ran);
      HostsReranEnd(hostnameResolvers, before, pushed, ran, heard, now);
    }

    /** Responses whose time is up are sent, in order. */
    method SendDelayed(now: nat)
      requires Timed()
      modifies this`delayedResponses, this`responded
      ensures Timed() && GoesOn()
      ensures responded == old(responded) + Filter(old(delayedResponses), ResponseDue(now))
      ensures delayedResponses == Filter(old(delayedResponses), ResponseNotDue(now))
    {
      var due;
      delayedResponses, due := TakeDue(delayedResponses, now);
      hide CacheTimed, Filter;
      responded := responded + due;
      StillTimed();
    }

    /** Services whose probes are over are announced now, and once more in a second. */
    method AnnounceProbed(announced: seq<(bytes, u32)>, probeTimers: seq<nat>)
      requires Timed()
      modifies this`retransmissions, this`timers, this`clock
      ensures Timed() && GoesOn()
      ensures HostsKept()
      ensures Grown(old(retransmissions), retransmissions, old(clock))
      ensures |retransmissions| == |old(retransmissions)| + |announced|
    {
      hide CacheTimed, HostsOf;
      AddTimers(probeTimers);
      StillTimed();
      var now := Now();
      for i := 0 to |announced|
        invariant Timed() && GoesOn() && HostsKept()
        invariant Grown(old(retransmissions), retransmissions, old(clock))
        invariant |retransmissions| == |old(retransmissions)| + i
      {
        hide Timed, ResolversIn;
        var jitter: nat :| jitter < 50;
        AddRetransmission(now + 1100 + jitter, RegisterResend(announced[i].0, announced[i].1));
      }
    }

    method EvictExpiredServices(now: nat) returns (expired: set<(bytes, bytes)>)
      requires Timed()
      modifies cache
      ensures Timed() && GoesOn()
      ensures cache.Value() == CacheState.After(old(cache.Value()), EvictServices(now))
    {
      hide CacheTimed, CacheState.After;
      EvictServicesTimed(cache.Value(), now, timers, lastPop);
      expired := cache.EvictExpiredServices(now);
    }

    method EvictExpiredAddr(now: nat) returns (removed: set<(bytes, RData)>)
      requires Timed()
      modifies cache
      ensures Timed() && GoesOn()
      ensures cache.Value() == CacheState.After(old(cache.Value()), EvictAddr(now))
    {
      hide CacheTimed, CacheState.After;
      EvictTimed(cache.Value(), now, timers, lastPop);
      removed := cache.EvictExpiredAddr(now);
    }

    // ----- One iteration -----

    /** Everything between the pop of the timers and the eviction of expired records. */
    method DoWork(now: nat, commands: seq<Command>) returns (ghost turn: Turn)
      requires Timed() && now == lastPop && forall c <- commands :: c.Resolve? ==> c.tryCount >= 1
      modifies this, cache
      ensures Timed() && lastPop == now && clock >= old(clock) && ResolversIn()
      ensures NoneDue(retransmissions, now) && forall d <- delayedResponses :: d.nextTime > now
      ensures turn.now == now && Fits(old(HostView()), turn) && HostView() == AfterTurn(old(HostView()), turn)
    {
      assert now <= clock;
      hide Timed, ResolversIn, Filter, Grown, NoneDue, HostsOf, HostsRerun, AfterCommands, AfterTurn, Fits, Remaining;
      ghost var s := HostView();
      var timedOut := RemoveExpiredResolvers(now);
      ghost var hosts := ExecCommands(commands);
      ghost var mid := HostView();
      ghost var heard := RerunDue(now);
      turn := Turn(now, hosts, heard);
      OneTurn(s, mid, HostView(), turn);
      SendDelayed(now);
      assert forall d <- delayedResponses :: d.nextTime > now by { LeftNotDue(old(delayedResponses), now); }
    }

    /**
     * One iteration of the run loop. It sleeps no longer than to the first deadline: of a queued
     * retransmission or delayed response, of a host resolver, or of a cached record that expires after the
     * last pop of the timers. At the end, all deadlines have timers again, and nothing that was due by
     * the time of the pop is left in a queue.
     */
    method Iterate(events: seq<Event>, commands: seq<Command>, refreshTimers: seq<nat>, resolved: set<bytes>,
                   unresolved: seq<bytes>, announced: seq<(bytes, u32)>, probeTimers: seq<nat>)
      returns (sleptAt: nat, timeout: Option<nat>, ghost turn: Turn)
      requires InTime() && forall c <- commands :: c.Resolve? ==> c.tryCount >= 1
      modifies this, cache
      ensures InTime() && lastPop >= sleptAt >= old(clock)
      ensures forall d: nat :: old(IsDeadline(d)) ==>
                timeout.Some? && sleptAt + timeout.value <= (if d > sleptAt then d else sleptAt + 1)
      ensures NoneDue(retransmissions, lastPop) && forall d <- delayedResponses :: d.nextTime > lastPop
      ensures turn.now == lastPop && Fits(old(HostView()), turn) && HostView() == AfterTurn(old(HostView()), turn)
    {
      hide CacheTimed, Filter, CacheState.After, HostsOf, AfterTurn, Fits;
      sleptAt := Now();
      timeout := PollTimeout(sleptAt);
      forall d: nat | old(IsDeadline(d))
        ensures timeout.Some? && sleptAt + timeout.value <= (if d > sleptAt then d else sleptAt + 1)
      {
        assert IsDeadline(d);
      }
      hide IsDeadline;
      HandleEvents(events);
      var now := Now();
      PopTimersTill(now);
      turn := DoWork(now, commands);
      var evictAt := Finish(refreshTimers, resolved, unresolved, announced, probeTimers);
    }

    /** The end of an iteration: refreshes, evictions and the instances that lose an address by them, and probes. */
    method Finish(refreshTimers: seq<nat>, resolved: set<bytes>, unresolved: seq<bytes>, announced: seq<(bytes, u32)>,
                  probeTimers: seq<nat>)
      returns (evictAt: nat)
      requires Timed() && ResolversIn()
      requires NoneDue(retransmissions, lastPop) && forall d <- delayedResponses :: d.nextTime > lastPop
      modifies this`retransmissions, this`timers, this`pendingResolves, this`clock, cache
      ensures InTime() && lastPop == old(lastPop) && old(clock) <= evictAt <= clock
      ensures NoneDue(retransmissions, lastPop) && HostsKept()
      ensures cache.Value() == Run(old(cache.Value()), [EvictServices(evictAt), EvictAddr(evictAt)])
    {
      hide CacheTimed, CacheState.After, HostsOf;
      AddTimers(refreshTimers);
      StillTimed();
      evictAt := Now();
      var expired := EvictExpiredServices(evictAt);
      var removed := EvictExpiredAddr(evictAt);
      RunTwice(old(cache.Value()), EvictServices(evictAt), EvictAddr(evictAt));
      ghost var before := retransmissions;
      ResolveUpdated(resolved, unresolved);
      StillNotDue(before, retransmissions, lastPop, evictAt);
      ghost var mid, at := retransmissions, clock;
      AnnounceProbed(announced, probeTimers);
      StillNotDue(mid, retransmissions, lastPop, at);
    }
  }

  lemma OneCommand(s: HostState, c: HostCommand)
    ensures AfterCommands(s, [c]) == AfterCommand(s, c)
  {
    assert [c][..0] == [];
  }

  function AskedAgain(s: HostState, command: Command, heard: Heard): HostState {
    HostState(s.resolvers, s.queries + Again(s.resolvers, command, heard))
  }

  lemma AskedNothing(s: HostState, command: Command, heard: Heard)
    requires !command.ResolveHostname? || !heard.listening
    ensures AskedAgain(s, command, heard) == s
  {
  }

  /** What the execution of a query for a host adds to the queries. */
  lemma HostExecuted(
    resolvers: map<bytes, Option<nat>>, before: seq<ReRun>, after: seq<ReRun>, command: Command, listening: bool,
    repeating: bool, from: nat, to: nat)
    returns (hosts: seq<HostCommand>, heard: Heard)
    requires command.ResolveHostname? && from <= to
    requires var again, h := to + command.delay * 1000, command.hostname;
             if listening && !repeating then OneMore(before, after, ResolveHostname(h, 1, None), from + 10, to + 49)
             else if listening && QueriesHostAgain(resolvers, h, again) then
               OneMore(before, after, ResolveHostname(h, NextDelay(command.delay), None), again, again)
             else after == before
    ensures var r := if listening && !repeating then
                       resolvers[Lower(command.hostname) :=
                                 if command.timeout.Some? then Some(to + command.timeout.value) else None]
                     else resolvers;
            if repeating then
              HostState(r, HostsOf(after)) == AskedAgain(HostState(resolvers, HostsOf(before)), command, heard)
            else HostState(r, HostsOf(after)) == AfterCommands(HostState(resolvers, HostsOf(before)), hosts)
    ensures heard.at >= from && forall c <- hosts :: CommandFits(c, from)
  {
    hide HostsOf, Lower;
    hosts, heard := [], Heard(listening, to);
    if after == before {
      assert HostsOf(before) + [] == HostsOf(before);
    } else {
      assert after == before + [after[|before|]];
      HostsMore(before, after[|before|]);
      if !repeating {
        hosts := [Start(command.hostname, command.timeout, to, after[|before|].nextTime)];
        OneCommand(HostState(resolvers, HostsOf(before)), hosts[0]);
      }
    }
  }

  lemma RunTwice(s: State, a: CacheState.Op, b: CacheState.Op)
    ensures Run(s, [a, b]) == CacheState.After(CacheState.After(s, a), b)
  {
    hide CacheState.After;
    RunMore(s, [a], b);
    RunMore(s, [], a);
    assert [] + [a] == [a] && [a] + [b] == [a, b];
  }

  lemma LeftNotDue(before: seq<DelayedResponse>, now: nat)
    ensures forall d <- Filter(before, ResponseNotDue(now)) :: d.nextTime > now
  {
  }

  lemma StillNotDue(before: seq<ReRun>, after: seq<ReRun>, now: nat, at: nat)
    requires NoneDue(before, now) && Grown(before, after, at) && now <= at
    ensures NoneDue(after, now)
  {
    forall r <- after
      ensures r.nextTime > now
    {
      var i :| 0 <= i < |after| && after[i] == r;
      if i < |before| {
        assert r == before[i];
      } else {
        assert r == after[|before|..][i - |before|];
      }
    }
  }

  /** Takes out the responses that are due. */
  method TakeDue(before: seq<DelayedResponse>, now: nat)
    returns (rest: seq<DelayedResponse>, due: seq<DelayedResponse>)
    ensures rest == Filter(before, ResponseNotDue(now)) && due == Filter(before, ResponseDue(now))
  {
    hide Taking;
    rest, due := before, [];
    ghost var k := 0;
    var i := 0;
    TakeStart(before, now);
    while i < |rest|
      invariant Taking(before, k, i, rest, due, now) && k <= |before| && |rest| - i == |before| - k
      decreases |rest| - i
    {
      TakeNext(before, k, i, rest, due, now);
      if now >= rest[i].nextTime {
        due := due + [rest[i]];
        rest := rest[..i] + rest[i + 1..];
      } else {
        i := i + 1;
      }
      k := k + 1;
    }
    TakeEnd(before, k, i, rest, due, now);
  }

  /** `k` of the responses `before` have been looked at. */
  ghost predicate Taking(
    before: seq<DelayedResponse>, k: nat, i: nat, rest: seq<DelayedResponse>, due: seq<DelayedResponse>, now: nat)
  {
    && k <= |before|
    && var kept := Filter(before[..k], ResponseNotDue(now));
       i == |kept| && rest == kept + before[k..] && due == Filter(before[..k], ResponseDue(now))
  }

  lemma TakeStart(before: seq<DelayedResponse>, now: nat)
    ensures Taking(before, 0, 0, before, [], now)
  {
    assert [] + before[0..] == before;
  }

  lemma TakeNext(
    before: seq<DelayedResponse>, k: nat, i: nat, rest: seq<DelayedResponse>, due: seq<DelayedResponse>, now: nat)
    requires Taking(before, k, i, rest, due, now) && i < |rest|
    ensures k < |before|
    ensures if now >= rest[i].nextTime then Taking(before, k + 1, i, rest[..i] + rest[i + 1..], due + [rest[i]], now)
            else Taking(before, k + 1, i + 1, rest, due, now)
  {
    hide Filter, ResponseDue, ResponseNotDue;
    var kept := Filter(before[..k], ResponseNotDue(now));
    AtTheSeam(kept, before, k, rest);
    TakeStep(before, k, now);
  }

  /** The first element behind `kept` stays, or goes. */
  lemma AtTheSeam<T>(kept: seq<T>, before: seq<T>, k: nat, s: seq<T>)
    requires k <= |before| && s == kept + before[k..] && |kept| < |s|
    ensures k < |before| && s[|kept|] == before[k]
    ensures s == (kept + [before[k]]) + before[k + 1..]
    ensures s[..|kept|] + s[|kept| + 1..] == kept + before[k + 1..]
  {
  }

  lemma TakeEnd(
    before: seq<DelayedResponse>, k: nat, i: nat, rest: seq<DelayedResponse>, due: seq<DelayedResponse>, now: nat)
    requires Taking(before, k, i, rest, due, now) && i == |rest|
    ensures rest == Filter(before, ResponseNotDue(now)) && due == Filter(before, ResponseDue(now))
  {
    hide Filter;
    assert k == |before| && before[..k] == before;
  }

  lemma TakeStep(before: seq<DelayedResponse>, k: nat, now: nat)
    requires k < |before|
    ensures var rest, due := Filter(before[..k], ResponseNotDue(now)), Filter(before[..k], ResponseDue(now));
            if now >= before[k].nextTime then
              Filter(before[..k + 1], ResponseNotDue(now)) == rest
              && Filter(before[..k + 1], ResponseDue(now)) == due + [before[k]]
            else
              Filter(before[..k + 1], ResponseNotDue(now)) == rest + [before[k]]
              && Filter(before[..k + 1], ResponseDue(now)) == due
  {
    hide Filter;
    FilterStep(before, k, ResponseNotDue(now));
    FilterStep(before, k, ResponseDue(now));
  }

  // ----- The loop over the retransmissions -----

  /** `k` of the retransmissions `before` have been looked at; `ran` have been executed and `pushed` added. */
  ghost predicate Rerunning(
    before: seq<ReRun>, k: nat, i: nat, pushed: seq<ReRun>, now: nat, rs: seq<ReRun>, ran: seq<ReRun>)
  {
    && k <= |before|
    && var kept := Filter(before[..k], NotDue(now));
       && (if k < |before| then i == |kept| else |kept| <= i <= |rs|)
       && rs == kept + before[k..] + pushed && Grown([], pushed, now)
       && ran == Filter(before[..k], IsDue(now))
  }

  lemma RerunStart(before: seq<ReRun>, now: nat)
    ensures Rerunning(before, 0, 0, [], now, before, [])
  {
    assert [] + before[0..] + [] == before;
  }

  lemma RerunDueStep(
    before: seq<ReRun>, k: nat, i: nat, pushed: seq<ReRun>, now: nat, rs: seq<ReRun>, ran: seq<ReRun>,
    after: seq<ReRun>, at: nat)
    returns (pushed': seq<ReRun>, front: seq<ReRun>)
    requires Rerunning(before, k, i, pushed, now, rs, ran) && i < |rs| && now >= rs[i].nextTime
    requires Grown(rs[..i] + rs[i + 1..], after, at) && now <= at
    ensures k < |before| && i <= |after| && Rerunning(before, k + 1, i, pushed', now, after, ran + [rs[i]])
    ensures rs[..i] + rs[i + 1..] == front + pushed && after == front + pushed'
  {
    hide Filter, Grown;
    var kept := Filter(before[..k], NotDue(now));
    if k == |before| {
      GrownAt(pushed, now, i - |kept|);
      assert false;
    }
    assert rs[i] == before[k];
    FilterStep(before, k, NotDue(now));
    FilterStep(before, k, IsDue(now));
    front := kept + before[k + 1..];
    assert rs[..i] + rs[i + 1..] == front + pushed;
    pushed' := GrownMore(front, pushed, after, now, at);
  }

  lemma RerunKeepStep(
    before: seq<ReRun>, k: nat, i: nat, pushed: seq<ReRun>, now: nat, rs: seq<ReRun>, ran: seq<ReRun>)
    requires Rerunning(before, k, i, pushed, now, rs, ran) && i < |rs| && now < rs[i].nextTime
    ensures Rerunning(before, if k < |before| then k + 1 else k, i + 1, pushed, now, rs, ran)
  {
    hide Filter, Grown;
    var kept := Filter(before[..k], NotDue(now));
    if k < |before| {
      assert rs[i] == before[k];
      FilterStep(before, k, NotDue(now));
      FilterStep(before, k, IsDue(now));
      assert rs == kept + [before[k]] + before[k + 1..] + pushed;
    }
  }

  lemma RerunEnd(
    before: seq<ReRun>, k: nat, i: nat, pushed: seq<ReRun>, now: nat, rs: seq<ReRun>, ran: seq<ReRun>)
    requires Rerunning(before, k, i, pushed, now, rs, ran) && i == |rs|
    ensures ran == Filter(before, IsDue(now)) && NoneDue(rs, now) && Grown(Filter(before, NotDue(now)), rs, now)
    ensures rs == Filter(before, NotDue(now)) + pushed
  {
    hide Filter;
    assert k == |before|;
    assert before[..k] == before && before[k..] == [];
    assert rs == Filter(before, NotDue(now)) + pushed;
    KeptAndGrown(before, Filter(before, NotDue(now)), pushed, now);
  }

  /** The queries for hosts among `pushed` are those that follow the ones among `ran`. */
  ghost predicate HostsReran(
    resolvers: map<bytes, Option<nat>>, pushed: seq<ReRun>, ran: seq<ReRun>, heard: seq<Heard>, now: nat)
  {
    && |heard| == |HostsOf(ran)| && (forall x <- heard :: x.at >= now)
    && HostsOf(pushed) == AllAgain(resolvers, HostsOf(ran), heard)
  }

  lemma HostsReranStart(resolvers: map<bytes, Option<nat>>, now: nat)
    ensures HostsReran(resolvers, [], [], [], now)
  {
  }

  lemma HostsReranMore(
    resolvers: map<bytes, Option<nat>>, front: seq<ReRun>, pushed: seq<ReRun>, pushed': seq<ReRun>, ran: seq<ReRun>,
    r: ReRun, heard: seq<Heard>, heardNow: Heard, now: nat)
    returns (heard': seq<Heard>)
    requires HostsReran(resolvers, pushed, ran, heard, now) && heardNow.at >= now
    requires HostsOf(front + pushed') == HostsOf(front + pushed) + Again(resolvers, r.command, heardNow)
    ensures HostsReran(resolvers, pushed', ran + [r], heard', now)
  {
    hide Filter;
    FilterConcat(front, pushed, IsHostQuery());
    FilterConcat(front, pushed', IsHostQuery());
    HostsMore(ran, r);
    var a, f := Again(resolvers, r.command, heardNow), HostsOf(front);
    assert f + HostsOf(pushed') == f + (HostsOf(pushed) + a);
    SamePrefix(f, HostsOf(pushed'), HostsOf(pushed) + a);
    if r.command.ResolveHostname? {
      heard' := heard + [heardNow];
      assert HostsOf(ran + [r])[..|heard|] == HostsOf(ran) && heard'[..|heard|] == heard;
    } else {
      heard' := heard;
    }
  }

  lemma SamePrefix<T>(f: seq<T>, a: seq<T>, b: seq<T>)
    requires f + a == f + b
    ensures a == b
  {
    assert (f + a)[|f|..] == a && (f + b)[|f|..] == b;
  }

  /** The reruns of a turn, as far as they are queries for hosts. */
  ghost predicate HostsRerun(s: HostState, s': HostState, now: nat, heard: seq<Heard>) {
    var due := Filter(s.queries, IsDue(now));
    && |heard| == |due| && (forall x <- heard :: x.at >= now)
    && s' == HostState(s.resolvers, Filter(s.queries, NotDue(now)) + AllAgain(s.resolvers, due, heard))
  }

  lemma HostsReranEnd(
    resolvers: map<bytes, Option<nat>>, before: seq<ReRun>, pushed: seq<ReRun>, ran: seq<ReRun>, heard: seq<Heard>,
    now: nat)
    requires HostsReran(resolvers, pushed, ran, heard, now) && ran == Filter(before, IsDue(now))
    ensures HostsRerun(HostState(resolvers, HostsOf(before)),
                       HostState(resolvers, HostsOf(Filter(before, NotDue(now)) + pushed)), now, heard)
  {
    hide Filter, AllAgain;
    FiltersCommute(before, IsDue(now), IsHostQuery());
    FiltersCommute(before, NotDue(now), IsHostQuery());
    FilterConcat(Filter(before, NotDue(now)), pushed, IsHostQuery());
  }

  lemma NoCommand(s: HostState)
    ensures AfterCommands(s, []) == s
  {
  }

  /** Expired resolvers go, commands are executed, and what is due is executed again: that is a turn. */
  lemma OneTurn(s: HostState, mid: HostState, s': HostState, t: Turn)
    requires mid == AfterCommands(HostState(Remaining(s.resolvers, t.now), s.queries), t.commands)
    requires HostsRerun(mid, s', t.now, t.heard) && forall c <- t.commands :: CommandFits(c, t.now)
    ensures Fits(s, t) && s' == AfterTurn(s, t)
  {
  }

  predicate Appended(before: seq<ReRun>, after: seq<ReRun>, more: seq<ReRun>) {
    after == before + more
  }

  lemma AppendedNothing(s: seq<ReRun>)
    ensures Appended(s, s, [])
  {
  }

  lemma AppendedMore(a: seq<ReRun>, b: seq<ReRun>, c: seq<ReRun>, x: seq<ReRun>, y: seq<ReRun>)
    requires Appended(a, b, x) && Appended(b, c, y)
    ensures Appended(a, c, x + y)
  {
  }

  lemma AppendedIs(a: seq<ReRun>, b: seq<ReRun>, x: seq<ReRun>)
    requires Appended(a, b, x)
    ensures b == a + x
  {
  }

  predicate NoneDue(rs: seq<ReRun>, now: nat) {
    forall r <- rs :: r.nextTime > now
  }

  lemma GrownAt(pushed: seq<ReRun>, now: nat, i: nat)
    requires Grown([], pushed, now) && i < |pushed|
    ensures pushed[i].nextTime > now
  {
    assert pushed[0..] == pushed;
    assert pushed[i] in pushed;
  }

  lemma GrownMore(front: seq<ReRun>, pushed: seq<ReRun>, after: seq<ReRun>, now: nat, at: nat)
    returns (more: seq<ReRun>)
    requires Grown([], pushed, now) && Grown(front + pushed, after, at) && now <= at
    ensures after == front + more && Grown([], more, now)
  {
    more := pushed + after[|front + pushed|..];
    assert pushed[0..] == pushed && more[0..] == more;
    forall r <- more
      ensures r.nextTime > now && r.command.Repeats()
    {
    }
    assert after == front + pushed + after[|front + pushed|..];
  }

  lemma KeptAndGrown(before: seq<ReRun>, kept: seq<ReRun>, pushed: seq<ReRun>, now: nat)
    requires kept == Filter(before, NotDue(now)) && Grown([], pushed, now)
    ensures Grown(kept, kept + pushed, now) && NoneDue(kept + pushed, now)
  {
    assert pushed[0..] == pushed;
    assert (kept + pushed)[|kept|..] == pushed;
  }

  lemma AddIsAfter(s: State, op: CacheState.Op)
    requires op.Add?
    ensures CacheState.After(s, op) == AfterAdd(s, op.incoming, op.src, op.isForUs, op.now)
  {
  }

  /** A record in the cache needs a timer for its end and one for its refresh. */
  method AddedTimers(ghost s: State, newTimers: seq<nat>, v: Added, ghost timers: multiset<nat>, ghost lastPop: nat)
    returns (r: seq<nat>)
    requires var more := if v.Added? then multiset(v.timers) + multiset{v.entry.rec.life.expires} else multiset{};
             CacheTimed(s, timers + multiset(newTimers) + more, lastPop)
    ensures r == newTimers + if v.Added? then v.timers + [v.entry.rec.life.expires, v.entry.rec.life.refresh] else []
    ensures CacheTimed(s, timers + multiset(r), lastPop)
  {
    hide CacheTimed;
    match v
    case Ignored =>
      r := newTimers;
      assert timers + multiset(newTimers) + multiset{} == timers + multiset(r);
    case Added(entry, _, flushed) =>
      r := newTimers + (flushed + [entry.rec.life.expires, entry.rec.life.refresh]);
      assert multiset(r) == multiset(newTimers) + multiset(flushed)
                            + multiset{entry.rec.life.expires, entry.rec.life.refresh};
      MoreTimers(s, timers + multiset(newTimers) + (multiset(flushed) + multiset{entry.rec.life.expires}),
                 timers + multiset(r), lastPop);
  }

  lemma FilterNone<T(!new)>(s: seq<T>, p: T -> bool)
    ensures Filter(s[..0], p) == []
  {
  }

  lemma NothingVerified(s: State, instance: bytes, at: nat)
    requires instance !in s.srv
    ensures Verified(s, instance, at) == s
  {
    assert s.BucketOf(SrvKind, instance) == [];
  }

  /** RFC 6762 section 8.3: the second announcement, more than a second after the first. */
  function Resends(fullname: bytes, ifIndexes: seq<u32>, at: nat): seq<ReRun> {
    seq(|ifIndexes|, i requires 0 <= i < |ifIndexes| => ReRun(at, RegisterResend(fullname, ifIndexes[i])))
  }

  /** One retransmission more, for a time from `lo` to `hi`. */
  predicate OneMore(before: seq<ReRun>, after: seq<ReRun>, command: Command, lo: nat, hi: nat) {
    && |after| == |before| + 1 && before <= after
    && after[|before|].command == command && lo <= after[|before|].nextTime <= hi
  }

  /** Only commands that repeat are added, for a time after `at`. */
  predicate Grown(before: seq<ReRun>, after: seq<ReRun>, at: nat) {
    before <= after && forall r <- after[|before|..] :: r.nextTime > at && r.command.Repeats()
  }

  lemma {:induction false} Earliest(timers: multiset<nat>) returns (v: nat)
    requires timers != multiset{}
    ensures v in timers && forall t <- timers :: v <= t
    decreases |timers|
  {
    var k :| k in timers;
    var rest := timers - multiset{k};
    v := k;
    if rest != multiset{} {
      var first := Earliest(rest);
      v := if first < k then first else k;
    }
    forall t <- timers
      ensures v <= t
    {
      assert t == k || t in rest;
    }
  }
}
