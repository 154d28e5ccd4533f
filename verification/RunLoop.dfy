// The run loop of the daemon: timers, retransmissions, delayed responses, resolver timeouts and expiry.
module RunLoop {
  import opened Bytes
  import opened DnsName
  import opened DnsRecords
  import opened CacheState
  import opened DnsCache

  const MAX_DELAY := 3600
  const MAX_RESOLVE_TRIES := 5
  const RESOLVE_WAIT := 500

  datatype Command =
    | Browse(ty: bytes, delay: nat, cacheOnly: bool)
    | ResolveHostname(hostname: bytes, delay: nat, timeout: Option<nat>)
    | Resolve(instance: bytes, tryCount: nat)
    | Verify(instance: bytes, patience: nat)
    | Register(fullname: bytes, ifIndexes: seq<u32>)
    | RegisterResend(fullname: bytes, ifIndex: u32)
    | Unregister(fullname: bytes, packets: seq<bytes>)
    | UnregisterResend(packet: bytes)
    | StopBrowse(ty: bytes)
    | StopResolveHostname(hostname: bytes)
  {
    /** Commands that wait in the retransmission list; their delay is never zero. */
    predicate Repeats() {
      match this
      case Browse(_, delay, _) => 1 <= delay <= MAX_DELAY
      case ResolveHostname(_, delay, _) => 1 <= delay <= MAX_DELAY
      case Resolve(_, tryCount) => 1 <= tryCount <= MAX_RESOLVE_TRIES
      case Verify(_, _) => true
      case RegisterResend(_, _) => true
      case UnregisterResend(_) => true
      case _ => false
    }
  }

  datatype ReRun = ReRun(nextTime: nat, command: Command)

  datatype DelayedResponse = DelayedResponse(nextTime: nat, answers: seq<Record>, ifIndex: u32, isIpv4: bool)

  function Filter<T(!new)>(s: seq<T>, p: T -> bool): (r: seq<T>)
    ensures forall x :: x in r <==> x in s && p(x)
  {
    if s == [] then []
    else
      var front := Filter(s[..|s| - 1], p);
      if p(s[|s| - 1]) then front + [s[|s| - 1]] else front
  }

  lemma FilterStep<T(!new)>(s: seq<T>, k: nat, p: T -> bool)
    requires k < |s|
    ensures Filter(s[..k + 1], p) == if p(s[k]) then Filter(s[..k], p) + [s[k]] else Filter(s[..k], p)
  {
    assert s[..k + 1][..k] == s[..k];
  }

  lemma FilterOne<T(!new)>(x: T, p: T -> bool)
    ensures Filter([x], p) == if p(x) then [x] else []
  {
    assert [x][..0] == [];
  }

  lemma {:induction false} FilterConcat<T(!new)>(a: seq<T>, b: seq<T>, p: T -> bool)
    ensures Filter(a + b, p) == Filter(a, p) + Filter(b, p)
    decreases |b|
  {
    if b == [] {
      assert a + b == a;
    } else {
      var n := |b| - 1;
      assert (a + b)[..|a + b| - 1] == a + b[..n];
      FilterConcat(a, b[..n], p);
    }
  }

  lemma {:induction false} FilterAll<T(!new)>(s: seq<T>, p: T -> bool)
    requires forall x <- s :: p(x)
    ensures Filter(s, p) == s
  {
    if s != [] {
      var front, last := s[..|s| - 1], s[|s| - 1];
      FilterAll(front, p);
      assert s == front + [last] && last in s;
    }
  }

  lemma {:induction false} FiltersCommute<T(!new)>(s: seq<T>, p: T -> bool, q: T -> bool)
    ensures Filter(Filter(s, p), q) == Filter(Filter(s, q), p)
  {
    if s != [] {
      var front, last := s[..|s| - 1], s[|s| - 1];
      FiltersCommute(front, p, q);
      FilterConcat(Filter(front, p), [last], q);
      FilterConcat(Filter(front, q), [last], p);
      FilterOne(last, p);
      FilterOne(last, q);
    }
  }

  function NotBrowse(ty: bytes): ReRun -> bool {
    (r: ReRun) => !(r.command.Browse? && r.command.ty == ty)
  }

  function NotResolve(instances: set<bytes>): ReRun -> bool {
    (r: ReRun) => !(r.command.Resolve? && r.command.instance in instances)
  }

  function NotDue(now: nat): ReRun -> bool {
    (r: ReRun) => now < r.nextTime
  }

  function IsDue(now: nat): ReRun -> bool {
    (r: ReRun) => now >= r.nextTime
  }

  function ResponseNotDue(now: nat): DelayedResponse -> bool {
    (d: DelayedResponse) => now < d.nextTime
  }

  function ResponseDue(now: nat): DelayedResponse -> bool {
    (d: DelayedResponse) => now >= d.nextTime
  }

  function StillAlive(now: nat): Record -> bool {
    (r: Record) => !r.life.IsExpired(now)
  }

  function Gone(now: nat): Record -> bool {
    (r: Record) => r.life.IsExpired(now)
  }

  function Removals(records: seq<Record>): seq<CacheState.Op> {
    seq(|records|, i requires 0 <= i < |records| => RemoveRecord(records[i], 0))
  }

  function Additions(records: seq<Record>, src: InterfaceId, isForUs: bool, times: seq<nat>): seq<CacheState.Op>
    requires |times| == |records|
  {
    seq(|records|, i requires 0 <= i < |records| => Add(records[i], src, isForUs, times[i]))
  }

  lemma RunMore(s: State, ops: seq<CacheState.Op>, op: CacheState.Op)
    ensures Run(s, ops + [op]) == CacheState.After(Run(s, ops), op)
  {
    assert (ops + [op])[..|ops|] == ops;
  }

  lemma {:induction false} RunConcat(s: State, a: seq<CacheState.Op>, b: seq<CacheState.Op>)
    ensures Run(s, a + b) == Run(Run(s, a), b)
    decreases |b|
  {
    hide CacheState.After;
    if b == [] {
      assert a + b == a;
    } else {
      var front, last := b[..|b| - 1], b[|b| - 1];
      RunConcat(s, a, front);
      assert a + b == (a + front) + [last];
      RunMore(s, a + front, last);
    }
  }

  predicate TimedOut(timeout: Option<nat>, now: nat) {
    timeout.Some? && now >= timeout.value
  }

  /** RFC 6762 section 5.2: the interval between queries doubles, up to an hour. */
  function NextDelay(delay: nat): nat {
    if delay * 2 < MAX_DELAY then delay * 2 else MAX_DELAY
  }

  /** The interval behind so many queries, in seconds. */
  function DelayAfter(queries: nat): nat {
    if queries == 0 then 1 else NextDelay(DelayAfter(queries - 1))
  }

  function Doubled(times: nat): nat {
    if times == 0 then 1 else 2 * Doubled(times - 1)
  }

  /** The intervals double with each query, until they stay at an hour from the twelfth on. */
  lemma {:induction false} DelaysDouble(queries: nat)
    ensures DelayAfter(queries) == if queries < 12 then Doubled(queries) else 3600
    ensures queries < 12 ==> Doubled(queries) <= 2048
    ensures queries == 11 ==> Doubled(queries) == 2048
  {
    if queries > 0 {
      DelaysDouble(queries - 1);
      assert Doubled(queries) == 2 * Doubled(queries - 1);
      if queries < 12 { DoubledUpTo(queries); }
    }
  }

  lemma DoubledUpTo(times: nat)
    requires times < 12
    ensures Doubled(times) <= 2048 && (times < 11 ==> Doubled(times) <= 1024)
    ensures times == 11 ==> Doubled(times) == 2048
  {
    assert Doubled(3) == 8;
    assert Doubled(6) == 64;
    assert Doubled(9) == 512;
    assert Doubled(11) == 2048;
  }

  /** The five tries for an instance are half a second, one, two and four seconds apart. */
  lemma TriesDouble(tryCount: nat)
    requires 1 <= tryCount < MAX_RESOLVE_TRIES
    ensures ResolveGap(tryCount) == 500 * Doubled(tryCount - 1) && MAX_RESOLVE_TRIES == 5
  {
    assert Doubled(1) == 2 && Doubled(2) == 4 && Doubled(3) == 8;
  }

  /** Half a second, then one, two and four. */
  function ResolveGap(tryCount: nat): nat {
    if tryCount <= 1 then RESOLVE_WAIT
    else if tryCount == 2 then RESOLVE_WAIT * 2
    else if tryCount == 3 then RESOLVE_WAIT * 4
    else RESOLVE_WAIT * 8
  }

  /** Whether a query for a host name is sent again at `next`: not after the timeout of its resolver. */
  predicate QueriesHostAgain(resolvers: map<bytes, Option<nat>>, hostname: bytes, next: nat) {
    hostname in resolvers && resolvers[hostname].Some? ==> next < resolvers[hostname].value
  }

  /** The instances that are advertised under `ty` and do not expire within a second. */
  function LiveInstances(ptr: Table, ty: bytes, now: nat): set<bytes> {
    if ty in ptr then
      set e | e in ptr[ty] && !e.rec.life.ExpiresSoon(now) && AliasOf(e).Some? :: AliasOf(e).value
    else {}
  }

  /** An instance is live exactly if a PTR record of the type leads to it that has more than a second left. */
  lemma LiveIff(ptr: Table, ty: bytes, now: nat, instance: bytes)
    ensures instance in LiveInstances(ptr, ty, now) <==>
            ty in ptr && exists e <- ptr[ty] ::
              e.rec.rdata.Pointer? && e.rec.rdata.alias == instance && e.rec.life.expires > now + 1000
  {
  }

  // ----- Deadlines and timers -----

  /** A deadline after the last pop has a timer. */
  predicate Waiting(deadline: nat, timers: multiset<nat>, lastPop: nat) {
    deadline > lastPop ==> deadline in timers
  }

  ghost predicate BucketTimed(b: Bucket, timers: multiset<nat>, lastPop: nat) {
    forall e <- b :: Waiting(e.rec.life.expires, timers, lastPop)
  }

  /** Every cached record that expires after the last pop has a timer for that. */
  ghost predicate CacheTimed(s: State, timers: multiset<nat>, lastPop: nat) {
    forall kind: Kind, key: bytes :: BucketTimed(s.BucketOf(kind, key), timers, lastPop)
  }

  ghost predicate QueueTimed(rs: seq<ReRun>, timers: multiset<nat>, lastPop: nat) {
    forall r <- rs :: Waiting(r.nextTime, timers, lastPop) && r.command.Repeats()
  }

  ghost predicate DelayedTimed(ds: seq<DelayedResponse>, timers: multiset<nat>, lastPop: nat) {
    forall d <- ds :: Waiting(d.nextTime, timers, lastPop)
  }

  ghost predicate ResolversTimed(m: map<bytes, Option<nat>>, timers: multiset<nat>, lastPop: nat) {
    forall h <- m :: m[h].Some? ==> Waiting(m[h].value, timers, lastPop)
  }

  /** All timeouts of resolvers have timers, passed or not. */
  ghost predicate TimeoutsIn(m: map<bytes, Option<nat>>, timers: multiset<nat>) {
    forall h <- m :: m[h].Some? ==> m[h].value in timers
  }

  lemma MoreForQueues(
    rs: seq<ReRun>, ds: seq<DelayedResponse>, timers: multiset<nat>, timers': multiset<nat>, lastPop: nat)
    requires QueueTimed(rs, timers, lastPop) && DelayedTimed(ds, timers, lastPop) && timers <= timers'
    ensures QueueTimed(rs, timers', lastPop) && DelayedTimed(ds, timers', lastPop)
  {
  }

  lemma OneMoreResolver(
    m: map<bytes, Option<nat>>, timers: multiset<nat>, lastPop: nat, key: bytes, timeout: Option<nat>,
    timers': multiset<nat>)
    requires ResolversTimed(m, timers, lastPop) && timers <= timers' && (timeout.Some? ==> timeout.value in timers')
    ensures ResolversTimed(m[key := timeout], timers', lastPop)
    ensures TimeoutsIn(m, timers) ==> TimeoutsIn(m[key := timeout], timers')
  {
  }

  lemma MoreTimers(s: State, timers: multiset<nat>, timers': multiset<nat>, lastPop: nat)
    requires CacheTimed(s, timers, lastPop) && timers <= timers'
    ensures CacheTimed(s, timers', lastPop)
  {
    forall kind: Kind, key: bytes
      ensures BucketTimed(s.BucketOf(kind, key), timers', lastPop)
    {
      assert BucketTimed(s.BucketOf(kind, key), timers, lastPop);
    }
  }

  /** What is taken into the cache, and what it flushes, has a timer afterwards. */
  lemma AddTimed(
    s: State, incoming: Record, src: InterfaceId, isForUs: bool, now: nat, timers: multiset<nat>, lastPop: nat)
    requires CacheTimed(s, timers, lastPop)
    ensures var v := AddVerdict(s, incoming, src, isForUs, now);
            var more := if v.Added? then multiset(v.timers) + multiset{v.entry.rec.life.expires} else multiset{};
            CacheTimed(AfterAdd(s, incoming, src, isForUs, now), timers + more, lastPop)
  {
    hide FlushBucket, FlushTimers, KeyFor, AddToBucket, BucketTimed;
    var v, s' := AddVerdict(s, incoming, src, isForUs, now), AfterAdd(s, incoming, src, isForUs, now);
    if v.Added? {
      var more := multiset(v.timers) + multiset{v.entry.rec.life.expires};
      MoreTimers(s, timers, timers + more, lastPop);
      var kind, key := KindOf(incoming).value, KeyFor(incoming);
      var b := s.BucketOf(kind, key);
      assert BucketTimed(b, timers, lastPop);
      AddBucketTimed(b, incoming, src, now, timers, lastPop);
      forall k: Kind, y: bytes
        ensures BucketTimed(s'.BucketOf(k, y), timers + more, lastPop)
      {
        if k != kind || y != key {
          assert s'.BucketOf(k, y) == s.BucketOf(k, y);
          assert BucketTimed(s.BucketOf(k, y), timers + more, lastPop);
        }
      }
    } else {
      assert timers + multiset{} == timers;
    }
  }

  lemma AddBucketTimed(b: Bucket, incoming: Record, src: InterfaceId, now: nat, timers: multiset<nat>, lastPop: nat)
    requires BucketTimed(b, timers, lastPop)
    ensures var c := if incoming.flush then FlushBucket(b, incoming, now) else b;
            var i, r := FirstMatch(c, incoming, 0), AddToBucket(c, incoming, src);
            var flushed := if incoming.flush then FlushTimers(b, incoming, now, |b|) else [];
            var added := r[if i < |c| then i else 0];
            BucketTimed(r, timers + (multiset(flushed) + multiset{added.rec.life.expires}), lastPop)
  {
    hide FlushBucket, FlushTimers, Record.Matches, Life.ResetTtl;
    var c := if incoming.flush then FlushBucket(b, incoming, now) else b;
    var i, r := FirstMatch(c, incoming, 0), AddToBucket(c, incoming, src);
    var flushed := if incoming.flush then FlushTimers(b, incoming, now, |b|) else [];
    if incoming.flush { FlushTimed(b, incoming, now, timers, lastPop); }
    forall e <- r
      ensures e in c || e == r[if i < |c| then i else 0]
    {
    }
  }

  lemma FlushTimed(b: Bucket, incoming: Record, now: nat, timers: multiset<nat>, lastPop: nat)
    requires BucketTimed(b, timers, lastPop)
    ensures forall e <- FlushBucket(b, incoming, now) ::
              Waiting(e.rec.life.expires, timers, lastPop)
              || e.rec.life.expires in FlushTimers(b, incoming, now, |b|)
  {
    hide FlushBucket, FlushTimers, Waiting;
    var c := FlushBucket(b, incoming, now);
    forall e <- c
      ensures Waiting(e.rec.life.expires, timers, lastPop)
              || e.rec.life.expires in FlushTimers(b, incoming, now, |b|)
    {
      var j: nat :| j < |c| && c[j] == e;
      assert b[j] in b;
      FlushedOneTimed(b, incoming, now, j, timers, lastPop);
    }
  }

  lemma FlushedOneTimed(b: Bucket, incoming: Record, now: nat, j: nat, timers: multiset<nat>, lastPop: nat)
    requires j < |b| && Waiting(b[j].rec.life.expires, timers, lastPop)
    ensures var e := FlushBucket(b, incoming, now)[j];
            || Waiting(e.rec.life.expires, timers, lastPop)
            || e.rec.life.expires in FlushTimers(b, incoming, now, |b|)
  {
    hide FlushBucket, FlushTimers;
    FlushShortens(b, incoming, now, |b|);
  }

  /** If no life gets another end but `at`, the timer for `at` is enough. */
  lemma ShorterTimed(s: State, s': State, at: nat, timers: multiset<nat>, lastPop: nat)
    requires CacheTimed(s, timers, lastPop) && EndsAt(s, s', at)
    ensures CacheTimed(s', timers + multiset{at}, lastPop)
  {
    forall kind: Kind, key: bytes
      ensures BucketTimed(s'.BucketOf(kind, key), timers + multiset{at}, lastPop)
    {
      assert BucketTimed(s.BucketOf(kind, key), timers, lastPop);
      assert BucketEndsAt(s.BucketOf(kind, key), s'.BucketOf(kind, key), at);
    }
  }

  ghost predicate BucketEndsAt(b: Bucket, b': Bucket, at: nat) {
    forall e <- b' :: e.rec.life.expires == at || exists o <- b :: o.rec.life.expires == e.rec.life.expires
  }

  ghost predicate EndsAt(s: State, s': State, at: nat) {
    forall kind: Kind, key: bytes :: BucketEndsAt(s.BucketOf(kind, key), s'.BucketOf(kind, key), at)
  }

  lemma SoonerEndsAt(s: State, kind: Kind, key: bytes, at: nat)
    ensures EndsAt(s, OnBucket(s, kind, key, SoonerIn(s.BucketOf(kind, key), at)), at)
  {
    var b := s.BucketOf(kind, key);
    var s' := OnBucket(s, kind, key, SoonerIn(b, at));
    assert BucketEndsAt(b, SoonerIn(b, at), at) by {
      forall e <- SoonerIn(b, at)
        ensures e.rec.life.expires == at || exists o <- b :: o.rec.life.expires == e.rec.life.expires
      {
        var i :| 0 <= i < |b| && SoonerIn(b, at)[i] == e;
        assert b[i] in b;
      }
    }
    forall k: Kind, y: bytes
      ensures BucketEndsAt(s.BucketOf(k, y), s'.BucketOf(k, y), at)
    {
      assert s'.BucketOf(k, y) == s.BucketOf(k, y) || (k == kind && y == key);
    }
  }

  lemma EndsAtTwice(a: State, b: State, c: State, at: nat)
    requires EndsAt(a, b, at) && EndsAt(b, c, at)
    ensures EndsAt(a, c, at)
  {
    forall kind: Kind, key: bytes
      ensures BucketEndsAt(a.BucketOf(kind, key), c.BucketOf(kind, key), at)
    {
      assert BucketEndsAt(a.BucketOf(kind, key), b.BucketOf(kind, key), at);
      assert BucketEndsAt(b.BucketOf(kind, key), c.BucketOf(kind, key), at);
    }
  }

  lemma {:induction false} HostsEndAt(s: State, b: Bucket, at: nat)
    ensures EndsAt(s, SoonerHosts(s, b, at), at)
  {
    hide EndsAt, SoonerIn;
    if b == [] {
      SameEnds(s, at);
    } else {
      var front := SoonerHosts(s, b[..|b| - 1], at);
      HostsEndAt(s, b[..|b| - 1], at);
      match b[|b| - 1].rec.rdata
      case Srv(_, _, _, host) =>
        SoonerEndsAt(front, AddrKind, host, at);
        EndsAtTwice(s, front, SoonerHosts(s, b, at), at);
      case _ =>
    }
  }

  lemma SameEnds(s: State, at: nat)
    ensures EndsAt(s, s, at)
  {
  }

  lemma VerifiedTimed(s: State, instance: bytes, at: nat, timers: multiset<nat>, lastPop: nat)
    requires CacheTimed(s, timers, lastPop)
    ensures CacheTimed(Verified(s, instance, at), timers + multiset{at}, lastPop)
  {
    hide EndsAt, SoonerIn, SoonerHosts, CacheTimed;
    var s1 := OnBucket(s, SrvKind, instance, SoonerIn(s.BucketOf(SrvKind, instance), at));
    SoonerEndsAt(s, SrvKind, instance, at);
    HostsEndAt(s1, s.BucketOf(SrvKind, instance), at);
    EndsAtTwice(s, s1, Verified(s, instance, at), at);
    ShorterTimed(s, Verified(s, instance, at), at, timers, lastPop);
  }

  /** The state after has no records that were not there before. */
  lemma FewerTimed(s: State, s': State, timers: multiset<nat>, lastPop: nat)
    requires CacheTimed(s, timers, lastPop)
    requires forall kind: Kind, key: bytes, e :: e in s'.BucketOf(kind, key) ==> e in s.BucketOf(kind, key)
    ensures CacheTimed(s', timers, lastPop)
  {
    forall kind: Kind, key: bytes
      ensures BucketTimed(s'.BucketOf(kind, key), timers, lastPop)
    {
      assert BucketTimed(s.BucketOf(kind, key), timers, lastPop);
    }
  }

  lemma RemoveTimed(s: State, rec: Record, timers: multiset<nat>, lastPop: nat)
    requires CacheTimed(s, timers, lastPop)
    ensures CacheTimed(CacheState.After(s, RemoveRecord(rec, 0)), timers, lastPop)
  {
    hide CacheTimed, Record.Matches;
    FewerTimed(s, CacheState.After(s, RemoveRecord(rec, 0)), timers, lastPop);
  }

  lemma EvictTimed(s: State, now: nat, timers: multiset<nat>, lastPop: nat)
    requires CacheTimed(s, timers, lastPop)
    ensures CacheTimed(CacheState.After(s, EvictAddr(now)), timers, lastPop)
  {
    hide CacheTimed;
    FewerTimed(s, CacheState.After(s, EvictAddr(now)), timers, lastPop);
  }

  lemma EvictServicesTimed(s: State, now: nat, timers: multiset<nat>, lastPop: nat)
    requires CacheTimed(s, timers, lastPop)
    ensures CacheTimed(CacheState.After(s, EvictServices(now)), timers, lastPop)
  {
    hide CacheTimed, WithoutExpired;
    forall kind: Kind, key: bytes, e
      ensures e in WithoutExpired(s, now).BucketOf(kind, key) ==> e in s.BucketOf(kind, key)
    {
      ExpiredLeftIff(s, now, kind, key, e);
    }
    FewerTimed(s, WithoutExpired(s, now), timers, lastPop);
  }

  lemma DisableTimed(s: State, index: u32, v4: bool, v6: bool, timers: multiset<nat>, lastPop: nat)
    requires CacheTimed(s, timers, lastPop)
    ensures CacheTimed(CacheState.After(s, DisableAddrs(index, v4, v6, 0)), timers, lastPop)
  {
    hide CacheTimed, NotDisabled;
    FewerTimed(s, CacheState.After(s, DisableAddrs(index, v4, v6, 0)), timers, lastPop);
  }

  lemma InterfaceTimed(s: State, id: InterfaceId, timers: multiset<nat>, lastPop: nat)
    requires CacheTimed(s, timers, lastPop)
    ensures CacheTimed(WithoutInterface(s, id), timers, lastPop)
  {
    hide CacheTimed, Removal;
    forall kind: Kind, key: bytes, e
      ensures e in WithoutInterface(s, id).BucketOf(kind, key) ==> e in s.BucketOf(kind, key)
    {
      OnlyInterfaceRecordsGo(s, id, kind, key, e);
    }
    FewerTimed(s, WithoutInterface(s, id), timers, lastPop);
  }

  /** After a pop till `now`, `now` is the last pop. */
  lemma PopTimed(s: State, timers: multiset<nat>, timers': multiset<nat>, lastPop: nat, now: nat)
    requires CacheTimed(s, timers, lastPop) && lastPop <= now
    requires forall t: nat :: t > now ==> timers'[t] == timers[t]
    ensures CacheTimed(s, timers', now)
  {
    forall kind: Kind, key: bytes
      ensures BucketTimed(s.BucketOf(kind, key), timers', now)
    {
      assert BucketTimed(s.BucketOf(kind, key), timers, lastPop);
    }
  }
}
