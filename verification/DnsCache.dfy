// The cache as the daemon uses it: methods over the four tables.
module DnsCache {
  import opened Bytes
  import opened DnsName
  import opened DnsRecords
  import opened RecordLife
  import opened CacheState

  /** What a lost interface took with it: (type, instance) pairs, and instances that changed. */
  datatype IntfRemoval = IntfRemoval(removed: set<(bytes, bytes)>, modified: set<bytes>)

  /** The keys outside `gone` under which a record came through `id`. */
  function Touched(t: Table, gone: set<bytes>, id: InterfaceId): set<bytes> {
    set key | key in t && key !in gone && exists e <- t[key] :: e.src == id
  }

  /** The instances with an SRV record that points to one of `hosts`. */
  function PointingTo(srv: Table, hosts: set<bytes>): set<bytes> {
    set key | key in srv && exists e <- srv[key] :: e.rec.rdata.Srv? && Lower(e.rec.rdata.host) in hosts
  }

  function Removal(s: State, id: InterfaceId): IntfRemoval {
    var gone := AllRemoved(s.ptr, id);
    IntfRemoval(
      RemovedInstances(s.ptr, id),
      Touched(s.srv, gone, id) + Touched(s.txt, gone, id)
      + PointingTo(WithoutInterface(s, id).srv, Touched(s.addr, {}, id)))
  }

  /** What an instance has lost under `kind` and `key`. */
  ghost predicate Lost(before: State, after: State, kind: Kind, key: bytes) {
    exists e :: e in before.BucketOf(kind, key) && e !in after.BucketOf(kind, key)
  }

  ghost predicate Changed(before: State, after: State, id: InterfaceId, instance: bytes) {
    || ((forall ty :: (ty, instance) !in Removal(before, id).removed)
        && (Lost(before, after, SrvKind, instance) || Lost(before, after, TxtKind, instance)))
    || exists e <- after.BucketOf(SrvKind, instance) ::
         e.rec.rdata.Srv? && Lost(before, after, AddrKind, Lower(e.rec.rdata.host))
  }

  /** The fully removed pairs are those whose last PTR record went. */
  lemma RemovedIffLastPtrWent(s: State, id: InterfaceId, ty: bytes, instance: bytes)
    ensures (ty, instance) in Removal(s, id).removed
       <==> HasPtr(s.ptr, ty, instance) && !HasPtr(WithoutInterface(s, id).ptr, ty, instance)
  {
    hide Touched, PointingTo;
    var after := WithoutInterface(s, id).ptr;
    if ty in s.ptr {
      assert forall e :: e in Keep(s.ptr[ty], e => NotFrom(e, id)) <==> e in s.ptr[ty] && e.src != id;
      if (ty, instance) in Removal(s, id).removed {
        assert instance in LostUnder(s.ptr[ty], id);
        var e :| e in s.ptr[ty] && e.src == id && AliasOf(e) == Some(instance)
                 && !exists o <- s.ptr[ty] :: o.src != id && AliasOf(o) == AliasOf(e);
      }
      if HasPtr(s.ptr, ty, instance) && !HasPtr(after, ty, instance) {
        var e :| e in s.ptr[ty] && AliasOf(e) == Some(instance);
        assert e.src == id;
        assert instance in LostUnder(s.ptr[ty], id);
      }
    }
  }

  lemma GoneIff(s: State, id: InterfaceId, instance: bytes)
    ensures instance in AllRemoved(s.ptr, id) <==> exists ty :: (ty, instance) in Removal(s, id).removed
  {
    hide LostUnder, Touched, PointingTo;
    if instance in AllRemoved(s.ptr, id) {
      var ty :| ty in s.ptr && instance in LostUnder(s.ptr[ty], id);
      assert (ty, instance) in Removal(s, id).removed;
    }
    if ty :| (ty, instance) in Removal(s, id).removed {
      assert ty in s.ptr && instance in LostUnder(s.ptr[ty], id);
    }
  }

  /** Exactly the records of the interface go, and SRV and TXT records of removed instances. */
  lemma OnlyInterfaceRecordsGo(s: State, id: InterfaceId, kind: Kind, key: bytes, e: Entry)
    ensures e in WithoutInterface(s, id).BucketOf(kind, key)
       <==> e in s.BucketOf(kind, key) && e.src != id
            && !((kind == SrvKind || kind == TxtKind)
                 && exists ty :: (ty, key) in Removal(s, id).removed)
  {
    hide Touched, PointingTo, LostUnder;
    GoneIff(s, id, key);
  }

  /**
   * An instance is reported as modified exactly if it stays and loses an SRV or TXT record, or if the
   * host of an SRV record that is left loses an address.
   */
  lemma ModifiedIff(s: State, id: InterfaceId, instance: bytes)
    ensures instance in Removal(s, id).modified <==> Changed(s, WithoutInterface(s, id), id, instance)
  {
    hide LostUnder, Lower, WithoutInterface;
    var after := WithoutInterface(s, id);
    var gone := AllRemoved(s.ptr, id);
    GoneIff(s, id, instance);
    LostIffTouched(s, id, SrvKind, instance);
    LostIffTouched(s, id, TxtKind, instance);
    forall host: bytes
      ensures host in Touched(s.addr, {}, id) <==> Lost(s, after, AddrKind, host)
    {
      LostIffTouched(s, id, AddrKind, host);
    }
  }

  lemma LostIffTouched(s: State, id: InterfaceId, kind: Kind, key: bytes)
    requires kind != PtrKind
    ensures var gone := if kind == AddrKind then {} else AllRemoved(s.ptr, id);
            key !in gone ==> (key in Touched(s.Of(kind), gone, id) <==> Lost(s, WithoutInterface(s, id), kind, key))
  {
    hide LostUnder, AllRemoved;
    var after := WithoutInterface(s, id);
    assert forall e :: key in s.Of(kind) ==>
             (e in Keep(s.Of(kind)[key], e => NotFrom(e, id)) <==> e in s.Of(kind)[key] && e.src != id);
    var gone := if kind == AddrKind then {} else AllRemoved(s.ptr, id);
    if key !in gone && key in Touched(s.Of(kind), gone, id) {
      var e :| e in s.Of(kind)[key] && e.src == id;
      assert e in s.BucketOf(kind, key) && e !in after.BucketOf(kind, key);
    }
  }

  /** A record is listed as a known answer exactly if it is shared and at most half of its TTL is over. */
  lemma ListedIff(b: Bucket, now: nat, e: Entry)
    ensures e in Keep(b, (e: Entry) => IsKnownAnswer(e.rec, now)) <==>
            e in b && !e.rec.flush && now <= e.rec.life.created + 500 * e.rec.life.ttl
  {
  }

  /** An address as it is reported to listeners: the name as received, and the address. */
  function Expired(t: Table, now: nat): set<(bytes, RData)> {
    set key, e | key in t && e in t[key] && e.rec.life.IsExpired(now) :: (e.rec.GetName(), e.rec.rdata)
  }

  /** The SRV records of `instance` have all expired. */
  predicate Spent(srv: Table, instance: bytes, now: nat) {
    instance in srv && Keep(srv[instance], Living(now)) == []
  }

  /** The instances that an eviction reports under `ty`, if no other type comes first. */
  function Over(s: State, ty: bytes, now: nat): set<bytes>
    requires ty in s.ptr
  {
    (set i | i in AliasesIn(s.ptr[ty]) && Spent(s.srv, i, now))
    + set e | e in s.ptr[ty] && e.rec.life.IsExpired(now) && AliasOf(e).Some? :: AliasOf(e).value
  }

  /** The eviction when the types `done` have been looked at. */
  function Evicting(s: State, done: set<bytes>, now: nat): State
    requires done <= s.ptr.Keys
  {
    var named := set ty, i | ty in done && i in AliasesIn(s.ptr[ty]) :: i;
    State(KeptIn(s.ptr, done, Living(now)), RetainedIn(s.srv, named, Living(now)), KeptIn(s.txt, named, Living(now)),
          s.addr)
  }

  lemma NoneIn(srv: Table, t: Table, p: Entry -> bool)
    ensures RetainedIn(srv, {}, p) == srv && KeptIn(t, {}, p) == t && AliasesIn([]) == {}
  {
  }

  lemma OneMoreAlias(b: Bucket, i: nat)
    requires i < |b|
    ensures AliasesIn(b[..i + 1]) == match AliasOf(b[i])
                                     case Some(instance) => AliasesIn(b[..i]) + {instance}
                                     case None => AliasesIn(b[..i])
  {
    assert b[..i + 1] == b[..i] + [b[i]];
  }

  /** An instance is spent once. */
  lemma SpentOnce(srv: Table, seen: set<bytes>, instance: bytes, now: nat)
    ensures Spent(RetainedIn(srv, seen, Living(now)), instance, now) <==> Spent(srv, instance, now) && instance !in seen
  {
    hide Keep;
    if instance in srv { KeepTwice(srv[instance], Living(now)); }
  }

  /** What an eviction has reported when the types `done` have been looked at. */
  function Reported(s: State, done: set<bytes>, now: nat): set<bytes>
    requires done <= s.ptr.Keys
  {
    set ty, i | ty in done && i in Over(s, ty, now) :: i
  }

  lemma EvictStart(s: State, now: nat)
    ensures Evicting(s, {}, now) == s && Reported(s, {}, now) == {}
  {
  }

  lemma EvictNext(s: State, done: set<bytes>, ty: bytes, now: nat)
    requires done <= s.ptr.Keys && ty in s.ptr && ty !in done
    ensures var mid, named, p := Evicting(s, done, now), AliasesIn(s.ptr[ty]), Living(now);
            && mid.ptr.Keys == s.ptr.Keys && mid.ptr[ty] == s.ptr[ty]
            && Evicting(s, done + {ty}, now)
               == State(mid.ptr[ty := Keep(s.ptr[ty], p)], RetainedIn(mid.srv, named, p), KeptIn(mid.txt, named, p),
                        mid.addr)
  {
    hide Keep, AliasesIn;
    var named, p := set y, i | y in done && i in AliasesIn(s.ptr[y]) :: i, Living(now);
    assert (set y, i | y in done + {ty} && i in AliasesIn(s.ptr[y]) :: i) == named + AliasesIn(s.ptr[ty]);
    KeptInMore(s.srv, named, AliasesIn(s.ptr[ty]), p);
    KeptInMore(s.txt, named, AliasesIn(s.ptr[ty]), p);
  }

  lemma ReportNext(s: State, done: set<bytes>, ty: bytes, now: nat, spent: set<bytes>, lost: set<Entry>)
    requires done <= s.ptr.Keys && ty in s.ptr && ty !in done
    requires spent == set i | i in AliasesIn(s.ptr[ty]) && Spent(Evicting(s, done, now).srv, i, now)
    requires lost == set e | e in s.ptr[ty] && !Living(now)(e)
    ensures Reported(s, done + {ty}, now)
         == Reported(s, done, now) + spent + set e | e in lost && AliasOf(e).Some? :: AliasOf(e).value
  {
    var named := set y, i | y in done && i in AliasesIn(s.ptr[y]) :: i;
    forall i
      ensures Spent(Evicting(s, done, now).srv, i, now) <==> Spent(s.srv, i, now) && i !in named
    {
      SpentOnce(s.srv, named, i, now);
    }
    var gone := set e | e in lost && AliasOf(e).Some? :: AliasOf(e).value;
    assert Over(s, ty, now) == (set i | i in AliasesIn(s.ptr[ty]) && Spent(s.srv, i, now)) + gone;
    hide AliasesIn, Spent, Evicting, Over;
    assert Reported(s, done + {ty}, now) == Reported(s, done, now) + Over(s, ty, now);
    forall i | i in AliasesIn(s.ptr[ty]) && Spent(s.srv, i, now)
      ensures i in Reported(s, done, now) || i in spent
    {
      if i in named {
        var y :| y in done && i in AliasesIn(s.ptr[y]);
        SpentIsOver(s, y, i, now);
      }
    }
  }

  lemma SpentIsOver(s: State, ty: bytes, instance: bytes, now: nat)
    requires ty in s.ptr && instance in AliasesIn(s.ptr[ty]) && Spent(s.srv, instance, now)
    ensures instance in Over(s, ty, now)
  {
  }

  lemma EvictEnd(s: State, now: nat)
    ensures Evicting(s, s.ptr.Keys, now) == WithoutExpired(s, now)
  {
  }

  /** The queries that verify an instance with the given SRV records. */
  function VerifyQueries(b: Bucket): seq<(bytes, RRType)> {
    if b == [] then []
    else
      VerifyQueries(b[..|b| - 1]) +
      match b[|b| - 1].rec.rdata
      case Srv(_, _, _, host) => [(host, A), (host, AAAA)]
      case _ => []
  }

  /** Both kinds of address are asked for, of each target and of nothing else. */
  lemma {:induction false} VerifyQueriesIff(b: Bucket, q: (bytes, RRType))
    ensures q in VerifyQueries(b) <==>
            exists e <- b :: e.rec.rdata.Srv? && (q == (e.rec.rdata.host, A) || q == (e.rec.rdata.host, AAAA))
  {
    if b != [] {
      var front, last := b[..|b| - 1], b[|b| - 1];
      VerifyQueriesIff(front, q);
      assert last in b && forall e :: e in b <==> e in front || e == last;
    }
  }

  /** Cuts the lives of the addresses that the SRV records of `b` point to. */
  function SoonerHosts(s: State, b: Bucket, at: nat): State {
    if b == [] then s
    else
      var front := SoonerHosts(s, b[..|b| - 1], at);
      match b[|b| - 1].rec.rdata
      case Srv(_, _, _, host) => OnBucket(front, AddrKind, host, SoonerIn(front.BucketOf(AddrKind, host), at))
      case _ => front
  }

  function Verified(s: State, instance: bytes, at: nat): State {
    SoonerHosts(OnBucket(s, SrvKind, instance, SoonerIn(s.BucketOf(SrvKind, instance), at)),
                s.BucketOf(SrvKind, instance), at)
  }

  /**
   * A record that is taken in is found in the cache afterwards, with the life of the one that came in;
   * it is new exactly if no record of its bucket matched it, and a renewed one keeps its place.
   */
  lemma AddedIsFound(s: State, incoming: Record, src: InterfaceId, isForUs: bool, now: nat)
    requires Accepts(s, incoming, isForUs)
    ensures var v := AddVerdict(s, incoming, src, isForUs, now);
            var kind, key := KindOf(incoming).value, KeyFor(incoming);
            var b := s.BucketOf(kind, key);
            var b' := AfterAdd(s, incoming, src, isForUs, now).BucketOf(kind, key);
            && v.Added? && v.entry in b' && v.entry.rec.Matches(incoming)
            && (v.isNew <==> forall e <- b :: !e.rec.Matches(incoming))
            && |b'| == |b| + (if v.isNew then 1 else 0)
            && (v.isNew ==> v.entry == Entry(incoming, src))
            && (!v.isNew ==> v.entry.rec.life == NewLife(incoming.life.ttl, incoming.life.created)
                             || (incoming.life.ttl <= 1 && v.entry.rec.life.ttl == incoming.life.ttl
                                 && v.entry.rec.life.refresh == v.entry.rec.life.expires))
  {
    hide KeyFor;
    var b := s.BucketOf(KindOf(incoming).value, KeyFor(incoming));
    var c := if incoming.flush then FlushBucket(b, incoming, now) else b;
    FlushKeepsIdentity(b, incoming, now);
    var i := FirstMatch(c, incoming, 0);
    if i < |c| {
      assert b[i] in b && b[i].rec.Matches(incoming);
    } else {
      forall e <- b
        ensures !e.rec.Matches(incoming)
      {
        var j :| 0 <= j < |b| && b[j] == e;
        assert !c[j].rec.Matches(incoming);
      }
    }
  }

  function DotCount(s: bytes): nat {
    if s == [] then 0 else (if s[0] == DOT then 1 else 0) + DotCount(s[1..])
  }

  /** Something of an instance is missing: its SRV record, or all addresses of the target of one. */
  predicate Unresolved(s: State, instance: bytes) {
    && DotCount(instance) >= 4
    && (instance in s.srv ==>
          exists e <- s.srv[instance] :: e.rec.rdata.Srv? && Lower(e.rec.rdata.host) !in s.addr)
  }

  lemma {:induction false} DotsCounted(s: bytes)
    ensures DotCount(s) == multiset(s)[DOT]
  {
    if s != [] {
      DotsCounted(s[1..]);
      assert s == [s[0]] + s[1..];
      assert multiset(s) == multiset{s[0]} + multiset(s[1..]);
    }
  }

  /**
   * What is asked for: names with four dots or more that have no SRV record, or an SRV record for whose target there is
   * no address, however the target is written.
   */
  lemma UnresolvedIff(s: State, instance: bytes)
    requires forall h <- s.addr :: Lower(h) == h
    ensures Unresolved(s, instance) <==>
            && multiset(instance)[DOT] >= 4
            && (instance in s.srv ==>
                  exists e <- s.srv[instance] ::
                    e.rec.rdata.Srv? && forall h <- s.addr :: !SameButCase(h, e.rec.rdata.host))
  {
    hide Lower, SameButCase, DotCount;
    DotsCounted(instance);
    forall host: bytes
      ensures Lower(host) !in s.addr <==> forall h <- s.addr :: !SameButCase(h, host)
    {
      HostKnownIff(s.addr, host);
    }
  }

  lemma HostKnownIff(addr: Table, host: bytes)
    requires forall h <- addr :: Lower(h) == h
    ensures Lower(host) !in addr <==> forall h <- addr :: !SameButCase(h, host)
  {
    hide Lower, SameButCase;
    SameLowerIff(host, host);
    SameLowerIff(Lower(host), host);
    forall h <- addr
      ensures SameButCase(h, host) <==> h == Lower(host)
    {
      SameLowerIff(h, host);
    }
  }

  /** The same records in the same places, and no life prolonged. */
  ghost predicate OnlyShorter(before: State, after: State) {
    forall kind: Kind, key: bytes ::
      var b, b' := before.BucketOf(kind, key), after.BucketOf(kind, key);
      SameRecords(b, b') && forall i :: 0 <= i < |b| ==> b'[i].rec.life.expires <= b[i].rec.life.expires
  }

  ghost predicate ExpireBy(b: Bucket, at: nat) {
    forall e <- b :: e.rec.life.expires <= at
  }

  lemma SoonerInBucket(s: State, kind: Kind, key: bytes, at: nat)
    ensures var s' := OnBucket(s, kind, key, SoonerIn(s.BucketOf(kind, key), at));
            OnlyShorter(s, s') && ExpireBy(s'.BucketOf(kind, key), at)
  {
    var b := s.BucketOf(kind, key);
    var s' := OnBucket(s, kind, key, SoonerIn(b, at));
    SoonerLives(b, at);
    hide SoonerIn, SameRecords, ExpireBy;
    forall k: Kind, y: bytes
      ensures s'.BucketOf(k, y) == if k == kind && y == key then SoonerIn(b, at) else s.BucketOf(k, y)
    {
    }
    SameAsItself();
  }

  lemma SoonerLives(b: Bucket, at: nat)
    ensures SameRecords(b, SoonerIn(b, at)) && ExpireBy(SoonerIn(b, at), at)
    ensures forall i :: 0 <= i < |b| ==> SoonerIn(b, at)[i].rec.life.expires <= b[i].rec.life.expires
    ensures b == [] ==> SoonerIn(b, at) == []
  {
  }

  lemma SameAsItself()
    ensures forall b: Bucket :: SameRecords(b, b)
  {
  }

  lemma OnlyShorterTransitive(a: State, b: State, c: State)
    requires OnlyShorter(a, b) && OnlyShorter(b, c)
    ensures OnlyShorter(a, c)
    ensures forall kind: Kind, key: bytes, at: nat ::
              ExpireBy(b.BucketOf(kind, key), at) ==> ExpireBy(c.BucketOf(kind, key), at)
  {
    forall kind: Kind, key: bytes
      ensures var x, z := a.BucketOf(kind, key), c.BucketOf(kind, key);
              SameRecords(x, z) && forall i :: 0 <= i < |x| ==> z[i].rec.life.expires <= x[i].rec.life.expires
      ensures forall at: nat :: ExpireBy(b.BucketOf(kind, key), at) ==> ExpireBy(c.BucketOf(kind, key), at)
    {
      var x, y, z := a.BucketOf(kind, key), b.BucketOf(kind, key), c.BucketOf(kind, key);
      assert SameRecords(x, y) && SameRecords(y, z);
      forall at: nat | ExpireBy(y, at)
        ensures ExpireBy(z, at)
      {
        forall e <- z
          ensures e.rec.life.expires <= at
        {
          var i :| 0 <= i < |z| && z[i] == e;
          assert y[i] in y;
        }
      }
    }
  }

  lemma {:induction false} HostsExpire(s: State, b: Bucket, at: nat)
    ensures OnlyShorter(s, SoonerHosts(s, b, at))
    ensures forall e <- b :: e.rec.rdata.Srv? ==>
              ExpireBy(SoonerHosts(s, b, at).BucketOf(AddrKind, e.rec.rdata.host), at)
  {
    if b != [] {
      hide OnlyShorter, ExpireBy, SoonerIn;
      var front := SoonerHosts(s, b[..|b| - 1], at);
      HostsExpire(s, b[..|b| - 1], at);
      match b[|b| - 1].rec.rdata
      case Srv(_, _, _, host) =>
        SoonerInBucket(front, AddrKind, host, at);
        OnlyShorterTransitive(s, front, SoonerHosts(s, b, at));
      case _ =>
    }
  }

  /**
   * RFC 6762 section 10.4: records under verification expire by the deadline, those of the instance
   * and the addresses that its SRV records point to; and no other life gets longer.
   */
  lemma VerificationDeadline(s: State, instance: bytes, at: nat)
    ensures var s' := Verified(s, instance, at);
            && OnlyShorter(s, s') && ExpireBy(s'.BucketOf(SrvKind, instance), at)
            && forall e <- s.BucketOf(SrvKind, instance) :: e.rec.rdata.Srv? ==>
                 ExpireBy(s'.BucketOf(AddrKind, e.rec.rdata.host), at)
  {
    hide OnlyShorter, ExpireBy, SoonerIn, SoonerHosts;
    var b := s.BucketOf(SrvKind, instance);
    var s1 := OnBucket(s, SrvKind, instance, SoonerIn(b, at));
    SoonerInBucket(s, SrvKind, instance, at);
    HostsExpire(s1, b, at);
    OnlyShorterTransitive(s, s1, Verified(s, instance, at));
  }

  class DnsCache {
    var ptr: Table
    var srv: Table
    var txt: Table
    var addr: Table

    ghost function Value(): State
      reads this
    {
      State(ptr, srv, txt, addr)
    }

    constructor ()
      ensures Value() == State(map[], map[], map[], map[])
    {
      ptr, srv, txt, addr := map[], map[], map[], map[];
    }

    method Store(kind: Kind, t: Table)
      modifies this
      ensures Value() == old(Value()).With(kind, t)
    {
      match kind
      case PtrKind => ptr := t;
      case SrvKind => srv := t;
      case TxtKind => txt := t;
      case AddrKind => addr := t;
    }

    method Load(kind: Kind) returns (t: Table)
      ensures t == Value().Of(kind)
    {
      match kind
      case PtrKind => t := ptr;
      case SrvKind => t := srv;
      case TxtKind => t := txt;
      case AddrKind => t := addr;
    }

    method AddOrUpdate(src: InterfaceId, incoming: Record, isForUs: bool, now: nat) returns (r: Added)
      modifies this
      ensures r == AddVerdict(old(Value()), incoming, src, isForUs, now)
      ensures Value() == AfterAdd(old(Value()), incoming, src, isForUs, now)
    {
      hide FlushBucket, FlushTimers, Lower, Record.Matches;
      var kindOpt := KindOf(incoming);
      if kindOpt.None? {
        return Ignored;
      }
      var kind := kindOpt.value;
      var t := Load(kind);
      var key := KeyFor(incoming);
      var b := if key in t then t[key] else [];
      if b == [] && !isForUs {
        return Ignored;
      }
      var timers: seq<nat> := [];
      if incoming.flush {
        b, timers := ApplyCacheFlush(incoming, b, now);
      }
      var i := 0;
      while i < |b| && !b[i].rec.Matches(incoming)
        invariant 0 <= i <= |b|
        invariant FirstMatch(b, incoming, i) == FirstMatch(b, incoming, 0)
      {
        i := i + 1;
      }
      if i < |b| {
        b := b[i := WithLife(b[i], b[i].rec.life.ResetTtl(incoming.life))];
        r := Added(b[i], false, timers);
      } else {
        b := [Entry(incoming, src)] + b;
        r := Added(b[0], true, timers);
      }
      Store(kind, t[key := b]);
    }

    method Remove(rec: Record) returns (found: bool)
      modifies this
      ensures Value() == CacheState.After(old(Value()), RemoveRecord(rec, 0))
      ensures found <==> KindOf(rec).Some?
                         && exists e <- old(Value()).BucketOf(KindOf(rec).value, rec.GetName()) :: e.rec.Matches(rec)
    {
      hide Keep, Record.Matches;
      var kind := KindOf(rec);
      if kind.None? {
        return false;
      }
      var t := Load(kind.value);
      if rec.GetName() !in t {
        return false;
      }
      var b, gone := RetainBucket(t[rec.GetName()], (e: Entry) => !e.rec.Matches(rec));
      found := gone != {};
      if found {
        var e :| e in gone;
        assert e in t[rec.GetName()] && e.rec.Matches(rec);
      } else {
        assert forall e <- t[rec.GetName()] :: e !in gone;
      }
      Store(kind.value, t[rec.GetName() := b]);
    }

    method EvictExpiredAddr(now: nat) returns (removed: set<(bytes, RData)>)
      modifies this
      ensures Value() == CacheState.After(old(Value()), EvictAddr(now))
      ensures removed == Expired(old(addr), now)
    {
      hide Retained;
      var gone;
      addr, gone := RetainTable(addr, e => NotExpired(e, now));
      removed := set g | g in gone :: (g.1.rec.GetName(), g.1.rec.rdata);
      ExpiredPairs(old(addr), now, gone);
    }

    /** What has expired of one instance goes; `gone` tells whether its last SRV record went. */
    method EvictInstance(instance: bytes, now: nat) returns (gone: bool)
      modifies this`srv, this`txt
      ensures srv == RetainedIn(old(srv), {instance}, Living(now))
      ensures txt == KeptIn(old(txt), {instance}, Living(now))
      ensures gone == Spent(old(srv), instance, now)
    {
      hide Keep;
      gone := false;
      if instance in srv {
        var kept, lost := RetainBucket(srv[instance], Living(now));
        if kept == [] {
          gone := true;
          srv := srv - {instance};
        } else {
          srv := srv[instance := kept];
        }
      }
      if instance in txt {
        var kept, lost := RetainBucket(txt[instance], Living(now));
        txt := txt[instance := kept];
      }
    }

    /** What has expired of the instances that a bucket of PTR records names. */
    method EvictNamed(b: Bucket, now: nat) returns (spent: set<bytes>)
      modifies this`srv, this`txt
      ensures srv == RetainedIn(old(srv), AliasesIn(b), Living(now))
      ensures txt == KeptIn(old(txt), AliasesIn(b), Living(now))
      ensures spent == set x | x in AliasesIn(b) && Spent(old(srv), x, now)
    {
      hide KeptIn, RetainedIn, Spent, AliasesIn;
      NoneIn(srv, txt, Living(now));
      assert b[..0] == [];
      spent := {};
      for i := 0 to |b|
        invariant srv == RetainedIn(old(srv), AliasesIn(b[..i]), Living(now))
        invariant txt == KeptIn(old(txt), AliasesIn(b[..i]), Living(now))
        invariant spent == set x | x in AliasesIn(b[..i]) && Spent(old(srv), x, now)
      {
        OneMoreAlias(b, i);
        match AliasOf(b[i])
        case None =>
        case Some(instance) =>
          var gone := EvictInstance(instance, now);
          KeptInMore(old(srv), AliasesIn(b[..i]), {instance}, Living(now));
          KeptInMore(old(txt), AliasesIn(b[..i]), {instance}, Living(now));
          SpentOnce(old(srv), AliasesIn(b[..i]), instance, now);
          if gone {
            spent := spent + {instance};
          }
      }
      assert b[..|b|] == b;
    }

    /**
     * Expired PTR records go, and what has expired of the instances that a PTR record names. The instances
     * that are reported, each under a type that had a PTR record for it, are those of which a PTR record
     * or the last SRV record went.
     */
    method EvictExpiredServices(now: nat) returns (expired: set<(bytes, bytes)>)
      modifies this
      ensures Value() == CacheState.After(old(Value()), EvictServices(now))
      ensures (set g | g in expired :: g.1) == Reported(old(Value()), old(ptr).Keys, now)
      ensures forall g <- expired :: HasPtr(old(ptr), g.0, g.1)
    {
      hide KeptIn, RetainedIn, Spent, Keep, Reported, Evicting, WithoutExpired, HasPtr, AliasesIn, Living;
      expired := {};
      ghost var s0, done := Value(), {};
      var todo := ptr.Keys;
      EvictStart(s0, now);
      while todo != {}
        invariant todo <= s0.ptr.Keys && done == s0.ptr.Keys - todo
        invariant Value() == Evicting(s0, done, now)
        invariant (set g | g in expired :: g.1) == Reported(s0, done, now)
        invariant forall g <- expired :: HasPtr(s0.ptr, g.0, g.1)
      {
        var ty :| ty in todo;
        EvictNext(s0, done, ty, now);
        var spent := EvictNamed(ptr[ty], now);
        var kept, lost := RetainBucket(ptr[ty], Living(now));
        ReportNext(s0, done, ty, now, spent, lost);
        var here := spent + set e | e in lost && AliasOf(e).Some? :: AliasOf(e).value;
        Pairs(expired, ty, here);
        NamedHere(s0.ptr, ty, spent, lost);
        expired := expired + set i | i in here :: (ty, i);
        ptr := ptr[ty := kept];
        todo := todo - {ty};
        done := done + {ty};
      }
      EvictEnd(s0, now);
      assert done == s0.ptr.Keys;
    }

    /** The addresses of the disabled versions go from the interface. */
    method RemoveAddrsOnDisabledIntf(index: u32, v4: bool, v6: bool)
      modifies this`addr
      ensures Value() == CacheState.After(old(Value()), DisableAddrs(index, v4, v6, 0))
    {
      hide Keep, NotDisabled;
      var p := (e: Entry) => NotDisabled(e, index, v4, v6);
      var todo := addr.Keys;
      while todo != {}
        invariant todo <= addr.Keys
        invariant addr == KeptIn(old(addr), old(addr).Keys - todo, p)
      {
        var key :| key in todo;
        var kept, gone := RetainBucket(addr[key], p);
        addr := addr[key := kept];
        todo := todo - {key};
      }
    }

    /** The listed records are the shared ones of the bucket whose half-life is not over, in order. */
    method GetKnownAnswers(kind: Kind, name: bytes, now: nat) returns (r: Bucket)
      ensures r == Keep(Value().BucketOf(kind, if kind == AddrKind then Lower(name) else name),
                        (e: Entry) => IsKnownAnswer(e.rec, now))
    {
      hide Keep, Lower;
      var t := Load(kind);
      var key := if kind == AddrKind then Lower(name) else name;
      var gone;
      r, gone := RetainBucket(if key in t then t[key] else [], (e: Entry) => IsKnownAnswer(e.rec, now));
    }

    /** The pairs and keys that are lost with the PTR records of an interface. */
    method RemovePtrs(id: InterfaceId) returns (removed: set<(bytes, bytes)>, gone: set<bytes>)
      modifies this`ptr
      ensures ptr == Retained(old(ptr), e => NotFrom(e, id))
      ensures removed == RemovedInstances(old(ptr), id) && gone == AllRemoved(old(ptr), id)
    {
      hide Retained, LostUnder;
      removed, gone := {}, {};
      var todo := ptr.Keys;
      while todo != {}
        invariant todo <= ptr.Keys
        invariant removed == set ty, i | ty in ptr && ty !in todo && i in LostUnder(ptr[ty], id) :: (ty, i)
        invariant gone == set ty, i | ty in ptr && ty !in todo && i in LostUnder(ptr[ty], id) :: i
      {
        var ty :| ty in todo;
        var lost := LostUnder(ptr[ty], id);
        removed := removed + set i | i in lost :: (ty, i);
        gone := gone + lost;
        todo := todo - {ty};
      }
      var dropped;
      ptr, dropped := RetainTable(ptr, e => NotFrom(e, id));
    }

    method RemoveRecordsOnIntf(id: InterfaceId) returns (r: IntfRemoval)
      modifies this
      ensures Value() == WithoutInterface(old(Value()), id)
      ensures r == Removal(old(Value()), id)
    {
      hide Retained, RemovedInstances, AllRemoved, Lower;
      var removed, gone := RemovePtrs(id);
      var lostSrv, lostTxt, lostAddr;
      ghost var srv0, txt0, addr0 := srv, txt, addr;
      srv, lostSrv := RetainTable(srv - gone, e => NotFrom(e, id));
      txt, lostTxt := RetainTable(txt - gone, e => NotFrom(e, id));
      addr, lostAddr := RetainTable(addr, e => NotFrom(e, id));
      var modified := (set g | g in lostSrv :: g.0) + (set g | g in lostTxt :: g.0);
      var affected := set g | g in lostAddr :: g.0;
      LostKeys(srv0, gone, id, lostSrv);
      LostKeys(txt0, gone, id, lostTxt);
      LostKeys(addr0, {}, id, lostAddr);
      modified := modified + PointingTo(srv, affected);
      r := IntfRemoval(removed, modified);
    }

    /** The addresses of a host that are due for their refresh, in order; each is asked for only this once. */
    method RefreshDueHostnameResolutions(hostname: bytes, now: nat) returns (due: Bucket)
      modifies this`addr
      ensures Value() == CacheState.After(old(Value()), RefreshHost(hostname, now))
      ensures due == Keep(old(Value()).BucketOf(AddrKind, hostname), (e: Entry) => e.rec.life.AsksRefresh(now))
    {
      due := [];
      if hostname !in addr {
        return;
      }
      var b := addr[hostname];
      var r: Bucket := [];
      for i := 0 to |b|
        invariant r == RefreshOnceIn(b, now)[..i] && due == Keep(b[..i], (e: Entry) => e.rec.life.AsksRefresh(now))
      {
        assert b[..i + 1][..i] == b[..i];
        var e := b[i];
        if e.rec.life.AsksRefresh(now) {
          due := due + [e];
          e := WithLife(e, e.rec.life.RefreshNoMore());
        }
        r := r + [e];
      }
      assert b[..|b|] == b && RefreshOnceIn(b, now)[..|b|] == RefreshOnceIn(b, now);
      addr := addr[hostname := r];
    }

    /** Whether something of an instance is missing, so that it is asked for. */
    method QueryUnresolved(instance: bytes) returns (sent: bool)
      ensures sent == Unresolved(Value(), instance)
    {
      hide Lower, DotCount;
      if DotCount(instance) + 1 < 5 {
        return false;
      }
      if instance !in srv {
        return true;
      }
      var b := srv[instance];
      for i := 0 to |b|
        invariant forall e <- b[..i] :: !(e.rec.rdata.Srv? && Lower(e.rec.rdata.host) !in addr)
      {
        if b[i].rec.rdata.Srv? && Lower(b[i].rec.rdata.host) !in addr {
          assert b[i] in b;
          return true;
        }
        assert b[..i + 1] == b[..i] + [b[i]];
      }
      assert b[..|b|] == b;
      return false;
    }

    /** Returns the queries to send; with `expireAt`, the records to be verified expire by then. */
    method ServiceVerifyQueries(instance: bytes, expireAt: Option<nat>) returns (queries: seq<(bytes, RRType)>)
      modifies this
      ensures queries == if instance in old(srv) then [(instance, SRV)] + VerifyQueries(old(srv)[instance]) else []
      ensures Value() == if expireAt.Some? then Verified(old(Value()), instance, expireAt.value) else old(Value())
    {
      hide SoonerIn;
      if instance !in srv {
        assert SoonerHosts(Value(), [], 0) == Value();
        return [];
      }
      var b := srv[instance];
      if expireAt.Some? {
        srv := srv[instance := SoonerIn(b, expireAt.value)];
      }
      queries := [(instance, SRV)];
      ghost var s0 := Value();
      for i := 0 to |b|
        invariant queries == [(instance, SRV)] + VerifyQueries(b[..i])
        invariant Value() == if expireAt.Some? then SoonerHosts(s0, b[..i], expireAt.value) else s0
      {
        assert b[..i + 1][..i] == b[..i];
        if b[i].rec.rdata.Srv? {
          var host := b[i].rec.rdata.host;
          queries := queries + [(host, A), (host, AAAA)];
          if expireAt.Some? && host in addr {
            addr := addr[host := SoonerIn(addr[host], expireAt.value)];
          }
        }
      }
      assert b[..|b|] == b;
    }
  }

  lemma Pairs(pairs: set<(bytes, bytes)>, ty: bytes, instances: set<bytes>)
    ensures (set g | g in pairs + set i | i in instances :: (ty, i) :: g.1) == (set g | g in pairs :: g.1) + instances
  {
    forall i <- instances
      ensures i in set g | g in pairs + set i | i in instances :: (ty, i) :: g.1
    {
      assert (ty, i) in pairs + set i | i in instances :: (ty, i);
    }
  }

  lemma NamedHere(ptr: Table, ty: bytes, spent: set<bytes>, lost: set<Entry>)
    requires ty in ptr && spent <= AliasesIn(ptr[ty]) && forall e <- lost :: e in ptr[ty]
    ensures forall i <- spent + set e | e in lost && AliasOf(e).Some? :: AliasOf(e).value :: HasPtr(ptr, ty, i)
  {
  }

  lemma ExpiredPairs(t: Table, now: nat, gone: set<(bytes, Entry)>)
    requires gone == set key, e | key in t && e in t[key] && !NotExpired(e, now) :: (key, e)
    ensures Expired(t, now) == set g | g in gone :: (g.1.rec.GetName(), g.1.rec.rdata)
  {
    forall key, e | key in t && e in t[key] && e.rec.life.IsExpired(now)
      ensures (e.rec.GetName(), e.rec.rdata) in set g | g in gone :: (g.1.rec.GetName(), g.1.rec.rdata)
    {
      assert (key, e) in gone;
    }
  }

  lemma LostKeys(t: Table, gone: set<bytes>, id: InterfaceId, lost: set<(bytes, Entry)>)
    requires lost == set key, e | key in t - gone && e in (t - gone)[key] && !NotFrom(e, id) :: (key, e)
    ensures (set g | g in lost :: g.0) == Touched(t, gone, id)
  {
    forall key <- Touched(t, gone, id)
      ensures key in set g | g in lost :: g.0
    {
      var e :| e in t[key] && e.src == id;
      assert (key, e) in lost;
    }
  }
}
