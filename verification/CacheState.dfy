// The querier's record cache.
module CacheState {
  import opened Bytes
  import opened DnsName
  import opened DnsRecords
  import opened RecordLife

  /** A record and the interface on which it was received. */
  datatype Entry = Entry(rec: Record, src: InterfaceId)

  type Bucket = seq<Entry>
  type Table = map<bytes, Bucket>

  datatype Kind = PtrKind | SrvKind | TxtKind | AddrKind

  function KindOf(rec: Record): Option<Kind> {
    match rec.rdata
    case Addr4(_, _) => Some(AddrKind)
    case Addr6(_, _) => Some(AddrKind)
    case Pointer(cname, _) => if cname then None else Some(PtrKind)
    case Srv(_, _, _, _) => Some(SrvKind)
    case Txt(_) => Some(TxtKind)
  }

  /** Addresses are filed under the host name in lower case. */
  function KeyFor(rec: Record): bytes {
    if rec.IsAddress() then Lower(rec.GetName()) else rec.GetName()
  }

  datatype State = State(ptr: Table, srv: Table, txt: Table, addr: Table) {
    function Of(kind: Kind): Table {
      match kind
      case PtrKind => ptr
      case SrvKind => srv
      case TxtKind => txt
      case AddrKind => addr
    }

    function With(kind: Kind, t: Table): (s: State)
      ensures forall k :: s.Of(k) == if k == kind then t else Of(k)
    {
      match kind
      case PtrKind => this.(ptr := t)
      case SrvKind => this.(srv := t)
      case TxtKind => this.(txt := t)
      case AddrKind => this.(addr := t)
    }

    function BucketOf(kind: Kind, key: bytes): Bucket {
      if key in Of(kind) then Of(kind)[key] else []
    }
  }

  /** No two records of a bucket are the same but for their TTL. */
  ghost predicate Distinct(b: Bucket) {
    forall i, j :: 0 <= i < j < |b| ==> !b[i].rec.Matches(b[j].rec)
  }

  /** Every record is filed where it is looked for, and only once. */
  ghost predicate BucketOk(b: Bucket, kind: Kind, key: bytes) {
    Distinct(b) && forall e <- b :: KindOf(e.rec) == Some(kind) && KeyFor(e.rec) == key
  }

  ghost predicate TableOk(t: Table, kind: Kind) {
    forall key <- t :: BucketOk(t[key], kind, key)
  }

  ghost predicate StateOk(s: State) {
    forall kind: Kind :: TableOk(s.Of(kind), kind)
  }

  // ----- Cache flush -----

  function WithLife(e: Entry, l: Life): Entry {
    e.(rec := e.rec.(life := l))
  }

  /** An address flushes only addresses of the same interface. */
  predicate SameInterface(a: Record, b: Record) {
    a.IsAddress() && b.IsAddress() ==> a.rdata.intf.index == b.rdata.intf.index
  }

  predicate FlushApplies(e: Entry, incoming: Record) {
    && e.rec.rrclass == incoming.rrclass && e.rec.rdata.Type() == incoming.rdata.Type()
    && SameInterface(e.rec, incoming)
  }

  function FlushOne(e: Entry, incoming: Record, now: nat): Entry {
    if FlushApplies(e, incoming) then WithLife(e, Flushed(e.rec.life, now)) else e
  }

  function FlushBucket(b: Bucket, incoming: Record, now: nat): (r: Bucket)
    ensures |r| == |b|
  {
    seq(|b|, i requires 0 <= i < |b| => FlushOne(b[i], incoming, now))
  }

  /** One timer for each record whose life is cut. */
  function FlushTimers(b: Bucket, incoming: Record, now: nat, n: nat): seq<nat>
    requires n <= |b|
  {
    if n == 0 then []
    else FlushTimers(b, incoming, now, n - 1)
         + if FlushOne(b[n - 1], incoming, now) != b[n - 1] then [now + 1000] else []
  }

  method ApplyCacheFlush(incoming: Record, b: Bucket, now: nat) returns (r: Bucket, timers: seq<nat>)
    ensures r == FlushBucket(b, incoming, now)
    ensures timers == FlushTimers(b, incoming, now, |b|)
  {
    r, timers := [], [];
    for i := 0 to |b|
      invariant r == FlushBucket(b, incoming, now)[..i]
      invariant timers == FlushTimers(b, incoming, now, i)
    {
      var e := b[i];
      var shouldFlush := false;
      if incoming.rrclass == e.rec.rrclass && incoming.rdata.Type() == e.rec.rdata.Type()
         && now > e.rec.life.created + 1000 && e.rec.life.expires > now + 1000 {
        shouldFlush := true;
        if incoming.IsAddress() && e.rec.IsAddress() {
          shouldFlush := e.rec.rdata.intf.index == incoming.rdata.intf.index;
        }
      }
      if shouldFlush {
        e := WithLife(e, e.rec.life.(expires := now + 1000));
        timers := timers + [now + 1000];
      }
      r := r + [e];
    }
  }

  /** A flush never prolongs a life, and there is a timer for each one that it cuts. */
  lemma {:induction false} FlushShortens(b: Bucket, incoming: Record, now: nat, n: nat)
    requires n <= |b|
    ensures forall i :: 0 <= i < n ==>
      var e, e' := b[i], FlushBucket(b, incoming, now)[i];
      && e'.rec.life.expires <= e.rec.life.expires
      && (e'.rec.life.expires < e.rec.life.expires ==>
            e'.rec.life.expires == now + 1000 && now + 1000 in FlushTimers(b, incoming, now, n))
    ensures forall t <- FlushTimers(b, incoming, now, n) :: t == now + 1000
  {
    if n > 0 {
      FlushShortens(b, incoming, now, n - 1);
    }
  }

  /** An address is flushed only by one of the same interface. */
  predicate OneInterface(a: RData, b: RData) {
    match (a, b)
    case (Addr4(_, x), Addr4(_, y)) => x.index == y.index
    case (Addr6(_, x), Addr6(_, y)) => x.index == y.index
    case _ => true
  }

  /**
   * RFC 6762 section 10.2, for records of all types: a record ends a second from now exactly if it has the class and
   * type of the one that came in, and its interface if it is an address, is more than a second old, and has more
   * than a second left; every other record is as before.
   */
  lemma FlushedIff(b: Bucket, incoming: Record, now: nat, i: nat)
    requires i < |b|
    ensures var e, e' := b[i], FlushBucket(b, incoming, now)[i];
            var l := e.rec.life;
            var cut := && e.rec.rrclass == incoming.rrclass && e.rec.rdata.Type() == incoming.rdata.Type()
                       && OneInterface(e.rec.rdata, incoming.rdata)
                       && now > l.created + 1000 && l.expires > now + 1000;
            && (cut ==> e' == Entry(e.rec.(life := Life(l.ttl, l.created, now + 1000, l.refresh)), e.src))
            && (!cut ==> e' == e)
  {
  }

  // ----- Adding -----

  /** The first record that is the same as `incoming` but for its TTL, or the length of the bucket. */
  function FirstMatch(b: Bucket, incoming: Record, i: nat): (r: nat)
    requires i <= |b|
    ensures i <= r <= |b| && (r < |b| ==> b[r].rec.Matches(incoming))
    ensures forall j :: i <= j < r ==> !b[j].rec.Matches(incoming)
    decreases |b| - i
  {
    if i == |b| || b[i].rec.Matches(incoming) then i else FirstMatch(b, incoming, i + 1)
  }

  function AddToBucket(b: Bucket, incoming: Record, src: InterfaceId): Bucket {
    var i := FirstMatch(b, incoming, 0);
    if i < |b| then b[i := WithLife(b[i], b[i].rec.life.ResetTtl(incoming.life))]
    else [Entry(incoming, src)] + b
  }

  /** What the caller learns: nothing, or the record in the cache and whether it is new. */
  datatype Added = Ignored | Added(entry: Entry, isNew: bool, timers: seq<nat>)

  function AddedBucket(b: Bucket, incoming: Record, src: InterfaceId, now: nat): Bucket {
    AddToBucket(if incoming.flush then FlushBucket(b, incoming, now) else b, incoming, src)
  }

  predicate Accepts(s: State, incoming: Record, isForUs: bool) {
    && KindOf(incoming).Some?
    && (s.BucketOf(KindOf(incoming).value, KeyFor(incoming)) != [] || isForUs)
  }

  function AfterAdd(s: State, incoming: Record, src: InterfaceId, isForUs: bool, now: nat): State {
    if !Accepts(s, incoming, isForUs) then s
    else
      var kind, key := KindOf(incoming).value, KeyFor(incoming);
      s.With(kind, s.Of(kind)[key := AddedBucket(s.BucketOf(kind, key), incoming, src, now)])
  }

  function AddVerdict(s: State, incoming: Record, src: InterfaceId, isForUs: bool, now: nat): Added {
    if !Accepts(s, incoming, isForUs) then Ignored
    else
      var old' := s.BucketOf(KindOf(incoming).value, KeyFor(incoming));
      var b := if incoming.flush then FlushBucket(old', incoming, now) else old';
      var i := FirstMatch(b, incoming, 0);
      var new' := AddToBucket(b, incoming, src);
      Added(new'[if i < |b| then i else 0], i == |b|,
            if incoming.flush then FlushTimers(old', incoming, now, |old'|) else [])
  }

  /** Addresses are filed together exactly if their names differ at most in case, others if their names are equal. */
  lemma FiledTogetherIff(a: Record, b: Record)
    ensures a.IsAddress() && b.IsAddress() ==> (KeyFor(a) == KeyFor(b) <==> SameButCase(a.GetName(), b.GetName()))
    ensures !a.IsAddress() && !b.IsAddress() ==> (KeyFor(a) == KeyFor(b) <==> a.GetName() == b.GetName())
  {
    hide Lower, SameButCase;
    SameLowerIff(a.GetName(), b.GetName());
  }

  /**
   * A record is taken in exactly if it is for us, or if there are records of its kind under its name already;
   * alias records of type CNAME never.
   */
  lemma TakenInIff(s: State, incoming: Record, src: InterfaceId, isForUs: bool, now: nat)
    ensures AddVerdict(s, incoming, src, isForUs, now).Added? <==>
              match incoming.rdata
              case Addr4(_, _) =>
                isForUs || (Lower(incoming.GetName()) in s.addr && s.addr[Lower(incoming.GetName())] != [])
              case Addr6(_, _) =>
                isForUs || (Lower(incoming.GetName()) in s.addr && s.addr[Lower(incoming.GetName())] != [])
              case Pointer(cname, _) =>
                !cname && (isForUs || (incoming.GetName() in s.ptr && s.ptr[incoming.GetName()] != []))
              case Srv(_, _, _, _) => isForUs || (incoming.GetName() in s.srv && s.srv[incoming.GetName()] != [])
              case Txt(_) => isForUs || (incoming.GetName() in s.txt && s.txt[incoming.GetName()] != [])
    ensures !AddVerdict(s, incoming, src, isForUs, now).Added? ==> AfterAdd(s, incoming, src, isForUs, now) == s
  {
    hide Lower, FlushBucket, FlushTimers, AddToBucket;
  }

  /** Adding loses no record of the bucket. */
  lemma AddLosesNone(b: Bucket, incoming: Record, src: InterfaceId, now: nat, o: Entry)
    requires o in b
    ensures exists e :: e in AddedBucket(b, incoming, src, now) && e == WithLife(o, e.rec.life)
  {
    hide Life.ResetTtl, Flushed;
    var c := if incoming.flush then FlushBucket(b, incoming, now) else b;
    FlushKeepsIdentity(b, incoming, now);
    var i :| 0 <= i < |b| && b[i] == o;
    var m := FirstMatch(c, incoming, 0);
    var r := AddedBucket(b, incoming, src, now);
    var at := if m < |c| then i else i + 1;
    assert r[at] in r && r[at] == WithLife(o, r[at].rec.life);
  }

  lemma FlushKeepsIdentity(b: Bucket, incoming: Record, now: nat)
    ensures forall i :: 0 <= i < |b| ==>
              var e, e' := b[i], FlushBucket(b, incoming, now)[i];
              e' == WithLife(e, e'.rec.life)
  {
  }

  /** Adding keeps the records of a bucket distinct. */
  lemma AddKeepsDistinct(b: Bucket, incoming: Record, src: InterfaceId, now: nat)
    requires Distinct(b)
    ensures Distinct(AddedBucket(b, incoming, src, now))
    ensures forall e <- AddedBucket(b, incoming, src, now) ::
              e == Entry(incoming, src) || exists o :: o in b && e == WithLife(o, e.rec.life)
  {
    var c := if incoming.flush then FlushBucket(b, incoming, now) else b;
    FlushKeepsIdentity(b, incoming, now);
    assert SameRecords(b, c);
    SameRecordsDistinct(b, c);
    hide FlushBucket, Distinct, Life.ResetTtl;
    AddToKeepsDistinct(c, incoming, src);
    forall e <- AddedBucket(b, incoming, src, now)
      ensures e == Entry(incoming, src) || exists o :: o in b && e == WithLife(o, e.rec.life)
    {
      if e != Entry(incoming, src) {
        var i: nat :| i < |c| && e == WithLife(c[i], e.rec.life);
        assert b[i] in b && c[i] == WithLife(b[i], c[i].rec.life);
      }
    }
  }

  lemma AddToKeepsDistinct(c: Bucket, incoming: Record, src: InterfaceId)
    requires Distinct(c)
    ensures Distinct(AddToBucket(c, incoming, src))
    ensures forall e <- AddToBucket(c, incoming, src) ::
              e == Entry(incoming, src) || exists i: nat :: i < |c| && e == WithLife(c[i], e.rec.life)
  {
    hide Life.ResetTtl;
    var i := FirstMatch(c, incoming, 0);
    if i < |c| {
      assert SameRecords(c, AddToBucket(c, incoming, src));
      SameRecordsDistinct(c, AddToBucket(c, incoming, src));
    }
  }

  lemma AddKeepsBucket(b: Bucket, kind: Kind, incoming: Record, src: InterfaceId, now: nat)
    requires KindOf(incoming) == Some(kind) && (b == [] || BucketOk(b, kind, KeyFor(incoming)))
    ensures BucketOk(AddedBucket(b, incoming, src, now), kind, KeyFor(incoming))
  {
    hide AddedBucket, Distinct, Lower;
    EmptyDistinct();
    AddKeepsDistinct(b, incoming, src, now);
  }

  lemma EmptyDistinct()
    ensures Distinct([])
  {
  }

  lemma AddKeepsState(s: State, incoming: Record, src: InterfaceId, isForUs: bool, now: nat)
    requires StateOk(s)
    ensures StateOk(AfterAdd(s, incoming, src, isForUs, now))
  {
    if Accepts(s, incoming, isForUs) {
      hide AddedBucket, KeyFor, Distinct;
      var kind, key := KindOf(incoming).value, KeyFor(incoming);
      assert TableOk(s.Of(kind), kind);
      AddKeepsBucket(s.BucketOf(kind, key), kind, incoming, src, now);
      forall k: Kind
        ensures TableOk(AfterAdd(s, incoming, src, isForUs, now).Of(k), k)
      {
        assert TableOk(s.Of(k), k);
      }
    }
  }

  // ----- Removing -----

  function Keep(b: Bucket, p: Entry -> bool): (r: Bucket)
    ensures forall e :: e in r <==> e in b && p(e)
  {
    if b == [] then []
    else
      var front := Keep(b[..|b| - 1], p);
      if p(b[|b| - 1]) then front + [b[|b| - 1]] else front
  }

  /** Each bucket keeps the records that satisfy `p`; a bucket that is left empty goes. */
  function Retained(t: Table, p: Entry -> bool): Table {
    map key | key in t && Keep(t[key], p) != [] :: Keep(t[key], p)
  }

  lemma {:induction false} KeepDistinct(b: Bucket, p: Entry -> bool)
    requires Distinct(b)
    ensures Distinct(Keep(b, p))
  {
    if b != [] {
      var front := b[..|b| - 1];
      assert Distinct(front);
      KeepDistinct(front, p);
      forall e <- Keep(front, p)
        ensures !e.rec.Matches(b[|b| - 1].rec)
      {
        assert e in front;
      }
    }
  }

  lemma RetainedOk(t: Table, kind: Kind, p: Entry -> bool)
    requires TableOk(t, kind)
    ensures TableOk(Retained(t, p), kind)
  {
    hide Distinct;
    forall key <- Retained(t, p)
      ensures BucketOk(Retained(t, p)[key], kind, key)
    {
      assert BucketOk(t[key], kind, key);
      KeepDistinct(t[key], p);
    }
  }

  /** Of the buckets under `keys`, only the records that satisfy `p`. */
  function KeptIn(t: Table, keys: set<bytes>, p: Entry -> bool): Table {
    map key | key in t :: if key in keys then Keep(t[key], p) else t[key]
  }

  /** The same, without the buckets that are left empty. */
  function RetainedIn(t: Table, keys: set<bytes>, p: Entry -> bool): Table {
    map key | key in t && (key in keys ==> Keep(t[key], p) != []) :: if key in keys then Keep(t[key], p) else t[key]
  }

  lemma KeptInOk(t: Table, keys: set<bytes>, kind: Kind, p: Entry -> bool)
    requires TableOk(t, kind)
    ensures TableOk(KeptIn(t, keys, p), kind) && TableOk(RetainedIn(t, keys, p), kind)
  {
    hide Distinct;
    forall key <- t
      ensures BucketOk(t[key], kind, key) && BucketOk(Keep(t[key], p), kind, key)
    {
      KeepDistinct(t[key], p);
    }
  }

  lemma {:induction false} KeepTwice(b: Bucket, p: Entry -> bool)
    ensures Keep(Keep(b, p), p) == Keep(b, p)
  {
    if b != [] {
      KeepTwice(b[..|b| - 1], p);
      var k := Keep(b[..|b| - 1], p);
      if p(b[|b| - 1]) {
        assert (k + [b[|b| - 1]])[..|k|] == k;
      }
    }
  }

  lemma KeptInMore(t: Table, a: set<bytes>, b: set<bytes>, p: Entry -> bool)
    ensures KeptIn(KeptIn(t, a, p), b, p) == KeptIn(t, a + b, p)
    ensures RetainedIn(RetainedIn(t, a, p), b, p) == RetainedIn(t, a + b, p)
  {
    hide Keep;
    forall key <- t
      ensures Keep(Keep(t[key], p), p) == Keep(t[key], p)
    {
      KeepTwice(t[key], p);
    }
  }

  /** Keeps the records of one bucket that satisfy `p`, and tells which ones go. */
  method RetainBucket(b: Bucket, p: Entry -> bool) returns (r: Bucket, gone: set<Entry>)
    ensures r == Keep(b, p)
    ensures gone == set e | e in b && !p(e)
  {
    r, gone := [], {};
    for i := 0 to |b|
      invariant r == Keep(b[..i], p)
      invariant gone == set e | e in b[..i] && !p(e)
    {
      assert b[..i + 1][..i] == b[..i];
      assert b[..i + 1] == b[..i] + [b[i]];
      if p(b[i]) {
        r := r + [b[i]];
      } else {
        gone := gone + {b[i]};
      }
    }
    assert b[..|b|] == b;
  }

  /** Keeps the records of a whole table that satisfy `p`, and tells which ones go, with their keys. */
  method RetainTable(t: Table, p: Entry -> bool) returns (r: Table, gone: set<(bytes, Entry)>)
    ensures r == Retained(t, p)
    ensures gone == set key, e | key in t && e in t[key] && !p(e) :: (key, e)
  {
    hide Keep;
    r, gone := map[], {};
    var todo := t.Keys;
    while todo != {}
      invariant todo <= t.Keys
      invariant r == Retained(map key | key in t && key !in todo :: t[key], p)
      invariant gone == set key, e | key in t && key !in todo && e in t[key] && !p(e) :: (key, e)
    {
      var key :| key in todo;
      var kept, lost := RetainBucket(t[key], p);
      gone := gone + set e | e in lost :: (key, e);
      if kept != [] {
        r := r[key := kept];
      }
      todo := todo - {key};
    }
  }

  predicate NotExpired(e: Entry, now: nat) {
    !e.rec.life.IsExpired(now)
  }

  function Living(now: nat): Entry -> bool {
    (e: Entry) => NotExpired(e, now)
  }

  /** No address of a version that is disabled on the interface `index`. */
  predicate NotDisabled(e: Entry, index: u32, v4: bool, v6: bool) {
    && e.rec.IsAddress()
    && !(e.rec.rdata.intf.index == index && ((v4 && e.rec.rdata.Addr4?) || (v6 && e.rec.rdata.Addr6?)))
  }

  predicate NotFrom(e: Entry, id: InterfaceId) {
    e.src != id
  }

  // ----- Other updates -----

  function SoonerIn(b: Bucket, at: nat): (r: Bucket)
    ensures |r| == |b|
  {
    seq(|b|, i requires 0 <= i < |b| => WithLife(b[i], b[i].rec.life.SetExpireSooner(at)))
  }

  function RefreshIn(b: Bucket, now: nat): (r: Bucket)
    ensures |r| == |b|
  {
    seq(|b|, i requires 0 <= i < |b| => WithLife(b[i], b[i].rec.life.RefreshMaybe(now)))
  }

  function RefreshOnceIn(b: Bucket, now: nat): (r: Bucket)
    ensures |r| == |b|
  {
    seq(|b|, i requires 0 <= i < |b| => WithLife(b[i], b[i].rec.life.RefreshOnce(now)))
  }

  // ----- Runs -----

  /** What can happen to the cache, each at its time. */
  datatype Op =
    | Add(incoming: Record, src: InterfaceId, isForUs: bool, now: nat)
    | EvictAddr(now: nat)
    | EvictServices(now: nat)
    | DisableAddrs(index: u32, v4: bool, v6: bool, now: nat)
    | RemoveRecord(rec: Record, now: nat)
    | RemoveInterface(id: InterfaceId, now: nat)
    | ExpireSooner(kind: Kind, key: bytes, at: nat, now: nat)
    | Refresh(kind: Kind, key: bytes, now: nat)
    | RefreshHost(key: bytes, now: nat)

  function OnBucket(s: State, kind: Kind, key: bytes, b: Bucket): State {
    if key in s.Of(kind) then s.With(kind, s.Of(kind)[key := b]) else s
  }

  function After(s: State, op: Op): State {
    match op
    case Add(incoming, src, isForUs, now) => AfterAdd(s, incoming, src, isForUs, now)
    case EvictAddr(now) => s.(addr := Retained(s.addr, e => NotExpired(e, now)))
    case EvictServices(now) => WithoutExpired(s, now)
    case DisableAddrs(index, v4, v6, _) => s.(addr := KeptIn(s.addr, s.addr.Keys, e => NotDisabled(e, index, v4, v6)))
    case RemoveRecord(rec, _) =>
      if KindOf(rec).None? then s
      else
        OnBucket(s, KindOf(rec).value, rec.GetName(),
                 Keep(s.BucketOf(KindOf(rec).value, rec.GetName()), (e: Entry) => !e.rec.Matches(rec)))
    case RemoveInterface(id, _) => WithoutInterface(s, id)
    case ExpireSooner(kind, key, at, _) => OnBucket(s, kind, key, SoonerIn(s.BucketOf(kind, key), at))
    case Refresh(kind, key, now) => OnBucket(s, kind, key, RefreshIn(s.BucketOf(kind, key), now))
    case RefreshHost(key, now) => OnBucket(s, AddrKind, key, RefreshOnceIn(s.BucketOf(AddrKind, key), now))
  }

  function AliasOf(e: Entry): Option<bytes> {
    match e.rec.rdata
    case Pointer(_, alias) => Some(alias)
    case _ => None
  }

  /** The instances that the PTR records of a bucket name. */
  function AliasesIn(b: Bucket): set<bytes> {
    set e | e in b && AliasOf(e).Some? :: AliasOf(e).value
  }

  function Named(ptr: Table): set<bytes> {
    set ty, i | ty in ptr && i in AliasesIn(ptr[ty]) :: i
  }

  /** Some records have expired: those of a type, and those of the instances that such a record names. */
  function WithoutExpired(s: State, now: nat): State {
    State(KeptIn(s.ptr, s.ptr.Keys, Living(now)), RetainedIn(s.srv, Named(s.ptr), Living(now)),
          KeptIn(s.txt, Named(s.ptr), Living(now)), s.addr)
  }

  /** An expired record is left exactly if it is an address, or an SRV or TXT record that no PTR record leads to. */
  lemma ExpiredLeftIff(s: State, now: nat, kind: Kind, key: bytes, e: Entry)
    ensures e in WithoutExpired(s, now).BucketOf(kind, key)
       <==> e in s.BucketOf(kind, key)
            && (e.rec.life.IsExpired(now) ==>
                  kind == AddrKind || (kind != PtrKind && forall ty :: !HasPtr(s.ptr, ty, key)))
  {
    var n := Named(s.ptr);
    if key in n {
      var ty :| ty in s.ptr && key in AliasesIn(s.ptr[ty]);
      assert HasPtr(s.ptr, ty, key);
    } else {
      forall ty
        ensures !HasPtr(s.ptr, ty, key)
      {
        assert ty in s.ptr ==> key !in AliasesIn(s.ptr[ty]);
      }
    }
  }

  /** Of the addresses, exactly those stay that live on. */
  lemma AddrLeftIff(s: State, now: nat, kind: Kind, key: bytes, e: Entry)
    ensures e in After(s, EvictAddr(now)).BucketOf(kind, key) <==>
            e in s.BucketOf(kind, key) && (kind == AddrKind ==> now < e.rec.life.expires)
  {
  }

  /** Exactly the records of the name that are the same up to their lives and new names go. */
  lemma RemovedIff(s: State, rec: Record, kind: Kind, key: bytes, e: Entry)
    ensures e in After(s, RemoveRecord(rec, 0)).BucketOf(kind, key) <==>
            && e in s.BucketOf(kind, key)
            && !(KindOf(rec) == Some(kind) && rec.GetName() == key
                 && e.rec.(life := rec.life, newName := rec.newName) == rec)
  {
    MatchesIff(e.rec, rec);
    hide Record.Matches, Record.GetName;
  }

  /** Exactly the addresses of the disabled versions on the interface go, if there is nothing but addresses. */
  lemma DisabledLeftIff(s: State, index: u32, v4: bool, v6: bool, kind: Kind, key: bytes, e: Entry)
    requires e in s.BucketOf(kind, key) && (kind == AddrKind ==> e.rec.IsAddress())
    ensures e in After(s, DisableAddrs(index, v4, v6, 0)).BucketOf(kind, key) <==>
              match e.rec.rdata
              case Addr4(_, intf) => kind != AddrKind || intf.index != index || !v4
              case Addr6(_, intf) => kind != AddrKind || intf.index != index || !v6
              case _ => true
  {
  }

  /** There is a PTR record for `instance` under `ty`. */
  predicate HasPtr(ptr: Table, ty: bytes, instance: bytes) {
    ty in ptr && exists e <- ptr[ty] :: AliasOf(e) == Some(instance)
  }

  /** The instances that lose their last PTR record under `ty`. */
  function LostUnder(b: Bucket, id: InterfaceId): set<bytes> {
    set e | e in b && e.src == id && AliasOf(e).Some?
            && !exists o <- b :: o.src != id && AliasOf(o) == AliasOf(e) :: AliasOf(e).value
  }

  function RemovedInstances(ptr: Table, id: InterfaceId): set<(bytes, bytes)> {
    set ty, i | ty in ptr && i in LostUnder(ptr[ty], id) :: (ty, i)
  }

  function AllRemoved(ptr: Table, id: InterfaceId): set<bytes> {
    set ty, i | ty in ptr && i in LostUnder(ptr[ty], id) :: i
  }

  function WithoutInterface(s: State, id: InterfaceId): State {
    var gone := AllRemoved(s.ptr, id);
    State(Retained(s.ptr, e => NotFrom(e, id)), Retained(s.srv - gone, e => NotFrom(e, id)),
          Retained(s.txt - gone, e => NotFrom(e, id)), Retained(s.addr, e => NotFrom(e, id)))
  }

  function Run(s: State, ops: seq<Op>): State {
    if ops == [] then s else After(Run(s, ops[..|ops| - 1]), ops[|ops| - 1])
  }

  /** A bucket with the same records in the same places, up to their lives. */
  ghost predicate SameRecords(b: Bucket, b': Bucket) {
    |b| == |b'| && forall i :: 0 <= i < |b| ==> b'[i] == WithLife(b[i], b'[i].rec.life)
  }

  lemma SameRecordsOk(b: Bucket, b': Bucket, kind: Kind, key: bytes)
    requires BucketOk(b, kind, key) && SameRecords(b, b')
    ensures BucketOk(b', kind, key)
  {
    hide Lower, Distinct, KindOf, KeyFor;
    SameRecordsDistinct(b, b');
    forall e <- b'
      ensures KindOf(e.rec) == Some(kind) && KeyFor(e.rec) == key
    {
      var i :| 0 <= i < |b'| && b'[i] == e;
      assert b[i] in b;
      LifeIsNoKey(b[i], e.rec.life);
    }
  }

  lemma SameRecordsDistinct(b: Bucket, b': Bucket)
    requires Distinct(b) && SameRecords(b, b')
    ensures Distinct(b')
  {
    forall i, j | 0 <= i < j < |b'|
      ensures !b'[i].rec.Matches(b'[j].rec)
    {
      assert !b[i].rec.Matches(b[j].rec);
    }
  }

  lemma LifeIsNoKey(e: Entry, l: Life)
    ensures KindOf(WithLife(e, l).rec) == KindOf(e.rec) && KeyFor(WithLife(e, l).rec) == KeyFor(e.rec)
  {
  }

  lemma KeepOk(b: Bucket, p: Entry -> bool, kind: Kind, key: bytes)
    requires BucketOk(b, kind, key)
    ensures BucketOk(Keep(b, p), kind, key)
  {
    KeepDistinct(b, p);
  }

  lemma OnBucketOk(s: State, kind: Kind, key: bytes, b: Bucket)
    requires StateOk(s) && (key in s.Of(kind) ==> BucketOk(b, kind, key))
    ensures StateOk(OnBucket(s, kind, key, b))
  {
    hide BucketOk;
    forall k: Kind
      ensures TableOk(OnBucket(s, kind, key, b).Of(k), k)
    {
      assert TableOk(s.Of(k), k);
    }
  }

  lemma SubtableOk(t: Table, gone: set<bytes>, kind: Kind)
    requires TableOk(t, kind)
    ensures TableOk(t - gone, kind)
  {
    hide BucketOk;
  }

  lemma WithoutInterfaceOk(s: State, id: InterfaceId)
    requires StateOk(s)
    ensures StateOk(WithoutInterface(s, id))
  {
    hide TableOk, Retained, AllRemoved;
    var p := e => NotFrom(e, id);
    var gone := AllRemoved(s.ptr, id);
    assert TableOk(s.Of(PtrKind), PtrKind) && TableOk(s.Of(SrvKind), SrvKind);
    assert TableOk(s.Of(TxtKind), TxtKind) && TableOk(s.Of(AddrKind), AddrKind);
    SubtableOk(s.srv, gone, SrvKind);
    SubtableOk(s.txt, gone, TxtKind);
    RetainedOk(s.ptr, PtrKind, p);
    RetainedOk(s.srv - gone, SrvKind, p);
    RetainedOk(s.txt - gone, TxtKind, p);
    RetainedOk(s.addr, AddrKind, p);
  }

  lemma WithoutExpiredOk(s: State, now: nat)
    requires StateOk(s)
    ensures StateOk(WithoutExpired(s, now))
  {
    hide TableOk, KeptIn, RetainedIn, Named;
    assert TableOk(s.Of(PtrKind), PtrKind) && TableOk(s.Of(SrvKind), SrvKind);
    assert TableOk(s.Of(TxtKind), TxtKind) && TableOk(s.Of(AddrKind), AddrKind);
    KeptInOk(s.ptr, s.ptr.Keys, PtrKind, Living(now));
    KeptInOk(s.srv, Named(s.ptr), SrvKind, Living(now));
    KeptInOk(s.txt, Named(s.ptr), TxtKind, Living(now));
  }

  /** Every operation keeps the records of each bucket distinct, and filed under their own name. */
  lemma OpKeepsState(s: State, op: Op)
    requires StateOk(s)
    ensures StateOk(After(s, op))
  {
    hide BucketOk, Keep, Distinct, Retained, AfterAdd, WithoutInterface, WithoutExpired, KeptIn;
    match op
    case Add(incoming, src, isForUs, now) => AddKeepsState(s, incoming, src, isForUs, now);
    case EvictAddr(now) =>
      assert TableOk(s.Of(AddrKind), AddrKind);
      RetainedOk(s.addr, AddrKind, e => NotExpired(e, now));
      forall k: Kind
        ensures TableOk(After(s, op).Of(k), k)
      {
        assert TableOk(s.Of(k), k);
      }
    case EvictServices(now) => WithoutExpiredOk(s, now);
    case DisableAddrs(index, v4, v6, _) =>
      assert TableOk(s.Of(AddrKind), AddrKind);
      KeptInOk(s.addr, s.addr.Keys, AddrKind, e => NotDisabled(e, index, v4, v6));
      forall k: Kind
        ensures TableOk(After(s, op).Of(k), k)
      {
        assert TableOk(s.Of(k), k);
      }
    case RemoveRecord(rec, _) =>
      if KindOf(rec).Some? {
        var kind, key := KindOf(rec).value, rec.GetName();
        assert TableOk(s.Of(kind), kind);
        if key in s.Of(kind) {
          KeepOk(s.BucketOf(kind, key), (e: Entry) => !e.rec.Matches(rec), kind, key);
        }
        OnBucketOk(s, kind, key, Keep(s.BucketOf(kind, key), (e: Entry) => !e.rec.Matches(rec)));
      }
    case RemoveInterface(id, _) => WithoutInterfaceOk(s, id);
    case ExpireSooner(kind, key, at, _) =>
      assert TableOk(s.Of(kind), kind);
      if key in s.Of(kind) {
        SameRecordsOk(s.BucketOf(kind, key), SoonerIn(s.BucketOf(kind, key), at), kind, key);
      }
      OnBucketOk(s, kind, key, SoonerIn(s.BucketOf(kind, key), at));
    case Refresh(kind, key, now) =>
      assert TableOk(s.Of(kind), kind);
      if key in s.Of(kind) {
        SameRecordsOk(s.BucketOf(kind, key), RefreshIn(s.BucketOf(kind, key), now), kind, key);
      }
      OnBucketOk(s, kind, key, RefreshIn(s.BucketOf(kind, key), now));
    case RefreshHost(key, now) =>
      assert TableOk(s.Of(AddrKind), AddrKind);
      if key in s.Of(AddrKind) {
        SameRecordsOk(s.BucketOf(AddrKind, key), RefreshOnceIn(s.BucketOf(AddrKind, key), now), AddrKind, key);
      }
      OnBucketOk(s, AddrKind, key, RefreshOnceIn(s.BucketOf(AddrKind, key), now));
  }

  /** In every run from an empty cache, no bucket holds two records that match. */
  lemma {:induction false} RunKeepsState(ops: seq<Op>)
    ensures StateOk(Run(State(map[], map[], map[], map[]), ops))
  {
    if ops == [] {
      forall k: Kind
        ensures TableOk(State(map[], map[], map[], map[]).Of(k), k)
      {
      }
    } else {
      hide StateOk, After;
      RunKeepsState(ops[..|ops| - 1]);
      OpKeepsState(Run(State(map[], map[], map[], map[]), ops[..|ops| - 1]), ops[|ops| - 1]);
    }
  }

  // ----- Cache flush, then eviction -----

  /** What a cache flush is about: records of its class and type, and for an address of its interface. */
  predicate Concerned(e: Entry, flusher: Record) {
    && e.rec.rrclass == flusher.rrclass && e.rec.rdata.Type() == flusher.rdata.Type()
    && OneInterface(e.rec.rdata, flusher.rdata)
  }

  /** Such a record is younger than a second before the flush, or goes within a second after it. */
  ghost predicate Horizon(b: Bucket, flusher: Record, t: nat) {
    forall e <- b :: Concerned(e, flusher) ==> e.rec.life.created + 1000 >= t || e.rec.life.expires <= t + 1000
  }

  /** Records are stamped when they are parsed, just before they are added. */
  predicate Timely(op: Op, t: nat) {
    && op.now >= t
    && (op.Add? ==> op.incoming.life.created + 1000 >= op.now)
  }

  lemma AddSetsHorizon(b: Bucket, flusher: Record, src: InterfaceId, t: nat)
    requires flusher.flush && flusher.life.created + 1000 >= t
    ensures Horizon(AddedBucket(b, flusher, src, t), flusher, t)
  {
    var c := FlushBucket(b, flusher, t);
    forall e <- AddedBucket(b, flusher, src, t)
      ensures Concerned(e, flusher) ==> e.rec.life.created + 1000 >= t || e.rec.life.expires <= t + 1000
    {
      if e in c {
        var i :| 0 <= i < |c| && c[i] == e;
        assert e == FlushOne(b[i], flusher, t);
      }
    }
  }

  lemma AddKeepsHorizon(b: Bucket, incoming: Record, src: InterfaceId, now: nat, flusher: Record, t: nat)
    requires Horizon(b, flusher, t) && now >= t && incoming.life.created + 1000 >= now
    ensures Horizon(AddedBucket(b, incoming, src, now), flusher, t)
  {
    var c := if incoming.flush then FlushBucket(b, incoming, now) else b;
    forall e <- c
      ensures Concerned(e, flusher) ==> e.rec.life.created + 1000 >= t || e.rec.life.expires <= t + 1000
    {
      var i :| 0 <= i < |c| && c[i] == e;
      assert b[i] in b;
    }
    var i := FirstMatch(c, incoming, 0);
    assert forall e <- AddToBucket(c, incoming, src) :: e in c || e.rec.life.created == incoming.life.created;
  }

  lemma LivesKeepHorizon(b: Bucket, b': Bucket, flusher: Record, t: nat)
    requires Horizon(b, flusher, t) && SameRecords(b, b')
    requires forall i :: 0 <= i < |b| ==> b'[i].rec.life.created == b[i].rec.life.created
                                          && b'[i].rec.life.expires <= b[i].rec.life.expires
    ensures Horizon(b', flusher, t)
  {
    forall e <- b'
      ensures Concerned(e, flusher) ==> e.rec.life.created + 1000 >= t || e.rec.life.expires <= t + 1000
    {
      var i :| 0 <= i < |b'| && b'[i] == e;
      assert b[i] in b;
    }
  }

  lemma OpKeepsHorizon(s: State, op: Op, kind: Kind, key: bytes, flusher: Record, t: nat)
    requires Horizon(s.BucketOf(kind, key), flusher, t) && Timely(op, t)
    ensures Horizon(After(s, op).BucketOf(kind, key), flusher, t)
  {
    var b := s.BucketOf(kind, key);
    var b' := After(s, op).BucketOf(kind, key);
    match op
    case Add(incoming, src, isForUs, now) =>
      hide AddedBucket, Concerned, KeyFor;
      AddKeepsHorizon(b, incoming, src, now, flusher, t);
    case ExpireSooner(_, _, at, _) => LivesKeepHorizon(b, SoonerIn(b, at), flusher, t);
    case Refresh(_, _, now) => LivesKeepHorizon(b, RefreshIn(b, now), flusher, t);
    case RefreshHost(_, now) => LivesKeepHorizon(b, RefreshOnceIn(b, now), flusher, t);
    case _ =>
      hide Concerned, NotDisabled, WithoutInterface, WithoutExpired;
      OpOnlyRemoves(s, op, kind, key);
  }

  /** The other operations only remove records. */
  lemma OpOnlyRemoves(s: State, op: Op, kind: Kind, key: bytes)
    requires !op.Add? && !op.ExpireSooner? && !op.Refresh? && !op.RefreshHost?
    ensures forall e <- After(s, op).BucketOf(kind, key) :: e in s.BucketOf(kind, key)
  {
  }

  lemma {:induction false} RunKeepsHorizon(s: State, ops: seq<Op>, kind: Kind, key: bytes, flusher: Record, t: nat)
    requires Horizon(s.BucketOf(kind, key), flusher, t) && forall op <- ops :: Timely(op, t)
    ensures Horizon(Run(s, ops).BucketOf(kind, key), flusher, t)
  {
    if ops != [] {
      hide Horizon, After, Timely;
      assert forall op <- ops[..|ops| - 1] :: op in ops;
      RunKeepsHorizon(s, ops[..|ops| - 1], kind, key, flusher, t);
      OpKeepsHorizon(Run(s, ops[..|ops| - 1]), ops[|ops| - 1], kind, key, flusher, t);
    }
  }

  /** After a flush at `t` and whatever else, an old record of that kind is gone by `t + 1000`. */
  lemma FlushedExpire(s: State, flusher: Record, src: InterfaceId, isForUs: bool, t: nat, ops: seq<Op>)
    requires flusher.flush && Timely(Add(flusher, src, isForUs, t), t) && Accepts(s, flusher, isForUs)
    requires forall op <- ops :: Timely(op, t)
    ensures Horizon(Run(After(s, Add(flusher, src, isForUs, t)), ops).BucketOf(KindOf(flusher).value, KeyFor(flusher)),
                    flusher, t)
  {
    hide AddedBucket, Run, Concerned, KeyFor, Timely;
    var kind, key := KindOf(flusher).value, KeyFor(flusher);
    var s1 := After(s, Add(flusher, src, isForUs, t));
    assert s1.BucketOf(kind, key) == AddedBucket(s.BucketOf(kind, key), flusher, src, t);
    TimelyAdd(flusher, src, isForUs, t);
    AddSetsHorizon(s.BucketOf(kind, key), flusher, src, t);
    RunKeepsHorizon(s1, ops, kind, key, flusher, t);
  }

  /**
   * RFC 6762 section 10.2 over whole runs. An address with the cache-flush bit arrives at `t`. After
   * anything else has happened, an eviction at `t + 1000` or later leaves, for its host, class, type
   * and interface, only records that are younger than a second before `t`.
   */
  lemma FlushedAddressesGo(
    s: State, flusher: Record, src: InterfaceId, isForUs: bool, t: nat, ops: seq<Op>, evictAt: nat)
    requires flusher.flush && flusher.IsAddress() && Timely(Add(flusher, src, isForUs, t), t)
    requires Accepts(s, flusher, isForUs)
    requires (forall op <- ops :: Timely(op, t)) && evictAt >= t + 1000
    ensures var s1 := After(s, Add(flusher, src, isForUs, t));
            var s2 := After(Run(s1, ops), EvictAddr(evictAt));
            forall e <- s2.BucketOf(AddrKind, KeyFor(flusher)) ::
              Concerned(e, flusher) ==> e.rec.life.created + 1000 >= t
  {
    hide Run, Concerned, KeyFor, Timely;
    FlushedExpire(s, flusher, src, isForUs, t, ops);
  }

  /**
   * The same for an SRV, TXT or PTR record with the cache-flush bit, and the eviction of services: an older record of
   * its name, class and type is left only if it is an SRV or TXT record that no PTR record leads to by then.
   */
  lemma FlushedServicesGo(
    s: State, flusher: Record, src: InterfaceId, isForUs: bool, t: nat, ops: seq<Op>, evictAt: nat)
    requires flusher.flush && !flusher.IsAddress() && Timely(Add(flusher, src, isForUs, t), t)
    requires Accepts(s, flusher, isForUs)
    requires (forall op <- ops :: Timely(op, t)) && evictAt >= t + 1000
    ensures var s1 := Run(After(s, Add(flusher, src, isForUs, t)), ops);
            var kind, key := KindOf(flusher).value, KeyFor(flusher);
            forall e <- After(s1, EvictServices(evictAt)).BucketOf(kind, key) ::
              Concerned(e, flusher) ==>
                || e.rec.life.created + 1000 >= t
                || (kind != PtrKind && e.rec.life.expires <= t + 1000 && forall ty :: !HasPtr(s1.ptr, ty, key))
  {
    hide Run, Concerned, KeyFor, Timely, HasPtr, WithoutExpired;
    var s1 := Run(After(s, Add(flusher, src, isForUs, t)), ops);
    var kind, key := KindOf(flusher).value, KeyFor(flusher);
    FlushedExpire(s, flusher, src, isForUs, t, ops);
    forall e <- WithoutExpired(s1, evictAt).BucketOf(kind, key)
      ensures Concerned(e, flusher) ==>
                || e.rec.life.created + 1000 >= t
                || (kind != PtrKind && e.rec.life.expires <= t + 1000 && forall ty :: !HasPtr(s1.ptr, ty, key))
    {
      ExpiredLeftIff(s1, evictAt, kind, key, e);
    }
  }

  lemma TimelyAdd(incoming: Record, src: InterfaceId, isForUs: bool, t: nat)
    requires Timely(Add(incoming, src, isForUs, t), t)
    ensures incoming.life.created + 1000 >= t
  {
  }
}
