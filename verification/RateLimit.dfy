// RFC 6762 section 6: a record is not multicast more than once a second on one interface and
// address family.
module RateLimit {
  import opened Bytes
  import opened DnsName
  import opened DnsRecords
  import TxtCodec

  const WINDOW := 1000

  /** How the rdata prints; a TXT record prints as its properties. */
  datatype Shown =
    | ShownIp(ip: bytes)
    | ShownAlias(alias: bytes)
    | ShownSrv(priority: u16, weight: u16, port: u16, host: bytes)
    | ShownTxt(properties: seq<TxtCodec.TxtProperty>)

  /** The identity of a record: name without case, type and rdata. */
  datatype RateKey = RateKey(name: bytes, ty: RRType, shown: Shown)

  function ShownOf(rdata: RData): Shown {
    match rdata
    case Addr4(ip, _) => ShownIp(ip)
    case Addr6(ip, _) => ShownIp(ip)
    case Pointer(_, alias) => ShownAlias(alias)
    case Srv(p, w, q, h) => ShownSrv(p, w, q, h)
    case Txt(text) => ShownTxt(TxtCodec.Decoded(text))
  }

  function KeyOf(rec: Record): RateKey {
    RateKey(Lower(rec.GetName()), rec.rdata.Type(), ShownOf(rec.rdata))
  }

  /** Data that print alike: on which interface an address was seen does not matter, nor how a TXT record is cut up. */
  predicate PrintsAlike(a: RData, b: RData) {
    match (a, b)
    case (Addr4(x, _), Addr4(y, _)) => x == y
    case (Addr6(x, _), Addr6(y, _)) => x == y
    case (Pointer(c, x), Pointer(c', y)) => c == c' && x == y
    case (Srv(p, w, q, h), Srv(p', w', q', h')) => p == p' && w == w' && q == q' && h == h'
    case (Txt(x), Txt(y)) => TxtCodec.Decoded(x) == TxtCodec.Decoded(y)
    case _ => false
  }

  /** Two records are one for the limit exactly if their names differ at most in case and their data print alike. */
  lemma SameKeyIff(a: Record, b: Record)
    ensures KeyOf(a) == KeyOf(b) <==> SameButCase(a.GetName(), b.GetName()) && PrintsAlike(a.rdata, b.rdata)
  {
    hide Lower, SameButCase, TxtCodec.Decoded;
    SameLowerIff(a.GetName(), b.GetName());
  }

  type Stamps = map<RateKey, nat>

  datatype Response = Response(answers: seq<Record>, additionals: seq<Record>)

  /** `now - last`, cut at zero. */
  function Since(now: nat, last: nat): nat {
    if now < last then 0 else now - last
  }

  predicate Recent(m: Stamps, k: RateKey, now: nat) {
    k in m && Since(now, m[k]) < WINDOW
  }

  function Pruned(m: Stamps, now: nat): Stamps {
    map k | k in m && Since(now, m[k]) < WINDOW :: m[k]
  }

  /** The record at `i` may go out: no recent stamp, and no record of its key in front of it. */
  predicate Passes(m: Stamps, rs: seq<Record>, i: nat, now: nat)
    requires i < |rs|
  {
    !Recent(m, KeyOf(rs[i]), now) && forall j :: 0 <= j < i ==> KeyOf(rs[j]) != KeyOf(rs[i])
  }

  function Survivors(m: Stamps, rs: seq<Record>, n: nat, now: nat): seq<Record>
    requires n <= |rs|
  {
    if n == 0 then []
    else Survivors(m, rs, n - 1, now) + if Passes(m, rs, n - 1, now) then [rs[n - 1]] else []
  }

  function KeysOf(rs: seq<Record>): set<RateKey> {
    set r | r in rs :: KeyOf(r)
  }

  function Stamped(m: Stamps, ks: set<RateKey>, now: nat): Stamps {
    map k | k in m.Keys + ks :: if k in ks then now else m[k]
  }

  /** What a call lets through, and the stamps that it leaves. */
  datatype Verdict = Verdict(out: Response, stamps: Stamps)

  function Limited(m: Stamps, out: Response, now: nat): Verdict {
    var answers := Survivors(m, out.answers, |out.answers|, now);
    var m1 := Stamped(m, KeysOf(answers), now);
    if answers == [] then Verdict(out.(answers := []), m)
    else
      var additionals := Survivors(m1, out.additionals, |out.additionals|, now);
      Verdict(Response(answers, additionals), Stamped(m1, KeysOf(additionals), now))
  }

  /** The stamps of one interface. */
  class MulticastStamps {
    var lastV4: Stamps
    var lastV6: Stamps

    constructor ()
      ensures lastV4 == map[] && lastV6 == map[]
    {
      lastV4, lastV6 := map[], map[];
    }

    /** Keeps the records that may go out, and stamps them. */
    method Retain(m0: Stamps, rs: seq<Record>, now: nat) returns (kept: seq<Record>, m: Stamps)
      ensures kept == Survivors(m0, rs, |rs|, now)
      ensures m == Stamped(m0, KeysOf(kept), now)
    {
      hide KeyOf, KeysOf, Stamped, Passes;
      kept, m := [], m0;
      NothingStamped(m0, now);
      for i := 0 to |rs|
        invariant kept == Survivors(m0, rs, i, now)
        invariant m == Stamped(m0, KeysOf(kept), now)
      {
        RecentNow(m0, rs, i, now);
        var k := KeyOf(rs[i]);
        if !(k in m && Since(now, m[k]) < WINDOW) {
          StampOneMore(m0, kept, rs[i], now);
          m := m[k := now];
          kept := kept + [rs[i]];
        }
      }
    }

    method ApplyMulticastRateLimit(out: Response, now: nat, isIpv4: bool) returns (r: Response)
      modifies this
      ensures var v := Limited(Pruned(if isIpv4 then old(lastV4) else old(lastV6), now), out, now);
              && r == v.out
              && lastV4 == (if isIpv4 then v.stamps else old(lastV4))
              && lastV6 == (if isIpv4 then old(lastV6) else v.stamps)
    {
      hide Survivors, Stamped, KeysOf;
      var last := if isIpv4 then lastV4 else lastV6;
      last := map k | k in last && Since(now, last[k]) < WINDOW :: last[k];
      var answers, m := Retain(last, out.answers, now);
      r := out.(answers := answers);
      if |answers| > 0 {
        var additionals;
        additionals, m := Retain(m, out.additionals, now);
        r := r.(additionals := additionals);
      } else {
        NothingStamped(last, now);
      }
      if isIpv4 {
        lastV4 := m;
      } else {
        lastV6 := m;
      }
    }
  }

  lemma StampOneMore(m: Stamps, kept: seq<Record>, r: Record, now: nat)
    ensures Stamped(m, KeysOf(kept + [r]), now) == Stamped(m, KeysOf(kept), now)[KeyOf(r) := now]
  {
    hide KeyOf;
    assert KeysOf(kept + [r]) == KeysOf(kept) + {KeyOf(r)};
  }

  lemma NothingStamped(m: Stamps, now: nat)
    ensures Stamped(m, KeysOf([]), now) == m
  {
  }

  /** In the middle of a list, a key is recent if it was before, or has already gone out. */
  lemma RecentNow(m: Stamps, rs: seq<Record>, i: nat, now: nat)
    requires i < |rs|
    ensures Recent(Stamped(m, KeysOf(Survivors(m, rs, i, now)), now), KeyOf(rs[i]), now) <==> !Passes(m, rs, i, now)
  {
    SurvivorKeys(m, rs, i, now);
  }

  /** The keys that survive are those without a recent stamp, each once. */
  lemma {:induction false} SurvivorKeys(m: Stamps, rs: seq<Record>, n: nat, now: nat)
    requires n <= |rs|
    ensures forall k :: k in KeysOf(Survivors(m, rs, n, now)) <==>
                        !(k in m && now < m[k] + 1000) && exists i :: 0 <= i < n && KeyOf(rs[i]) == k
  {
    hide KeyOf;
    if n > 0 {
      SurvivorKeys(m, rs, n - 1, now);
      var front := Survivors(m, rs, n - 1, now);
      assert KeysOf(front + [rs[n - 1]]) == KeysOf(front) + {KeyOf(rs[n - 1])};
      assert front + [] == front;
      forall k
        ensures k in KeysOf(Survivors(m, rs, n, now)) <==>
                !Recent(m, k, now) && exists i :: 0 <= i < n && KeyOf(rs[i]) == k
      {
        if KeyOf(rs[n - 1]) == k {
        } else if i :| 0 <= i < n && KeyOf(rs[i]) == k {
          assert i < n - 1;
        }
      }
    }
  }

  /** An answer without a stamp of the last second always survives where it is first listed. */
  lemma {:induction false} FirstOccurrenceSurvives(m: Stamps, rs: seq<Record>, n: nat, i: nat, now: nat)
    requires i < n <= |rs| && Passes(m, rs, i, now)
    ensures rs[i] in Survivors(m, rs, n, now)
  {
    if n - 1 > i {
      FirstOccurrenceSurvives(m, rs, n - 1, i, now);
    }
  }

  /** The keys that a call sends. A message without an answer is not sent. */
  function Sent(m: Stamps, out: Response, now: nat): set<RateKey> {
    var v := Limited(m, out, now);
    if v.out.answers == [] then {} else KeysOf(v.out.answers) + KeysOf(v.out.additionals)
  }

  /** A key is stamped exactly if it stays in a message that keeps an answer. */
  lemma StampedIffSent(m: Stamps, out: Response, now: nat)
    ensures Limited(m, out, now).stamps == Stamped(m, Sent(m, out, now), now)
    ensures forall k <- Sent(m, out, now) :: !Recent(m, k, now)
  {
    hide Survivors, KeysOf;
    var v := Limited(m, out, now);
    SurvivorKeys(m, out.answers, |out.answers|, now);
    var answers := Survivors(m, out.answers, |out.answers|, now);
    var m1 := Stamped(m, KeysOf(answers), now);
    SurvivorKeys(m1, out.additionals, |out.additionals|, now);
  }

  /** One call, for one address family. */
  datatype Call = Call(out: Response, now: nat)

  /** The stamps after a run, with or without pruning them before each call. */
  function StampsAfter(calls: seq<Call>, prune: bool): Stamps
    decreases |calls|, 1
  {
    if calls == [] then map[]
    else
      var last := calls[|calls| - 1];
      Limited(Before(calls, prune), last.out, last.now).stamps
  }

  /** The stamps that the last call of `calls` goes by. */
  function Before(calls: seq<Call>, prune: bool): Stamps
    requires calls != []
    decreases |calls|, 0
  {
    var m := StampsAfter(calls[..|calls| - 1], prune);
    if prune then Pruned(m, calls[|calls| - 1].now) else m
  }

  /** The keys that call `i` of a run sends. */
  function SentBy(calls: seq<Call>, i: nat): set<RateKey>
    requires i < |calls|
  {
    Sent(Before(calls[..i + 1], true), calls[i].out, calls[i].now)
  }

  predicate ClockOk(calls: seq<Call>) {
    forall i, j :: 0 <= i < j < |calls| ==> calls[i].now <= calls[j].now
  }

  /** A pruned and a full table agree on what is recent, now and later. */
  ghost predicate Alike(m: Stamps, u: Stamps, now: nat) {
    forall k :: (Recent(m, k, now) || Recent(u, k, now)) ==> k in m && k in u && m[k] == u[k]
  }

  lemma {:induction false} AlikeSurvivors(m: Stamps, u: Stamps, rs: seq<Record>, n: nat, now: nat)
    requires n <= |rs| && Alike(m, u, now)
    ensures Survivors(m, rs, n, now) == Survivors(u, rs, n, now)
  {
    if n > 0 {
      hide KeyOf;
      AlikeSurvivors(m, u, rs, n - 1, now);
    }
  }

  lemma AlikeLater(m: Stamps, u: Stamps, now: nat)
    requires Alike(m, u, now)
    ensures forall later :: later >= now ==> Alike(m, u, later)
  {
    forall later | later >= now
      ensures Alike(m, u, later)
    {
      assert forall k :: Recent(m, k, later) ==> Recent(m, k, now);
      assert forall k :: Recent(u, k, later) ==> Recent(u, k, now);
    }
  }

  lemma AlikeStamped(m: Stamps, u: Stamps, ks: set<RateKey>, now: nat)
    requires Alike(m, u, now)
    ensures forall later :: later >= now ==> Alike(Stamped(m, ks, now), Stamped(u, ks, now), later)
  {
    AlikeLater(m, u, now);
    forall later | later >= now
      ensures Alike(Stamped(m, ks, now), Stamped(u, ks, now), later)
    {
      forall k | Recent(Stamped(m, ks, now), k, later) || Recent(Stamped(u, ks, now), k, later)
        ensures k in Stamped(m, ks, now) && k in Stamped(u, ks, now) && Stamped(m, ks, now)[k] == Stamped(u, ks, now)[k]
      {
        assert Alike(m, u, later);
      }
    }
  }

  lemma AlikeLimited(m: Stamps, u: Stamps, out: Response, now: nat)
    requires Alike(m, u, now)
    ensures Limited(m, out, now).out == Limited(u, out, now).out
    ensures forall later :: later >= now ==> Alike(Limited(m, out, now).stamps, Limited(u, out, now).stamps, later)
  {
    hide Survivors, KeysOf, Stamped, Alike;
    AlikeSurvivors(m, u, out.answers, |out.answers|, now);
    var ks := KeysOf(Survivors(m, out.answers, |out.answers|, now));
    AlikeStamped(m, u, ks, now);
    var m1, u1 := Stamped(m, ks, now), Stamped(u, ks, now);
    AlikeSurvivors(m1, u1, out.additionals, |out.additionals|, now);
    AlikeStamped(m1, u1, KeysOf(Survivors(m1, out.additionals, |out.additionals|, now)), now);
    AlikeLater(m, u, now);
  }

  lemma PrunedAlike(m: Stamps, u: Stamps, now: nat)
    requires Alike(m, u, now)
    ensures Alike(Pruned(m, now), u, now)
  {
  }

  /** Pruning changes no decision: the same messages go out as without it. */
  lemma {:induction false} PruningIsHarmless(calls: seq<Call>)
    requires ClockOk(calls)
    ensures forall later :: (forall i :: 0 <= i < |calls| ==> calls[i].now <= later) ==>
                              Alike(StampsAfter(calls, true), StampsAfter(calls, false), later)
    ensures calls != [] ==>
              var last := calls[|calls| - 1];
              Limited(Before(calls, true), last.out, last.now).out
              == Limited(Before(calls, false), last.out, last.now).out
    decreases |calls|
  {
    if calls != [] {
      hide Limited, Alike, Pruned;
      var front, last := calls[..|calls| - 1], calls[|calls| - 1];
      PruningIsHarmless(front);
      assert forall i :: 0 <= i < |front| ==> front[i] == calls[i];
      assert Alike(StampsAfter(front, true), StampsAfter(front, false), last.now);
      PrunedAlike(StampsAfter(front, true), StampsAfter(front, false), last.now);
      AlikeLimited(Before(calls, true), Before(calls, false), last.out, last.now);
    }
  }

  /** Within a second of a call, the stamps of the keys it sent are that of the call or later. */
  lemma {:induction false} StampIsLastSent(calls: seq<Call>, n: nat, i: nat, k: RateKey)
    requires ClockOk(calls) && i < n <= |calls| && k in SentBy(calls, i)
    requires calls[n - 1].now < calls[i].now + WINDOW
    ensures var m := StampsAfter(calls[..n], true); k in m && calls[i].now <= m[k] <= calls[n - 1].now
    decreases n
  {
    hide Survivors, KeysOf, Limited, Sent;
    var last := calls[n - 1];
    assert calls[..n][..n - 1] == calls[..n - 1];
    StampedIffSent(Before(calls[..n], true), last.out, last.now);
    if i < n - 1 {
      StampIsLastSent(calls, n - 1, i, k);
      assert Before(calls[..n], true) == Pruned(StampsAfter(calls[..n - 1], true), last.now);
    }
  }

  /**
   * The rate limit over whole runs: if the clock does not go back, any two calls that send the same
   * record are at least a second apart.
   */
  lemma OncePerSecond(calls: seq<Call>, i: nat, j: nat, k: RateKey)
    requires ClockOk(calls) && i < j < |calls|
    requires k in SentBy(calls, i) && k in SentBy(calls, j)
    ensures calls[j].now >= calls[i].now + 1000
  {
    hide Survivors, KeysOf, Limited, Sent;
    if calls[j].now < calls[i].now + WINDOW {
      assert calls[..j + 1][..j] == calls[..j];
      StampIsLastSent(calls, j, i, k);
      StampedIffSent(Before(calls[..j + 1], true), calls[j].out, calls[j].now);
    }
  }
}
