// The loops by which SRV records get a new target: out of their lists, and into probes for their names.
module HostRewrite {
  import opened Bytes
  import opened DnsRecords
  import opened Probes
  import opened RegistryState

  /** Takes the SRV records that point to `host` out of a list, and gives them their new target. */
  method TakePointers(rs: seq<Record>, host: bytes, newHost: bytes) returns (kept: seq<Record>, found: seq<Record>)
    ensures kept == Staying(rs, host) && found == Moving(rs, host, newHost)
  {
    kept, found := [], [];
    for i := 0 to |rs|
      invariant kept == Staying(rs[..i], host) && found == Moving(rs[..i], host, newHost)
    {
      assert rs[..i + 1][..i] == rs[..i];
      if PointsTo(rs[i], host) {
        found := found + [Pointed(rs[i], newHost)];
      } else {
        kept := kept + [rs[i]];
      }
    }
    assert rs[..|rs|] == rs;
  }

  /** `found` is what moves from the lists under `names`. */
  ghost predicate FoundUnder(found: seq<Record>, m: Records, names: set<bytes>, host: bytes, newHost: bytes)
    requires names <= m.Keys
  {
    forall n :: multiset(ForName(found, n, |found|))
             == if n in names then multiset(Moving(m[n], host, newHost)) else multiset{}
  }

  lemma {:induction false} ForNameConcat(a: seq<Record>, b: seq<Record>, name: bytes)
    ensures ForName(a + b, name, |a| + |b|) == ForName(a, name, |a|) + ForName(b, name, |b|)
    decreases |b|
  {
    if b == [] {
      assert a + b == a;
    } else {
      var front := b[..|b| - 1];
      ForNameConcat(a, front, name);
      ForNamePrefix(a + b, a + front, name, |a| + |front|);
      ForNamePrefix(b, front, name, |front|);
    }
  }

  lemma {:induction false} ForNamePrefix(a: seq<Record>, b: seq<Record>, name: bytes, n: nat)
    requires n <= |a| && n <= |b| && a[..n] == b[..n]
    ensures ForName(a, name, n) == ForName(b, name, n)
  {
    if n > 0 {
      assert a[..n - 1] == a[..n][..n - 1] == b[..n - 1];
      assert a[n - 1] == a[..n][n - 1] == b[..n][n - 1] == b[n - 1];
      ForNamePrefix(a, b, name, n - 1);
    }
  }

  lemma ForNameNext(rs: seq<Record>, k: bytes, n: nat)
    requires 0 < n <= |rs|
    ensures ForName(rs, k, n) == if rs[n - 1].GetName() == k then ForName(rs, k, n - 1) + [rs[n - 1]]
                                 else ForName(rs, k, n - 1)
  {
    hide Record.GetName;
  }

  lemma {:induction false} ForNameOfFiled(rs: seq<Record>, name: bytes, n: nat, k: bytes)
    requires n <= |rs| && Filed(rs, name)
    ensures ForName(rs, k, n) == if k == name then rs[..n] else []
  {
    if n > 0 {
      assert rs[n - 1] in rs && rs[n - 1].GetName() == name;
      hide Record.GetName, ForName, Filed;
      ForNameOfFiled(rs, name, n - 1, k);
      ForNameNext(rs, k, n);
      assert rs[..n] == rs[..n - 1] + [rs[n - 1]];
    }
  }

  lemma FoundMore(
    found: seq<Record>, m: Records, names: set<bytes>, n: bytes, host: bytes, newHost: bytes, moving: seq<Record>)
    requires names <= m.Keys && n in m && n !in names && Filed(m[n], n)
    requires FoundUnder(found, m, names, host, newHost) && moving == Moving(m[n], host, newHost)
    ensures FoundUnder(found + moving, m, names + {n}, host, newHost)
  {
    hide Moving, ForName;
    MovingKeepsName(m[n], host, newHost, n);
    assert Filed(moving, n);
    forall k
      ensures multiset(ForName(found + moving, k, |found + moving|))
           == if k in names + {n} then multiset(Moving(m[k], host, newHost)) else multiset{}
    {
      FoundMoreAt(found, moving, n, k);
      assert multiset(ForName(found, k, |found|))
          == if k in names then multiset(Moving(m[k], host, newHost)) else multiset{};
    }
  }

  lemma FoundMoreAt(found: seq<Record>, moving: seq<Record>, n: bytes, k: bytes)
    requires Filed(moving, n)
    ensures multiset(ForName(found + moving, k, |found + moving|))
         == multiset(ForName(found, k, |found|)) + if k == n then multiset(moving) else multiset{}
  {
    hide ForName;
    ForNameConcat(found, moving, k);
    ForNameOfFiled(moving, n, |moving|, k);
    assert moving[..|moving|] == moving;
  }

  lemma NoneFound(m: Records, host: bytes, newHost: bytes)
    ensures FoundUnder([], m, {}, host, newHost)
  {
  }

  ghost predicate AllFiled(m: Records) {
    forall n <- m :: Filed(m[n], n)
  }

  /** The same for all lists of a table, in any order. */
  method TakeAllPointers(m: Records, host: bytes, newHost: bytes) returns (kept: Records, found: seq<Record>)
    requires AllFiled(m)
    ensures kept.Keys == m.Keys && forall n <- m :: kept[n] == Staying(m[n], host)
    ensures FoundUnder(found, m, m.Keys, host, newHost)
  {
    hide Staying, Moving, FoundUnder, Filed;
    kept, found := m, [];
    var todo := m.Keys;
    NoneFound(m, host, newHost);
    assert m.Keys - todo == {};
    while todo != {}
      invariant todo <= m.Keys && kept.Keys == m.Keys
      invariant forall n <- m :: kept[n] == if n in todo then m[n] else Staying(m[n], host)
      invariant FoundUnder(found, m, m.Keys - todo, host, newHost)
    {
      var n :| n in todo;
      var k, f := TakePointers(kept[n], host, newHost);
      FoundMore(found, m, m.Keys - todo, n, host, newHost, f);
      assert m.Keys - todo + {n} == m.Keys - (todo - {n});
      kept, found, todo := kept[n := k], found + f, todo - {n};
    }
    assert m.Keys - todo == m.Keys;
  }

  // ----- Putting the records with a new target into their probes -----

  ghost predicate PlacedAt(before: map<bytes, ProbeState>, rs: seq<Record>, time: nat, n: bytes, p': ProbeState) {
    var p := if n in before then before[n] else NewProbe(time);
    var mine := ForName(rs, n, |rs|);
    && Sorted(p'.records)
    && multiset(p'.records) == multiset(p.records) + multiset(mine)
    && p' == p.(records := p'.records, startTime := if mine == [] then p.startTime else time)
  }

  ghost predicate Placed(
    before: map<bytes, ProbeState>, rs: seq<Record>, time: nat, after: map<bytes, ProbeState>)
  {
    && (forall n :: n in after <==> n in before || ForName(rs, n, |rs|) != [])
    && (forall n <- after :: PlacedAt(before, rs, time, n, after[n]))
  }

  lemma NonePlaced(before: map<bytes, ProbeState>, time: nat)
    requires forall n <- before :: Sorted(before[n].records)
    ensures Placed(before, [], time, before)
  {
  }

  lemma ForNameMore(rs: seq<Record>, r: Record, n: bytes)
    ensures ForName(rs + [r], n, |rs + [r]|) == ForName(rs, n, |rs|) + if r.GetName() == n then [r] else []
  {
    hide Record.GetName;
    ForNamePrefix(rs + [r], rs, n, |rs|);
  }

  lemma PlacedMore(
    before: map<bytes, ProbeState>, rs: seq<Record>, time: nat, mid: map<bytes, ProbeState>, r: Record, p': ProbeState)
    requires Placed(before, rs, time, mid)
    requires var p := if r.GetName() in mid then mid[r.GetName()] else NewProbe(time);
             Inserted(p.records, r, p'.records) && p' == p.(records := p'.records, startTime := time)
    ensures Placed(before, rs + [r], time, mid[r.GetName() := p'])
  {
    hide Sorted, Inserted, PlacedAt, Record.GetName, ForName;
    var name := r.GetName();
    var after := mid[name := p'];
    forall n
      ensures n in after <==> n in before || ForName(rs + [r], n, |rs + [r]|) != []
    {
      ForNameMore(rs, r, n);
    }
    PlacedHere(before, rs, time, mid, r, p');
    forall n <- after
      ensures PlacedAt(before, rs + [r], time, n, after[n])
    {
      if n != name { PlacedElsewhere(before, rs, time, r, n, mid[n]); }
    }
  }

  lemma PlacedHere(
    before: map<bytes, ProbeState>, rs: seq<Record>, time: nat, mid: map<bytes, ProbeState>, r: Record, p': ProbeState)
    requires Placed(before, rs, time, mid)
    requires var p := if r.GetName() in mid then mid[r.GetName()] else NewProbe(time);
             Inserted(p.records, r, p'.records) && p' == p.(records := p'.records, startTime := time)
    ensures PlacedAt(before, rs + [r], time, r.GetName(), p')
  {
    hide Sorted, Inserted, Record.GetName;
    var name := r.GetName();
    ForNameMore(rs, r, name);
    var p := if name in mid then mid[name] else NewProbe(time);
    EmptySorted();
    InsertedFacts(p.records, r, p'.records);
    if name in mid {
      assert PlacedAt(before, rs, time, name, mid[name]);
    } else {
      assert ForName(rs, name, |rs|) == [];
    }
  }

  lemma PlacedElsewhere(before: map<bytes, ProbeState>, rs: seq<Record>, time: nat, r: Record, n: bytes, p': ProbeState)
    requires PlacedAt(before, rs, time, n, p') && r.GetName() != n
    ensures PlacedAt(before, rs + [r], time, n, p')
  {
    hide Sorted, ForName;
    ForNameMore(rs, r, n);
  }

  /** The three steps together are what a new host name asks for. */
  lemma PlacedIsUpdated(
    reg: Reg, reg': Reg, kept: map<bytes, ProbeState>, found: seq<Record>, found': seq<Record>,
    host: bytes, newHost: bytes, time: nat)
    requires kept.Keys == reg.probing.Keys
    requires forall n <- kept :: kept[n] == reg.probing[n].(records := Staying(reg.probing[n].records, host))
    requires reg'.active.Keys == reg.active.Keys
    requires forall n <- reg.active :: reg'.active[n] == Staying(reg.active[n], host)
    requires reg'.nameChanges == reg.nameChanges
    requires FoundUnder(found, RecordsIn(reg.probing), reg.probing.Keys, host, newHost)
    requires FoundUnder(found', reg.active, reg.active.Keys, host, newHost)
    requires Placed(kept, found + found', time, reg'.probing)
    ensures HostUpdated(reg, host, newHost, time, reg')
  {
    hide Sorted, Staying, Moving, ForName;
    hide FoundUnder;
    forall n
      ensures n in reg'.probing <==> n in reg.probing || Moved(reg, n, host, newHost) != []
      ensures n in reg'.probing ==> Reprobed(reg, n, host, newHost, time, reg'.probing[n])
    {
      MovedIsFound(reg, found, found', host, newHost, n);
      EmptySplit(host, newHost);
      if n in reg'.probing { assert PlacedAt(kept, found + found', time, n, reg'.probing[n]); }
    }
  }

  lemma MovedIsFound(reg: Reg, found: seq<Record>, found': seq<Record>, host: bytes, newHost: bytes, n: bytes)
    requires FoundUnder(found, RecordsIn(reg.probing), reg.probing.Keys, host, newHost)
    requires FoundUnder(found', reg.active, reg.active.Keys, host, newHost)
    ensures multiset(ForName(found + found', n, |found + found'|)) == multiset(Moved(reg, n, host, newHost))
    ensures ForName(found + found', n, |found + found'|) == [] <==> Moved(reg, n, host, newHost) == []
  {
    hide Moving, ForName;
    ForNameConcat(found, found', n);
    EmptySplit(host, newHost);
    var all, moved := ForName(found + found', n, |found + found'|), Moved(reg, n, host, newHost);
    assert multiset(ForName(found, n, |found|)) == multiset(Moving(Under(RecordsIn(reg.probing), n), host, newHost));
    assert multiset(ForName(found', n, |found'|)) == multiset(Moving(Under(reg.active, n), host, newHost));
    assert |all| == |multiset(all)| && |moved| == |multiset(moved)|;
  }
}
