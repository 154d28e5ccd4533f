// When the queries for a host name come to an end: over every run of the loop, not in one step of it.
module HostQueries {
  import opened Bytes
  import opened DnsName
  import opened RunLoop

  /** The resolvers on file, and the queries for host names among the retransmissions. */
  datatype HostState = HostState(resolvers: map<bytes, Option<nat>>, queries: seq<ReRun>)

  /** A host resolver is started at `at`, its first query being due at `query`; or it is stopped. */
  datatype HostCommand =
    | Start(hostname: bytes, timeout: Option<nat>, at: nat, query: nat)
    | Stop(hostname: bytes)

  /** How the execution of a due retransmission went: whether the listener still lives, and at which time. */
  datatype Heard = Heard(listening: bool, at: nat)

  /** What happens to host resolvers in one iteration: the time of its pop, its commands and its reruns. */
  datatype Turn = Turn(now: nat, commands: seq<HostCommand>, heard: seq<Heard>)

  function IsHostQuery(): ReRun -> bool {
    (r: ReRun) => r.command.ResolveHostname?
  }

  /** The queries for host names, in order. */
  function HostsOf(rs: seq<ReRun>): seq<ReRun> {
    Filter(rs, IsHostQuery())
  }

  predicate Asks(r: ReRun, h: bytes) {
    r.command.ResolveHostname? && r.command.hostname == h
  }

  // ----- One turn -----

  function Remaining(m: map<bytes, Option<nat>>, now: nat): map<bytes, Option<nat>> {
    map h | h in m && !TimedOut(m[h], now) :: m[h]
  }

  function AfterCommand(s: HostState, c: HostCommand): HostState {
    match c
    case Start(hostname, timeout, at, query) =>
      HostState(s.resolvers[Lower(hostname) := if timeout.Some? then Some(at + timeout.value) else None],
                s.queries + [ReRun(query, ResolveHostname(hostname, 1, None))])
    case Stop(hostname) => HostState(s.resolvers - {Lower(hostname)}, s.queries)
  }

  function AfterCommands(s: HostState, cs: seq<HostCommand>): HostState {
    if cs == [] then s else AfterCommand(AfterCommands(s, cs[..|cs| - 1]), cs[|cs| - 1])
  }

  /** The next query, if there is one. */
  function Again(resolvers: map<bytes, Option<nat>>, command: Command, heard: Heard): seq<ReRun> {
    match command
    case ResolveHostname(hostname, delay, _) =>
      var next := heard.at + delay * 1000;
      if heard.listening && QueriesHostAgain(resolvers, hostname, next) then
        [ReRun(next, ResolveHostname(hostname, NextDelay(delay), None))]
      else []
    case _ => []
  }

  function AllAgain(resolvers: map<bytes, Option<nat>>, due: seq<ReRun>, heard: seq<Heard>): seq<ReRun>
    requires |due| == |heard|
  {
    if due == [] then []
    else
      var n := |due| - 1;
      AllAgain(resolvers, due[..n], heard[..n]) + Again(resolvers, due[n].command, heard[n])
  }

  /** Behind the commands of the turn, in front of its reruns. */
  function Before(s: HostState, t: Turn): HostState {
    AfterCommands(HostState(Remaining(s.resolvers, t.now), s.queries), t.commands)
  }

  function Due(s: HostState, t: Turn): seq<ReRun> {
    Filter(Before(s, t).queries, IsDue(t.now))
  }

  /** Nothing is executed before the pop, and the first query of a resolver waits for at least 10 ms. */
  predicate Fits(s: HostState, t: Turn) {
    && |t.heard| == |Due(s, t)| && (forall x <- t.heard :: x.at >= t.now)
    && forall c <- t.commands :: CommandFits(c, t.now)
  }

  predicate CommandFits(c: HostCommand, now: nat) {
    c.Start? ==> c.at >= now && c.query >= now + 10
  }

  function AfterTurn(s: HostState, t: Turn): HostState
    requires Fits(s, t)
  {
    var b := Before(s, t);
    HostState(b.resolvers, Filter(b.queries, NotDue(t.now)) + AllAgain(b.resolvers, Due(s, t), t.heard))
  }

  // ----- The queries among the retransmissions -----

  /** Taking out what is no query for a host does not touch the queries. */
  lemma {:induction false} HostsStay(rs: seq<ReRun>, keep: ReRun -> bool)
    requires forall r <- rs :: r.command.ResolveHostname? ==> keep(r)
    ensures HostsOf(Filter(rs, keep)) == HostsOf(rs)
  {
    FiltersCommute(rs, keep, IsHostQuery());
    FilterAll(HostsOf(rs), keep);
  }

  lemma HostsMore(rs: seq<ReRun>, r: ReRun)
    ensures HostsOf(rs + [r]) == if r.command.ResolveHostname? then HostsOf(rs) + [r] else HostsOf(rs)
  {
    FilterConcat(rs, [r], IsHostQuery());
    FilterOne(r, IsHostQuery());
  }

  // ----- Runs -----

  predicate Possible(s: HostState, turns: seq<Turn>)
    decreases |turns|
  {
    turns != [] ==> Fits(s, turns[0]) && Possible(AfterTurn(s, turns[0]), turns[1..])
  }

  function RunTurns(s: HostState, turns: seq<Turn>): HostState
    requires Possible(s, turns)
    decreases |turns|
  {
    if turns == [] then s else RunTurns(AfterTurn(s, turns[0]), turns[1..])
  }

  /** A query for `h` waits. */
  ghost predicate Asked(s: HostState, h: bytes) {
    exists r <- s.queries :: Asks(r, h)
  }

  /** The listener lives whenever a query for `h` is sent. */
  ghost predicate Listens(s: HostState, t: Turn, h: bytes)
    requires Fits(s, t)
  {
    forall i: nat :: i < |t.heard| && Asks(Due(s, t)[i], h) ==> t.heard[i].listening
  }

  ghost predicate Listening(s: HostState, turns: seq<Turn>, h: bytes)
    requires Possible(s, turns)
    decreases |turns|
  {
    turns != [] ==> Listens(s, turns[0], h) && Listening(AfterTurn(s, turns[0]), turns[1..], h)
  }

  // ----- What a turn does to the queries for one name -----

  lemma {:induction false} AgainIn(resolvers: map<bytes, Option<nat>>, due: seq<ReRun>, heard: seq<Heard>, i: nat)
    requires |due| == |heard| && i < |due|
    ensures forall r <- Again(resolvers, due[i].command, heard[i]) :: r in AllAgain(resolvers, due, heard)
  {
    var n := |due| - 1;
    if i < n {
      AgainIn(resolvers, due[..n], heard[..n], i);
    }
  }

  lemma {:induction false} AgainFrom(resolvers: map<bytes, Option<nat>>, due: seq<ReRun>, heard: seq<Heard>, r: ReRun)
    returns (i: nat)
    requires |due| == |heard| && r in AllAgain(resolvers, due, heard)
    ensures i < |due| && r in Again(resolvers, due[i].command, heard[i])
  {
    var n := |due| - 1;
    if r in Again(resolvers, due[n].command, heard[n]) {
      i := n;
    } else {
      i := AgainFrom(resolvers, due[..n], heard[..n], r);
    }
  }

  /** A query that waits in front of the reruns is asked again, unless the listener or the resolver says no. */
  lemma KeepsAsking(s: HostState, t: Turn, h: bytes, r: ReRun) returns (r': ReRun)
    requires Fits(s, t) && Listens(s, t, h) && r in Before(s, t).queries && Asks(r, h)
    requires t.now < r.nextTime || forall next: nat :: QueriesHostAgain(Before(s, t).resolvers, h, next)
    ensures r' in AfterTurn(s, t).queries && Asks(r', h) && (r' == r || t.now >= r.nextTime)
  {
    hide Before, AllAgain, Filter;
    var b := Before(s, t);
    if t.now < r.nextTime {
      r' := r;
      assert NotDue(t.now)(r);
    } else {
      assert IsDue(t.now)(r);
      var i: nat :| i < |Due(s, t)| && Due(s, t)[i] == r;
      AgainIn(b.resolvers, Due(s, t), t.heard, i);
      var next := t.heard[i].at + r.command.delay * 1000;
      assert QueriesHostAgain(b.resolvers, h, next);
      r' := ReRun(next, ResolveHostname(h, NextDelay(r.command.delay), None));
      assert r' in Again(b.resolvers, r.command, t.heard[i]);
    }
  }

  // ----- Queries without end -----

  /** No timeout will reach the query `r` for `h`: there is none on file that `r` does not outlast. */
  predicate Outlasts(resolvers: map<bytes, Option<nat>>, h: bytes, r: ReRun) {
    h in resolvers && resolvers[h].Some? ==> resolvers[h].value <= r.nextTime
  }

  ghost predicate Endless(s: HostState, h: bytes) {
    exists r <- s.queries :: Asks(r, h) && Outlasts(s.resolvers, h, r)
  }

  /** The command files a new timeout under `h`. */
  predicate Renews(c: HostCommand, h: bytes) {
    c.Start? && Lower(c.hostname) == h && c.timeout.Some?
  }

  ghost predicate NoneRenews(turns: seq<Turn>, h: bytes) {
    forall t <- turns, c <- t.commands :: !Renews(c, h)
  }

  lemma {:induction false} CommandsLeaveEndless(s: HostState, cs: seq<HostCommand>, h: bytes, r: ReRun)
    requires r in s.queries && Asks(r, h) && Outlasts(s.resolvers, h, r)
    requires forall c <- cs :: !Renews(c, h)
    ensures var b := AfterCommands(s, cs);
            r in b.queries && Outlasts(b.resolvers, h, r)
    decreases |cs|
  {
    hide Lower;
    if cs != [] {
      var n := |cs| - 1;
      CommandsLeaveEndless(s, cs[..n], h, r);
      assert !Renews(cs[n], h);
    }
  }

  lemma TurnLeavesEndless(s: HostState, t: Turn, h: bytes)
    requires Fits(s, t) && Listens(s, t, h) && Endless(s, h) && forall c <- t.commands :: !Renews(c, h)
    ensures Endless(AfterTurn(s, t), h)
  {
    var r :| r in s.queries && Asks(r, h) && Outlasts(s.resolvers, h, r);
    var s1 := HostState(Remaining(s.resolvers, t.now), s.queries);
    CommandsLeaveEndless(s1, t.commands, h, r);
    hide AfterCommands, Filter;
    if t.now >= r.nextTime {
      CommandsLeaveNone(s1, t.commands, h);
    }
    var r' := KeepsAsking(s, t, h, r);
  }

  /** Without a timeout under `h`, none comes from commands that renew none. */
  lemma {:induction false} CommandsLeaveNone(s: HostState, cs: seq<HostCommand>, h: bytes)
    requires h in s.resolvers ==> s.resolvers[h].None?
    requires forall c <- cs :: !Renews(c, h)
    ensures var b := AfterCommands(s, cs);
            h in b.resolvers ==> b.resolvers[h].None?
    decreases |cs|
  {
    hide Lower;
    if cs != [] {
      var n := |cs| - 1;
      CommandsLeaveNone(s, cs[..n], h);
      assert !Renews(cs[n], h);
    }
  }

  /**
   * A query that outlasts the timeout on file is followed by others for as long as the listener lives, whatever
   * is started or stopped meanwhile, unless a new timeout is filed for that name.
   */
  lemma {:induction false} EndlessForever(s: HostState, turns: seq<Turn>, h: bytes)
    requires Possible(s, turns) && Listening(s, turns, h) && Endless(s, h) && NoneRenews(turns, h)
    ensures Asked(RunTurns(s, turns), h)
    decreases |turns|
  {
    hide AfterTurn, Fits, Listens;
    if turns != [] {
      TurnLeavesEndless(s, turns[0], h);
      EndlessForever(AfterTurn(s, turns[0]), turns[1..], h);
    }
  }

  // ----- Three ways to queries without end -----

  /** What the command at `k` leaves is endless behind its turn, if its query outlasts what is on file. */
  lemma StartedEndless(s: HostState, t: Turn, k: nat, h: bytes)
    requires Fits(s, t) && Listens(s, t, h) && k < |t.commands| && t.commands[k].Start? && t.commands[k].hostname == h
    requires var b := AfterCommands(HostState(Remaining(s.resolvers, t.now), s.queries), t.commands[..k + 1]);
             h in b.resolvers && b.resolvers[h].Some? ==> b.resolvers[h].value <= t.commands[k].query
    requires forall c <- t.commands[k + 1..] :: !Renews(c, h)
    ensures Endless(AfterTurn(s, t), h)
  {
    var c, s1 := t.commands[k], HostState(Remaining(s.resolvers, t.now), s.queries);
    var r := ReRun(c.query, ResolveHostname(h, 1, None));
    var first := AfterCommands(s1, t.commands[..k + 1]);
    assert t.commands[..k + 1][..k] == t.commands[..k];
    assert r in first.queries;
    CommandsConcat(s1, t.commands[..k + 1], t.commands[k + 1..]);
    assert t.commands[..k + 1] + t.commands[k + 1..] == t.commands;
    CommandsLeaveEndless(first, t.commands[k + 1..], h, r);
    hide AfterCommands, Filter;
    assert CommandFits(c, t.now);
    var r' := KeepsAsking(s, t, h, r);
  }

  lemma {:induction false} CommandsConcat(s: HostState, a: seq<HostCommand>, b: seq<HostCommand>)
    ensures AfterCommands(s, a + b) == AfterCommands(AfterCommands(s, a), b)
    decreases |b|
  {
    hide AfterCommand;
    if b == [] {
      assert a + b == a;
    } else {
      var n := |b| - 1;
      CommandsConcat(s, a, b[..n]);
      assert (a + b)[..|a + b| - 1] == a + b[..n];
    }
  }

  predicate LowerKeys(s: HostState) {
    forall h <- s.resolvers :: Lower(h) == h
  }

  lemma {:induction false} CommandsKeepLower(s: HostState, cs: seq<HostCommand>)
    requires LowerKeys(s)
    ensures LowerKeys(AfterCommands(s, cs))
    decreases |cs|
  {
    if cs != [] {
      var n := |cs| - 1;
      CommandsKeepLower(s, cs[..n]);
      assert Lower(Lower(cs[n].hostname)) == Lower(cs[n].hostname);
    }
  }

  /** Resolvers are filed in lower case throughout. */
  lemma {:induction false} RunKeepsLower(s: HostState, turns: seq<Turn>)
    requires LowerKeys(s) && Possible(s, turns)
    ensures LowerKeys(RunTurns(s, turns))
    decreases |turns|
  {
    if turns != [] {
      CommandsKeepLower(HostState(Remaining(s.resolvers, turns[0].now), s.queries), turns[0].commands);
      hide Lower, Fits, Filter, AfterCommands, AllAgain;
      RunKeepsLower(AfterTurn(s, turns[0]), turns[1..]);
    }
  }

  /**
   * A resolver is looked up by the name as it was given, but filed in lower case: no timeout, and no stop, ends
   * the queries for a name with capitals.
   */
  lemma CapitalsNeverEnd(s: HostState, t: Turn, k: nat, h: bytes, turns: seq<Turn>)
    requires LowerKeys(s) && Fits(s, t) && k < |t.commands| && t.commands[k].Start? && t.commands[k].hostname == h
    requires Possible(AfterTurn(s, t), turns) && Listens(s, t, h) && Listening(AfterTurn(s, t), turns, h)
    requires Lower(h) != h
    ensures Asked(RunTurns(AfterTurn(s, t), turns), h)
  {
    CommandsKeepLower(HostState(Remaining(s.resolvers, t.now), s.queries), t.commands[..k + 1]);
    forall c: HostCommand
      ensures !Renews(c, h)
    {
      assert Lower(Lower(c.hostname)) == Lower(c.hostname);
    }
    hide Lower, AfterTurn, Fits, AfterCommands, Renews;
    StartedEndless(s, t, k, h);
    EndlessForever(AfterTurn(s, t), turns, h);
  }

  /**
   * The first query is due 10 to 49 ms after the start. If the timeout is up by then, the query outlives
   * its resolver, and nothing ends the queries.
   */
  lemma ShortTimeoutNeverEnds(s: HostState, t: Turn, k: nat, h: bytes, turns: seq<Turn>)
    requires Fits(s, t) && k < |t.commands| && t.commands[k].Start? && t.commands[k].hostname == h
    requires Possible(AfterTurn(s, t), turns) && Listens(s, t, h) && Listening(AfterTurn(s, t), turns, h)
    requires var c := t.commands[k]; Lower(h) == h && c.timeout.Some? && c.at + c.timeout.value <= c.query
    requires NoneRenews(turns, h) && forall c <- t.commands[k + 1..] :: !Renews(c, h)
    ensures Asked(RunTurns(AfterTurn(s, t), turns), h)
  {
    assert t.commands[..k + 1][..k] == t.commands[..k];
    StartedEndless(s, t, k, h);
    hide Lower, AfterTurn, Fits, AfterCommands, Renews;
    EndlessForever(AfterTurn(s, t), turns, h);
  }

  function FirstTurn(h: bytes, timeout: nat, now: nat): Turn {
    Turn(now, [Start(h, Some(timeout), now, now + 10)], [])
  }

  lemma FirstTurnFits(h: bytes, timeout: nat, now: nat)
    ensures Fits(HostState(map[], []), FirstTurn(h, timeout, now))
  {
    hide Lower;
    var s, t := HostState(map[], []), FirstTurn(h, timeout, now);
    var s1, q := HostState(Remaining(s.resolvers, now), []), ReRun(now + 10, ResolveHostname(h, 1, None));
    assert t.commands[..|t.commands| - 1] == [];
    assert AfterCommands(s1, []) == s1;
    assert AfterCommands(s1, t.commands) == AfterCommand(s1, t.commands[0]);
    assert s1.queries + [q] == [q];
    FilterOne(q, IsDue(now));
  }

  /** Both in a daemon that has just begun: the very first resolver, with capitals or a timeout of at most 10 ms. */
  lemma FirstResolverNeverEnds(h: bytes, timeout: nat, now: nat, turns: seq<Turn>)
    requires Lower(h) != h || timeout <= 10
    ensures var s, t := HostState(map[], []), FirstTurn(h, timeout, now);
            && Fits(s, t)
            && (Possible(AfterTurn(s, t), turns) && Listening(AfterTurn(s, t), turns, h) && NoneRenews(turns, h) ==>
                  Asked(RunTurns(AfterTurn(s, t), turns), h))
  {
    var s, t := HostState(map[], []), FirstTurn(h, timeout, now);
    FirstTurnFits(h, timeout, now);
    hide Lower, Fits, AfterTurn, AfterCommands, Filter, Listening, Possible, Asked;
    if Possible(AfterTurn(s, t), turns) && Listening(AfterTurn(s, t), turns, h) && NoneRenews(turns, h) {
      assert Listens(s, t, h);
      if Lower(h) != h {
        CapitalsNeverEnd(s, t, 0, h, turns);
      } else {
        assert t.commands[1..] == [];
        ShortTimeoutNeverEnds(s, t, 0, h, turns);
      }
    }
  }

  /** To stop a resolver does not end its queries: they go on without a deadline. */
  lemma StopNeverEnds(s: HostState, hostname: bytes, turns: seq<Turn>)
    requires var h, s' := Lower(hostname), AfterCommand(s, Stop(hostname));
             && Asked(s, h) && Possible(s', turns) && Listening(s', turns, h) && NoneRenews(turns, h)
    ensures Asked(RunTurns(AfterCommand(s, Stop(hostname)), turns), Lower(hostname))
  {
    hide Lower;
    EndlessForever(AfterCommand(s, Stop(hostname)), turns, Lower(hostname));
  }

  // ----- When a timeout ends the queries -----

  /** No command is for this name. */
  ghost predicate Quiet(turns: seq<Turn>, h: bytes) {
    forall t <- turns, c <- t.commands :: Lower(c.hostname) != h
  }

  lemma {:induction false} QuietCommands(s: HostState, cs: seq<HostCommand>, h: bytes)
    requires Lower(h) == h && forall c <- cs :: Lower(c.hostname) != h
    ensures var b := AfterCommands(s, cs);
            && (h in b.resolvers <==> h in s.resolvers) && (h in s.resolvers ==> b.resolvers[h] == s.resolvers[h])
            && forall r: ReRun :: Asks(r, h) ==> (r in b.queries <==> r in s.queries)
    decreases |cs|
  {
    hide Lower;
    if cs != [] {
      var n := |cs| - 1;
      QuietCommands(s, cs[..n], h);
      assert Lower(cs[n].hostname) != h;
    }
  }

  lemma NoneAskedTurn(s: HostState, t: Turn, h: bytes)
    requires Fits(s, t) && Lower(h) == h && !Asked(s, h) && forall c <- t.commands :: Lower(c.hostname) != h
    ensures !Asked(AfterTurn(s, t), h)
  {
    QuietCommands(HostState(Remaining(s.resolvers, t.now), s.queries), t.commands, h);
    hide Lower, AfterCommands, Filter, AllAgain;
    var b := Before(s, t);
    forall r <- AfterTurn(s, t).queries
      ensures !Asks(r, h)
    {
      if r !in Filter(b.queries, NotDue(t.now)) {
        var i := AgainFrom(b.resolvers, Due(s, t), t.heard, r);
        assert Due(s, t)[i] in b.queries;
      }
    }
  }

  lemma {:induction false} NoneAskedRun(s: HostState, turns: seq<Turn>, h: bytes)
    requires Possible(s, turns) && Lower(h) == h && !Asked(s, h) && Quiet(turns, h)
    ensures !Asked(RunTurns(s, turns), h)
    decreases |turns|
  {
    hide Lower, AfterTurn, Fits, Asked;
    if turns != [] {
      NoneAskedTurn(s, turns[0], h);
      NoneAskedRun(AfterTurn(s, turns[0]), turns[1..], h);
    }
  }

  ghost predicate Popped(turns: seq<Turn>, r: ReRun) {
    exists t <- turns :: t.now >= r.nextTime
  }

  /** Whatever query for `h` waits at any moment of the run, a later pop of the run executes it. */
  ghost predicate EachExecuted(s: HostState, turns: seq<Turn>, h: bytes)
    requires Possible(s, turns)
    decreases |turns|
  {
    && (forall r <- s.queries :: Asks(r, h) ==> Popped(turns, r))
    && (turns != [] ==> EachExecuted(AfterTurn(s, turns[0]), turns[1..], h))
  }

  lemma {:induction false} CommandsKeepQueries(s: HostState, cs: seq<HostCommand>, r: ReRun)
    requires r in s.queries
    ensures r in AfterCommands(s, cs).queries
    decreases |cs|
  {
    if cs != [] {
      CommandsKeepQueries(s, cs[..|cs| - 1], r);
    }
  }

  lemma {:induction false} UnpoppedStays(s: HostState, turns: seq<Turn>, r: ReRun)
    requires Possible(s, turns) && r in s.queries && !Popped(turns, r)
    ensures r in RunTurns(s, turns).queries
    decreases |turns|
  {
    if turns != [] {
      var t := turns[0];
      CommandsKeepQueries(HostState(Remaining(s.resolvers, t.now), s.queries), t.commands, r);
      assert NotDue(t.now)(r) by { assert t in turns; }
      hide AfterCommands, Filter, AllAgain;
      assert r in AfterTurn(s, t).queries;
      UnpoppedStays(AfterTurn(s, t), turns[1..], r);
    }
  }

  /** No query is left over exactly if each has been executed. */
  lemma {:induction false} NoneLeftIff(s: HostState, turns: seq<Turn>, h: bytes)
    requires Possible(s, turns)
    ensures !Asked(RunTurns(s, turns), h) <==> EachExecuted(s, turns, h)
    decreases |turns|
  {
    hide AfterTurn, Fits;
    forall r <- s.queries | Asks(r, h) && !Popped(turns, r)
      ensures Asked(RunTurns(s, turns), h)
    {
      UnpoppedStays(s, turns, r);
    }
    if turns != [] {
      NoneLeftIff(AfterTurn(s, turns[0]), turns[1..], h);
    }
  }

  lemma {:induction false} OnFile(s: HostState, turns: seq<Turn>, h: bytes, deadline: nat)
    requires Possible(s, turns) && Lower(h) == h && Quiet(turns, h)
    requires h in s.resolvers && s.resolvers[h] == Some(deadline) && forall t <- turns :: t.now < deadline
    ensures var e := RunTurns(s, turns); h in e.resolvers && e.resolvers[h] == Some(deadline)
    decreases |turns|
  {
    if turns != [] {
      var t := turns[0];
      QuietCommands(HostState(Remaining(s.resolvers, t.now), s.queries), t.commands, h);
      hide Lower, AfterCommands, Filter, AllAgain;
      OnFile(AfterTurn(s, t), turns[1..], h, deadline);
    }
  }

  /** A query left when the resolver times out is followed by queries without end. */
  lemma LeftAtTimeout(s: HostState, t: Turn, h: bytes)
    requires Fits(s, t) && Lower(h) == h && Listens(s, t, h) && forall c <- t.commands :: Lower(c.hostname) != h
    requires h in s.resolvers && TimedOut(s.resolvers[h], t.now) && Asked(s, h)
    ensures Endless(AfterTurn(s, t), h)
  {
    var r :| r in s.queries && Asks(r, h);
    QuietCommands(HostState(Remaining(s.resolvers, t.now), s.queries), t.commands, h);
    hide Lower, AfterCommands, Filter;
    var r' := KeepsAsking(s, t, h, r);
  }

  /**
   * A timeout ends the queries for a name in lower case exactly if each of them, the first one included, is
   * executed at a pop before the deadline. The listener lives throughout, and no command is for this name.
   */
  lemma TimeoutEndsQueriesIff(s: HostState, before: seq<Turn>, after: seq<Turn>, h: bytes, deadline: nat)
    requires Possible(s, before) && Possible(RunTurns(s, before), after) && Lower(h) == h
    requires h in s.resolvers && s.resolvers[h] == Some(deadline)
    requires after != [] && (forall t <- before :: t.now < deadline) && forall t <- after :: t.now >= deadline
    requires Quiet(before, h) && Quiet(after, h) && Listening(RunTurns(s, before), after, h)
    ensures !Asked(RunTurns(RunTurns(s, before), after), h) <==> EachExecuted(s, before, h)
  {
    var m := RunTurns(s, before);
    OnFile(s, before, h, deadline);
    NoneLeftIff(s, before, h);
    assert after[0] in after;
    hide Lower, EachExecuted, Fits, AfterTurn;
    if Asked(m, h) {
      LeftAtTimeout(m, after[0], h);
      EndlessForever(AfterTurn(m, after[0]), after[1..], h);
    } else {
      NoneAskedRun(m, after, h);
    }
  }

  // ----- The same, by the times alone -----

  /**
   * A query due at `next` and its followers come to an end before the deadline: at each pop, with its time and that
   * at which the query is executed, one that is due is followed by another, unless that would reach the deadline.
   */
  predicate InTime(next: nat, delay: nat, pops: seq<(nat, nat)>, deadline: nat)
    decreases |pops|
  {
    pops != [] &&
    if pops[0].0 < next then InTime(next, delay, pops[1..], deadline)
    else
      var again := pops[0].1 + delay * 1000;
      again >= deadline || InTime(again, NextDelay(delay), pops[1..], deadline)
  }

  /** The times of the pops, and those at which queries for `h` are executed. */
  ghost predicate TimesAre(s: HostState, turns: seq<Turn>, h: bytes, pops: seq<(nat, nat)>)
    requires Possible(s, turns)
    decreases |turns|
  {
    && |pops| == |turns|
    && (turns != [] ==>
          && pops[0].0 == turns[0].now
          && (forall i: nat :: i < |turns[0].heard| && Asks(Due(s, turns[0])[i], h) ==>
                turns[0].heard[i].at == pops[0].1)
          && TimesAre(AfterTurn(s, turns[0]), turns[1..], h, pops[1..]))
  }

  function AsksOf(h: bytes): ReRun -> bool {
    (r: ReRun) => Asks(r, h)
  }

  lemma {:induction false} QuietQueries(s: HostState, cs: seq<HostCommand>, h: bytes)
    requires Lower(h) == h && forall c <- cs :: Lower(c.hostname) != h
    ensures Filter(AfterCommands(s, cs).queries, AsksOf(h)) == Filter(s.queries, AsksOf(h))
    decreases |cs|
  {
    hide Lower, Filter;
    if cs != [] {
      var n := |cs| - 1;
      QuietQueries(s, cs[..n], h);
      assert Lower(cs[n].hostname) != h;
      var before := AfterCommands(s, cs[..n]);
      match cs[n]
      case Start(hostname, _, _, query) =>
        var r := ReRun(query, ResolveHostname(hostname, 1, None));
        FilterConcat(before.queries, [r], AsksOf(h));
        FilterOne(r, AsksOf(h));
      case Stop(_) =>
    }
  }

  /** What follows the queries for `h` among those that are due, if there is one at most. */
  lemma {:induction false} OneAgain(
    resolvers: map<bytes, Option<nat>>, due: seq<ReRun>, heard: seq<Heard>, h: bytes, at: nat)
    requires |due| == |heard| && |Filter(due, AsksOf(h))| <= 1
    requires forall i: nat :: i < |due| && Asks(due[i], h) ==> heard[i] == Heard(true, at)
    ensures Filter(AllAgain(resolvers, due, heard), AsksOf(h))
         == if Filter(due, AsksOf(h)) == [] then []
            else Again(resolvers, Filter(due, AsksOf(h))[0].command, Heard(true, at))
    decreases |due|
  {
    hide Filter;
    if due == [] {
      NoneFiltered(AsksOf(h));
    } else {
      var n := |due| - 1;
      assert due[..n + 1] == due;
      FilterStep(due, n, AsksOf(h));
      OneAgain(resolvers, due[..n], heard[..n], h, at);
      var more := Again(resolvers, due[n].command, heard[n]);
      FilterConcat(AllAgain(resolvers, due[..n], heard[..n]), more, AsksOf(h));
      AgainForSame(resolvers, due[n], heard[n], h);
    }
  }

  lemma NoneFiltered(p: ReRun -> bool)
    ensures Filter([], p) == []
  {
  }

  lemma AgainForSame(resolvers: map<bytes, Option<nat>>, r: ReRun, heard: Heard, h: bytes)
    ensures var more := Again(resolvers, r.command, heard);
            Filter(more, AsksOf(h)) == if Asks(r, h) then more else []
  {
    hide Filter;
    var more := Again(resolvers, r.command, heard);
    if more == [] {
      NoneFiltered(AsksOf(h));
    } else {
      FilterOne(more[0], AsksOf(h));
    }
  }

  /** One turn in front of the deadline, by the times. */
  lemma TurnByTimes(s: HostState, t: Turn, h: bytes, deadline: nat, r: ReRun, at: nat)
    requires Fits(s, t) && Listens(s, t, h) && Lower(h) == h && forall c <- t.commands :: Lower(c.hostname) != h
    requires h in s.resolvers && s.resolvers[h] == Some(deadline) && t.now < deadline
    requires Filter(s.queries, AsksOf(h)) == [r] && Asks(r, h)
    requires forall i: nat :: i < |t.heard| && Asks(Due(s, t)[i], h) ==> t.heard[i].at == at
    ensures var e, again := AfterTurn(s, t), at + r.command.delay * 1000;
            && h in e.resolvers && e.resolvers[h] == Some(deadline)
            && Filter(e.queries, AsksOf(h))
               == if t.now < r.nextTime then [r]
                  else if again < deadline then [ReRun(again, ResolveHostname(h, NextDelay(r.command.delay), None))]
                  else []
  {
    hide Lower, AfterCommands, Filter, AllAgain;
    var s1 := HostState(Remaining(s.resolvers, t.now), s.queries);
    QuietCommands(s1, t.commands, h);
    QuietQueries(s1, t.commands, h);
    var b := Before(s, t);
    FiltersCommute(b.queries, NotDue(t.now), AsksOf(h));
    FiltersCommute(b.queries, IsDue(t.now), AsksOf(h));
    FilterOne(r, NotDue(t.now));
    FilterOne(r, IsDue(t.now));
    FilterConcat(Filter(b.queries, NotDue(t.now)), AllAgain(b.resolvers, Due(s, t), t.heard), AsksOf(h));
    OneAgain(b.resolvers, Due(s, t), t.heard, h, at);
  }

  lemma AskedIffFiltered(s: HostState, h: bytes)
    ensures Asked(s, h) <==> Filter(s.queries, AsksOf(h)) != []
  {
    hide Filter;
    if Filter(s.queries, AsksOf(h)) != [] {
      assert Filter(s.queries, AsksOf(h))[0] in Filter(s.queries, AsksOf(h));
    }
    if r :| r in s.queries && Asks(r, h) {
      assert r in Filter(s.queries, AsksOf(h));
    }
  }

  /** One query, in front of its deadline: it and its followers have ended exactly if they do by the times. */
  lemma {:induction false} EndedIffInTime(
    s: HostState, turns: seq<Turn>, h: bytes, deadline: nat, r: ReRun, pops: seq<(nat, nat)>)
    requires Possible(s, turns) && Listening(s, turns, h) && Lower(h) == h && Quiet(turns, h)
    requires h in s.resolvers && s.resolvers[h] == Some(deadline) && forall t <- turns :: t.now < deadline
    requires Filter(s.queries, AsksOf(h)) == [r] && TimesAre(s, turns, h, pops) && Asks(r, h)
    ensures !Asked(RunTurns(s, turns), h) <==> InTime(r.nextTime, r.command.delay, pops, deadline)
    decreases |turns|
  {
    hide Lower, AfterTurn, Fits, Filter, Listens, Asked, Due;
    if turns == [] {
      AskedIffFiltered(s, h);
    } else {
      var t := turns[0];
      TurnByTimes(s, t, h, deadline, r, pops[0].1);
      var e, again := AfterTurn(s, t), pops[0].1 + r.command.delay * 1000;
      if t.now < r.nextTime {
        EndedIffInTime(e, turns[1..], h, deadline, r, pops[1..]);
      } else if again < deadline {
        var next := ReRun(again, ResolveHostname(h, NextDelay(r.command.delay), None));
        EndedIffInTime(e, turns[1..], h, deadline, next, pops[1..]);
      } else {
        AskedIffFiltered(e, h);
        NoneAskedRun(e, turns[1..], h);
      }
    }
  }

  /**
   * With one query waiting, as after the start of a resolver, the timeout ends the queries exactly if they are in
   * time: a condition on the times of the pops and of the executions alone.
   */
  lemma TimeoutEndsInTimeIff(
    s: HostState, before: seq<Turn>, after: seq<Turn>, h: bytes, deadline: nat, r: ReRun, pops: seq<(nat, nat)>)
    requires Possible(s, before) && Possible(RunTurns(s, before), after) && Lower(h) == h
    requires h in s.resolvers && s.resolvers[h] == Some(deadline) && Filter(s.queries, AsksOf(h)) == [r] && Asks(r, h)
    requires after != [] && (forall t <- before :: t.now < deadline) && forall t <- after :: t.now >= deadline
    requires Quiet(before, h) && Quiet(after, h) && Listening(s, before, h)
    requires Listening(RunTurns(s, before), after, h) && TimesAre(s, before, h, pops)
    ensures !Asked(RunTurns(RunTurns(s, before), after), h) <==> InTime(r.nextTime, r.command.delay, pops, deadline)
  {
    hide Lower, AfterTurn, Fits, Filter, Asked, InTime;
    TimeoutEndsQueriesIff(s, before, after, h, deadline);
    NoneLeftIff(s, before, h);
    EndedIffInTime(s, before, h, deadline, r, pops);
  }
}
