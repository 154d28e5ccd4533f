// Whether the daemon wakes up for the next query of each probe.
module ProbeTimers {
  import opened Bytes
  import opened Probes
  import opened Tiebreak
  import opened RegistryState
  import opened RegistrySteps
  import opened RegistryRuns
  import opened DnsRegistry
  import opened RunLoop

  /** A registry, the timers of the daemon, those of new probes that it has not taken over yet, and the last pop. */
  datatype Clocked = Clocked(reg: Reg, heap: multiset<nat>, newTimers: seq<nat>, lastPop: nat)

  /** There is a timer for each next query that is not overdue, taken over or not. */
  ghost predicate Covered(c: Clocked) {
    forall n <- c.reg.probing :: Waiting(c.reg.probing[n].nextSend, c.heap + multiset(c.newTimers), c.lastPop)
  }

  /** ... and it is taken over, so that the daemon will wake up. */
  ghost predicate Awaited(c: Clocked) {
    forall n <- c.reg.probing :: Waiting(c.reg.probing[n].nextSend, c.heap, c.lastPop)
  }

  /** What an operation on the registry does to the timers as well. */
  ghost predicate ClockedStep(c: Clocked, op: Op, c': Clocked) {
    && Step(c.reg, op, c'.reg) && c'.lastPop == c.lastPop
    && match op
       case Ask(answer, _, _) =>
         && c'.heap == c.heap
         && c'.newTimers == c.newTimers + (if IsActive(c.reg, answer) then []
                                           else [c'.reg.probing[answer.GetName()].nextSend])
       case Conflict(_, _, _) =>
         c'.newTimers == c.newTimers && c.heap <= c'.heap
         && exists timers :: NewOnesTimed(c.reg.probing, c'.reg.probing, timers) && c'.heap == c.heap + multiset(timers)
       case Poll(now) =>
         && c'.newTimers == c.newTimers && c.heap <= c'.heap
         && forall n <- c.reg.probing :: SendsQuery(c.reg.probing[n], now) ==> now + PROBE_WAIT in c'.heap
       case Tie(_, _, _) => c'.heap == c.heap && c'.newTimers == c.newTimers
  }

  /** Timers up to `now` go. */
  function Popped(c: Clocked, heap: multiset<nat>, now: nat): Clocked {
    c.(heap := heap, lastPop := now)
  }

  /** The daemon takes over the timers of new probes. */
  function Drained(c: Clocked): Clocked {
    c.(heap := c.heap + multiset(c.newTimers), newTimers := [])
  }

  lemma PopKeeps(c: Clocked, heap: multiset<nat>, now: nat)
    requires c.lastPop <= now && forall t: nat :: t > now ==> heap[t] == c.heap[t]
    ensures Covered(c) ==> Covered(Popped(c, heap, now))
    ensures Awaited(c) ==> Awaited(Popped(c, heap, now))
  {
  }

  lemma DrainAwaits(c: Clocked)
    requires Covered(c)
    ensures Awaited(Drained(c))
  {
  }

  /** A lost tiebreak. */
  predicate LosesTie(reg: Reg, op: Op) {
    && op.Tie? && op.name in reg.probing && reg.probing[op.name].startTime < op.at
    && Yields(reg.probing[op.name].records, ForName(op.authorities, op.name, |op.authorities|))
  }

  /**
   * Each operation keeps a timer for every probe, but a lost tiebreak: that moves the next query by a second and
   * sets no timer, so that the probe is left without one exactly if there happens to be none for that time.
   */
  lemma StepKeepsCovered(c: Clocked, op: Op, c': Clocked)
    requires Covered(c) && ClockedStep(c, op, c')
    ensures Covered(c') <==>
            (LosesTie(c.reg, op) ==> Waiting(op.at + YIELD_WAIT, c.heap + multiset(c.newTimers), c.lastPop))
  {
    match op
    case Ask(answer, _, _) =>
      hide Inserted, Listed;
      assert multiset(c'.newTimers) >= multiset(c.newTimers);
    case Conflict(_, _, _) =>
      hide AllAnswered;
      assert c'.heap + multiset(c'.newTimers) >= c.heap + multiset(c.newTimers);
    case Poll(now) =>
      PollKeeps(c.reg, now, c'.reg, c.heap + multiset(c.newTimers), c'.heap + multiset(c'.newTimers), c.lastPop);
    case Tie(_, _, _) => TieMoves(c, op, c');
  }

  lemma PollKeeps(reg: Reg, now: nat, reg': Reg, timers: multiset<nat>, timers': multiset<nat>, lastPop: nat)
    requires reg' == Polled(reg, now) && timers <= timers'
    requires forall n <- reg.probing :: Waiting(reg.probing[n].nextSend, timers, lastPop)
    requires forall n <- reg.probing :: SendsQuery(reg.probing[n], now) ==> now + PROBE_WAIT in timers'
    ensures forall n <- reg'.probing :: Waiting(reg'.probing[n].nextSend, timers', lastPop)
  {
    hide ProbeState.Expired, Polled;
    forall n <- reg'.probing
      ensures Waiting(reg'.probing[n].nextSend, timers', lastPop)
    {
      PolledFrom(reg, now, n);
      PolledProbe(reg, now, n);
    }
  }

  /** Exactly the probe that loses moves. */
  lemma TieMoves(c: Clocked, op: Op, c': Clocked)
    requires op.Tie? && ClockedStep(c, op, c')
    ensures c'.reg.probing.Keys == c.reg.probing.Keys
    ensures forall n <- c.reg.probing ::
              c'.reg.probing[n].nextSend == if LosesTie(c.reg, op) && n == op.name then op.at + YIELD_WAIT
                                            else c.reg.probing[n].nextSend
  {
    hide Yields, ForName;
  }

  lemma PolledFrom(reg: Reg, now: nat, n: bytes)
    requires n in Polled(reg, now).probing
    ensures n in reg.probing
  {
  }

  /**
   * The same for the timers that the daemon has: a new probe is left without one if its timer is not taken
   * over, as after a failed announcement of a service whose probes have finished.
   */
  lemma StepKeepsAwaited(c: Clocked, op: Op, c': Clocked)
    requires Awaited(c) && ClockedStep(c, op, c')
    ensures Awaited(c') <==>
            && (LosesTie(c.reg, op) ==> Waiting(op.at + YIELD_WAIT, c.heap, c.lastPop))
            && (op.Ask? && !IsActive(c.reg, op.answer) && op.answer.GetName() !in c.reg.probing ==>
                  Waiting(op.startTime, c.heap, c.lastPop))
  {
    match op
    case Ask(answer, _, _) =>
      hide Inserted, Listed;
      if !IsActive(c.reg, answer) {
        assert answer.GetName() in c'.reg.probing;
      }
    case Conflict(_, _, _) => hide AllAnswered;
    case Poll(now) => PollKeeps(c.reg, now, c'.reg, c.heap, c'.heap, c.lastPop);
    case Tie(_, _, _) => TieMoves(c, op, c');
  }

  // ----- Whole runs -----

  datatype Move = Do(op: Op) | Pop(now: nat, heap: multiset<nat>) | Drain

  ghost predicate Moves(c: Clocked, m: Move, c': Clocked) {
    match m
    case Do(op) => ClockedStep(c, op, c')
    case Pop(now, heap) =>
      c.lastPop <= now && (forall t: nat :: t > now ==> heap[t] == c.heap[t]) && c' == Popped(c, heap, now)
    case Drain => c' == Drained(c)
  }

  /** A run of the daemon, from an empty registry and without timers. */
  ghost predicate ClockedRun(cs: seq<Clocked>, moves: seq<Move>) {
    && |cs| == |moves| + 1
    && cs[0] == Clocked(Reg(map[], map[], map[]), multiset{}, [], 0)
    && forall i :: 0 <= i < |moves| ==> Moves(cs[i], moves[i], cs[i + 1])
  }

  /** A tiebreak is lost, and there happens to be no timer for the new start. */
  ghost predicate LosesTimer(c: Clocked, m: Move, timers: multiset<nat>) {
    m.Do? && LosesTie(c.reg, m.op) && !Waiting(m.op.at + YIELD_WAIT, timers, c.lastPop)
  }

  /** A new probe has its timer among those that are not taken over yet. */
  predicate AsksAnew(c: Clocked, m: Move) {
    m.Do? && m.op.Ask? && !IsActive(c.reg, m.op.answer) && m.op.answer.GetName() !in c.reg.probing
  }

  lemma ShorterRun(cs: seq<Clocked>, moves: seq<Move>)
    requires ClockedRun(cs, moves) && moves != []
    ensures ClockedRun(cs[..|moves|], moves[..|moves| - 1])
    ensures Moves(cs[|moves| - 1], moves[|moves| - 1], cs[|moves|])
  {
    hide Moves;
    forall i | 0 <= i < |moves| - 1
      ensures Moves(cs[..|moves|][i], moves[..|moves| - 1][i], cs[..|moves|][i + 1])
    {
      assert Moves(cs[i], moves[i], cs[i + 1]);
    }
  }

  /** In every run in which no lost tiebreak moves a probe to where there is no timer, each probe has its timer. */
  lemma {:induction false} RunKeepsCovered(cs: seq<Clocked>, moves: seq<Move>)
    requires ClockedRun(cs, moves)
    requires forall i :: 0 <= i < |moves| ==> !LosesTimer(cs[i], moves[i], cs[i].heap + multiset(cs[i].newTimers))
    ensures Covered(cs[|moves|])
    decreases |moves|
  {
    hide ClockedStep, LosesTie, Covered, Waiting;
    if moves == [] {
      NothingToCover(cs[0]);
    } else {
      var n := |moves| - 1;
      var c, m, c' := cs[n], moves[n], cs[n + 1];
      ShorterRun(cs, moves);
      RunKeepsCovered(cs[..n + 1], moves[..n]);
      assert !LosesTimer(c, m, c.heap + multiset(c.newTimers));
      match m
      case Do(op) => StepKeepsCovered(c, op, c');
      case Pop(now, heap) => PopKeeps(c, heap, now);
      case Drain => DrainKeepsCovered(c);
    }
  }

  lemma NothingToCover(c: Clocked)
    requires c.reg.probing == map[]
    ensures Covered(c)
  {
  }

  lemma DrainKeepsCovered(c: Clocked)
    requires Covered(c)
    ensures Covered(Drained(c))
  {
    assert c.heap + multiset(c.newTimers) + multiset([]) == c.heap + multiset(c.newTimers);
  }

  /**
   * In such a run, after a drain and until the next new registration, the daemon has the timer of every
   * probe itself: it wakes up for the next query of each.
   */
  lemma {:induction false} AwaitedSinceDrain(cs: seq<Clocked>, moves: seq<Move>, j: nat)
    requires ClockedRun(cs, moves) && j < |moves| && moves[j].Drain?
    requires forall i :: 0 <= i < |moves| ==>
               !LosesTimer(cs[i], moves[i], if i < j then cs[i].heap + multiset(cs[i].newTimers) else cs[i].heap)
    requires forall i :: j < i < |moves| ==> !AsksAnew(cs[i], moves[i])
    ensures Awaited(cs[|moves|])
    decreases |moves|
  {
    hide ClockedStep, LosesTie, Covered, Awaited, Waiting, IsActive;
    var n := |moves| - 1;
    var c, m, c' := cs[n], moves[n], cs[n + 1];
    ShorterRun(cs, moves);
    if n == j {
      RunKeepsCovered(cs[..n + 1], moves[..n]);
      DrainAwaits(c);
    } else {
      AwaitedSinceDrain(cs[..n + 1], moves[..n], j);
      assert !LosesTimer(c, m, c.heap) && !AsksAnew(c, m);
      match m
      case Do(op) => StepKeepsAwaited(c, op, c');
      case Pop(now, heap) => PopKeeps(c, heap, now);
      case Drain => DrainKeepsAwaited(c);
    }
  }

  lemma DrainKeepsAwaited(c: Clocked)
    requires Awaited(c)
    ensures Awaited(Drained(c))
  {
  }
}
