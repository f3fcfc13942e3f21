/** Runs of the command queue in which a crash loses a command. */
module QueueLosses {
  import opened Wrappers
  import Ids = IdAllocation
  import opened CommandQueue
  import opened QueueRuns

  ghost predicate Reachable(s: State) {
    exists es :: Legal(Start(s.cfg), es) && Run(Start(s.cfg), es) == s
  }

  lemma {:induction false} RunOneMore(s: State, es: seq<Event>, e: Event)
    requires Legal(s, es) && Enabled(Run(s, es), e)
    ensures Legal(s, es + [e]) && Run(s, es + [e]) == Step(Run(s, es), e)
    decreases |es|
  {
    if es == [] {
      assert [e][1..] == [];
    } else {
      RunOneMore(Step(s, es[0]), es[1..], e);
      assert (es + [e])[1..] == es[1..] + [e];
    }
  }

  lemma Reach(s: State, e: Event) returns (t: State)
    requires Reachable(s) && Enabled(s, e)
    ensures t == Step(s, e) && Reachable(t)
  {
    var es :| Legal(Start(s.cfg), es) && Run(Start(s.cfg), es) == s;
    RunOneMore(Start(s.cfg), es, e);
    t := Step(s, e);
  }

  /** Two commands stored under the ids 0 and 1; the second is queued, and so is the first if asked for. */
  lemma TwoCommands(a: Command, b: Command, both: bool) returns (s: State)
    ensures Reachable(s) && s.cfg == Ids.DEFAULTS && s.ids == Ids.Ids(2, 100, false) && s.minimum == 0
    ensures s.store == Store(map[0 := a, 1 := b], None, None) && s.accepted == map[0 := a, 1 := b]
    ensures s.running == map[] && s.executed == {}
    ensures s.tasks == if both then [Task(0, a), Task(1, b)] else [Task(1, b)]
  {
    s := Start(Ids.DEFAULTS);
    assert Run(s, []) == s && Legal(s, []);
    s := Reach(s, Allocate(a));
    s := Reach(s, Stored(0));
    if both {
      s := Reach(s, Enqueue(0));
    }
    s := Reach(s, Allocate(b));
    s := Reach(s, Stored(1));
    s := Reach(s, Enqueue(1));
  }

  predicate Lost(s: State, t: Task) {
    && t.id in s.accepted && s.accepted[t.id] == t.command && t.id !in s.executed
    && s.store.maximum.Some? && t.id < s.store.maximum.value && t !in Replay(s.store)
  }

  /** A worker finishes command 1, and the queue is shut down. */
  lemma FinishSecond(s: State, a: Command, b: Command) returns (t: State)
    requires Reachable(s) && s.ids.maximum == 100 && s.minimum == 0
    requires s.store == Store(map[0 := a, 1 := b], None, None) && s.accepted == map[0 := a, 1 := b]
    requires 1 in s.running && s.running[1] == Running(b, Taken) && s.executed == {}
    ensures Reachable(t) && Lost(t, Task(0, a)) && t.running == s.running - {1}
  {
    t := Reach(s, Execute(1));
    t := Reach(t, Delete(1));
    t := Reach(t, Check(1));
    t := Reach(t, Write(1));
    assert t.minimum == 2 && t.running == s.running - {1} && t.executed == {1};
    t := ShutdownLosesFirst(t, a);
  }

  lemma ShutdownLosesFirst(s: State, a: Command) returns (t: State)
    requires Reachable(s) && s.ids.maximum == 100 && s.minimum == 2
    requires 0 in s.accepted && s.accepted[0] == a && 0 !in s.executed
    ensures Reachable(t) && Lost(t, Task(0, a)) && t.running == s.running
  {
    t := Reach(s, Shutdown);
    assert t.store.minimum == Some(2) && t.store.maximum == Some(100);
    ReplayExact(t.store, Task(0, a));
  }

  /** Two workers: the second command finishes first, the minimum passes the first, which
      a crash then loses although it is still stored. */
  lemma TwoWorkersLose(a: Command, b: Command) returns (s: State)
    ensures Reachable(s) && Lost(s, Task(0, a)) && 0 in s.running
  {
    s := TwoCommands(a, b, true);
    s := Reach(s, Take);
    s := Reach(s, Take);
    s := FinishSecond(s, a, b);
  }

  /** One worker, but a command that throws: the next one to finish moves the minimum past it. */
  lemma ThrowLoses(a: Command, b: Command) returns (s: State)
    ensures Reachable(s) && Lost(s, Task(0, a))
  {
    s := TwoCommands(a, b, true);
    s := Reach(s, Take);
    s := Reach(s, Throw(0));
    s := Reach(s, Take);
    s := FinishSecond(s, a, b);
  }

  /** One worker, but two clients: the later id is queued and finished before the earlier one is queued. */
  lemma OvertakingLoses(a: Command, b: Command) returns (s: State)
    ensures Reachable(s) && Lost(s, Task(0, a))
  {
    s := TwoCommands(a, b, false);
    s := Reach(s, Take);
    s := FinishSecond(s, a, b);
  }

  lemma RunBoth(s: State) returns (t: State)
    requires Reachable(s) && |s.tasks| == 2 && s.tasks[0].id == 0 && s.tasks[1].id == 1 && s.minimum == 0
    requires s.running == map[]
    ensures Reachable(t) && t.minimum == 0 && t.running.Keys == {0, 1} && t.tasks == [] && t.ids == s.ids
    ensures t.running[0].phase == Deleted && t.running[1].phase == Deleted
  {
    t := Reach(s, Take);
    t := Reach(t, Take);
    t := Reach(t, Execute(0));
    t := Reach(t, Delete(0));
    t := Reach(t, Execute(1));
    t := Reach(t, Delete(1));
  }

  /** Two workers that cross in finishCommand, which takes no lock: both commands are finished, and the
      minimum ends behind the second one. */
  lemma CrossingRewinds(a: Command, b: Command) returns (s: State)
    ensures Reachable(s) && s.running == map[] && s.tasks == [] && s.minimum == 1 < s.ids.nextId
  {
    s := TwoCommands(a, b, true);
    s := RunBoth(s);
    s := Reach(s, Check(0));
    s := Reach(s, Check(1));
    s := Reach(s, Write(1));
    s := Reach(s, Write(0));
  }

  // --- a shutdown between the halves of a fetch --------------------------------------------------

  /** An in-order run with the defaults, what it leads to, and what the id allocation sees of it. */
  datatype Course = Course(ts: seq<Turn>, s: State, d: Ids.Delayed)

  /** Every fetch completes before the next call, and none fails. */
  ghost predicate Timely(c: Course) {
    && InOrder(Start(Ids.DEFAULTS), c.ts) && c.s == RunTurns(Start(Ids.DEFAULTS), c.ts)
    && Ids.Legal(Ids.DEFAULTS, Ids.START, AllIdEvents(c.ts), 0)
    && c.d == Ids.Final(Ids.DEFAULTS, Ids.START, AllIdEvents(c.ts))
    && c.s.cfg == Ids.DEFAULTS && c.s.ids == c.d.ids
    && Single(BatchGiveUp) !in c.ts && Single(BatchThrow) !in c.ts
  }

  lemma {:induction false} TurnsAppend(s: State, ts: seq<Turn>, t: Turn)
    requires InOrder(s, ts) && TurnAllowed(RunTurns(s, ts), t)
    ensures InOrder(s, ts + [t]) && RunTurns(s, ts + [t]) == TurnStep(RunTurns(s, ts), t)
    ensures AllIdEvents(ts + [t]) == AllIdEvents(ts) + IdEvents(t)
    decreases |ts|
  {
    if ts == [] {
      assert [t][1..] == [] && [] + [t] == [t];
      assert AllIdEvents([t]) == IdEvents(t) + AllIdEvents([]);
    } else {
      TurnsAppend(TurnStep(s, ts[0]), ts[1..], t);
      assert (ts + [t])[1..] == ts[1..] + [t];
    }
  }

  lemma Turned(c: Course, t: Turn) returns (c': Course)
    requires Timely(c) && TurnAllowed(c.s, t) && t != Single(BatchGiveUp) && t != Single(BatchThrow)
    requires !t.Single? ==> !c.s.ids.gettingNextBatch
    requires t == Single(BatchCommit) ==> c.s.ids.gettingNextBatch
    ensures Timely(c') && c'.s == TurnStep(c.s, t)
  {
    TurnsAppend(Start(Ids.DEFAULTS), c.ts, t);
    var d := IdsOfTurn(AllIdEvents(c.ts), c.d, t);
    c' := Course(c.ts + [t], TurnStep(c.s, t), d);
    if !t.Single? {
      AddedFields(c.s, t);
    }
  }

  lemma IdsOfTurn(es: seq<Ids.Event>, d: Ids.Delayed, t: Turn) returns (d': Ids.Delayed)
    requires Ids.Legal(Ids.DEFAULTS, Ids.START, es, 0) && d == Ids.Final(Ids.DEFAULTS, Ids.START, es)
    requires IdEvents(t) != [] ==> Ids.Enabled(d, IdEvents(t)[0], 0)
    ensures Ids.Legal(Ids.DEFAULTS, Ids.START, es + IdEvents(t), 0)
    ensures d' == Ids.Final(Ids.DEFAULTS, Ids.START, es + IdEvents(t))
    ensures d' == if IdEvents(t) == [] then d else Ids.Step(Ids.DEFAULTS, d, IdEvents(t)[0])
  {
    if IdEvents(t) == [] {
      assert es + IdEvents(t) == es;
      d' := d;
    } else {
      assert IdEvents(t) == [IdEvents(t)[0]];
      Ids.OneMore(Ids.DEFAULTS, Ids.START, es, IdEvents(t)[0], 0);
      d' := Ids.Step(Ids.DEFAULTS, d, IdEvents(t)[0]);
    }
  }

  /** Nothing waits and nothing runs. */
  predicate Idle(s: State) {
    s.pending == map[] && s.ready == map[] && s.tasks == [] && s.running == map[] && s.batch == Quiet
  }

  /** Commands that are executed directly use up ids, and change nothing else that matters. */
  lemma {:induction false} SyncAdds(c: Course, command: Command, n: nat) returns (c': Course)
    requires Timely(c) && Idle(c.s) && !c.s.ids.gettingNextBatch
    requires c.s.ids.nextId + n <= c.s.ids.maximum - Ids.DEFAULTS.threshold
    ensures Timely(c') && Idle(c'.s) && c'.s.ids == c.s.ids.(nextId := c.s.ids.nextId + n)
    ensures c'.s.minimum == c.s.minimum && c'.s.store.maximum == c.s.store.maximum
    decreases n
  {
    if n == 0 {
      c' := c;
    } else {
      var t := AddStep(c.s, command, RunDirectly(c.s.ids.nextId));
      var next := Turned(c, AddSync(command, true));
      assert next.s == t;
      c' := SyncAdds(next, command, n - 1);
    }
  }

  /** 91 commands, then a fetch in whose middle a shutdown writes the old maximum back. */
  lemma FetchAroundShutdown(command: Command) returns (c: Course)
    ensures Timely(c) && Idle(c.s) && c.s.ids == Ids.Ids(91, 200, false) && c.s.store.maximum == Some(100)
  {
    var start := Start(Ids.DEFAULTS);
    c := Course([], start, Ids.START);
    c := SyncAdds(c, command, 90);
    var t := AddStep(c.s, command, RunDirectly(90));
    c := Turned(c, AddSync(command, true));
    assert c.s == t && c.s.batch == Asked;
    c := Turned(c, Single(BatchMaximum));
    assert c.s.store.maximum == Some(200);
    c := Turned(c, Single(Shutdown));
    c := Turned(c, Single(BatchMinimum));
    c := Turned(c, Single(BatchCommit));
  }

  /** One client, one worker, no failure, every fetch done before the next call: after such a shutdown the
      101st command is below the maximum in memory, and a crash loses it. */
  lemma ShutdownLoses(command: Command) returns (ts: seq<Turn>)
    ensures InOrder(Start(Ids.DEFAULTS), ts) && Ids.Legal(Ids.DEFAULTS, Ids.START, AllIdEvents(ts), 0)
    ensures Single(BatchGiveUp) !in ts && Single(BatchThrow) !in ts
    ensures var s := RunTurns(Start(Ids.DEFAULTS), ts);
            && IsUnfinished(s, Task(100, command)) && 100 < s.ids.maximum
            && s.store.maximum.Some? && Task(100, command) !in Replay(s.store)
  {
    var c := FetchAroundShutdown(command);
    c := SyncAdds(c, command, 9);
    var t := AddStep(c.s, command, Enqueue(100));
    c := Turned(c, AddAsync(command, true));
    assert c.s == t && t.tasks == [Task(100, command)];
    ts := c.ts;
    RecoveryExact(Ids.DEFAULTS, ts, Task(100, command));
  }

  /** Once a fetch has thrown, no run raises the maximum again. */
  lemma {:induction false} StuckForGood(s: State, es: seq<Event>)
    requires Legal(s, es) && s.batch == Stuck && s.ids.gettingNextBatch
    ensures Run(s, es).batch == Stuck && Run(s, es).ids.maximum == s.ids.maximum
    decreases |es|
  {
    if es != [] {
      StuckForGood(Step(s, es[0]), es[1..]);
    }
  }
}
