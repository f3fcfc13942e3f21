/** Runs of the command queue: clients, worker threads, the index executor and the store take
    turns in any order. */
module QueueRuns {
  import opened Wrappers
  import Ids = IdAllocation
  import opened CommandQueue

  /** How far a worker has come with a task: taken, executed, delete answered by the store, and about to
      move the minimum. */
  datatype Phase = Taken | Ran | Deleted | Passing

  datatype Running = Running(command: Command, phase: Phase)

  /** How far the index executor has come with getNextBatch. Stuck: it threw, so that gettingNextBatch
      stays true for good. */
  datatype Batch = Quiet | Asked | MaximumStored | MinimumStored | Stuck

  /** Pending ids await the store's answer; ready commands are stored but not yet handed on.
      Accepted and executed record what has happened so far. */
  datatype State = State(
    cfg: Ids.Config, ids: Ids.Ids, minimum: nat, batch: Batch, store: Store,
    pending: map<nat, Command>, ready: map<nat, Command>, tasks: seq<Task>, running: map<nat, Running>,
    accepted: map<nat, Command>, executed: set<nat>)

  datatype Event =
    | Allocate(command: Command)    // getNextId, in a client
    | Stored(id: nat)               // the put of storeRemotely succeeds
    | Refused(id: nat)              // or fails, and the client gets an exception
    | Enqueue(id: nat)              // addAsync hands the command to the executor
    | RunDirectly(id: nat)          // add executes the command itself and never deletes it
    | Take                          // a worker takes the first runnable
    | Execute(id: nat)
    | Throw(id: nat)                // the command or its delete throws: the runnable ends there
    | Delete(id: nat)
    | DeleteFails(id: nat)          // the store gives up; finishCommand does not look
    | Check(id: nat)                // finishCommand compares the minimum with the id
    | Write(id: nat)                // and writes it, without a lock
    | BatchMaximum                  // getNextBatch, step by step
    | BatchMinimum
    | BatchCommit
    | BatchRetry
    | BatchGiveUp
    | BatchThrow
    | Shutdown

  function Start(cfg: Ids.Config): State {
    State(cfg, Ids.FRESH, 0, Quiet, Store(map[], None, None), map[], map[], [], map[], map[], {})
  }

  predicate Enabled(s: State, e: Event) {
    match e
    case Allocate(_) => true
    case Stored(id) => id in s.pending
    case Refused(id) => id in s.pending
    case Enqueue(id) => id in s.ready
    case RunDirectly(id) => id in s.ready
    case Take => s.tasks != []
    case Execute(id) => id in s.running && s.running[id].phase == Taken
    case Throw(id) => id in s.running && s.running[id].phase in {Taken, Ran}
    case Delete(id) => id in s.running && s.running[id].phase == Ran
    case DeleteFails(id) => id in s.running && s.running[id].phase == Ran
    case Check(id) => id in s.running && s.running[id].phase == Deleted
    case Write(id) => id in s.running && s.running[id].phase == Passing
    case BatchMaximum => s.batch == Asked
    case BatchMinimum => s.batch == MaximumStored
    case BatchCommit => s.batch == MinimumStored
    case BatchRetry => s.batch in {MaximumStored, MinimumStored}
    case BatchGiveUp => s.batch in {Asked, MaximumStored, MinimumStored}
    case BatchThrow => s.batch in {Asked, MaximumStored, MinimumStored}
    case Shutdown => true
  }

  function Step(s: State, e: Event): State
    requires Enabled(s, e)
  {
    match e
    case Allocate(c) =>
      var ids := Ids.GetNextId(s.cfg, s.ids);
      s.(ids := ids, pending := s.pending[s.ids.nextId := c],
         batch := AfterCall(s, ids))
    case Stored(id) =>
      var c := s.pending[id];
      s.(store := s.store.(commands := s.store.commands[id := c]), pending := s.pending - {id},
         ready := s.ready[id := c], accepted := s.accepted[id := c])
    case Refused(id) => s.(pending := s.pending - {id})
    case Enqueue(id) => s.(tasks := s.tasks + [Task(id, s.ready[id])], ready := s.ready - {id})
    case RunDirectly(id) => s.(executed := s.executed + {id}, ready := s.ready - {id})
    case Take =>
      s.(tasks := s.tasks[1..], running := s.running[s.tasks[0].id := Running(s.tasks[0].command, Taken)])
    case Execute(id) =>
      s.(executed := s.executed + {id}, running := s.running[id := s.running[id].(phase := Ran)])
    case Throw(id) => s.(running := s.running - {id})
    case Delete(id) =>
      s.(store := s.store.(commands := s.store.commands - {id}),
         running := s.running[id := s.running[id].(phase := Deleted)])
    case DeleteFails(id) => s.(running := s.running[id := s.running[id].(phase := Deleted)])
    case Check(id) =>
      s.(running := if s.minimum <= id then s.running[id := s.running[id].(phase := Passing)] else s.running - {id})
    case Write(id) => s.(minimum := id + 1, running := s.running - {id})
    case BatchMaximum =>
      s.(store := s.store.(maximum := Some(s.ids.maximum + s.cfg.increment)), batch := MaximumStored)
    case BatchMinimum => s.(store := s.store.(minimum := Some(s.minimum)), batch := MinimumStored)
    case BatchCommit => s.(ids := Ids.BatchDone(s.cfg, s.ids), batch := Quiet)
    case BatchRetry => s.(batch := Asked)
    case BatchGiveUp => s.(ids := Ids.BatchFailed(s.ids), batch := Quiet)
    case BatchThrow => s.(batch := Stuck)
    case Shutdown => s.(store := StoreRange(s.store, s.ids.maximum, s.minimum))
  }

  predicate Legal(s: State, es: seq<Event>)
    decreases |es|
  {
    es == [] || (Enabled(s, es[0]) && Legal(Step(s, es[0]), es[1..]))
  }

  function Run(s: State, es: seq<Event>): State
    requires Legal(s, es)
    decreases |es|
  {
    if es == [] then s else Run(Step(s, es[0]), es[1..])
  }

  // --- every interleaving: at least once --------------------------------------------------

  predicate KeptOrRun(s: State, id: nat)
    requires id in s.accepted
  {
    id in s.executed || (id in s.store.commands && s.store.commands[id] == s.accepted[id])
  }

  /** Every id in use was handed out; the pending ones are new. */
  predicate IdsSound(s: State) {
    && (forall id <- s.pending :: id < s.ids.nextId && id !in s.accepted)
    && (forall id <- s.accepted :: id < s.ids.nextId)
  }

  /** What is ready, queued or running was accepted under its id. */
  predicate HandedOn(s: State) {
    && (forall id <- s.ready :: id in s.accepted && s.ready[id] == s.accepted[id])
    && (forall t <- s.tasks :: t.id in s.accepted && t.command == s.accepted[t.id])
    && (forall id <- s.running :: id in s.accepted && s.running[id].command == s.accepted[id])
    && (forall id <- s.running :: s.running[id].phase != Taken ==> id in s.executed)
  }

  predicate Sound(s: State) {
    IdsSound(s) && HandedOn(s) && forall id <- s.accepted :: KeptOrRun(s, id)
  }

  /** Accepted commands keep their ids, and a stored command is never overwritten by another. */
  predicate Keeps(s: State, t: State) {
    && s.executed <= t.executed
    && (forall id <- s.accepted :: id in t.accepted && t.accepted[id] == s.accepted[id])
    && (forall id <- s.accepted :: id in s.store.commands && id in t.store.commands ==>
                                     t.store.commands[id] == s.store.commands[id])
  }

  lemma StepKeepsAccepted(s: State, e: Event)
    requires IdsSound(s) && Enabled(s, e)
    ensures s.executed <= Step(s, e).executed
    ensures forall id <- s.accepted :: id in Step(s, e).accepted && Step(s, e).accepted[id] == s.accepted[id]
  {}

  lemma StepKeepsStored(s: State, e: Event, id: nat)
    requires IdsSound(s) && Enabled(s, e) && id in s.accepted
    requires id in s.store.commands && id in Step(s, e).store.commands
    ensures Step(s, e).store.commands[id] == s.store.commands[id]
  {}

  lemma StepKeeps(s: State, e: Event)
    requires Sound(s) && Enabled(s, e)
    ensures Keeps(s, Step(s, e))
  {
    StepKeepsAccepted(s, e);
    forall id | id in s.accepted && id in s.store.commands && id in Step(s, e).store.commands
      ensures Step(s, e).store.commands[id] == s.store.commands[id]
    {
      StepKeepsStored(s, e, id);
    }
  }

  lemma StepKeptOrRun(s: State, e: Event, id: nat)
    requires Sound(s) && Enabled(s, e) && id in Step(s, e).accepted
    ensures KeptOrRun(Step(s, e), id)
  {
    if id in s.accepted {
      assert KeptOrRun(s, id);
      StaysKeptOrRun(s, e, id);
    }
  }

  lemma StaysKeptOrRun(s: State, e: Event, id: nat)
    requires IdsSound(s) && HandedOn(s) && Enabled(s, e) && id in s.accepted && KeptOrRun(s, id)
    ensures id in Step(s, e).accepted && KeptOrRun(Step(s, e), id)
  {}

  lemma StepIdsSound(s: State, e: Event)
    requires IdsSound(s) && Enabled(s, e)
    ensures IdsSound(Step(s, e))
  {}

  predicate IsWorker(e: Event) {
    e.Take? || e.Execute? || e.Throw? || e.Delete? || e.DeleteFails? || e.Check? || e.Write?
  }

  lemma WorkerHandedOn(s: State, e: Event)
    requires HandedOn(s) && Enabled(s, e) && IsWorker(e)
    ensures HandedOn(Step(s, e))
  {}

  lemma ClientHandedOn(s: State, e: Event)
    requires IdsSound(s) && HandedOn(s) && Enabled(s, e) && !IsWorker(e)
    ensures HandedOn(Step(s, e))
  {}

  lemma StepSound(s: State, e: Event)
    requires Sound(s) && Enabled(s, e)
    ensures Sound(Step(s, e))
  {
    StepIdsSound(s, e);
    if IsWorker(e) {
      WorkerHandedOn(s, e);
    } else {
      ClientHandedOn(s, e);
    }
    forall id | id in Step(s, e).accepted
      ensures KeptOrRun(Step(s, e), id)
    {
      StepKeptOrRun(s, e, id);
    }
  }

  /** Every run keeps soundness, what has been executed, and which command was accepted under which id. */
  lemma {:induction false} RunSound(s: State, es: seq<Event>)
    requires Sound(s) && Legal(s, es)
    ensures Sound(Run(s, es))
    ensures s.executed <= Run(s, es).executed
    ensures forall id <- s.accepted :: id in Run(s, es).accepted && Run(s, es).accepted[id] == s.accepted[id]
    decreases |es|
  {
    if es != [] {
      StepKeeps(s, es[0]);
      StepSound(s, es[0]);
      RunSound(Step(s, es[0]), es[1..]);
    }
  }

  lemma StartSound(cfg: Ids.Config)
    ensures Sound(Start(cfg))
  {}

  /** In every reachable state each accepted command is still stored under its own id, or has
      been executed at least once, whatever the clients and workers did. */
  lemma AtLeastOnce(cfg: Ids.Config, es: seq<Event>, id: nat)
    requires Legal(Start(cfg), es) && id in Run(Start(cfg), es).accepted
    ensures var s := Run(Start(cfg), es);
            id in s.executed || (id in s.store.commands && s.store.commands[id] == s.accepted[id])
  {
    StartSound(cfg);
    RunSound(Start(cfg), es);
    assert KeptOrRun(Run(Start(cfg), es), id);
  }

  /** In every reachable state a restart replays an accepted command that has not been
      executed exactly when the stored range covers its id. */
  lemma ReplayedExactly(cfg: Ids.Config, es: seq<Event>, id: nat)
    requires Legal(Start(cfg), es)
    requires id in Run(Start(cfg), es).accepted && id !in Run(Start(cfg), es).executed
    ensures var s := Run(Start(cfg), es);
            Task(id, s.accepted[id]) in Replay(s.store) <==>
            s.store.maximum.Some? && RestoredMinimum(s.store) <= id < s.store.maximum.value
  {
    AtLeastOnce(cfg, es, id);
    var s := Run(Start(cfg), es);
    ReplayExact(s.store, Task(id, s.accepted[id]));
  }

  // --- the history of the stored minimum ---------------------------------------------------

  predicate WritesMinimum(e: Event) { e == BatchMinimum || e == Shutdown }

  lemma {:induction false} LastStep(s: State, es: seq<Event>)
    requires Legal(s, es) && es != []
    ensures var n := |es| - 1;
            Legal(s, es[..n]) && Enabled(Run(s, es[..n]), es[n]) && Run(s, es) == Step(Run(s, es[..n]), es[n])
    decreases |es|
  {
    if |es| > 1 {
      LastStep(Step(s, es[0]), es[1..]);
      assert es[1..][..|es| - 2] == es[..|es| - 1][1..];
    } else {
      assert es[..0] == [] && es[1..] == [];
    }
  }

  /** How many calls of getNextId there were, and how many fetches were completed. */
  function Calls(es: seq<Event>): nat {
    if es == [] then 0 else Calls(es[..|es| - 1]) + if es[|es| - 1].Allocate? then 1 else 0
  }

  function Commits(es: seq<Event>): nat {
    if es == [] then 0 else Commits(es[..|es| - 1]) + if es[|es| - 1] == BatchCommit then 1 else 0
  }

  /** In every run each call takes one id and each completed fetch raises the maximum by the increment; a fetch
      that is given up or throws leaves it alone. The flag is set from the call that asks until the fetch ends. */
  lemma {:induction false} IdHistory(cfg: Ids.Config, es: seq<Event>)
    requires Legal(Start(cfg), es)
    ensures var s := Run(Start(cfg), es);
            && s.cfg == cfg && s.ids.nextId == Calls(es)
            && s.ids.maximum == 100 + cfg.increment * Commits(es)
            && (s.ids.gettingNextBatch <==> s.batch != Quiet)
  {
    if es != [] {
      LastStep(Start(cfg), es);
      IdHistory(cfg, es[..|es| - 1]);
    }
  }

  /** In every run a call asks for a fetch exactly when none is under way and the threshold is reached, after one
      that was given up as well. */
  lemma AsksExactly(cfg: Ids.Config, es: seq<Event>, c: Command)
    requires Legal(Start(cfg), es)
    ensures var s := Run(Start(cfg), es);
            && (Step(s, Allocate(c)).batch != s.batch <==> s.batch == Quiet && Calls(es) >= s.ids.maximum - cfg.threshold)
            && (es != [] && es[|es| - 1] == BatchGiveUp ==> s.batch == Quiet)
  {
    IdHistory(cfg, es);
    if es != [] {
      LastStep(Start(cfg), es);
    }
  }

  /** The minimum in memory, and the one in the store, told by the events alone. */
  function MinimumAfter(es: seq<Event>): nat {
    if es == [] then 0
    else
      var n := |es| - 1;
      if es[n].Write? then es[n].id + 1 else MinimumAfter(es[..n])
  }

  function StoredAfter(es: seq<Event>): nat {
    if es == [] then 0
    else
      var n := |es| - 1;
      if WritesMinimum(es[n]) then MinimumAfter(es[..n]) else StoredAfter(es[..n])
  }

  lemma StepMinimum(s: State, e: Event)
    requires Enabled(s, e)
    ensures Step(s, e).minimum == if e.Write? then e.id + 1 else s.minimum
    ensures RestoredMinimum(Step(s, e).store) == if WritesMinimum(e) then s.minimum else RestoredMinimum(s.store)
  {}

  lemma {:induction false} MinimumHistory(cfg: Ids.Config, es: seq<Event>)
    requires Legal(Start(cfg), es)
    ensures Run(Start(cfg), es).minimum == MinimumAfter(es)
    ensures RestoredMinimum(Run(Start(cfg), es).store) == StoredAfter(es)
  {
    if es != [] {
      LastStep(Start(cfg), es);
      MinimumHistory(cfg, es[..|es| - 1]);
      StepMinimum(Run(Start(cfg), es[..|es| - 1]), es[|es| - 1]);
    }
  }

  /** The last worker to write the minimum so far had a command with this or a later id. */
  ghost predicate LastWritePasses(es: seq<Event>, id: nat) {
    exists i :: 0 <= i < |es| && es[i].Write? && es[i].id >= id && forall k :: i < k < |es| ==> !es[k].Write?
  }

  /** That was so when the minimum was stored for the last time. */
  ghost predicate PassedOver(es: seq<Event>, id: nat) {
    exists j :: 0 <= j < |es| && WritesMinimum(es[j]) && LastWritePasses(es[..j], id) &&
                forall k :: j < k < |es| ==> !WritesMinimum(es[k])
  }

  lemma {:induction false} LastWriteDecides(es: seq<Event>, id: nat)
    ensures MinimumAfter(es) > id <==> LastWritePasses(es, id)
  {
    if es != [] {
      var n := |es| - 1;
      LastWriteDecides(es[..n], id);
      if es[n].Write? {
        if LastWritePasses(es, id) {
          var i :| 0 <= i < |es| && es[i].Write? && es[i].id >= id && forall k :: i < k < |es| ==> !es[k].Write?;
          assert i == n;
        }
      } else {
        if LastWritePasses(es[..n], id) {
          var i :| 0 <= i < n && es[..n][i].Write? && es[..n][i].id >= id && forall k :: i < k < n ==> !es[..n][k].Write?;
          assert forall k :: i < k < n ==> es[..n][k] == es[k];
          assert es[i].Write?;
        }
        if LastWritePasses(es, id) {
          var i :| 0 <= i < |es| && es[i].Write? && es[i].id >= id && forall k :: i < k < |es| ==> !es[k].Write?;
          assert es[..n][i].Write?;
        }
      }
    }
  }

  lemma {:induction false} LastStoreDecides(es: seq<Event>, id: nat)
    ensures StoredAfter(es) > id <==> PassedOver(es, id)
  {
    if es != [] {
      var n := |es| - 1;
      LastStoreDecides(es[..n], id);
      LastWriteDecides(es[..n], id);
      if WritesMinimum(es[n]) {
        if PassedOver(es, id) {
          var j :| 0 <= j < |es| && WritesMinimum(es[j]) && LastWritePasses(es[..j], id) &&
                   forall k :: j < k < |es| ==> !WritesMinimum(es[k]);
          assert j == n;
        }
      } else {
        PassedOverFront(es, id);
      }
    }
  }

  lemma PassedOverFront(es: seq<Event>, id: nat)
    requires es != [] && !WritesMinimum(es[|es| - 1])
    ensures PassedOver(es, id) <==> PassedOver(es[..|es| - 1], id)
  {
    var n := |es| - 1;
    if PassedOver(es, id) {
      var j :| 0 <= j < |es| && WritesMinimum(es[j]) && LastWritePasses(es[..j], id) &&
               forall k :: j < k < |es| ==> !WritesMinimum(es[k]);
      assert es[..n][..j] == es[..j] && WritesMinimum(es[..n][j]);
    }
    if PassedOver(es[..n], id) {
      var j :| 0 <= j < n && WritesMinimum(es[..n][j]) && LastWritePasses(es[..n][..j], id) &&
               forall k :: j < k < n ==> !WritesMinimum(es[..n][k]);
      assert es[..n][..j] == es[..j] && WritesMinimum(es[j]);
      forall k | j < k < |es|
        ensures !WritesMinimum(es[k])
      {
        assert k < n ==> es[..n][k] == es[k];
      }
    }
  }

  /** In every run: of the accepted commands that have not been executed and lie below the stored maximum, a
      crash loses exactly those that the minimum had passed when it was stored for the last time: the last
      worker to write it had a command with this or a later id. */
  lemma LossExact(cfg: Ids.Config, es: seq<Event>, id: nat)
    requires Legal(Start(cfg), es)
    requires id in Run(Start(cfg), es).accepted && id !in Run(Start(cfg), es).executed
    requires Run(Start(cfg), es).store.maximum.Some? && id < Run(Start(cfg), es).store.maximum.value
    ensures Task(id, Run(Start(cfg), es).accepted[id]) !in Replay(Run(Start(cfg), es).store) <==> PassedOver(es, id)
  {
    ReplayedExactly(cfg, es, id);
    MinimumHistory(cfg, es);
    LastStoreDecides(es, id);
  }

  // --- in-order runs: a crash loses nothing ---------------------------------------------------

  /** Turns of a queue whose clients add one command at a time, and whose one worker takes
      the next task only when it is done with the last; each is made of the steps above. */
  datatype Turn =
    | AddAsync(command: Command, accepted: bool)
    | AddSync(command: Command, accepted: bool)
    | Single(e: Event)

  predicate IsWorkerOrBatch(e: Event) {
    || e in {Take, BatchMaximum, BatchMinimum, BatchCommit, BatchRetry, BatchGiveUp, BatchThrow, Shutdown}
    || e.Execute? || e.Delete? || e.DeleteFails? || e.Check? || e.Write?
  }

  predicate TurnAllowed(s: State, t: Turn) {
    t.Single? ==> IsWorkerOrBatch(t.e) && Enabled(s, t.e) && (t.e == Take ==> s.running == map[])
  }

  function TurnStep(s: State, t: Turn): State
    requires TurnAllowed(s, t)
  {
    var id := s.ids.nextId;
    match t
    case Single(e) => Step(s, e)
    case AddAsync(c, true) => Step(Step(Step(s, Allocate(c)), Stored(id)), Enqueue(id))
    case AddSync(c, true) => Step(Step(Step(s, Allocate(c)), Stored(id)), RunDirectly(id))
    case AddAsync(c, false) => Step(Step(s, Allocate(c)), Refused(id))
    case AddSync(c, false) => Step(Step(s, Allocate(c)), Refused(id))
  }

  predicate InOrder(s: State, ts: seq<Turn>)
    decreases |ts|
  {
    ts == [] || (TurnAllowed(s, ts[0]) && InOrder(TurnStep(s, ts[0]), ts[1..]))
  }

  function RunTurns(s: State, ts: seq<Turn>): State
    requires InOrder(s, ts)
    decreases |ts|
  {
    if ts == [] then s else RunTurns(TurnStep(s, ts[0]), ts[1..])
  }

  /** Accepted by addAsync, and finishCommand has not had its delete answered yet. */
  predicate IsUnfinished(s: State, t: Task) {
    || t in s.tasks
    || (t.id in s.running && s.running[t.id].phase in {Taken, Ran} && s.running[t.id].command == t.command)
  }

  predicate Ordered(s: State) {
    && s.pending == map[] && s.ready == map[]
    && (forall i, j :: 0 <= i < j < |s.tasks| ==> s.tasks[i].id < s.tasks[j].id)
    && (forall t <- s.tasks :: s.minimum <= t.id < s.ids.nextId)
    && (forall id <- s.running :: s.minimum <= id < s.ids.nextId)
    && (forall id <- s.running, t <- s.tasks :: id < t.id)
    && (forall a <- s.running, b <- s.running :: a == b)
    && s.minimum <= s.ids.nextId
    && RestoredMinimum(s.store) <= s.minimum
  }

  predicate UnfinishedStored(s: State) {
    && (forall t <- s.tasks :: t.id in s.store.commands && s.store.commands[t.id] == t.command)
    && (forall id <- s.running :: s.running[id].phase in {Taken, Ran} ==>
                                    id in s.store.commands && s.store.commands[id] == s.running[id].command)
  }

  /** A call of getNextId asks for a batch when none is being fetched. */
  function AfterCall(s: State, ids: Ids.Ids): Batch {
    if s.batch == Quiet && ids.gettingNextBatch then Asked else s.batch
  }

  /** Adding under the next id, seen from the outside. */
  predicate Added(s: State, t: State, c: Command, enqueued: bool) {
    && t.pending == map[] && t.ready == map[] && t.cfg == s.cfg
    && t.ids == Ids.GetNextId(s.cfg, s.ids) && t.batch == AfterCall(s, t.ids)
    && t.minimum == s.minimum && t.running == s.running
    && t.tasks == (if enqueued then s.tasks + [Task(s.ids.nextId, c)] else s.tasks)
    && t.store == s.store.(commands := s.store.commands[s.ids.nextId := c])
  }

  /** An accepted command is added under the next id. */
  lemma AddStep(s: State, c: Command, last: Event) returns (t: State)
    requires s.pending == map[] && s.ready == map[]
    requires last == Enqueue(s.ids.nextId) || last == RunDirectly(s.ids.nextId)
    ensures t == Step(Step(Step(s, Allocate(c)), Stored(s.ids.nextId)), last)
    ensures Added(s, t, c, last.Enqueue?)
  {
    var s1 := Step(s, Allocate(c));
    var s2 := Step(s1, Stored(s.ids.nextId));
    assert s2.pending == map[] && s2.ready == map[s.ids.nextId := c];
    t := Step(s2, last);
    assert t.ready == map[];
  }

  lemma AddedOrdered(s: State, t: State, c: Command, enqueued: bool)
    requires Ordered(s) && Added(s, t, c, enqueued)
    ensures Ordered(t)
  {}

  lemma AddedStored(s: State, t: State, c: Command, enqueued: bool)
    requires Ordered(s) && UnfinishedStored(s) && Added(s, t, c, enqueued)
    ensures UnfinishedStored(t)
  {}

  lemma AddKeeps(s: State, c: Command, last: Event)
    requires Ordered(s) && UnfinishedStored(s)
    requires last == Enqueue(s.ids.nextId) || last == RunDirectly(s.ids.nextId)
    ensures var t := Step(Step(Step(s, Allocate(c)), Stored(s.ids.nextId)), last); Ordered(t) && UnfinishedStored(t)
  {
    var t := AddStep(s, c, last);
    AddedOrdered(s, t, c, last.Enqueue?);
    AddedStored(s, t, c, last.Enqueue?);
  }

  lemma RefusedKeeps(s: State, c: Command)
    requires Ordered(s) && UnfinishedStored(s)
    ensures var t := Step(Step(s, Allocate(c)), Refused(s.ids.nextId)); Ordered(t) && UnfinishedStored(t)
  {
    assert Step(Step(s, Allocate(c)), Refused(s.ids.nextId)).pending == map[];
  }

  lemma TakeKeeps(s: State)
    requires Ordered(s) && UnfinishedStored(s) && s.tasks != [] && s.running == map[]
    ensures Ordered(Step(s, Take)) && UnfinishedStored(Step(s, Take))
  {
    assert s.tasks[0] in s.tasks;
  }

  lemma SingleKeepsOrdered(s: State, e: Event)
    requires Ordered(s) && IsWorkerOrBatch(e) && Enabled(s, e) && e != Take
    ensures Ordered(Step(s, e))
  {}

  lemma SingleKeepsStored(s: State, e: Event)
    requires Ordered(s) && UnfinishedStored(s)
    requires IsWorkerOrBatch(e) && Enabled(s, e) && e != Take
    ensures UnfinishedStored(Step(s, e))
  {}

  lemma {:induction false} TurnsKeep(s: State, ts: seq<Turn>)
    requires Ordered(s) && UnfinishedStored(s) && InOrder(s, ts)
    ensures Ordered(RunTurns(s, ts)) && UnfinishedStored(RunTurns(s, ts))
    decreases |ts|
  {
    if ts != [] {
      match ts[0] {
        case Single(e) => if e == Take { TakeKeeps(s); } else { SingleKeepsOrdered(s, e); SingleKeepsStored(s, e); }
        case AddAsync(c, ok) => if ok { AddKeeps(s, c, Enqueue(s.ids.nextId)); } else { RefusedKeeps(s, c); }
        case AddSync(c, ok) => if ok { AddKeeps(s, c, RunDirectly(s.ids.nextId)); } else { RefusedKeeps(s, c); }
      }
      TurnsKeep(TurnStep(s, ts[0]), ts[1..]);
    }
  }

  /** After any in-order run a crash loses an unfinished asynchronous command only if no maximum,
      or too small a maximum, has been stored; every other one is replayed. */
  lemma RecoveryExact(cfg: Ids.Config, ts: seq<Turn>, t: Task)
    requires InOrder(Start(cfg), ts) && IsUnfinished(RunTurns(Start(cfg), ts), t)
    ensures var store := RunTurns(Start(cfg), ts).store;
            t in Replay(store) <==> store.maximum.Some? && t.id < store.maximum.value
  {
    var s := RunTurns(Start(cfg), ts);
    TurnsKeep(Start(cfg), ts);
    ReplayExact(s.store, t);
  }

  // --- in-order runs with timely fetches ----------------------------------------------------------

  /** What the id allocation sees of a turn. */
  function IdEvents(t: Turn): seq<Ids.Event> {
    if !t.Single? then [Ids.Call] else if t.e == BatchCommit then [Ids.Fetched] else []
  }

  function AllIdEvents(ts: seq<Turn>): seq<Ids.Event> {
    if ts == [] then [] else IdEvents(ts[0]) + AllIdEvents(ts[1..])
  }

  /** No fetch is given up or throws, and no shutdown comes between the halves of a fetch: it would
      store the old maximum again. */
  predicate Harmless(s: State, t: Turn) {
    t.Single? ==>
      && t.e != BatchGiveUp && t.e != BatchThrow
      && (t.e == Shutdown ==> s.batch !in {MaximumStored, MinimumStored})
  }

  predicate Uninterrupted(s: State, ts: seq<Turn>)
    requires InOrder(s, ts)
    decreases |ts|
  {
    ts == [] || (Harmless(s, ts[0]) && Uninterrupted(TurnStep(s, ts[0]), ts[1..]))
  }

  /** The fields of the run are those of the allocation run, and the stored maximum keeps up. */
  predicate Tracks(s: State, d: Ids.Delayed) {
    && s.ids == d.ids
    && (s.batch != Quiet <==> s.ids.gettingNextBatch)
    && (s.store.maximum.Some? ==> s.store.maximum.value >= s.ids.maximum)
    && (s.batch in {MaximumStored, MinimumStored} ==>
          s.store.maximum.Some? && s.store.maximum.value >= s.ids.maximum + s.cfg.increment)
  }

  lemma TrackAdd(s: State, d: Ids.Delayed, t: Turn)
    requires Tracks(s, d) && !t.Single?
    ensures Tracks(TurnStep(s, t), Ids.Step(s.cfg, d, Ids.Call)) && TurnStep(s, t).cfg == s.cfg
  {
    AddedFields(s, t);
  }

  /** What every kind of addition does to the fields that the allocation concerns. */
  lemma AddedFields(s: State, t: Turn)
    requires !t.Single?
    ensures var s' := TurnStep(s, t);
            && s'.cfg == s.cfg && s'.ids == Ids.GetNextId(s.cfg, s.ids) && s'.batch == AfterCall(s, s'.ids)
            && s'.store.maximum == s.store.maximum
  {}

  lemma TrackSingle(s: State, d: Ids.Delayed, e: Event)
    requires Tracks(s, d) && IsWorkerOrBatch(e) && Enabled(s, e) && Harmless(s, Single(e))
    requires s.cfg.increment >= 0
    ensures Tracks(Step(s, e), if e == BatchCommit then Ids.Step(s.cfg, d, Ids.Fetched) else d) && Step(s, e).cfg == s.cfg
  {}

  lemma TrackTurn(s: State, d: Ids.Delayed, t: Turn)
    requires Tracks(s, d) && TurnAllowed(s, t) && Harmless(s, t)
    requires s.cfg.increment >= 0
    ensures Tracks(TurnStep(s, t), Ids.Final(s.cfg, d, IdEvents(t))) && TurnStep(s, t).cfg == s.cfg
  {
    if IdEvents(t) != [] {
      assert IdEvents(t)[1..] == [];
      assert Ids.Final(s.cfg, d, IdEvents(t)) == Ids.Step(s.cfg, d, IdEvents(t)[0]);
    }
    if t.Single? {
      TrackSingle(s, d, t.e);
    } else {
      TrackAdd(s, d, t);
    }
  }

  lemma FinalAppend(cfg: Ids.Config, d: Ids.Delayed, t: Turn, rest: seq<Ids.Event>)
    ensures Ids.Final(cfg, d, IdEvents(t) + rest) == Ids.Final(cfg, Ids.Final(cfg, d, IdEvents(t)), rest)
  {
    if IdEvents(t) == [] {
      assert IdEvents(t) + rest == rest;
    } else {
      assert (IdEvents(t) + rest)[1..] == rest;
      assert IdEvents(t)[1..] == [];
    }
  }

  lemma {:induction false} TrackTurns(s: State, d: Ids.Delayed, ts: seq<Turn>)
    requires Tracks(s, d) && InOrder(s, ts) && Uninterrupted(s, ts) && s.cfg.increment >= 0
    ensures Tracks(RunTurns(s, ts), Ids.Final(s.cfg, d, AllIdEvents(ts)))
    decreases |ts|
  {
    if ts != [] {
      TrackTurn(s, d, ts[0]);
      FinalAppend(s.cfg, d, ts[0], AllIdEvents(ts[1..]));
      TrackTurns(TurnStep(s, ts[0]), Ids.Final(s.cfg, d, IdEvents(ts[0])), ts[1..]);
    }
  }

  /** In-order runs whose fetches all succeed within d further calls lose nothing in a crash,
      as soon as a maximum has been stored at all. */
  lemma TimelyRunsRecover(cfg: Ids.Config, ts: seq<Turn>, d: nat, t: Task)
    requires d < cfg.threshold && d < cfg.increment && d < Ids.FIRST_MAXIMUM
    requires InOrder(Start(cfg), ts) && Uninterrupted(Start(cfg), ts)
    requires Ids.Legal(cfg, Ids.START, AllIdEvents(ts), d)
    requires IsUnfinished(RunTurns(Start(cfg), ts), t) && RunTurns(Start(cfg), ts).store.maximum.Some?
    ensures t in Replay(RunTurns(Start(cfg), ts).store)
  {
    TurnsKeep(Start(cfg), ts);
    TrackTurns(Start(cfg), Ids.START, ts);
    Ids.RoomyEnds(cfg, Ids.START, AllIdEvents(ts), d);
    RecoveryExact(cfg, ts, t);
  }
}
