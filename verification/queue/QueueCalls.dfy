/** A call of a method of Queue is a sequence of steps of QueueRuns: the object and the run stay alike. */
module QueueCalls {
  import opened Wrappers
  import Ids = IdAllocation
  import opened CommandQueue
  import opened QueueRuns

  /** Between two calls the object shows this state of a run: no client and no worker is half way. */
  ghost predicate Shows(q: Queue, s: State)
    reads q
  {
    && q.Cfg() == s.cfg && q.IdFields() == s.ids && q.minimum == s.minimum && q.tasks == s.tasks && q.store == s.store
    && s.pending == map[] && s.ready == map[] && s.running == map[]
    && s.batch in {Quiet, Asked, Stuck} && (s.batch == Quiet <==> !s.ids.gettingNextBatch)
    && q.fetches == if s.batch == Asked then 1 else 0
  }

  method AddAsyncIsTurn(q: Queue, ghost s: State, command: Command, accepted: bool) returns (stored: bool)
    requires Shows(q, s)
    modifies q
    ensures Shows(q, TurnStep(s, AddAsync(command, accepted)))
  {
    if accepted {
      ghost var t := AddStep(s, command, Enqueue(s.ids.nextId));
    } else {
      ghost var t := RefusedStep(s, command);
    }
    stored := q.AddAsync(command, accepted);
  }

  method AddIsTurn(q: Queue, ghost s: State, command: Command, accepted: bool) returns (stored: bool)
    requires Shows(q, s)
    modifies q
    ensures Shows(q, TurnStep(s, AddSync(command, accepted)))
  {
    if accepted {
      ghost var t := AddStep(s, command, RunDirectly(s.ids.nextId));
    } else {
      ghost var t := RefusedStep(s, command);
    }
    stored := q.Add(command, accepted);
  }

  lemma RefusedStep(s: State, command: Command) returns (t: State)
    requires s.pending == map[] && s.ready == map[]
    ensures t == Step(Step(s, Allocate(command)), Refused(s.ids.nextId))
    ensures t.pending == map[] && t.ready == map[] && t.running == s.running && t.tasks == s.tasks
    ensures t.store == s.store && t.minimum == s.minimum && t.cfg == s.cfg
    ensures t.ids == Ids.GetNextId(s.cfg, s.ids) && t.batch == AfterCall(s, t.ids)
  {
    t := Step(Step(s, Allocate(command)), Refused(s.ids.nextId));
    assert t.pending == map[];
  }

  /** A worker that runs the first command by itself. */
  function WorkerRuns(s: State, ending: Ending): State
    requires s.tasks != [] && s.running == map[]
  {
    var id := s.tasks[0].id;
    var taken := Step(s, Take);
    match ending
    case Threw => Step(taken, Throw(id))
    case DeleteThrew => Step(Step(taken, Execute(id)), Throw(id))
    case Finished(deleted) =>
      var answered := Step(Step(taken, Execute(id)), if deleted then Delete(id) else DeleteFails(id));
      var checked := Step(answered, Check(id));
      if s.minimum <= id then Step(checked, Write(id)) else checked
  }

  lemma TakenFields(s: State)
    requires s.tasks != [] && s.running == map[]
    ensures var t, task := Step(s, Take), s.tasks[0];
            t == s.(tasks := s.tasks[1..], running := map[task.id := Running(task.command, Taken)])
  {}

  lemma FinishedFields(s: State, deleted: bool)
    requires s.tasks != [] && s.running == map[]
    ensures var t, id := WorkerRuns(s, Finished(deleted)), s.tasks[0].id;
            && t.running == map[]
            && t == s.(tasks := s.tasks[1..], running := map[], executed := s.executed + {id}, minimum := Bump(s.minimum, id),
                       store := if deleted then s.store.(commands := s.store.commands - {id}) else s.store)
  {
    TakenFields(s);
    assert WorkerRuns(s, Finished(deleted)).running == map[];
  }

  lemma WorkerRunsFields(s: State, ending: Ending)
    requires s.tasks != [] && s.running == map[]
    ensures var t := WorkerRuns(s, ending);
            && t.cfg == s.cfg && t.ids == s.ids && t.batch == s.batch && t.pending == s.pending && t.ready == s.ready
            && t.running == map[] && t.tasks == s.tasks[1..]
            && t.minimum == (if ending.Finished? then Bump(s.minimum, s.tasks[0].id) else s.minimum)
            && t.store == if ending == Finished(true) then s.store.(commands := s.store.commands - {s.tasks[0].id})
                          else s.store
  {
    if ending.Finished? {
      FinishedFields(s, ending.deleted);
    } else {
      TakenFields(s);
    }
  }

  method RunNextIsSteps(q: Queue, ghost s: State, ending: Ending)
    requires Shows(q, s) && s.tasks != []
    modifies q
    ensures Shows(q, WorkerRuns(s, ending))
  {
    WorkerRunsFields(s, ending);
    q.RunNext(ending);
  }

  /** The index executor runs getNextBatch by itself. */
  function FetchRuns(s: State, answer: Answer): State
    requires s.batch == Asked
  {
    match answer
    case Done => Step(Step(Step(s, BatchMaximum), BatchMinimum), BatchCommit)
    case GaveUp(maximumStored) => Step(if maximumStored then Step(s, BatchMaximum) else s, BatchGiveUp)
    case Threw(maximumStored) => Step(if maximumStored then Step(s, BatchMaximum) else s, BatchThrow)
  }

  method FetchBatchIsSteps(q: Queue, ghost s: State, answer: Answer)
    requires Shows(q, s) && s.batch == Asked
    modifies q
    ensures Shows(q, FetchRuns(s, answer))
  {
    q.FetchBatch(answer);
  }

  method ShutdownIsStep(q: Queue, ghost s: State)
    requires Shows(q, s)
    modifies q
    ensures Shows(q, Step(s, QueueRuns.Shutdown))
  {
    q.Shutdown();
  }

  /** The queue as it starts shows the start of a run. */
  method NewQueueIsStart() returns (q: Queue)
    ensures fresh(q) && Shows(q, Start(Ids.DEFAULTS))
  {
    q := new Queue(Store(map[], None, None));
  }
}
