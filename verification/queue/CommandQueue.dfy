/** The write-ahead command queue: AbstractCommandQueue and VoldemortCommandQueue. Commands are
    stored under fresh ids before they are queued, deleted after they have run, and replayed
    from the stored range of ids after a restart. */
module CommandQueue {
  import opened Wrappers
  import opened IdAllocation

  /** A serialized command; the queue never looks inside. */
  datatype Command = Command(bytes: seq<nat>)

  /** A runnable in the executor's queue. */
  datatype Task = Task(id: nat, command: Command)

  /** The keys that one node uses in the store commandQueues. */
  datatype Store = Store(commands: map<nat, Command>, maximum: Option<int>, minimum: Option<nat>)

  /** How applyUpdate ends: all done, given up after retries, or with an exception, after the put of the
      maximum or before it. */
  datatype Answer = Done | GaveUp(maximumStored: bool) | Threw(maximumStored: bool)

  /** How a runnable ends: the command throws, or its delete throws, or the delete is answered. */
  datatype Ending = Threw | DeleteThrew | Finished(deleted: bool)

  // --- the effects of the methods, as functions -------------------------------------

  /** The second half of finishCommand. */
  function Bump(minimum: nat, id: nat): (r: nat)
    ensures minimum <= r && id < r && (r == minimum || r == id + 1)
  {
    if minimum <= id then id + 1 else minimum
  }

  /** getNextBatch: both keys, then the field. */
  function StoreRange(store: Store, maximum: int, minimum: nat): Store {
    store.(maximum := Some(maximum), minimum := Some(minimum))
  }

  /** The range that initialize restores; nothing when no maximum was ever stored. */
  function RestoredMinimum(store: Store): nat { if store.minimum.Some? then store.minimum.value else 0 }

  /** The commands that a restart puts back into the executor's queue, in id order. */
  function ReplayRange(store: Store, lo: nat, hi: int): seq<Task>
    decreases hi - lo
  {
    if lo >= hi then []
    else (if lo in store.commands then [Task(lo, store.commands[lo])] else []) + ReplayRange(store, lo + 1, hi)
  }

  function Replay(store: Store): seq<Task> {
    if store.maximum.None? then [] else ReplayRange(store, RestoredMinimum(store), store.maximum.value)
  }

  lemma {:induction false} ReplayRangeExact(store: Store, lo: nat, hi: int, t: Task)
    ensures t in ReplayRange(store, lo, hi) <==>
            lo <= t.id < hi && t.id in store.commands && store.commands[t.id] == t.command
    decreases hi - lo
  {
    if lo < hi {
      ReplayRangeExact(store, lo + 1, hi, t);
    }
  }

  /** A stored command is replayed exactly when its id lies in the stored range. */
  lemma ReplayExact(store: Store, t: Task)
    ensures t in Replay(store) <==>
            && store.maximum.Some? && RestoredMinimum(store) <= t.id < store.maximum.value
            && t.id in store.commands && store.commands[t.id] == t.command
  {
    if store.maximum.Some? {
      ReplayRangeExact(store, RestoredMinimum(store), store.maximum.value, t);
    }
  }

  lemma {:induction false} ReplayRangeInOrder(store: Store, lo: nat, hi: int)
    ensures forall t <- ReplayRange(store, lo, hi) :: lo <= t.id
    ensures forall i, j :: 0 <= i < j < |ReplayRange(store, lo, hi)| ==>
              ReplayRange(store, lo, hi)[i].id < ReplayRange(store, lo, hi)[j].id
    decreases hi - lo
  {
    if lo < hi {
      ReplayRangeInOrder(store, lo + 1, hi);
      var rest := ReplayRange(store, lo + 1, hi);
      assert forall j :: 0 <= j < |rest| ==> rest[j] in rest;
    }
  }

  /** The replay is in the order in which the ids were given out, with no command twice. */
  lemma ReplayInOrder(store: Store)
    ensures forall i, j :: 0 <= i < j < |Replay(store)| ==> Replay(store)[i].id < Replay(store)[j].id
  {
    if store.maximum.Some? {
      ReplayRangeInOrder(store, RestoredMinimum(store), store.maximum.value);
    }
  }

  // --- the object -----------------------------------------------------------------------

  class Queue {
    var increment: int
    var threshold: int
    var maximum: int
    var minimum: nat
    var nextId: nat
    var gettingNextBatch: bool
    /** How many fetches of the next batch wait in the index executor. */
    var fetches: nat
    /** The runnables waiting in the command executor. */
    var tasks: seq<Task>
    /** The commands that have been executed, in order. */
    var executed: seq<Command>
    /** The node's keys in the store. */
    var store: Store

    ghost function Cfg(): Config
      reads this
    {
      Config(increment, threshold)
    }

    ghost function IdFields(): Ids
      reads this
    {
      Ids(nextId, maximum, gettingNextBatch)
    }

    constructor (store: Store)
      ensures IdFields() == FRESH && minimum == 0 && Cfg() == DEFAULTS
      ensures tasks == [] && this.store == store && fetches == 0 && executed == []
    {
      increment, threshold, maximum, minimum, nextId := 100, 10, 100, 0, 0;
      gettingNextBatch, fetches, tasks, executed := false, 0, [], [];
      this.store := store;
    }

    /** getNextId; asks for the next batch when the range is nearly used up. */
    method NextCommandId() returns (id: nat)
      modifies this`nextId, this`gettingNextBatch, this`fetches
      ensures id == old(nextId)
      ensures IdFields() == GetNextId(Cfg(), old(IdFields()))
      ensures fetches == old(fetches) + if gettingNextBatch && !old(gettingNextBatch) then 1 else 0
    {
      if maximum - threshold <= nextId && !gettingNextBatch {
        gettingNextBatch := true;
        fetches := fetches + 1;
      }
      id := nextId;
      nextId := nextId + 1;
    }

    /** storeRemotely: None stands for -1, and accepted says what the store answers. */
    method StoreRemotely(command: Command, accepted: bool) returns (id: Option<nat>)
      modifies this`nextId, this`gettingNextBatch, this`fetches, this`store
      ensures id == if accepted then Some(old(nextId)) else None
      ensures IdFields() == GetNextId(Cfg(), old(IdFields()))
      ensures fetches == old(fetches) + if gettingNextBatch && !old(gettingNextBatch) then 1 else 0
      ensures store == if accepted then old(store).(commands := old(store).commands[old(nextId) := command]) else old(store)
    {
      var newId := NextCommandId();
      if !accepted {
        return None;
      }
      store := store.(commands := store.commands[newId := command]);
      return Some(newId);
    }

    /** addAsync: stored is false when it throws CannotStoreCommandException. */
    method AddAsync(command: Command, accepted: bool) returns (stored: bool)
      modifies this`nextId, this`gettingNextBatch, this`fetches, this`store, this`tasks
      ensures stored == accepted
      ensures IdFields() == GetNextId(Cfg(), old(IdFields()))
      ensures fetches == old(fetches) + if gettingNextBatch && !old(gettingNextBatch) then 1 else 0
      ensures store == if accepted then old(store).(commands := old(store).commands[old(nextId) := command]) else old(store)
      ensures tasks == if accepted then old(tasks) + [Task(old(nextId), command)] else old(tasks)
    {
      var id := StoreRemotely(command, accepted);
      if id.Some? {
        AddCommand(command, id.value);
      }
      stored := id.Some?;
    }

    /** add: the caller's thread executes the command, and nothing ever deletes it from the store. */
    method Add(command: Command, accepted: bool) returns (stored: bool)
      modifies this`nextId, this`gettingNextBatch, this`fetches, this`store, this`executed
      ensures stored == accepted
      ensures IdFields() == GetNextId(Cfg(), old(IdFields()))
      ensures fetches == old(fetches) + if gettingNextBatch && !old(gettingNextBatch) then 1 else 0
      ensures store == if accepted then old(store).(commands := old(store).commands[old(nextId) := command]) else old(store)
      ensures executed == if accepted then old(executed) + [command] else old(executed)
    {
      var id := StoreRemotely(command, accepted);
      stored := id.Some?;
      if stored {
        executed := executed + [command];
      }
    }

    method AddCommand(command: Command, id: nat)
      modifies this`tasks
      ensures tasks == old(tasks) + [Task(id, command)]
    {
      tasks := tasks + [Task(id, command)];
    }

    /** Deleted says whether the store manages the delete; the minimum moves in any case. */
    method FinishCommand(id: nat, deleted: bool)
      modifies this`store, this`minimum
      ensures store == if deleted then old(store).(commands := old(store).commands - {id}) else old(store)
      ensures minimum == Bump(old(minimum), id)
    {
      if deleted {
        store := store.(commands := store.commands - {id});
      }
      if minimum <= id {
        minimum := id + 1;
      }
    }

    /** A worker runs the first runnable. The ending tells how far it comes. */
    method RunNext(ending: Ending)
      requires tasks != []
      modifies this`tasks, this`executed, this`store, this`minimum
      ensures tasks == old(tasks)[1..]
      ensures executed == if ending.Threw? then old(executed) else old(executed) + [old(tasks)[0].command]
      ensures minimum == if ending.Finished? then Bump(old(minimum), old(tasks)[0].id) else old(minimum)
      ensures store == if ending == Finished(true) then old(store).(commands := old(store).commands - {old(tasks)[0].id})
                       else old(store)
    {
      var task := tasks[0];
      tasks := tasks[1..];
      if ending.Threw? {
        return;
      }
      executed := executed + [task.command];
      if ending.Finished? {
        FinishCommand(task.id, ending.deleted);
      }
    }

    /** The runnable of the index executor. The answer tells how the update of the store ends. */
    method FetchBatch(answer: Answer)
      requires fetches > 0
      modifies this`store, this`maximum, this`gettingNextBatch, this`fetches
      ensures fetches == old(fetches) - 1
      ensures IdFields() == match answer
                case Done => BatchDone(Cfg(), old(IdFields()))
                case GaveUp(_) => BatchFailed(old(IdFields()))
                case Threw(_) => old(IdFields())
      ensures store == if answer.Done? then StoreRange(old(store), old(maximum) + increment, minimum)
                       else if answer.maximumStored then old(store).(maximum := Some(old(maximum) + increment))
                       else old(store)
    {
      fetches := fetches - 1;
      var newMaximum := maximum + increment;
      if answer.Done? || answer.maximumStored {
        store := store.(maximum := Some(newMaximum));
      }
      if answer.Done? {
        store := store.(minimum := Some(minimum));
        maximum := newMaximum;
      }
      if !answer.Threw? {
        gettingNextBatch := false;
      }
    }

    method Shutdown()
      modifies this`store
      ensures store == StoreRange(old(store), maximum, minimum)
    {
      store := store.(maximum := Some(maximum));
      store := store.(minimum := Some(minimum));
    }

    /** initialize of a restarted queue, with the loop of its runnable. */
    method Initialize()
      modifies this`maximum, this`minimum, this`tasks
      ensures tasks == old(tasks) + if store.maximum.None? then [] else
                ReplayRange(store, if store.minimum.Some? then store.minimum.value else old(minimum), store.maximum.value)
      ensures store.maximum.Some? ==> maximum == store.maximum.value
      ensures store.maximum.None? ==> maximum == old(maximum) && minimum == old(minimum)
      ensures store.maximum.Some? && store.minimum.Some? ==> minimum == store.minimum.value
    {
      if store.maximum.None? {
        return;
      }
      maximum := store.maximum.value;
      if store.minimum.Some? {
        minimum := store.minimum.value;
      }
      ghost var lo, hi := minimum, maximum;
      var l: nat := minimum;
      while l < maximum
        invariant minimum == lo && maximum == hi
        invariant tasks + ReplayRange(store, l, hi) == old(tasks) + ReplayRange(store, lo, hi)
      {
        if l in store.commands {
          AddCommand(store.commands[l], l);
        }
        l := l + 1;
      }
    }
  }

  /** A crash followed by a new object on the same store: the queue holds exactly the replay. */
  method Restart(store: Store) returns (q: Queue)
    ensures fresh(q) && q.store == store && q.tasks == Replay(store)
    ensures forall i, j :: 0 <= i < j < |q.tasks| ==> q.tasks[i].id < q.tasks[j].id
  {
    ReplayInOrder(store);
    q := new Queue(store);
    q.Initialize();
  }
}
