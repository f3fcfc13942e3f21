/** The function queue of an element: jQuery.queue, jQuery.dequeue and fn.queue. In the effects queue
    the running function stays at the head; in any other queue it is taken off first. */
module EffectQueue {

  datatype Callback = Callback(id: nat)

  /** One element and one queue type. Started lists the functions that have been called, in order. */
  datatype State = State(fx: bool, queue: seq<Callback>, started: seq<Callback>)

  datatype Event =
    | Queue(f: Callback)
    | Dequeue(k: nat)   // by the function that was the k-th to be called, counted from 0

  function Fresh(fx: bool): State { State(fx, [], []) }

  function Step(s: State, e: Event): State {
    match e
    case Queue(f) =>
      var q := s.queue + [f];
      s.(queue := q, started := if s.fx && |q| == 1 then s.started + [q[0]] else s.started)
    case Dequeue(_) =>
      var q := if s.queue == [] then [] else s.queue[1..];
      var calls := if s.fx then (if q == [] then [] else [q[0]]) else (if s.queue == [] then [] else [s.queue[0]]);
      s.(queue := q, started := s.started + calls)
  }

  class FunctionQueue {
    var state: State

    constructor (fx: bool)
      ensures state == Fresh(fx)
    {
      state := Fresh(fx);
    }

    method Call(f: Callback)
      modifies this
      ensures state == old(state).(started := old(state).started + [f])
    {
      state := state.(started := state.started + [f]);
    }

    method Add(f: Callback)
      modifies this
      ensures state == Step(old(state), Queue(f))
    {
      state := state.(queue := state.queue + [f]);
      if state.fx && |state.queue| == 1 {
        Call(state.queue[0]);
      }
    }

    method Remove(ghost k: nat)
      modifies this
      ensures state == Step(old(state), Dequeue(k))
    {
      var first := [];
      if |state.queue| > 0 {
        first := [state.queue[0]];
        state := state.(queue := state.queue[1..]);
      }
      if state.fx {
        first := if |state.queue| > 0 then [state.queue[0]] else [];
      }
      if |first| > 0 {
        Call(first[0]);
      }
    }
  }

  // --- runs ---------------------------------------------------------------------------------

  function Run(s: State, events: seq<Event>): State {
    if events == [] then s else Step(Run(s, events[..|events| - 1]), events[|events| - 1])
  }

  /** The functions that have been queued, in order. */
  function Queued(events: seq<Event>): seq<Callback> {
    if events == [] then []
    else
      var n := |events| - 1;
      Queued(events[..n]) + if events[n].Queue? then [events[n].f] else []
  }

  /** The calls that have dequeued. */
  function Dequeued(events: seq<Event>): set<nat> { set e <- events | e.Dequeue? :: e.k }

  /** Of n calls, those that have not. */
  function Rest(n: nat, done: set<nat>): set<nat> { set k | 0 <= k < n && k !in done }

  function Running(fx: bool, events: seq<Event>): set<nat> {
    Rest(|Run(Fresh(fx), events).started|, Dequeued(events))
  }

  /** Only running functions dequeue, so each does it once. */
  predicate Disciplined(fx: bool, events: seq<Event>) {
    events == [] ||
    (var n := |events| - 1;
     Disciplined(fx, events[..n]) && (events[n].Dequeue? ==> events[n].k in Running(fx, events[..n])))
  }

  lemma DequeuedStep(events: seq<Event>, n: nat)
    requires n == |events| - 1
    ensures Dequeued(events) == Dequeued(events[..n]) + if events[n].Dequeue? then {events[n].k} else {}
  {
    assert events == events[..n] + [events[n]];
  }

  /** The first n functions are through; the next one, if any, is at the head and is the only one running. */
  ghost predicate HeadRuns(s: State, queued: seq<Callback>, done: set<nat>) {
    var n := |queued| - |s.queue|;
    && s.fx && n >= 0 && s.queue == queued[n..]
    && s.started == (if s.queue == [] then queued else queued[..n + 1])
    && (forall k :: k in done <==> 0 <= k < n)
  }

  lemma QueueHeadRuns(s: State, queued: seq<Callback>, done: set<nat>, f: Callback)
    requires HeadRuns(s, queued, done)
    ensures HeadRuns(Step(s, Queue(f)), queued + [f], done)
  {
    var n := |queued| - |s.queue|;
    assert queued + [f] == queued[..n] + (s.queue + [f]);
    assert (queued + [f])[n..] == s.queue + [f];
    if s.queue == [] {
      assert (queued + [f])[..n + 1] == queued + [f];
    } else {
      assert (queued + [f])[..n + 1] == queued[..n + 1];
    }
  }

  lemma DequeueHeadRuns(s: State, queued: seq<Callback>, done: set<nat>, k: nat)
    requires HeadRuns(s, queued, done) && k < |s.started| && k !in done
    ensures HeadRuns(Step(s, Dequeue(k)), queued, done + {k})
  {
    var n := |queued| - |s.queue|;
    assert s.queue != [] && k == n;
    assert queued[n..][1..] == queued[n + 1..];
    if |s.queue| > 1 {
      assert queued[..n + 2] == queued[..n + 1] + [s.queue[1]];
    } else {
      assert queued[..n + 1] == queued;
    }
  }

  lemma {:induction false} RunHeadRuns(events: seq<Event>)
    requires Disciplined(true, events)
    ensures HeadRuns(Run(Fresh(true), events), Queued(events), Dequeued(events))
  {
    if events != [] {
      var n := |events| - 1;
      RunHeadRuns(events[..n]);
      var s, queued, done := Run(Fresh(true), events[..n]), Queued(events[..n]), Dequeued(events[..n]);
      DequeuedStep(events, n);
      match events[n]
      case Queue(f) => QueueHeadRuns(s, queued, done, f);
      case Dequeue(k) =>
        DequeueHeadRuns(s, queued, done, k);
        assert queued + [] == queued;
    }
  }

  lemma HeadRunsMeans(s: State, queued: seq<Callback>, done: set<nat>)
    requires HeadRuns(s, queued, done)
    ensures s.started <= queued && forall k <- done :: k < |s.started|
    ensures if s.queue == [] then s.started == queued && Rest(|s.started|, done) == {}
            else |s.started| > 0 && s.started[|s.started| - 1] == s.queue[0] && Rest(|s.started|, done) == {|s.started| - 1}
  {
    var n := |queued| - |s.queue|;
    if s.queue != [] {
      assert s.queue[0] == queued[n];
    }
  }

  lemma RunMeans(events: seq<Event>, s: State)
    requires Disciplined(true, events) && s == Run(Fresh(true), events)
    ensures s.fx && s.started <= Queued(events) && forall k <- Dequeued(events) :: k < |s.started|
    ensures if s.queue == [] then s.started == Queued(events) && Running(true, events) == {}
            else |s.started| > 0 && s.started[|s.started| - 1] == s.queue[0] && Running(true, events) == {|s.started| - 1}
  {
    RunHeadRuns(events);
    HeadRunsMeans(s, Queued(events), Dequeued(events));
  }

  /** When every function dequeues once, after it was called: functions are called in the order in which
      they were queued, never two at a time, the head of the queue is the one running, and once
      nothing runs every function has been called exactly once. */
  lemma FirstInFirstOut(events: seq<Event>)
    requires Disciplined(true, events)
    ensures var s := Run(Fresh(true), events);
            && s.started <= Queued(events)
            && if s.queue == [] then Running(true, events) == {} && s.started == Queued(events)
               else |s.started| > 0 && Running(true, events) == {|s.started| - 1} && s.started[|s.started| - 1] == s.queue[0]
  {
    RunMeans(events, Run(Fresh(true), events));
  }

  /** So what waits behind the running function is what has been queued and not been called. */
  lemma NothingIsDropped(events: seq<Event>)
    requires Disciplined(true, events)
    ensures var s := Run(Fresh(true), events);
            s.started + (if s.queue == [] then [] else s.queue[1..]) == Queued(events)
  {
    RunHeadRuns(events);
    var s := Run(Fresh(true), events);
    var n := |Queued(events)| - |s.queue|;
    assert s.queue != [] ==> s.queue[1..] == Queued(events)[n + 1..];
  }

  lemma RestMore(n: nat, done: set<nat>)
    requires forall k <- done :: k < n
    ensures Rest(n + 1, done) == Rest(n, done) + {n}
  {}

  lemma RunOneMore(events: seq<Event>, k: nat)
    requires k in Dequeued(events)
    ensures Running(true, events + [Dequeue(k)]) ==
            Rest(|Step(Run(Fresh(true), events), Dequeue(k)).started|, Dequeued(events))
  {
    var after := events + [Dequeue(k)];
    DequeuedStep(after, |events|);
    assert after[..|events|] == events;
    assert Dequeued(events) + {k} == Dequeued(events);
  }

  /** When the head is the only one running, a dequeue by another starts the next one, if there is one. */
  lemma NextStarts(s: State, done: set<nat>, k: nat)
    requires s.fx && forall j <- done :: j < |s.started|
    requires s.queue != [] ==> |s.started| > 0 && Rest(|s.started|, done) == {|s.started| - 1}
    ensures Rest(|Step(s, Dequeue(k)).started|, done) ==
            if |s.queue| > 1 then {|s.started| - 1, |s.started|} else Rest(|s.started|, done)
  {
    if |s.queue| > 1 {
      RestMore(|s.started|, done);
      assert |Step(s, Dequeue(k)).started| == |s.started| + 1;
    }
  }

  /** One dequeue too many, by a function that is through, makes two functions run at a time exactly
      when another one is waiting. */
  lemma ExtraDequeue(events: seq<Event>, k: nat)
    requires Disciplined(true, events) && k in Dequeued(events)
    ensures var s := Run(Fresh(true), events);
            Running(true, events + [Dequeue(k)]) ==
            if |s.queue| > 1 then {|s.started| - 1, |s.started|} else Running(true, events)
  {
    RunMeans(events, Run(Fresh(true), events));
    RunOneMore(events, k);
    NextStarts(Run(Fresh(true), events), Dequeued(events), k);
  }

  /** In other queues each dequeue calls one function, in order, whoever dequeues. */
  lemma {:induction false} PlainQueueInOrder(events: seq<Event>)
    ensures var s := Run(Fresh(false), events); !s.fx && s.started + s.queue == Queued(events)
  {
    if events != [] {
      var n := |events| - 1;
      PlainQueueInOrder(events[..n]);
    }
  }
}
