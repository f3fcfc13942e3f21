/** The life of one request among others: when it may end, that it can, and what the counter's signals tell. */
module RequestLife {
  import opened AjaxCounter

  ghost predicate Reachable(s: State) { exists es :: Legal(INITIAL, es) && Run(INITIAL, es) == s }

  lemma ReachableExact(s: State)
    requires Reachable(s)
    ensures Exact(s)
  {
    var es :| Legal(INITIAL, es) && Run(INITIAL, es) == s;
    assert Outstanding(map[]) == {};
    RunKeepsExact(INITIAL, es);
  }

  // --- when a request changes its phase -----------------------------------------------

  function PhaseOf(s: State, id: nat): Phase
    requires id in s.requests
  {
    s.requests[id].phase
  }

  /** The request gets into this phase by this event. */
  predicate Enters(s: State, e: Event, id: nat, phase: Phase)
    requires Enabled(s, e) && id in s.requests
  {
    id in Step(s, e).requests && PhaseOf(Step(s, e), id) == phase != PhaseOf(s, id)
  }

  /** In every run: a request that waits completes exactly when a poll finds readyState 4 or its timer fires before
      it was aborted, and is given up exactly when a poll or the timer finds that it was. Nothing else ends the
      waiting, whatever other requests do. */
  lemma WaitingEndsExactly(s: State, e: Event, id: nat)
    requires Reachable(s) && Enabled(s, e) && id in s.requests
    ensures var r := s.requests[id];
            && (Enters(s, e, id, Finishing) <==>
                  r.phase == Waiting && ((e == Poll(id) && r.readyState == 4) || (e == Timeout(id) && r.readyState != 0)))
            && (Enters(s, e, id, Aborted) <==>
                  r.phase == Waiting && r.readyState == 0 && (e == Poll(id) || e == Timeout(id)))
  {
    ReachableExact(s);
    assert Consistent(s.requests[id]);
  }

  /** The other phases: a request starts once, is vetoed or sent by the answer of beforeSend, and ends with its
      callbacks; what is over stays over. */
  lemma OtherPhasesExactly(s: State, e: Event, id: nat)
    requires Reachable(s) && Enabled(s, e)
    ensures id in Step(s, e).requests <==> id in s.requests || (e.Begin? && e.id == id)
    ensures id !in s.requests && id in Step(s, e).requests ==> PhaseOf(Step(s, e), id) == Starting
    ensures id in s.requests ==>
              && !Enters(s, e, id, Starting)
              && (Enters(s, e, id, Vetoed) <==> e == Veto(id))
              && (Enters(s, e, id, Waiting) <==> e == Send(id))
              && (Enters(s, e, id, Ended) <==> e == Finish(id))
  {
    ReachableExact(s);
    assert id in s.requests ==> Consistent(s.requests[id]);
  }

  /** The readyState is what the browser last set, or 0 after an abort or a veto. */
  lemma ReadyStateExactly(s: State, e: Event, id: nat)
    requires Reachable(s) && Enabled(s, e) && id in Step(s, e).requests
    ensures Step(s, e).requests[id].readyState ==
            if e.Begin? && e.id == id then 1
            else if e.Progress? && e.id == id then e.readyState
            else if e == Abort(id) || e == Veto(id) then 0
            else s.requests[id].readyState
  {
    ReachableExact(s);
    assert id in s.requests ==> Consistent(s.requests[id]);
  }

  /** A poll before the response has come changes nothing at all. */
  lemma EarlyPoll(s: State, id: nat)
    requires Reachable(s) && Enabled(s, Poll(id)) && 1 <= s.requests[id].readyState <= 3
    ensures Step(s, Poll(id)) == s
  {}

  // --- that it can end -----------------------------------------------------------------------

  lemma {:induction false} RunAppend(s: State, a: seq<Event>, b: seq<Event>)
    requires Legal(s, a) && Legal(Run(s, a), b)
    ensures Legal(s, a + b) && Run(s, a + b) == Run(Run(s, a), b)
    decreases |a|
  {
    if a == [] {
      assert a + b == b;
    } else {
      RunAppend(Step(s, a[0]), a[1..], b);
      assert (a + b)[1..] == a[1..] + b;
    }
  }

  lemma RunOne(s: State, a: Event)
    requires Enabled(s, a)
    ensures Legal(s, [a]) && Run(s, [a]) == Step(s, a)
  {
    assert [a][1..] == [];
    assert Run(Step(s, a), []) == Step(s, a);
  }

  lemma RunTwo(s: State, a: Event, b: Event)
    requires Enabled(s, a) && Enabled(Step(s, a), b)
    ensures Legal(s, [a, b]) && Run(s, [a, b]) == Step(Step(s, a), b)
  {
    assert [a, b][1..] == [b];
    RunOne(Step(s, a), b);
  }

  predicate IsOpen(r: Request) { r.phase in {Starting, Waiting, Finishing} }

  function Open(s: State): set<nat> { set id | id in s.requests && IsOpen(s.requests[id]) }

  /** Only this request has changed, and it is over. */
  predicate Closes(s: State, t: State, id: nat) {
    && id in s.requests && t.requests.Keys == s.requests.Keys
    && !IsOpen(t.requests[id])
    && forall x <- s.requests :: x != id ==> t.requests[x] == s.requests[x]
  }

  /** Once the response has come, the next poll and the callbacks end the request, and it is counted no more. */
  lemma ResponseEnds(s: State, id: nat)
    requires Reachable(s) && id in s.requests && s.requests[id].phase == Waiting && s.requests[id].readyState == 4
    ensures Legal(s, [Poll(id), Finish(id)])
    ensures var t := Run(s, [Poll(id), Finish(id)]);
            && Closes(s, t, id) && PhaseOf(t, id) == Ended && id !in Outstanding(t.requests)
            && t.active == s.active - if s.requests[id].global then 1 else 0
  {
    ReachableExact(s);
    assert Consistent(s.requests[id]);
    RunTwo(s, Poll(id), Finish(id));
  }

  /** After an abort, the next poll does. */
  lemma AbortEnds(s: State, id: nat)
    requires Reachable(s) && id in s.requests && s.requests[id].phase == Waiting
    ensures Legal(s, [Abort(id), Poll(id)])
    ensures var t := Run(s, [Abort(id), Poll(id)]);
            && Closes(s, t, id) && PhaseOf(t, id) == Aborted && id !in Outstanding(t.requests)
            && t.active == s.active - if s.requests[id].global then 1 else 0
  {
    ReachableExact(s);
    assert Consistent(s.requests[id]);
    RunTwo(s, Abort(id), Poll(id));
  }

  lemma OneCloses(s: State, id: nat) returns (es: seq<Event>)
    requires Reachable(s) && id in Open(s)
    ensures Legal(s, es) && Closes(s, Run(s, es), id)
  {
    if PhaseOf(s, id) == Waiting {
      AbortEnds(s, id);
      es := [Abort(id), Poll(id)];
    } else {
      var e := if PhaseOf(s, id) == Starting then Veto(id) else Finish(id);
      es := [e];
      RunOne(s, e);
    }
  }

  lemma StaysReachable(s: State, es: seq<Event>)
    requires Reachable(s) && Legal(s, es)
    ensures Reachable(Run(s, es))
  {
    var before :| Legal(INITIAL, before) && Run(INITIAL, before) == s;
    RunAppend(INITIAL, before, es);
  }

  /** From every reachable state the open requests can all be brought to an end, and then the counter is at 0. */
  lemma {:induction false} CanDrain(s: State) returns (es: seq<Event>)
    requires Reachable(s)
    ensures Legal(s, es) && Open(Run(s, es)) == {} && Run(s, es).active == 0
    decreases |Open(s)|
  {
    ReachableExact(s);
    if Open(s) == {} {
      es := [];
      assert Outstanding(s.requests) == {} by {
        assert Outstanding(s.requests) <= Open(s);
      }
    } else {
      var id :| id in Open(s);
      var first := OneCloses(s, id);
      var t := Run(s, first);
      StaysReachable(s, first);
      assert Open(t) == Open(s) - {id};
      var rest := CanDrain(t);
      RunAppend(s, first, rest);
      es := first + rest;
    }
  }

  // --- what the signals tell ----------------------------------------------------------------------

  function Turn(before: int, after: int): seq<Signal> {
    if before == 0 && after == 1 then [AjaxStart] else if before == 1 && after == 0 then [AjaxStop] else []
  }

  /** The changes of active between 0 and 1 in a run, read off its states. */
  function Turns(s: State, es: seq<Event>): seq<Signal>
    requires Legal(s, es)
    decreases |es|
  {
    if es == [] then [] else Turn(s.active, Step(s, es[0]).active) + Turns(Step(s, es[0]), es[1..])
  }

  lemma StepSignals(s: State, e: Event)
    requires Exact(s) && Enabled(s, e)
    ensures Step(s, e).signals == s.signals + Turn(s.active, Step(s, e).active)
    ensures -1 <= Step(s, e).active - s.active <= 1
  {
    StepKeepsExact(s, e);
  }

  /** ajaxStart and ajaxStop fire at exactly those changes, in order; no event moves the counter by more than 1. */
  lemma {:induction false} SignalsTell(s: State, es: seq<Event>)
    requires Exact(s) && Legal(s, es)
    ensures Run(s, es).signals == s.signals + Turns(s, es)
    decreases |es|
  {
    if es != [] {
      StepSignals(s, es[0]);
      StepKeepsExact(s, es[0]);
      SignalsTell(Step(s, es[0]), es[1..]);
    }
  }
}
