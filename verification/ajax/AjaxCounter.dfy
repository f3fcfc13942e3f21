/** The request life cycle of jQuery.ajax and its global counter jQuery.active, for
    asynchronous requests that are not JSONP. Callbacks may start or abort requests, so
    the two halves of a completion are separate steps with anything in between. */
module AjaxCounter {

  /** Starting: counted, before beforeSend has answered. Finishing: requestDone is set and the
      callbacks run. Aborted: the poll has seen readyState 0. */
  datatype Phase = Starting | Vetoed | Waiting | Finishing | Ended | Aborted

  /** The variables of one call of jQuery.ajax: requestDone, ival (is it set), xhr (is it kept),
      xhr.readyState and s.global. Released counts how often the call has decremented active. */
  datatype Request = Request(
    phase: Phase, readyState: nat, requestDone: bool, ival: bool, xhr: bool, global: bool, released: nat)

  datatype Signal = AjaxStart | AjaxStop

  /** History lists every value that active has had, from the first to the present one. */
  datatype State = State(active: int, requests: map<nat, Request>, signals: seq<Signal>, history: seq<int>)

  datatype Event =
    | Begin(id: nat, global: bool)
    | Veto(id: nat)
    | Send(id: nat)
    | Progress(id: nat, readyState: nat)
    | Abort(id: nat)
    | Poll(id: nat)
    | Timeout(id: nat)
    | Finish(id: nat)

  const INITIAL := State(0, map[], [], [0])

  // --- steps ---------------------------------------------------------------------

  /** jQuery.active++, with ajaxStart when it was 0 */
  function Increment(s: State, global: bool): State {
    if !global then s
    else State(s.active + 1, s.requests, if s.active == 0 then s.signals + [AjaxStart] else s.signals,
               s.history + [s.active + 1])
  }

  /** --jQuery.active, with ajaxStop when it becomes 0 */
  function Decrement(s: State, global: bool): State {
    if !global then s
    else State(s.active - 1, s.requests, if s.active - 1 == 0 then s.signals + [AjaxStop] else s.signals,
               s.history + [s.active - 1])
  }

  function Put(s: State, id: nat, r: Request): State { s.(requests := s.requests[id := r]) }

  function Release(r: Request): Request { if r.global then r.(released := r.released + 1) else r }

  /** onreadystatechange, up to the point where the callbacks of a completed request run */
  function OnReadyStateChange(s: State, id: nat, timeout: bool): State
    requires id in s.requests
  {
    var r := s.requests[id];
    if r.readyState == 0 then
      if r.ival then Put(Decrement(s, r.global), id, Release(r.(phase := Aborted, ival := false))) else s
    else if !r.requestDone && r.xhr && (r.readyState == 4 || timeout) then
      Put(s, id, r.(phase := Finishing, requestDone := true, ival := false))
    else s
  }

  /** What the browser, the server, the caller and the timers can do next. A request that has
      been aborted stays at readyState 0: its caller does not open it again. */
  predicate Enabled(s: State, e: Event) {
    match e
    case Begin(id, _) => id !in s.requests
    case Veto(id) => id in s.requests && s.requests[id].phase == Starting
    case Send(id) => id in s.requests && s.requests[id].phase == Starting
    case Progress(id, n) => id in s.requests && s.requests[id].readyState != 0 && 1 <= n <= 4
    case Abort(id) => id in s.requests
    case Poll(id) => id in s.requests && s.requests[id].ival
    case Timeout(id) => id in s.requests && s.requests[id].phase !in {Starting, Vetoed}
    case Finish(id) => id in s.requests && s.requests[id].phase == Finishing
  }

  function Step(s: State, e: Event): State
    requires Enabled(s, e)
  {
    match e
    case Begin(id, global) =>
      Put(Increment(s, global), id, Request(Starting, 1, false, false, true, global, 0))
    case Veto(id) =>
      var r := s.requests[id];
      Put(Decrement(s, r.global), id, Release(r.(phase := Vetoed, readyState := 0)))
    case Send(id) => Put(s, id, s.requests[id].(phase := Waiting, ival := true))
    case Progress(id, n) => Put(s, id, s.requests[id].(readyState := n))
    case Abort(id) => Put(s, id, s.requests[id].(readyState := 0))
    case Poll(id) => OnReadyStateChange(s, id, false)
    case Timeout(id) =>
      var r := s.requests[id];
      if r.xhr && !r.requestDone then OnReadyStateChange(s, id, true) else s
    case Finish(id) =>
      var r := s.requests[id];
      Put(Decrement(s, r.global), id, Release(r.(phase := Ended, xhr := false)))
  }

  predicate Legal(s: State, es: seq<Event>)
    decreases |es|
  {
    es == [] || (Enabled(s, es[0]) && Legal(Step(s, es[0]), es[1..]))
  }

  function Run(s: State, es: seq<Event>): State
    requires Legal(s, es)
    decreases |es|
  {
    if es == [] then s else Run(Step(s, es[0]), es[1..])
  }

  // --- what every run keeps ----------------------------------------------------------

  predicate IsOutstanding(r: Request) { r.global && r.phase in {Starting, Waiting, Finishing} }

  function Outstanding(requests: map<nat, Request>): set<nat> {
    set id | id in requests && IsOutstanding(requests[id])
  }

  predicate Consistent(r: Request) {
    && (r.ival <==> r.phase == Waiting)
    && (r.requestDone <==> r.phase in {Finishing, Ended})
    && (r.xhr <==> r.phase != Ended)
    && (r.phase in {Aborted, Vetoed} ==> r.readyState == 0)
    && r.released == (if r.global && r.phase in {Vetoed, Ended, Aborted} then 1 else 0)
  }

  /** The signals that a history of counter values calls for: one at every change
      from 0 to 1 and one at every change from 1 to 0. */
  function Edges(history: seq<int>): seq<Signal> {
    if |history| < 2 then []
    else
      var a, b := history[|history| - 2], history[|history| - 1];
      Edges(history[..|history| - 1])
      + (if a == 0 && b == 1 then [AjaxStart] else if a == 1 && b == 0 then [AjaxStop] else [])
  }

  predicate UnitSteps(history: seq<int>) {
    forall i :: 0 <= i < |history| - 1 ==> history[i + 1] == history[i] + 1 || history[i + 1] == history[i] - 1
  }

  /** The signals tell the history, which ends with the present count. */
  predicate Ledger(s: State) {
    && |s.history| > 0 && s.history[0] == 0 && s.history[|s.history| - 1] == s.active
    && UnitSteps(s.history) && (forall i :: 0 <= i < |s.history| ==> s.history[i] >= 0)
    && s.signals == Edges(s.history)
  }

  predicate AllConsistent(requests: map<nat, Request>) { forall id <- requests :: Consistent(requests[id]) }

  predicate Exact(s: State) {
    && s.active == |Outstanding(s.requests)|
    && AllConsistent(s.requests)
    && Ledger(s)
  }

  function Weight(requests: map<nat, Request>, id: nat): nat {
    if id in requests && IsOutstanding(requests[id]) then 1 else 0
  }

  lemma OutstandingPut(requests: map<nat, Request>, id: nat, r: Request)
    ensures |Outstanding(requests[id := r])| ==
            |Outstanding(requests)| - Weight(requests, id) + (if IsOutstanding(r) then 1 else 0)
  {
    var was, now := Outstanding(requests), Outstanding(requests[id := r]);
    if IsOutstanding(r) {
      assert now == was + {id};
    } else {
      assert now == was - {id};
    }
    assert id in was <==> Weight(requests, id) == 1;
  }

  lemma LedgerChange(s: State, global: bool)
    requires Ledger(s)
    ensures Ledger(Increment(s, global))
    ensures !global || s.active > 0 ==> Ledger(Decrement(s, global))
  {
    UnitExtend(s.history, s.active + 1);
    UnitExtend(s.history, s.active - 1);
    EdgesExtend(s.history, s.active + 1);
    EdgesExtend(s.history, s.active - 1);
  }

  lemma UnitExtend(history: seq<int>, v: int)
    requires |history| > 0 && UnitSteps(history)
    requires v == history[|history| - 1] + 1 || v == history[|history| - 1] - 1
    ensures UnitSteps(history + [v])
  {
    forall i | 0 <= i < |history + [v]| - 1
      ensures (history + [v])[i + 1] == (history + [v])[i] + 1 || (history + [v])[i + 1] == (history + [v])[i] - 1
    {
      if i < |history| - 1 {
        assert history[i + 1] == history[i] + 1 || history[i + 1] == history[i] - 1;
      }
    }
  }

  lemma EdgesExtend(history: seq<int>, v: int)
    requires |history| > 0
    ensures Edges(history + [v]) ==
            Edges(history) + (if history[|history| - 1] == 0 && v == 1 then [AjaxStart]
                              else if history[|history| - 1] == 1 && v == 0 then [AjaxStop] else [])
  {
    assert (history + [v])[..|history|] == history;
  }

  /** A step that changes one request and the counter alike keeps everything. */
  lemma PutKeepsExact(s: State, t: State, id: nat, r: Request)
    requires Exact(s) && Consistent(r) && Ledger(t) && t.requests == s.requests
    requires t.active == s.active - Weight(s.requests, id) + (if IsOutstanding(r) then 1 else 0)
    ensures Exact(Put(t, id, r))
  {
    OutstandingPut(s.requests, id, r);
  }

  lemma CountsSelf(s: State, id: nat)
    requires Exact(s) && id in s.requests && IsOutstanding(s.requests[id])
    ensures s.active > 0
  {
    assert id in Outstanding(s.requests);
  }

  /** The end of a request that is still counted. */
  lemma ReleaseKeepsExact(s: State, id: nat, r: Request)
    requires Exact(s) && id in s.requests && s.requests[id].phase in {Starting, Waiting, Finishing}
    requires Consistent(r) && r.global == s.requests[id].global && !IsOutstanding(r)
    ensures Exact(Put(Decrement(s, r.global), id, r))
  {
    if r.global {
      CountsSelf(s, id);
    }
    LedgerChange(s, r.global);
    PutKeepsExact(s, Decrement(s, r.global), id, r);
  }

  lemma StepKeepsExact(s: State, e: Event)
    requires Exact(s) && Enabled(s, e)
    ensures Exact(Step(s, e))
  {
    if e.Begin? {
      LedgerChange(s, e.global);
      PutKeepsExact(s, Increment(s, e.global), e.id, Request(Starting, 1, false, false, true, e.global, 0));
    } else {
      var id := e.id;
      var r := s.requests[id];
      assert Consistent(r);
      var r' := Step(s, e).requests[id];
      if r.phase in {Starting, Waiting, Finishing} && r'.phase in {Vetoed, Ended, Aborted} {
        ReleaseKeepsExact(s, id, r');
      } else {
        PutKeepsExact(s, s, id, r');
        assert s.requests[id := r] == s.requests;
      }
    }
  }

  lemma {:induction false} RunKeepsExact(s: State, es: seq<Event>)
    requires Exact(s) && Legal(s, es)
    ensures Exact(Run(s, es))
    decreases |es|
  {
    if es != [] {
      StepKeepsExact(s, es[0]);
      RunKeepsExact(Step(s, es[0]), es[1..]);
    }
  }

  /** Over every interleaving, active is the number of outstanding requests and never negative,
      each request has decremented it at most once, and exactly once when it is over; ajaxStart
      and ajaxStop fire at the changes between 0 and 1 and at no other time. */
  lemma CounterIsExact(es: seq<Event>)
    requires Legal(INITIAL, es)
    ensures var s := Run(INITIAL, es);
            && s.active == |Outstanding(s.requests)| >= 0
            && (forall id <- s.requests :: s.requests[id].released <= 1)
            && (forall id <- s.requests :: s.requests[id].global ==>
                  (s.requests[id].released == 1 <==> id !in Outstanding(s.requests)))
            && s.signals == Edges(s.history)
            && |s.history| > 0 && s.history[0] == 0 && s.history[|s.history| - 1] == s.active && UnitSteps(s.history)
  {
    assert Outstanding(map[]) == {};
    RunKeepsExact(INITIAL, es);
  }

  // --- the code --------------------------------------------------------------------------

  /** The variables behind the state, updated in place. */
  class Ajax {
    var active: int
    var requests: map<nat, Request>
    var signals: seq<Signal>
    ghost var history: seq<int>

    ghost function Abstract(): State
      reads this
    {
      State(active, requests, signals, history)
    }

    constructor ()
      ensures Abstract() == INITIAL
    {
      active, requests, signals, history := 0, map[], [], [0];
    }

    method Trigger(signal: Signal)
      modifies this`signals
      ensures signals == old(signals) + [signal]
    {
      signals := signals + [signal];
    }

    /** The end of every counted request. */
    method CountDown(global: bool)
      modifies this`active, this`signals, this`history
      ensures Abstract() == Decrement(old(Abstract()), global)
    {
      if global {
        active := active - 1;
        history := history + [active];
        if active == 0 {
          Trigger(AjaxStop);
        }
      }
    }

    /** A new request, up to beforeSend. */
    method StartRequest(id: nat, global: bool)
      requires Enabled(Abstract(), Begin(id, global))
      modifies this
      ensures Abstract() == Step(old(Abstract()), Begin(id, global))
    {
      if global {
        var was := active;
        active := active + 1;
        history := history + [active];
        if was == 0 {
          Trigger(AjaxStart);
        }
      }
      requests := requests[id := Request(Starting, 1, false, false, true, global, 0)];
    }

    /** The rest of jQuery.ajax, by what beforeSend has answered. */
    method AfterBeforeSend(id: nat, veto: bool)
      requires Enabled(Abstract(), Send(id))
      modifies this
      ensures Abstract() == Step(old(Abstract()), if veto then Veto(id) else Send(id))
    {
      var r := requests[id];
      if veto {
        CountDown(r.global);
        requests := requests[id := Release(r.(phase := Vetoed, readyState := 0))];
        return;
      }
      requests := requests[id := r.(phase := Waiting, ival := true)];
    }

    /** onreadystatechange(isTimeout), called by the poll or by the timer. */
    method HandleReadyState(id: nat, timeout: bool)
      requires id in requests
      modifies this
      ensures Abstract() == OnReadyStateChange(old(Abstract()), id, timeout)
    {
      var r := requests[id];
      if r.readyState == 0 {
        if r.ival {
          CountDown(r.global);
          requests := requests[id := Release(r.(phase := Aborted, ival := false))];
        }
      } else if !r.requestDone && r.xhr && (r.readyState == 4 || timeout) {
        requests := requests[id := r.(phase := Finishing, requestDone := true, ival := false)];
      }
    }

    method TimerFires(id: nat)
      requires Enabled(Abstract(), Timeout(id))
      modifies this
      ensures Abstract() == Step(old(Abstract()), Timeout(id))
    {
      if requests[id].xhr && !requests[id].requestDone {
        HandleReadyState(id, true);
      }
    }

    /** complete(), and what follows it in onreadystatechange. */
    method CompleteRequest(id: nat)
      requires Enabled(Abstract(), Finish(id))
      modifies this
      ensures Abstract() == Step(old(Abstract()), Finish(id))
    {
      var r := requests[id];
      CountDown(r.global);
      requests := requests[id := Release(r.(phase := Ended, xhr := false))];
    }
  }
}
