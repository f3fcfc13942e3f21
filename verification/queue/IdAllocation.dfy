/** getNextId and getNextBatch: ids are handed out one by one while the upper bound of the
    range is extended in the background. */
module IdAllocation {

  /** setIncrement and setThreshold. */
  datatype Config = Config(increment: int, threshold: int)

  const DEFAULTS := Config(100, 10)

  /** The fields nextId, maximum and gettingNextBatch. */
  datatype Ids = Ids(nextId: nat, maximum: int, gettingNextBatch: bool)

  const FIRST_MAXIMUM := 100

  const FRESH := Ids(0, FIRST_MAXIMUM, false)

  /** getNextId returns ids.nextId and leaves this behind. */
  function GetNextId(cfg: Config, ids: Ids): Ids {
    Ids(ids.nextId + 1, ids.maximum,
        ids.gettingNextBatch || ids.maximum - cfg.threshold <= ids.nextId)
  }

  /** The background task, when getNextBatch has stored the new maximum. */
  function BatchDone(cfg: Config, ids: Ids): Ids {
    Ids(ids.nextId, ids.maximum + cfg.increment, false)
  }

  /** The background task, when the store has refused. */
  function BatchFailed(ids: Ids): Ids { ids.(gettingNextBatch := false) }

  // --- runs with slow fetches --------------------------------------------------

  datatype Event = Call | Fetched

  /** Age counts the calls of getNextId since the one that asked for the running fetch. */
  datatype Delayed = Delayed(ids: Ids, age: nat)

  /** Every fetch completes within d further calls. */
  predicate Enabled(s: Delayed, e: Event, d: nat) {
    match e
    case Call => s.ids.gettingNextBatch ==> s.age < d
    case Fetched => s.ids.gettingNextBatch
  }

  function Step(cfg: Config, s: Delayed, e: Event): Delayed {
    match e
    case Call => Delayed(GetNextId(cfg, s.ids), if s.ids.gettingNextBatch then s.age + 1 else 0)
    case Fetched => Delayed(BatchDone(cfg, s.ids), 0)
  }

  predicate Legal(cfg: Config, s: Delayed, es: seq<Event>, d: nat)
    decreases |es|
  {
    es == [] || (Enabled(s, es[0], d) && Legal(cfg, Step(cfg, s, es[0]), es[1..], d))
  }

  /** Every id that a call returns lies below the maximum of that moment. */
  predicate AllBelow(cfg: Config, s: Delayed, es: seq<Event>)
    decreases |es|
  {
    es == [] || ((es[0] == Call ==> s.ids.nextId < s.ids.maximum) && AllBelow(cfg, Step(cfg, s, es[0]), es[1..]))
  }

  /** The ids that the calls return. */
  function Returned(cfg: Config, s: Delayed, es: seq<Event>): seq<nat>
    decreases |es|
  {
    if es == [] then []
    else (if es[0] == Call then [s.ids.nextId] else []) + Returned(cfg, Step(cfg, s, es[0]), es[1..])
  }

  const START := Delayed(FRESH, 0)

  /** Whatever the fetches do, the ids of one run count up without a gap, so none comes twice. */
  lemma {:induction false} IdsCountUp(cfg: Config, s: Delayed, es: seq<Event>)
    ensures forall i :: 0 <= i < |Returned(cfg, s, es)| ==> Returned(cfg, s, es)[i] == s.ids.nextId + i
    decreases |es|
  {
    if es != [] {
      IdsCountUp(cfg, Step(cfg, s, es[0]), es[1..]);
    }
  }

  /** What a fetch that may take d further calls needs to find. */
  predicate Roomy(s: Delayed, d: nat) {
    if s.ids.gettingNextBatch then s.age <= d && s.ids.maximum - s.ids.nextId >= d - s.age
    else s.ids.maximum - s.ids.nextId > d
  }

  lemma {:induction false} RoomyRuns(cfg: Config, s: Delayed, es: seq<Event>, d: nat)
    requires d < cfg.threshold && d < cfg.increment
    requires Roomy(s, d) && Legal(cfg, s, es, d)
    ensures AllBelow(cfg, s, es)
    decreases |es|
  {
    if es != [] {
      RoomyRuns(cfg, Step(cfg, s, es[0]), es[1..], d);
    }
  }

  function Final(cfg: Config, s: Delayed, es: seq<Event>): Delayed
    decreases |es|
  {
    if es == [] then s else Final(cfg, Step(cfg, s, es[0]), es[1..])
  }

  lemma {:induction false} OneMore(cfg: Config, s: Delayed, es: seq<Event>, e: Event, d: nat)
    requires Legal(cfg, s, es, d) && Enabled(Final(cfg, s, es), e, d)
    ensures Legal(cfg, s, es + [e], d) && Final(cfg, s, es + [e]) == Step(cfg, Final(cfg, s, es), e)
    decreases |es|
  {
    if es == [] {
      assert [e][1..] == [];
    } else {
      OneMore(cfg, Step(cfg, s, es[0]), es[1..], e, d);
      assert (es + [e])[1..] == es[1..] + [e];
    }
  }

  /** Then the next id is never beyond the maximum either. */
  lemma {:induction false} RoomyEnds(cfg: Config, s: Delayed, es: seq<Event>, d: nat)
    requires d < cfg.threshold && d < cfg.increment
    requires Roomy(s, d) && Legal(cfg, s, es, d)
    ensures Final(cfg, s, es).ids.nextId <= Final(cfg, s, es).ids.maximum
    decreases |es|
  {
    if es != [] {
      RoomyEnds(cfg, Step(cfg, s, es[0]), es[1..], d);
    }
  }

  /** n calls in a row. */
  function Calls(n: nat): (es: seq<Event>)
    ensures |es| == n && forall i :: 0 <= i < n ==> es[i] == Call
  {
    seq(n, i => Call)
  }

  lemma CallsStep(n: nat)
    requires n > 0
    ensures Calls(n)[0] == Call && Calls(n)[1..] == Calls(n - 1)
  {}

  /** How many calls may be made from s on before the next fetch has to complete. */
  function Allowed(cfg: Config, s: Delayed, d: nat): int {
    if s.ids.gettingNextBatch then d - s.age
    else d + 1 + (if s.ids.maximum - cfg.threshold > s.ids.nextId then s.ids.maximum - cfg.threshold - s.ids.nextId else 0)
  }

  /** Calls alone use up the range. */
  lemma {:induction false} CallsExhaust(cfg: Config, s: Delayed, n: nat, d: nat)
    requires n <= Allowed(cfg, s, d) && n > s.ids.maximum - s.ids.nextId >= 0
    ensures Legal(cfg, s, Calls(n), d) && !AllBelow(cfg, s, Calls(n))
    decreases n
  {
    CallsStep(n);
    var t := Step(cfg, s, Call);
    if s.ids.nextId < s.ids.maximum {
      CallsExhaust(cfg, t, n - 1, d);
    } else {
      CallsLegal(cfg, t, n - 1, d);
    }
  }

  lemma {:induction false} CallsLegal(cfg: Config, s: Delayed, n: nat, d: nat)
    requires n <= Allowed(cfg, s, d)
    ensures Legal(cfg, s, Calls(n), d)
    decreases n
  {
    if n > 0 {
      CallsStep(n);
      CallsLegal(cfg, Step(cfg, s, Call), n - 1, d);
    }
  }

  /** A round: as many calls as a fetch may take, then the fetch. */
  lemma {:induction false} RoundThen(cfg: Config, s: Delayed, n: nat, d: nat, more: seq<Event>)
    returns (es: seq<Event>, t: Delayed)
    requires s.ids.gettingNextBatch && s.age + n <= d && n <= s.ids.maximum - s.ids.nextId
    requires AfterCalls(cfg, s, n).ids.gettingNextBatch
    ensures t == Step(cfg, AfterCalls(cfg, s, n), Fetched)
    ensures es == Calls(n) + [Fetched] + more
    ensures Legal(cfg, t, more, d) ==> Legal(cfg, s, es, d)
    ensures !AllBelow(cfg, t, more) ==> !AllBelow(cfg, s, es)
    decreases n
  {
    es := Calls(n) + [Fetched] + more;
    t := Step(cfg, AfterCalls(cfg, s, n), Fetched);
    if n == 0 {
      assert es[1..] == more;
    } else {
      CallsStep(n);
      var es', t' := RoundThen(cfg, Step(cfg, s, Call), n - 1, d, more);
      assert es[1..] == es';
    }
  }

  /** The state after n calls during a fetch. */
  function AfterCalls(cfg: Config, s: Delayed, n: nat): Delayed
    requires s.ids.gettingNextBatch
  {
    Delayed(s.ids.(nextId := s.ids.nextId + n), s.age + n)
  }

  /** When fetches bring in no more ids than may be used up meanwhile, the range runs out. */
  lemma {:induction false} SlackShrinks(cfg: Config, s: Delayed, d: nat) returns (es: seq<Event>)
    requires !s.ids.gettingNextBatch && cfg.increment <= d
    requires s.ids.maximum - s.ids.nextId <= cfg.threshold
    ensures Legal(cfg, s, es, d) && !AllBelow(cfg, s, es)
    decreases s.ids.maximum - s.ids.nextId
  {
    var slack := s.ids.maximum - s.ids.nextId;
    if slack < 0 {
      es := [Call];
    } else if slack <= d {
      es := Calls(slack + 1);
      CallsExhaust(cfg, s, slack + 1, d);
    } else {
      var asked := Step(cfg, s, Call);
      var after := Step(cfg, AfterCalls(cfg, asked, d), Fetched);
      var more := SlackShrinks(cfg, after, d);
      var round, t := RoundThen(cfg, asked, d, d, more);
      es := [Call] + round;
      assert es[1..] == round;
    }
  }

  /** Calls up to the one that asks for a fetch. */
  lemma {:induction false} CallsUntilAsked(cfg: Config, s: Delayed, d: nat) returns (es: seq<Event>)
    requires !s.ids.gettingNextBatch && cfg.increment <= d && s.ids.maximum >= s.ids.nextId
    ensures Legal(cfg, s, es, d) && !AllBelow(cfg, s, es)
    decreases s.ids.maximum - s.ids.nextId
  {
    if s.ids.maximum - s.ids.nextId <= cfg.threshold {
      es := SlackShrinks(cfg, s, d);
    } else if s.ids.maximum == s.ids.nextId {
      es := [Call];
    } else {
      var more := CallsUntilAsked(cfg, Step(cfg, s, Call), d);
      es := [Call] + more;
      assert es[1..] == more;
    }
  }

  /** With fetches that complete within d further calls, the ids of every run stay below the
      maximum exactly when d is below the threshold, the increment and the first maximum. */
  lemma BoundExact(cfg: Config, d: nat)
    ensures (forall es | Legal(cfg, START, es, d) :: AllBelow(cfg, START, es))
            <==> d < cfg.threshold && d < cfg.increment && d < FIRST_MAXIMUM
  {
    if d < cfg.threshold && d < cfg.increment && d < FIRST_MAXIMUM {
      forall es | Legal(cfg, START, es, d)
        ensures AllBelow(cfg, START, es)
      {
        RoomyRuns(cfg, START, es, d);
      }
    } else if d >= cfg.threshold || d >= FIRST_MAXIMUM {
      CallsExhaust(cfg, START, FIRST_MAXIMUM + 1, d);
    } else {
      var es := CallsUntilAsked(cfg, START, d);
    }
  }

  // --- runs with prompt fetches ---------------------------------------------------

  /** n calls, each fetch completing before the next call. */
  function Prompt(cfg: Config, n: nat): Ids {
    if n == 0 then FRESH
    else
      var ids := GetNextId(cfg, Prompt(cfg, n - 1));
      if ids.gettingNextBatch then BatchDone(cfg, ids) else ids
  }

  /** With increments that raise it, the maximum is the least term of the progression that keeps the threshold
      free, unless every call so far has fetched; with others, every call fetches once the
      threshold is reached. */
  lemma {:induction false} PromptLeast(cfg: Config, n: nat) returns (k: nat)
    ensures var ids := Prompt(cfg, n);
            && ids.nextId == n && !ids.gettingNextBatch
            && ids.maximum == FIRST_MAXIMUM + cfg.increment * k
            && (cfg.increment >= 1 ==>
                  && k <= n
                  && (ids.maximum - cfg.threshold >= n || (k == n && cfg.threshold > FIRST_MAXIMUM))
                  && (k > 0 ==> ids.maximum - cfg.increment - cfg.threshold < n))
            && (cfg.increment < 1 ==> k == FetchesByRank(cfg.threshold, n))
  {
    if n == 0 {
      k := 0;
    } else {
      k := PromptLeast(cfg, n - 1);
      if cfg.increment < 1 {
        NoRise(cfg.increment, k);
      }
      if Prompt(cfg, n - 1).maximum - cfg.threshold <= n - 1 {
        k := k + 1;
        assert cfg.increment * k == cfg.increment * (k - 1) + cfg.increment;
      }
    }
  }

  /** The calls from number 100 - threshold on, counted from 0. */
  function FetchesByRank(threshold: int, n: nat): nat {
    var first := FIRST_MAXIMUM - threshold;
    if n <= first then 0 else if first <= 0 then n else n - first
  }

  lemma NoRise(increment: int, k: nat)
    requires increment < 1
    ensures increment * k <= 0
  {}

  /** With the defaults: 100 ids at first, and 100 more at the calls 91, 191, 291 and so on;
      300 after the 200 commands of CommandQueueTest. */
  lemma PromptMaximum(n: nat)
    ensures Prompt(DEFAULTS, n).maximum == 100 + 100 * ((n + 9) / 100)
    ensures n == 200 ==> Prompt(DEFAULTS, n).maximum == 300
  {
    var k := PromptLeast(DEFAULTS, n);
    InHundreds(n + 9, k);
  }

  lemma InHundreds(m: nat, k: nat)
    requires 100 * k <= m < 100 * k + 100
    ensures m / 100 == k
  {}
}
