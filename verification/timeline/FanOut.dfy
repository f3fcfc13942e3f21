/** TweetCommand: a new tweet is stored, and then written into the timeline of its author and of every
    follower, each by a get and a put of its own, in any order. */
module FanOut {
  import opened Wrappers
  import opened Entries
  import opened Timeline
  import opened EntryTimeline
  import opened UserSets

  datatype Tweet = Tweet(author: string, index: nat, date: int)

  /** The decoded set of followers of every existing user. */
  type Followers = map<string, set<string>>

  function IdOf(t: Tweet): string { TweetId(t.author, t.index) }

  function EntryOf(t: Tweet): Entry { Entry(IdOf(t), t.date) }

  /** How often a tweet is written into a user's timeline: as the author, and as a follower. */
  function Owed(g: Followers, t: Tweet, user: string): nat {
    if t.author !in g then 0
    else (if user == t.author then 1 else 0) + (if user in g[t.author] then 1 else 0)
  }

  function TriedTimes(tl: seq<string>, e: Entry, n: nat): seq<string> {
    if n == 0 then tl else Tried(TriedTimes(tl, e, n - 1), e)
  }

  lemma TriedAdds(tl: seq<string>, e: Entry)
    ensures if Blocked(tl) then Tried(tl, e) == tl else |Tried(tl, e)| == |tl| + 1
  {}

  lemma {:induction false} TriedTimesChanges(tl: seq<string>, e: Entry, n: nat)
    ensures |TriedTimes(tl, e, n)| >= |tl|
    ensures TriedTimes(tl, e, n) == tl <==> n == 0 || Blocked(tl)
  {
    if n > 0 {
      TriedTimesChanges(tl, e, n - 1);
      TriedAdds(TriedTimes(tl, e, n - 1), e);
    }
  }

  lemma AllChange(timelines: Timelines, e: Entry)
    ensures forall u, n: nat :: TriedTimes(At(timelines, u), e, n) == At(timelines, u) <==> n == 0 || Blocked(At(timelines, u))
  {
    forall u, n: nat
      ensures TriedTimes(At(timelines, u), e, n) == At(timelines, u) <==> n == 0 || Blocked(At(timelines, u))
    {
      TriedTimesChanges(At(timelines, u), e, n);
    }
  }

  // --- the code, with a pool that runs every task at once --------------------------------

  /** The stores that the command writes: the ids of the stored tweets, and the timelines. */
  class Stores {
    var tweets: set<string>
    const friends: TimelineStore

    constructor ()
      ensures tweets == {} && fresh(friends) && friends.timelines == map[]
    {
      tweets := {};
      friends := new TimelineStore();
    }

    /** The command, when the store answers as given to the put of the tweet; a put of a new version under an
        existing key is always refused. A refused put ends the command. Otherwise, whatever the order of
        the followers, every timeline gets the tweet as often as it is owed, unless it is blocked. So a
        timeline stays as it was exactly when the put is refused, or nothing is owed, or it is blocked. */
    method Execute(g: Followers, t: Tweet, answer: bool) returns (stored: bool)
      modifies this, friends
      ensures stored == (answer && IdOf(t) !in old(tweets))
      ensures tweets == if stored then old(tweets) + {IdOf(t)} else old(tweets)
      ensures forall u :: At(friends.timelines, u) ==
                          TriedTimes(At(old(friends.timelines), u), EntryOf(t), if stored then Owed(g, t, u) else 0)
      ensures forall u :: At(friends.timelines, u) == At(old(friends.timelines), u) <==>
                          !stored || Owed(g, t, u) == 0 || Blocked(At(old(friends.timelines), u))
    {
      AllChange(friends.timelines, EntryOf(t));
      if !answer || IdOf(t) in tweets {
        return false;
      }
      tweets := tweets + {IdOf(t)};
      stored := true;
      if t.author !in g {
        return;
      }
      var rest := g[t.author];
      var ok;
      while rest != {}
        invariant rest <= g[t.author] && tweets == old(tweets) + {IdOf(t)}
        invariant forall u :: At(friends.timelines, u) ==
                              TriedTimes(At(old(friends.timelines), u), EntryOf(t), if u in g[t.author] - rest then 1 else 0)
        decreases rest
      {
        var follower :| follower in rest;
        ok := friends.Insert(follower, EntryOf(t));
        rest := rest - {follower};
      }
      ok := friends.Insert(t.author, EntryOf(t));
    }
  }

  // --- runs: commands and their deliveries take turns ---------------------------------------

  /** One call of updateTimeline; seen is the timeline that its get returned. */
  datatype Delivery = Delivery(user: string, entry: Entry, seen: Option<seq<string>>)

  /** The tweets that have been stored, in order, and the timelines; arrived and lost record how the
      deliveries have ended so far. */
  datatype State = State(
    stored: seq<Tweet>, timelines: Timelines, flying: seq<Delivery>, arrived: seq<Delivery>, lost: seq<Delivery>)

  datatype Event =
    | Execute(t: Tweet, order: seq<string>, accepted: bool)  // the put of the tweet, then the followers in this order
    | Get(k: nat)                                            // a delivery reads its timeline
    | Put(k: nat)                                            // inserts the entry, and writes it back
    | Fail(k: nat)                                           // or fails
    | Crash                                                  // all deliveries on their way are gone

  const START := State([], map[], [], [], [])

  function Fan(order: seq<string>, e: Entry): seq<Delivery> {
    seq(|order|, k requires 0 <= k < |order| => Delivery(order[k], e, None))
  }

  predicate IsStored(stored: seq<Tweet>, id: string) { exists x <- stored :: IdOf(x) == id }

  /** The store may refuse any put, and refuses one under a key that it holds. */
  ghost predicate Enabled(g: Followers, s: State, event: Event) {
    match event
    case Execute(t, order, accepted) =>
      accepted ==> !IsStored(s.stored, IdOf(t)) && (t.author in g ==> IsOrder(order, g[t.author]))
    case Get(k) => k < |s.flying| && s.flying[k].seen.None?
    case Put(k) => k < |s.flying| && s.flying[k].seen.Some?
    case Fail(k) => k < |s.flying|
    case Crash => true
  }

  function Removed(ds: seq<Delivery>, k: nat): seq<Delivery>
    requires k < |ds|
  {
    ds[..k] + ds[k + 1..]
  }

  /** Whether a delivery that has read its timeline gets through: entry 0 can be read, and the timeline has
      not changed since. */
  predicate GetsThrough(timelines: Timelines, d: Delivery)
    requires d.seen.Some?
  {
    !Blocked(d.seen.value) && d.seen.value == At(timelines, d.user)
  }

  function Step(g: Followers, s: State, event: Event): State
    requires Enabled(g, s, event)
  {
    match event
    case Execute(t, order, accepted) =>
      if !accepted then s
      else
        var fan := if t.author in g then Fan(order + [t.author], EntryOf(t)) else [];
        s.(stored := s.stored + [t], flying := s.flying + fan)
    case Get(k) =>
      var d := s.flying[k];
      s.(flying := s.flying[k := d.(seen := Some(At(s.timelines, d.user)))])
    case Put(k) =>
      var d := s.flying[k];
      if GetsThrough(s.timelines, d) then
        s.(timelines := s.timelines[d.user := Tried(d.seen.value, d.entry)], flying := Removed(s.flying, k),
           arrived := s.arrived + [d])
      else
        s.(flying := Removed(s.flying, k), lost := s.lost + [d])
    case Fail(k) => s.(flying := Removed(s.flying, k), lost := s.lost + [s.flying[k]])
    case Crash => s.(flying := [], lost := s.lost + s.flying)
  }

  ghost predicate IsRun(g: Followers, events: seq<Event>)
    decreases |events|, 0
  {
    events == [] ||
    (var n := |events| - 1; IsRun(g, events[..n]) && Enabled(g, After(g, events[..n]), events[n]))
  }

  ghost function After(g: Followers, events: seq<Event>): State
    requires IsRun(g, events)
    decreases |events|, 1
  {
    if events == [] then START
    else var n := |events| - 1; Step(g, After(g, events[..n]), events[n])
  }

  lemma Extend(g: Followers, events: seq<Event>, event: Event)
    requires IsRun(g, events) && Enabled(g, After(g, events), event)
    ensures IsRun(g, events + [event]) && After(g, events + [event]) == Step(g, After(g, events), event)
  {
    assert (events + [event])[..|events|] == events;
  }

  /** What has been recorded stays. */
  lemma {:induction false} HistoryGrows(g: Followers, events: seq<Event>, n: nat)
    requires IsRun(g, events) && n <= |events|
    ensures IsRun(g, events[..n])
    ensures var s, t := After(g, events[..n]), After(g, events);
            s.stored <= t.stored && s.arrived <= t.arrived && s.lost <= t.lost
  {
    if n == |events| {
      assert events[..n] == events;
    } else {
      HistoryGrows(g, events[..|events| - 1], n);
      assert events[..|events| - 1][..n] == events[..n];
    }
  }

  /** The state before and after event n. */
  lemma EventAt(g: Followers, events: seq<Event>, n: nat)
    requires IsRun(g, events) && n < |events|
    ensures IsRun(g, events[..n]) && IsRun(g, events[..n + 1])
    ensures Enabled(g, After(g, events[..n]), events[n])
    ensures After(g, events[..n + 1]) == Step(g, After(g, events[..n]), events[n])
  {
    HistoryGrows(g, events, n);
    HistoryGrows(g, events, n + 1);
    assert events[..n + 1][..n] == events[..n];
  }

  // --- conservation, in every run --------------------------------------------------------------

  /** How many deliveries bring this entry to this user. */
  function Copies(ds: seq<Delivery>, user: string, e: Entry): nat {
    if ds == [] then 0 else Copies(ds[..|ds| - 1], user, e) + Own(ds[|ds| - 1], user, e)
  }

  function Own(d: Delivery, user: string, e: Entry): nat { if d.user == user && d.entry == e then 1 else 0 }

  /** How many copies of an entry the stored tweets owe a user. */
  function Due(g: Followers, tweets: seq<Tweet>, user: string, e: Entry): nat {
    if tweets == [] then 0
    else
      var t := tweets[|tweets| - 1];
      Due(g, tweets[..|tweets| - 1], user, e) + if EntryOf(t) == e then Owed(g, t, user) else 0
  }

  lemma {:induction false} CopiesAppend(a: seq<Delivery>, b: seq<Delivery>, user: string, e: Entry)
    ensures Copies(a + b, user, e) == Copies(a, user, e) + Copies(b, user, e)
  {
    if b == [] {
      assert a + b == a;
    } else {
      CopiesAppend(a, b[..|b| - 1], user, e);
      assert (a + b)[..|a + b| - 1] == a + b[..|b| - 1];
    }
  }

  lemma CopiesOneMore(ds: seq<Delivery>, d: Delivery, user: string, e: Entry)
    ensures Copies(ds + [d], user, e) == Copies(ds, user, e) + Own(d, user, e)
  {
    assert (ds + [d])[..|ds|] == ds;
  }

  lemma CopiesWithout(ds: seq<Delivery>, k: nat, user: string, e: Entry)
    requires k < |ds|
    ensures Copies(ds, user, e) == Copies(Removed(ds, k), user, e) + Own(ds[k], user, e)
  {
    CopiesAppend(ds[..k], ds[k + 1..], user, e);
    CopiesAppend(ds[..k] + [ds[k]], ds[k + 1..], user, e);
    CopiesOneMore(ds[..k], ds[k], user, e);
    assert ds == ds[..k] + [ds[k]] + ds[k + 1..];
  }

  lemma CopiesSeen(ds: seq<Delivery>, k: nat, d: Delivery, user: string, e: Entry)
    requires k < |ds| && d.user == ds[k].user && d.entry == ds[k].entry
    ensures Copies(ds[k := d], user, e) == Copies(ds, user, e)
  {
    CopiesWithout(ds, k, user, e);
    CopiesWithout(ds[k := d], k, user, e);
    assert Removed(ds[k := d], k) == Removed(ds, k);
  }

  lemma CopiesPrefix(a: seq<Delivery>, b: seq<Delivery>, user: string, e: Entry)
    requires a <= b
    ensures Copies(a, user, e) <= Copies(b, user, e)
  {
    CopiesAppend(a, b[|a|..], user, e);
    assert b == a + b[|a|..];
  }

  lemma {:induction false} FanCopies(order: seq<string>, e: Entry, user: string)
    requires Distinct(order)
    ensures Copies(Fan(order, e), user, e) == if user in order then 1 else 0
    ensures forall other :: other != e ==> Copies(Fan(order, e), user, other) == 0
  {
    if order != [] {
      var n := |order| - 1;
      FanCopies(order[..n], e, user);
      assert Fan(order, e)[..n] == Fan(order[..n], e);
      assert order == order[..n] + [order[n]];
    }
  }

  /** What one command sends to one user is what it owes. */
  lemma FanOwed(g: Followers, t: Tweet, order: seq<string>, user: string, e: Entry)
    requires t.author in g && IsOrder(order, g[t.author])
    ensures Copies(Fan(order + [t.author], EntryOf(t)), user, e) == if EntryOf(t) == e then Owed(g, t, user) else 0
  {
    var last := Delivery(t.author, EntryOf(t), None);
    assert Fan(order + [t.author], EntryOf(t)) == Fan(order, EntryOf(t)) + [last];
    FanCopies(order, EntryOf(t), user);
    CopiesOneMore(Fan(order, EntryOf(t)), last, user, e);
  }

  lemma DueOneMore(g: Followers, tweets: seq<Tweet>, t: Tweet, user: string, e: Entry)
    ensures Due(g, tweets + [t], user, e) == Due(g, tweets, user, e) + if EntryOf(t) == e then Owed(g, t, user) else 0
  {
    assert (tweets + [t])[..|tweets|] == tweets;
  }

  ghost predicate Conserves(g: Followers, s: State, user: string, e: Entry) {
    && multiset(At(s.timelines, user))[Encode(e)] == Copies(s.arrived, user, e)
    && Copies(s.arrived, user, e) + Copies(s.flying, user, e) + Copies(s.lost, user, e) == Due(g, s.stored, user, e)
  }

  lemma ExecuteConserves(g: Followers, s: State, event: Event, user: string, e: Entry)
    requires event.Execute? && Enabled(g, s, event) && Conserves(g, s, user, e)
    ensures Conserves(g, Step(g, s, event), user, e)
  {
    var t := event.t;
    if event.accepted {
      DueOneMore(g, s.stored, t, user, e);
      if t.author in g {
        CopiesAppend(s.flying, Fan(event.order + [t.author], EntryOf(t)), user, e);
        FanOwed(g, t, event.order, user, e);
      } else {
        assert s.flying + [] == s.flying;
      }
    }
  }

  lemma TriedCounts(tl: seq<string>, d: Entry, e: Entry)
    requires !Blocked(tl)
    ensures multiset(Tried(tl, d))[Encode(e)] == multiset(tl)[Encode(e)] + if d == e then 1 else 0
  {
    InsertAdds(tl, d);
    EncodeInjective(d, e);
  }

  lemma PutConserves(g: Followers, s: State, k: nat, user: string, e: Entry)
    requires Enabled(g, s, Put(k)) && Conserves(g, s, user, e)
    ensures Conserves(g, Step(g, s, Put(k)), user, e)
  {
    var d := s.flying[k];
    CopiesWithout(s.flying, k, user, e);
    if GetsThrough(s.timelines, d) {
      CopiesOneMore(s.arrived, d, user, e);
      TriedCounts(d.seen.value, d.entry, e);
      PutCounts(s.timelines, d, user, e);
    } else {
      CopiesOneMore(s.lost, d, user, e);
    }
  }

  lemma PutCounts(timelines: Timelines, d: Delivery, user: string, e: Entry)
    requires d.seen.Some? && GetsThrough(timelines, d)
    requires multiset(Tried(d.seen.value, d.entry))[Encode(e)] ==
             multiset(d.seen.value)[Encode(e)] + if d.entry == e then 1 else 0
    ensures multiset(At(timelines[d.user := Tried(d.seen.value, d.entry)], user))[Encode(e)] ==
            multiset(At(timelines, user))[Encode(e)] + Own(d, user, e)
  {}

  lemma StepConserves(g: Followers, s: State, event: Event, user: string, e: Entry)
    requires Enabled(g, s, event) && Conserves(g, s, user, e)
    ensures Conserves(g, Step(g, s, event), user, e)
  {
    match event
    case Execute(_, _, _) => ExecuteConserves(g, s, event, user, e);
    case Get(k) => CopiesSeen(s.flying, k, Step(g, s, event).flying[k], user, e);
    case Put(k) => PutConserves(g, s, k, user, e);
    case Fail(k) =>
      CopiesWithout(s.flying, k, user, e);
      CopiesOneMore(s.lost, s.flying[k], user, e);
    case Crash => CopiesAppend(s.lost, s.flying, user, e);
  }

  lemma {:induction false} RunConserves(g: Followers, events: seq<Event>, user: string, e: Entry)
    requires IsRun(g, events)
    ensures Conserves(g, After(g, events), user, e)
  {
    if events != [] {
      var n := |events| - 1;
      RunConserves(g, events[..n], user, e);
      StepConserves(g, After(g, events[..n]), events[n], user, e);
    }
  }

  /** In every run, whatever overlaps, fails or crashes, and whatever the names: the copies of an entry in a
      timeline, on their way to it, and lost add up to what the stored tweets owe. */
  lemma Conservation(g: Followers, events: seq<Event>, user: string, e: Entry)
    requires IsRun(g, events)
    ensures var s := After(g, events);
            multiset(At(s.timelines, user))[Encode(e)] + Copies(s.flying, user, e) + Copies(s.lost, user, e)
            == Due(g, s.stored, user, e)
  {
    RunConserves(g, events, user, e);
  }

  // --- every tweet is fanned out once -----------------------------------------------------------------

  ghost predicate DistinctIds(tweets: seq<Tweet>) {
    forall i, j :: 0 <= i < j < |tweets| ==> IdOf(tweets[i]) != IdOf(tweets[j])
  }

  lemma {:induction false} RunDistinct(g: Followers, events: seq<Event>)
    requires IsRun(g, events)
    ensures DistinctIds(After(g, events).stored)
  {
    if events != [] {
      var n := |events| - 1;
      RunDistinct(g, events[..n]);
      var s := After(g, events[..n]);
      assert forall i :: 0 <= i < |s.stored| ==> s.stored[i] in s.stored;
    }
  }

  lemma {:induction false} DueAbsent(g: Followers, tweets: seq<Tweet>, t: Tweet, user: string)
    requires !IsStored(tweets, IdOf(t))
    ensures Due(g, tweets, user, EntryOf(t)) == 0
  {
    if tweets != [] {
      var n := |tweets| - 1;
      assert tweets[n] in tweets;
      assert forall x <- tweets[..n] :: x in tweets;
      DueAbsent(g, tweets[..n], t, user);
    }
  }

  lemma LastIdNew(tweets: seq<Tweet>, n: nat)
    requires DistinctIds(tweets) && n == |tweets| - 1
    ensures DistinctIds(tweets[..n]) && !IsStored(tweets[..n], IdOf(tweets[n]))
  {}

  lemma {:induction false} DueOnce(g: Followers, tweets: seq<Tweet>, t: Tweet, user: string)
    requires DistinctIds(tweets) && t in tweets
    ensures Due(g, tweets, user, EntryOf(t)) == Owed(g, t, user)
  {
    var n := |tweets| - 1;
    var front, last := tweets[..n], tweets[n];
    assert tweets == front + [last];
    LastIdNew(tweets, n);
    DueOneMore(g, front, last, user, EntryOf(t));
    if last == t {
      DueAbsent(g, front, t, user);
    } else {
      assert t in front;
      assert IdOf(t) != IdOf(last);
      DueOnce(g, front, t, user);
    }
  }

  /** In every run a stored tweet has been fanned out once: its copies in a timeline, on their way, and lost
      are as many as one execution owes, however often the command was executed. */
  lemma FannedOutOnce(g: Followers, events: seq<Event>, t: Tweet, user: string)
    requires IsRun(g, events)
    ensures var s := After(g, events);
            multiset(At(s.timelines, user))[Encode(EntryOf(t))] + Copies(s.flying, user, EntryOf(t))
            + Copies(s.lost, user, EntryOf(t))
            == if t in s.stored then Owed(g, t, user) else Due(g, s.stored, user, EntryOf(t))
    ensures !IsStored(After(g, events).stored, IdOf(t)) ==> Due(g, After(g, events).stored, user, EntryOf(t)) == 0
  {
    Conservation(g, events, user, EntryOf(t));
    RunDistinct(g, events);
    if t in After(g, events).stored {
      DueOnce(g, After(g, events).stored, t, user);
    }
    if !IsStored(After(g, events).stored, IdOf(t)) {
      DueAbsent(g, After(g, events).stored, t, user);
    }
  }

  /** An execution that finds its tweet stored is refused and does nothing. */
  lemma ReplayRefused(g: Followers, events: seq<Event>, n: nat)
    requires IsRun(g, events) && n < |events| && events[n].Execute?
    requires IsRun(g, events[..n]) && IsRun(g, events[..n + 1])
    requires IsStored(After(g, events[..n]).stored, IdOf(events[n].t))
    ensures !events[n].accepted && After(g, events[..n + 1]) == After(g, events[..n])
  {
    EventAt(g, events, n);
  }

  /** A crash right behind the put of the tweet loses all that is owed. */
  lemma CrashLoses(g: Followers, events: seq<Event>, n: nat, user: string)
    requires IsRun(g, events) && n + 2 == |events|
    requires events[n].Execute? && events[n].accepted && events[n + 1] == Crash
    ensures var t, s := events[n].t, After(g, events);
            t in s.stored && Copies(s.lost, user, EntryOf(t)) == Owed(g, t, user)
  {
    EventAt(g, events, n);
    EventAt(g, events, n + 1);
    assert events[..n + 2] == events;
    assert After(g, events).timelines == After(g, events[..n]).timelines && After(g, events).flying == [];
    FannedOutOnce(g, events[..n], events[n].t, user);
    FannedOutOnce(g, events, events[n].t, user);
  }

  /** A crash between the put of the tweet and its deliveries is final: in no continuation, whatever
      replays it holds, does the tweet get into any timeline. */
  lemma CrashIsFinal(g: Followers, events: seq<Event>, n: nat, user: string)
    requires IsRun(g, events) && n + 2 <= |events|
    requires events[n].Execute? && events[n].accepted && events[n + 1] == Crash
    ensures Encode(EntryOf(events[n].t)) !in At(After(g, events).timelines, user)
  {
    var t := events[n].t;
    HistoryGrows(g, events, n + 2);
    CrashLoses(g, events[..n + 2], n, user);
    CopiesPrefix(After(g, events[..n + 2]).lost, After(g, events).lost, user, EntryOf(t));
    FannedOutOnce(g, events, t, user);
  }

  /** Such a run: the tweet is stored, the machine dies, and the replay is refused. */
  lemma CrashAndReplay(g: Followers, t: Tweet, order: seq<string>) returns (events: seq<Event>)
    requires t.author in g && IsOrder(order, g[t.author])
    ensures events == [Execute(t, order, true), Crash, Execute(t, order, false)]
    ensures IsRun(g, events) && After(g, events).stored == [t] && After(g, events).flying == []
    ensures After(g, events).timelines == map[]
  {
    var e1, e2, e3 := Execute(t, order, true), Crash, Execute(t, order, false);
    assert [] + [e1] == [e1] && [e1] + [e2] == [e1, e2] && [e1, e2] + [e3] == [e1, e2, e3];
    Extend(g, [], e1);
    Extend(g, [e1], e2);
    Extend(g, [e1, e2], e3);
    events := [e1, e2, e3];
  }

  // --- what one execution changes --------------------------------------------------------------------

  /** The entries of the deliveries to one user. */
  function For(ds: seq<Delivery>, user: string): seq<Entry> {
    if ds == [] then []
    else
      var front := For(ds[..|ds| - 1], user);
      if ds[|ds| - 1].user == user then front + [ds[|ds| - 1].entry] else front
  }

  lemma {:induction false} CopiesFor(ds: seq<Delivery>, user: string, e: Entry)
    ensures multiset(For(ds, user))[e] == Copies(ds, user, e)
  {
    if ds != [] {
      CopiesFor(ds[..|ds| - 1], user, e);
    }
  }

  lemma {:induction false} ForAppend(a: seq<Delivery>, b: seq<Delivery>, user: string)
    ensures For(a + b, user) == For(a, user) + For(b, user)
  {
    if b == [] {
      assert a + b == a;
    } else {
      ForAppend(a, b[..|b| - 1], user);
      assert (a + b)[..|a + b| - 1] == a + b[..|b| - 1];
    }
  }

  lemma ForOneMore(ds: seq<Delivery>, d: Delivery, user: string)
    ensures For(ds + [d], user) == if d.user == user then For(ds, user) + [d.entry] else For(ds, user)
  {
    assert (ds + [d])[..|ds|] == ds;
  }

  lemma ArriveOneMore(arrivals: seq<Entry>, e: Entry)
    ensures ArriveText([], arrivals + [e]) == Tried(ArriveText([], arrivals), e)
  {
    assert (arrivals + [e])[..|arrivals|] == arrivals;
  }

  ghost predicate Arrived(s: State, user: string) {
    At(s.timelines, user) == ArriveText([], For(s.arrived, user))
  }

  lemma PutSets(g: Followers, s: State, k: nat, user: string)
    requires Enabled(g, s, Put(k)) && GetsThrough(s.timelines, s.flying[k])
    ensures var d, s' := s.flying[k], Step(g, s, Put(k));
            && s'.arrived == s.arrived + [d]
            && At(s'.timelines, user) == if d.user == user then Tried(At(s.timelines, user), d.entry) else At(s.timelines, user)
  {}

  lemma PutArrives(g: Followers, s: State, k: nat, user: string)
    requires Enabled(g, s, Put(k)) && Arrived(s, user)
    ensures Arrived(Step(g, s, Put(k)), user)
  {
    var d := s.flying[k];
    if GetsThrough(s.timelines, d) {
      PutSets(g, s, k, user);
      ForOneMore(s.arrived, d, user);
      ArriveOneMore(For(s.arrived, user), d.entry);
    }
  }

  lemma StepArrives(g: Followers, s: State, event: Event, user: string)
    requires Enabled(g, s, event) && Arrived(s, user)
    ensures Arrived(Step(g, s, event), user)
  {
    if event.Put? {
      PutArrives(g, s, event.k, user);
    }
  }

  /** A timeline is what insertTweet makes of the tweets that have arrived. */
  lemma {:induction false} RunArrives(g: Followers, events: seq<Event>, user: string)
    requires IsRun(g, events)
    ensures Arrived(After(g, events), user)
  {
    if events != [] {
      var n := |events| - 1;
      RunArrives(g, events[..n], user);
      StepArrives(g, After(g, events[..n]), events[n], user);
    }
  }

  /** No new copies, no new entries. */
  lemma SameCopies(a: seq<Delivery>, b: seq<Delivery>, user: string)
    requires a <= b && forall e :: Copies(a, user, e) == Copies(b, user, e)
    ensures For(a, user) == For(b, user)
  {
    var more := b[|a|..];
    assert b == a + more;
    ForAppend(a, more, user);
    if For(more, user) != [] {
      var e := For(more, user)[0];
      CopiesFor(more, user, e);
      assert e in multiset(For(more, user));
      CopiesAppend(a, more, user, e);
    }
  }

  /** From the state before an execution to a later one, nothing is on its way in either, nothing has been
      lost and no other tweet has been stored in between. */
  ghost predicate OnlyThis(g: Followers, events: seq<Event>, n: nat)
    requires IsRun(g, events) && n < |events| && IsRun(g, events[..n]) && IsRun(g, events[..n + 1])
  {
    var s, t := After(g, events[..n]), After(g, events);
    && events[n].Execute? && s.flying == [] && t.flying == [] && t.lost == s.lost
    && t.stored == After(g, events[..n + 1]).stored
  }

  lemma CopiesBetween(g: Followers, events: seq<Event>, n: nat, user: string, e: Entry)
    requires IsRun(g, events) && n < |events| && IsRun(g, events[..n]) && IsRun(g, events[..n + 1])
    requires OnlyThis(g, events, n)
    ensures var t := events[n].t;
            Copies(After(g, events).arrived, user, e) == Copies(After(g, events[..n]).arrived, user, e)
              + if events[n].accepted && EntryOf(t) == e then Owed(g, t, user) else 0
  {
    EventAt(g, events, n);
    RunConserves(g, events[..n], user, e);
    RunConserves(g, events, user, e);
    DueOneMore(g, After(g, events[..n]).stored, events[n].t, user, e);
  }

  /** In every run, once the deliveries of an execution are through: a timeline is as it was exactly when
      the put of the tweet was refused or the command owes that user nothing. */
  lemma ExecutionExact(g: Followers, events: seq<Event>, n: nat, user: string)
    requires IsRun(g, events) && n < |events| && IsRun(g, events[..n]) && IsRun(g, events[..n + 1])
    requires OnlyThis(g, events, n)
    ensures At(After(g, events).timelines, user) == At(After(g, events[..n]).timelines, user) <==>
            !events[n].accepted || Owed(g, events[n].t, user) == 0
  {
    var s, s' := After(g, events[..n]), After(g, events);
    var t := events[n].t;
    forall e
      ensures Copies(s'.arrived, user, e) == Copies(s.arrived, user, e)
                + if events[n].accepted && EntryOf(t) == e then Owed(g, t, user) else 0
    {
      CopiesBetween(g, events, n, user, e);
    }
    if !events[n].accepted || Owed(g, t, user) == 0 {
      HistoryGrows(g, events, n);
      SameCopies(s.arrived, s'.arrived, user);
      RunArrives(g, events[..n], user);
      RunArrives(g, events, user);
    } else {
      RunConserves(g, events[..n], user, EntryOf(t));
      RunConserves(g, events, user, EntryOf(t));
    }
  }

  /** Nobody's timeline has changed. */
  ghost predicate SameTimelines(a: Timelines, b: Timelines) { forall u :: At(a, u) == At(b, u) }

  /** So the command leaves all timelines as they were exactly when the put of the tweet is refused or the
      author is missing. */
  lemma WithoutEffectExactly(g: Followers, events: seq<Event>, n: nat)
    requires IsRun(g, events) && n < |events| && IsRun(g, events[..n]) && IsRun(g, events[..n + 1])
    requires OnlyThis(g, events, n)
    ensures SameTimelines(After(g, events).timelines, After(g, events[..n]).timelines) <==>
            !events[n].accepted || events[n].t.author !in g
  {
    var t := events[n].t;
    SomeoneOwed(g, t);
    forall u
      ensures At(After(g, events).timelines, u) == At(After(g, events[..n]).timelines, u) <==>
              !events[n].accepted || Owed(g, t, u) == 0
    {
      ExecutionExact(g, events, n, u);
    }
    ExecutionExact(g, events, n, t.author);
  }

  lemma SomeoneOwed(g: Followers, t: Tweet)
    ensures t.author in g <==> Owed(g, t, t.author) > 0
    ensures t.author !in g ==> forall u :: Owed(g, t, u) == 0
  {}
}
