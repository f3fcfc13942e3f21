/** What the timelines hold after runs of tweet commands: when they are in order, when they are what a
    query would give, and what names with a colon do to them. */
module FanOutQuery {
  import opened Wrappers
  import opened Entries
  import opened Timeline
  import opened EntryTimeline
  import opened UserSets
  import opened FanOut
  import Decimal
  import JavaStrings

  // --- order --------------------------------------------------------------------------------------------

  /** The tweet is by the user, or by someone whom the user follows. */
  predicate Sees(g: Followers, t: Tweet, user: string) {
    t.author in g && (user == t.author || user in g[t.author])
  }

  /** No tweet that the user sees is by an author with a colon in the name. */
  ghost predicate SeesPlainNames(g: Followers, tweets: seq<Tweet>, user: string) {
    forall t <- tweets :: Sees(g, t, user) ==> ':' !in t.author
  }

  lemma {:induction false} DueFrom(g: Followers, tweets: seq<Tweet>, user: string, e: Entry)
    requires Due(g, tweets, user, e) > 0
    ensures exists t <- tweets :: Sees(g, t, user) && EntryOf(t) == e
  {
    var n := |tweets| - 1;
    assert tweets == tweets[..n] + [tweets[n]];
    if EntryOf(tweets[n]) != e || Owed(g, tweets[n], user) == 0 {
      DueFrom(g, tweets[..n], user, e);
    }
  }

  lemma ArrivedPlain(g: Followers, events: seq<Event>, user: string)
    requires IsRun(g, events) && SeesPlainNames(g, After(g, events).stored, user)
    ensures ColonFree(For(After(g, events).arrived, user))
  {
    var s := After(g, events);
    forall e | e in For(s.arrived, user)
      ensures ':' !in e.id
    {
      assert e in multiset(For(s.arrived, user));
      CopiesFor(s.arrived, user, e);
      RunConserves(g, events, user, e);
      DueFrom(g, s.stored, user, e);
      var t :| t in s.stored && Sees(g, t, user) && EntryOf(t) == e;
      IdPieces(t.author, t.index);
    }
  }

  /** In every run the timeline of a user who sees no names with a colon reads newest-first exactly when
      each of its tweets arrived newer than all the earlier ones or not newer than any. */
  lemma OrderInRuns(g: Followers, events: seq<Event>, user: string)
    requires IsRun(g, events) && SeesPlainNames(g, After(g, events).stored, user)
    ensures var s := After(g, events); ReadNewestFirst(At(s.timelines, user)) <==> AllFit(For(s.arrived, user))
  {
    RunArrives(g, events, user);
    ArrivedPlain(g, events, user);
    StoredOrderExact(For(After(g, events).arrived, user));
  }

  // --- fan-out when writing is a query when reading -------------------------------------------------

  /** All tweets that the user sees, the last one first. */
  function Query(g: Followers, tweets: seq<Tweet>, user: string): seq<Entry> {
    if tweets == [] then []
    else
      var n := |tweets| - 1;
      if Sees(g, tweets[n], user) then [EntryOf(tweets[n])] + Query(g, tweets[..n], user)
      else Query(g, tweets[..n], user)
  }

  ghost predicate Increasing(tweets: seq<Tweet>) {
    forall i, j :: 0 <= i < j < |tweets| ==> tweets[i].date < tweets[j].date
  }

  /** Nothing fails, and every command has finished its deliveries before the next one starts or the machine
      stops. */
  ghost predicate OneAtATime(g: Followers, events: seq<Event>)
    requires IsRun(g, events)
  {
    events == [] ||
    (var n := |events| - 1;
     && OneAtATime(g, events[..n]) && !events[n].Fail?
     && (events[n].Execute? || events[n].Crash? ==> After(g, events[..n]).flying == []))
  }

  ghost predicate OnItsWay(s: State, user: string) {
    exists k :: 0 <= k < |s.flying| && s.flying[k].user == user
  }

  /** All deliveries on their way are of the last tweet, to different users whose timelines have not
      changed since. */
  ghost predicate Calm(s: State) {
    && (forall i, j :: 0 <= i < j < |s.flying| ==> s.flying[i].user != s.flying[j].user)
    && forall k :: 0 <= k < |s.flying| ==>
         var d := s.flying[k];
         && s.stored != [] && d.entry == EntryOf(s.stored[|s.stored| - 1])
         && (d.seen.Some? ==> d.seen.value == At(s.timelines, d.user))
  }

  ghost predicate Agrees(g: Followers, s: State, user: string) {
    if OnItsWay(s, user) then
      var n := |s.stored| - 1;
      n >= 0 && Sees(g, s.stored[n], user) && At(s.timelines, user) == Texts(Query(g, s.stored[..n], user))
    else At(s.timelines, user) == Texts(Query(g, s.stored, user))
  }

  lemma {:induction false} QueryDates(g: Followers, tweets: seq<Tweet>, user: string, date: int)
    requires forall t <- tweets :: t.date < date
    ensures forall e <- Query(g, tweets, user) :: e.date < date
  {
    if tweets != [] {
      QueryDates(g, tweets[..|tweets| - 1], user, date);
    }
  }

  lemma {:induction false} QueryPlain(g: Followers, tweets: seq<Tweet>, user: string)
    requires SeesPlainNames(g, tweets, user)
    ensures ColonFree(Query(g, tweets, user))
  {
    if tweets != [] {
      var n := |tweets| - 1;
      assert forall x <- tweets[..n] :: x in tweets;
      QueryPlain(g, tweets[..n], user);
      IdPieces(tweets[n].author, tweets[n].index);
    }
  }

  lemma FanOnItsWay(s: State, all: seq<string>, e: Entry, user: string)
    requires s.flying == Fan(all, e)
    ensures OnItsWay(s, user) <==> user in all
  {
    if user in all {
      var k :| 0 <= k < |all| && all[k] == user;
      assert s.flying[k].user == user;
    }
  }

  lemma FanCalm(s: State, all: seq<string>)
    requires s.stored != [] && s.flying == Fan(all, EntryOf(s.stored[|s.stored| - 1])) && Distinct(all)
    ensures Calm(s)
  {}

  lemma FanAgrees(g: Followers, s: State, s': State, t: Tweet, all: seq<string>, user: string)
    requires s.flying == [] && Agrees(g, s, user)
    requires s'.timelines == s.timelines && s'.stored == s.stored + [t] && s'.flying == Fan(all, EntryOf(t))
    requires user in all <==> Sees(g, t, user)
    ensures Agrees(g, s', user)
  {
    assert !OnItsWay(s, user);
    assert s'.stored[..|s.stored|] == s.stored;
    FanOnItsWay(s', all, EntryOf(t), user);
  }

  lemma ExecuteAgrees(g: Followers, s: State, event: Event, user: string)
    requires event.Execute? && event.accepted && Enabled(g, s, event) && s.flying == [] && Agrees(g, s, user)
    requires forall a <- g :: a !in g[a]
    ensures Calm(Step(g, s, event)) && Agrees(g, Step(g, s, event), user)
  {
    var s', t := Step(g, s, event), event.t;
    var all := Receivers(g, event);
    ExecuteFlies(g, s, event);
    FanCalm(s', all);
    FanAgrees(g, s, s', t, all, user);
  }

  function Receivers(g: Followers, event: Event): seq<string>
    requires event.Execute?
  {
    if event.t.author in g then event.order + [event.t.author] else []
  }

  lemma ExecuteFlies(g: Followers, s: State, event: Event)
    requires event.Execute? && event.accepted && Enabled(g, s, event) && s.flying == []
    requires forall a <- g :: a !in g[a]
    ensures var s', all := Step(g, s, event), Receivers(g, event);
            && s'.flying == Fan(all, EntryOf(event.t)) && s'.stored == s.stored + [event.t]
            && s'.timelines == s.timelines && Distinct(all)
            && forall user :: user in all <==> Sees(g, event.t, user)
  {
    var fan := Fan(Receivers(g, event), EntryOf(event.t));
    assert [] + fan == fan;
  }

  lemma GetAgrees(g: Followers, s: State, k: nat, user: string)
    requires Enabled(g, s, Get(k)) && Calm(s) && Agrees(g, s, user)
    ensures Calm(Step(g, s, Get(k))) && Agrees(g, Step(g, s, Get(k)), user)
  {
    var s' := Step(g, s, Get(k));
    assert forall i :: 0 <= i < |s.flying| ==> s'.flying[i].user == s.flying[i].user;
  }

  lemma RemovedAt(ds: seq<Delivery>, k: nat, i: nat)
    requires k < |ds| && i < |ds| - 1
    ensures Removed(ds, k)[i] == ds[if i < k then i else i + 1]
  {}

  lemma PutCalm(g: Followers, s: State, k: nat)
    requires Enabled(g, s, Put(k)) && Calm(s)
    ensures Calm(Step(g, s, Put(k)))
    ensures !OnItsWay(Step(g, s, Put(k)), s.flying[k].user)
  {
    var s' := Step(g, s, Put(k));
    assert s'.flying == Removed(s.flying, k);
    forall i | 0 <= i < |s'.flying|
      ensures s'.flying[i] == s.flying[if i < k then i else i + 1]
    {
      RemovedAt(s.flying, k, i);
    }
  }

  lemma PutOtherUser(g: Followers, s: State, k: nat, user: string)
    requires Enabled(g, s, Put(k)) && Calm(s) && s.flying[k].user != user
    ensures OnItsWay(Step(g, s, Put(k)), user) <==> OnItsWay(s, user)
  {
    var s' := Step(g, s, Put(k));
    assert s'.flying == Removed(s.flying, k);
    if OnItsWay(s, user) {
      var i :| 0 <= i < |s.flying| && s.flying[i].user == user;
      RemovedAt(s.flying, k, if i < k then i else i - 1);
    }
    if OnItsWay(s', user) {
      var i :| 0 <= i < |s'.flying| && s'.flying[i].user == user;
      RemovedAt(s.flying, k, i);
    }
  }

  /** A tweet newer than the whole timeline goes to the front of the strings. */
  lemma NewestInFront(es: seq<Entry>, e: Entry)
    requires ColonFree(es) && forall x <- es :: x.date < e.date
    ensures !Blocked(Texts(es)) && Tried(Texts(es), e) == Texts([e] + es)
  {
    InsertTextIs(es, e);
    InsertAdds(Texts(es), e);
    if es == [] {
      assert es + [e] == [e] + es;
    } else {
      assert es[0] in es;
      assert Insert(es, e) == [e] + es;
    }
  }

  lemma PutAgrees(g: Followers, s: State, k: nat, user: string)
    requires Enabled(g, s, Put(k)) && Calm(s) && Agrees(g, s, user)
    requires Increasing(s.stored) && SeesPlainNames(g, s.stored, user)
    ensures Calm(Step(g, s, Put(k))) && Agrees(g, Step(g, s, Put(k)), user)
  {
    PutCalm(g, s, k);
    PutFields(g, s, k, user);
    if s.flying[k].user == user {
      PutForUser(g, s, k, user);
    } else {
      PutOtherUser(g, s, k, user);
    }
  }

  lemma PutFields(g: Followers, s: State, k: nat, user: string)
    requires Enabled(g, s, Put(k))
    ensures Step(g, s, Put(k)).stored == s.stored
    ensures s.flying[k].user != user ==> At(Step(g, s, Put(k)).timelines, user) == At(s.timelines, user)
  {}

  lemma QueryFront(g: Followers, tweets: seq<Tweet>, user: string)
    requires tweets != [] && Increasing(tweets) && SeesPlainNames(g, tweets, user)
    ensures var n := |tweets| - 1;
            var front := Query(g, tweets[..n], user);
            !Blocked(Texts(front)) && Tried(Texts(front), EntryOf(tweets[n])) == Texts([EntryOf(tweets[n])] + front)
  {
    var n := |tweets| - 1;
    assert forall x <- tweets[..n] :: x in tweets;
    QueryPlain(g, tweets[..n], user);
    QueryDates(g, tweets[..n], user, tweets[n].date);
    NewestInFront(Query(g, tweets[..n], user), EntryOf(tweets[n]));
  }

  lemma PutForUser(g: Followers, s: State, k: nat, user: string)
    requires Enabled(g, s, Put(k)) && Calm(s) && Agrees(g, s, user) && s.flying[k].user == user
    requires Increasing(s.stored) && SeesPlainNames(g, s.stored, user)
    ensures At(Step(g, s, Put(k)).timelines, user) == Texts(Query(g, s.stored, user))
  {
    var d, n := s.flying[k], |s.stored| - 1;
    assert OnItsWay(s, user);
    QueryFront(g, s.stored, user);
    assert d.entry == EntryOf(s.stored[n]) && d.seen.value == Texts(Query(g, s.stored[..n], user));
    assert GetsThrough(s.timelines, d);
  }

  lemma FewerPlain(g: Followers, a: seq<Tweet>, b: seq<Tweet>, user: string)
    requires a <= b
    ensures SeesPlainNames(g, b, user) ==> SeesPlainNames(g, a, user)
    ensures Increasing(b) ==> Increasing(a)
  {
    assert forall x <- a :: x in b;
  }

  lemma {:induction false} RunAgrees(g: Followers, events: seq<Event>, user: string)
    requires IsRun(g, events) && OneAtATime(g, events) && Increasing(After(g, events).stored)
    requires SeesPlainNames(g, After(g, events).stored, user) && forall a <- g :: a !in g[a]
    ensures Calm(After(g, events)) && Agrees(g, After(g, events), user)
  {
    if events != [] {
      var n := |events| - 1;
      var s := After(g, events[..n]);
      FewerPlain(g, s.stored, After(g, events).stored, user);
      RunAgrees(g, events[..n], user);
      match events[n]
      case Execute(t, order, accepted) => if accepted { ExecuteAgrees(g, s, events[n], user); }
      case Get(k) => GetAgrees(g, s, k, user);
      case Put(k) => PutAgrees(g, s, k, user);
      case Fail(k) => assert false;
      case Crash =>
    } else {
      assert Texts([]) == [];
    }
  }

  lemma {:induction false} QueryExact(g: Followers, tweets: seq<Tweet>, user: string, e: Entry)
    requires Increasing(tweets)
    ensures StrictlyFalling(Query(g, tweets, user))
    ensures e in Query(g, tweets, user) <==> exists t <- tweets :: Sees(g, t, user) && EntryOf(t) == e
  {
    if tweets != [] {
      var n := |tweets| - 1;
      QueryExact(g, tweets[..n], user, e);
      QueryDates(g, tweets[..n], user, tweets[n].date);
      assert tweets == tweets[..n] + [tweets[n]];
    }
  }

  ghost predicate StrictlyFalling(tl: seq<Entry>) {
    forall i, j :: 0 <= i < j < |tl| ==> tl[i].date > tl[j].date
  }

  /** With nobody following themselves, tweets in the order of their dates, no colon in the names that the user
      sees, and commands that neither overlap nor fail, writing every tweet into every follower's timeline is
      as good as a query: once the deliveries are through, in whatever order, the stored timeline is the
      list of all tweets by that user and those they follow, each once, strictly newest first. */
  lemma FanOutIsQuery(g: Followers, events: seq<Event>, user: string)
    requires forall a <- g :: a !in g[a]
    requires IsRun(g, events) && OneAtATime(g, events) && Increasing(After(g, events).stored)
    requires SeesPlainNames(g, After(g, events).stored, user) && After(g, events).flying == []
    ensures var query := Query(g, After(g, events).stored, user);
            && At(After(g, events).timelines, user) == Texts(query)
            && (forall e :: e in query <==> exists t <- After(g, events).stored :: Sees(g, t, user) && EntryOf(t) == e)
            && StrictlyFalling(query)
  {
    RunAgrees(g, events, user);
    forall e
      ensures e in Query(g, After(g, events).stored, user) <==>
              exists t <- After(g, events).stored :: Sees(g, t, user) && EntryOf(t) == e
    {
      QueryExact(g, After(g, events).stored, user, e);
    }
    QueryExact(g, After(g, events).stored, user, Entry("", 0));
  }

  // --- the same for every schedule --------------------------------------------------------------------

  lemma {:induction false} QueryCounts(g: Followers, tweets: seq<Tweet>, user: string, e: Entry)
    requires forall a <- g :: a !in g[a]
    ensures multiset(Query(g, tweets, user))[e] == Due(g, tweets, user, e)
  {
    if tweets != [] {
      QueryCounts(g, tweets[..|tweets| - 1], user, e);
    }
  }

  lemma SameHead(a: seq<Entry>, b: seq<Entry>)
    requires multiset(a) == multiset(b) && a != [] && b != [] && NewestFirst(a) && StrictlyFalling(b)
    ensures a[0] == b[0]
  {
    SameElements(a, b, a[0]);
    SameElements(a, b, b[0]);
    var i :| 0 <= i < |a| && a[i] == b[0];
    var j :| 0 <= j < |b| && b[j] == a[0];
  }

  lemma {:induction false} OrderDecides(a: seq<Entry>, b: seq<Entry>)
    requires multiset(a) == multiset(b) && NewestFirst(a) && StrictlyFalling(b)
    ensures a == b
  {
    assert |multiset(a)| == |a| && |multiset(b)| == |b|;
    if a != [] {
      SameHead(a, b);
      assert a == [a[0]] + a[1..] && b == [b[0]] + b[1..];
      assert multiset(a[1..]) == multiset(a) - multiset{a[0]};
      assert multiset(b[1..]) == multiset(b) - multiset{b[0]};
      OrderDecides(a[1..], b[1..]);
    }
  }

  lemma LostForNobody(lost: seq<Delivery>, user: string)
    ensures For(lost, user) == [] <==> forall e :: Copies(lost, user, e) == 0
  {
    forall e
      ensures multiset(For(lost, user))[e] == Copies(lost, user, e)
    {
      CopiesFor(lost, user, e);
    }
    if For(lost, user) != [] {
      var e := For(lost, user)[0];
      assert e in multiset(For(lost, user));
      CopiesFor(lost, user, e);
    }
  }

  lemma AgreesExactly(tl: seq<Entry>, query: seq<Entry>, lost: seq<Delivery>, user: string)
    requires StrictlyFalling(query)
    requires forall e :: multiset(tl)[e] + Copies(lost, user, e) == multiset(query)[e]
    ensures tl == query <==> For(lost, user) == [] && NewestFirst(tl)
  {
    LostForNobody(lost, user);
    if tl == query {
      assert forall e :: multiset(tl)[e] == multiset(query)[e];
    } else if For(lost, user) == [] && NewestFirst(tl) {
      assert multiset(tl) == multiset(query);
      OrderDecides(tl, query);
    }
  }

  lemma SameTexts(a: seq<Entry>, b: seq<Entry>)
    ensures Texts(a) == Texts(b) <==> a == b
  {
    if Texts(a) == Texts(b) {
      assert |a| == |Texts(a)| == |b|;
      forall i | 0 <= i < |a|
        ensures a[i] == b[i]
      {
        assert Texts(a)[i] == Texts(b)[i];
        EncodeInjective(a[i], b[i]);
      }
    }
  }

  /** However commands and deliveries overlap, fail or crash: with nobody following themselves, tweets in the
      order of their dates and no colon in the names that the user sees, once nothing is on its way, the
      stored timeline is the query exactly when nothing for that user was lost and every tweet arrived
      newer than all the earlier ones or than none. */
  lemma FanOutExact(g: Followers, events: seq<Event>, user: string)
    requires forall a <- g :: a !in g[a]
    requires IsRun(g, events) && Increasing(After(g, events).stored) && After(g, events).flying == []
    requires SeesPlainNames(g, After(g, events).stored, user)
    ensures var s := After(g, events);
            At(s.timelines, user) == Texts(Query(g, s.stored, user))
            <==> For(s.lost, user) == [] && AllFit(For(s.arrived, user))
  {
    var s := After(g, events);
    var arrivals := For(s.arrived, user);
    ArrivedPlain(g, events, user);
    RunArrives(g, events, user);
    ArriveTextIs(arrivals);
    ArriveMultiset(arrivals);
    forall e
      ensures multiset(Arrive([], arrivals))[e] + Copies(s.lost, user, e) == multiset(Query(g, s.stored, user))[e]
    {
      RunConserves(g, events, user, e);
      CopiesFor(s.arrived, user, e);
      QueryCounts(g, s.stored, user, e);
    }
    QueryExact(g, s.stored, user, Entry("", 0));
    AgreesExactly(Arrive([], arrivals), Query(g, s.stored, user), s.lost, user);
    SameTexts(Arrive([], arrivals), Query(g, s.stored, user));
    ArrivalOrderExact(arrivals);
  }

  // --- names with a colon ---------------------------------------------------------------------------------

  /** Once entry 0 of a timeline cannot be read, the timeline never changes again. */
  lemma {:induction false} BlockedForGood(g: Followers, events: seq<Event>, n: nat, user: string)
    requires IsRun(g, events) && n <= |events| && IsRun(g, events[..n])
    requires Blocked(At(After(g, events[..n]).timelines, user))
    ensures At(After(g, events).timelines, user) == At(After(g, events[..n]).timelines, user)
  {
    if n == |events| {
      assert events[..n] == events;
    } else {
      assert events[..|events| - 1][..n] == events[..n];
      BlockedForGood(g, events[..|events| - 1], n, user);
    }
  }

  /** The first delivery to arrive, when its date cannot be read, blocks the timeline: all that ever gets
      in is that one entry. */
  lemma FirstBlocksTimeline(g: Followers, events: seq<Event>, user: string)
    requires IsRun(g, events) && For(After(g, events).arrived, user) != []
    requires DateOf(Encode(For(After(g, events).arrived, user)[0])).None?
    ensures At(After(g, events).timelines, user) == [Encode(For(After(g, events).arrived, user)[0])]
  {
    RunArrives(g, events, user);
    FirstBlocks(For(After(g, events).arrived, user));
  }

  /** A step that does not overlap with anything. */
  lemma ExtendAlone(g: Followers, events: seq<Event>, event: Event)
    requires IsRun(g, events) && Enabled(g, After(g, events), event) && !event.Fail?
    requires event.Execute? || event.Crash? ==> After(g, events).flying == []
    ensures IsRun(g, events + [event]) && After(g, events + [event]) == Step(g, After(g, events), event)
    ensures OneAtATime(g, events) ==> OneAtATime(g, events + [event])
  {
    Extend(g, events, event);
    assert (events + [event])[..|events|] == events;
  }

  lemma ExecuteAlone(g: Followers, s: State, t: Tweet)
    requires s.flying == [] && g == map[t.author := {}] && !IsStored(s.stored, IdOf(t))
    ensures Enabled(g, s, Execute(t, [], true))
    ensures Step(g, s, Execute(t, [], true)) == s.(stored := s.stored + [t], flying := [Delivery(t.author, EntryOf(t), None)])
  {
    assert [] + [t.author] == [t.author];
  }

  lemma PutAlone(g: Followers, s: State, d: Delivery)
    requires s.flying == [d] && d.seen == Some(At(s.timelines, d.user))
    ensures var s' := Step(g, s, Put(0));
            && s'.flying == [] && s'.stored == s.stored
            && At(s'.timelines, d.user) == Tried(At(s.timelines, d.user), d.entry)
  {
    InsertAdds(d.seen.value, d.entry);
  }

  /** An author without followers tweets, and the delivery is carried through. */
  lemma TweetAlone(g: Followers, events: seq<Event>, t: Tweet) returns (more: seq<Event>)
    requires IsRun(g, events) && After(g, events).flying == [] && g == map[t.author := {}]
    requires !IsStored(After(g, events).stored, IdOf(t))
    ensures IsRun(g, more) && After(g, more).flying == []
    ensures After(g, more).stored == After(g, events).stored + [t]
    ensures At(After(g, more).timelines, t.author) == Tried(At(After(g, events).timelines, t.author), EntryOf(t))
    ensures OneAtATime(g, events) ==> OneAtATime(g, more)
  {
    ExecuteAlone(g, After(g, events), t);
    ExtendAlone(g, events, Execute(t, [], true));
    more := events + [Execute(t, [], true)];
    ExtendAlone(g, more, Get(0));
    more := more + [Get(0)];
    PutAlone(g, After(g, more), After(g, more).flying[0]);
    ExtendAlone(g, more, Put(0));
    more := more + [Put(0)];
  }

  /** Two tweets, one after the other, nothing overlapping or failing: when the dates of the author's entries
      cannot be read, as for "x:y", the second one does not get into the author's timeline. */
  lemma SecondTweetMissing(t1: Tweet, t2: Tweet) returns (g: Followers, events: seq<Event>)
    requires t1.author == t2.author && t1.index != t2.index && t1.date < t2.date && !Readable(t1.author)
    ensures IsRun(g, events) && OneAtATime(g, events) && After(g, events).flying == []
    ensures After(g, events).stored == [t1, t2] && Sees(g, t2, t1.author)
    ensures At(After(g, events).timelines, t1.author) == [Encode(EntryOf(t1))]
    ensures At(After(g, events).timelines, t1.author) != Texts(Query(g, After(g, events).stored, t1.author))
  {
    g := map[t1.author := {}];
    var once := TweetAlone(g, [], t1);
    ReadableExact(t1.author, t1.index, t1.date);
    assert After(g, once).stored == [t1];
    assert At(After(g, once).timelines, t1.author) == [Encode(EntryOf(t1))];
    OtherIndex(t1.author, t1.index, t2.index);
    events := TweetAlone(g, once, t2);
    QueryOwn(g, After(g, events).stored, t1.author);
  }

  lemma {:induction false} QueryOwn(g: Followers, tweets: seq<Tweet>, author: string)
    requires author in g && forall t <- tweets :: t.author == author
    ensures |Query(g, tweets, author)| == |tweets|
  {
    if tweets != [] {
      QueryOwn(g, tweets[..|tweets| - 1], author);
    }
  }

  lemma OtherIndex(author: string, i: nat, j: nat)
    ensures TweetId(author, i) == TweetId(author, j) <==> i == j
  {
    if TweetId(author, i) == TweetId(author, j) {
      assert Decimal.Dec(i) == TweetId(author, i)[|author| + 1..] && Decimal.Dec(j) == TweetId(author, j)[|author| + 1..];
      Decimal.DecValue(i);
      Decimal.DecValue(j);
    }
  }

  /** "x:y" is such a name. */
  lemma ColonNameUnreadable()
    ensures !Readable("x:y")
  {
    assert "x:y" == "x" + [':'] + "y";
    JavaStrings.PiecesOfTwo("x", "y", ':');
    JavaStrings.PiecesOfOne("y", ':');
  }
}
