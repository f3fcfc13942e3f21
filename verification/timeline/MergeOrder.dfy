/** When a merged timeline is in order, and how many tweets it has room for: the merge on entries that
    can be read, and what follows for the stored strings. */
module MergeOrder {
  import opened Wrappers
  import opened Entries
  import opened Timeline
  import opened EntryTimeline
  import opened MergeLaws

  /** What the stored form of these entries lacks. */
  function MissingFrom(tl: seq<Entry>, recent: seq<Entry>): seq<Entry> { Missing(Texts(tl), recent) }

  lemma MissingFromStep(tl: seq<Entry>, recent: seq<Entry>)
    requires recent != []
    ensures MissingFrom(tl, recent) ==
            if recent[0] in tl then MissingFrom(tl, recent[1..])
            else [recent[0]] + MissingFrom(tl + [recent[0]], recent[1..])
  {
    InTexts(tl, recent[0]);
    TextsEnds(tl, recent[0]);
  }

  // --- order ---------------------------------------------------------------------------------

  lemma {:induction false} ScanToCap(tl: seq<Entry>, i: nat, date: int)
    requires i <= |tl| && i <= MAX_TWEETS_IN_TIMELINE && forall k :: i <= k < |tl| ==> tl[k].date <= date
    ensures Scan(tl, i, date) == if |tl| < MAX_TWEETS_IN_TIMELINE then |tl| else MAX_TWEETS_IN_TIMELINE
    decreases |tl| - i
  {
    if i < |tl| && i < MAX_TWEETS_IN_TIMELINE {
      ScanToCap(tl, i + 1, date);
    }
  }

  lemma Inverts(tl: seq<Entry>, i: nat, j: nat)
    requires i < j < |tl| && tl[i].date < tl[j].date
    ensures !NewestFirst(tl)
  {}

  /** Two entries out of order stay out of order, wherever another one is inserted. */
  lemma InsertInverted(tl: seq<Entry>, p: nat, e: Entry)
    requires p <= |tl| && !NewestFirst(tl)
    ensures !NewestFirst(tl[..p] + [e] + tl[p..])
  {
    var i, j :| 0 <= i < j < |tl| && tl[i].date < tl[j].date;
    Inverts(tl[..p] + [e] + tl[p..], if i < p then i else i + 1, if j < p then j else j + 1);
  }

  lemma {:induction false} MergeInverted(tl: seq<Entry>, i: nat, recent: seq<Entry>)
    requires i <= |tl| && i <= MAX_TWEETS_IN_TIMELINE && !NewestFirst(tl)
    ensures !NewestFirst(Merge(tl, i, recent))
    decreases |recent|
  {
    if recent != [] {
      if recent[0] in tl {
        MergeInverted(tl, i, recent[1..]);
      } else {
        var (tl', j) := MergeOne(tl, i, recent[0]);
        MergeOneInverted(tl, i, recent[0]);
        if j != MAX_TWEETS_IN_TIMELINE {
          MergeInverted(tl', j, recent[1..]);
        }
      }
    }
  }

  lemma MergeOneInverted(tl: seq<Entry>, i: nat, e: Entry)
    requires i <= |tl| && i <= MAX_TWEETS_IN_TIMELINE && !NewestFirst(tl)
    ensures !NewestFirst(MergeOne(tl, i, e).0)
  {
    var p := Scan(tl, i, e.date);
    InsertInverted(tl, p, e);
    if p == |tl| {
      assert tl[..p] + [e] + tl[p..] == tl + [e];
    }
  }

  ghost predicate AllDated(tl: seq<Entry>, date: int) { forall x <- tl :: x.date == date }

  /** How many of the missing tweets an order-keeping merge takes in. */
  function Taken(tl: seq<Entry>, missing: seq<Entry>): (m: nat)
    requires |tl| <= MAX_TWEETS_IN_TIMELINE
    ensures m <= |missing|
  {
    if |tl| + |missing| <= MAX_TWEETS_IN_TIMELINE + 1 then |missing| else MAX_TWEETS_IN_TIMELINE + 1 - |tl|
  }

  /** One tweet of another date, merged into entries of one date at the last position, is out of order. */
  lemma OtherDateInverts(tl: seq<Entry>, i: nat, e: Entry, date: int)
    requires i + 1 == |tl| && i < MAX_TWEETS_IN_TIMELINE && AllDated(tl, date) && e.date != date
    ensures !NewestFirst(MergeOne(tl, i, e).0)
  {
    var r := MergeOne(tl, i, e).0;
    assert tl[i] in tl;
    if e.date < date {
      assert Scan(tl, i, e.date) == i;
      assert r == tl[..i] + [e] + tl[i..];
      Inverts(r, i, i + 1);
    } else {
      ScanToCap(tl, i, e.date);
      assert r == tl + [e];
      Inverts(r, i, i + 1);
    }
  }

  lemma SameDateAppends(tl: seq<Entry>, i: nat, e: Entry, date: int)
    requires i + 1 == |tl| && i < MAX_TWEETS_IN_TIMELINE && AllDated(tl, date) && e.date == date
    ensures MergeOne(tl, i, e) == (tl + [e], |tl|) && AllDated(tl + [e], date)
  {
    ScanToCap(tl, i, e.date);
  }

  lemma FlatIsOrdered(tl: seq<Entry>, date: int)
    requires AllDated(tl, date)
    ensures NewestFirst(tl)
  {}

  /** What is taken is one tweet and what is taken after it. */
  lemma TakenStep(tl: seq<Entry>, e: Entry, more: seq<Entry>)
    requires |tl| <= MAX_TWEETS_IN_TIMELINE
    ensures var taken := ([e] + more)[..Taken(tl, [e] + more)];
            if |tl| == MAX_TWEETS_IN_TIMELINE then taken == [e]
            else
              var rest := more[..Taken(tl + [e], more)];
              taken == [e] + rest && forall date :: AllDated(taken, date) <==> e.date == date && AllDated(rest, date)
  {
    if |tl| < MAX_TWEETS_IN_TIMELINE {
      var taken, rest := ([e] + more)[..Taken(tl, [e] + more)], more[..Taken(tl + [e], more)];
      assert taken == [e] + rest;
    }
  }

  /** The rest of the merge at the last position, behind entries of one date, does this. */
  ghost predicate GoesOnFlat(tl: seq<Entry>, merged: seq<Entry>, missing: seq<Entry>, date: int)
    requires |tl| <= MAX_TWEETS_IN_TIMELINE
  {
    var taken := missing[..Taken(tl, missing)];
    && (NewestFirst(merged) <==> AllDated(taken, date))
    && (AllDated(taken, date) ==> merged == tl + taken)
  }

  lemma FlatEnds(tl: seq<Entry>, i: nat, e: Entry, rest: seq<Entry>, date: int)
    requires i + 1 == |tl| && i < MAX_TWEETS_IN_TIMELINE && AllDated(tl, date) && e !in tl && e.date != date
    ensures GoesOnFlat(tl, Merge(tl, i, [e] + rest), [e] + MissingFrom(tl + [e], rest), date)
  {
    var missing := [e] + MissingFrom(tl + [e], rest);
    var (tl', j) := MergeOne(tl, i, e);
    assert ([e] + rest)[1..] == rest;
    OtherDateInverts(tl, i, e, date);
    if j != MAX_TWEETS_IN_TIMELINE {
      MergeInverted(tl', j, rest);
    }
    assert missing[..Taken(tl, missing)][0] == e;
  }

  lemma FlatStep(tl: seq<Entry>, merged: seq<Entry>, e: Entry, more: seq<Entry>, date: int)
    requires |tl| < MAX_TWEETS_IN_TIMELINE && e.date == date && GoesOnFlat(tl + [e], merged, more, date)
    ensures GoesOnFlat(tl, merged, [e] + more, date)
  {
    TakenStep(tl, e, more);
    Assoc(tl, [e], more[..Taken(tl + [e], more)]);
  }

  lemma Assoc(a: seq<Entry>, b: seq<Entry>, c: seq<Entry>)
    ensures a + b + c == a + (b + c)
  {}

  lemma FlatFull(tl: seq<Entry>, e: Entry, more: seq<Entry>, date: int)
    requires |tl| == MAX_TWEETS_IN_TIMELINE && AllDated(tl + [e], date)
    ensures GoesOnFlat(tl, tl + [e], [e] + more, date)
  {
    TakenStep(tl, e, more);
    FlatIsOrdered(tl + [e], date);
  }

  lemma FlatDone(tl: seq<Entry>, date: int)
    requires |tl| <= MAX_TWEETS_IN_TIMELINE && AllDated(tl, date)
    ensures GoesOnFlat(tl, tl, [], date)
  {
    FlatIsOrdered(tl, date);
  }

  lemma {:induction false} MergeFlat(tl: seq<Entry>, i: nat, recent: seq<Entry>, date: int)
    requires i + 1 == |tl| && i < MAX_TWEETS_IN_TIMELINE && AllDated(tl, date)
    ensures GoesOnFlat(tl, Merge(tl, i, recent), MissingFrom(tl, recent), date)
    decreases |recent|
  {
    if recent == [] {
      FlatDone(tl, date);
    } else if recent[0] in tl {
      MissingFromStep(tl, recent);
      MergeFlat(tl, i, recent[1..], date);
    } else {
      MissingFromStep(tl, recent);
      var e, rest := recent[0], recent[1..];
      assert recent == [e] + rest;
      if e.date != date {
        FlatEnds(tl, i, e, rest, date);
      } else {
        SameDateAppends(tl, i, e, date);
        if |tl| < MAX_TWEETS_IN_TIMELINE {
          MergeFlat(tl + [e], |tl|, rest, date);
          FlatStep(tl, Merge(tl, i, recent), e, MissingFrom(tl + [e], rest), date);
        } else {
          FlatFull(tl, e, MissingFrom(tl + [e], rest), date);
        }
      }
    }
  }

  /** When the merged timeline is newest-first: nothing was missing, or the timeline is beyond the cap and
      no entry is newer than the first missing tweet, or all entries and all tweets taken in are of one date. */
  ghost predicate StaysOrdered(tl: seq<Entry>, missing: seq<Entry>) {
    missing == [] ||
    if |tl| > MAX_TWEETS_IN_TIMELINE then tl[0].date <= missing[0].date
    else AllDated(tl + missing[..Taken(tl, missing)], missing[0].date)
  }

  /** What such a merge leaves behind. */
  function OrderedMerge(tl: seq<Entry>, missing: seq<Entry>): seq<Entry> {
    if |tl| > MAX_TWEETS_IN_TIMELINE then tl else tl + missing[..Taken(tl, missing)]
  }

  lemma NewerHeadInverts(tl: seq<Entry>, e: Entry)
    requires tl != [] && tl[0].date > e.date
    ensures !NewestFirst(MergeOne(tl, 0, e).0)
  {
    assert Scan(tl, 0, e.date) == 0;
    var r := MergeOne(tl, 0, e).0;
    assert r == [e] + tl;
    Inverts(r, 0, 1);
  }

  lemma MergeOnePastTheEnd(tl: seq<Entry>, e: Entry)
    requires NewestFirst(tl) && (tl != [] ==> tl[0].date <= e.date)
    ensures MergeOne(tl, 0, e) == if |tl| > MAX_TWEETS_IN_TIMELINE then (tl, MAX_TWEETS_IN_TIMELINE) else (tl + [e], |tl|)
  {
    ScanToCap(tl, 0, e.date);
  }

  lemma AppendOrdered(tl: seq<Entry>, e: Entry)
    requires NewestFirst(tl) && (tl != [] ==> tl[0].date <= e.date)
    ensures NewestFirst(tl + [e]) <==> AllDated(tl, e.date)
  {
    var r := tl + [e];
    if NewestFirst(r) {
      forall k | 0 <= k < |tl|
        ensures tl[k].date == e.date
      {
        assert r[k].date >= r[|tl|].date;
      }
    }
    if AllDated(tl, e.date) {
      FlatIsOrdered(r, e.date);
    }
  }

  /** The merge meets its first missing tweet at position 0. */
  lemma FirstMissing(tl: seq<Entry>, e: Entry, rest: seq<Entry>)
    requires NewestFirst(tl) && e !in tl
    ensures var missing := [e] + MissingFrom(tl + [e], rest);
            var merged := Merge(tl, 0, [e] + rest);
            && (NewestFirst(merged) <==> StaysOrdered(tl, missing))
            && (StaysOrdered(tl, missing) ==> merged == OrderedMerge(tl, missing))
  {
    var recent, more := [e] + rest, MissingFrom(tl + [e], rest);
    assert recent[0] == e && recent[1..] == rest;
    var (tl', j) := MergeOne(tl, 0, e);
    if tl != [] && tl[0].date > e.date {
      NewerHeadInverts(tl, e);
      if j != MAX_TWEETS_IN_TIMELINE {
        MergeInverted(tl', j, rest);
      }
      assert tl[0] in tl;
    } else {
      MergeOnePastTheEnd(tl, e);
      if |tl| <= MAX_TWEETS_IN_TIMELINE {
        AppendOrdered(tl, e);
        TakenStep(tl, e, more);
        FirstAppended(tl, e, rest);
      }
    }
  }

  lemma FirstAppended(tl: seq<Entry>, e: Entry, rest: seq<Entry>)
    requires NewestFirst(tl) && |tl| <= MAX_TWEETS_IN_TIMELINE && (tl != [] ==> tl[0].date <= e.date)
    ensures var missing := [e] + MissingFrom(tl + [e], rest);
            var taken := missing[..Taken(tl, missing)];
            var merged := if |tl| == MAX_TWEETS_IN_TIMELINE then tl + [e] else Merge(tl + [e], |tl|, rest);
            && (NewestFirst(merged) <==> AllDated(tl + taken, e.date))
            && (AllDated(tl + taken, e.date) ==> merged == tl + taken)
  {
    var missing := [e] + MissingFrom(tl + [e], rest);
    DatedAppend(tl, missing[..Taken(tl, missing)], e.date);
    AppendOrdered(tl, e);
    if AllDated(tl, e.date) {
      if |tl| < MAX_TWEETS_IN_TIMELINE {
        MergeFlat(tl + [e], |tl|, rest, e.date);
        FlatStep(tl, Merge(tl + [e], |tl|, rest), e, MissingFrom(tl + [e], rest), e.date);
      } else {
        FlatFull(tl, e, MissingFrom(tl + [e], rest), e.date);
      }
    } else if |tl| < MAX_TWEETS_IN_TIMELINE {
      MergeInverted(tl + [e], |tl|, rest);
    }
  }

  lemma DatedAppend(a: seq<Entry>, b: seq<Entry>, date: int)
    ensures AllDated(a + b, date) <==> AllDated(a, date) && AllDated(b, date)
  {
    if AllDated(a + b, date) {
      assert forall x <- a :: x in a + b;
      assert forall x <- b :: x in a + b;
    }
  }

  /** The merge inserts before the first newer entry. So the merged timeline is newest-first only when
      the old one was and, beyond the cap, no entry is newer than the first missing tweet, or, within
      it, the old entries and all tweets taken in are of one date; then it is the old one with these behind. */
  lemma {:induction false} EntriesOrderExact(tl: seq<Entry>, recent: seq<Entry>)
    ensures NewestFirst(Merge(tl, 0, recent)) <==> NewestFirst(tl) && StaysOrdered(tl, MissingFrom(tl, recent))
    ensures NewestFirst(Merge(tl, 0, recent)) ==> Merge(tl, 0, recent) == OrderedMerge(tl, MissingFrom(tl, recent))
    decreases |recent|
  {
    if !NewestFirst(tl) {
      MergeInverted(tl, 0, recent);
    } else if recent != [] {
      MissingFromStep(tl, recent);
      if recent[0] in tl {
        EntriesOrderExact(tl, recent[1..]);
      } else {
        assert recent == [recent[0]] + recent[1..];
        FirstMissing(tl, recent[0], recent[1..]);
      }
    } else {
      assert tl + [] == tl;
    }
  }

  ghost predicate Falling(recent: seq<Entry>) {
    forall a, b :: 0 <= a < b < |recent| ==> recent[a].date > recent[b].date
  }

  ghost predicate OlderThan(recent: seq<Entry>, tl: seq<Entry>) { forall e <- recent, x <- tl :: e.date < x.date }

  lemma FallingTail(recent: seq<Entry>, tl: seq<Entry>)
    requires recent != [] && Falling(recent) && OlderThan(recent, tl)
    ensures recent[0] !in tl && Falling(recent[1..]) && OlderThan(recent[1..], tl) && OlderThan(recent[1..], [recent[0]])
  {
    assert recent[0] in recent;
    forall e | e in recent[1..]
      ensures e in recent && e.date < recent[0].date
    {
      var k :| 0 <= k < |recent| - 1 && recent[k + 1] == e;
    }
  }

  /** Tweets older than the whole timeline, newest first, go right before its last entry. */
  lemma {:induction false} MergeBefore(head: seq<Entry>, last: Entry, recent: seq<Entry>)
    requires |head| + 1 + |recent| <= MAX_TWEETS_IN_TIMELINE && Falling(recent) && OlderThan(recent, head + [last])
    ensures Merge(head + [last], |head|, recent) == head + recent + [last]
    decreases |recent|
  {
    if recent == [] {
      assert head + [] == head;
    } else {
      var e, rest := recent[0], recent[1..];
      FallingTail(recent, head + [last]);
      assert last in head + [last] && e in recent;
      OneBefore(head, last, e);
      OlderThanMore(rest, head, last, e);
      MergeBefore(head + [e], last, rest);
      Assoc(head, [e], rest);
      assert [e] + rest == recent;
    }
  }

  lemma OneBefore(head: seq<Entry>, last: Entry, e: Entry)
    requires |head| < MAX_TWEETS_IN_TIMELINE && e.date < last.date
    ensures MergeOne(head + [last], |head|, e) == (head + [e] + [last], |head| + 1)
  {
    var tl := head + [last];
    assert tl[|head|] == last && tl[..|head|] == head && tl[|head|..] == [last];
    assert Scan(tl, |head|, e.date) == |head|;
  }

  lemma OlderThanMore(recent: seq<Entry>, head: seq<Entry>, last: Entry, e: Entry)
    requires OlderThan(recent, head + [last]) && OlderThan(recent, [e])
    ensures OlderThan(recent, head + [e] + [last])
  {
    forall x | x in head + [e] + [last]
      ensures x in head + [last] || x in [e]
    {
      assert x in head ==> x in head + [last];
    }
  }

  lemma RestFalls(recent: seq<Entry>, e: Entry, rest: seq<Entry>)
    requires recent != [] && Falling(recent) && e == recent[0] && rest == recent[1..]
    ensures Falling(rest) && OlderThan(rest, [e]) && recent == [e] + rest
  {
    FallingTail(recent, []);
  }

  lemma FirstFollowEntries(recent: seq<Entry>, e: Entry, rest: seq<Entry>)
    requires 0 < |recent| <= MAX_TWEETS_IN_TIMELINE && Falling(recent) && e == recent[0] && rest == recent[1..]
    ensures Merge([], 0, recent) == rest + [e]
    ensures NewestFirst(rest + [e]) <==> rest == []
  {
    RestFalls(recent, e, rest);
    FirstThenOthers(e, rest);
  }

  lemma FirstThenOthers(e: Entry, rest: seq<Entry>)
    requires |rest| < MAX_TWEETS_IN_TIMELINE && Falling(rest) && OlderThan(rest, [e])
    ensures Merge([], 0, [e] + rest) == rest + [e]
    ensures NewestFirst(rest + [e]) <==> rest == []
  {
    FirstAlone(e, rest);
    OthersBefore(rest, e);
    NewestLast(rest, e);
  }

  lemma OthersBefore(rest: seq<Entry>, e: Entry)
    requires |rest| < MAX_TWEETS_IN_TIMELINE && Falling(rest) && OlderThan(rest, [e])
    ensures Merge([e], 0, rest) == rest + [e]
  {
    assert [] + [e] == [e];
    assert [] + rest == rest;
    MergeBefore([], e, rest);
  }

  lemma FirstAlone(e: Entry, rest: seq<Entry>)
    ensures Merge([], 0, [e] + rest) == Merge([e], 0, rest)
  {
    assert ([e] + rest)[0] == e && ([e] + rest)[1..] == rest && [] + [e] == [e];
    assert MergeOne([], 0, e) == ([e], 0);
  }

  lemma NewestLast(rest: seq<Entry>, e: Entry)
    requires OlderThan(rest, [e])
    ensures NewestFirst(rest + [e]) <==> rest == []
  {
    if rest != [] {
      assert rest[0] in rest;
      Inverts(rest + [e], 0, |rest|);
    }
  }

  /** n old entries, with dates below 0. */
  function OldEntries(n: nat): (tl: seq<Entry>)
    ensures |tl| == n && forall k :: 0 <= k < n ==> tl[k] == Entry("", -1 - k)
  {
    seq(n, k => Entry("", -1 - k))
  }

  /** m recent tweets, newest first, with dates from m - 1 down to 0. */
  function NewTweets(m: nat): (r: seq<Entry>)
    ensures |r| == m && forall k :: 0 <= k < m ==> r[k] == Entry("", m - 1 - k)
  {
    seq(m, k requires 0 <= k < m => Entry("", m - 1 - k))
  }

  lemma {:induction false} NewTweetsMissing(tl: seq<Entry>, m: nat)
    requires forall e <- tl :: e.date < 0 || e.date >= m
    ensures MissingFrom(tl, NewTweets(m)) == NewTweets(m)
    decreases m
  {
    if m > 0 {
      MissingFromStep(tl, NewTweets(m));
      assert NewTweets(m)[1..] == NewTweets(m - 1);
      NewTweetsMissing(tl + [NewTweets(m)[0]], m - 1);
    }
  }

  /** Behind one newer entry at the end, the merge can take in only as many tweets as there
      are places before the cap. */
  lemma {:induction false} MergeStalls(tl: seq<Entry>, i: nat, m: nat)
    requires i + 1 == |tl| && i < MAX_TWEETS_IN_TIMELINE && m >= MAX_TWEETS_IN_TIMELINE - i
    requires tl[i].date >= m && forall e <- tl :: e.date < 0 || e.date >= m
    ensures |Merge(tl, i, NewTweets(m))| == MAX_TWEETS_IN_TIMELINE + 1
    decreases m
  {
    var e := NewTweets(m)[0];
    assert e !in tl;
    assert Scan(tl, i, e.date) == i;
    var tl' := tl[..i] + [e] + tl[i..];
    assert MergeOne(tl, i, e) == (tl', i + 1);
    if i + 1 < MAX_TWEETS_IN_TIMELINE {
      assert NewTweets(m)[1..] == NewTweets(m - 1);
      assert tl'[i + 1] == tl[i];
      forall x | x in tl'
        ensures x.date < 0 || x.date >= m - 1
      {
        assert x in tl[..i] || x == e || x in tl[i..];
      }
      MergeStalls(tl', i + 1, m - 1);
    }
  }

  /** A first tweet that is not older than anything goes to the end, up to the cap. */
  lemma MergeFirst(tl: seq<Entry>, e: Entry, rest: seq<Entry>)
    requires e !in tl && forall x <- tl :: x.date <= e.date
    ensures Merge(tl, 0, [e] + rest) ==
            if |tl| < MAX_TWEETS_IN_TIMELINE then Merge(tl + [e], |tl|, rest)
            else if |tl| == MAX_TWEETS_IN_TIMELINE then tl + [e] else tl
  {
    FirstToEnd(tl, e);
    assert ([e] + rest)[1..] == rest;
  }

  /** A timeline of n old entries does not take in m new tweets when that makes more than 251. */
  lemma CapBites(n: nat, m: nat)
    requires m >= 1 && n + m > MAX_TWEETS_IN_TIMELINE + 1
    ensures |Merge(OldEntries(n), 0, NewTweets(m))| < n + m
  {
    var e := Entry("", m - 1);
    assert NewTweets(m) == [e] + NewTweets(m - 1);
    MergeFirst(OldEntries(n), e, NewTweets(m - 1));
    if n < MAX_TWEETS_IN_TIMELINE {
      MergeStalls(OldEntries(n) + [e], n, m - 1);
    }
  }

  lemma FirstToEnd(tl: seq<Entry>, e: Entry)
    requires forall x <- tl :: x.date <= e.date
    ensures MergeOne(tl, 0, e) ==
            if |tl| > MAX_TWEETS_IN_TIMELINE then (tl, MAX_TWEETS_IN_TIMELINE) else (tl + [e], |tl|)
  {
    ScanToCap(tl, 0, e.date);
  }

  /** The merge, unless it throws, takes in all that is missing. */
  ghost predicate TakesAll(tl: seq<string>, recent: seq<Entry>) {
    MergeText(tl, 0, recent).Some? ==>
      multiset(MergeText(tl, 0, recent).value) == multiset(tl) + multiset(Texts(Missing(tl, recent)))
  }

  /** The exact room: every stored timeline of n entries takes in all of m >= 1 missing tweets exactly
      when n + m is at most 251. */
  lemma RoomExact(n: nat, m: nat)
    requires m >= 1
    ensures (forall tl, recent :: |tl| == n && |Missing(tl, recent)| == m ==> TakesAll(tl, recent))
            <==> n + m <= 251
  {
    if n + m <= MAX_TWEETS_IN_TIMELINE + 1 {
      forall tl, recent | |tl| == n && |Missing(tl, recent)| == m
        ensures TakesAll(tl, recent)
      {
        if MergeText(tl, 0, recent).Some? {
          MergeIdempotent(tl, recent);
        }
      }
    } else {
      var es, recent := OldEntries(n), NewTweets(m);
      CapBites(n, m);
      NewTweetsMissing(es, m);
      assert ColonFree(es) && ColonFree(recent);
      MergeTextIs(es, 0, recent);
      assert |multiset(Texts(Merge(es, 0, recent)))| == |Merge(es, 0, recent)|;
      assert |multiset(Texts(es)) + multiset(Texts(recent))| == n + m;
      assert !TakesAll(Texts(es), recent);
    }
  }

  // --- the same for what is stored -----------------------------------------------------------

  /** When the tweet ids have no colon, start-following does not throw, and what it stores reads newest-first
      exactly when the old timeline did and, beyond the cap, no entry is newer than the first missing tweet,
      or, within it, the old entries and all tweets taken in are of one date; then it is the old
      timeline with these behind. */
  lemma MergeOrderExact(es: seq<Entry>, recent: seq<Entry>)
    requires ColonFree(es) && ColonFree(recent)
    ensures var r := MergeText(Texts(es), 0, recent);
            var missing := Missing(Texts(es), recent);
            && r.Some?
            && (ReadNewestFirst(r.value) <==> NewestFirst(es) && StaysOrdered(es, missing))
            && (ReadNewestFirst(r.value) ==> r.value == Texts(OrderedMerge(es, missing)))
  {
    MergeTextIs(es, 0, recent);
    EntriesOrderExact(es, recent);
    MergeColonFree(es, 0, recent);
    ReadOrder(Merge(es, 0, recent));
  }

  lemma {:induction false} MergeColonFree(es: seq<Entry>, i: nat, recent: seq<Entry>)
    requires i <= |es| && i <= MAX_TWEETS_IN_TIMELINE && ColonFree(es) && ColonFree(recent)
    ensures ColonFree(Merge(es, i, recent))
    decreases |recent|
  {
    if recent != [] {
      assert recent[0] in recent;
      if recent[0] in es {
        MergeColonFree(es, i, recent[1..]);
      } else {
        var (es', j) := MergeOne(es, i, recent[0]);
        assert ColonFree(es');
        if j != MAX_TWEETS_IN_TIMELINE {
          MergeColonFree(es', j, recent[1..]);
        }
      }
    }
  }

  /** Whoever starts following with an empty timeline gets the newest tweet last. */
  lemma FirstFollow(recent: seq<Entry>)
    requires 0 < |recent| <= MAX_TWEETS_IN_TIMELINE && Falling(recent) && ColonFree(recent)
    ensures var r := MergeText([], 0, recent);
            r == Some(Texts(recent[1..] + [recent[0]])) && (ReadNewestFirst(r.value) <==> |recent| == 1)
  {
    FirstFollowEntries(recent, recent[0], recent[1..]);
    assert Texts([]) == [];
    MergeTextIs([], 0, recent);
    MergeColonFree([], 0, recent);
    ReadOrder(Merge([], 0, recent));
  }
}
