/** Timelines whose entries can be read: tweet ids without a colon. There the commands, which work on
    strings, do to the strings what these functions do to the entries. */
module EntryTimeline {
  import opened Wrappers
  import opened Entries
  import opened Timeline

  /** insertTweet on entries that can be read. */
  function Insert(tl: seq<Entry>, e: Entry): seq<Entry> {
    if tl != [] && tl[0].date < e.date then [e] + tl else tl + [e]
  }

  /** Where the inner loop of the merge stops: at an entry newer than the date, at the cap, or at the end. */
  function Scan(tl: seq<Entry>, i: nat, date: int): (j: nat)
    requires i <= |tl|
    ensures i <= j <= |tl|
    ensures i <= MAX_TWEETS_IN_TIMELINE ==> j <= MAX_TWEETS_IN_TIMELINE
    ensures forall k :: i <= k < j ==> tl[k].date <= date
    ensures j < |tl| && j < MAX_TWEETS_IN_TIMELINE ==> tl[j].date > date
    decreases |tl| - i
  {
    if i < |tl| && i < MAX_TWEETS_IN_TIMELINE && tl[i].date <= date then Scan(tl, i + 1, date) else i
  }

  /** The timeline and the position after one tweet of the merge that is not in the timeline yet. */
  function MergeOne(tl: seq<Entry>, i: nat, e: Entry): (r: (seq<Entry>, nat))
    requires i <= |tl| && i <= MAX_TWEETS_IN_TIMELINE
    ensures r.1 <= |r.0| && r.1 <= MAX_TWEETS_IN_TIMELINE
  {
    var j := Scan(tl, i, e.date);
    if j < |tl| && j < MAX_TWEETS_IN_TIMELINE then (tl[..j] + [e] + tl[j..], j + 1)
    else (if j == |tl| then tl + [e] else tl, j)
  }

  /** The merge loop from position i on. */
  function Merge(tl: seq<Entry>, i: nat, recent: seq<Entry>): seq<Entry>
    requires i <= |tl| && i <= MAX_TWEETS_IN_TIMELINE
    decreases |recent|
  {
    if recent == [] then tl
    else if recent[0] in tl then Merge(tl, i, recent[1..])
    else
      var (tl', j) := MergeOne(tl, i, recent[0]);
      if j == MAX_TWEETS_IN_TIMELINE then tl' else Merge(tl', j, recent[1..])
  }

  // --- strings and entries --------------------------------------------------------------

  lemma TextsAppend(a: seq<Entry>, b: seq<Entry>)
    ensures Texts(a + b) == Texts(a) + Texts(b)
  {}

  lemma TextsOne(e: Entry)
    ensures Texts([e]) == [Encode(e)]
  {}

  lemma TextsEnds(es: seq<Entry>, e: Entry)
    ensures Texts(es + [e]) == Texts(es) + [Encode(e)]
    ensures Texts([e] + es) == [Encode(e)] + Texts(es)
  {
    TextsOne(e);
    TextsAppend(es, [e]);
    TextsAppend([e], es);
  }

  lemma TextsSlice(es: seq<Entry>, j: nat, e: Entry)
    requires j <= |es|
    ensures Texts(es[..j] + [e] + es[j..]) == Texts(es)[..j] + [Encode(e)] + Texts(es)[j..]
  {
    TextsOne(e);
    TextsAppend(es[..j] + [e], es[j..]);
    TextsAppend(es[..j], [e]);
    assert Texts(es[..j]) == Texts(es)[..j] && Texts(es[j..]) == Texts(es)[j..];
  }

  lemma ReadEntry(es: seq<Entry>, i: nat)
    requires i < |es| && ColonFree(es)
    ensures DateOf(Texts(es)[i]) == Some(es[i].date) && NameOf(Texts(es)[i]) == Some(es[i].id)
  {
    assert es[i] in es;
    EntryReadsBack(es[i]);
  }

  /** Only entry 0 is read; the tweet itself may have any id. */
  lemma InsertTextIs(es: seq<Entry>, e: Entry)
    requires ColonFree(es)
    ensures InsertText(Texts(es), e) == Some(Texts(Insert(es, e)))
  {
    TextsEnds(es, e);
    if es != [] {
      ReadEntry(es, 0);
    } else {
      assert [] + [Encode(e)] == [Encode(e)];
    }
  }

  lemma {:induction false} ScanReads(tl: seq<string>, es: seq<Entry>, i: nat, date: int)
    requires i <= |es| == |tl| && forall k :: 0 <= k < |es| ==> DateOf(tl[k]) == Some(es[k].date)
    ensures ScanText(tl, i, date) == Some(Scan(es, i, date))
    decreases |es| - i
  {
    if i < |es| && i < MAX_TWEETS_IN_TIMELINE && es[i].date <= date {
      ScanReads(tl, es, i + 1, date);
    }
  }

  lemma ScanTextIs(es: seq<Entry>, i: nat, date: int)
    requires i <= |es| && ColonFree(es)
    ensures ScanText(Texts(es), i, date) == Some(Scan(es, i, date))
  {
    forall k | 0 <= k < |es|
      ensures DateOf(Texts(es)[k]) == Some(es[k].date)
    {
      ReadEntry(es, k);
    }
    ScanReads(Texts(es), es, i, date);
  }

  lemma MergeOneTextIs(es: seq<Entry>, i: nat, e: Entry)
    requires i <= |es| && i <= MAX_TWEETS_IN_TIMELINE && ColonFree(es)
    ensures var (es', j) := MergeOne(es, i, e); MergeOneText(Texts(es), i, e) == Some((Texts(es'), j))
  {
    ScanTextIs(es, i, e.date);
    TextsSlice(es, Scan(es, i, e.date), e);
    TextsEnds(es, e);
  }

  lemma {:induction false} MergeTextIs(es: seq<Entry>, i: nat, recent: seq<Entry>)
    requires i <= |es| && i <= MAX_TWEETS_IN_TIMELINE && ColonFree(es) && ColonFree(recent)
    ensures MergeText(Texts(es), i, recent) == Some(Texts(Merge(es, i, recent)))
    decreases |recent|
  {
    if recent != [] {
      var e := recent[0];
      assert e in recent && recent == [e] + recent[1..];
      InTexts(es, e);
      if e in es {
        MergeTextIs(es, i, recent[1..]);
      } else {
        var (es', j) := MergeOne(es, i, e);
        MergeOneTextIs(es, i, e);
        if j != MAX_TWEETS_IN_TIMELINE {
          MergeTextIs(es', j, recent[1..]);
        }
      }
    }
  }

  /** The dates that the code reads fall. */
  ghost predicate ReadNewestFirst(tl: seq<string>) {
    forall i, j :: 0 <= i < j < |tl| ==>
      DateOf(tl[i]).Some? && DateOf(tl[j]).Some? && DateOf(tl[i]).value >= DateOf(tl[j]).value
  }

  lemma ReadOrder(es: seq<Entry>)
    requires ColonFree(es)
    ensures ReadNewestFirst(Texts(es)) <==> NewestFirst(es)
  {
    forall i | 0 <= i < |es|
      ensures DateOf(Texts(es)[i]) == Some(es[i].date)
    {
      ReadEntry(es, i);
    }
    if ReadNewestFirst(Texts(es)) {
      forall i, j | 0 <= i < j < |es|
        ensures es[i].date >= es[j].date
      {
        assert DateOf(Texts(es)[i]).value >= DateOf(Texts(es)[j]).value;
      }
    }
  }

  // --- order ------------------------------------------------------------------------------

  ghost predicate NewestFirst(tl: seq<Entry>) {
    forall i, j :: 0 <= i < j < |tl| ==> tl[i].date >= tl[j].date
  }

  /** The timeline after tweets have arrived in this order. */
  function Arrive(tl: seq<Entry>, arrivals: seq<Entry>): seq<Entry> {
    if arrivals == [] then tl else Insert(Arrive(tl, arrivals[..|arrivals| - 1]), arrivals[|arrivals| - 1])
  }

  /** Newer than all earlier ones, or not newer than any of them. */
  ghost predicate FitsAnEnd(arrivals: seq<Entry>, k: nat)
    requires k < |arrivals|
  {
    || (forall j :: 0 <= j < k ==> arrivals[j].date < arrivals[k].date)
    || (forall j :: 0 <= j < k ==> arrivals[k].date <= arrivals[j].date)
  }

  lemma {:induction false} ArriveMultiset(arrivals: seq<Entry>)
    ensures multiset(Arrive([], arrivals)) == multiset(arrivals)
  {
    if arrivals != [] {
      var n := |arrivals| - 1;
      ArriveMultiset(arrivals[..n]);
      assert arrivals == arrivals[..n] + [arrivals[n]];
    }
  }

  lemma SameElements(a: seq<Entry>, b: seq<Entry>, e: Entry)
    requires multiset(a) == multiset(b)
    ensures e in a <==> e in b
  {
    assert e in a <==> e in multiset(a);
    assert e in b <==> e in multiset(b);
  }

  /** One more insertion keeps the order exactly when the tweet belongs at one of the two ends. */
  lemma InsertKeepsOrder(tl: seq<Entry>, e: Entry)
    ensures NewestFirst(Insert(tl, e)) <==>
            NewestFirst(tl) && ((forall x <- tl :: x.date < e.date) || (forall x <- tl :: e.date <= x.date))
  {
    if tl != [] && tl[0].date < e.date {
      FrontOrdered(tl, e);
      assert tl[0] in tl;
    } else {
      BackOrdered(tl, e);
      assert tl != [] ==> tl[0] in tl;
    }
  }

  lemma FrontOrdered(tl: seq<Entry>, e: Entry)
    ensures NewestFirst([e] + tl) <==> NewestFirst(tl) && forall x <- tl :: x.date <= e.date
    ensures tl != [] && NewestFirst(tl) && tl[0].date < e.date ==> forall x <- tl :: x.date < e.date
  {
    var r := [e] + tl;
    if NewestFirst(r) {
      forall i, j | 0 <= i < j < |tl|
        ensures tl[i].date >= tl[j].date
      {
        assert r[i + 1].date >= r[j + 1].date;
      }
      forall i | 0 <= i < |tl|
        ensures tl[i].date <= e.date
      {
        assert r[0].date >= r[i + 1].date;
      }
    }
  }

  lemma BackOrdered(tl: seq<Entry>, e: Entry)
    ensures NewestFirst(tl + [e]) <==> NewestFirst(tl) && forall x <- tl :: e.date <= x.date
  {
    var r := tl + [e];
    if NewestFirst(r) {
      forall i, j | 0 <= i < j < |tl|
        ensures tl[i].date >= tl[j].date
      {
        assert r[i].date >= r[j].date;
      }
      forall i | 0 <= i < |tl|
        ensures e.date <= tl[i].date
      {
        assert r[i].date >= r[|tl|].date;
      }
    }
  }

  lemma EndsAgree(arrivals: seq<Entry>, tl: seq<Entry>, n: nat)
    requires n == |arrivals| - 1 && multiset(tl) == multiset(arrivals[..n])
    ensures FitsAnEnd(arrivals, n) <==>
            (forall x <- tl :: x.date < arrivals[n].date) || (forall x <- tl :: arrivals[n].date <= x.date)
  {
    var front := arrivals[..n];
    forall x
      ensures x in tl <==> x in front
    {
      SameElements(tl, front, x);
    }
    assert forall j :: 0 <= j < n ==> front[j] in front && front[j] == arrivals[j];
  }

  ghost predicate AllFit(arrivals: seq<Entry>) {
    forall k :: 0 <= k < |arrivals| ==> FitsAnEnd(arrivals, k)
  }

  lemma AllFitLast(arrivals: seq<Entry>, n: nat)
    requires n == |arrivals| - 1
    ensures AllFit(arrivals) <==> AllFit(arrivals[..n]) && FitsAnEnd(arrivals, n)
  {
    forall k | 0 <= k < n
      ensures FitsAnEnd(arrivals[..n], k) <==> FitsAnEnd(arrivals, k)
    {}
  }

  /** A timeline built by insertTweet is newest-first exactly when every tweet, on arrival, was
      newer than all the earlier ones or not newer than any. */
  lemma {:induction false} ArrivalOrderExact(arrivals: seq<Entry>)
    ensures NewestFirst(Arrive([], arrivals)) <==> AllFit(arrivals)
  {
    if arrivals != [] {
      var n := |arrivals| - 1;
      ArrivalOrderExact(arrivals[..n]);
      ArriveMultiset(arrivals[..n]);
      InsertKeepsOrder(Arrive([], arrivals[..n]), arrivals[n]);
      EndsAgree(arrivals, Arrive([], arrivals[..n]), n);
      AllFitLast(arrivals, n);
    }
  }

  /** With increasing dates the timeline is the arrivals backwards. */
  lemma {:induction false} ArriveIncreasing(arrivals: seq<Entry>)
    requires forall i, j :: 0 <= i < j < |arrivals| ==> arrivals[i].date < arrivals[j].date
    ensures |Arrive([], arrivals)| == |arrivals|
    ensures forall k :: 0 <= k < |arrivals| ==> Arrive([], arrivals)[k] == arrivals[|arrivals| - 1 - k]
  {
    if arrivals != [] {
      ArriveIncreasing(arrivals[..|arrivals| - 1]);
    }
  }

  // --- arrivals on the stored strings ---------------------------------------------------------

  /** The stored timeline after tweets have arrived in this order; one that throws leaves it as it is. */
  function ArriveText(tl: seq<string>, arrivals: seq<Entry>): seq<string> {
    if arrivals == [] then tl
    else Tried(ArriveText(tl, arrivals[..|arrivals| - 1]), arrivals[|arrivals| - 1])
  }

  lemma InsertColonFree(es: seq<Entry>, e: Entry)
    requires ColonFree(es) && ':' !in e.id
    ensures ColonFree(Insert(es, e))
  {}

  lemma {:induction false} ArriveTextIs(arrivals: seq<Entry>)
    requires ColonFree(arrivals)
    ensures ColonFree(Arrive([], arrivals)) && ArriveText([], arrivals) == Texts(Arrive([], arrivals))
  {
    if arrivals != [] {
      var n := |arrivals| - 1;
      assert arrivals[n] in arrivals;
      ArriveTextIs(arrivals[..n]);
      InsertTextIs(Arrive([], arrivals[..n]), arrivals[n]);
      InsertColonFree(Arrive([], arrivals[..n]), arrivals[n]);
    }
  }

  /** A stored timeline that insertTweet has built from tweets whose ids have no colon reads newest-first
      exactly when every tweet, on arrival, was newer than all the earlier ones or not newer than any. */
  lemma StoredOrderExact(arrivals: seq<Entry>)
    requires ColonFree(arrivals)
    ensures ReadNewestFirst(ArriveText([], arrivals)) <==> AllFit(arrivals)
  {
    ArriveTextIs(arrivals);
    ReadOrder(Arrive([], arrivals));
    ArrivalOrderExact(arrivals);
  }

  /** A first tweet whose date cannot be read is the last one that gets into the timeline. */
  lemma {:induction false} FirstBlocks(arrivals: seq<Entry>)
    requires arrivals != [] && DateOf(Encode(arrivals[0])).None?
    ensures ArriveText([], arrivals) == [Encode(arrivals[0])]
  {
    var n := |arrivals| - 1;
    if n == 0 {
      assert ArriveText([], arrivals[..0]) == [];
    } else {
      FirstBlocks(arrivals[..n]);
    }
  }
}
