/** What the start-following merge and the stop-following filter do to a stored timeline, whatever
    strings it holds. */
module MergeLaws {
  import opened Wrappers
  import opened JavaStrings
  import opened Entries
  import opened Timeline

  // --- what is inserted -----------------------------------------------------------

  /** The recent tweets that the timeline lacks, once each, in order. */
  function Missing(tl: seq<string>, recent: seq<Entry>): seq<Entry>
    decreases |recent|
  {
    if recent == [] then []
    else if Encode(recent[0]) in tl then Missing(tl, recent[1..])
    else [recent[0]] + Missing(tl + [Encode(recent[0])], recent[1..])
  }

  ghost predicate SameMembers(a: seq<string>, b: seq<string>) { forall s :: s in a <==> s in b }

  lemma {:induction false} MissingAgrees(a: seq<string>, b: seq<string>, recent: seq<Entry>)
    requires SameMembers(a, b)
    ensures Missing(a, recent) == Missing(b, recent)
    decreases |recent|
  {
    if recent != [] {
      var s := Encode(recent[0]);
      assert s in a <==> s in b;
      MissingAgrees(a, b, recent[1..]);
      assert SameMembers(a + [s], b + [s]);
      MissingAgrees(a + [s], b + [s], recent[1..]);
    }
  }

  lemma {:induction false} MissingOnce(tl: seq<string>, recent: seq<Entry>, e: Entry)
    ensures multiset(Missing(tl, recent))[e] == if e in recent && Encode(e) !in tl then 1 else 0
    decreases |recent|
  {
    if recent != [] {
      var e0 := recent[0];
      assert recent == [e0] + recent[1..];
      EncodeInjective(e, e0);
      MissingOnce(if Encode(e0) in tl then tl else tl + [Encode(e0)], recent[1..], e);
    }
  }

  lemma InsertAt(tl: seq<string>, j: nat, s: string)
    requires j <= |tl|
    ensures multiset(tl[..j] + [s] + tl[j..]) == multiset(tl) + multiset{s}
    ensures SameMembers(tl[..j] + [s] + tl[j..], tl + [s])
  {
    assert tl == tl[..j] + tl[j..];
  }

  lemma MergeOneAdds(tl: seq<string>, i: nat, e: Entry)
    requires i <= |tl| && i <= MAX_TWEETS_IN_TIMELINE && MergeOneText(tl, i, e).Some?
    ensures var (tl', j) := MergeOneText(tl, i, e).value;
            if tl' == tl then j == MAX_TWEETS_IN_TIMELINE
            else
              && multiset(tl') == multiset(tl) + multiset{Encode(e)} && SameMembers(tl', tl + [Encode(e)])
              && |tl'| == |tl| + 1 && j < |tl'|
  {
    var j := ScanText(tl, i, e.date).value;
    InsertAt(tl, j, Encode(e));
    if j == |tl| {
      assert tl[..j] + [Encode(e)] + tl[j..] == tl + [Encode(e)];
    }
  }

  lemma TextsStep(e: Entry, more: seq<Entry>, m: nat)
    requires m <= |more|
    ensures Texts(([e] + more)[..m + 1]) == [Encode(e)] + Texts(more[..m])
  {}

  /** A merge that does not throw adds a first part of the missing tweets, once each, and nothing else; all
      of them when they fit: together with the timeline at most one more than the cap. */
  lemma {:induction false} MergeAdds(tl: seq<string>, i: nat, recent: seq<Entry>) returns (m: nat)
    requires i <= |tl| && i <= MAX_TWEETS_IN_TIMELINE && MergeText(tl, i, recent).Some?
    ensures m <= |Missing(tl, recent)|
    ensures multiset(MergeText(tl, i, recent).value) == multiset(tl) + multiset(Texts(Missing(tl, recent)[..m]))
    ensures |tl| + |Missing(tl, recent)| <= MAX_TWEETS_IN_TIMELINE + 1 && i < MAX_TWEETS_IN_TIMELINE ==>
              m == |Missing(tl, recent)|
    decreases |recent|
  {
    if recent == [] {
      m := 0;
    } else if Encode(recent[0]) in tl {
      m := MergeAdds(tl, i, recent[1..]);
    } else {
      var e, s := recent[0], Encode(recent[0]);
      var (tl', j) := MergeOneText(tl, i, e).value;
      var more := Missing(tl + [s], recent[1..]);
      assert Missing(tl, recent) == [e] + more;
      MergeOneAdds(tl, i, e);
      if tl' == tl {
        m := 0;
        assert Texts(Missing(tl, recent)[..0]) == [];
      } else if j == MAX_TWEETS_IN_TIMELINE {
        m := 1;
        TextsStep(e, more, 0);
      } else {
        MissingAgrees(tl', tl + [s], recent[1..]);
        var k := MergeAdds(tl', j, recent[1..]);
        m := k + 1;
        OneMoreAdded(MergeText(tl, i, recent).value, tl, e, more, k);
      }
    }
  }

  lemma OneMoreAdded(merged: seq<string>, tl: seq<string>, e: Entry, more: seq<Entry>, k: nat)
    requires k <= |more| && multiset(merged) == multiset(tl) + multiset{Encode(e)} + multiset(Texts(more[..k]))
    ensures multiset(merged) == multiset(tl) + multiset(Texts(([e] + more)[..k + 1]))
  {
    TextsStep(e, more, k);
  }

  // --- filters see through the merge -------------------------------------------------

  /** The entries of a timeline that belong to a set. */
  function Keep(tl: seq<string>, kept: set<string>): seq<string> {
    if tl == [] then []
    else
      var rest := Keep(tl[1..], kept);
      if tl[0] in kept then [tl[0]] + rest else rest
  }

  lemma {:induction false} KeepAppend(a: seq<string>, b: seq<string>, kept: set<string>)
    ensures Keep(a + b, kept) == Keep(a, kept) + Keep(b, kept)
  {
    if a == [] {
      assert a + b == b;
    } else {
      KeepAppend(a[1..], b, kept);
      assert (a + b)[0] == a[0] && (a + b)[1..] == a[1..] + b;
    }
  }

  lemma {:induction false} KeepAll(tl: seq<string>, kept: set<string>)
    requires forall s <- tl :: s in kept
    ensures Keep(tl, kept) == tl
  {
    if tl != [] {
      KeepAll(tl[1..], kept);
    }
  }

  lemma KeepInsertAt(tl: seq<string>, j: nat, s: string, kept: set<string>)
    requires j <= |tl| && s !in kept
    ensures Keep(tl[..j] + [s] + tl[j..], kept) == Keep(tl, kept)
  {
    var head, tail := tl[..j], tl[j..];
    KeepAppend(head + [s], tail, kept);
    KeepAppend(head, [s], kept);
    KeepAppend(head, tail, kept);
    assert Keep([s], kept) == [] && Keep(head, kept) + [] == Keep(head, kept);
    assert tl == head + tail;
  }

  /** Whatever is merged in, the entries of a set that holds none of the newcomers keep their order. */
  lemma {:induction false} MergeKeeps(tl: seq<string>, i: nat, recent: seq<Entry>, kept: set<string>)
    requires i <= |tl| && i <= MAX_TWEETS_IN_TIMELINE && MergeText(tl, i, recent).Some?
    requires forall e <- recent :: Encode(e) in tl || Encode(e) !in kept
    ensures Keep(MergeText(tl, i, recent).value, kept) == Keep(tl, kept)
    decreases |recent|
  {
    if recent != [] {
      var e, s := recent[0], Encode(recent[0]);
      assert recent == [e] + recent[1..];
      if s in tl {
        MergeKeeps(tl, i, recent[1..], kept);
      } else {
        var (tl', j) := MergeOneText(tl, i, e).value;
        var p := ScanText(tl, i, e.date).value;
        KeepInsertAt(tl, p, s, kept);
        if p == |tl| {
          assert tl[..p] + [s] + tl[p..] == tl + [s];
        }
        MergeOneAdds(tl, i, e);
        if j != MAX_TWEETS_IN_TIMELINE {
          MergeKeeps(tl', j, recent[1..], kept);
        }
      }
    }
  }

  /** The old timeline, in order, is what the timeline after the command holds of the old entries. */
  lemma OldTimelineKept(tl: seq<string>, recent: seq<Entry>)
    ensures Keep(Started(tl, recent), set s | s in tl) == tl
  {
    var old' := set s | s in tl;
    KeepAll(tl, old');
    if MergeText(tl, 0, recent).Some? {
      MergeKeeps(tl, 0, recent, old');
    }
  }

  // --- merging again ---------------------------------------------------------------------------

  lemma {:induction false} MissingAfter(tl: seq<string>, recent: seq<Entry>, m: nat)
    requires m <= |Missing(tl, recent)|
    ensures Missing(tl + Texts(Missing(tl, recent)[..m]), recent) == Missing(tl, recent)[m..]
    decreases |recent|
  {
    if m == 0 {
      assert tl + Texts(Missing(tl, recent)[..0]) == tl;
    } else if Encode(recent[0]) in tl {
      MissingAfter(tl, recent[1..], m);
      MissingSkips(tl + Texts(Missing(tl, recent)[..m]), recent);
    } else {
      var e, rest := recent[0], recent[1..];
      MissingAfter(tl + [Encode(e)], rest, m - 1);
      MissingAfterOne(tl, e, Missing(tl + [Encode(e)], rest), recent, m - 1);
    }
  }

  lemma MissingAfterOne(tl: seq<string>, e: Entry, more: seq<Entry>, recent: seq<Entry>, m: nat)
    requires recent != [] && recent[0] == e && m <= |more|
    requires Missing(tl + [Encode(e)] + Texts(more[..m]), recent[1..]) == more[m..]
    ensures Missing(tl + Texts(([e] + more)[..m + 1]), recent) == ([e] + more)[m + 1..]
  {
    var held := tl + [Encode(e)] + Texts(more[..m]);
    TextsStep(e, more, m);
    assert held == tl + ([Encode(e)] + Texts(more[..m]));
    assert held[|tl|] == Encode(e);
    MissingSkips(held, recent);
  }

  lemma MissingSkips(tl: seq<string>, recent: seq<Entry>)
    requires recent != [] && Encode(recent[0]) in tl
    ensures Missing(tl, recent) == Missing(tl, recent[1..])
  {}

  lemma {:induction false} MergeGrows(tl: seq<string>, i: nat, recent: seq<Entry>)
    requires i <= |tl| && i <= MAX_TWEETS_IN_TIMELINE && MergeText(tl, i, recent).Some?
    ensures |MergeText(tl, i, recent).value| >= |tl|
    decreases |recent|
  {
    if recent != [] {
      if Encode(recent[0]) in tl {
        MergeGrows(tl, i, recent[1..]);
      } else {
        var (tl', j) := MergeOneText(tl, i, recent[0]).value;
        if j != MAX_TWEETS_IN_TIMELINE {
          MergeGrows(tl', j, recent[1..]);
        }
      }
    }
  }

  /** The timeline is beyond the cap, and no entry before the cap is newer. */
  predicate CapBlocks(tl: seq<string>, e: Entry) {
    && |tl| > MAX_TWEETS_IN_TIMELINE
    && forall k :: 0 <= k < MAX_TWEETS_IN_TIMELINE ==> DateOf(tl[k]).Some? && DateOf(tl[k]).value <= e.date
  }

  lemma {:induction false} ScanBlocked(tl: seq<string>, i: nat, date: int)
    requires i <= MAX_TWEETS_IN_TIMELINE <= |tl|
    ensures ScanText(tl, i, date) == Some(MAX_TWEETS_IN_TIMELINE) <==>
            forall k :: i <= k < MAX_TWEETS_IN_TIMELINE ==> DateOf(tl[k]).Some? && DateOf(tl[k]).value <= date
    decreases MAX_TWEETS_IN_TIMELINE - i
  {
    if i < MAX_TWEETS_IN_TIMELINE {
      ScanBlocked(tl, i + 1, date);
    }
  }

  /** A merge that does not throw changes nothing exactly when nothing is missing or the cap blocks the
      first missing tweet. */
  lemma {:induction false} MergeUnchanged(tl: seq<string>, recent: seq<Entry>)
    requires MergeText(tl, 0, recent).Some?
    ensures MergeText(tl, 0, recent).value == tl <==>
            Missing(tl, recent) == [] || CapBlocks(tl, Missing(tl, recent)[0])
    decreases |recent|
  {
    if recent != [] {
      var e := recent[0];
      if Encode(e) in tl {
        MergeUnchanged(tl, recent[1..]);
      } else {
        var (tl', j) := MergeOneText(tl, 0, e).value;
        MergeOneAdds(tl, 0, e);
        if |tl| > MAX_TWEETS_IN_TIMELINE {
          ScanBlocked(tl, 0, e.date);
        }
        if j != MAX_TWEETS_IN_TIMELINE {
          MergeGrows(tl', j, recent[1..]);
        }
      }
    }
  }

  /** When start-following leaves the timeline as it was: it throws, or nothing is missing, or the cap blocks. */
  predicate StartIdle(tl: seq<string>, recent: seq<Entry>) {
    MergeText(tl, 0, recent).None? || Missing(tl, recent) == [] || CapBlocks(tl, Missing(tl, recent)[0])
  }

  lemma StartedUnchanged(tl: seq<string>, recent: seq<Entry>)
    ensures Started(tl, recent) == tl <==> StartIdle(tl, recent)
  {
    if MergeText(tl, 0, recent).Some? {
      MergeUnchanged(tl, recent);
    }
  }

  lemma {:induction false} NothingMissing(tl: seq<string>, i: nat, recent: seq<Entry>)
    requires i <= |tl| && i <= MAX_TWEETS_IN_TIMELINE && Missing(tl, recent) == []
    ensures MergeText(tl, i, recent) == Some(tl)
    decreases |recent|
  {
    if recent != [] {
      NothingMissing(tl, i, recent[1..]);
    }
  }

  lemma SameMultisetMembers(a: seq<string>, b: seq<string>)
    requires multiset(a) == multiset(b)
    ensures SameMembers(a, b)
  {
    forall s
      ensures s in a <==> s in b
    {
      assert s in a <==> s in multiset(a);
      assert s in b <==> s in multiset(b);
    }
  }

  lemma MissingLater(tl: seq<string>, recent: seq<Entry>) returns (m: nat)
    requires MergeText(tl, 0, recent).Some?
    ensures m <= |Missing(tl, recent)|
    ensures multiset(MergeText(tl, 0, recent).value) == multiset(tl) + multiset(Texts(Missing(tl, recent)[..m]))
    ensures Missing(MergeText(tl, 0, recent).value, recent) == Missing(tl, recent)[m..]
    ensures |tl| + |Missing(tl, recent)| <= MAX_TWEETS_IN_TIMELINE + 1 ==> m == |Missing(tl, recent)|
  {
    m := MergeAdds(tl, 0, recent);
    var held := tl + Texts(Missing(tl, recent)[..m]);
    SameMultisetMembers(MergeText(tl, 0, recent).value, held);
    MissingAgrees(MergeText(tl, 0, recent).value, held, recent);
    MissingAfter(tl, recent, m);
  }

  /** Within the cap, unless the command throws, every recent tweet that the timeline lacks is inserted
      exactly once, nothing else comes or goes, and a second execution changes nothing. */
  lemma MergeIdempotent(tl: seq<string>, recent: seq<Entry>)
    requires |tl| + |Missing(tl, recent)| <= MAX_TWEETS_IN_TIMELINE + 1 && MergeText(tl, 0, recent).Some?
    ensures var merged := MergeText(tl, 0, recent).value;
            && multiset(merged) == multiset(tl) + multiset(Texts(Missing(tl, recent)))
            && MergeText(merged, 0, recent) == Some(merged)
    ensures forall e :: multiset(Missing(tl, recent))[e] == if e in recent && Encode(e) !in tl then 1 else 0
  {
    var m := MissingLater(tl, recent);
    assert Missing(tl, recent)[..m] == Missing(tl, recent);
    NothingMissing(MergeText(tl, 0, recent).value, 0, recent);
    forall e
      ensures multiset(Missing(tl, recent))[e] == if e in recent && Encode(e) !in tl then 1 else 0
    {
      MissingOnce(tl, recent, e);
    }
  }

  /** At any size, whatever is stored: a second execution changes nothing exactly when it throws, or the first
      has taken in all missing tweets, or the cap blocks the first of those that it left out. */
  lemma MergeAgainExact(tl: seq<string>, recent: seq<Entry>) returns (m: nat)
    requires MergeText(tl, 0, recent).Some?
    ensures m <= |Missing(tl, recent)|
    ensures var missing := Missing(tl, recent);
            var merged := MergeText(tl, 0, recent).value;
            && multiset(merged) == multiset(tl) + multiset(Texts(missing[..m]))
            && (Started(merged, recent) == merged <==>
                MergeText(merged, 0, recent).None? || m == |missing| || CapBlocks(merged, missing[m]))
  {
    m := MissingLater(tl, recent);
    StartedUnchanged(MergeText(tl, 0, recent).value, recent);
  }

  /** Into an empty timeline, when the newest tweet cannot be read back, the merge throws as soon as
      there is another one. */
  lemma FirstFollowThrows(recent: seq<Entry>)
    requires recent != [] && DateOf(Encode(recent[0])).None?
    ensures MergeText([], 0, recent).None? <==> exists e <- recent :: e != recent[0]
  {
    var e, rest := recent[0], recent[1..];
    assert recent == [e] + rest;
    FirstAlone(e, rest);
    StopsAtUnreadable(e, rest);
    assert forall x :: x in recent <==> x == e || x in rest;
  }

  lemma FirstAlone(e: Entry, rest: seq<Entry>)
    ensures MergeText([], 0, [e] + rest) == MergeText([Encode(e)], 0, rest)
  {
    assert ([e] + rest)[0] == e && ([e] + rest)[1..] == rest;
    assert [] + [Encode(e)] == [Encode(e)];
    assert MergeOneText([], 0, e) == Some(([Encode(e)], 0));
  }

  lemma {:induction false} StopsAtUnreadable(e: Entry, rest: seq<Entry>)
    requires DateOf(Encode(e)).None?
    ensures MergeText([Encode(e)], 0, rest).None? <==> exists x <- rest :: x != e
    decreases |rest|
  {
    if rest != [] {
      EncodeInjective(rest[0], e);
      assert rest == [rest[0]] + rest[1..];
      if rest[0] == e {
        StopsAtUnreadable(e, rest[1..]);
        assert forall x :: x in rest <==> x == e || x in rest[1..];
      } else {
        assert rest[0] in rest && Encode(rest[0]) !in [Encode(e)];
        assert MergeOneText([Encode(e)], 0, rest[0]).None?;
      }
    }
  }

  // --- undoing ------------------------------------------------------------------------------------

  ghost predicate AllNamed(tl: seq<string>) { forall s <- tl :: NameOf(s).Some? }

  lemma {:induction false} WithoutIsKeep(tl: seq<string>, user: string, kept: set<string>)
    requires AllNamed(tl) && forall s <- tl :: s in kept <==> !Marked(s, user)
    ensures WithoutText(tl, user) == Some(Keep(tl, kept))
  {
    if tl != [] {
      WithoutIsKeep(tl[1..], user, kept);
    }
  }

  lemma {:induction false} WithoutThrows(tl: seq<string>, user: string)
    ensures WithoutText(tl, user).None? <==> !AllNamed(tl)
  {
    if tl != [] {
      WithoutThrows(tl[1..], user);
      assert tl == [tl[0]] + tl[1..];
    }
  }

  lemma {:induction false} WithoutHolds(tl: seq<string>, user: string)
    requires WithoutText(tl, user).Some?
    ensures forall s <- WithoutText(tl, user).value :: !Marked(s, user)
  {
    if tl != [] {
      WithoutHolds(tl[1..], user);
    }
  }

  /** Stop-following never removes anything for a user whose name has a colon. */
  lemma ColonRemovesNothing(tl: seq<string>, user: string)
    requires ':' in user
    ensures Stopped(tl, user) == tl
  {
    if AllNamed(tl) {
      forall s | s in tl
        ensures !Marked(s, user)
      {
        NeverMarked(s, user);
      }
      var kept := set s | s in tl;
      WithoutIsKeep(tl, user, kept);
      KeepAll(tl, kept);
    } else {
      WithoutThrows(tl, user);
    }
  }

  lemma StartedMembers(tl: seq<string>, recent: seq<Entry>)
    ensures forall s <- Started(tl, recent) :: s in tl || exists e <- recent :: s == Encode(e)
    ensures forall s <- tl :: s in Started(tl, recent)
  {
    if MergeText(tl, 0, recent).Some? {
      var merged := MergeText(tl, 0, recent).value;
      var m := MergeAdds(tl, 0, recent);
      var added := Missing(tl, recent)[..m];
      SameMultisetMembers(merged, tl + Texts(added));
      forall s | s in merged && s !in tl
        ensures exists e <- recent :: s == Encode(e)
      {
        assert s in tl + Texts(added);
        var i :| 0 <= i < |added| && Texts(added)[i] == s;
        MissingOnce(tl, recent, added[i]);
        assert added[i] in multiset(Missing(tl, recent));
      }
      forall s | s in tl
        ensures s in merged
      {
        assert s in tl + Texts(added);
      }
    }
  }

  lemma UnmarkedKept(tl: seq<string>, recent: seq<Entry>, user: string)
    requires AllNamed(tl) && (forall e <- recent :: Marked(Encode(e), user)) && forall s <- tl :: !Marked(s, user)
    ensures Stopped(Started(tl, recent), user) == tl
  {
    var after := Started(tl, recent);
    var kept := set s | s in tl;
    StartedMembers(tl, recent);
    WithoutIsKeep(after, user, kept);
    OldTimelineKept(tl, recent);
  }

  lemma MarkedGone(tl: seq<string>, recent: seq<Entry>, user: string, s: string)
    requires AllNamed(tl) && (forall e <- recent :: Marked(Encode(e), user)) && s in tl && Marked(s, user)
    ensures Stopped(Started(tl, recent), user) != tl
  {
    var after := Started(tl, recent);
    StartedMembers(tl, recent);
    WithoutThrows(after, user);
    WithoutHolds(after, user);
  }

  /** For every stored timeline and every followed user: stop-following after start-following gives back
      the timeline exactly when it held no entry marked for the user; but when the user's name has a
      colon, or some entry cannot be split, nothing is ever removed, so that start-following must
      have changed nothing. The cap does not matter. */
  lemma UndoExact(tl: seq<string>, recent: seq<Entry>, user: string)
    requires forall e <- recent :: exists n: nat :: e.id == TweetId(user, n)
    ensures Stopped(Started(tl, recent), user) == tl <==>
            if ':' in user || !AllNamed(tl) then StartIdle(tl, recent) else forall s <- tl :: !Marked(s, user)
  {
    StartedUnchanged(tl, recent);
    StartedMembers(tl, recent);
    if ':' in user {
      ColonRemovesNothing(Started(tl, recent), user);
    } else if !AllNamed(tl) {
      WithoutThrows(Started(tl, recent), user);
    } else {
      forall e | e in recent
        ensures Marked(Encode(e), user)
      {
        var n: nat :| e.id == TweetId(user, n);
        PrefixMeansAuthor(user, n, e.date, user);
      }
      if forall s <- tl :: !Marked(s, user) {
        UnmarkedKept(tl, recent, user);
      } else {
        var s :| s in tl && Marked(s, user);
        MarkedGone(tl, recent, user, s);
      }
    }
  }

  /** The same in terms of names, for timelines that hold tweets: when the user's name has no colon, the
      timeline comes back exactly when it held no tweet of that user, nor of anyone whose name, up to its
      first colon, starts with the user's name and a dash. */
  lemma UndoByAuthors(tl: seq<Entry>, recent: seq<Entry>, user: string, authors: seq<string>, indices: seq<nat>)
    requires |tl| == |authors| == |indices|
    requires forall k :: 0 <= k < |tl| ==> tl[k].id == TweetId(authors[k], indices[k])
    requires forall e <- recent :: exists n: nat :: e.id == TweetId(user, n)
    ensures Stopped(Started(Texts(tl), recent), user) == Texts(tl) <==>
            if ':' in user then StartIdle(Texts(tl), recent) else forall a <- authors :: !TakenFor(a, user)
  {
    UndoExact(Texts(tl), recent, user);
    forall k | 0 <= k < |tl|
      ensures NameOf(Texts(tl)[k]).Some? && (Marked(Texts(tl)[k], user) <==> TakenFor(authors[k], user))
    {
      EncodedReads(tl[k]);
      PrefixMeansAuthor(authors[k], indices[k], tl[k].date, user);
      assert tl[k] == Entry(TweetId(authors[k], indices[k]), tl[k].date);
    }
    MarkedByAuthor(Texts(tl), user, authors);
  }

  lemma MarkedByAuthor(tl: seq<string>, user: string, authors: seq<string>)
    requires |tl| == |authors| && forall k :: 0 <= k < |tl| ==> (Marked(tl[k], user) <==> TakenFor(authors[k], user))
    ensures (forall s <- tl :: !Marked(s, user)) <==> forall a <- authors :: !TakenFor(a, user)
  {
    if forall s <- tl :: !Marked(s, user) {
      forall a | a in authors
        ensures !TakenFor(a, user)
      {
        var k :| 0 <= k < |authors| && authors[k] == a;
        assert tl[k] in tl;
      }
    } else {
      var s :| s in tl && Marked(s, user);
      var k :| 0 <= k < |tl| && tl[k] == s;
      assert authors[k] in authors;
    }
  }

  /** The tweets of "x:y" stay: stop-following looks for "x:y-" in what stands before the first colon. */
  lemma ColonStays(date: int)
    ensures var tweet := Entry(TweetId("x:y", 1), date);
            Started([], [tweet]) == [Encode(tweet)] == Stopped(Started([], [tweet]), "x:y")
  {
    var tweet := Entry(TweetId("x:y", 1), date);
    assert [tweet] + [] == [tweet];
    FirstAlone(tweet, []);
    assert "x:y"[1] == ':';
    ColonRemovesNothing([Encode(tweet)], "x:y");
  }
}
