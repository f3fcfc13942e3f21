/** The stored timelines, lists of strings, and the three commands that change them: a tweet is inserted,
    the recent tweets of a newly followed user are merged in, those of an unfollowed user are removed. */
module Timeline {
  import opened Wrappers
  import opened Entries

  const MAX_TWEETS_IN_TIMELINE := 250

  // --- what the commands do to one list; None stands for an exception -----------------------

  /** TweetCommand.insertTweet. The loop reads entry 0 in every round, so a tweet that is not newer
      than the head goes to the end. */
  function InsertText(tl: seq<string>, e: Entry): Option<seq<string>> {
    if tl == [] then Some([Encode(e)])
    else
      match DateOf(tl[0])
      case None => None
      case Some(date) => Some(if date < e.date then [Encode(e)] + tl else tl + [Encode(e)])
  }

  /** StopFollowingCommand: without the marked entries. */
  function WithoutText(tl: seq<string>, user: string): Option<seq<string>> {
    if tl == [] then Some([])
    else if NameOf(tl[0]).None? then None
    else
      match WithoutText(tl[1..], user)
      case None => None
      case Some(rest) => Some(if Marked(tl[0], user) then rest else [tl[0]] + rest)
  }

  /** Where the inner loop of the merge stops: at an entry newer than the date, at the cap, or at the end. */
  function ScanText(tl: seq<string>, i: nat, date: int): (j: Option<nat>)
    requires i <= |tl|
    ensures j.Some? ==> i <= j.value <= |tl| && (i <= MAX_TWEETS_IN_TIMELINE ==> j.value <= MAX_TWEETS_IN_TIMELINE)
    decreases |tl| - i
  {
    if i < |tl| && i < MAX_TWEETS_IN_TIMELINE then
      match DateOf(tl[i])
      case None => None
      case Some(d) => if d > date then Some(i) else ScanText(tl, i + 1, date)
    else Some(i)
  }

  /** The timeline and the position after one tweet of the merge that is not in the timeline yet. */
  function MergeOneText(tl: seq<string>, i: nat, e: Entry): (r: Option<(seq<string>, nat)>)
    requires i <= |tl| && i <= MAX_TWEETS_IN_TIMELINE
    ensures r.Some? ==> r.value.1 <= |r.value.0| && r.value.1 <= MAX_TWEETS_IN_TIMELINE
  {
    match ScanText(tl, i, e.date)
    case None => None
    case Some(j) =>
      if j < |tl| && j < MAX_TWEETS_IN_TIMELINE then Some((tl[..j] + [Encode(e)] + tl[j..], j + 1))
      else Some((if j == |tl| then tl + [Encode(e)] else tl, j))
  }

  /** StartFollowingCommand: the merge loop from position i on. */
  function MergeText(tl: seq<string>, i: nat, recent: seq<Entry>): Option<seq<string>>
    requires i <= |tl| && i <= MAX_TWEETS_IN_TIMELINE
    decreases |recent|
  {
    if recent == [] then Some(tl)
    else if Encode(recent[0]) in tl then MergeText(tl, i, recent[1..])
    else
      match MergeOneText(tl, i, recent[0])
      case None => None
      case Some((tl', j)) => if j == MAX_TWEETS_IN_TIMELINE then Some(tl') else MergeText(tl', j, recent[1..])
  }

  // --- the code on one list --------------------------------------------------------------------

  /** A list of entries that a command has fetched. When a method returns false it has thrown, and
      nobody looks at the list again. */
  class UserTimeline {
    var entries: seq<string>

    constructor (entries: seq<string>)
      ensures this.entries == entries
    {
      this.entries := entries;
    }

    method InsertTweet(e: Entry) returns (ok: bool)
      modifies this
      ensures ok == InsertText(old(entries), e).Some?
      ensures ok ==> entries == InsertText(old(entries), e).value
    {
      var i := 0;
      while i < |entries|
        invariant 0 <= i <= |entries| && entries == old(entries)
        invariant i > 0 ==> DateOf(entries[0]).Some? && DateOf(entries[0]).value >= e.date
      {
        var date := DateOf(entries[0]);
        if date.None? {
          return false;
        }
        if date.value < e.date {
          entries := entries[..i] + [Encode(e)] + entries[i..];
          return true;
        }
        i := i + 1;
      }
      entries := entries + [Encode(e)];
      ok := true;
    }

    /** The inner loop of the merge: one recent tweet that is not in the timeline yet. */
    method MergeTweet(e: Entry, start: nat) returns (ok: bool, timelineIdx: nat)
      requires start <= |entries| && start <= MAX_TWEETS_IN_TIMELINE
      modifies this
      ensures ok == MergeOneText(old(entries), start, e).Some?
      ensures ok ==> (entries, timelineIdx) == MergeOneText(old(entries), start, e).value
    {
      timelineIdx := start;
      while timelineIdx < |entries| && timelineIdx < MAX_TWEETS_IN_TIMELINE
        invariant entries == old(entries)
        invariant timelineIdx <= |entries| && timelineIdx <= MAX_TWEETS_IN_TIMELINE
        invariant ScanText(entries, timelineIdx, e.date) == ScanText(entries, start, e.date)
      {
        var timelineDate := DateOf(entries[timelineIdx]);
        if timelineDate.None? {
          return false, timelineIdx;
        }
        if timelineDate.value > e.date {
          entries := entries[..timelineIdx] + [Encode(e)] + entries[timelineIdx..];
          timelineIdx := timelineIdx + 1;
          return true, timelineIdx;
        }
        timelineIdx := timelineIdx + 1;
      }
      if timelineIdx == |entries| {
        entries := entries + [Encode(e)];
      }
      ok := true;
    }

    method MergeRecent(recent: seq<Entry>) returns (ok: bool)
      modifies this
      ensures ok == MergeText(old(entries), 0, recent).Some?
      ensures ok ==> entries == MergeText(old(entries), 0, recent).value
    {
      var timelineIdx: nat := 0;
      var n := 0;
      while n < |recent|
        invariant 0 <= n <= |recent|
        invariant timelineIdx <= |entries| && timelineIdx <= MAX_TWEETS_IN_TIMELINE
        invariant MergeText(old(entries), 0, recent) == MergeText(entries, timelineIdx, recent[n..])
      {
        assert recent[n..][0] == recent[n] && recent[n..][1..] == recent[n + 1..];
        if Encode(recent[n]) !in entries {
          ok, timelineIdx := MergeTweet(recent[n], timelineIdx);
          if !ok {
            return;
          }
          if timelineIdx == MAX_TWEETS_IN_TIMELINE {
            return;
          }
        }
        n := n + 1;
      }
      ok := true;
    }

    method RemoveTweetsOf(user: string) returns (ok: bool)
      modifies this
      ensures ok == WithoutText(old(entries), user).Some?
      ensures ok ==> entries == WithoutText(old(entries), user).value
    {
      var i := 0;
      NothingInFront(WithoutText(entries, user));
      assert entries[..0] == [] && entries[0..] == entries;
      while i < |entries|
        invariant 0 <= i <= |entries|
        invariant WithoutText(old(entries), user) == Behind(entries[..i], WithoutText(entries[i..], user))
        decreases |entries| - i
      {
        ghost var front, rest := entries[..i], entries[i + 1..];
        assert entries[i..] == [entries[i]] + rest;
        WithoutStep(front, entries[i], rest, user);
        var id := NameOf(entries[i]);
        if id.None? {
          return false;
        }
        if HasPrefix(id.value, user + "-") {
          entries := entries[..i] + entries[i + 1..];
          assert entries[..i] == front && entries[i..] == rest;
        } else {
          assert entries[..i + 1] == front + [entries[i]];
          i := i + 1;
        }
      }
      assert entries[..i] == entries && entries[i..] == [];
      ok := true;
    }
  }

  function Behind(front: seq<string>, rest: Option<seq<string>>): Option<seq<string>> {
    match rest
    case None => None
    case Some(tl) => Some(front + tl)
  }

  lemma NothingInFront(rest: Option<seq<string>>)
    ensures Behind([], rest) == rest
  {
    if rest.Some? {
      assert [] + rest.value == rest.value;
    }
  }

  lemma WithoutStep(front: seq<string>, s: string, rest: seq<string>, user: string)
    ensures Behind(front, WithoutText([s] + rest, user)) ==
            if NameOf(s).None? then None
            else Behind(if Marked(s, user) then front else front + [s], WithoutText(rest, user))
  {
    assert ([s] + rest)[1..] == rest;
    if WithoutText(rest, user).Some? {
      var tl := WithoutText(rest, user).value;
      assert front + ([s] + tl) == front + [s] + tl;
    }
  }

  // --- the commands on the store --------------------------------------------------------------------

  type Timelines = map<string, seq<string>>

  /** A user without a stored timeline has an empty one. */
  function At(timelines: Timelines, user: string): seq<string> {
    if user in timelines then timelines[user] else []
  }

  /** What the store holds after each command: an exception comes before the put. */
  function Tried(tl: seq<string>, e: Entry): seq<string> {
    match InsertText(tl, e) case None => tl case Some(r) => r
  }

  function Started(tl: seq<string>, recent: seq<Entry>): seq<string> {
    match MergeText(tl, 0, recent) case None => tl case Some(r) => r
  }

  function Stopped(tl: seq<string>, user: string): seq<string> {
    match WithoutText(tl, user) case None => tl case Some(r) => r
  }

  class TimelineStore {
    var timelines: Timelines

    constructor ()
      ensures timelines == map[]
    {
      timelines := map[];
    }

    /** TweetCommand.updateTimeline */
    method Insert(user: string, e: Entry) returns (ok: bool)
      modifies this
      ensures ok == InsertText(At(old(timelines), user), e).Some?
      ensures At(timelines, user) == Tried(At(old(timelines), user), e)
      ensures forall u :: u != user ==> At(timelines, u) == At(old(timelines), u)
    {
      var timeline := new UserTimeline(At(timelines, user));
      ok := timeline.InsertTweet(e);
      if ok {
        timelines := timelines[user := timeline.entries];
      }
    }

    /** StartFollowingCommand, with the recent tweets of the user to follow. */
    method Start(user: string, recent: seq<Entry>) returns (ok: bool)
      modifies this
      ensures ok == MergeText(At(old(timelines), user), 0, recent).Some?
      ensures At(timelines, user) == Started(At(old(timelines), user), recent)
      ensures forall u :: u != user ==> At(timelines, u) == At(old(timelines), u)
    {
      var timeline := new UserTimeline(At(timelines, user));
      ok := timeline.MergeRecent(recent);
      if ok {
        timelines := timelines[user := timeline.entries];
      }
    }

    /** StopFollowingCommand */
    method Stop(user: string, other: string) returns (ok: bool)
      modifies this
      ensures ok == WithoutText(At(old(timelines), user), other).Some?
      ensures At(timelines, user) == Stopped(At(old(timelines), user), other)
      ensures forall u :: u != user ==> At(timelines, u) == At(old(timelines), u)
    {
      if user !in timelines {
        return true;
      }
      var timeline := new UserTimeline(timelines[user]);
      ok := timeline.RemoveTweetsOf(other);
      if ok {
        timelines := timelines[user := timeline.entries];
      }
    }
  }

  // --- what insertions add ------------------------------------------------------------------------------

  /** No tweet can be inserted any more once entry 0 cannot be read. */
  predicate Blocked(tl: seq<string>) { tl != [] && DateOf(tl[0]).None? }

  lemma InsertAdds(tl: seq<string>, e: Entry)
    ensures InsertText(tl, e).None? <==> Blocked(tl)
    ensures InsertText(tl, e).Some? ==> multiset(InsertText(tl, e).value) == multiset(tl) + multiset{Encode(e)}
  {}
}
