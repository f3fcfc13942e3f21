/** A user's own tweets: counted and stored by tweet(), read back newest-first by getTweets(). */
module TweetListing {
  import opened Wrappers
  import opened Decimal
  import opened Entries

  type Fields = map<string, string>

  datatype Stored = Stored(id: string, fields: Fields)

  // --- 32-bit integers -----------------------------------------------------------------

  const TWO_32 := 0x1_0000_0000

  predicate IsInt32(x: int) { -0x8000_0000 <= x < 0x8000_0000 }

  /** The int with the given bits. */
  function Signed(d: nat): (x: int)
    requires d < TWO_32
    ensures IsInt32(x)
  {
    if d < 0x8000_0000 then d else d - TWO_32
  }

  /** The sum or difference of two ints. */
  function Wrap(x: int): (r: int)
    requires -TWO_32 <= x < TWO_32
    ensures IsInt32(r)
  {
    if x < -0x8000_0000 then x + TWO_32 else if x < 0x8000_0000 then x else x - TWO_32
  }

  /** It is the only int that differs by a multiple of 2^32. */
  lemma WrapExact(x: int, r: int)
    requires -TWO_32 <= x < TWO_32 && IsInt32(r)
    ensures (r - x) % 0x1_0000_0000 == 0 <==> r == Wrap(x)
  {}

  // --- listing ----------------------------------------------------------------------------

  function Key(user: string, idx: int): string { user + "-" + DecInt(idx) }

  /** The stored tweets at the next d indices that the loop visits: down to 1. */
  function Walk(tweets: map<string, Fields>, user: string, d: nat): seq<Stored>
    requires d < TWO_32
  {
    if d == 0 then []
    else
      var key, rest := Key(user, Signed(d)), Walk(tweets, user, d - 1);
      if key in tweets then [Stored(key, tweets[key])] + rest else rest
  }

  /** At most n elements; none when n is not positive. */
  function Cut(s: seq<Stored>, n: int): seq<Stored> {
    if n <= 0 then [] else if |s| <= n then s else s[..n]
  }

  /** All that the service keeps for the users: their counters, and the tweets. */
  datatype Data = Data(lastTweet: map<string, nat>, tweets: map<string, Fields>)

  /** What getTweets lists for an existing user. */
  function Listing(data: Data, user: string, start: int, count: int): seq<Stored>
    requires user in data.lastTweet && IsInt32(data.lastTweet[user]) && IsInt32(start) && IsInt32(count)
  {
    Cut(Walk(data.tweets, user, Left(data.lastTweet[user], start)), Wrap(start + count))
  }

  /** How many indices are left when the loop has reached i. */
  function Left(lastTweet: int, i: int): (d: nat)
    requires IsInt32(lastTweet) && IsInt32(i)
    ensures d < TWO_32 && Signed(d) == Wrap(lastTweet - i)
  {
    if i <= lastTweet then lastTweet - i else lastTweet - i + TWO_32
  }

  /** One round of the loop. */
  lemma WalkRound(tweets: map<string, Fields>, user: string, lastTweet: int, i: int)
    requires IsInt32(lastTweet) && IsInt32(i)
    ensures var idx := Wrap(lastTweet - i);
            if idx == 0 then Walk(tweets, user, Left(lastTweet, i)) == []
            else
              && Left(lastTweet, Wrap(i + 1)) < Left(lastTweet, i)
              && Walk(tweets, user, Left(lastTweet, i)) ==
                 (var rest := Walk(tweets, user, Left(lastTweet, Wrap(i + 1)));
                  if Key(user, idx) in tweets then [Stored(Key(user, idx), tweets[Key(user, idx)])] + rest else rest)
  {}

  lemma CutOff(list: seq<Stored>, rest: seq<Stored>, n: int)
    requires (|list| == 0 || |list| <= n) && (|list| < n ==> rest == [])
    ensures Cut(list + rest, n) == list
  {
    if n > 0 && |list| == n {
      assert (list + rest)[..n] == list;
    }
  }

  /** The loop of getTweets. */
  method ListTweets(tweets: map<string, Fields>, user: string, lastTweet: int, start: int, limit: int)
    returns (tweetList: seq<Stored>)
    requires IsInt32(lastTweet) && IsInt32(start)
    ensures tweetList == Cut(Walk(tweets, user, Left(lastTweet, start)), limit)
  {
    tweetList := [];
    var i := start;
    while |tweetList| < limit
      invariant IsInt32(i)
      invariant Walk(tweets, user, Left(lastTweet, start)) == tweetList + Walk(tweets, user, Left(lastTweet, i))
      invariant tweetList == [] || |tweetList| <= limit
      decreases Left(lastTweet, i)
    {
      WalkRound(tweets, user, lastTweet, i);
      var idx := Wrap(lastTweet - i);
      if idx == 0 {
        break;
      }
      var id := Key(user, idx);
      i := Wrap(i + 1);
      if id in tweets {
        AppendFound(tweetList, Stored(id, tweets[id]), Walk(tweets, user, Left(lastTweet, i)));
        tweetList := tweetList + [Stored(id, tweets[id])];
      }
    }
    CutOff(tweetList, Walk(tweets, user, Left(lastTweet, i)), limit);
  }

  lemma AppendFound(list: seq<Stored>, x: Stored, rest: seq<Stored>)
    ensures list + ([x] + rest) == list + [x] + rest
  {}

  class TweetService {
    var data: Data

    constructor (data: Data)
      ensures this.data == data
    {
      this.data := data;
    }

    /** For every pair of ints the loop ends. None stands for UserNotFoundException. */
    method GetTweets(user: string, start: int, count: int) returns (r: Option<seq<Stored>>)
      requires IsInt32(start) && IsInt32(count)
      requires user in data.lastTweet ==> IsInt32(data.lastTweet[user])
      ensures r == if user !in data.lastTweet then None else Some(Listing(data, user, start, count))
    {
      if user !in data.lastTweet {
        return None;
      }
      var tweetList := ListTweets(data.tweets, user, data.lastTweet[user], start, Wrap(start + count));
      r := Some(tweetList);
    }

    /** The update action of tweet(): count up. The index that it returns is the caller's alone. */
    method NextIndex(user: string) returns (idx: Option<int>)
      modifies this
      ensures idx == if user in old(data).lastTweet then Some(old(data).lastTweet[user] + 1) else None
      ensures data == if user in old(data).lastTweet then Counted(old(data), user) else old(data)
    {
      if user !in data.lastTweet {
        return None;
      }
      var lastTweet := data.lastTweet[user] + 1;
      data := data.(lastTweet := data.lastTweet[user := lastTweet]);
      idx := Some(lastTweet);
    }
  }

  // --- runs ---------------------------------------------------------------------------------

  function Counted(data: Data, user: string): Data
    requires user in data.lastTweet
  {
    data.(lastTweet := data.lastTweet[user := data.lastTweet[user] + 1])
  }

  /** A tweet command that has its index; the store may keep it waiting, or never be asked. */
  datatype Issued = Issued(user: string, idx: int)

  datatype State = State(data: Data, issued: set<Issued>)

  datatype Event =
    | Register(user: string)                  // a new user, with the counter at 0
    | Count(user: string)                     // tweet() takes the next index
    | Put(command: Issued, fields: Fields)    // the command runs, or runs again, and stores its tweet

  const START := State(Data(map[], map[]), {})

  predicate Enabled(s: State, e: Event) {
    match e
    case Register(user) => user !in s.data.lastTweet
    case Count(user) => user in s.data.lastTweet
    case Put(command, _) => command in s.issued
  }

  function Step(s: State, e: Event): State
    requires Enabled(s, e)
  {
    match e
    case Register(user) => s.(data := s.data.(lastTweet := s.data.lastTweet[user := 0]))
    case Count(user) => State(Counted(s.data, user), s.issued + {Issued(user, s.data.lastTweet[user] + 1)})
    case Put(c, fields) => s.(data := s.data.(tweets := s.data.tweets[Key(c.user, c.idx) := fields]))
  }

  ghost predicate Reaches(s: State, events: seq<Event>, t: State)
    decreases |events|
  {
    if events == [] then s == t else Enabled(s, events[0]) && Reaches(Step(s, events[0]), events[1..], t)
  }

  ghost predicate InRange(s: State) {
    && (forall u <- s.data.lastTweet :: s.data.lastTweet[u] >= 0)
    && (forall c <- s.issued :: c.user in s.data.lastTweet && 1 <= c.idx <= s.data.lastTweet[c.user])
    && (forall id <- s.data.tweets :: exists c <- s.issued :: id == Key(c.user, c.idx))
  }

  lemma StepInRange(s: State, e: Event)
    requires InRange(s) && Enabled(s, e)
    ensures InRange(Step(s, e))
  {
    var s' := Step(s, e);
    forall id | id in s'.data.tweets
      ensures exists c <- s'.issued :: id == Key(c.user, c.idx)
    {
      if id in s.data.tweets {
        var c :| c in s.issued && id == Key(c.user, c.idx);
        assert c in s'.issued;
      }
    }
  }

  lemma {:induction false} AlwaysInRange(s: State, events: seq<Event>, t: State)
    requires InRange(s) && Reaches(s, events, t)
    ensures InRange(t)
    decreases |events|
  {
    if events != [] {
      StepInRange(s, events[0]);
      AlwaysInRange(Step(s, events[0]), events[1..], t);
    }
  }

  /** Ids of different tweets are different. */
  lemma KeyInjective(u: string, m: int, v: string, n: int)
    requires m >= 0 && n >= 0
    ensures Key(u, m) == Key(v, n) <==> u == v && m == n
  {
    if Key(u, m) == Key(v, n) {
      assert Key(u, m) == TweetId(u, m) && Key(v, n) == TweetId(v, n);
      assert Key(u, m)[|u|] == '-' && Key(v, n)[|v|] == '-';
      DashPlace(u, m, |v|);
      DashPlace(v, n, |u|);
      assert u == Key(u, m)[..|u|] && v == Key(v, n)[..|v|];
      assert Dec(m) == Key(u, m)[|u| + 1..] && Dec(n) == Key(v, n)[|v| + 1..];
      DecValue(m);
      DecValue(n);
    }
  }

  ghost predicate NoGaps(s: State) {
    forall u, k :: u in s.data.lastTweet && 1 <= k <= s.data.lastTweet[u] ==> Issued(u, k) in s.issued
  }

  lemma {:induction false} AlwaysNoGaps(s: State, events: seq<Event>, t: State)
    requires NoGaps(s) && Reaches(s, events, t)
    ensures NoGaps(t)
    decreases |events|
  {
    if events != [] {
      AlwaysNoGaps(Step(s, events[0]), events[1..], t);
    }
  }

  /** In every run the indices that a user's tweets have been given are exactly those from 1 to the counter. */
  lemma IssuedExactly(events: seq<Event>, t: State, user: string, k: int)
    requires Reaches(START, events, t) && user in t.data.lastTweet
    ensures Issued(user, k) in t.issued <==> 1 <= k <= t.data.lastTweet[user]
  {
    AlwaysInRange(START, events, t);
    AlwaysNoGaps(START, events, t);
  }

  /** In every run an index is given out once, and a tweet is stored only under an index from 1 to
      the counter; indices whose command never ran are gaps. */
  lemma StoredInRange(events: seq<Event>, t: State, user: string, k: int)
    requires Reaches(START, events, t) && k >= 0 && Key(user, k) in t.data.tweets
    ensures user in t.data.lastTweet && 1 <= k <= t.data.lastTweet[user]
  {
    AlwaysInRange(START, events, t);
    var c :| c in t.issued && Key(user, k) == Key(c.user, c.idx);
    KeyInjective(user, k, c.user, c.idx);
  }

  lemma {:induction false} WalkHolds(tweets: map<string, Fields>, user: string, d: nat, x: Stored)
    requires d < 0x8000_0000
    ensures x in Walk(tweets, user, d) <==>
            x.id in tweets && tweets[x.id] == x.fields && exists k :: 1 <= k <= d && x.id == Key(user, k)
  {
    if d > 0 {
      WalkHolds(tweets, user, d - 1, x);
      if x.id == Key(user, d) {
        assert 1 <= d <= d;
      }
      if exists k :: 1 <= k <= d && x.id == Key(user, k) {
        var k :| 1 <= k <= d && x.id == Key(user, k);
        assert k <= d - 1 || k == d;
      }
    }
  }

  lemma {:induction false} WalkDescends(tweets: map<string, Fields>, user: string, d: nat) returns (ks: seq<int>)
    requires d < 0x8000_0000
    ensures |ks| == |Walk(tweets, user, d)|
    ensures forall i :: 0 <= i < |ks| ==> 1 <= ks[i] <= d && Walk(tweets, user, d)[i].id == Key(user, ks[i])
    ensures forall i, j :: 0 <= i < j < |ks| ==> ks[i] > ks[j]
    ensures forall k :: 1 <= k <= d && Key(user, k) in tweets ==> k in ks
  {
    if d == 0 {
      ks := [];
    } else {
      ks := WalkDescends(tweets, user, d - 1);
      if Key(user, d) in tweets {
        ks := [d] + ks;
      }
    }
  }

  lemma {:induction false} WalkShort(tweets: map<string, Fields>, user: string, d: nat)
    requires d < TWO_32
    ensures |Walk(tweets, user, d)| <= d
  {
    if d > 0 {
      WalkShort(tweets, user, d - 1);
    }
  }

  lemma WholeListing(data: Data, user: string, count: int)
    requires user in data.lastTweet && IsInt32(count) && data.lastTweet[user] <= count
    ensures Listing(data, user, 0, count) == Walk(data.tweets, user, data.lastTweet[user])
  {
    WalkShort(data.tweets, user, data.lastTweet[user]);
  }

  /** The listing is complete: in every run, asking for at least as many tweets as there are
      indices gives exactly the stored tweets of the user. */
  lemma ListingComplete(events: seq<Event>, t: State, user: string, count: int, x: Stored)
    requires Reaches(START, events, t) && user in t.data.lastTweet
    requires IsInt32(count) && t.data.lastTweet[user] <= count
    ensures x in Listing(t.data, user, 0, count) <==>
            x.id in t.data.tweets && t.data.tweets[x.id] == x.fields && exists k :: k >= 0 && x.id == Key(user, k)
  {
    WholeListing(t.data, user, count);
    WalkHolds(t.data.tweets, user, t.data.lastTweet[user], x);
    if x.id in t.data.tweets && exists k :: k >= 0 && x.id == Key(user, k) {
      var k :| k >= 0 && x.id == Key(user, k);
      StoredInRange(events, t, user, k);
    }
  }

  /** A page that starts within the list holds the newest stored tweets from index lastTweet - start
      down, each once, in falling order: it leaves one out only below its last, when it is full. */
  lemma PageExact(data: Data, user: string, start: int, count: int) returns (ks: seq<int>)
    requires user in data.lastTweet && IsInt32(count) && 0 <= start <= data.lastTweet[user] < 0x8000_0000
    ensures |ks| == |Listing(data, user, start, count)|
    ensures forall i :: 0 <= i < |ks| ==>
              1 <= ks[i] <= data.lastTweet[user] - start && Listing(data, user, start, count)[i].id == Key(user, ks[i])
    ensures forall i, j :: 0 <= i < j < |ks| ==> ks[i] > ks[j]
    ensures |ks| == 0 || |ks| <= Wrap(start + count)
    ensures forall k :: 1 <= k <= data.lastTweet[user] - start && Key(user, k) in data.tweets ==>
              k in ks || (|ks| >= Wrap(start + count) && forall j <- ks :: k < j)
  {
    var all := WalkDescends(data.tweets, user, data.lastTweet[user] - start);
    var n := |Listing(data, user, start, count)|;
    ks := all[..n];
    forall k | 1 <= k <= data.lastTweet[user] - start && Key(user, k) in data.tweets
      ensures k in ks || (n >= Wrap(start + count) && forall j <- ks :: k < j)
    {
      var i :| 0 <= i < |all| && all[i] == k;
      assert i < n ==> ks[i] == k;
    }
  }

  lemma {:induction false} WalkSkips(tweets: map<string, Fields>, user: string, from: nat, d: nat)
    requires from <= d < TWO_32 && forall k :: from < k <= d ==> Key(user, Signed(k)) !in tweets
    ensures Walk(tweets, user, d) == Walk(tweets, user, from)
    decreases d
  {
    if from < d {
      WalkSkips(tweets, user, from, d - 1);
    }
  }

  lemma NegativeKey(user: string, k: nat)
    requires k > 0
    ensures Key(user, 0 - k) == Key(user + "-", k)
  {
    assert DecInt(0 - k) == "-" + DecInt(k);
  }

  lemma KeyAbsent(events: seq<Event>, t: State, user: string, k: nat)
    requires Reaches(START, events, t) && user in t.data.lastTweet && t.data.lastTweet[user] < k
    ensures Key(user, k) !in t.data.tweets
  {
    if Key(user, k) in t.data.tweets {
      StoredInRange(events, t, user, k);
    }
  }

  const INDEX_END := 0x8000_0000

  /** The stored tweets of a user from an index up, as far as an int counts down. */
  function Climb(tweets: map<string, Fields>, user: string, k: nat): seq<Stored>
    decreases INDEX_END - k
  {
    if k > INDEX_END then []
    else
      var key, rest := Key(user, k), Climb(tweets, user, k + 1);
      if key in tweets then [Stored(key, tweets[key])] + rest else rest
  }

  /** The tweet at one index, if it is stored. */
  function Found(tweets: map<string, Fields>, user: string, k: nat): seq<Stored> {
    if Key(user, k) in tweets then [Stored(Key(user, k), tweets[Key(user, k)])] else []
  }

  lemma ClimbFinds(tweets: map<string, Fields>, user: string, k: nat)
    requires k <= INDEX_END
    ensures Climb(tweets, user, k) == Found(tweets, user, k) + Climb(tweets, user, k + 1)
  {}

  lemma WalkFinds(tweets: map<string, Fields>, user: string, d: nat)
    requires INDEX_END <= d < TWO_32
    ensures Walk(tweets, user, d) == Found(tweets, user + "-", TWO_32 - d) + Walk(tweets, user, d - 1)
  {
    NegativeKey(user, TWO_32 - d);
    assert Signed(d) == 0 - (TWO_32 - d);
  }

  lemma AppendThree(a: seq<Stored>, b: seq<Stored>, c: seq<Stored>)
    ensures a + (b + c) == (a + b) + c
  {}

  /** On the negative half the walk climbs through the tweets of the user whose name has one more dash. */
  lemma {:induction false} WalkClimbs(tweets: map<string, Fields>, user: string, d: nat)
    requires INDEX_END <= d < TWO_32
    ensures Walk(tweets, user, d) == Climb(tweets, user + "-", TWO_32 - d) + Walk(tweets, user, INDEX_END - 1)
    decreases d
  {
    var k, last := TWO_32 - d, Walk(tweets, user, INDEX_END - 1);
    WalkFinds(tweets, user, d);
    ClimbFinds(tweets, user + "-", k);
    if d == INDEX_END {
      assert Climb(tweets, user + "-", k + 1) == [];
    } else {
      WalkClimbs(tweets, user, d - 1);
      AppendThree(Found(tweets, user + "-", k), Climb(tweets, user + "-", k + 1), last);
    }
  }

  lemma {:induction false} ClimbHolds(tweets: map<string, Fields>, user: string, k: nat, x: Stored)
    ensures x in Climb(tweets, user, k) <==>
            x.id in tweets && tweets[x.id] == x.fields && exists i :: k <= i <= INDEX_END && x.id == Key(user, i)
    decreases INDEX_END - k
  {
    if k <= INDEX_END {
      ClimbHolds(tweets, user, k + 1, x);
      if x.id == Key(user, k) {
        assert k <= k <= INDEX_END;
      }
      if exists i :: k <= i <= INDEX_END && x.id == Key(user, i) {
        var i :| k <= i <= INDEX_END && x.id == Key(user, i);
        assert i >= k + 1 || i == k;
      }
    }
  }

  /** No tweet is stored above the counter. */
  lemma NothingAbove(events: seq<Event>, t: State, user: string, d: nat)
    requires Reaches(START, events, t) && user in t.data.lastTweet && 0 <= t.data.lastTweet[user] <= d < INDEX_END
    ensures Walk(t.data.tweets, user, d) == Walk(t.data.tweets, user, t.data.lastTweet[user])
  {
    forall k | t.data.lastTweet[user] < k <= d
      ensures Key(user, Signed(k)) !in t.data.tweets
    {
      KeyAbsent(events, t, user, k);
    }
    WalkSkips(t.data.tweets, user, t.data.lastTweet[user], d);
  }

  /** From above the counter the walk comes to the user's tweets, on the negative half through those of the other. */
  lemma WalkFrom(events: seq<Event>, t: State, user: string, d: nat)
    requires Reaches(START, events, t) && user in t.data.lastTweet && 0 <= t.data.lastTweet[user] <= d < TWO_32
    requires IsInt32(t.data.lastTweet[user])
    ensures Walk(t.data.tweets, user, d) ==
            (if d < INDEX_END then [] else Climb(t.data.tweets, user + "-", TWO_32 - d))
            + Walk(t.data.tweets, user, t.data.lastTweet[user])
  {
    if d < INDEX_END {
      NothingAbove(events, t, user, d);
      assert [] + Walk(t.data.tweets, user, d) == Walk(t.data.tweets, user, d);
    } else {
      WalkClimbs(t.data.tweets, user, d);
      NothingAbove(events, t, user, INDEX_END - 1);
    }
  }

  /** A page that starts behind the last tweet is not empty: the loop counts down through all negative
      indices, whose ids are those of the user with one more dash, and wraps around. So it lists the tweets of
      that user from index start - lastTweet up, and then the newest tweets again. */
  lemma PastTheEnd(events: seq<Event>, t: State, user: string, start: int, count: int)
    requires Reaches(START, events, t) && user in t.data.lastTweet
    requires IsInt32(start) && IsInt32(count) && start > t.data.lastTweet[user]
    ensures Listing(t.data, user, start, count) ==
            Cut(Climb(t.data.tweets, user + "-", start - t.data.lastTweet[user])
                + Walk(t.data.tweets, user, t.data.lastTweet[user]), Wrap(start + count))
  {
    AlwaysInRange(START, events, t);
    WalkFrom(events, t, user, Left(t.data.lastTweet[user], start));
  }

  /** A negative start is as good as 0, until the difference overflows; then the page begins like one behind the
      last tweet. */
  lemma NegativeStart(events: seq<Event>, t: State, user: string, start: int, count: int)
    requires Reaches(START, events, t) && user in t.data.lastTweet && IsInt32(t.data.lastTweet[user])
    requires IsInt32(start) && IsInt32(count) && start < 0
    ensures var last := t.data.lastTweet[user];
            Listing(t.data, user, start, count) ==
            Cut((if last - start < INDEX_END then [] else Climb(t.data.tweets, user + "-", TWO_32 - (last - start)))
                + Walk(t.data.tweets, user, last), Wrap(start + count))
  {
    AlwaysInRange(START, events, t);
    WalkFrom(events, t, user, t.data.lastTweet[user] - start);
  }

  predicate Owns(user: string, k: int, x: Stored) { x.id == Key(user, k) }

  /** The tweet is one of the user's. */
  ghost predicate IsOf(x: Stored, user: string) { exists k: nat :: Owns(user, k, x) }

  lemma NotOfOther(user: string, k: nat, x: Stored)
    requires Owns(user + "-", k, x)
    ensures !IsOf(x, user)
  {
    if IsOf(x, user) {
      var i: nat :| Owns(user, i, x);
      KeyInjective(user, i, user + "-", k);
    }
  }

  lemma CutFirst(a: seq<Stored>, b: seq<Stored>, n: int)
    requires a != [] && n > 0
    ensures a[0] in Cut(a + b, n)
  {
    assert Cut(a + b, n)[0] == a[0];
  }

  /** Such a page holds only tweets of the user exactly when it is cut to nothing or the user with one
      more dash has no stored tweet from index start - lastTweet on. */
  lemma PastTheEndOwn(events: seq<Event>, t: State, user: string, start: int, count: int)
    requires Reaches(START, events, t) && user in t.data.lastTweet
    requires IsInt32(start) && IsInt32(count) && start > t.data.lastTweet[user]
    ensures (forall x <- Listing(t.data, user, start, count) :: IsOf(x, user))
            <==> Wrap(start + count) <= 0 ||
                 forall k :: start - t.data.lastTweet[user] <= k <= INDEX_END ==> Key(user + "-", k) !in t.data.tweets
  {
    var tweets, last, n := t.data.tweets, t.data.lastTweet[user], Wrap(start + count);
    var foreign, own := Climb(tweets, user + "-", start - last), Walk(tweets, user, last);
    PastTheEnd(events, t, user, start, count);
    if n > 0 {
      if foreign != [] {
        ClimbHolds(tweets, user + "-", start - last, foreign[0]);
        var k :| start - last <= k <= INDEX_END && foreign[0].id == Key(user + "-", k);
        NotOfOther(user, k, foreign[0]);
        CutFirst(foreign, own, n);
      } else {
        assert foreign + own == own;
        OwnWalk(tweets, user, last);
        NothingToClimb(tweets, user + "-", start - last);
      }
    }
  }

  lemma OwnWalk(tweets: map<string, Fields>, user: string, d: nat)
    requires d < INDEX_END
    ensures forall x <- Walk(tweets, user, d) :: IsOf(x, user)
  {
    forall x | x in Walk(tweets, user, d)
      ensures IsOf(x, user)
    {
      WalkHolds(tweets, user, d, x);
      var k :| 1 <= k <= d && x.id == Key(user, k);
      assert Owns(user, k, x);
    }
  }

  lemma NothingToClimb(tweets: map<string, Fields>, user: string, from: nat)
    requires Climb(tweets, user, from) == []
    ensures forall k :: from <= k <= INDEX_END ==> Key(user, k) !in tweets
  {
    forall k | from <= k <= INDEX_END
      ensures Key(user, k) !in tweets
    {
      if Key(user, k) in tweets {
        ClimbHolds(tweets, user, from, Stored(Key(user, k), tweets[Key(user, k)]));
      }
    }
  }

  lemma TwoUsers(fields: Fields) returns (events: seq<Event>, t: State)
    ensures Reaches(START, events, t)
    ensures t.data == Data(map["a" := 0, "a-" := 1], map[Key("a-", 1) := fields])
  {
    var put := Put(Issued("a-", 1), fields);
    var s1 := Step(START, Register("a"));
    var s2 := Step(s1, Register("a-"));
    var s3 := Step(s2, Count("a-"));
    t := Step(s3, put);
    assert Reaches(s3, [put], t);
    assert Reaches(s2, [Count("a-"), put], t) by { assert [Count("a-"), put][1..] == [put]; }
    assert Reaches(s1, [Register("a-"), Count("a-"), put], t) by {
      assert [Register("a-"), Count("a-"), put][1..] == [Count("a-"), put];
    }
    events := [Register("a"), Register("a-"), Count("a-"), put];
    assert events[1..] == [Register("a-"), Count("a-"), put];
  }

  /** It happens: "a" has no tweets, asks for a page from 1 on, and gets the tweet of "a-". */
  lemma ForeignTweetListed(fields: Fields, count: nat) returns (events: seq<Event>, t: State, x: Stored)
    requires IsInt32(1 + count)
    ensures Reaches(START, events, t) && t.data.lastTweet == map["a" := 0, "a-" := 1]
    ensures x == Stored(Key("a-", 1), fields) && x in Listing(t.data, "a", 1, count) && !IsOf(x, "a")
  {
    events, t := TwoUsers(fields);
    x := Stored(Key("a-", 1), fields);
    PastTheEnd(events, t, "a", 1, count);
    assert "a" + "-" == "a-";
    var foreign := Climb(t.data.tweets, "a-", 1);
    assert x.id in t.data.tweets && foreign == [x] + Climb(t.data.tweets, "a-", 2);
    CutFirst(foreign, Walk(t.data.tweets, "a", 0), 1 + count);
    NotOfOther("a", 1, x);
  }
}
