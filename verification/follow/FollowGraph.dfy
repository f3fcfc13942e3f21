/** The follow graph: every user record holds the encoded set of the users followed and the encoded
    set of followers; start and stop commands change two records. */
module FollowGraph {
  import opened Wrappers
  import opened JavaStrings
  import opened UserSets
  import FanOut
  import FanOutQuery

  /** The two fields of a user record; None until first written. */
  datatype User = User(following: Option<string>, followers: Option<string>)

  type Users = map<string, User>

  function Following(users: Users, u: string): set<string> {
    if u in users then Decoded(users[u].following) else {}
  }

  function FollowersOf(users: Users, u: string): set<string> {
    if u in users then Decoded(users[u].followers) else {}
  }

  // --- the commands, as steps --------------------------------------------------------------

  /** Each command carries the strings that it writes into the two records. */
  datatype Command =
    | Register(user: string)
    | Start(user: string, other: string, following: string, followers: string)
    | Stop(user: string, other: string, following: string, followers: string)

  function PutFollowing(users: Users, u: string, s: string): Users {
    if u in users then users[u := users[u].(following := Some(s))] else users
  }

  function PutFollowers(users: Users, u: string, s: string): Users {
    if u in users then users[u := users[u].(followers := Some(s))] else users
  }

  ghost predicate Enabled(users: Users, c: Command) {
    match c
    case Register(u) => u !in users
    case Start(u, v, x, y) =>
      && (u in users ==> Encodes(x, Following(users, u) + {v}))
      && (v in users ==> Encodes(y, FollowersOf(users, v) + {u}))
    case Stop(u, v, x, y) =>
      && (u in users && v in users ==> Encodes(x, Following(users, u) - {v}))
      && (v in users ==> Encodes(y, FollowersOf(users, v) - {u}))
  }

  /** A start command skips a missing user. A stop command ends there with an exception, so that
      nothing is written when the other user is missing. */
  function Step(users: Users, c: Command): Users {
    match c
    case Register(u) => users[u := User(None, None)]
    case Start(u, v, x, y) => PutFollowers(PutFollowing(users, u, x), v, y)
    case Stop(u, v, x, y) => if v in users then PutFollowing(PutFollowers(users, v, y), u, x) else users
  }

  // --- the code -------------------------------------------------------------------------------

  class UserStore {
    var users: Users

    constructor ()
      ensures users == map[]
    {
      users := map[];
    }

    method UpdateFollowing(u: string, other: string, start: bool) returns (ok: bool, ghost written: string)
      modifies this
      ensures ok == (u in old(users))
      ensures ok ==>
                Encodes(written, if start then Following(old(users), u) + {other} else Following(old(users), u) - {other})
      ensures users == PutFollowing(old(users), u, written)
    {
      if u !in users {
        return false, "";
      }
      var names := AsSet(users[u].following);
      names := if start then names + {other} else names - {other};
      var s := ToString(names);
      users := users[u := users[u].(following := Some(s))];
      return true, s;
    }

    method UpdateFollowers(u: string, other: string, start: bool) returns (ok: bool, ghost written: string)
      modifies this
      ensures ok == (u in old(users))
      ensures ok ==>
                Encodes(written, if start then FollowersOf(old(users), u) + {other} else FollowersOf(old(users), u) - {other})
      ensures users == PutFollowers(old(users), u, written)
    {
      if u !in users {
        return false, "";
      }
      var names := AsSet(users[u].followers);
      names := if start then names + {other} else names - {other};
      var s := ToString(names);
      users := users[u := users[u].(followers := Some(s))];
      return true, s;
    }

    method StartFollowing(u: string, v: string)
      modifies this
      ensures exists x, y :: Enabled(old(users), Start(u, v, x, y)) && users == Step(old(users), Start(u, v, x, y))
    {
      ghost var x, y;
      var ok;
      ok, x := UpdateFollowing(u, v, true);
      ok, y := UpdateFollowers(v, u, true);
      assert Enabled(old(users), Start(u, v, x, y));
    }

    /** False when the command ends with an exception. */
    method StopFollowing(u: string, v: string) returns (ok: bool)
      modifies this
      ensures ok == (u in old(users) && v in old(users))
      ensures exists x, y :: Enabled(old(users), Stop(u, v, x, y)) && users == Step(old(users), Stop(u, v, x, y))
    {
      ghost var x, y;
      ok, y := UpdateFollowers(v, u, false);
      if !ok {
        assert Enabled(old(users), Stop(u, v, "", y));
        return;
      }
      ok, x := UpdateFollowing(u, v, false);
      assert Enabled(old(users), Stop(u, v, x, y));
    }
  }

  // --- what one command does to the graph --------------------------------------------------------

  predicate IsName(n: string) { n != "" && ',' !in n }

  /** What is written is read in pieces. */
  lemma WrittenIsRead(s: string, names: set<string>, n: string)
    requires Encodes(s, names) && n != ""
    ensures n in Decoded(Some(s)) <==> exists m <- names :: ReadAs(m, n)
  {
    var order :| IsOrder(order, names) && s == Joined(order);
    DecodedPieces(order, n);
  }

  /** What has been read is read again as it is. */
  lemma ReadAgain(s: Option<string>, n: string)
    ensures (exists m <- Decoded(s) :: ReadAs(m, n)) <==> n in Decoded(s)
  {
    forall m | m in Decoded(s)
      ensures ReadAs(m, n) <==> m == n
    {
      DecodedNoComma(s, m);
      ReadAsItself(m, n);
    }
  }

  lemma WithOneMore(s: string, before: Option<string>, name: string, n: string)
    requires Encodes(s, Decoded(before) + {name}) && n != ""
    ensures n in Decoded(Some(s)) <==> n in Decoded(before) || ReadAs(name, n)
  {
    WrittenIsRead(s, Decoded(before) + {name}, n);
    ReadAgain(before, n);
  }

  lemma WithOneLess(s: string, before: Option<string>, name: string, n: string)
    requires Encodes(s, Decoded(before) - {name}) && n != ""
    ensures n in Decoded(Some(s)) <==> n in Decoded(before) && n != name
  {
    WrittenIsRead(s, Decoded(before) - {name}, n);
    forall m | m in Decoded(before)
      ensures ReadAs(m, n) <==> m == n
    {
      DecodedNoComma(before, m);
      ReadAsItself(m, n);
    }
  }

  lemma StepFollowing(users: Users, c: Command, a: string, b: string)
    requires Enabled(users, c) && IsName(b)
    ensures b in Following(Step(users, c), a) <==>
            match c
            case Register(_) => b in Following(users, a)
            case Start(u, v, _, _) => b in Following(users, a) || (u in users && a == u && ReadAs(v, b))
            case Stop(u, v, _, _) => b in Following(users, a) && !(v in users && (a, b) == (u, v))
  {
    if a in users {
      match c
      case Register(_) =>
      case Start(u, v, x, _) =>
        if a == u {
          WithOneMore(x, users[u].following, v, b);
        }
      case Stop(u, v, x, _) =>
        if a == u && v in users {
          WithOneLess(x, users[u].following, v, b);
        }
    }
  }

  lemma StepFollowers(users: Users, c: Command, a: string, b: string)
    requires Enabled(users, c) && IsName(a)
    ensures a in FollowersOf(Step(users, c), b) <==>
            match c
            case Register(_) => a in FollowersOf(users, b)
            case Start(u, v, _, _) => a in FollowersOf(users, b) || (v in users && b == v && ReadAs(u, a))
            case Stop(u, v, _, _) => a in FollowersOf(users, b) && (a, b) != (u, v)
  {
    if b in users {
      match c
      case Register(_) =>
      case Start(u, v, _, y) =>
        if b == v {
          WithOneMore(y, users[v].followers, u, a);
        }
      case Stop(u, v, _, y) =>
        if b == v {
          WithOneLess(y, users[v].followers, u, a);
        }
    }
  }

  // --- symmetry ------------------------------------------------------------------------------------

  ghost predicate SymmetricAt(users: Users, a: string, b: string) {
    b in Following(users, a) <==> a in FollowersOf(users, b)
  }

  /** Over all names that can be read; nobody ever reads the empty one or one with a comma. */
  ghost predicate Symmetric(users: Users) {
    forall a, b :: IsName(a) && IsName(b) ==> SymmetricAt(users, a, b)
  }

  /** Both records of a start command will say that a follows b, or neither, unless they said so before. */
  ghost predicate BothSay(users: Users, u: string, v: string, a: string, b: string) {
    b in Following(users, a) ||
    ((u in users && a == u && ReadAs(v, b)) <==> (v in users && b == v && ReadAs(u, a)))
  }

  /** For all users, whatever their names: a stop command keeps the graph symmetric, even when it ends with an
      exception; a start command keeps it exactly when its two records say the same, name by name. */
  lemma SymmetryExact(users: Users, c: Command)
    requires Enabled(users, c) && Symmetric(users)
    ensures Symmetric(Step(users, c)) <==>
            (c.Start? ==> forall a, b :: IsName(a) && IsName(b) ==> BothSay(users, c.user, c.other, a, b))
  {
    forall a, b | IsName(a) && IsName(b)
      ensures SymmetricAt(Step(users, c), a, b) <==> (c.Start? ==> BothSay(users, c.user, c.other, a, b))
    {
      assert SymmetricAt(users, a, b);
      StepFollowing(users, c, a, b);
      StepFollowers(users, c, a, b);
    }
  }

  /** For names without a comma that is: both users exist, or neither does. */
  lemma SymmetryForNames(users: Users, c: Command)
    requires Enabled(users, c) && Symmetric(users) && c.Start? && IsName(c.user) && IsName(c.other)
    ensures Symmetric(Step(users, c)) <==> (c.user in users <==> c.other in users)
  {
    SymmetryExact(users, c);
    forall a, b | IsName(a) && IsName(b)
      ensures BothSay(users, c.user, c.other, a, b) <==>
              ((a, b) == (c.user, c.other) ==> (c.user in users <==> c.other in users))
    {
      assert SymmetricAt(users, a, b);
      ReadAsItself(c.other, b);
      ReadAsItself(c.user, a);
    }
    assert IsName(c.user) && IsName(c.other);
  }

  lemma CommaNames()
    ensures Pieces("a,b", ',') == ["a", "b"] && Joined(["a,b"]) == "a,b" && Joined(["v"]) == "v"
  {
    assert "a,b" == "a" + [','] + "b";
    PiecesOfTwo("a", "b", ',');
    PiecesOfOne("b", ',');
    assert Joined([]) == "";
    assert ["a,b"][..0] == [] && ["v"][..0] == [];
  }

  /** A name with a comma is read as several names: when "a,b" starts to follow "v", the followers of "v" name
      "a", who follows nobody. */
  lemma CommaBreaksSymmetry() returns (users: Users, c: Command)
    ensures users == map["a,b" := User(None, None), "a" := User(None, None), "v" := User(None, None)]
    ensures c == Start("a,b", "v", "v", "a,b") && Enabled(users, c) && Symmetric(users)
    ensures IsName("a") && IsName("v") && !SymmetricAt(Step(users, c), "a", "v")
  {
    users := map["a,b" := User(None, None), "a" := User(None, None), "v" := User(None, None)];
    c := Start("a,b", "v", "v", "a,b");
    CommaNames();
    assert IsOrder(["v"], {} + {"v"}) && IsOrder(["a,b"], {} + {"a,b"});
    var after := Step(users, c);
    assert after["v"].followers == Some("a,b") && after["a"].following == None;
    assert "a,b"[1] == ',';
    assert "a" in Pieces("a,b", ',') by { assert ["a", "b"][0] == "a"; }
    SplitKeeps("a,b", ',');
    assert "a" in FollowersOf(after, "v");
  }

  // --- runs --------------------------------------------------------------------------------------------

  ghost predicate Reaches(users: Users, cs: seq<Command>, after: Users)
    decreases |cs|
  {
    if cs == [] then users == after
    else Enabled(users, cs[0]) && Proper(users, cs[0]) && Reaches(Step(users, cs[0]), cs[1..], after)
  }

  /** Commands are between existing users. */
  predicate Proper(users: Users, c: Command) { c.Register? || (c.user in users && c.other in users) }

  /** What the last command that touches it says about b in the record of a. */
  predicate FollowingSays(cs: seq<Command>, a: string, b: string) {
    cs != [] &&
    (var c, front := cs[|cs| - 1], cs[..|cs| - 1];
     if c.Start? && c.user == a && ReadAs(c.other, b) then true
     else if c.Stop? && (c.user, c.other) == (a, b) then false
     else FollowingSays(front, a, b))
  }

  /** And about a in the record of b. */
  predicate FollowersSay(cs: seq<Command>, a: string, b: string) {
    cs != [] &&
    (var c, front := cs[|cs| - 1], cs[..|cs| - 1];
     if c.Start? && c.other == b && ReadAs(c.user, a) then true
     else if c.Stop? && (c.user, c.other) == (a, b) then false
     else FollowersSay(front, a, b))
  }

  lemma {:induction false} ReachesSplit(users: Users, cs: seq<Command>, after: Users) returns (before: Users)
    requires cs != [] && Reaches(users, cs, after)
    ensures Reaches(users, cs[..|cs| - 1], before)
    ensures Enabled(before, cs[|cs| - 1]) && Proper(before, cs[|cs| - 1]) && after == Step(before, cs[|cs| - 1])
    decreases |cs|
  {
    if |cs| == 1 {
      before := users;
    } else {
      before := ReachesSplit(Step(users, cs[0]), cs[1..], after);
      assert cs[1..][..|cs| - 2] == cs[..|cs| - 1][1..];
    }
  }

  /** Through the strings, after any run between existing users, whatever their names, each record holds what
      the last command that touches it said. */
  lemma {:induction false} GraphIsHistory(cs: seq<Command>, users: Users, a: string, b: string)
    requires Reaches(map[], cs, users) && IsName(a) && IsName(b)
    ensures b in Following(users, a) <==> FollowingSays(cs, a, b)
    ensures a in FollowersOf(users, b) <==> FollowersSay(cs, a, b)
    decreases |cs|
  {
    if cs != [] {
      var before := ReachesSplit(map[], cs, users);
      GraphIsHistory(cs[..|cs| - 1], before, a, b);
      StepFollowing(before, cs[|cs| - 1], a, b);
      StepFollowers(before, cs[|cs| - 1], a, b);
    }
  }

  predicate CommaFreeCommands(cs: seq<Command>) {
    forall c <- cs :: !c.Register? ==> ',' !in c.user && ',' !in c.other
  }

  lemma {:induction false} SameHistory(cs: seq<Command>, a: string, b: string)
    requires CommaFreeCommands(cs)
    ensures FollowingSays(cs, a, b) <==> FollowersSay(cs, a, b)
  {
    if cs != [] {
      var c := cs[|cs| - 1];
      assert c in cs;
      SameHistory(cs[..|cs| - 1], a, b);
      if !c.Register? {
        ReadAsItself(c.other, b);
        ReadAsItself(c.user, a);
      }
    }
  }

  /** So the graph is symmetric after every run between existing users whose names have no comma. */
  lemma SymmetricInRuns(cs: seq<Command>, users: Users)
    requires Reaches(map[], cs, users) && CommaFreeCommands(cs)
    ensures Symmetric(users)
  {
    forall a, b | IsName(a) && IsName(b)
      ensures SymmetricAt(users, a, b)
    {
      GraphIsHistory(cs, users, a, b);
      SameHistory(cs, a, b);
    }
  }

  /** The followers, as a tweet command reads them. */
  function Readers(users: Users): FanOut.Followers {
    map u | u in users :: Decoded(users[u].followers)
  }

  /** Fan-out delivers to exactly those who, by their own records, follow the author. */
  lemma FanOutByFollowing(cs: seq<Command>, users: Users, t: FanOut.Tweet, reader: string)
    requires Reaches(map[], cs, users) && CommaFreeCommands(cs) && IsName(t.author) && IsName(reader)
    ensures FanOutQuery.Sees(Readers(users), t, reader) <==>
            t.author in users && (reader == t.author || t.author in Following(users, reader))
  {
    SymmetricInRuns(cs, users);
    assert SymmetricAt(users, reader, t.author);
  }
}
