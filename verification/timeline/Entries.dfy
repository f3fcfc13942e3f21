/** Timeline entries, stored as strings "tweetId:date", and tweet ids, "author-index". */
module Entries {
  import opened Wrappers
  import opened Decimal
  import opened JavaStrings

  datatype Entry = Entry(id: string, date: int)

  /** tweetId + ":" + date */
  function Encode(e: Entry): string { e.id + ":" + DecInt(e.date) }

  function Texts(es: seq<Entry>): (r: seq<string>)
    ensures |r| == |es| && forall i :: 0 <= i < |es| ==> r[i] == Encode(es[i])
  {
    seq(|es|, i requires 0 <= i < |es| => Encode(es[i]))
  }

  /** new Long(s.split(":")[1]); None stands for the exception of either. */
  function DateOf(s: string): Option<int> {
    var split := Split(s, ':');
    if |split| < 2 then None else ParseLong(split[1])
  }

  /** s.split(":")[0] */
  function NameOf(s: string): Option<string> {
    var split := Split(s, ':');
    if split == [] then None else Some(split[0])
  }

  predicate OnlyColons(s: string) { forall c <- s :: c == ':' }

  predicate OnlyEmpty(ps: seq<string>) { forall p <- ps :: p == "" }

  lemma FirstOnly(s: string)
    requires s != ""
    ensures OnlyColons(s) <==> s[0] == ':' && OnlyColons(s[1..])
  {
    assert s == [s[0]] + s[1..];
    if OnlyColons(s) {
      assert s[0] in s;
      assert forall c <- s[1..] :: c in s;
    }
  }

  lemma FirstEmpty(p: string, ps: seq<string>)
    ensures OnlyEmpty([p] + ps) <==> p == "" && OnlyEmpty(ps)
  {
    var all := [p] + ps;
    if OnlyEmpty(all) {
      assert all[0] in all;
      assert forall q <- ps :: q in all;
    }
  }

  lemma {:induction false} AllEmpty(s: string)
    ensures OnlyEmpty(Pieces(s, ':')) <==> OnlyColons(s)
  {
    if s != "" {
      var ps := Pieces(s[1..], ':');
      AllEmpty(s[1..]);
      FirstOnly(s);
      if s[0] == ':' {
        FirstEmpty("", ps);
      } else {
        FirstEmpty([s[0]] + ps[0], ps[1..]);
      }
    }
  }

  /** A stored string has no part before the first colon exactly when it is nothing but colons. */
  lemma NameMissingExactly(s: string)
    ensures NameOf(s).None? <==> s != "" && OnlyColons(s)
  {
    AllEmpty(s);
    var ps := Pieces(s, ':');
    var n := DropExact(ps);
    assert s != "" ==> s[0] in s;
    if n > 0 {
      assert ps[n - 1] in ps;
    }
  }

  lemma DateHasNoColon(date: int)
    ensures ':' !in DecInt(date)
  {
    var s := DecInt(date);
    assert forall i :: 0 <= i < |s| ==> s[i] == '-' || IsDigit(s[i]);
  }

  lemma SplitEncoded(e: Entry)
    ensures Split(Encode(e), ':') == Pieces(e.id, ':') + [DecInt(e.date)]
  {
    DateHasNoColon(e.date);
    PiecesAppend(e.id, DecInt(e.date), ':');
    SplitKeeps(Encode(e), ':');
  }

  /** What is read back, for every tweet id: the part before its first colon, and as the date the part
      behind that colon. */
  lemma EncodedReads(e: Entry)
    ensures ':' in e.id <==> |Pieces(e.id, ':')| > 1
    ensures NameOf(Encode(e)) == Some(Pieces(e.id, ':')[0])
    ensures DateOf(Encode(e)) == if ':' in e.id then ParseLong(Pieces(e.id, ':')[1]) else Some(e.date)
  {
    SplitEncoded(e);
    PiecesCount(e.id, ':');
    ParseLongReads(e.date);
  }

  /** An entry is read back as it was written exactly when the tweet id has no colon. */
  lemma EntryReadsBack(e: Entry)
    ensures NameOf(Encode(e)) == Some(e.id) && DateOf(Encode(e)) == Some(e.date) <==> ':' !in e.id
  {
    EncodedReads(e);
    if ':' !in e.id {
      PiecesOfOne(e.id, ':');
    } else {
      assert ':' !in Pieces(e.id, ':')[0];
    }
  }

  lemma ColonPlace(e: Entry, i: nat)
    requires |e.id| < i < |Encode(e)|
    ensures Encode(e)[i] != ':'
  {
    DateHasNoColon(e.date);
    assert Encode(e)[i] == DecInt(e.date)[i - |e.id| - 1];
  }

  /** Comparing written entries is comparing entries. */
  lemma EncodeInjective(a: Entry, b: Entry)
    ensures Encode(a) == Encode(b) <==> a == b
  {
    if Encode(a) == Encode(b) {
      var s := Encode(a);
      assert s[|a.id|] == ':' && s[|b.id|] == ':';
      if |a.id| < |b.id| {
        ColonPlace(a, |b.id|);
      } else if |b.id| < |a.id| {
        ColonPlace(b, |a.id|);
      }
      assert a.id == s[..|a.id|] && b.id == s[..|b.id|];
      assert DecInt(a.date) == s[|a.id| + 1..] && DecInt(b.date) == s[|b.id| + 1..];
      ParseLongReads(a.date);
      ParseLongReads(b.date);
    }
  }

  lemma InTexts(es: seq<Entry>, e: Entry)
    ensures Encode(e) in Texts(es) <==> e in es
  {
    forall x: Entry
      ensures Encode(x) == Encode(e) <==> x == e
    {
      EncodeInjective(x, e);
    }
    if Encode(e) in Texts(es) {
      var i :| 0 <= i < |es| && Texts(es)[i] == Encode(e);
      assert Encode(es[i]) == Encode(e);
    }
    if e in es {
      var i :| 0 <= i < |es| && es[i] == e;
      assert Texts(es)[i] == Encode(e);
    }
  }

  predicate ColonFree(es: seq<Entry>) { forall e <- es :: ':' !in e.id }

  // --- tweet ids ----------------------------------------------------------------------------

  /** userId + "-" + tweetIdx */
  function TweetId(author: string, index: nat): string { author + "-" + Dec(index) }

  lemma IndexHasNoColon(index: nat)
    ensures ':' !in "-" + Dec(index)
  {
    var s := "-" + Dec(index);
    assert forall i :: 0 <= i < |s| ==> s[i] == '-' || IsDigit(s[i]);
  }

  lemma IdPieces(author: string, index: nat)
    ensures var ps := Pieces(author, ':');
            Pieces(TweetId(author, index), ':') == ps[..|ps| - 1] + [ps[|ps| - 1] + ("-" + Dec(index))]
    ensures ':' in TweetId(author, index) <==> ':' in author
  {
    IndexHasNoColon(index);
    PiecesLengthen(author, "-" + Dec(index), ':');
    assert TweetId(author, index) == author + ("-" + Dec(index));
  }

  /** Whether the dates in an author's entries can be read: without a colon in the name they can, else what
      stands between the first colon and the next, or the dash, is taken for the date. */
  predicate Readable(author: string) {
    var ps := Pieces(author, ':');
    |ps| == 1 || (if |ps| == 2 then ps[1] == "" else ParseLong(ps[1]).Some?)
  }

  /** Reading the date throws exactly for entries of authors whose names are not readable. */
  lemma ReadableExact(author: string, index: nat, date: int)
    ensures DateOf(Encode(Entry(TweetId(author, index), date))).Some? <==> Readable(author)
  {
    var ps := Pieces(author, ':');
    EncodedReads(Entry(TweetId(author, index), date));
    IdPieces(author, index);
    PiecesCount(author, ':');
    if |ps| == 2 {
      assert ps[1] + ("-" + Dec(index)) == ps[1] + "-" + Dec(index);
      if ps[1] == "" {
        ParseLongReads(0 - index);
        NegatedIndex(index);
      } else {
        DashIsNoSign(ps[1], Dec(index));
      }
    }
  }

  lemma NegatedIndex(index: nat)
    ensures ParseLong("" + "-" + Dec(index)).Some?
  {
    var s := "" + "-" + Dec(index);
    assert s[0] == '-' && s[1..] == Dec(index);
  }

  predicate HasPrefix(s: string, prefix: string) { prefix <= s }

  /** The test of StopFollowingCommand on a stored entry; an entry that cannot be split has no mark. */
  predicate Marked(s: string, user: string) {
    NameOf(s).Some? && HasPrefix(NameOf(s).value, user + "-")
  }

  /** A dash in a tweet id stands inside the author's name or right behind it. */
  lemma DashPlace(author: string, index: nat, i: nat)
    requires i < |TweetId(author, index)|
    ensures TweetId(author, index)[i] == '-' ==> i <= |author|
  {
    if i > |author| {
      assert TweetId(author, index)[i] == Dec(index)[i - |author| - 1];
    }
  }

  lemma IdPrefix(author: string, index: nat, user: string)
    ensures HasPrefix(TweetId(author, index), user + "-") <==> author == user || HasPrefix(author, user + "-")
  {
    var id, p := TweetId(author, index), user + "-";
    assert author == user ==> id == p + Dec(index);
    assert author <= id;
    if HasPrefix(id, p) {
      DashPlace(author, index, |user|);
      assert id[|user|] == p[|user|];
      assert user == p[..|user|] == id[..|user|];
      if |user| < |author| {
        assert p == author[..|p|];
      }
    }
  }

  /** Whose entries a stop-following removes: the user's, and those of authors whose names, up to the
      first colon, start with the user's name and a dash. */
  predicate TakenFor(author: string, user: string) {
    if ':' in author then HasPrefix(Pieces(author, ':')[0], user + "-")
    else author == user || HasPrefix(author, user + "-")
  }

  /** The test on a stored tweet, for every author. */
  lemma PrefixMeansAuthor(author: string, index: nat, date: int, user: string)
    ensures Marked(Encode(Entry(TweetId(author, index), date)), user) <==> TakenFor(author, user)
  {
    EncodedReads(Entry(TweetId(author, index), date));
    IdPieces(author, index);
    PiecesCount(author, ':');
    PiecesCount(TweetId(author, index), ':');
    if ':' !in author {
      PiecesOfOne(TweetId(author, index), ':');
      IdPrefix(author, index, user);
    }
  }

  /** For names without a dash it is the author test, except that no entry of a name with a colon passes. */
  lemma PrefixIsAuthor(author: string, index: nat, date: int, user: string)
    requires '-' !in author
    ensures Marked(Encode(Entry(TweetId(author, index), date)), user) <==> author == user && ':' !in author
  {
    PrefixMeansAuthor(author, index, date, user);
    assert (user + "-")[|user|] == '-';
    if HasPrefix(author, user + "-") {
      PrefixHolds(author, user + "-", '-');
    }
    if ':' in author && HasPrefix(Pieces(author, ':')[0], user + "-") {
      PrefixHolds(Pieces(author, ':')[0], user + "-", '-');
      FirstPieceWithin(author, '-');
    }
  }

  lemma {:induction false} FirstPieceWithin(s: string, c: char)
    ensures c in Pieces(s, ':')[0] ==> c in s
  {
    if s != "" {
      FirstPieceWithin(s[1..], c);
      assert s == [s[0]] + s[1..];
    }
  }

  lemma PrefixHolds(s: string, prefix: string, c: char)
    requires HasPrefix(s, prefix) && c in prefix
    ensures c in s
  {
    var i :| 0 <= i < |prefix| && prefix[i] == c;
    assert s[i] == c;
  }

  /** No entry is ever marked for a user whose name has a colon. */
  lemma NeverMarked(s: string, user: string)
    requires ':' in user
    ensures !Marked(s, user)
  {
    DropKeepsFirst(Pieces(s, ':'));
    if Marked(s, user) {
      assert ':' in user + "-";
      PrefixHolds(NameOf(s).value, user + "-", ':');
    }
  }
}
