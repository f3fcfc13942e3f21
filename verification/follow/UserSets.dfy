/** Sets of user names, stored as one string with commas: VoldemortTweetService.toString and asSet. */
module UserSets {
  import opened Wrappers
  import opened JavaStrings

  ghost predicate Distinct(order: seq<string>) { forall i, j :: 0 <= i < j < |order| ==> order[i] != order[j] }

  ghost predicate IsOrder(order: seq<string>, names: set<string>) {
    && Distinct(order)
    && (forall n :: n in order <==> n in names)
  }

  /** One round of toString: no comma while the buffer is empty. */
  function Appended(sb: string, name: string): string { if |sb| > 0 then sb + "," + name else name }

  /** toString of a set that is iterated in this order. */
  function Joined(order: seq<string>): string {
    if order == [] then "" else Appended(Joined(order[..|order| - 1]), order[|order| - 1])
  }

  /** s is the set as toString may write it, in one order or another. */
  ghost predicate Encodes(s: string, names: set<string>) {
    exists order :: IsOrder(order, names) && s == Joined(order)
  }

  method ToString(names: set<string>) returns (s: string)
    ensures Encodes(s, names)
  {
    s := "";
    ghost var order := [];
    var rest := names;
    while rest != {}
      invariant rest <= names && IsOrder(order, names - rest) && s == Joined(order)
      decreases rest
    {
      var name :| name in rest;
      if |s| > 0 {
        s := s + ",";
      }
      s := s + name;
      assert (order + [name])[..|order|] == order;
      order := order + [name];
      rest := rest - {name};
    }
  }

  /** None is a field that was never written. */
  function Decoded(s: Option<string>): set<string> {
    if s.None? then {} else set n | n in Split(s.value, ',')
  }

  method AsSet(s: Option<string>) returns (names: set<string>)
    ensures names == Decoded(s)
  {
    if s.None? {
      return {};
    }
    var split := Split(s.value, ',');
    names := {};
    for i := 0 to |split|
      invariant names == set n | n in split[..i]
    {
      assert split[..i + 1] == split[..i] + [split[i]];
      names := names + {split[i]};
    }
    assert split[..|split|] == split;
  }

  // --- laws ---------------------------------------------------------------------------------

  predicate CommaFree(order: seq<string>) { forall n <- order :: ',' !in n }

  /** A leading empty name leaves no trace. */
  lemma {:induction false} LeadingEmpty(order: seq<string>)
    ensures Joined([""] + order) == Joined(order)
  {
    if order == [] {
      assert Joined([""]) == Appended(Joined([""][..0]), "");
    } else {
      var n := |order| - 1;
      LeadingEmpty(order[..n]);
      assert ([""] + order)[..n + 1] == [""] + order[..n];
    }
  }

  /** Otherwise the pieces of the string are the names, in order. */
  lemma {:induction false} PiecesJoined(order: seq<string>)
    requires order != [] && order[0] != "" && CommaFree(order)
    ensures Joined(order) != "" && Pieces(Joined(order), ',') == order
  {
    var n := |order| - 1;
    if n == 0 {
      assert Joined(order[..0]) == "";
      PiecesOfOne(order[0], ',');
    } else {
      PiecesJoined(order[..n]);
      PiecesAppend(Joined(order[..n]), order[n], ',');
      assert order == order[..n] + [order[n]];
    }
  }

  lemma {:induction false} DropWhenDistinct(ps: seq<string>)
    requires Distinct(ps)
    ensures DropTrailingEmpty(ps) == if ps != [] && ps[|ps| - 1] == "" then ps[..|ps| - 1] else ps
  {}

  lemma NoSeparatorOnePiece(s: string, sep: char)
    ensures sep !in s ==> Pieces(s, sep) == [s]
  {
    if sep !in s {
      PiecesOfOne(s, sep);
    }
  }

  /** Whether the empty name survives: alone it does, and between two other names. */
  predicate EmptyStays(order: seq<string>) {
    (forall n <- order :: n == "") || (exists i :: 0 < i < |order| - 1 && order[i] == "")
  }

  lemma SplitJoined(order: seq<string>)
    requires CommaFree(order) && Distinct(order) && order != [] && order[0] != ""
    ensures Split(Joined(order), ',') == DropTrailingEmpty(order)
  {
    PiecesJoined(order);
    NoSeparatorOnePiece(Joined(order), ',');
  }

  lemma DropMembers(order: seq<string>, n: string)
    requires Distinct(order) && order != []
    ensures n in DropTrailingEmpty(order) <==> n in order && (n == "" ==> order[|order| - 1] != "")
  {
    var front, last := order[..|order| - 1], order[|order| - 1];
    DropWhenDistinct(order);
    assert order == front + [last];
    assert n in order <==> n in front || n == last;
    assert last !in front;
  }

  lemma NamesOnly(order: seq<string>, n: string)
    requires CommaFree(order) && Distinct(order) && order != [] && order[0] != ""
    ensures n in Decoded(Some(Joined(order))) <==> n in order && (n == "" ==> order[|order| - 1] != "")
  {
    SplitJoined(order);
    DropMembers(order, n);
  }

  lemma DecodedEmpty()
    ensures Decoded(Some("")) == {""}
  {
    NoSeparatorOnePiece("", ',');
  }

  lemma BehindEmpty(order: seq<string>, rest: seq<string>, n: string)
    requires CommaFree(order) && Distinct(order) && order == [""] + rest
    ensures CommaFree(rest) && Distinct(rest) && "" !in rest
    ensures n in order <==> n == "" || n in rest
  {
    assert rest == order[1..];
    assert order[0] == "";
  }

  lemma EmptyFirst(order: seq<string>, n: string)
    requires CommaFree(order) && Distinct(order) && order != [] && order[0] == ""
    ensures n in Decoded(Some(Joined(order))) <==> if n == "" then |order| == 1 else n in order
  {
    var rest := order[1..];
    assert order == [""] + rest;
    LeadingEmpty(rest);
    BehindEmpty(order, rest, n);
    if rest == [] {
      DecodedEmpty();
    } else {
      assert rest[0] in rest;
      NamesOnly(rest, n);
    }
  }

  lemma EmptyInside(order: seq<string>)
    requires Distinct(order) && order != []
    ensures EmptyStays(order) <==>
            if order[0] == "" then |order| == 1 else "" in order && order[|order| - 1] != ""
  {
    assert order[0] in order;
    if order[0] == "" {
      assert |order| > 1 ==> order[1] in order && order[1] != "";
    } else if "" in order {
      var i :| 0 <= i < |order| && order[i] == "";
      assert i > 0;
    }
  }

  /** What asSet reads back from toString, for every set of comma-free names in every order. */
  lemma DecodedExactly(order: seq<string>, n: string)
    requires CommaFree(order) && Distinct(order)
    ensures n in Decoded(Some(Joined(order))) <==> if n == "" then EmptyStays(order) else n in order
  {
    if order == [] {
      DecodedEmpty();
    } else {
      EmptyInside(order);
      if order[0] == "" {
        EmptyFirst(order, n);
      } else {
        NamesOnly(order, n);
      }
    }
  }

  /** A name, once written, is read as its pieces between the commas. */
  predicate ReadAs(name: string, n: string) { n in Pieces(name, ',') }

  lemma ReadAsItself(name: string, n: string)
    requires ',' !in name
    ensures ReadAs(name, n) <==> name == n
  {
    PiecesOfOne(name, ',');
  }

  lemma {:induction false} PiecesOfJoined(order: seq<string>, n: string)
    requires n != ""
    ensures n in Pieces(Joined(order), ',') <==> exists m <- order :: ReadAs(m, n)
  {
    if order != [] {
      var k := |order| - 1;
      var front, last := order[..k], order[k];
      PiecesOfJoined(front, n);
      AppendedPieces(Joined(front), last, n);
      OneMoreReads(front, last, n);
      assert order == front + [last];
    }
  }

  lemma AppendedPieces(sb: string, name: string, n: string)
    requires n != ""
    ensures n in Pieces(Appended(sb, name), ',') <==> n in Pieces(sb, ',') || ReadAs(name, n)
  {
    if |sb| > 0 {
      PiecesConcat(sb, name, ',');
      assert sb + [','] + name == sb + "," + name;
    } else {
      assert Pieces(sb, ',') == [""];
    }
  }

  lemma OneMoreReads(front: seq<string>, last: string, n: string)
    ensures (exists m <- front + [last] :: ReadAs(m, n)) <==> (exists m <- front :: ReadAs(m, n)) || ReadAs(last, n)
  {
    assert last in front + [last];
    assert forall m <- front :: m in front + [last];
  }

  /** What is read back of any names, with or without commas: the non-empty pieces of all of them. */
  lemma DecodedPieces(order: seq<string>, n: string)
    requires n != ""
    ensures n in Decoded(Some(Joined(order))) <==> exists m <- order :: ReadAs(m, n)
  {
    SplitPieces(Joined(order), ',', n);
    PiecesOfJoined(order, n);
  }

  /** Reading back gives the same non-empty names exactly when none of them has a comma. */
  lemma RoundTripExact(order: seq<string>, names: set<string>)
    requires IsOrder(order, names)
    ensures Decoded(Some(Joined(order))) - {""} == names - {""} <==> forall n <- names :: ',' !in n
  {
    var read := Decoded(Some(Joined(order)));
    if forall n <- names :: ',' !in n {
      forall n
        ensures n in read - {""} <==> n in names - {""}
      {
        DecodedExactly(order, n);
      }
    } else {
      var n :| n in names && ',' in n;
      DecodedNoComma(Some(Joined(order)), n);
      assert n in names - {""};
    }
  }

  /** Whatever is stored, no name with a comma is ever read. */
  lemma DecodedNoComma(s: Option<string>, n: string)
    ensures n in Decoded(s) ==> ',' !in n
  {
    if n in Decoded(s) && ',' in s.value {
      DropKeepsFirst(Pieces(s.value, ','));
      assert n in Pieces(s.value, ',');
    }
  }
}
