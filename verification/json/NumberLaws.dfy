/** Numbers in texts: what the guard accepts, and what the grammar reads. */
module NumberLaws {
  import opened Wrappers
  import opened JsonText
  import opened JsonNumbers
  import opened JsonTokens
  import opened JsonReader
  import opened JsonGuard

  lemma NumberAlone(t: Text)
    ensures SpellAll([Number(t)]) == t
  {}

  lemma NumberInBrackets(t: Text)
    ensures SpellAll([Mark(LBRACKET), Number(t), Mark(RBRACKET)]) == [LBRACKET] + t + [RBRACKET]
  {
    SpellAllStep(Mark(LBRACKET), [Number(t), Mark(RBRACKET)]);
    SpellAllStep(Number(t), [Mark(RBRACKET)]);
    assert [Mark(LBRACKET)] + [Number(t), Mark(RBRACKET)] == [Mark(LBRACKET), Number(t), Mark(RBRACKET)];
    assert [Number(t)] + [Mark(RBRACKET)] == [Number(t), Mark(RBRACKET)];
    assert SpellAll([Mark(RBRACKET)]) == [RBRACKET];
  }

  /** The guard lets every number of its pattern through, alone and in an array. */
  lemma GuardAcceptsNumbers(p: NumberParts)
    requires LooseParts(p)
    ensures Accepts(SpellNumber(p)) && Accepts([LBRACKET] + SpellNumber(p) + [RBRACKET])
  {
    var t := SpellNumber(p);
    assert LooseToken(Number(t));
    NumberAlone(t);
    NumberInBrackets(t);
    GuardOnLoose([Number(t)]);
    ShapedArray(Number(t));
    GuardOnLoose([Mark(LBRACKET), Number(t), Mark(RBRACKET)]);
  }

  lemma ShapedArray(t: Token)
    requires t.Number?
    ensures Shaped([Mark(LBRACKET), t, Mark(RBRACKET)], true)
  {
    assert [Mark(LBRACKET), t, Mark(RBRACKET)][1..] == [t, Mark(RBRACKET)];
    assert [t, Mark(RBRACKET)][1..] == [Mark(RBRACKET)];
    assert Shaped([Mark(RBRACKET)], false);
    assert Shaped([t, Mark(RBRACKET)], true);
  }

  /** Two numbers side by side get through as well when the second one has a minus: what is evaluated is their
      difference. */
  lemma GuardAcceptsDifferences(p: NumberParts, q: NumberParts)
    requires LooseParts(p) && LooseParts(q) && q.minus
    ensures Accepts([LBRACKET] + (SpellNumber(p) + SpellNumber(q)) + [RBRACKET])
  {
    var a, b := Number(SpellNumber(p)), Number(SpellNumber(q));
    var ts := [Mark(LBRACKET), a, b, Mark(RBRACKET)];
    assert LooseToken(a) && LooseToken(b) && LooseTokens(ts);
    MinusInFront(q, []);
    assert SpellNumber(q) + [] == SpellNumber(q);
    assert Tellable(ts);
    assert ts[1..] == [a, b, Mark(RBRACKET)] && ts[1..][1..] == [b, Mark(RBRACKET)];
    PairSpelled(a, b);
    PairShaped(a, b);
    GuardOnLoose(ts);
  }

  lemma PairSpelled(a: Token, b: Token)
    requires a.Number? && b.Number?
    ensures SpellAll([Mark(LBRACKET), a, b, Mark(RBRACKET)]) == [LBRACKET] + (a.n + b.n) + [RBRACKET]
  {
    SpellAllStep(Mark(LBRACKET), [a, b, Mark(RBRACKET)]);
    SpellAllStep(a, [b, Mark(RBRACKET)]);
    SpellAllStep(b, [Mark(RBRACKET)]);
    SpellAllStep(Mark(RBRACKET), []);
    assert [Mark(LBRACKET)] + [a, b, Mark(RBRACKET)] == [Mark(LBRACKET), a, b, Mark(RBRACKET)];
    assert [a] + [b, Mark(RBRACKET)] == [a, b, Mark(RBRACKET)] && [b] + [Mark(RBRACKET)] == [b, Mark(RBRACKET)];
    assert [Mark(RBRACKET)] + [] == [Mark(RBRACKET)];
  }

  lemma PairShaped(a: Token, b: Token)
    requires a.Number? && b.Number?
    ensures Shaped([Mark(LBRACKET), a, b, Mark(RBRACKET)], true)
  {
    assert [Mark(LBRACKET), a, b, Mark(RBRACKET)][1..] == [a, b, Mark(RBRACKET)];
    assert [a, b, Mark(RBRACKET)][1..] == [b, Mark(RBRACKET)];
    assert [b, Mark(RBRACKET)][1..] == [Mark(RBRACKET)];
    assert Shaped([Mark(RBRACKET)], false);
    assert Shaped([b, Mark(RBRACKET)], false);
    assert Shaped([a, b, Mark(RBRACKET)], true);
  }

  /** The grammar reads exactly those without a leading zero and with digits behind the point, as themselves. */
  lemma ReaderReadsNumbers(p: NumberParts)
    requires LooseParts(p)
    ensures ReadJson(SpellNumber(p)).Some? <==> StrictParts(p)
    ensures StrictParts(p) ==> IsNumber(SpellNumber(p)) && ReadJson(SpellNumber(p)) == Some(JNumber(SpellNumber(p)))
  {
    var t := SpellNumber(p);
    StrictDecided(p);
    if StrictParts(p) {
      NumberAlone(t);
      LexComplete([Number(t)]);
      assert NonBlank([Number(t)]) == [Number(t)];
    } else {
      LexNotStrict(t);
    }
  }

  lemma LexNotStrict(t: Text)
    requires IsLoose(t) && !IsNumber(t)
    ensures Lex(t) == None
  {
    LooseExact(t);
    LooseCharacters(t);
    NotANumber(t);
  }

  lemma NotANumber(t: Text)
    requires t != [] && (IsDigit(t[0]) || t[0] == MINUS) && MatchNumber(t) == |t| && !IsNumber(t)
    ensures LexToken(t) == Fail
  {
    NoPrefix(TRUE, t);
    NoPrefix(FALSE, t);
    NoPrefix(NULL, t);
    assert t[..|t|] == t;
  }
}
