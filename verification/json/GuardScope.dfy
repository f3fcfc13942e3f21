/** What JSON.parse's guard lets through: a reading of the regular expressions as a loose tokenizer. */
module GuardScope {
  import opened JsonText
  import opened JsonNumbers
  import opened JsonTokens
  import opened JsonGuard

  // --- the text in pieces ------------------------------------------------------------------

  function FirstPiece(t: Text): Piece
    requires t != []
  {
    if MatchEscape(t) == 2 then Short(t[1])
    else if MatchEscape(t) == 6 then Hex4(t[2], t[3], t[4], t[5])
    else Plain(t[0])
  }

  function FirstLength(t: Text): (n: nat)
    requires t != []
    ensures 0 < n <= |t|
  {
    if MatchEscape(t) > 0 then MatchEscape(t) else 1
  }

  function PiecesOf(t: Text): seq<Piece>
    decreases |t|
  {
    if t == [] then [] else [FirstPiece(t)] + PiecesOf(t[FirstLength(t)..])
  }

  predicate FoundPiece(p: Piece) {
    match p
    case Plain(c) => !IsCx(c)
    case Short(c) => IsShortEscape(c)
    case Hex4(a, b, c, d) => IsHex(a) && IsHex(b) && IsHex(c) && IsHex(d)
  }

  predicate FoundPieces(ps: seq<Piece>) { forall p <- ps :: FoundPiece(p) }

  predicate NoCx(t: Text) { forall c <- t :: !IsCx(c) }

  lemma CoverStep(p: Piece, ps: seq<Piece>)
    ensures CoverPieces([p] + ps) == [CoverPiece(p)] + CoverPieces(ps)
  {}

  lemma NoCxRest(t: Text, n: nat)
    requires NoCx(t) && n <= |t|
    ensures NoCx(t[n..])
  {
    assert forall c <- t[n..] :: c in t;
  }

  lemma {:induction false} PiecesOfText(t: Text)
    requires NoCx(t)
    ensures SpellPieces(PiecesOf(t)) == t && CoverPieces(PiecesOf(t)) == ReplaceEscapes(t) && FoundPieces(PiecesOf(t))
    decreases |t|
  {
    if t != [] {
      var n, p := FirstLength(t), FirstPiece(t);
      var rest := PiecesOf(t[n..]);
      FirstFound(t);
      NoCxRest(t, n);
      PiecesOfText(t[n..]);
      assert PiecesOf(t) == [p] + rest;
      CoverStep(p, rest);
      SpellStep(p, rest);
      FoundStep(p, rest);
      assert t == t[..n] + t[n..];
    }
  }

  lemma FoundStep(p: Piece, ps: seq<Piece>)
    requires FoundPiece(p) && FoundPieces(ps)
    ensures FoundPieces([p] + ps)
  {}

  lemma SpellStep(p: Piece, ps: seq<Piece>)
    ensures SpellPieces([p] + ps) == SpellPiece(p) + SpellPieces(ps)
  {
    assert ([p] + ps)[1..] == ps;
  }

  lemma FirstFound(t: Text)
    requires t != [] && NoCx(t)
    ensures SpellPiece(FirstPiece(t)) == t[..FirstLength(t)] && FoundPiece(FirstPiece(t))
    ensures ReplaceEscapes(t) == [CoverPiece(FirstPiece(t))] + ReplaceEscapes(t[FirstLength(t)..])
  {
    assert t[0] in t;
  }

  lemma {:induction false} EscapedNoCx(t: Text)
    ensures NoCx(EscapeCx(t))
  {
    if t != [] {
      EscapedNoCx(t[1..]);
      UnicodeEscapeDigits(t[0]);
    }
  }

  // --- the pieces in tokens -------------------------------------------------------------------

  /** The token that MatchToken has found in these pieces, which cover as u. */
  function TokenOf(ps: seq<Piece>, u: Text): Token
    requires |ps| == |u| > 0
  {
    if u[0] == QUOTE then Quoted(if |ps| > 1 then ps[1..|ps| - 1] else [])
    else if u == TRUE || u == FALSE || u == NULL then Word(u)
    else Number(u)
  }

  function SingleOf(p: Piece): Token {
    var c := CoverPiece(p);
    if IsMark(c) then Mark(c) else Blank(c)
  }

  function TokensOf(ps: seq<Piece>): seq<Token>
    decreases |ps|
  {
    if ps == [] then []
    else
      var u := CoverPieces(ps);
      var n := MatchToken(u);
      if n > 0 then [TokenOf(ps[..n], u[..n])] + TokensOf(ps[n..]) else [SingleOf(ps[0])] + TokensOf(ps[1..])
  }

  /** The bones of the tokens, where nothing else counts as a cx character. */
  function BareBone(t: Token): CodeUnit {
    match t
    case Blank(c) => c
    case Mark(c) => c
    case _ => RBRACKET
  }

  function BareBones(ts: seq<Token>): Text {
    if ts == [] then [] else [BareBone(ts[0])] + BareBones(ts[1..])
  }

  lemma CoverSlice(ps: seq<Piece>, n: nat)
    requires n <= |ps|
    ensures CoverPieces(ps[n..]) == CoverPieces(ps)[n..] && CoverPieces(ps[..n]) == CoverPieces(ps)[..n]
  {}

  /** The third stage writes the bones of these tokens. */
  lemma {:induction false} BonesOfPieces(ps: seq<Piece>)
    ensures ReplaceTokens(CoverPieces(ps)) == BareBones(TokensOf(ps))
    decreases |ps|
  {
    if ps != [] {
      var u := CoverPieces(ps);
      var n := MatchToken(u);
      if n > 0 {
        CoverSlice(ps, n);
        BonesOfPieces(ps[n..]);
      } else {
        CoverSlice(ps, 1);
        BonesOfPieces(ps[1..]);
      }
    }
  }

  // --- the tokens are loose ones ----------------------------------------------------------------

  lemma {:induction false} PlainSpells(ps: seq<Piece>)
    requires FoundPieces(ps) && AT !in CoverPieces(ps)
    ensures SpellPieces(ps) == CoverPieces(ps)
  {
    if ps != [] {
      assert ps[0] in ps && CoverPieces(ps)[0] == CoverPiece(ps[0]);
      assert CoverPiece(ps[0]) in CoverPieces(ps);
      CoverSlice(ps, 1);
      PlainSpells(ps[1..]);
      assert CoverPieces(ps) == [CoverPiece(ps[0])] + CoverPieces(ps[1..]);
    }
  }

  lemma {:induction false} StringRunChars(t: Text)
    ensures forall i :: 0 <= i < StringRun(t) ==> InString(t[i])
  {
    if StringRun(t) > 0 {
      StringRunChars(t[1..]);
      assert forall i :: 1 <= i < StringRun(t) ==> t[i] == t[1..][i - 1];
    }
  }

  lemma QuoteIsPlain(p: Piece)
    requires CoverPiece(p) == QUOTE
    ensures p == Plain(QUOTE)
  {}

  lemma {:induction false} SpellPiecesAppend(a: seq<Piece>, b: seq<Piece>)
    ensures SpellPieces(a + b) == SpellPieces(a) + SpellPieces(b)
  {
    if a == [] {
      assert a + b == b;
      assert SpellPieces(a) + SpellPieces(b) == SpellPieces(b);
    } else {
      SpellPiecesAppend(a[1..], b);
      assert (a + b)[0] == a[0] && (a + b)[1..] == a[1..] + b;
      Assoc(SpellPiece(a[0]), SpellPieces(a[1..]), SpellPieces(b));
    }
  }

  lemma SpellOne(p: Piece)
    ensures SpellPieces([p]) == SpellPiece(p)
  {
    assert [p][1..] == [];
  }

  lemma QuotedIsLoose(ps: seq<Piece>, u: Text)
    requires |ps| == |u| >= 2 && u[0] == QUOTE && ps[0] == Plain(QUOTE) && ps[|ps| - 1] == Plain(QUOTE)
    requires forall p <- ps[1..|ps| - 1] :: LoosePiece(p)
    ensures LooseToken(TokenOf(ps, u)) && Spell(TokenOf(ps, u)) == SpellPieces(ps)
  {
    QuotedSpells(ps);
  }

  lemma QuoteEnds(ps: seq<Piece>, u: Text)
    requires u == CoverPieces(ps) && |ps| >= 2 && u[0] == QUOTE && u[|u| - 1] == QUOTE
    ensures ps[0] == Plain(QUOTE) && ps[|ps| - 1] == Plain(QUOTE)
  {
    QuoteIsPlain(ps[0]);
    QuoteIsPlain(ps[|ps| - 1]);
  }

  lemma QuotedSpells(ps: seq<Piece>)
    requires |ps| >= 2 && ps[0] == Plain(QUOTE) && ps[|ps| - 1] == Plain(QUOTE)
    ensures SpellPieces(ps) == Spell(Quoted(ps[1..|ps| - 1]))
  {
    QuotedParts(ps);
    SpellQuotedPieces(ps[1..|ps| - 1]);
  }

  lemma QuotedParts(ps: seq<Piece>)
    requires |ps| >= 2 && ps[0] == Plain(QUOTE) && ps[|ps| - 1] == Plain(QUOTE)
    ensures ps == [Plain(QUOTE)] + ps[1..|ps| - 1] + [Plain(QUOTE)]
  {}

  lemma BodyIsLoose(ps: seq<Piece>, u: Text)
    requires FoundPieces(ps) && u == CoverPieces(ps) && |ps| >= 2
    requires forall i :: 1 <= i < |u| - 1 ==> InString(u[i])
    ensures forall p <- ps[1..|ps| - 1] :: LoosePiece(p)
  {
    forall p | p in ps[1..|ps| - 1]
      ensures LoosePiece(p)
    {
      var i :| 1 <= i < |ps| - 1 && ps[i] == p;
      assert p in ps && u[i] == CoverPiece(p);
    }
  }

  lemma SpellQuotedPieces(body: seq<Piece>)
    ensures SpellPieces([Plain(QUOTE)] + body + [Plain(QUOTE)]) == [QUOTE] + SpellPieces(body) + [QUOTE]
  {
    SpellPiecesAppend([Plain(QUOTE)] + body, [Plain(QUOTE)]);
    SpellPiecesAppend([Plain(QUOTE)], body);
    SpellOne(Plain(QUOTE));
  }

  lemma PlainIsLoose(ps: seq<Piece>, u: Text)
    requires FoundPieces(ps) && u == CoverPieces(ps) && u != [] && AT !in u && u[0] != QUOTE
    requires u == TRUE || u == FALSE || u == NULL || IsLoose(u)
    ensures LooseToken(TokenOf(ps, u)) && Spell(TokenOf(ps, u)) == SpellPieces(ps)
  {
    PlainSpells(ps);
  }

  /** Each match of the token pattern is a loose token, spelled by its pieces. */
  lemma MatchIsLoose(ps: seq<Piece>, n: nat)
    requires FoundPieces(ps) && ps != [] && n == MatchToken(CoverPieces(ps)) > 0
    ensures LooseToken(TokenOf(ps[..n], CoverPieces(ps)[..n]))
    ensures Spell(TokenOf(ps[..n], CoverPieces(ps)[..n])) == SpellPieces(ps[..n])
  {
    var u := CoverPieces(ps);
    CoverSlice(ps, n);
    assert forall p <- ps[..n] :: p in ps;
    if u[0] == QUOTE {
      QuoteStartsNoOther(u);
      StringRunChars(u[1..]);
      assert forall i :: 1 <= i < n - 1 ==> u[..n][i] == u[1..][i - 1];
      QuoteEnds(ps[..n], u[..n]);
      BodyIsLoose(ps[..n], u[..n]);
      QuotedIsLoose(ps[..n], u[..n]);
    } else {
      WordOrNumber(u);
      PlainIsLoose(ps[..n], u[..n]);
    }
  }

  lemma QuoteStartsNoOther(u: Text)
    requires u != [] && u[0] == QUOTE && MatchToken(u) > 0
    ensures var n := MatchToken(u); n == 2 + StringRun(u[1..]) <= |u| && u[n - 1] == QUOTE
  {
    assert !StartsWith(u, TRUE) && !StartsWith(u, FALSE) && !StartsWith(u, NULL);
    assert Digits(u) == 0 && u[0..] == u;
  }

  lemma WordOrNumber(u: Text)
    requires u != [] && u[0] != QUOTE && MatchToken(u) > 0
    ensures var w := u[..MatchToken(u)];
            AT !in w && (w == TRUE || w == FALSE || w == NULL || IsLoose(w))
  {
    var n := MatchToken(u);
    if !StartsWith(u, TRUE) && !StartsWith(u, FALSE) && !StartsWith(u, NULL) {
      LongestMatch(u);
      LooseCharacters(u[..n]);
    }
  }

  /** What may remain before the last stage: residue, and opening square brackets. */
  predicate MayRemain(c: CodeUnit) { IsResidue(c) || c == LBRACKET }

  lemma SingleIsLoose(p: Piece)
    requires FoundPiece(p) && MayRemain(CoverPiece(p))
    ensures LooseToken(SingleOf(p)) && Spell(SingleOf(p)) == SpellPiece(p)
  {
    assert !MayRemain(AT);
  }

  lemma {:induction false} TokensAreLoose(ps: seq<Piece>)
    requires FoundPieces(ps) && forall c <- BareBones(TokensOf(ps)) :: MayRemain(c)
    ensures LooseTokens(TokensOf(ps)) && SpellAll(TokensOf(ps)) == SpellPieces(ps)
    decreases |ps|
  {
    if ps != [] {
      var k := HeadLength(ps);
      var t, rest := HeadToken(ps), TokensOf(ps[k..]);
      TokensStep(ps);
      BonesStep(t, rest);
      assert forall p <- ps[k..] :: p in ps;
      TokensAreLoose(ps[k..]);
      HeadIsLoose(ps);
      LooseStep(t, rest);
      SpellSplit(ps, k);
      SpellAllStep(t, rest);
    }
  }

  lemma SpellSplit(ps: seq<Piece>, k: nat)
    requires k <= |ps|
    ensures SpellPieces(ps) == SpellPieces(ps[..k]) + SpellPieces(ps[k..])
  {
    assert ps == ps[..k] + ps[k..];
    SpellPiecesAppend(ps[..k], ps[k..]);
  }

  lemma LooseStep(t: Token, ts: seq<Token>)
    ensures LooseTokens([t] + ts) <==> LooseToken(t) && LooseTokens(ts)
  {
    assert ([t] + ts)[0] == t;
    assert forall x <- ts :: x in [t] + ts;
  }

  function HeadLength(ps: seq<Piece>): (k: nat)
    requires ps != []
    ensures 0 < k <= |ps|
  {
    var n := MatchToken(CoverPieces(ps));
    if n > 0 then n else 1
  }

  function HeadToken(ps: seq<Piece>): Token
    requires ps != []
  {
    var n := MatchToken(CoverPieces(ps));
    if n > 0 then TokenOf(ps[..n], CoverPieces(ps)[..n]) else SingleOf(ps[0])
  }

  lemma TokensStep(ps: seq<Piece>)
    requires ps != []
    ensures TokensOf(ps) == [HeadToken(ps)] + TokensOf(ps[HeadLength(ps)..])
  {}

  lemma BonesStep(t: Token, ts: seq<Token>)
    ensures BareBones([t] + ts) == [BareBone(t)] + BareBones(ts)
    ensures (forall c <- BareBones([t] + ts) :: MayRemain(c)) <==>
            MayRemain(BareBone(t)) && forall c <- BareBones(ts) :: MayRemain(c)
  {
    assert ([t] + ts)[1..] == ts;
    assert BareBones([t] + ts)[0] == BareBone(t);
    assert forall c <- BareBones(ts) :: c in BareBones([t] + ts);
  }

  lemma HeadIsLoose(ps: seq<Piece>)
    requires FoundPieces(ps) && ps != [] && MayRemain(BareBone(HeadToken(ps)))
    ensures LooseToken(HeadToken(ps)) && Spell(HeadToken(ps)) == SpellPieces(ps[..HeadLength(ps)])
  {
    var n := MatchToken(CoverPieces(ps));
    if n > 0 {
      MatchIsLoose(ps, n);
    } else {
      assert ps[..1] == [ps[0]];
      SpellOne(ps[0]);
      SingleIsLoose(ps[0]);
    }
  }

  // --- the last stage ------------------------------------------------------------------------------

  lemma {:induction false} ResidueIsAnchored(t: Text, open: bool)
    requires Residue(DropBrackets(t, open))
    ensures Anchored(t, open)
    decreases |t|
  {
    if t == [] {
    } else if open && BracketRun(t) > 0 {
      ResidueIsAnchored(t[BracketRun(t)..], false);
      RunAnchored(t);
    } else if (t[0] == COLON || t[0] == COMMA) && BracketRun(t[1..]) > 0 {
      var n := BracketRun(t[1..]);
      assert t[1..][n..] == t[1 + n..];
      ResidueIsAnchored(t[1 + n..], false);
      RunAnchored(t[1..]);
    } else {
      assert DropBrackets(t, open)[0] == t[0] && DropBrackets(t, open)[1..] == DropBrackets(t[1..], false);
      assert t[0] in DropBrackets(t, open);
      ResidueIsAnchored(t[1..], false);
      ClosedIsOpen(t[1..]);
    }
  }

  lemma {:induction false} ClosedIsOpen(t: Text)
    requires Anchored(t, false)
    ensures Anchored(t, true)
  {
    if t != [] && IsSpace(t[0]) {
      ClosedIsOpen(t[1..]);
    }
  }

  /** A run of opening brackets is anchored when it may start, if what follows it is. */
  lemma {:induction false} RunAnchored(t: Text)
    requires Anchored(t[BracketRun(t)..], false)
    ensures Anchored(t, true)
    decreases |t|
  {
    var w := SpaceRun(t);
    if w < |t| && t[w] == LBRACKET {
      DropDrop(t, w + 1, BracketRun(t[w + 1..]));
      RunAnchored(t[w + 1..]);
      BracketAnchored(t, w);
      SpacesAnchored(t);
    } else {
      assert t[0..] == t;
      ClosedIsOpen(t);
    }
  }

  lemma BracketAnchored(t: Text, w: nat)
    requires w < |t| && t[w] == LBRACKET && Anchored(t[w + 1..], true)
    ensures Anchored(t[w..], true)
  {
    assert t[w..] == [LBRACKET] + t[w + 1..];
    assert ([LBRACKET] + t[w + 1..])[1..] == t[w + 1..];
  }

  lemma {:induction false} SpacesAnchored(t: Text)
    requires Anchored(t[SpaceRun(t)..], true)
    ensures Anchored(t, true)
  {
    if t != [] && IsSpace(t[0]) {
      assert t[1..][SpaceRun(t[1..])..] == t[SpaceRun(t)..];
      SpacesAnchored(t[1..]);
    } else {
      assert t[0..] == t;
    }
  }

  lemma {:induction false} AnchoredRemains(t: Text, open: bool)
    requires Anchored(t, open)
    ensures forall c <- t :: MayRemain(c)
  {
    if t != [] {
      AnchoredRemains(t[1..], if t[0] == LBRACKET || t[0] == COLON || t[0] == COMMA then true
                              else if IsSpace(t[0]) then open else false);
      assert t == [t[0]] + t[1..];
    }
  }

  lemma {:induction false} LooseShaped(ts: seq<Token>, open: bool)
    requires LooseTokens(ts)
    ensures Shaped(ts, open) == Anchored(BareBones(ts), open)
  {
    if ts != [] {
      var t := ts[0];
      assert t in ts;
      assert BareBones(ts)[1..] == BareBones(ts[1..]);
      match t {
        case Blank(c) => LooseShaped(ts[1..], open);
        case Mark(c) => LooseShaped(ts[1..], c == COLON || c == COMMA || c == LBRACKET);
        case _ => LooseShaped(ts[1..], false);
      }
    }
  }

  // --- what is let through ---------------------------------------------------------------------------

  lemma NumberHead(ps: seq<Piece>)
    requires FoundPieces(ps) && ps != [] && HeadToken(ps).Number?
    ensures var n := HeadLength(ps);
            && (n < |ps| ==> !IsDigit(CoverPieces(ps)[n]))
            && HeadToken(ps).n == CoverPieces(ps)[..n] && IsLoose(HeadToken(ps).n)
  {
    var u := CoverPieces(ps);
    var n := HeadLength(ps);
    assert MatchToken(u) > 0;
    MatchIsLoose(ps, n);
    WordIsFound(u, TRUE);
    WordIsFound(u, FALSE);
    WordIsFound(u, NULL);
    if n < |ps| {
      NumberStops(u);
    }
  }

  lemma WordIsFound(u: Text, w: Text)
    ensures StartsWith(u, w) ==> |w| <= |u| && u[..|w|] == w
  {}

  lemma NumbersTellable(ps: seq<Piece>)
    requires FoundPieces(ps) && ps != [] && HeadLength(ps) < |ps|
    requires HeadToken(ps).Number? && HeadToken(ps[HeadLength(ps)..]).Number?
    ensures StartsWith(HeadToken(ps[HeadLength(ps)..]).n, [MINUS])
  {
    var rest := ps[HeadLength(ps)..];
    assert forall p <- rest :: p in ps;
    NumberHead(ps);
    NumberHead(rest);
    LooseCharacters(HeadToken(rest).n);
    CoverSlice(ps, HeadLength(ps));
    assert HeadToken(rest).n[0] == CoverPieces(rest)[0];
  }

  lemma TellableStep(t: Token, ts: seq<Token>)
    requires Tellable(ts) && (t.Number? && ts != [] && ts[0].Number? ==> StartsWith(ts[0].n, [MINUS]))
    ensures Tellable([t] + ts)
  {}

  /** The tokens that are found can be told apart: a number goes as far as it can. */
  lemma {:induction false} TokensTellable(ps: seq<Piece>)
    requires FoundPieces(ps)
    ensures Tellable(TokensOf(ps))
    decreases |ps|
  {
    if ps != [] {
      var rest := ps[HeadLength(ps)..];
      assert forall p <- rest :: p in ps;
      TokensTellable(rest);
      TokensStep(ps);
      if rest != [] {
        TokensStep(rest);
        if HeadToken(ps).Number? && HeadToken(rest).Number? {
          NumbersTellable(ps);
        }
      }
      TellableStep(HeadToken(ps), TokensOf(rest));
    }
  }

  /** Whatever is evaluated consists of strings, the three words, numbers, marks and white space, with
      opening square brackets only at the start and behind a colon, a comma or another one. */
  lemma GuardSound(t: Text)
    requires Accepts(t)
    ensures exists ts :: LooseTokens(ts) && Tellable(ts) && Shaped(ts, true) && SpellAll(ts) == EscapeCx(t)
  {
    var ps := PiecesOf(EscapeCx(t));
    var bones := BareBones(TokensOf(ps));
    EscapedNoCx(t);
    PiecesOfText(EscapeCx(t));
    BonesOfPieces(ps);
    ResidueIsAnchored(bones, true);
    AnchoredRemains(bones, true);
    TokensAreLoose(ps);
    TokensTellable(ps);
    LooseShaped(TokensOf(ps), true);
  }

  lemma {:induction false} BlankIsSpelled(ts: seq<Token>, t: Token)
    requires t in ts && t.Blank?
    ensures t.c in SpellAll(ts)
  {
    if ts[0] != t {
      assert ts == [ts[0]] + ts[1..];
      BlankIsSpelled(ts[1..], t);
    }
  }

  /** The guard accepts a text exactly when, after the cx rewriting, it can be cut into loose tokens, numbers side
      by side only before a minus, with opening square brackets only where a value may start. */
  lemma GuardExact(t: Text)
    ensures Accepts(t) <==>
            exists ts :: LooseTokens(ts) && Tellable(ts) && Shaped(ts, true) && SpellAll(ts) == EscapeCx(t)
  {
    if Accepts(t) {
      GuardSound(t);
    }
    if exists ts :: LooseTokens(ts) && Tellable(ts) && Shaped(ts, true) && SpellAll(ts) == EscapeCx(t) {
      var ts :| LooseTokens(ts) && Tellable(ts) && Shaped(ts, true) && SpellAll(ts) == EscapeCx(t);
      EscapedNoCx(t);
      EscapeCxPlain(EscapeCx(t));
      forall x: Token | x in ts && x.Blank?
        ensures !IsCx(x.c)
      {
        BlankIsSpelled(ts, x);
      }
      GuardOnLoose(ts);
    }
  }
}
