/** The check that JSON.parse makes before it evaluates a text: the cx rewriting and the
    three chained replacements of login.js, followed by the test of what is left.
    Each replacement is the global, leftmost, greedy replacement of its regular expression. */
module JsonGuard {
  import opened JsonText
  import opened JsonNumbers
  import opened JsonTokens

  /** text.replace(cx, ...) */
  function EscapeCx(t: Text): Text {
    if t == [] then [] else (if IsCx(t[0]) then UnicodeEscape(t[0]) else [t[0]]) + EscapeCx(t[1..])
  }

  /** The length of the match of \\(?:["\\\/bfnrt]|u[0-9a-fA-F]{4}) at the start, or 0. */
  function MatchEscape(t: Text): (n: nat)
    ensures n <= |t|
  {
    if |t| >= 2 && t[0] == BACKSLASH && IsShortEscape(t[1]) then 2
    else if |t| >= 6 && t[0] == BACKSLASH && t[1] == LOWER_U
            && IsHex(t[2]) && IsHex(t[3]) && IsHex(t[4]) && IsHex(t[5]) then 6
    else 0
  }

  /** .replace(escapes, '@') */
  function ReplaceEscapes(t: Text): Text
    decreases |t|
  {
    if t == [] then []
    else if MatchEscape(t) > 0 then [AT] + ReplaceEscapes(t[MatchEscape(t)..])
    else [t[0]] + ReplaceEscapes(t[1..])
  }

  /** How many characters of the class [^"\\\n\r] the text starts with. */
  function StringRun(t: Text): (n: nat)
    ensures n <= |t|
  {
    if t != [] && t[0] != QUOTE && t[0] != BACKSLASH && t[0] != NEWLINE && t[0] != RETURN
    then 1 + StringRun(t[1..]) else 0
  }

  /** The length of the match of "[^"\\\n\r]*"|true|false|null|number at the start, or 0. */
  function MatchToken(t: Text): (n: nat)
    ensures n <= |t|
  {
    if t != [] && t[0] == QUOTE && 1 + StringRun(t[1..]) < |t| && t[1 + StringRun(t[1..])] == QUOTE then
      2 + StringRun(t[1..])
    else if StartsWith(t, TRUE) then 4
    else if StartsWith(t, FALSE) then 5
    else if StartsWith(t, NULL) then 4
    else MatchNumber(t)
  }

  /** .replace(tokens, ']') */
  function ReplaceTokens(t: Text): Text
    decreases |t|
  {
    if t == [] then []
    else if MatchToken(t) > 0 then [RBRACKET] + ReplaceTokens(t[MatchToken(t)..])
    else [t[0]] + ReplaceTokens(t[1..])
  }

  function SpaceRun(t: Text): (n: nat)
    ensures n <= |t|
  {
    if t != [] && IsSpace(t[0]) then 1 + SpaceRun(t[1..]) else 0
  }

  /** The length of the match of (?:\s*\[)+ at the start, or 0. */
  function BracketRun(t: Text): (n: nat)
    ensures n <= |t|
    decreases |t|
  {
    var w := SpaceRun(t);
    if w < |t| && t[w] == LBRACKET then w + 1 + BracketRun(t[w + 1..]) else 0
  }

  /** .replace(/(?:^|:|,)(?:\s*\[)+/g, ''), where atStart says that ^ matches here. */
  function DropBrackets(t: Text, atStart: bool): Text
    decreases |t|
  {
    if t == [] then []
    else if atStart && BracketRun(t) > 0 then DropBrackets(t[BracketRun(t)..], false)
    else if (t[0] == COLON || t[0] == COMMA) && BracketRun(t[1..]) > 0 then
      DropBrackets(t[1 + BracketRun(t[1..])..], false)
    else [t[0]] + DropBrackets(t[1..], false)
  }

  /** The class [\],:{}\s]. */
  predicate IsResidue(c: CodeUnit) {
    c == RBRACKET || c == COMMA || c == COLON || c == LBRACE || c == RBRACE || IsSpace(c)
  }

  predicate Residue(t: Text) { forall c <- t :: IsResidue(c) }

  /** Whether JSON.parse hands the text on to be evaluated. */
  predicate Accepts(t: Text) {
    Residue(DropBrackets(ReplaceTokens(ReplaceEscapes(EscapeCx(t))), true))
  }

  // --- stage by stage, on spelled tokens ------------------------------------

  function CoverPiece(p: Piece): CodeUnit {
    if p.Plain? && !IsCx(p.c) then p.c else AT
  }

  function CoverPieces(ps: seq<Piece>): (t: Text)
    ensures |t| == |ps|
    ensures forall i :: 0 <= i < |ps| ==> t[i] == CoverPiece(ps[i])
  {
    seq(|ps|, i requires 0 <= i < |ps| => CoverPiece(ps[i]))
  }

  /** What the first two stages make of a token. */
  function Covered(t: Token): Text {
    match t
    case Blank(c) => if IsCx(c) then [AT] else [c]
    case Mark(c) => [c]
    case Word(w) => w
    case Number(n) => n
    case Quoted(body) => [QUOTE] + CoverPieces(body) + [QUOTE]
  }

  function CoveredAll(ts: seq<Token>): Text {
    if ts == [] then [] else Covered(ts[0]) + CoveredAll(ts[1..])
  }

  /** What the third stage makes of a token. */
  function Bone(t: Token): CodeUnit {
    match t
    case Blank(c) => if IsCx(c) then AT else c
    case Mark(c) => c
    case _ => RBRACKET
  }

  function Skeleton(ts: seq<Token>): Text {
    if ts == [] then [] else [Bone(ts[0])] + Skeleton(ts[1..])
  }

  lemma {:induction false} EscapeCxAppend(a: Text, b: Text)
    ensures EscapeCx(a + b) == EscapeCx(a) + EscapeCx(b)
  {
    if a == [] {
      assert a + b == b;
    } else {
      EscapeCxAppend(a[1..], b);
      assert (a + b)[1..] == a[1..] + b;
      Assoc(if IsCx(a[0]) then UnicodeEscape(a[0]) else [a[0]], EscapeCx(a[1..]), EscapeCx(b));
    }
  }

  lemma {:induction false} EscapeCxPlain(a: Text)
    requires forall c <- a :: !IsCx(c)
    ensures EscapeCx(a) == a
  {
    if a != [] {
      EscapeCxPlain(a[1..]);
    }
  }

  lemma {:induction false} ReplaceEscapesPlain(a: Text, rest: Text)
    requires BACKSLASH !in a
    ensures ReplaceEscapes(a + rest) == a + ReplaceEscapes(rest)
  {
    if a == [] {
      assert a + rest == rest;
    } else {
      assert a[0] in a;
      ReplaceEscapesPlain(a[1..], rest);
      assert (a + rest)[1..] == a[1..] + rest;
      Assoc([a[0]], a[1..], ReplaceEscapes(rest));
      assert [a[0]] + a[1..] == a;
    }
  }

  lemma ReplaceEscapesUnicode(c: CodeUnit, rest: Text)
    ensures ReplaceEscapes(UnicodeEscape(c) + rest) == [AT] + ReplaceEscapes(rest)
  {
    UnicodeEscapeDigits(c);
    var t := UnicodeEscape(c) + rest;
    assert t[6..] == rest;
  }

  lemma CoverOnePiece(p: Piece, rest: Text)
    requires LoosePiece(p)
    ensures ReplaceEscapes(EscapeCx(SpellPiece(p)) + rest) == [CoverPiece(p)] + ReplaceEscapes(rest)
  {
    match p {
      case Plain(c) =>
        if IsCx(c) {
          assert EscapeCx([c]) == UnicodeEscape(c);
          ReplaceEscapesUnicode(c, rest);
        } else {
          assert EscapeCx([c]) == [c];
          ReplaceEscapesPlain([c], rest);
        }
      case Short(c) =>
        EscapeCxPlain(SpellPiece(p));
        assert (SpellPiece(p) + rest)[2..] == rest;
      case Hex4(a, b, c, d) =>
        EscapeCxPlain(SpellPiece(p));
        assert (SpellPiece(p) + rest)[6..] == rest;
    }
  }

  lemma {:induction false} CoverAllPieces(ps: seq<Piece>, rest: Text)
    requires forall p <- ps :: LoosePiece(p)
    ensures ReplaceEscapes(EscapeCx(SpellPieces(ps)) + rest) == CoverPieces(ps) + ReplaceEscapes(rest)
  {
    if ps == [] {
      assert EscapeCx(SpellPieces(ps)) + rest == rest;
    } else {
      var p, tail := SpellPiece(ps[0]), SpellPieces(ps[1..]);
      assert ps[0] in ps;
      EscapeCxAppend(p, tail);
      Assoc(EscapeCx(p), EscapeCx(tail), rest);
      CoverOnePiece(ps[0], EscapeCx(tail) + rest);
      CoverAllPieces(ps[1..], rest);
      assert CoverPieces(ps) == [CoverPiece(ps[0])] + CoverPieces(ps[1..]);
      Assoc([CoverPiece(ps[0])], CoverPieces(ps[1..]), ReplaceEscapes(rest));
    }
  }

  /** Numbers and words contain nothing that the first two stages touch. */
  lemma CoverUntouched(w: Text, rest: Text)
    requires forall c <- w :: IsNumberChar(c) || IsMark(c) || 0x61 <= c <= 0x7A
    ensures ReplaceEscapes(EscapeCx(w) + rest) == w + ReplaceEscapes(rest)
  {
    EscapeCxPlain(w);
    ReplaceEscapesPlain(w, rest);
  }

  lemma EscapeCxQuoted(body: Text)
    ensures EscapeCx([QUOTE] + body + [QUOTE]) == [QUOTE] + EscapeCx(body) + [QUOTE]
  {
    EscapeCxAppend([QUOTE] + body, [QUOTE]);
    EscapeCxAppend([QUOTE], body);
    EscapeCxPlain([QUOTE]);
  }

  lemma CoverBetween(ps: seq<Piece>, q: Text, rest: Text)
    requires BACKSLASH !in q && forall p <- ps :: LoosePiece(p)
    ensures ReplaceEscapes(q + EscapeCx(SpellPieces(ps)) + q + rest) == q + CoverPieces(ps) + q + ReplaceEscapes(rest)
  {
    var body, cover, after := EscapeCx(SpellPieces(ps)), CoverPieces(ps), ReplaceEscapes(rest);
    calc {
      ReplaceEscapes(q + body + q + rest);
      { Assoc(q + body, q, rest); Assoc(q, body, q + rest); }
      ReplaceEscapes(q + (body + (q + rest)));
      { ReplaceEscapesPlain(q, body + (q + rest)); }
      q + ReplaceEscapes(body + (q + rest));
      { CoverAllPieces(ps, q + rest); }
      q + (cover + ReplaceEscapes(q + rest));
      { ReplaceEscapesPlain(q, rest); }
      q + (cover + (q + after));
      { Assoc(q, cover, q + after); Assoc(q + cover, q, after); }
      q + cover + q + after;
    }
  }

  lemma CoverQuoted(ps: seq<Piece>, rest: Text)
    requires forall p <- ps :: LoosePiece(p)
    ensures ReplaceEscapes(EscapeCx(Spell(Quoted(ps))) + rest) == Covered(Quoted(ps)) + ReplaceEscapes(rest)
  {
    EscapeCxQuoted(SpellPieces(ps));
    CoverBetween(ps, [QUOTE], rest);
  }

  lemma CoverToken(t: Token, rest: Text)
    requires LooseToken(t)
    ensures ReplaceEscapes(EscapeCx(Spell(t)) + rest) == Covered(t) + ReplaceEscapes(rest)
  {
    match t {
      case Blank(c) =>
        if IsCx(c) {
          assert EscapeCx([c]) == UnicodeEscape(c);
          ReplaceEscapesUnicode(c, rest);
        } else {
          assert EscapeCx([c]) == [c];
          ReplaceEscapesPlain([c], rest);
        }
      case Mark(c) => CoverUntouched([c], rest);
      case Word(w) => CoverUntouched(w, rest);
      case Number(n) =>
        LooseCharacters(n);
        CoverUntouched(n, rest);
      case Quoted(ps) => CoverQuoted(ps, rest);
    }
  }

  lemma {:induction false} CoverTokens(ts: seq<Token>)
    requires LooseTokens(ts)
    ensures ReplaceEscapes(EscapeCx(SpellAll(ts))) == CoveredAll(ts)
  {
    if ts != [] {
      var head, tail := Spell(ts[0]), SpellAll(ts[1..]);
      assert ts[0] in ts;
      EscapeCxAppend(head, tail);
      CoverToken(ts[0], EscapeCx(tail));
      CoverTokens(ts[1..]);
    }
  }

  lemma {:induction false} StringRunOver(body: Text, rest: Text)
    requires forall i :: 0 <= i < |body| ==> InString(body[i])
    requires rest != [] && rest[0] == QUOTE
    ensures StringRun(body + rest) == |body|
  {
    if body == [] {
      assert body + rest == rest;
    } else {
      assert InString(body[0]);
      StringRunOver(body[1..], rest);
      assert (body + rest)[1..] == body[1..] + rest;
    }
  }

  lemma CoveredBody(ps: seq<Piece>)
    requires forall p <- ps :: LoosePiece(p)
    ensures forall i :: 0 <= i < |ps| ==> InString(CoverPieces(ps)[i])
  {
    forall i | 0 <= i < |ps|
      ensures InString(CoverPieces(ps)[i])
    {
      assert ps[i] in ps;
    }
  }

  lemma BoneOfQuoted(ps: seq<Piece>, rest: Text)
    requires forall p <- ps :: LoosePiece(p)
    ensures ReplaceTokens(Covered(Quoted(ps)) + rest) == [RBRACKET] + ReplaceTokens(rest)
  {
    var body := CoverPieces(ps);
    var t := Covered(Quoted(ps)) + rest;
    assert t[1..] == body + ([QUOTE] + rest);
    CoveredBody(ps);
    StringRunOver(body, [QUOTE] + rest);
    assert t[|body| + 2..] == rest;
  }

  lemma BoneOfWord(w: Text, rest: Text)
    requires w == TRUE || w == FALSE || w == NULL
    ensures ReplaceTokens(w + rest) == [RBRACKET] + ReplaceTokens(rest)
  {
    var u := w + rest;
    assert u[0] == w[0] && u[1] == w[1];
    assert w <= u && u[|w|..] == rest;
  }

  lemma BoneOfNumber(n: Text, rest: Text)
    requires IsLoose(n)
    requires rest == [] || EndsNumber(rest[0])
    ensures ReplaceTokens(n + rest) == [RBRACKET] + ReplaceTokens(rest)
  {
    LooseExact(n);
    LooseCharacters(n);
    MatchNumberAppend(n, rest);
    var u := n + rest;
    assert u[0] == n[0];
    assert u[|n|..] == rest;
  }

  lemma BoneOfSingle(c: CodeUnit, rest: Text)
    requires IsMark(c) || IsSpace(c) || c == AT
    ensures ReplaceTokens([c] + rest) == [c] + ReplaceTokens(rest)
  {
    var u := [c] + rest;
    assert u[0] == c && u[1..] == rest && u[0..] == u;
    assert MatchNumber(u) == 0;
  }

  lemma RestEndsNumber(ts: seq<Token>)
    requires LooseTokens(ts) && Tellable(ts) && ts != [] && ts[0].Number?
    ensures CoveredAll(ts[1..]) == [] || EndsNumber(CoveredAll(ts[1..])[0])
  {
    if |ts| > 1 {
      var t := ts[1];
      assert t in ts && ts[1..][0] == t;
      if t.Number? {
        LooseCharacters(t.n);
        assert CoveredAll(ts[1..])[0] == t.n[0] == MINUS;
      } else {
        assert CoveredAll(ts[1..])[0] == Covered(t)[0];
      }
    }
  }

  lemma {:induction false} BonesOfTokens(ts: seq<Token>)
    requires LooseTokens(ts) && Tellable(ts)
    ensures ReplaceTokens(CoveredAll(ts)) == Skeleton(ts)
  {
    if ts != [] {
      var t, rest := ts[0], CoveredAll(ts[1..]);
      assert t in ts;
      match t {
        case Blank(c) => BoneOfSingle(Bone(t), rest);
        case Mark(c) => BoneOfSingle(c, rest);
        case Word(w) => BoneOfWord(w, rest);
        case Quoted(ps) => BoneOfQuoted(ps, rest);
        case Number(n) =>
          RestEndsNumber(ts);
          BoneOfNumber(n, rest);
      }
      BonesOfTokens(ts[1..]);
    }
  }

  // --- the last stage --------------------------------------------------------

  /** Every opening bracket follows the start (if open), a colon, a comma or another opening
      bracket, with only white space between; everything else may stay in the residue. */
  predicate Anchored(t: Text, open: bool) {
    if t == [] then true
    else if t[0] == LBRACKET then open && Anchored(t[1..], true)
    else if t[0] == COLON || t[0] == COMMA then Anchored(t[1..], true)
    else if IsSpace(t[0]) then Anchored(t[1..], open)
    else IsResidue(t[0]) && Anchored(t[1..], false)
  }

  lemma {:induction false} AfterSpaces(t: Text, open: bool)
    requires Anchored(t, open)
    ensures Anchored(t[SpaceRun(t)..], open)
  {
    if t != [] && IsSpace(t[0]) {
      AfterSpaces(t[1..], open);
      assert t[1..][SpaceRun(t[1..])..] == t[SpaceRun(t)..];
    } else {
      assert t[0..] == t;
    }
  }

  lemma {:induction false} OverSpaces(t: Text, open: bool)
    requires Anchored(t[SpaceRun(t)..], open)
    ensures Anchored(t, open)
  {
    if t != [] && IsSpace(t[0]) {
      assert t[1..][SpaceRun(t[1..])..] == t[SpaceRun(t)..];
      OverSpaces(t[1..], open);
    } else {
      assert t[0..] == t;
    }
  }

  lemma {:induction false} SpaceRunStops(t: Text)
    ensures SpaceRun(t) < |t| ==> !IsSpace(t[SpaceRun(t)])
  {
    if t != [] && IsSpace(t[0]) {
      SpaceRunStops(t[1..]);
    }
  }

  /** After the greedy run of opening brackets none is left that relies on its start. */
  lemma {:induction false} AfterBracketRun(t: Text)
    requires Anchored(t, true)
    ensures Anchored(t[BracketRun(t)..], false)
    decreases |t|
  {
    var w := SpaceRun(t);
    AfterSpaces(t, true);
    SpaceRunStops(t);
    if w < |t| && t[w] == LBRACKET {
      var rest := t[w + 1..];
      assert t[w..][1..] == rest;
      AfterBracketRun(rest);
      assert rest[BracketRun(rest)..] == t[BracketRun(t)..];
    } else {
      if w < |t| {
        assert t[w..][0] == t[w];
      }
      OverSpaces(t, false);
      assert t[0..] == t;
    }
  }

  lemma {:induction false} DropBracketsLeavesResidue(t: Text, open: bool)
    requires Anchored(t, open)
    ensures Residue(DropBrackets(t, open))
    decreases |t|
  {
    if t == [] {
    } else if open && BracketRun(t) > 0 {
      AfterBracketRun(t);
      DropBracketsLeavesResidue(t[BracketRun(t)..], false);
    } else {
      if open {
        AfterBracketRun(t);
        assert t[0..] == t;
      }
      assert Anchored(t, false);
      if t[0] == COLON || t[0] == COMMA {
        AfterBracketRun(t[1..]);
        var n := BracketRun(t[1..]);
        assert t[1..][n..] == t[1 + n..];
        DropBracketsLeavesResidue(t[1 + n..], false);
      } else {
        DropBracketsLeavesResidue(t[1..], false);
      }
    }
  }

  /** Characters that the last stage can delete. */
  predicate IsDroppable(c: CodeUnit) { IsSpace(c) || c == LBRACKET || c == COLON || c == COMMA }

  lemma Uncons(t: Text, x: CodeUnit)
    requires t != []
    ensures x in t <==> t[0] == x || x in t[1..]
  {
    assert t == [t[0]] + t[1..];
  }

  lemma {:induction false} BracketRunSpares(t: Text, x: CodeUnit)
    requires x in t && !IsDroppable(x)
    ensures x in t[BracketRun(t)..]
    decreases |t|
  {
    var w := SpaceRun(t);
    if w < |t| && t[w] == LBRACKET {
      var rest := t[w + 1..];
      assert x in rest by {
        SpaceRunSpares(t, x);
        Uncons(t[w..], x);
        DropDrop(t, w, 1);
      }
      BracketRunSpares(rest, x);
      DropDrop(t, w + 1, BracketRun(rest));
    } else {
      assert t[0..] == t;
    }
  }

  lemma {:induction false} SpaceRunSpares(t: Text, x: CodeUnit)
    requires x in t && !IsDroppable(x)
    ensures x in t[SpaceRun(t)..]
  {
    if t != [] && IsSpace(t[0]) {
      assert t == [t[0]] + t[1..];
      SpaceRunSpares(t[1..], x);
      assert t[1..][SpaceRun(t[1..])..] == t[SpaceRun(t)..];
    } else {
      assert t[0..] == t;
    }
  }

  /** Whatever the last stage cannot delete stays, so a text that still holds an @ is refused. */
  lemma {:induction false} DropBracketsSpares(t: Text, open: bool, x: CodeUnit)
    requires x in t && !IsDroppable(x)
    ensures x in DropBrackets(t, open)
    decreases |t|
  {
    Uncons(t, x);
    if open && BracketRun(t) > 0 {
      BracketRunSpares(t, x);
      DropBracketsSpares(t[BracketRun(t)..], false, x);
    } else if t[0] == x {
      assert DropBrackets(t, open)[0] == x;
    } else {
      var n := BracketRun(t[1..]);
      BracketRunSpares(t[1..], x);
      assert t[1..][n..] == t[1 + n..];
      DropBracketsSpares(t[1..], false, x);
      DropBracketsSpares(t[1 + n..], false, x);
    }
  }

  // --- the guard on spelled tokens -------------------------------------------

  /** No blank between the tokens is one of the characters that cx rewrites. */
  predicate NoCxBlank(ts: seq<Token>) { forall t <- ts :: t.Blank? ==> !IsCx(t.c) }

  /** The shape every JSON text has: tokens that can be told apart, and opening square
      brackets only where a value may start. */
  predicate Shaped(ts: seq<Token>, open: bool) {
    if ts == [] then true
    else
      match ts[0]
      case Blank(_) => Shaped(ts[1..], open)
      case Mark(c) =>
        if c == LBRACKET then open && Shaped(ts[1..], true)
        else Shaped(ts[1..], c == COLON || c == COMMA)
      case _ => Shaped(ts[1..], false)
  }

  lemma {:induction false} ShapedIsAnchored(ts: seq<Token>, open: bool)
    requires LooseTokens(ts) && NoCxBlank(ts)
    ensures Shaped(ts, open) == Anchored(Skeleton(ts), open)
  {
    if ts != [] {
      var t := ts[0];
      assert t in ts;
      assert Skeleton(ts)[1..] == Skeleton(ts[1..]);
      match t {
        case Blank(c) => ShapedIsAnchored(ts[1..], open);
        case Mark(c) => ShapedIsAnchored(ts[1..], c == COLON || c == COMMA || c == LBRACKET);
        case _ => ShapedIsAnchored(ts[1..], false);
      }
    }
  }

  lemma {:induction false} CxBlankShows(ts: seq<Token>)
    requires !NoCxBlank(ts)
    ensures AT in Skeleton(ts)
  {
    var t :| t in ts && t.Blank? && IsCx(t.c);
    if ts[0] != t {
      assert ts == [ts[0]] + ts[1..];
      assert t in ts[1..];
      CxBlankShows(ts[1..]);
    }
  }

  lemma SkeletonPasses(ts: seq<Token>)
    requires LooseTokens(ts) && Shaped(ts, true)
    ensures Residue(DropBrackets(Skeleton(ts), true)) <==> NoCxBlank(ts)
  {
    if NoCxBlank(ts) {
      ShapedIsAnchored(ts, true);
      DropBracketsLeavesResidue(Skeleton(ts), true);
    } else {
      CxBlankShows(ts);
      DropBracketsSpares(Skeleton(ts), true, AT);
      assert !IsResidue(AT);
    }
  }

  /** A well-shaped text of loose tokens is accepted exactly when no cx character stands between them. */
  lemma GuardOnLoose(ts: seq<Token>)
    requires LooseTokens(ts) && Tellable(ts) && Shaped(ts, true)
    ensures Accepts(SpellAll(ts)) <==> NoCxBlank(ts)
  {
    CoverTokens(ts);
    BonesOfTokens(ts);
    SkeletonPasses(ts);
  }

  /** So is a well-shaped text of the tokens of the grammar. */
  lemma GuardOnTokens(ts: seq<Token>)
    requires TokensOk(ts) && Separated(ts) && Shaped(ts, true)
    ensures Accepts(SpellAll(ts)) <==> NoCxBlank(ts)
  {
    GrammarIsLoose(ts);
    GuardOnLoose(ts);
  }
}
