/** Lexical tokens of a JSON text (RFC 4627, sections 2.1 to 2.5) and their spelling.
    The printer, the reader and the guard are all related to lists of these tokens. */
module JsonTokens {
  import opened JsonText
  import opened JsonNumbers

  /** One char of a quoted string: unescaped, a two-character escape, or \uXXXX. */
  datatype Piece = Plain(c: CodeUnit) | Short(c: CodeUnit) | Hex4(h0: CodeUnit, h1: CodeUnit, h2: CodeUnit, h3: CodeUnit)

  datatype Token =
    | Blank(c: CodeUnit)
    | Mark(c: CodeUnit)
    | Word(w: Text)
    | Number(n: Text)
    | Quoted(body: seq<Piece>)

  /** The letters that may follow a backslash, other than u. */
  predicate IsShortEscape(c: CodeUnit) {
    c == QUOTE || c == BACKSLASH || c == SLASH || c == 0x62 || c == 0x66 || c == 0x6E || c == 0x72 || c == 0x74
  }

  predicate PieceOk(p: Piece) {
    match p
    case Plain(c) => c >= 0x20 && c != QUOTE && c != BACKSLASH
    case Short(c) => IsShortEscape(c)
    case Hex4(a, b, c, d) => IsHex(a) && IsHex(b) && IsHex(c) && IsHex(d)
  }

  predicate PiecesOk(ps: seq<Piece>) { forall p <- ps :: PieceOk(p) }

  /** A token of the grammar, except that any character of the class \s counts as blank. */
  predicate TokenOk(t: Token) {
    match t
    case Blank(c) => IsSpace(c)
    case Mark(c) => IsMark(c)
    case Word(w) => w == TRUE || w == FALSE || w == NULL
    case Number(n) => IsNumber(n)
    case Quoted(body) => PiecesOk(body)
  }

  predicate TokensOk(ts: seq<Token>) { forall t <- ts :: TokenOk(t) }

  /** Every blank is white space of RFC 4627. */
  predicate JsonBlanks(ts: seq<Token>) { forall t <- ts :: t.Blank? ==> IsJsonSpace(t.c) }

  function SpellPiece(p: Piece): Text {
    match p
    case Plain(c) => [c]
    case Short(c) => [BACKSLASH, c]
    case Hex4(a, b, c, d) => [BACKSLASH, LOWER_U, a, b, c, d]
  }

  function SpellPieces(ps: seq<Piece>): Text {
    if ps == [] then [] else SpellPiece(ps[0]) + SpellPieces(ps[1..])
  }

  function Spell(t: Token): Text {
    match t
    case Blank(c) => [c]
    case Mark(c) => [c]
    case Word(w) => w
    case Number(n) => n
    case Quoted(body) => [QUOTE] + SpellPieces(body) + [QUOTE]
  }

  function SpellAll(ts: seq<Token>): Text {
    if ts == [] then [] else Spell(ts[0]) + SpellAll(ts[1..])
  }

  lemma SpellAllStep(t: Token, ts: seq<Token>)
    ensures SpellAll([t] + ts) == Spell(t) + SpellAll(ts)
  {
    assert ([t] + ts)[1..] == ts;
  }

  lemma {:induction false} SpellAllAppend(a: seq<Token>, b: seq<Token>)
    ensures SpellAll(a + b) == SpellAll(a) + SpellAll(b)
  {
    if a == [] {
      assert a + b == b;
      assert SpellAll(a) + SpellAll(b) == SpellAll(b);
    } else {
      var t, rest := a[0], a[1..];
      SpellAllAppend(rest, b);
      SpellAllStep(t, rest + b);
      SpellAllStep(t, rest);
      assert a == [t] + rest && a + b == [t] + (rest + b);
      Assoc(Spell(t), SpellAll(rest), SpellAll(b));
    }
  }

  function Blanks(t: Text): (ts: seq<Token>)
    ensures |ts| == |t| && forall i :: 0 <= i < |t| ==> ts[i] == Blank(t[i])
  {
    seq(|t|, i requires 0 <= i < |t| => Blank(t[i]))
  }

  lemma {:induction false} SpellBlanks(t: Text)
    ensures SpellAll(Blanks(t)) == t
  {
    if t != [] {
      SpellBlanks(t[1..]);
      assert Blanks(t)[1..] == Blanks(t[1..]);
    }
  }

  /** The tokens without the white space between them. */
  function NonBlank(ts: seq<Token>): (r: seq<Token>)
    ensures forall t <- r :: !t.Blank?
    ensures forall t <- r :: t in ts
  {
    if ts == [] then []
    else if ts[0].Blank? then NonBlank(ts[1..])
    else [ts[0]] + NonBlank(ts[1..])
  }

  lemma {:induction false} NonBlankAppend(a: seq<Token>, b: seq<Token>)
    ensures NonBlank(a + b) == NonBlank(a) + NonBlank(b)
  {
    if a == [] {
      assert a + b == b;
    } else {
      NonBlankAppend(a[1..], b);
      assert (a + b)[1..] == a[1..] + b;
      Assoc([a[0]], NonBlank(a[1..]), NonBlank(b));
    }
  }

  lemma {:induction false} NonBlankBlanks(t: Text)
    ensures NonBlank(Blanks(t)) == []
  {
    if t != [] {
      NonBlankBlanks(t[1..]);
      assert Blanks(t)[1..] == Blanks(t[1..]);
    }
  }

  /** The text can be cut back into these tokens: what follows a number is a blank or a mark. */
  predicate Separated(ts: seq<Token>) {
    forall i :: 0 <= i < |ts| - 1 && ts[i].Number? ==> ts[i + 1].Blank? || ts[i + 1].Mark?
  }

  /** If what follows is separated, the spelled rest cannot continue a number. */
  lemma SpelledRestEndsNumber(ts: seq<Token>)
    requires TokensOk(ts) && Separated(ts) && |ts| > 0 && ts[0].Number?
    ensures SpellAll(ts[1..]) == [] || EndsNumber(SpellAll(ts[1..])[0])
  {
    if |ts| > 1 {
      var t := ts[1];
      assert t in ts;
      assert ts[1..][0] == t;
      assert SpellAll(ts[1..])[0] == t.c;
    }
  }

  // --- the characters a quoted string denotes ------------------------------

  function ShortValue(c: CodeUnit): CodeUnit {
    if c == 0x62 then 0x08 else if c == 0x66 then 0x0C else if c == 0x6E then NEWLINE
    else if c == 0x72 then RETURN else if c == 0x74 then 0x09 else c
  }

  function PieceValue(p: Piece): CodeUnit
    requires PieceOk(p)
  {
    match p
    case Plain(c) => c
    case Short(c) => ShortValue(c)
    case Hex4(a, b, c, d) => FromHex4(a, b, c, d)
  }

  function PiecesValue(ps: seq<Piece>): Text
    requires PiecesOk(ps)
  {
    if ps == [] then [] else [PieceValue(ps[0])] + PiecesValue(ps[1..])
  }

  // --- the looser tokens of the guard ---------------------------------------

  /** The class [^"\\\n\r]. */
  predicate InString(c: CodeUnit) { c != QUOTE && c != BACKSLASH && c != NEWLINE && c != RETURN }

  predicate LoosePiece(p: Piece) {
    match p
    case Plain(c) => InString(c)
    case Short(c) => IsShortEscape(c)
    case Hex4(a, b, c, d) => IsHex(a) && IsHex(b) && IsHex(c) && IsHex(d)
  }

  /** A string without raw quotes, backslashes and line ends, one of the three words, a number that may have
      leading zeros and end in its point, a mark, or white space. */
  ghost predicate LooseToken(t: Token) {
    match t
    case Blank(c) => IsSpace(c)
    case Mark(c) => IsMark(c)
    case Word(w) => w == TRUE || w == FALSE || w == NULL
    case Number(n) => IsLoose(n)
    case Quoted(body) => forall p <- body :: LoosePiece(p)
  }

  ghost predicate LooseTokens(ts: seq<Token>) { forall t <- ts :: LooseToken(t) }

  /** Two numbers may only stand side by side when the second one has a minus. */
  predicate Tellable(ts: seq<Token>) {
    forall i :: 0 <= i < |ts| - 1 && ts[i].Number? && ts[i + 1].Number? ==> StartsWith(ts[i + 1].n, [MINUS])
  }

  /** The tokens of the grammar are loose ones. */
  lemma TokenIsLoose(t: Token)
    requires TokenOk(t)
    ensures LooseToken(t)
  {
    if t.Number? {
      LooseExact(t.n);
    } else if t.Quoted? {
      assert forall p <- t.body :: PieceOk(p) ==> LoosePiece(p);
    }
  }

  lemma GrammarIsLoose(ts: seq<Token>)
    requires TokensOk(ts)
    ensures LooseTokens(ts)
    ensures Separated(ts) ==> Tellable(ts)
  {
    forall t | t in ts
      ensures LooseToken(t)
    {
      TokenIsLoose(t);
    }
  }
}
