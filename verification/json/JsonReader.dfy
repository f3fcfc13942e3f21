/** A reader written from the grammar in section 2 of RFC 4627: a lexer on text and a
    recursive-descent parser on tokens. It knows nothing of the printer or the guard.
    Like the printer, it takes any JSON value at the top, not only an object or array. */
module JsonReader {
  import opened Wrappers
  import opened JsonText
  import opened JsonTokens
  import opened JsonPrinter

  /** The values a JSON text can denote. */
  datatype Json =
    | JNull
    | JBool(b: bool)
    | JNumber(n: NumberText)
    | JString(s: Text)
    | JArray(elems: seq<Json>)
    | JObject(members: seq<JMember>)

  datatype JMember = JMember(key: Text, value: Json)

  datatype Read<+T, +S> = Fail | Ok(value: T, rest: seq<S>)

  // --- lexer ---------------------------------------------------------------

  /** The rest of a string after its opening quotation mark. */
  function LexPieces(t: Text): (r: Read<seq<Piece>, CodeUnit>)
    ensures r.Ok? ==> |r.rest| < |t| && PiecesOk(r.value)
    ensures r.Ok? ==> t == SpellPieces(r.value) + [QUOTE] + r.rest
  {
    if t == [] then Fail
    else if t[0] == QUOTE then Ok([], t[1..])
    else
      match LexPiece(t)
      case Fail => Fail
      case Ok(p, rest) =>
        match LexPieces(rest)
        case Fail => Fail
        case Ok(ps, rest') =>
          assert t == SpellPiece(p) + (SpellPieces(ps) + [QUOTE] + rest');
          assert SpellPieces([p] + ps) == SpellPiece(p) + SpellPieces(ps);
          Ok([p] + ps, rest')
  }

  function LexPiece(t: Text): (r: Read<Piece, CodeUnit>)
    requires t != [] && t[0] != QUOTE
    ensures r.Ok? ==> |r.rest| < |t| && PieceOk(r.value) && t == SpellPiece(r.value) + r.rest
  {
    if t[0] != BACKSLASH then
      if t[0] >= 0x20 then Ok(Plain(t[0]), t[1..]) else Fail
    else if |t| < 2 then Fail
    else if IsShortEscape(t[1]) then Ok(Short(t[1]), t[2..])
    else if t[1] == LOWER_U && |t| >= 6 && IsHex(t[2]) && IsHex(t[3]) && IsHex(t[4]) && IsHex(t[5]) then
      Ok(Hex4(t[2], t[3], t[4], t[5]), t[6..])
    else Fail
  }

  function LexToken(t: Text): (r: Read<Token, CodeUnit>)
    requires t != []
    ensures r.Ok? ==> |r.rest| < |t| && TokenOk(r.value) && t == Spell(r.value) + r.rest
    ensures r.Ok? && r.value.Blank? ==> IsJsonSpace(r.value.c)
  {
    var c := t[0];
    if IsJsonSpace(c) then Ok(Blank(c), t[1..])
    else if IsMark(c) then Ok(Mark(c), t[1..])
    else if c == QUOTE then
      match LexPieces(t[1..])
      case Fail => Fail
      case Ok(ps, rest) =>
        assert t == [QUOTE] + (SpellPieces(ps) + [QUOTE] + rest);
        Ok(Quoted(ps), rest)
    else if StartsWith(t, TRUE) then Ok(Word(TRUE), t[4..])
    else if StartsWith(t, FALSE) then Ok(Word(FALSE), t[5..])
    else if StartsWith(t, NULL) then Ok(Word(NULL), t[4..])
    else
      var n := MatchNumber(t);
      if IsNumber(t[..n]) then Ok(Number(t[..n]), t[n..]) else Fail
  }

  function Lex(t: Text): Option<seq<Token>>
    decreases |t|
  {
    if t == [] then Some([])
    else
      match LexToken(t)
      case Fail => None
      case Ok(tok, rest) =>
        match Lex(rest)
        case None => None
        case Some(ts) => Some([tok] + ts)
  }

  // --- parser (on tokens without white space) ------------------------------

  predicate IsMarkOf(ts: seq<Token>, c: CodeUnit) {
    ts != [] && ts[0] == Mark(c)
  }

  function ParseValue(ts: seq<Token>): (r: Read<Json, Token>)
    ensures r.Ok? ==> |r.rest| < |ts|
    decreases |ts|, 0
  {
    if ts == [] then Fail
    else
      match ts[0]
      case Blank(_) => Fail
      case Word(w) =>
        Ok(if w == TRUE then JBool(true) else if w == FALSE then JBool(false) else JNull, ts[1..])
      case Number(n) => if IsNumber(n) then Ok(JNumber(n), ts[1..]) else Fail
      case Quoted(ps) => if PiecesOk(ps) then Ok(JString(PiecesValue(ps)), ts[1..]) else Fail
      case Mark(c) =>
        if c == LBRACKET then
          if IsMarkOf(ts[1..], RBRACKET) then Ok(JArray([]), ts[2..])
          else
            match ParseElems(ts[1..])
            case Fail => Fail
            case Ok(es, rest) => Ok(JArray(es), rest)
        else if c == LBRACE then
          if IsMarkOf(ts[1..], RBRACE) then Ok(JObject([]), ts[2..])
          else
            match ParseMembers(ts[1..])
            case Fail => Fail
            case Ok(ms, rest) => Ok(JObject(ms), rest)
        else Fail
  }

  /** value *( , value ) ] */
  function ParseElems(ts: seq<Token>): (r: Read<seq<Json>, Token>)
    ensures r.Ok? ==> |r.rest| < |ts|
    decreases |ts|, 1
  {
    match ParseValue(ts)
    case Fail => Fail
    case Ok(v, rest) =>
      if IsMarkOf(rest, RBRACKET) then Ok([v], rest[1..])
      else if IsMarkOf(rest, COMMA) then
        match ParseElems(rest[1..])
        case Fail => Fail
        case Ok(vs, rest') => Ok([v] + vs, rest')
      else Fail
  }

  /** string : value *( , string : value ) } */
  function ParseMembers(ts: seq<Token>): (r: Read<seq<JMember>, Token>)
    ensures r.Ok? ==> |r.rest| < |ts|
    decreases |ts|, 1
  {
    if |ts| < 2 || !ts[0].Quoted? || !PiecesOk(ts[0].body) || ts[1] != Mark(COLON) then Fail
    else
      match ParseValue(ts[2..])
      case Fail => Fail
      case Ok(v, rest) =>
        var m := JMember(PiecesValue(ts[0].body), v);
        if IsMarkOf(rest, RBRACE) then Ok([m], rest[1..])
        else if IsMarkOf(rest, COMMA) then
          match ParseMembers(rest[1..])
          case Fail => Fail
          case Ok(ms, rest') => Ok([m] + ms, rest')
        else Fail
  }

  /** The value a JSON text denotes, or None when the text is not JSON. */
  function ReadJson(t: Text): Option<Json> {
    match Lex(t)
    case None => None
    case Some(ts) =>
      match ParseValue(NonBlank(ts))
      case Fail => None
      case Ok(v, rest) => if rest == [] then Some(v) else None
  }

  // --- the lexer against the spelling --------------------------------------

  /** Whatever the lexer returns spells the text it was given. */
  lemma {:induction false} LexSound(t: Text)
    requires Lex(t).Some?
    ensures SpellAll(Lex(t).value) == t
    ensures TokensOk(Lex(t).value) && JsonBlanks(Lex(t).value)
    decreases |t|
  {
    if t != [] {
      LexSound(LexToken(t).rest);
    }
  }

  lemma {:induction false} LexPiecesComplete(ps: seq<Piece>, rest: Text)
    requires PiecesOk(ps)
    ensures LexPieces(SpellPieces(ps) + [QUOTE] + rest) == Ok(ps, rest)
  {
    var t := SpellPieces(ps) + [QUOTE] + rest;
    if ps == [] {
      assert t[1..] == rest;
    } else {
      var p := ps[0];
      var tail := SpellPieces(ps[1..]) + [QUOTE] + rest;
      assert p in ps;
      assert t == SpellPiece(p) + tail;
      assert LexPiece(t) == Ok(p, tail) by {
        assert t[|SpellPiece(p)|..] == tail;
      }
      LexPiecesComplete(ps[1..], rest);
      assert ps == [p] + ps[1..];
    }
  }

  lemma LexWord(w: Text, rest: Text)
    requires w == TRUE || w == FALSE || w == NULL
    ensures LexToken(w + rest) == Ok(Word(w), rest)
  {
    var u := w + rest;
    assert u[0] == w[0] && u[1] == w[1];
    assert w <= u && u[|w|..] == rest;
  }

  lemma LexAtNumber(t: Text)
    requires t != [] && (IsDigit(t[0]) || t[0] == MINUS) && IsNumber(t[..MatchNumber(t)])
    ensures LexToken(t) == Ok(Number(t[..MatchNumber(t)]), t[MatchNumber(t)..])
  {
    NoPrefix(TRUE, t);
    NoPrefix(FALSE, t);
    NoPrefix(NULL, t);
  }

  lemma NoPrefix(w: Text, t: Text)
    requires w != [] && t != [] && w[0] != t[0]
    ensures !StartsWith(t, w)
  {}

  lemma LexNumber(n: Text, rest: Text)
    requires IsNumber(n)
    requires rest == [] || EndsNumber(rest[0])
    ensures LexToken(n + rest) == Ok(Number(n), rest)
  {
    MatchNumberAppend(n, rest);
    NumberStart(n);
    var u := n + rest;
    assert u[0] == n[0];
    LexAtNumber(u);
    assert u[..|n|] == n && u[|n|..] == rest;
  }

  /** After a quotation mark the lexer reads a string. */
  lemma LexAfterQuote(t: Text)
    requires LexPieces(t).Ok?
    ensures LexToken([QUOTE] + t) == Ok(Quoted(LexPieces(t).value), LexPieces(t).rest)
  {
    assert ([QUOTE] + t)[1..] == t;
  }

  lemma LexQuoted(ps: seq<Piece>, rest: Text)
    requires PiecesOk(ps)
    ensures LexToken(Spell(Quoted(ps)) + rest) == Ok(Quoted(ps), rest)
  {
    var body := SpellPieces(ps);
    LexPiecesComplete(ps, rest);
    LexAfterQuote(body + [QUOTE] + rest);
    Assoc([QUOTE] + body, [QUOTE], rest);
    Assoc([QUOTE], body, [QUOTE] + rest);
    Assoc(body, [QUOTE], rest);
  }

  lemma LexSingle(t: Token, rest: Text)
    requires (t.Blank? && IsJsonSpace(t.c)) || (t.Mark? && IsMark(t.c))
    ensures LexToken(Spell(t) + rest) == Ok(t, rest)
  {
    assert (Spell(t) + rest)[1..] == rest;
  }

  lemma LexTokenComplete(t: Token, rest: Text)
    requires TokenOk(t) && (t.Blank? ==> IsJsonSpace(t.c))
    requires t.Number? ==> rest == [] || EndsNumber(rest[0])
    ensures LexToken(Spell(t) + rest) == Ok(t, rest)
  {
    match t {
      case Blank(c) => LexSingle(t, rest);
      case Mark(c) => LexSingle(t, rest);
      case Quoted(ps) => LexQuoted(ps, rest);
      case Word(w) => LexWord(w, rest);
      case Number(n) => LexNumber(n, rest);
    }
  }

  lemma SpellNonEmpty(t: Token)
    requires TokenOk(t)
    ensures Spell(t) != []
  {}

  lemma NumberStart(n: Text)
    requires IsNumber(n)
    ensures IsDigit(n[0]) || n[0] == MINUS
  {}

  /** Every separated list of tokens is found again by the lexer. */
  lemma {:induction false} LexComplete(ts: seq<Token>)
    requires TokensOk(ts) && JsonBlanks(ts) && Separated(ts)
    ensures Lex(SpellAll(ts)) == Some(ts)
  {
    if ts != [] {
      var t, rest := ts[0], SpellAll(ts[1..]);
      assert t in ts;
      SpellNonEmpty(t);
      if t.Number? {
        SpelledRestEndsNumber(ts);
      }
      LexTokenComplete(t, rest);
      LexComplete(ts[1..]);
      assert ts == [t] + ts[1..];
    }
  }
}
