/** The printed text as a list of tokens: Print spells Layout, and indentation only adds blanks. */
module JsonLayout {
  import opened Wrappers
  import opened JsonText
  import opened JsonTokens
  import opened JsonPrinter

  // --- the tokens of a printed value -----------------------------------------

  function QuotePiece(c: CodeUnit): Piece {
    if !IsEscapable(c) then Plain(c)
    else
      match Meta(c)
      case Some(m) => Short(m)
      case None => Hex4(HexDigit(c / 4096), HexDigit(c / 256 % 16), HexDigit(c / 16 % 16), HexDigit(c % 16))
  }

  function QuotePieces(s: Text): seq<Piece> {
    if s == [] then [] else [QuotePiece(s[0])] + QuotePieces(s[1..])
  }

  function JoinTokens(parts: seq<seq<Token>>, separator: seq<Token>): seq<Token> {
    if parts == [] then []
    else if |parts| == 1 then parts[0]
    else parts[0] + separator + JoinTokens(parts[1..], separator)
  }

  /** A line break and its indentation, when there is any. */
  function Break(gap: Text, margin: Text): seq<Token> {
    if gap == [] then [] else [Blank(NEWLINE)] + Blanks(margin)
  }

  function Frame(open: CodeUnit, close: CodeUnit, parts: seq<seq<Token>>, gap: Text, mind: Text): seq<Token> {
    if parts == [] then [Mark(open), Mark(close)]
    else
      [Mark(open)] + Break(gap, gap) + JoinTokens(parts, [Mark(COMMA)] + Break(gap, gap))
      + Break(gap, mind) + [Mark(close)]
  }

  function ColonTokens(gap: Text): seq<Token> {
    if gap == [] then [Mark(COLON)] else [Mark(COLON), Blank(SPACE)]
  }

  function Layout(v: Value, mind: Text, indent: Text): (ts: seq<Token>)
    requires !v.Undefined?
    decreases v, 0
  {
    match v
    case Null => [Word(NULL)]
    case Bool(b) => [Word(if b then TRUE else FALSE)]
    case Finite(n) => [Number(n)]
    case NonFinite => [Word(NULL)]
    case Str(s) => [Quoted(QuotePieces(s))]
    case Arr(es) => Frame(LBRACKET, RBRACKET, LayoutElems(es, mind + indent, indent), mind + indent, mind)
    case Obj(ms) => Frame(LBRACE, RBRACE, LayoutMembers(ms, mind + indent, indent), mind + indent, mind)
  }

  function LayoutElems(es: seq<Value>, gap: Text, indent: Text): (r: seq<seq<Token>>)
    ensures |r| == |es|
    decreases es, 1
  {
    if es == [] then []
    else [if es[0].Undefined? then [Word(NULL)] else Layout(es[0], gap, indent)] + LayoutElems(es[1..], gap, indent)
  }

  function MemberTokens(key: Text, value: seq<Token>, gap: Text): seq<Token> {
    [Quoted(QuotePieces(key))] + ColonTokens(gap) + value
  }

  function LayoutMembers(ms: seq<Member>, gap: Text, indent: Text): seq<seq<Token>>
    decreases ms, 1
  {
    if ms == [] then []
    else
      var rest := LayoutMembers(ms[1..], gap, indent);
      if ms[0].value.Undefined? then rest
      else [MemberTokens(ms[0].key, Layout(ms[0].value, gap, indent), gap)] + rest
  }

  lemma ArrayFrame(es: seq<Value>, mind: Text, indent: Text, gap: Text)
    requires gap == mind + indent
    ensures Layout(Arr(es), mind, indent) == Frame(LBRACKET, RBRACKET, LayoutElems(es, gap, indent), gap, mind)
  {}

  lemma ObjectFrame(ms: seq<Member>, mind: Text, indent: Text, gap: Text)
    requires gap == mind + indent
    ensures Layout(Obj(ms), mind, indent) == Frame(LBRACE, RBRACE, LayoutMembers(ms, gap, indent), gap, mind)
  {}

  // --- quote -----------------------------------------------------------------

  lemma QuotePieceMeans(c: CodeUnit)
    ensures PieceOk(QuotePiece(c)) && PieceValue(QuotePiece(c)) == c
    ensures SpellPiece(QuotePiece(c)) == if IsEscapable(c) then Escape(c) else [c]
  {
    UnicodeEscapeDigits(c);
    HexRoundTrip(c);
  }

  /** quote writes a well-formed string that denotes exactly its argument. */
  lemma {:induction false} QuotePiecesMean(s: Text)
    ensures PiecesOk(QuotePieces(s))
    ensures PiecesValue(QuotePieces(s)) == s
    ensures SpellPieces(QuotePieces(s)) == ReplaceEscapable(s)
  {
    if s != [] {
      QuotePiecesMean(s[1..]);
      QuotePieceMeans(s[0]);
      assert s == [s[0]] + s[1..];
    }
  }

  lemma {:induction false} NothingToEscape(s: Text)
    requires forall c <- s :: !IsEscapable(c)
    ensures ReplaceEscapable(s) == s
  {
    if s != [] {
      assert s[0] in s;
      NothingToEscape(s[1..]);
    }
  }

  /** quote uses the short escape of RFC 4627 for every character that must be escaped and has one. */
  lemma ShortestEscape(c: CodeUnit, m: CodeUnit)
    requires IsEscapable(c) && IsShortEscape(m) && ShortValue(m) == c
    ensures Escape(c) == [BACKSLASH, m]
  {}

  lemma {:induction false} EscapingLengthens(s: Text)
    ensures |ReplaceEscapable(s)| >= |s|
    ensures (exists c <- s :: IsEscapable(c)) ==> |ReplaceEscapable(s)| > |s|
  {
    if s != [] {
      EscapingLengthens(s[1..]);
      UnicodeEscapeDigits(s[0]);
      assert s == [s[0]] + s[1..];
    }
  }

  /** It leaves a string as it is exactly when there is no control character, quotation mark, backslash or cx
      character in it. */
  lemma QuoteVerbatim(s: Text)
    ensures Quote(s) == [QUOTE] + s + [QUOTE] <==>
            forall c <- s :: 0x20 <= c && c != 0x22 && c != 0x5C && !(0x7F <= c <= 0x9F) && !IsCx(c)
  {
    EscapingLengthens(s);
    if exists c <- s :: IsEscapable(c) {
      assert |Quote(s)| > |[QUOTE] + s + [QUOTE]|;
    }
  }

  lemma QuoteSpelled(s: Text)
    ensures Quote(s) == Spell(Quoted(QuotePieces(s)))
  {
    QuotePiecesMean(s);
    if !exists c <- s :: IsEscapable(c) {
      NothingToEscape(s);
    }
  }

  // --- the printed text is the spelling of its tokens ------------------------

  function SpellParts(parts: seq<seq<Token>>): (r: seq<Text>)
    ensures |r| == |parts|
  {
    if parts == [] then [] else [SpellAll(parts[0])] + SpellParts(parts[1..])
  }

  lemma {:induction false} SpellJoin(parts: seq<seq<Token>>, separator: seq<Token>)
    ensures SpellAll(JoinTokens(parts, separator)) == Join(SpellParts(parts), SpellAll(separator))
  {
    if |parts| > 1 {
      SpellJoin(parts[1..], separator);
      SpellAllAppend(parts[0] + separator, JoinTokens(parts[1..], separator));
      SpellAllAppend(parts[0], separator);
      assert SpellParts(parts)[1..] == SpellParts(parts[1..]);
    }
  }

  lemma SpellBreak(gap: Text, margin: Text)
    ensures SpellAll(Break(gap, margin)) == if gap == [] then [] else [NEWLINE] + margin
  {
    if gap != [] {
      SpellBlanks(margin);
      SpellAllAppend([Blank(NEWLINE)], Blanks(margin));
      assert SpellAll([Blank(NEWLINE)]) == [NEWLINE];
    }
  }

  lemma SpellMark(c: CodeUnit)
    ensures SpellAll([Mark(c)]) == [c]
  {}

  lemma SpellFive(a: seq<Token>, b: seq<Token>, c: seq<Token>, d: seq<Token>, e: seq<Token>)
    ensures SpellAll(a + b + c + d + e) == SpellAll(a) + SpellAll(b) + SpellAll(c) + SpellAll(d) + SpellAll(e)
  {
    SpellAllAppend(a, b);
    SpellAllAppend(a + b, c);
    SpellAllAppend(a + b + c, d);
    SpellAllAppend(a + b + c + d, e);
  }

  lemma SpellSeparator(gap: Text)
    ensures SpellAll([Mark(COMMA)] + Break(gap, gap)) == if gap == [] then [COMMA] else [COMMA, NEWLINE] + gap
  {
    SpellAllAppend([Mark(COMMA)], Break(gap, gap));
    SpellMark(COMMA);
    SpellBreak(gap, gap);
  }

  lemma SpellFrame(open: CodeUnit, close: CodeUnit, parts: seq<seq<Token>>, gap: Text, mind: Text)
    ensures SpellAll(Frame(open, close, parts, gap, mind)) == Wrap(open, close, SpellParts(parts), gap, mind)
  {
    SpellMark(open);
    SpellMark(close);
    if parts == [] {
      SpellAllAppend([Mark(open)], [Mark(close)]);
      assert [Mark(open)] + [Mark(close)] == [Mark(open), Mark(close)];
    } else {
      var separator := [Mark(COMMA)] + Break(gap, gap);
      var joined := JoinTokens(parts, separator);
      SpellSeparator(gap);
      SpellBreak(gap, gap);
      SpellBreak(gap, mind);
      SpellJoin(parts, separator);
      SpellFive([Mark(open)], Break(gap, gap), joined, Break(gap, mind), [Mark(close)]);
      WrapFive(open, close, SpellParts(parts), gap, mind);
    }
  }

  lemma WrapFive(open: CodeUnit, close: CodeUnit, parts: seq<Text>, gap: Text, mind: Text)
    requires parts != []
    ensures Wrap(open, close, parts, gap, mind) ==
            [open] + (if gap == [] then [] else [NEWLINE] + gap)
            + Join(parts, if gap == [] then [COMMA] else [COMMA, NEWLINE] + gap)
            + (if gap == [] then [] else [NEWLINE] + mind) + [close]
  {
    if gap != [] {
      assert [open, NEWLINE] + gap == [open] + ([NEWLINE] + gap);
    }
  }

  lemma SpellSingle(t: Token)
    ensures SpellAll([t]) == Spell(t)
  {}

  lemma SpellMember(key: Text, value: seq<Token>, gap: Text)
    ensures SpellAll(MemberTokens(key, value, gap)) == Quote(key) + Colon(gap) + SpellAll(value)
  {
    var k := Quoted(QuotePieces(key));
    QuoteSpelled(key);
    SpellSingle(k);
    SpellAllAppend([k] + ColonTokens(gap), value);
    SpellAllAppend([k], ColonTokens(gap));
    SpellMark(COLON);
    SpellAllAppend([Mark(COLON)], [Blank(SPACE)]);
    SpellSingle(Blank(SPACE));
  }

  lemma {:induction false} PrintSpellsLayout(v: Value, mind: Text, indent: Text)
    requires !v.Undefined?
    ensures Print(v, mind, indent) == Some(SpellAll(Layout(v, mind, indent)))
    decreases v, 0
  {
    match v {
      case Arr(es) =>
        PrintSpellsElems(es, mind + indent, indent);
        SpellFrame(LBRACKET, RBRACKET, LayoutElems(es, mind + indent, indent), mind + indent, mind);
      case Obj(ms) =>
        PrintSpellsMembers(ms, mind + indent, indent);
        SpellFrame(LBRACE, RBRACE, LayoutMembers(ms, mind + indent, indent), mind + indent, mind);
      case Str(s) =>
        QuoteSpelled(s);
        SpellSingle(Quoted(QuotePieces(s)));
      case Null => SpellSingle(Word(NULL));
      case NonFinite => SpellSingle(Word(NULL));
      case Bool(b) => SpellSingle(Word(if b then TRUE else FALSE));
      case Finite(n) => SpellSingle(Number(n));
    }
  }

  lemma {:induction false} PrintSpellsElems(es: seq<Value>, gap: Text, indent: Text)
    ensures PrintElems(es, gap, indent) == SpellParts(LayoutElems(es, gap, indent))
    decreases es, 1
  {
    if es != [] {
      if es[0].Undefined? {
        SpellSingle(Word(NULL));
      } else {
        PrintSpellsLayout(es[0], gap, indent);
      }
      PrintSpellsElems(es[1..], gap, indent);
      assert LayoutElems(es, gap, indent)[1..] == LayoutElems(es[1..], gap, indent);
    }
  }

  lemma {:induction false} PrintSpellsMembers(ms: seq<Member>, gap: Text, indent: Text)
    ensures PrintMembers(ms, gap, indent) == SpellParts(LayoutMembers(ms, gap, indent))
    decreases ms, 1
  {
    if ms != [] {
      PrintSpellsMembers(ms[1..], gap, indent);
      if !ms[0].value.Undefined? {
        PrintSpellsLayout(ms[0].value, gap, indent);
        SpellMember(ms[0].key, Layout(ms[0].value, gap, indent), gap);
        SpellPartsCons(MemberTokens(ms[0].key, Layout(ms[0].value, gap, indent), gap), LayoutMembers(ms[1..], gap, indent));
      }
    }
  }

  lemma SpellPartsCons(p: seq<Token>, rest: seq<seq<Token>>)
    ensures SpellParts([p] + rest) == [SpellAll(p)] + SpellParts(rest)
  {
    assert ([p] + rest)[1..] == rest;
  }

  // --- indentation only adds blanks -------------------------------------------

  function NonBlankParts(parts: seq<seq<Token>>): (r: seq<seq<Token>>)
    ensures |r| == |parts|
  {
    if parts == [] then [] else [NonBlank(parts[0])] + NonBlankParts(parts[1..])
  }

  lemma {:induction false} NonBlankJoin(parts: seq<seq<Token>>, separator: seq<Token>)
    ensures NonBlank(JoinTokens(parts, separator)) == JoinTokens(NonBlankParts(parts), NonBlank(separator))
  {
    if |parts| > 1 {
      NonBlankJoin(parts[1..], separator);
      NonBlankAppend(parts[0] + separator, JoinTokens(parts[1..], separator));
      NonBlankAppend(parts[0], separator);
      assert NonBlankParts(parts)[1..] == NonBlankParts(parts[1..]);
    }
  }

  lemma NonBlankBreak(gap: Text, margin: Text)
    ensures NonBlank(Break(gap, margin)) == []
  {
    if gap != [] {
      NonBlankBlanks(margin);
      NonBlankAppend([Blank(NEWLINE)], Blanks(margin));
    }
  }

  lemma NonBlankMark(c: CodeUnit)
    ensures NonBlank([Mark(c)]) == [Mark(c)]
  {}

  lemma NonBlankFrame(open: CodeUnit, close: CodeUnit, parts: seq<seq<Token>>, gap: Text, mind: Text)
    ensures NonBlank(Frame(open, close, parts, gap, mind)) == Frame(open, close, NonBlankParts(parts), [], [])
  {
    NonBlankMark(open);
    NonBlankMark(close);
    if parts == [] {
      NonBlankAppend([Mark(open)], [Mark(close)]);
    } else {
      var separator := [Mark(COMMA)] + Break(gap, gap);
      NonBlankMark(COMMA);
      NonBlankBreak(gap, gap);
      NonBlankBreak(gap, mind);
      NonBlankAppend([Mark(COMMA)], Break(gap, gap));
      NonBlankJoin(parts, separator);
      var front := [Mark(open)] + Break(gap, gap);
      var joined := JoinTokens(parts, separator);
      NonBlankAppend([Mark(open)], Break(gap, gap));
      NonBlankAppend(front, joined);
      NonBlankAppend(front + joined, Break(gap, mind));
      NonBlankAppend(front + joined + Break(gap, mind), [Mark(close)]);
    }
  }

  lemma NonBlankMember(key: Text, value: seq<Token>, gap: Text)
    ensures NonBlank(MemberTokens(key, value, gap)) == MemberTokens(key, NonBlank(value), [])
  {
    var k := Quoted(QuotePieces(key));
    NonBlankAppend([k] + ColonTokens(gap), value);
    NonBlankAppend([k], ColonTokens(gap));
    NonBlankAppend([Mark(COLON)], [Blank(SPACE)]);
    assert NonBlank([k]) == [k];
  }

  /** Without its blanks, the layout is the compact layout, whatever the indentation. */
  lemma {:induction false} NonBlankLayout(v: Value, mind: Text, indent: Text)
    requires !v.Undefined?
    ensures NonBlank(Layout(v, mind, indent)) == Layout(v, [], [])
    decreases v, 0
  {
    var gap := mind + indent;
    NothingTwice();
    match v {
      case Arr(es) =>
        NonBlankElems(es, gap, indent);
        ArrayFrame(es, mind, indent, gap);
        ArrayFrame(es, [], [], []);
        NonBlankFrame(LBRACKET, RBRACKET, LayoutElems(es, gap, indent), gap, mind);
      case Obj(ms) =>
        NonBlankMembers(ms, gap, indent);
        ObjectFrame(ms, mind, indent, gap);
        ObjectFrame(ms, [], [], []);
        NonBlankFrame(LBRACE, RBRACE, LayoutMembers(ms, gap, indent), gap, mind);
      case _ =>
    }
  }

  lemma NothingTwice()
    ensures var nothing: Text := []; nothing + nothing == nothing
  {}

  lemma NonBlankPartsCons(p: seq<Token>, rest: seq<seq<Token>>)
    ensures NonBlankParts([p] + rest) == [NonBlank(p)] + NonBlankParts(rest)
  {
    assert ([p] + rest)[1..] == rest;
  }

  lemma {:induction false} NonBlankElems(es: seq<Value>, gap: Text, indent: Text)
    ensures NonBlankParts(LayoutElems(es, gap, indent)) == LayoutElems(es, [], [])
    decreases es, 1
  {
    if es != [] {
      var p := if es[0].Undefined? then [Word(NULL)] else Layout(es[0], gap, indent);
      if es[0].Undefined? {
        assert NonBlank(p) == p;
      } else {
        NonBlankLayout(es[0], gap, indent);
      }
      NonBlankElems(es[1..], gap, indent);
      NonBlankPartsCons(p, LayoutElems(es[1..], gap, indent));
    }
  }

  lemma {:induction false} NonBlankMembers(ms: seq<Member>, gap: Text, indent: Text)
    ensures NonBlankParts(LayoutMembers(ms, gap, indent)) == LayoutMembers(ms, [], [])
    decreases ms, 1
  {
    if ms != [] {
      NonBlankMembers(ms[1..], gap, indent);
      if !ms[0].value.Undefined? {
        var value := Layout(ms[0].value, gap, indent);
        NonBlankLayout(ms[0].value, gap, indent);
        NonBlankMember(ms[0].key, value, gap);
        NonBlankPartsCons(MemberTokens(ms[0].key, value, gap), LayoutMembers(ms[1..], gap, indent));
      }
    }
  }
}
