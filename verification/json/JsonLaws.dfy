/** What the printer, the reader and the guard of login.js promise one another. */
module JsonLaws {
  import opened Wrappers
  import opened JsonText
  import opened JsonNumbers
  import opened JsonTokens
  import opened JsonPrinter
  import opened JsonLayout
  import opened JsonReader
  import opened JsonGuard

  // --- the JSON value of a JavaScript value ----------------------------------

  /** Values without a JSON form vanish; as array elements they count as null. */
  function Normalize(v: Value): (r: Option<Json>)
    ensures r.Some? <==> !v.Undefined?
    decreases v, 0
  {
    match v
    case Undefined => None
    case Null => Some(JNull)
    case Bool(b) => Some(JBool(b))
    case Finite(n) => Some(JNumber(n))
    case NonFinite => Some(JNull)
    case Str(s) => Some(JString(s))
    case Arr(es) => Some(JArray(NormalizeElems(es)))
    case Obj(ms) => Some(JObject(NormalizeMembers(ms)))
  }

  function NormalizeElems(es: seq<Value>): seq<Json>
    decreases es, 1
  {
    if es == [] then []
    else
      var j := Normalize(es[0]);
      [if j.Some? then j.value else JNull] + NormalizeElems(es[1..])
  }

  function NormalizeMembers(ms: seq<Member>): seq<JMember>
    decreases ms, 1
  {
    if ms == [] then []
    else
      var j := Normalize(ms[0].value);
      var rest := NormalizeMembers(ms[1..]);
      if j.Some? then [JMember(ms[0].key, j.value)] + rest else rest
  }

  // --- parsing the compact layout ----------------------------------------------

  predicate IsClosing(t: Token) { t == Mark(RBRACKET) || t == Mark(RBRACE) }

  lemma LayoutStart(v: Value)
    requires !v.Undefined?
    ensures Layout(v, [], []) != [] && !IsClosing(Layout(v, [], [])[0])
  {}

  function ElemsText(es: seq<Value>): seq<Token> {
    JoinTokens(LayoutElems(es, [], []), [Mark(COMMA)])
  }

  function MembersText(ms: seq<Member>): seq<Token> {
    JoinTokens(LayoutMembers(ms, [], []), [Mark(COMMA)])
  }

  function ElemText(v: Value): seq<Token> {
    if v.Undefined? then [Word(NULL)] else Layout(v, [], [])
  }

  lemma ElemsTextStep(es: seq<Value>, rest: seq<Token>)
    requires es != []
    ensures ElemsText(es) + rest ==
            if |es| == 1 then ElemText(es[0]) + rest
            else ElemText(es[0]) + ([Mark(COMMA)] + (ElemsText(es[1..]) + rest))
  {
    assert LayoutElems(es, [], [])[1..] == LayoutElems(es[1..], [], []);
  }

  lemma CompactArray(es: seq<Value>, rest: seq<Token>)
    requires es != []
    ensures Layout(Arr(es), [], []) + rest == [Mark(LBRACKET)] + (ElemsText(es) + ([Mark(RBRACKET)] + rest))
  {
    var nothing: Text := [];
    assert nothing + nothing == nothing;
    assert [Mark(COMMA)] + Break(nothing, nothing) == [Mark(COMMA)];
    assert LayoutElems(es, [], []) != [];
  }

  lemma CompactObject(ms: seq<Member>, rest: seq<Token>)
    requires LayoutMembers(ms, [], []) != []
    ensures Layout(Obj(ms), [], []) + rest == [Mark(LBRACE)] + (MembersText(ms) + ([Mark(RBRACE)] + rest))
  {
    var nothing: Text := [];
    assert nothing + nothing == nothing;
    assert [Mark(COMMA)] + Break(nothing, nothing) == [Mark(COMMA)];
  }

  /** The parser recovers the normal form from the compact layout. */
  lemma {:induction false} ParseLayout(v: Value, rest: seq<Token>)
    requires !v.Undefined?
    ensures ParseValue(Layout(v, [], []) + rest) == Ok(Normalize(v).value, rest)
    decreases v, 0
  {
    var ts := Layout(v, [], []) + rest;
    match v {
      case Null => assert ts[1..] == rest;
      case NonFinite => assert ts[1..] == rest;
      case Bool(b) => assert ts[1..] == rest;
      case Finite(n) => assert ts[1..] == rest;
      case Str(s) =>
        QuotePiecesMean(s);
        assert ts[1..] == rest;
      case Arr(es) =>
        if es == [] {
          ParseEmpty(LBRACKET, RBRACKET, ts, rest);
        } else {
          CompactArray(es, rest);
          ParseLayoutElems(es, rest);
          var inner := ElemsText(es) + ([Mark(RBRACKET)] + rest);
          assert ts[1..] == inner;
          ElemsTextStart(es, [Mark(RBRACKET)] + rest);
        }
      case Obj(ms) =>
        MembersAgree(ms);
        if LayoutMembers(ms, [], []) == [] {
          ParseEmpty(LBRACE, RBRACE, ts, rest);
        } else {
          CompactObject(ms, rest);
          ParseLayoutMembers(ms, rest);
          var inner := MembersText(ms) + ([Mark(RBRACE)] + rest);
          assert ts[1..] == inner;
          MembersTextStart(ms, [Mark(RBRACE)] + rest);
        }
    }
  }

  lemma ParseEmpty(open: CodeUnit, close: CodeUnit, ts: seq<Token>, rest: seq<Token>)
    requires ts == [Mark(open), Mark(close)] + rest
    ensures ts[0] == Mark(open) && IsMarkOf(ts[1..], close) && ts[2..] == rest
  {}

  lemma ElemsTextStart(es: seq<Value>, rest: seq<Token>)
    requires es != []
    ensures !IsMarkOf(ElemsText(es) + rest, RBRACKET)
  {
    ElemsTextStep(es, rest);
    if !es[0].Undefined? {
      LayoutStart(es[0]);
    }
  }

  lemma {:induction false} MembersTextStart(ms: seq<Member>, rest: seq<Token>)
    requires LayoutMembers(ms, [], []) != []
    ensures !IsMarkOf(MembersText(ms) + rest, RBRACE)
  {
    if ms[0].value.Undefined? {
      MembersTextStart(ms[1..], rest);
    }
  }

  lemma {:induction false} MembersAgree(ms: seq<Member>)
    ensures |LayoutMembers(ms, [], [])| == |NormalizeMembers(ms)|
  {
    if ms != [] {
      MembersAgree(ms[1..]);
    }
  }

  lemma {:induction false} ParseLayoutElems(es: seq<Value>, rest: seq<Token>)
    requires es != []
    ensures ParseElems(ElemsText(es) + ([Mark(RBRACKET)] + rest)) == Ok(NormalizeElems(es), rest)
    decreases es, 1
  {
    var close := [Mark(RBRACKET)] + rest;
    ElemsTextStep(es, close);
    var after := if |es| == 1 then close else [Mark(COMMA)] + (ElemsText(es[1..]) + close);
    if es[0].Undefined? {
      assert ([Word(NULL)] + after)[1..] == after;
    } else {
      ParseLayout(es[0], after);
    }
    if |es| == 1 {
      assert close[1..] == rest;
      var j := Normalize(es[0]);
      assert NormalizeElems(es) == [if j.Some? then j.value else JNull];
    } else {
      assert after[1..] == ElemsText(es[1..]) + close;
      ParseLayoutElems(es[1..], rest);
    }
  }

  lemma ParseLayoutMember(m: Member, after: seq<Token>)
    requires !m.value.Undefined?
    requires ParseValue(Layout(m.value, [], []) + after) == Ok(Normalize(m.value).value, after)
    ensures var ts := MemberTokens(m.key, Layout(m.value, [], []), []) + after;
            && |ts| >= 2 && ts[0].Quoted? && PiecesOk(ts[0].body) && PiecesValue(ts[0].body) == m.key
            && ts[1] == Mark(COLON) && ParseValue(ts[2..]) == Ok(Normalize(m.value).value, after)
  {
    QuotePiecesMean(m.key);
    var head := [Quoted(QuotePieces(m.key))] + ColonTokens([]);
    assert |head| == 2 && head[0] == Quoted(QuotePieces(m.key)) && head[1] == Mark(COLON);
    Assoc(head, Layout(m.value, [], []), after);
    assert (head + (Layout(m.value, [], []) + after))[2..] == Layout(m.value, [], []) + after;
  }

  lemma ParseLastMember(m: Member, rest: seq<Token>)
    requires !m.value.Undefined?
    requires var close := [Mark(RBRACE)] + rest;
             ParseValue(Layout(m.value, [], []) + close) == Ok(Normalize(m.value).value, close)
    ensures ParseMembers(MemberTokens(m.key, Layout(m.value, [], []), []) + ([Mark(RBRACE)] + rest)) ==
            Ok([JMember(m.key, Normalize(m.value).value)], rest)
  {
    var close := [Mark(RBRACE)] + rest;
    ParseLayoutMember(m, close);
    assert close[1..] == rest;
  }

  lemma ParseNextMember(m: Member, after: seq<Token>)
    requires !m.value.Undefined? && ParseMembers(after).Ok?
    requires var comma := [Mark(COMMA)] + after;
             ParseValue(Layout(m.value, [], []) + comma) == Ok(Normalize(m.value).value, comma)
    ensures ParseMembers(MemberTokens(m.key, Layout(m.value, [], []), []) + ([Mark(COMMA)] + after)) ==
            Ok([JMember(m.key, Normalize(m.value).value)] + ParseMembers(after).value, ParseMembers(after).rest)
  {
    var comma := [Mark(COMMA)] + after;
    ParseLayoutMember(m, comma);
    assert comma[1..] == after;
  }

  lemma {:induction false} ParseLayoutMembers(ms: seq<Member>, rest: seq<Token>)
    requires LayoutMembers(ms, [], []) != []
    ensures ParseMembers(MembersText(ms) + ([Mark(RBRACE)] + rest)) == Ok(NormalizeMembers(ms), rest)
    decreases ms, 1
  {
    var close := [Mark(RBRACE)] + rest;
    var m, tail := ms[0], ms[1..];
    if m.value.Undefined? {
      ParseLayoutMembers(tail, rest);
    } else {
      var part := MemberTokens(m.key, Layout(m.value, [], []), []);
      var more := LayoutMembers(tail, [], []);
      assert LayoutMembers(ms, [], []) == [part] + more;
      MembersAgree(tail);
      if more == [] {
        assert MembersText(ms) == part;
        assert NormalizeMembers(ms) == [JMember(m.key, Normalize(m.value).value)];
        ParseLayout(m.value, close);
        ParseLastMember(m, rest);
      } else {
        assert ([part] + more)[1..] == more;
        var after := MembersText(tail) + close;
        assert MembersText(ms) + close == part + ([Mark(COMMA)] + after);
        ParseLayout(m.value, [Mark(COMMA)] + after);
        ParseLayoutMembers(tail, rest);
        ParseNextMember(m, after);
      }
    }
  }

  // --- well-formedness of the layout --------------------------------------------

  /** Every token is one of the grammar, with blanks taken from the allowed characters only. */
  ghost predicate TokensWithin(ts: seq<Token>, allowed: CodeUnit -> bool) {
    forall t <- ts :: if t.Blank? then allowed(t.c) else TokenOk(t)
  }

  ghost predicate TextWithin(t: Text, allowed: CodeUnit -> bool) { forall c <- t :: allowed(c) }

  ghost predicate PartsWithin(parts: seq<seq<Token>>, allowed: CodeUnit -> bool) {
    forall p <- parts :: TokensWithin(p, allowed)
  }

  lemma {:induction false} JoinWithin(parts: seq<seq<Token>>, separator: seq<Token>, allowed: CodeUnit -> bool)
    requires PartsWithin(parts, allowed) && TokensWithin(separator, allowed)
    ensures TokensWithin(JoinTokens(parts, separator), allowed)
  {
    if |parts| > 0 {
      assert parts[0] in parts;
    }
    if |parts| > 1 {
      JoinWithin(parts[1..], separator, allowed);
    }
  }

  lemma FrameWithin(open: CodeUnit, close: CodeUnit, parts: seq<seq<Token>>, gap: Text, mind: Text,
                    allowed: CodeUnit -> bool)
    requires IsMark(open) && IsMark(close) && allowed(NEWLINE)
    requires PartsWithin(parts, allowed) && TextWithin(gap, allowed) && TextWithin(mind, allowed)
    ensures TokensWithin(Frame(open, close, parts, gap, mind), allowed)
  {
    assert TokensWithin(Blanks(gap), allowed) && TokensWithin(Blanks(mind), allowed);
    JoinWithin(parts, [Mark(COMMA)] + Break(gap, gap), allowed);
  }

  lemma {:induction false} LayoutWithin(v: Value, mind: Text, indent: Text, allowed: CodeUnit -> bool)
    requires !v.Undefined?
    requires allowed(NEWLINE) && allowed(SPACE) && TextWithin(mind, allowed) && TextWithin(indent, allowed)
    ensures TokensWithin(Layout(v, mind, indent), allowed)
    decreases v, 0
  {
    match v {
      case Str(s) => QuotePiecesMean(s);
      case Arr(es) =>
        LayoutElemsWithin(es, mind + indent, indent, allowed);
        FrameWithin(LBRACKET, RBRACKET, LayoutElems(es, mind + indent, indent), mind + indent, mind, allowed);
      case Obj(ms) =>
        LayoutMembersWithin(ms, mind + indent, indent, allowed);
        FrameWithin(LBRACE, RBRACE, LayoutMembers(ms, mind + indent, indent), mind + indent, mind, allowed);
      case _ =>
    }
  }

  lemma {:induction false} LayoutElemsWithin(es: seq<Value>, gap: Text, indent: Text, allowed: CodeUnit -> bool)
    requires allowed(NEWLINE) && allowed(SPACE) && TextWithin(gap, allowed) && TextWithin(indent, allowed)
    ensures PartsWithin(LayoutElems(es, gap, indent), allowed)
    decreases es, 1
  {
    if es != [] {
      if !es[0].Undefined? {
        LayoutWithin(es[0], gap, indent, allowed);
      }
      LayoutElemsWithin(es[1..], gap, indent, allowed);
    }
  }

  lemma {:induction false} LayoutMembersWithin(ms: seq<Member>, gap: Text, indent: Text, allowed: CodeUnit -> bool)
    requires allowed(NEWLINE) && allowed(SPACE) && TextWithin(gap, allowed) && TextWithin(indent, allowed)
    ensures PartsWithin(LayoutMembers(ms, gap, indent), allowed)
    decreases ms, 1
  {
    if ms != [] {
      if !ms[0].value.Undefined? {
        LayoutWithin(ms[0].value, gap, indent, allowed);
        QuotePiecesMean(ms[0].key);
        assert TokensWithin(MemberTokens(ms[0].key, Layout(ms[0].value, gap, indent), gap), allowed);
      }
      LayoutMembersWithin(ms[1..], gap, indent, allowed);
    }
  }

  // --- what parses is separated and shaped ----------------------------------------

  /** What may follow a complete value: nothing, or a structural mark. */
  predicate Continues(rest: seq<Token>) {
    && Separated(rest) && Shaped(rest, false)
    && (rest == [] || rest[0].Mark?)
  }

  predicate Begins(ts: seq<Token>) { Separated(ts) && Shaped(ts, true) }

  lemma Prepend(t: Token, rest: seq<Token>)
    requires Separated(rest)
    requires t.Number? ==> rest == [] || rest[0].Mark? || rest[0].Blank?
    ensures Separated([t] + rest)
    ensures forall open :: Shaped([t] + rest, open) ==
              match t
              case Blank(_) => Shaped(rest, open)
              case Mark(c) => if c == LBRACKET then open && Shaped(rest, true) else Shaped(rest, c == COLON || c == COMMA)
              case _ => Shaped(rest, false)
  {
    assert ([t] + rest)[1..] == rest;
  }

  lemma {:induction false} ParsedValueShape(ts: seq<Token>)
    requires ParseValue(ts).Ok? && Continues(ParseValue(ts).rest)
    ensures Begins(ts)
    decreases |ts|, 0
  {
    var rest := ParseValue(ts).rest;
    var tail := ts[1..];
    assert ts == [ts[0]] + tail;
    if ts[0].Mark? {
      if IsMarkOf(tail, RBRACKET) && ts[0].c == LBRACKET {
        assert tail == [tail[0]] + rest;
        Prepend(tail[0], rest);
      } else if IsMarkOf(tail, RBRACE) && ts[0].c == LBRACE {
        assert tail == [tail[0]] + rest;
        Prepend(tail[0], rest);
      } else if ts[0].c == LBRACKET {
        ParsedElemsShape(tail);
      } else {
        ParsedMembersShape(tail);
      }
      Prepend(ts[0], tail);
    } else {
      Prepend(ts[0], rest);
    }
  }

  lemma {:induction false} ParsedElemsShape(ts: seq<Token>)
    requires ParseElems(ts).Ok? && Continues(ParseElems(ts).rest)
    ensures Begins(ts)
    decreases |ts|, 1
  {
    var after := ParseValue(ts).rest;
    assert after == [after[0]] + after[1..];
    if IsMarkOf(after, COMMA) {
      ParsedElemsShape(after[1..]);
    }
    Prepend(after[0], after[1..]);
    ParsedValueShape(ts);
  }

  lemma {:induction false} ParsedMembersShape(ts: seq<Token>)
    requires ParseMembers(ts).Ok? && Continues(ParseMembers(ts).rest)
    ensures Separated(ts) && Shaped(ts, false)
    decreases |ts|, 1
  {
    var after := ParseValue(ts[2..]).rest;
    assert after == [after[0]] + after[1..];
    if IsMarkOf(after, COMMA) {
      ParsedMembersShape(after[1..]);
      ShapedOpens(after[1..]);
    }
    Prepend(after[0], after[1..]);
    ParsedValueShape(ts[2..]);
    Prepend(ts[1], ts[2..]);
    assert [ts[1]] + ts[2..] == ts[1..];
    Prepend(ts[0], ts[1..]);
    assert [ts[0]] + ts[1..] == ts;
  }

  lemma {:induction false} ShapedOpens(ts: seq<Token>)
    requires Shaped(ts, false)
    ensures Shaped(ts, true)
  {
    if ts != [] && ts[0].Blank? {
      ShapedOpens(ts[1..]);
    }
  }

  /** Blanks between tokens do not change the shape. */
  lemma {:induction false} ShapeThroughBlanks(ts: seq<Token>, open: bool)
    requires Separated(NonBlank(ts)) && Shaped(NonBlank(ts), open)
    ensures Separated(ts) && Shaped(ts, open)
  {
    if ts != [] {
      var t, tail := ts[0], ts[1..];
      assert ts == [t] + tail;
      if t.Blank? {
        ShapeThroughBlanks(tail, open);
      } else {
        var core := NonBlank(tail);
        assert NonBlank(ts)[1..] == core;
        if t.Number? && core != [] {
          assert NonBlank(ts)[0 + 1] == core[0];
        }
        assert Separated(core) by {
          forall i | 0 <= i < |core| - 1 && core[i].Number?
            ensures core[i + 1].Blank? || core[i + 1].Mark?
          {
            assert NonBlank(ts)[i + 1] == core[i] && NonBlank(ts)[i + 1 + 1] == core[i + 1];
          }
        }
        match t {
          case Mark(c) => ShapeThroughBlanks(tail, c == LBRACKET || c == COLON || c == COMMA);
          case Word(_) => ShapeThroughBlanks(tail, false);
          case Number(_) => ShapeThroughBlanks(tail, false);
          case Quoted(_) => ShapeThroughBlanks(tail, false);
        }
        if t.Number? && tail != [] && !tail[0].Blank? {
          assert core[0] == tail[0];
        }
      }
      Prepend(t, tail);
    }
  }

  // --- the laws ---------------------------------------------------------------------

  predicate JsonSpaces(t: Text) { forall c <- t :: IsJsonSpace(c) }

  predicate Spaces(t: Text) { forall c <- t :: IsSpace(c) }

  predicate HasCx(t: Text) { exists c <- t :: IsCx(c) }

  /** Whether the printed text shows the indentation. */
  predicate ShowsIndent(v: Value) {
    (v.Arr? && v.elems != []) || (v.Obj? && NormalizeMembers(v.members) != [])
  }

  /** The tokens of a printed value, whatever the white-space indent. */
  lemma LayoutFacts(v: Value, indent: Text)
    requires !v.Undefined? && Spaces(indent)
    ensures var ts := Layout(v, [], indent);
            && Stringify(v, indent) == Some(SpellAll(ts))
            && TokensOk(ts) && Separated(ts) && Shaped(ts, true)
            && (JsonSpaces(indent) ==> JsonBlanks(ts))
            && (!HasCx(indent) ==> NoCxBlank(ts))
            && NonBlank(ts) == Layout(v, [], [])
            && ParseValue(NonBlank(ts)) == Ok(Normalize(v).value, [])
  {
    var ts := Layout(v, [], indent);
    PrintSpellsLayout(v, [], indent);
    NonBlankLayout(v, [], indent);
    assert Layout(v, [], []) + [] == Layout(v, [], []);
    ParseLayout(v, []);
    ParsedValueShape(NonBlank(ts));
    ShapeThroughBlanks(ts, true);
    LayoutWithin(v, [], indent, (c: CodeUnit) => IsSpace(c));
    if JsonSpaces(indent) {
      LayoutWithin(v, [], indent, (c: CodeUnit) => IsJsonSpace(c));
    }
    if !HasCx(indent) {
      LayoutWithin(v, [], indent, (c: CodeUnit) => !IsCx(c));
    }
  }

  /** The reader knows only the white space of the RFC. */
  lemma {:induction false} LexRefuses(ts: seq<Token>)
    requires TokensOk(ts) && Separated(ts) && !JsonBlanks(ts)
    ensures Lex(SpellAll(ts)) == None
  {
    var t, rest := ts[0], SpellAll(ts[1..]);
    assert t in ts;
    assert ts == [t] + ts[1..];
    SpellNonEmpty(t);
    if t.Blank? && !IsJsonSpace(t.c) {
      LexForeignSpace(t.c, rest);
    } else {
      if t.Number? {
        SpelledRestEndsNumber(ts);
      }
      LexTokenComplete(t, rest);
      LexRefuses(ts[1..]);
    }
  }

  lemma LexForeignSpace(c: CodeUnit, rest: Text)
    requires IsSpace(c) && !IsJsonSpace(c)
    ensures LexToken([c] + rest) == Fail
  {
    var t := [c] + rest;
    assert t[0] == c && t[0..] == t;
    assert MatchNumber(t) == 0;
    assert t[..0] == [];
  }

  /** Printing then reading gives back the JSON form of the value, whenever the indent is
      white space of the RFC or does not show; no other white-space indent will do. */
  lemma ReadBack(v: Value, indent: Text)
    requires Spaces(indent)
    ensures Stringify(v, indent).Some? <==> Normalize(v).Some?
    ensures Stringify(v, indent).Some? ==>
              (ReadJson(Stringify(v, indent).value) == Normalize(v) <==> JsonSpaces(indent) || !ShowsIndent(v))
  {
    if !v.Undefined? {
      var ts := Layout(v, [], indent);
      LayoutFacts(v, indent);
      if JsonBlanks(ts) {
        LexComplete(ts);
        if ShowsIndent(v) {
          IndentShows(v, indent);
        }
      } else {
        LexRefuses(ts);
        if !ShowsIndent(v) {
          HiddenIndent(v, indent);
        }
      }
    }
  }

  /** Two values print alike exactly when they have the same JSON form. */
  lemma PrintedAlike(v: Value, w: Value, indent: Text)
    requires Spaces(indent)
    ensures Stringify(v, indent) == Stringify(w, indent) <==> Normalize(v) == Normalize(w)
  {
    ReadBack(v, []);
    ReadBack(w, []);
    if !v.Undefined? {
      IndentOnlyAddsBlanks(v, indent);
    }
    if !w.Undefined? {
      IndentOnlyAddsBlanks(w, indent);
    }
    if Normalize(v) == Normalize(w) && !v.Undefined? {
      PrintEmbedded(v, [], indent);
      PrintEmbedded(w, [], indent);
    }
  }

  /** JSON.parse's guard lets every RFC 4627 text through. */
  lemma GuardAcceptsJson(t: Text)
    requires ReadJson(t).Some?
    ensures Accepts(t)
  {
    var ts := Lex(t).value;
    LexSound(t);
    ParsedValueShape(NonBlank(ts));
    ShapeThroughBlanks(ts, true);
    GuardOnTokens(ts);
  }

  /** For white-space indents, the guard accepts the printed text exactly when the indent
      holds none of the characters that its first stage rewrites, or does not show. */
  lemma GuardOnPrinted(v: Value, indent: Text)
    requires !v.Undefined? && Spaces(indent)
    ensures Accepts(Stringify(v, indent).value) <==> !HasCx(indent) || !ShowsIndent(v)
  {
    var ts := Layout(v, [], indent);
    LayoutFacts(v, indent);
    GuardOnTokens(ts);
    if ShowsIndent(v) {
      IndentShows(v, indent);
    } else {
      HiddenIndent(v, indent);
    }
  }

  /** A value that does not show the indent is printed without any blank. */
  lemma HiddenIndent(v: Value, indent: Text)
    requires !v.Undefined? && !ShowsIndent(v)
    ensures forall t <- Layout(v, [], indent) :: !t.Blank?
  {
    if v.Obj? {
      IndentedMembersAgree(v.members, indent);
    }
  }

  lemma {:induction false} IndentedMembersAgree(ms: seq<Member>, gap: Text)
    ensures |LayoutMembers(ms, gap, gap)| == |NormalizeMembers(ms)|
    ensures |LayoutMembers(ms, [] + gap, gap)| == |NormalizeMembers(ms)|
  {
    if ms != [] {
      IndentedMembersAgree(ms[1..], gap);
    }
  }

  lemma FrameShows(open: CodeUnit, close: CodeUnit, parts: seq<seq<Token>>, gap: Text, mind: Text)
    requires parts != []
    ensures forall c <- gap :: Blank(c) in Frame(open, close, parts, gap, mind)
  {
    forall c | c in gap
      ensures Blank(c) in Frame(open, close, parts, gap, mind)
    {
      var i :| 0 <= i < |gap| && gap[i] == c;
      var b := Blank(c);
      assert Blanks(gap)[i] == b;
      assert b in Blanks(gap);
      assert b in Break(gap, gap);
      assert b in [Mark(open)] + Break(gap, gap);
    }
  }

  lemma IndentShows(v: Value, indent: Text)
    requires ShowsIndent(v)
    ensures forall c <- indent :: Blank(c) in Layout(v, [], indent)
  {
    var gap := [] + indent;
    assert gap == indent;
    match v {
      case Arr(es) =>
        FrameShows(LBRACKET, RBRACKET, LayoutElems(es, gap, indent), gap, []);
      case Obj(ms) =>
        IndentedMembersAgree(ms, indent);
        FrameShows(LBRACE, RBRACE, LayoutMembers(ms, gap, indent), gap, []);
    }
  }

  lemma ShownAmpersandRefused(v: Value, indent: Text)
    requires ShowsIndent(v) && indent != [] && indent[0] == 0x26
    ensures !Accepts(Stringify(v, indent).value)
  {
    var amp: CodeUnit := 0x26;
    var t := Stringify(v, indent).value;
    StartOfIndented(v, indent);
    var head, tail := t[..3], t[3..];
    assert t == head + tail;
    assert head == [t[0], NEWLINE, amp];
    EscapeCxAppend(head, tail);
    EscapeCxPlain(head);
    ReplaceEscapesPlain(head, EscapeCx(tail));
    AmpersandStays(head + ReplaceEscapes(EscapeCx(tail)), amp);
  }

  /** A value that does not show the indent prints the same with any. */
  lemma HiddenIndentPrints(v: Value, indent: Text)
    requires !v.Undefined? && !ShowsIndent(v)
    ensures Stringify(v, indent) == Stringify(v, [])
  {
    if v.Obj? {
      PrintedMembersAgree(v.members, [] + indent, indent);
      PrintedMembersAgree(v.members, [] + [], []);
    }
  }

  /** The comment of login.js offers '&nbsp;' as an indent. What is printed with an indent that starts
      with an ampersand passes the guard exactly when it does not show the indent. */
  lemma AmpersandIndentExact(v: Value, indent: Text)
    requires !v.Undefined? && indent != [] && indent[0] == 0x26
    ensures Accepts(Stringify(v, indent).value) <==> !ShowsIndent(v)
  {
    if ShowsIndent(v) {
      ShownAmpersandRefused(v, indent);
    } else {
      HiddenIndentPrints(v, indent);
      GuardOnPrinted(v, []);
    }
  }

  lemma AmpersandStays(b: Text, amp: CodeUnit)
    requires |b| > 2 && (b[0] == LBRACKET || b[0] == LBRACE) && b[1] == NEWLINE && b[2] == amp == 0x26
    ensures !Residue(DropBrackets(ReplaceTokens(b), true))
  {
    TokenFreeStart(b, amp);
    DropBracketsSpares(ReplaceTokens(b), true, amp);
    assert !IsResidue(amp);
  }

  lemma StartOfIndented(v: Value, indent: Text)
    requires ShowsIndent(v) && indent != []
    ensures var t := Stringify(v, indent).value;
            |t| > 2 && (t[0] == LBRACKET || t[0] == LBRACE) && t[1] == NEWLINE && t[2] == indent[0]
  {
    var gap := [] + indent;
    assert gap == indent;
    if v.Obj? {
      PrintedMembersAgree(v.members, gap, indent);
    }
  }

  lemma {:induction false} PrintedMembersAgree(ms: seq<Member>, gap: Text, indent: Text)
    ensures |PrintMembers(ms, gap, indent)| == |NormalizeMembers(ms)|
  {
    if ms != [] {
      PrintedMembersAgree(ms[1..], gap, indent);
    }
  }

  lemma TokenFreeStart(b: Text, x: CodeUnit)
    requires |b| > 2 && (b[0] == LBRACKET || b[0] == LBRACE) && b[1] == NEWLINE && b[2] == x == 0x26
    ensures x in ReplaceTokens(b)
  {
    NoTokenAt(b);
    NoTokenAt(b[1..]);
    NoTokenAt(b[2..]);
    assert b[1..][1..] == b[2..];
    assert ReplaceTokens(b)[1..] == ReplaceTokens(b[1..]);
    assert ReplaceTokens(b[1..])[1..] == ReplaceTokens(b[2..]);
    assert ReplaceTokens(b[2..])[0] == x;
    assert ReplaceTokens(b)[2] == x;
  }

  lemma NoTokenAt(t: Text)
    requires t != [] && (t[0] == LBRACKET || t[0] == LBRACE || t[0] == NEWLINE || t[0] == 0x26)
    ensures MatchToken(t) == 0
  {
    assert t[0..] == t;
  }

  // --- indentation does not change meaning -------------------------------------------

  /** The text without the white space that stands outside its strings. */
  function StripBlanks(t: Text, inString: bool): Text
    decreases |t|
  {
    if t == [] then []
    else if inString && t[0] == BACKSLASH && |t| > 1 then t[..2] + StripBlanks(t[2..], true)
    else if inString then [t[0]] + StripBlanks(t[1..], t[0] != QUOTE)
    else if IsSpace(t[0]) then StripBlanks(t[1..], false)
    else [t[0]] + StripBlanks(t[1..], t[0] == QUOTE)
  }

  lemma {:induction false} StripPieces(ps: seq<Piece>, rest: Text)
    requires PiecesOk(ps)
    ensures StripBlanks(SpellPieces(ps) + [QUOTE] + rest, true) == SpellPieces(ps) + [QUOTE] + StripBlanks(rest, false)
  {
    if ps == [] {
      assert (SpellPieces(ps) + [QUOTE] + rest)[1..] == rest;
    } else {
      assert ps[0] in ps;
      var first, more, after := SpellPiece(ps[0]), SpellPieces(ps[1..]), StripBlanks(rest, false);
      StripPieces(ps[1..], rest);
      StripPiece(ps[0], more + [QUOTE] + rest);
      Assoc(first, more, [QUOTE]);
      Assoc(first, more + [QUOTE], rest);
      Assoc(first, more + [QUOTE], after);
    }
  }

  lemma StripPiece(p: Piece, tail: Text)
    requires PieceOk(p)
    ensures StripBlanks(SpellPiece(p) + tail, true) == SpellPiece(p) + StripBlanks(tail, true)
  {
    match p {
      case Plain(c) =>
        assert ([c] + tail)[1..] == tail;
      case Short(c) =>
        assert (SpellPiece(p) + tail)[2..] == tail;
      case Hex4(a, b, c, d) =>
        var t := SpellPiece(p) + tail;
        assert t[2..] == [a] + ([b] + ([c] + ([d] + tail)));
        StripHex(d, tail);
        StripHex(c, [d] + tail);
        StripHex(b, [c] + ([d] + tail));
        StripHex(a, [b] + ([c] + ([d] + tail)));
    }
  }

  lemma StripHex(h: CodeUnit, tail: Text)
    requires IsHex(h)
    ensures StripBlanks([h] + tail, true) == [h] + StripBlanks(tail, true)
  {
    assert ([h] + tail)[1..] == tail;
  }

  lemma {:induction false} StripUnquoted(w: Text, rest: Text)
    requires forall i :: 0 <= i < |w| ==> w[i] != QUOTE && !IsSpace(w[i])
    ensures StripBlanks(w + rest, false) == w + StripBlanks(rest, false)
  {
    if w == [] {
      assert w + rest == rest;
    } else {
      StripUnquoted(w[1..], rest);
      assert (w + rest)[1..] == w[1..] + rest;
    }
  }

  lemma StripQuoted(ps: seq<Piece>, rest: Text)
    requires PiecesOk(ps)
    ensures StripBlanks([QUOTE] + SpellPieces(ps) + [QUOTE] + rest, false)
            == [QUOTE] + SpellPieces(ps) + [QUOTE] + StripBlanks(rest, false)
  {
    var body := SpellPieces(ps) + [QUOTE];
    StripPieces(ps, rest);
    Assoc([QUOTE], SpellPieces(ps), [QUOTE]);
    Assoc([QUOTE], body, rest);
    Assoc([QUOTE], body, StripBlanks(rest, false));
    assert ([QUOTE] + (body + rest))[1..] == body + rest;
  }

  lemma StripNumber(n: Text, rest: Text)
    requires IsNumber(n)
    ensures StripBlanks(n + rest, false) == n + StripBlanks(rest, false)
  {
    LooseExact(n);
    LooseCharacters(n);
    forall i | 0 <= i < |n|
      ensures n[i] != QUOTE && !IsSpace(n[i])
    {
      assert n[i] in n;
    }
    StripUnquoted(n, rest);
  }

  lemma StripToken(t: Token, rest: Text)
    requires TokenOk(t)
    ensures StripBlanks(Spell(t) + rest, false) == (if t.Blank? then [] else Spell(t)) + StripBlanks(rest, false)
  {
    match t {
      case Blank(c) =>
        assert ([c] + rest)[1..] == rest;
      case Mark(c) =>
        StripUnquoted([c], rest);
      case Word(w) =>
        StripUnquoted(w, rest);
      case Number(n) =>
        StripNumber(n, rest);
      case Quoted(ps) =>
        StripQuoted(ps, rest);
    }
  }

  lemma {:induction false} StripTokens(ts: seq<Token>)
    requires TokensOk(ts)
    ensures StripBlanks(SpellAll(ts), false) == SpellAll(NonBlank(ts))
  {
    if ts != [] {
      assert ts[0] in ts;
      StripToken(ts[0], SpellAll(ts[1..]));
      StripTokens(ts[1..]);
    }
  }

  /** Deleting white space outside strings turns any indented output into the compact one. */
  lemma IndentOnlyAddsBlanks(v: Value, indent: Text)
    requires !v.Undefined? && Spaces(indent)
    ensures StripBlanks(Stringify(v, indent).value, false) == Stringify(v, []).value
  {
    LayoutFacts(v, indent);
    LayoutFacts(v, []);
    StripTokens(Layout(v, [], indent));
  }

  // --- only the JSON form is printed ---------------------------------------------------

  function Embed(j: Json): Value
    decreases j, 0
  {
    match j
    case JNull => Null
    case JBool(b) => Bool(b)
    case JNumber(n) => Finite(n)
    case JString(s) => Str(s)
    case JArray(es) => Arr(EmbedElems(es))
    case JObject(ms) => Obj(EmbedMembers(ms))
  }

  function EmbedElems(es: seq<Json>): seq<Value>
    decreases es, 1
  {
    if es == [] then [] else [Embed(es[0])] + EmbedElems(es[1..])
  }

  function EmbedMembers(ms: seq<JMember>): seq<Member>
    decreases ms, 1
  {
    if ms == [] then [] else [Member(ms[0].key, Embed(ms[0].value))] + EmbedMembers(ms[1..])
  }

  /** The printed text depends on the JSON form alone. */
  lemma {:induction false} PrintEmbedded(v: Value, mind: Text, indent: Text)
    requires !v.Undefined?
    ensures Print(v, mind, indent) == Print(Embed(Normalize(v).value), mind, indent)
    decreases v, 0
  {
    match v {
      case Arr(es) => PrintEmbeddedElems(es, mind + indent, indent);
      case Obj(ms) => PrintEmbeddedMembers(ms, mind + indent, indent);
      case _ =>
    }
  }

  lemma {:induction false} PrintEmbeddedElems(es: seq<Value>, gap: Text, indent: Text)
    ensures PrintElems(es, gap, indent) == PrintElems(EmbedElems(NormalizeElems(es)), gap, indent)
    decreases es, 1
  {
    if es != [] {
      if !es[0].Undefined? {
        PrintEmbedded(es[0], gap, indent);
      }
      PrintEmbeddedElems(es[1..], gap, indent);
      assert NormalizeElems(es)[1..] == NormalizeElems(es[1..]);
      assert EmbedElems(NormalizeElems(es))[1..] == EmbedElems(NormalizeElems(es[1..]));
    }
  }

  lemma {:induction false} PrintEmbeddedMembers(ms: seq<Member>, gap: Text, indent: Text)
    ensures PrintMembers(ms, gap, indent) == PrintMembers(EmbedMembers(NormalizeMembers(ms)), gap, indent)
    decreases ms, 1
  {
    if ms != [] {
      PrintEmbeddedMembers(ms[1..], gap, indent);
      if !ms[0].value.Undefined? {
        PrintEmbedded(ms[0].value, gap, indent);
        assert NormalizeMembers(ms)[1..] == NormalizeMembers(ms[1..]);
        assert EmbedMembers(NormalizeMembers(ms))[1..] == EmbedMembers(NormalizeMembers(ms[1..]));
      }
    }
  }
}
