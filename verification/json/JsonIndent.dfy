/** What indentation is for: the indented text is the compact one, broken into lines by the depth of nesting. */
module JsonIndent {
  import opened Wrappers
  import opened JsonText
  import opened JsonTokens
  import opened JsonPrinter
  import opened JsonLayout
  import opened JsonLaws

  function Repeat(indent: Text, depth: nat): Text {
    if depth == 0 then [] else Repeat(indent, depth - 1) + indent
  }

  function NewLine(indent: Text, depth: nat): seq<Token> { [Blank(NEWLINE)] + Blanks(Repeat(indent, depth)) }

  predicate IsOpening(t: Token) { t == Mark(LBRACKET) || t == Mark(LBRACE) }

  /** Compact tokens, laid out in lines: a new line after every opening bracket, after every comma and before every
      closing bracket, indented by the brackets that are open, and a space after every colon; empty
      brackets stay together. */
  function Pretty(ts: seq<Token>, depth: nat, indent: Text): seq<Token> {
    if ts == [] then []
    else if IsOpening(ts[0]) then
      if |ts| > 1 && IsClosing(ts[1]) then ts[..2] + Pretty(ts[2..], depth, indent)
      else [ts[0]] + NewLine(indent, depth + 1) + Pretty(ts[1..], depth + 1, indent)
    else if IsClosing(ts[0]) then
      var outer := if depth == 0 then 0 else depth - 1;
      NewLine(indent, outer) + [ts[0]] + Pretty(ts[1..], outer, indent)
    else if ts[0] == Mark(COMMA) then [ts[0]] + NewLine(indent, depth) + Pretty(ts[1..], depth, indent)
    else if ts[0] == Mark(COLON) then [ts[0], Blank(SPACE)] + Pretty(ts[1..], depth, indent)
    else [ts[0]] + Pretty(ts[1..], depth, indent)
  }

  lemma PrettyStep(t: Token, rest: seq<Token>, depth: nat, indent: Text)
    ensures !t.Mark? ==> Pretty([t] + rest, depth, indent) == [t] + Pretty(rest, depth, indent)
    ensures t == Mark(COMMA) ==> Pretty([t] + rest, depth, indent) == [t] + NewLine(indent, depth) + Pretty(rest, depth, indent)
    ensures t == Mark(COLON) ==> Pretty([t] + rest, depth, indent) == [t, Blank(SPACE)] + Pretty(rest, depth, indent)
    ensures IsClosing(t) && depth > 0 ==>
              Pretty([t] + rest, depth, indent) == NewLine(indent, depth - 1) + [t] + Pretty(rest, depth - 1, indent)
    ensures IsOpening(t) && rest != [] && !IsClosing(rest[0]) ==>
              Pretty([t] + rest, depth, indent) == [t] + NewLine(indent, depth + 1) + Pretty(rest, depth + 1, indent)
  {
    assert ([t] + rest)[1..] == rest;
  }

  lemma PrettyEmpty(open: Token, close: Token, rest: seq<Token>, depth: nat, indent: Text)
    requires IsOpening(open) && IsClosing(close)
    ensures Pretty([open, close] + rest, depth, indent) == [open, close] + Pretty(rest, depth, indent)
  {
    var ts := [open, close] + rest;
    assert ts[..2] == [open, close] && ts[2..] == rest;
  }

  lemma RepeatStep(indent: Text, depth: nat)
    requires indent != []
    ensures Repeat(indent, depth) + indent == Repeat(indent, depth + 1) != []
    ensures Break(Repeat(indent, depth + 1), Repeat(indent, depth + 1)) == NewLine(indent, depth + 1)
    ensures Break(Repeat(indent, depth + 1), Repeat(indent, depth)) == NewLine(indent, depth)
  {}

  /** In front of anything, c is laid out as l. */
  ghost predicate LaidAs(c: seq<Token>, l: seq<Token>, depth: nat, indent: Text) {
    forall rest: seq<Token> :: Pretty(c + rest, depth, indent) == l + Pretty(rest, depth, indent)
  }

  ghost predicate PartsLaid(cs: seq<seq<Token>>, ls: seq<seq<Token>>, depth: nat, indent: Text) {
    && |cs| == |ls|
    && forall i :: 0 <= i < |cs| ==> LaidAs(cs[i], ls[i], depth, indent) && cs[i] != [] && !IsClosing(cs[i][0])
  }

  lemma TokenLaid(t: Token, depth: nat, indent: Text)
    ensures !t.Mark? ==> LaidAs([t], [t], depth, indent)
    ensures t == Mark(COMMA) ==> LaidAs([t], [t] + NewLine(indent, depth), depth, indent)
    ensures t == Mark(COLON) ==> LaidAs([t], [t, Blank(SPACE)], depth, indent)
  {
    forall rest: seq<Token>
      ensures !t.Mark? ==> Pretty([t] + rest, depth, indent) == [t] + Pretty(rest, depth, indent)
      ensures t == Mark(COMMA) ==>
                Pretty([t] + rest, depth, indent) == [t] + NewLine(indent, depth) + Pretty(rest, depth, indent)
      ensures t == Mark(COLON) ==> Pretty([t] + rest, depth, indent) == [t, Blank(SPACE)] + Pretty(rest, depth, indent)
    {
      PrettyStep(t, rest, depth, indent);
    }
  }

  lemma ConcatLaid(a: seq<Token>, la: seq<Token>, b: seq<Token>, lb: seq<Token>, depth: nat, indent: Text)
    requires LaidAs(a, la, depth, indent) && LaidAs(b, lb, depth, indent)
    ensures LaidAs(a + b, la + lb, depth, indent)
  {
    forall rest: seq<Token>
      ensures Pretty((a + b) + rest, depth, indent) == (la + lb) + Pretty(rest, depth, indent)
    {
      Assoc(a, b, rest);
      Assoc(la, lb, Pretty(rest, depth, indent));
      assert Pretty(a + (b + rest), depth, indent) == la + Pretty(b + rest, depth, indent);
    }
  }

  lemma {:induction false} JoinLaid(cs: seq<seq<Token>>, ls: seq<seq<Token>>, depth: nat, indent: Text)
    requires cs != [] && PartsLaid(cs, ls, depth, indent)
    ensures LaidAs(JoinTokens(cs, [Mark(COMMA)]), JoinTokens(ls, [Mark(COMMA)] + NewLine(indent, depth)), depth, indent)
    ensures var joined := JoinTokens(cs, [Mark(COMMA)]); joined != [] && !IsClosing(joined[0])
  {
    if |cs| > 1 {
      var comma, more := [Mark(COMMA)], JoinTokens(cs[1..], [Mark(COMMA)]);
      var laidComma := comma + NewLine(indent, depth);
      JoinLaid(cs[1..], ls[1..], depth, indent);
      TokenLaid(Mark(COMMA), depth, indent);
      ConcatLaid(cs[0], ls[0], comma, laidComma, depth, indent);
      ConcatLaid(cs[0] + comma, ls[0] + laidComma, more, JoinTokens(ls[1..], laidComma), depth, indent);
    }
  }

  lemma InFront(a: Token, b: seq<Token>, c: Token, rest: seq<Token>)
    ensures ([a] + b + [c]) + rest == [a] + (b + ([c] + rest))
  {}

  lemma FiveInFront(a: seq<Token>, b: seq<Token>, c: seq<Token>, d: seq<Token>, e: seq<Token>, rest: seq<Token>)
    ensures a + b + (c + (d + e + rest)) == (a + b + c + d + e) + rest
  {}

  lemma BracketsBefore(open: Token, close: Token, inner: seq<Token>, laid: seq<Token>, rest: seq<Token>, depth: nat,
                       indent: Text)
    requires IsOpening(open) && IsClosing(close) && inner != [] && !IsClosing(inner[0])
    requires LaidAs(inner, laid, depth + 1, indent)
    ensures Pretty(([open] + inner + [close]) + rest, depth, indent) ==
            ([open] + NewLine(indent, depth + 1) + laid + NewLine(indent, depth) + [close]) + Pretty(rest, depth, indent)
  {
    var tail := [close] + rest;
    var after := Pretty(rest, depth, indent);
    InFront(open, inner, close, rest);
    assert (inner + tail)[0] == inner[0];
    PrettyStep(open, inner + tail, depth, indent);
    assert Pretty(inner + tail, depth + 1, indent) == laid + Pretty(tail, depth + 1, indent);
    PrettyStep(close, rest, depth + 1, indent);
    FiveInFront([open], NewLine(indent, depth + 1), laid, NewLine(indent, depth), [close], after);
  }

  /** The brackets around a list that is not empty. */
  lemma BracketsLaid(open: CodeUnit, close: CodeUnit, inner: seq<Token>, laid: seq<Token>, depth: nat, indent: Text)
    requires IsOpening(Mark(open)) && IsClosing(Mark(close)) && inner != [] && !IsClosing(inner[0])
    requires LaidAs(inner, laid, depth + 1, indent)
    ensures LaidAs([Mark(open)] + inner + [Mark(close)],
                   [Mark(open)] + NewLine(indent, depth + 1) + laid + NewLine(indent, depth) + [Mark(close)], depth, indent)
  {
    forall rest: seq<Token>
      ensures Pretty(([Mark(open)] + inner + [Mark(close)]) + rest, depth, indent) ==
              ([Mark(open)] + NewLine(indent, depth + 1) + laid + NewLine(indent, depth) + [Mark(close)])
              + Pretty(rest, depth, indent)
    {
      BracketsBefore(Mark(open), Mark(close), inner, laid, rest, depth, indent);
    }
  }

  lemma FrameLaid(open: CodeUnit, close: CodeUnit, cs: seq<seq<Token>>, ls: seq<seq<Token>>, depth: nat, indent: Text)
    requires IsOpening(Mark(open)) && IsClosing(Mark(close)) && indent != [] && PartsLaid(cs, ls, depth + 1, indent)
    ensures LaidAs(Frame(open, close, cs, [], []),
                   Frame(open, close, ls, Repeat(indent, depth + 1), Repeat(indent, depth)), depth, indent)
  {
    RepeatStep(indent, depth);
    if cs == [] {
      forall rest: seq<Token>
        ensures Pretty([Mark(open), Mark(close)] + rest, depth, indent) ==
                [Mark(open), Mark(close)] + Pretty(rest, depth, indent)
      {
        PrettyEmpty(Mark(open), Mark(close), rest, depth, indent);
      }
    } else {
      var joined := JoinTokens(cs, [Mark(COMMA)]);
      JoinLaid(cs, ls, depth + 1, indent);
      BracketsLaid(open, close, joined, JoinTokens(ls, [Mark(COMMA)] + NewLine(indent, depth + 1)), depth, indent);
      CompactFrame(open, close, cs);
    }
  }

  lemma CompactFrame(open: CodeUnit, close: CodeUnit, cs: seq<seq<Token>>)
    requires cs != []
    ensures Frame(open, close, cs, [], []) == [Mark(open)] + JoinTokens(cs, [Mark(COMMA)]) + [Mark(close)]
  {
    assert Break([], []) == [] && [Mark(COMMA)] + [] == [Mark(COMMA)];
  }

  lemma ArrayLaid(es: seq<Value>, depth: nat, indent: Text)
    requires indent != []
    requires PartsLaid(LayoutElems(es, [], []), LayoutElems(es, Repeat(indent, depth + 1), indent), depth + 1, indent)
    ensures LaidAs(Layout(Arr(es), [], []), Layout(Arr(es), Repeat(indent, depth), indent), depth, indent)
  {
    NothingTwice();
    RepeatStep(indent, depth);
    ArrayFrame(es, [], [], []);
    ArrayFrame(es, Repeat(indent, depth), indent, Repeat(indent, depth + 1));
    FrameLaid(LBRACKET, RBRACKET, LayoutElems(es, [], []), LayoutElems(es, Repeat(indent, depth + 1), indent), depth, indent);
  }

  lemma ObjectLaid(ms: seq<Member>, depth: nat, indent: Text)
    requires indent != []
    requires PartsLaid(LayoutMembers(ms, [], []), LayoutMembers(ms, Repeat(indent, depth + 1), indent), depth + 1, indent)
    ensures LaidAs(Layout(Obj(ms), [], []), Layout(Obj(ms), Repeat(indent, depth), indent), depth, indent)
  {
    NothingTwice();
    RepeatStep(indent, depth);
    ObjectFrame(ms, [], [], []);
    ObjectFrame(ms, Repeat(indent, depth), indent, Repeat(indent, depth + 1));
    FrameLaid(LBRACE, RBRACE, LayoutMembers(ms, [], []), LayoutMembers(ms, Repeat(indent, depth + 1), indent), depth, indent);
  }

  lemma ScalarLaid(v: Value, depth: nat, indent: Text)
    requires !v.Undefined? && !v.Arr? && !v.Obj?
    ensures LaidAs(Layout(v, [], []), Layout(v, Repeat(indent, depth), indent), depth, indent)
  {
    TokenLaid(Layout(v, [], [])[0], depth, indent);
  }

  lemma {:induction false} ValueLaid(v: Value, depth: nat, indent: Text)
    requires !v.Undefined? && indent != []
    ensures LaidAs(Layout(v, [], []), Layout(v, Repeat(indent, depth), indent), depth, indent)
    decreases v, 0
  {
    if v.Arr? {
      ElemsLaid(v.elems, depth + 1, indent);
      ArrayLaid(v.elems, depth, indent);
    } else if v.Obj? {
      MembersLaid(v.members, depth + 1, indent);
      ObjectLaid(v.members, depth, indent);
    } else {
      ScalarLaid(v, depth, indent);
    }
  }

  lemma PartsCons(c: seq<Token>, l: seq<Token>, cs: seq<seq<Token>>, ls: seq<seq<Token>>, depth: nat, indent: Text)
    requires LaidAs(c, l, depth, indent) && c != [] && !IsClosing(c[0]) && PartsLaid(cs, ls, depth, indent)
    ensures PartsLaid([c] + cs, [l] + ls, depth, indent)
  {}

  lemma {:induction false} ElemsLaid(es: seq<Value>, depth: nat, indent: Text)
    requires indent != []
    ensures PartsLaid(LayoutElems(es, [], []), LayoutElems(es, Repeat(indent, depth), indent), depth, indent)
    decreases es, 1
  {
    if es != [] {
      var gap := Repeat(indent, depth);
      var c := ElemText(es[0]);
      var l := if es[0].Undefined? then [Word(NULL)] else Layout(es[0], gap, indent);
      if es[0].Undefined? {
        TokenLaid(Word(NULL), depth, indent);
      } else {
        ValueLaid(es[0], depth, indent);
        LayoutStart(es[0]);
      }
      ElemsLaid(es[1..], depth, indent);
      PartsCons(c, l, LayoutElems(es[1..], [], []), LayoutElems(es[1..], gap, indent), depth, indent);
    }
  }

  lemma MemberLaid(key: Text, value: seq<Token>, laid: seq<Token>, depth: nat, indent: Text)
    requires depth > 0 && indent != [] && LaidAs(value, laid, depth, indent)
    ensures LaidAs(MemberTokens(key, value, []), MemberTokens(key, laid, Repeat(indent, depth)), depth, indent)
  {
    var k, colon := [Quoted(QuotePieces(key))], [Mark(COLON)];
    RepeatStep(indent, depth - 1);
    TokenLaid(k[0], depth, indent);
    TokenLaid(Mark(COLON), depth, indent);
    ConcatLaid(k, k, colon, [Mark(COLON), Blank(SPACE)], depth, indent);
    ConcatLaid(k + colon, k + [Mark(COLON), Blank(SPACE)], value, laid, depth, indent);
  }

  lemma {:induction false} MembersLaid(ms: seq<Member>, depth: nat, indent: Text)
    requires depth > 0 && indent != []
    ensures PartsLaid(LayoutMembers(ms, [], []), LayoutMembers(ms, Repeat(indent, depth), indent), depth, indent)
    decreases ms, 1
  {
    if ms != [] {
      MembersLaid(ms[1..], depth, indent);
      var m, gap := ms[0], Repeat(indent, depth);
      if !m.value.Undefined? {
        var c, l := Layout(m.value, [], []), Layout(m.value, gap, indent);
        ValueLaid(m.value, depth, indent);
        MemberLaid(m.key, c, l, depth, indent);
        PartsCons(MemberTokens(m.key, c, []), MemberTokens(m.key, l, gap), LayoutMembers(ms[1..], [], []),
                  LayoutMembers(ms[1..], gap, indent), depth, indent);
      }
    }
  }

  lemma LaidAlone(c: seq<Token>, l: seq<Token>, indent: Text)
    requires LaidAs(c, l, 0, indent)
    ensures Pretty(c, 0, indent) == l
  {
    assert c + [] == c && l + [] == l;
    assert Pretty(c + [], 0, indent) == l + Pretty([], 0, indent);
  }

  /** With any indent the printed text is the compact one laid out in lines. */
  lemma PrintedPretty(v: Value, indent: Text)
    requires !v.Undefined? && indent != []
    ensures Stringify(v, []) == Some(SpellAll(Layout(v, [], [])))
    ensures Stringify(v, indent) == Some(SpellAll(Pretty(Layout(v, [], []), 0, indent)))
  {
    PrintSpellsLayout(v, [], []);
    PrintSpellsLayout(v, [], indent);
    ValueLaid(v, 0, indent);
    assert Repeat(indent, 0) == [];
    LaidAlone(Layout(v, [], []), Layout(v, [], indent), indent);
  }
}
