/** The grammar of RFC 4627 as a relation between values and tokens: the reader finds exactly what it allows. */
module JsonGrammar {
  import opened Wrappers
  import opened JsonText
  import opened JsonTokens
  import opened JsonLayout
  import opened JsonReader
  import opened JsonLaws

  predicate DenotesString(t: Token, s: Text) { t.Quoted? && PiecesOk(t.body) && PiecesValue(t.body) == s }

  /** The tokens, white space left out, are a text for the value. */
  ghost predicate Denotes(ts: seq<Token>, j: Json)
    decreases j, 0
  {
    match j
    case JNull => ts == [Word(NULL)]
    case JBool(b) => ts == [Word(if b then TRUE else FALSE)]
    case JNumber(n) => ts == [Number(n)]
    case JString(s) => |ts| == 1 && DenotesString(ts[0], s)
    case JArray(es) => exists parts :: DenotesElems(parts, es) && ts == Listed(LBRACKET, parts, RBRACKET)
    case JObject(ms) => exists parts :: DenotesMembers(parts, ms) && ts == Listed(LBRACE, parts, RBRACE)
  }

  /** begin *( , ) end */
  function Listed(open: CodeUnit, parts: seq<seq<Token>>, close: CodeUnit): seq<Token> {
    [Mark(open)] + JoinTokens(parts, [Mark(COMMA)]) + [Mark(close)]
  }

  ghost predicate DenotesElems(parts: seq<seq<Token>>, es: seq<Json>)
    decreases es, 1
  {
    |parts| == |es| && forall i :: 0 <= i < |es| ==> Denotes(parts[i], es[i])
  }

  ghost predicate DenotesMembers(parts: seq<seq<Token>>, ms: seq<JMember>)
    decreases ms, 1
  {
    |parts| == |ms| && forall i :: 0 <= i < |ms| ==> DenotesMember(parts[i], ms[i])
  }

  /** string : value */
  ghost predicate DenotesMember(ts: seq<Token>, m: JMember)
    decreases m, 1
  {
    |ts| >= 2 && DenotesString(ts[0], m.key) && ts[1] == Mark(COLON) && Denotes(ts[2..], m.value)
  }

  // --- what is read is denoted ------------------------------------------------------------

  lemma JoinCons(p: seq<Token>, parts: seq<seq<Token>>, rest: seq<Token>)
    requires parts != []
    ensures JoinTokens([p] + parts, [Mark(COMMA)]) + rest == p + ([Mark(COMMA)] + (JoinTokens(parts, [Mark(COMMA)]) + rest))
  {
    assert ([p] + parts)[1..] == parts;
  }

  lemma OkRest(ts: seq<Token>, n: nat)
    requires TokensOk(ts) && n <= |ts|
    ensures TokensOk(ts[n..])
  {
    assert forall t <- ts[n..] :: t in ts;
  }

  lemma OkBehind(pre: seq<Token>, rest: seq<Token>)
    requires TokensOk(pre + rest)
    ensures TokensOk(rest)
  {
    assert forall t <- rest :: t in pre + rest;
  }

  /** The list with its brackets, in front of something. */
  lemma ListedIs(open: CodeUnit, parts: seq<seq<Token>>, close: CodeUnit, ts: seq<Token>, rest: seq<Token>)
    requires ts != [] && ts[0] == Mark(open)
    requires ts[1..] == JoinTokens(parts, [Mark(COMMA)]) + ([Mark(close)] + rest)
    ensures ts == Listed(open, parts, close) + rest
  {
    assert ts == [ts[0]] + ts[1..];
  }

  lemma {:induction false} ReadIsDenoted(ts: seq<Token>) returns (pre: seq<Token>)
    requires TokensOk(ts) && ParseValue(ts).Ok?
    ensures Denotes(pre, ParseValue(ts).value) && ts == pre + ParseValue(ts).rest
    decreases |ts|, 0
  {
    assert ts[0] in ts && ts == [ts[0]] + ts[1..];
    pre := [ts[0]];
    if ts[0] == Mark(LBRACKET) {
      var parts: seq<seq<Token>> := [];
      if IsMarkOf(ts[1..], RBRACKET) {
        assert ts[1..] == [Mark(RBRACKET)] + ts[2..];
        assert DenotesElems(parts, []);
      } else {
        OkRest(ts, 1);
        parts := ElemsAreDenoted(ts[1..]);
      }
      ListedIs(LBRACKET, parts, RBRACKET, ts, ParseValue(ts).rest);
      pre := Listed(LBRACKET, parts, RBRACKET);
    } else if ts[0] == Mark(LBRACE) {
      var parts: seq<seq<Token>> := [];
      if IsMarkOf(ts[1..], RBRACE) {
        assert ts[1..] == [Mark(RBRACE)] + ts[2..];
        assert DenotesMembers(parts, []);
      } else {
        OkRest(ts, 1);
        parts := MembersAreDenoted(ts[1..]);
      }
      ListedIs(LBRACE, parts, RBRACE, ts, ParseValue(ts).rest);
      pre := Listed(LBRACE, parts, RBRACE);
    }
  }

  lemma {:induction false} ElemsAreDenoted(ts: seq<Token>) returns (parts: seq<seq<Token>>)
    requires TokensOk(ts) && ParseElems(ts).Ok?
    ensures parts != [] && DenotesElems(parts, ParseElems(ts).value)
    ensures ts == JoinTokens(parts, [Mark(COMMA)]) + ([Mark(RBRACKET)] + ParseElems(ts).rest)
    decreases |ts|, 1
  {
    var v := ParseValue(ts);
    var pre := ReadIsDenoted(ts);
    OkBehind(pre, v.rest);
    assert v.rest == [v.rest[0]] + v.rest[1..];
    parts := [pre];
    if !IsMarkOf(v.rest, RBRACKET) {
      OkRest(v.rest, 1);
      var more := ElemsAreDenoted(v.rest[1..]);
      JoinCons(pre, more, [Mark(RBRACKET)] + ParseElems(ts).rest);
      parts := [pre] + more;
    }
  }

  lemma MemberDenoted(ts: seq<Token>, pre: seq<Token>, after: seq<Token>, v: Json)
    requires |ts| >= 2 && ts[0].Quoted? && PiecesOk(ts[0].body) && ts[1] == Mark(COLON)
    requires ts[2..] == pre + after && Denotes(pre, v)
    ensures DenotesMember(ts[..2] + pre, JMember(PiecesValue(ts[0].body), v)) && ts == (ts[..2] + pre) + after
  {
    assert (ts[..2] + pre)[2..] == pre;
    assert ts == ts[..2] + ts[2..];
  }

  lemma {:induction false} MembersAreDenoted(ts: seq<Token>) returns (parts: seq<seq<Token>>)
    requires TokensOk(ts) && ParseMembers(ts).Ok?
    ensures parts != [] && DenotesMembers(parts, ParseMembers(ts).value)
    ensures ts == JoinTokens(parts, [Mark(COMMA)]) + ([Mark(RBRACE)] + ParseMembers(ts).rest)
    decreases |ts|, 1
  {
    var v := ParseValue(ts[2..]);
    OkRest(ts, 2);
    var pre := ReadIsDenoted(ts[2..]);
    OkBehind(pre, v.rest);
    MemberDenoted(ts, pre, v.rest, v.value);
    assert v.rest == [v.rest[0]] + v.rest[1..];
    parts := [ts[..2] + pre];
    if !IsMarkOf(v.rest, RBRACE) {
      OkRest(v.rest, 1);
      var more := MembersAreDenoted(v.rest[1..]);
      JoinCons(ts[..2] + pre, more, [Mark(RBRACE)] + ParseMembers(ts).rest);
      parts := parts + more;
    }
  }

  // --- what is denoted is read ------------------------------------------------------------------

  lemma DenotedStart(ts: seq<Token>, j: Json)
    requires Denotes(ts, j)
    ensures ts != [] && !IsClosing(ts[0])
  {}

  lemma ArrayRead(ts: seq<Token>, parts: seq<seq<Token>>, es: seq<Json>, rest: seq<Token>)
    requires DenotesElems(parts, es) && ts == Listed(LBRACKET, parts, RBRACKET)
    requires parts != [] ==> ParseElems(JoinTokens(parts, [Mark(COMMA)]) + ([Mark(RBRACKET)] + rest)) == Ok(es, rest)
    ensures ParseValue(ts + rest) == Ok(JArray(es), rest)
  {
    var u := ts + rest;
    assert u[0] == Mark(LBRACKET) && u[1..] == JoinTokens(parts, [Mark(COMMA)]) + ([Mark(RBRACKET)] + rest);
    if parts == [] {
      ParseEmpty(LBRACKET, RBRACKET, u, rest);
    } else {
      DenotedStart(parts[0], es[0]);
      assert u[1] == parts[0][0];
    }
  }

  lemma ObjectRead(ts: seq<Token>, parts: seq<seq<Token>>, ms: seq<JMember>, rest: seq<Token>)
    requires DenotesMembers(parts, ms) && ts == Listed(LBRACE, parts, RBRACE)
    requires parts != [] ==> ParseMembers(JoinTokens(parts, [Mark(COMMA)]) + ([Mark(RBRACE)] + rest)) == Ok(ms, rest)
    ensures ParseValue(ts + rest) == Ok(JObject(ms), rest)
  {
    var u := ts + rest;
    assert u[0] == Mark(LBRACE) && u[1..] == JoinTokens(parts, [Mark(COMMA)]) + ([Mark(RBRACE)] + rest);
    if parts == [] {
      ParseEmpty(LBRACE, RBRACE, u, rest);
    } else {
      assert DenotesMember(parts[0], ms[0]);
      assert u[1] == parts[0][0];
    }
  }

  lemma {:induction false} DenotedIsRead(ts: seq<Token>, j: Json, rest: seq<Token>)
    requires Denotes(ts, j)
    ensures ParseValue(ts + rest) == Ok(j, rest)
    decreases j, 0
  {
    if j.JArray? {
      var parts :| DenotesElems(parts, j.elems) && ts == Listed(LBRACKET, parts, RBRACKET);
      if parts != [] {
        DenotedElemsRead(parts, j.elems, rest);
      }
      ArrayRead(ts, parts, j.elems, rest);
    } else if j.JObject? {
      var parts :| DenotesMembers(parts, j.members) && ts == Listed(LBRACE, parts, RBRACE);
      if parts != [] {
        DenotedMembersRead(parts, j.members, rest);
      }
      ObjectRead(ts, parts, j.members, rest);
    } else {
      assert (ts + rest)[0] == ts[0] && (ts + rest)[1..] == rest;
    }
  }

  lemma LastElem(u: seq<Token>, v: Json, rest: seq<Token>)
    requires ParseValue(u) == Ok(v, [Mark(RBRACKET)] + rest)
    ensures ParseElems(u) == Ok([v], rest)
  {
    assert ([Mark(RBRACKET)] + rest)[1..] == rest;
  }

  lemma NextElem(u: seq<Token>, v: Json, more: seq<Token>)
    requires ParseValue(u) == Ok(v, [Mark(COMMA)] + more) && ParseElems(more).Ok?
    ensures ParseElems(u) == Ok([v] + ParseElems(more).value, ParseElems(more).rest)
  {
    assert ([Mark(COMMA)] + more)[1..] == more;
  }

  lemma {:induction false} DenotedElemsRead(parts: seq<seq<Token>>, es: seq<Json>, rest: seq<Token>)
    requires parts != [] && DenotesElems(parts, es)
    ensures ParseElems(JoinTokens(parts, [Mark(COMMA)]) + ([Mark(RBRACKET)] + rest)) == Ok(es, rest)
    decreases es, 1
  {
    var close := [Mark(RBRACKET)] + rest;
    if |parts| == 1 {
      assert es == [es[0]];
      DenotedIsRead(parts[0], es[0], close);
      LastElem(parts[0] + close, es[0], rest);
    } else {
      var more := JoinTokens(parts[1..], [Mark(COMMA)]) + close;
      JoinCons(parts[0], parts[1..], close);
      assert parts == [parts[0]] + parts[1..] && es == [es[0]] + es[1..];
      DenotedElemsRead(parts[1..], es[1..], rest);
      DenotedIsRead(parts[0], es[0], [Mark(COMMA)] + more);
      NextElem(parts[0] + ([Mark(COMMA)] + more), es[0], more);
    }
  }

  /** A member in front of something: its key, and where its value starts. */
  lemma MemberStarts(p: seq<Token>, m: JMember, after: seq<Token>)
    requires DenotesMember(p, m)
    ensures var u := p + after;
            |u| >= 2 && u[0].Quoted? && PiecesOk(u[0].body) && PiecesValue(u[0].body) == m.key && u[1] == Mark(COLON)
    ensures (p + after)[2..] == p[2..] + after
  {}

  lemma LastMember(u: seq<Token>, key: Text, v: Json, rest: seq<Token>)
    requires |u| >= 2 && u[0].Quoted? && PiecesOk(u[0].body) && PiecesValue(u[0].body) == key && u[1] == Mark(COLON)
    requires ParseValue(u[2..]) == Ok(v, [Mark(RBRACE)] + rest)
    ensures ParseMembers(u) == Ok([JMember(key, v)], rest)
  {
    assert ([Mark(RBRACE)] + rest)[1..] == rest;
  }

  lemma NextMember(u: seq<Token>, key: Text, v: Json, more: seq<Token>)
    requires |u| >= 2 && u[0].Quoted? && PiecesOk(u[0].body) && PiecesValue(u[0].body) == key && u[1] == Mark(COLON)
    requires ParseValue(u[2..]) == Ok(v, [Mark(COMMA)] + more) && ParseMembers(more).Ok?
    ensures ParseMembers(u) == Ok([JMember(key, v)] + ParseMembers(more).value, ParseMembers(more).rest)
  {
    assert ([Mark(COMMA)] + more)[1..] == more;
  }

  lemma {:induction false} DenotedMembersRead(parts: seq<seq<Token>>, ms: seq<JMember>, rest: seq<Token>)
    requires parts != [] && DenotesMembers(parts, ms)
    ensures ParseMembers(JoinTokens(parts, [Mark(COMMA)]) + ([Mark(RBRACE)] + rest)) == Ok(ms, rest)
    decreases ms, 1
  {
    var p, m := parts[0], ms[0];
    assert ms == [m] + ms[1..] && m == JMember(m.key, m.value);
    if |parts| == 1 {
      var close := [Mark(RBRACE)] + rest;
      assert ms == [m];
      MemberStarts(p, m, close);
      DenotedIsRead(p[2..], m.value, close);
      LastMember(p + close, m.key, m.value, rest);
    } else {
      var more := JoinTokens(parts[1..], [Mark(COMMA)]) + ([Mark(RBRACE)] + rest);
      var after := [Mark(COMMA)] + more;
      JoinCons(p, parts[1..], [Mark(RBRACE)] + rest);
      assert parts == [p] + parts[1..];
      DenotedMembersRead(parts[1..], ms[1..], rest);
      MemberStarts(p, m, after);
      DenotedIsRead(p[2..], m.value, after);
      NextMember(p + after, m.key, m.value, more);
    }
  }

  /** The reader takes a text for a value exactly when the text can be cut into tokens of the grammar that denote
      it, with white space anywhere between them; so no text has two values. */
  lemma ReaderExact(t: Text, j: Json)
    ensures ReadJson(t) == Some(j) <==>
            exists ts :: TokensOk(ts) && JsonBlanks(ts) && SpellAll(ts) == t && Denotes(NonBlank(ts), j)
  {
    if ReadJson(t) == Some(j) {
      var ts := Lex(t).value;
      LexSound(t);
      assert TokensOk(NonBlank(ts));
      var pre := ReadIsDenoted(NonBlank(ts));
      assert pre + [] == pre;
    }
    if exists ts :: TokensOk(ts) && JsonBlanks(ts) && SpellAll(ts) == t && Denotes(NonBlank(ts), j) {
      var ts :| TokensOk(ts) && JsonBlanks(ts) && SpellAll(ts) == t && Denotes(NonBlank(ts), j);
      var core := NonBlank(ts);
      assert core + [] == core;
      DenotedIsRead(core, j, []);
      ParsedValueShape(core);
      ShapeThroughBlanks(ts, true);
      LexComplete(ts);
    }
  }
}
