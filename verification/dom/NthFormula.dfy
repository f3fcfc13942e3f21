/** Expr.preFilter.CHILD: how the argument of :nth-child is turned into two numbers. */
module NthFormula {
  import opened Wrappers
  import opened Decimal

  /** The groups of /(-?)(\d*)n((?:\+|-)?\d*)/ where it matches. */
  datatype Groups = Groups(minus: bool, digits: string, offset: string)

  /** TypeError is what reading a group of a failed match raises. */
  datatype Parsed = TypeError | Numbers(first: int, last: Option<int>)

  /** The match of the pattern at the start of t. No backtracking can rescue a failed attempt:
      the three parts before the n take disjoint characters. */
  function MatchAt(t: string): Option<Groups> {
    var minus := t != "" && t[0] == '-';
    var u := if minus then t[1..] else t;
    var d := DigitRun(u);
    if d < |u| && u[d] == 'n' then Some(Groups(minus, u[..d], OffsetOf(u[d + 1..]))) else None
  }

  function OffsetOf(t: string): string {
    if t != "" && (t[0] == '+' || t[0] == '-') then t[..1 + DigitRun(t[1..])] else t[..DigitRun(t)]
  }

  /** The leftmost match. */
  function Exec(t: string): Option<Groups> {
    if MatchAt(t).Some? then MatchAt(t) else if t == "" then None else Exec(t[1..])
  }

  /** test[3] - 0; a sign without digits is NaN. */
  function OffsetNumber(s: string): Option<int> {
    if s == "" then Some(0)
    else if s[0] == '+' || s[0] == '-' then
      if |s| > 1 && AllDigits(s[1..]) then Some(if s[0] == '-' then 0 - Value(s[1..]) else Value(s[1..])) else None
    else if AllDigits(s) then Some(Value(s)) else None
  }

  /** (test[1] + (test[2] || 1)) - 0 */
  function FirstNumber(g: Groups): int
    requires AllDigits(g.digits)
  {
    var v := if g.digits == "" then 1 else Value(g.digits);
    if g.minus then 0 - v else v
  }

  function Rewrite(arg: string): string {
    if arg == "even" then "2n" else if arg == "odd" then "2n+1"
    else if AllDigits(arg) then "0n+" + arg else arg
  }

  function ParseNth(arg: string): Parsed {
    match Exec(Rewrite(arg))
    case None => TypeError
    case Some(g) => if AllDigits(g.digits) then Numbers(FirstNumber(g), OffsetNumber(g.offset)) else TypeError
  }

  lemma {:induction false} ExecFindsAnN(t: string)
    ensures Exec(t).Some? <==> 'n' in t
    ensures Exec(t).Some? ==> AllDigits(Exec(t).value.digits)
  {
    if t != "" {
      ExecFindsAnN(t[1..]);
      if t[0] == 'n' {
        assert DigitRun(t) == 0;
      } else if MatchAt(t).Some? {
        var u := if t[0] == '-' then t[1..] else t;
        assert u[DigitRun(u)] == 'n';
      } else {
        assert t == [t[0]] + t[1..];
      }
    }
  }

  /** The parser raises exactly for arguments without an n that are neither odd nor digits,
      which includes the signed integers that Selectors Level 3 allows. */
  lemma RaisesExactly(arg: string)
    ensures ParseNth(arg) == TypeError <==> 'n' !in arg && arg != "odd" && !AllDigits(arg)
  {
    ExecFindsAnN(Rewrite(arg));
    if arg == "even" {
      assert arg[3] == 'n' && Rewrite(arg)[1] == 'n';
    } else if arg == "odd" {
      assert Rewrite(arg)[1] == 'n';
    } else if AllDigits(arg) {
      assert Rewrite(arg)[1] == 'n';
    }
  }

  /** A sign: none, plus or minus. */
  datatype Sign = NoSign | Plus | Minus

  function SignText(s: Sign): string {
    match s
    case NoSign => ""
    case Plus => "+"
    case Minus => "-"
  }

  function Signed(s: Sign, v: nat): int { if s == Minus then 0 - v else v }

  /** [ '-' | '+' ]? INTEGER? 'n' [ [ '-' | '+' ] INTEGER ]? of Selectors Level 3, section 6.6.5.2. */
  function FormulaText(sign: Sign, digits: string, offsetSign: Sign, offset: string): string {
    SignText(sign) + digits + "n" + Tail(offsetSign, offset)
  }

  lemma MatchFormula(minus: bool, digits: string, tail: string)
    requires AllDigits(digits)
    ensures MatchAt((if minus then "-" else "") + digits + "n" + tail) == Some(Groups(minus, digits, OffsetOf(tail)))
  {
    var t := (if minus then "-" else "") + digits + "n" + tail;
    var u := digits + ("n" + tail);
    assert if minus then t == "-" + u else t == u;
    assert minus ==> t[1..] == u;
    DigitRunOver(digits, "n" + tail);
    assert u[..|digits|] == digits && u[|digits| + 1..] == tail;
    if !minus && digits != "" {
      assert t[0] == digits[0];
    }
  }

  lemma OffsetMatches(t: string)
    requires |t| > 1 && (t[0] == '+' || t[0] == '-') && AllDigits(t[1..])
    ensures OffsetOf(t) == t
  {
    DigitRunOver(t[1..], "");
    assert t[1..] + "" == t[1..];
  }

  lemma OffsetValue(t: string)
    requires |t| > 1 && (t[0] == '+' || t[0] == '-') && AllDigits(t[1..])
    ensures OffsetNumber(t) == Some(Signed(if t[0] == '-' then Minus else Plus, Value(t[1..])))
  {}

  function Tail(offsetSign: Sign, offset: string): string {
    if offset == "" then "" else SignText(offsetSign) + offset
  }

  lemma ExecFormula(sign: Sign, digits: string, tail: string)
    requires AllDigits(digits)
    ensures Exec(SignText(sign) + digits + "n" + tail) == Some(Groups(sign == Minus, digits, OffsetOf(tail)))
  {
    MatchFormula(sign == Minus, digits, tail);
    if sign == Plus {
      var rest := "" + digits + "n" + tail;
      assert "+" + digits + "n" + tail == "+" + rest;
      ExecSkips("+", rest);
    }
  }

  lemma OffsetOfTail(offsetSign: Sign, offset: string)
    requires AllDigits(offset) && (offset != "" ==> offsetSign != NoSign)
    ensures OffsetNumber(OffsetOf(Tail(offsetSign, offset))) ==
            Some(if offset == "" then 0 else Signed(offsetSign, Value(offset)))
  {
    if offset != "" {
      var t := Tail(offsetSign, offset);
      assert t[1..] == offset;
      OffsetMatches(t);
      OffsetValue(t);
    }
  }

  /** Every an+b of the standard is read as its two numbers. */
  lemma FormulaReads(sign: Sign, digits: string, offsetSign: Sign, offset: string)
    requires AllDigits(digits) && AllDigits(offset) && (offset != "" ==> offsetSign != NoSign)
    ensures ParseNth(FormulaText(sign, digits, offsetSign, offset)) ==
            Numbers(Signed(sign, if digits == "" then 1 else Value(digits)),
                    Some(if offset == "" then 0 else Signed(offsetSign, Value(offset))))
  {
    var tail := Tail(offsetSign, offset);
    NotRewritten(SignText(sign) + digits, tail);
    ExecFormula(sign, digits, tail);
    OffsetOfTail(offsetSign, offset);
  }

  /** The second number as it is written: 0 when there is none, NaN for a sign without digits. */
  function OffsetWritten(offsetSign: Sign, offset: string): Option<int>
    requires AllDigits(offset)
  {
    if offset != "" then Some(Signed(offsetSign, Value(offset))) else if offsetSign == NoSign then Some(0) else None
  }

  /** What cannot belong to the second number any more. */
  predicate Ends(offsetSign: Sign, offset: string, rest: string) {
    rest != "" ==> !IsDigit(rest[0]) && (offsetSign == NoSign && offset == "" ==> rest[0] != '+' && rest[0] != '-')
  }

  lemma OffsetFound(offsetSign: Sign, offset: string, rest: string)
    requires AllDigits(offset) && Ends(offsetSign, offset, rest)
    ensures OffsetOf(SignText(offsetSign) + (offset + rest)) == SignText(offsetSign) + offset
  {
    if offsetSign == NoSign {
      assert "" + (offset + rest) == offset + rest && "" + offset == offset;
      UnsignedFound(offset, rest);
    } else {
      SignedFound(SignText(offsetSign), offset, rest);
    }
  }

  lemma UnsignedFound(offset: string, rest: string)
    requires AllDigits(offset) && Ends(NoSign, offset, rest)
    ensures OffsetOf(offset + rest) == offset
  {
    var u := offset + rest;
    DigitRunOver(offset, rest);
    assert u[..|offset|] == offset;
    if u != "" {
      assert u[0] == if offset != "" then offset[0] else rest[0];
    }
  }

  lemma SignedFound(sign: string, offset: string, rest: string)
    requires (sign == "+" || sign == "-") && AllDigits(offset) && (rest != "" ==> !IsDigit(rest[0]))
    ensures OffsetOf(sign + (offset + rest)) == sign + offset
  {
    var t := sign + (offset + rest);
    DigitRunOver(offset, rest);
    assert t[1..] == offset + rest;
    assert t[..1 + |offset|] == sign + offset;
  }

  lemma OffsetRead(offsetSign: Sign, offset: string)
    requires AllDigits(offset)
    ensures OffsetNumber(SignText(offsetSign) + offset) == OffsetWritten(offsetSign, offset)
  {
    var t := SignText(offsetSign) + offset;
    if offsetSign == NoSign {
      assert t == offset;
    } else {
      assert t[1..] == offset;
    }
  }

  /** Characters that start no match. */
  predicate IsJunk(s: string) { forall c <- s :: !IsDigit(c) && c != '-' && c != 'n' }

  lemma {:induction false} ExecSkips(junk: string, t: string)
    requires IsJunk(junk)
    ensures Exec(junk + t) == Exec(t)
  {
    if junk == "" {
      assert junk + t == t;
    } else {
      var u := junk + t;
      assert junk[0] in junk && forall c <- junk[1..] :: c in junk;
      ExecSkips(junk[1..], t);
      assert u[0] == junk[0] && u[1..] == junk[1..] + t;
      assert DigitRun(u) == 0;
    }
  }

  lemma KeptWithN(arg: string)
    requires 'n' in arg && arg != "even"
    ensures Rewrite(arg) == arg
  {
    var k :| 0 <= k < |arg| && arg[k] == 'n';
    assert !IsDigit(arg[k]);
    assert 'n' !in "odd";
  }

  lemma ParsedAs(arg: string, g: Groups)
    requires Rewrite(arg) == arg && Exec(arg) == Some(g) && AllDigits(g.digits)
    ensures ParseNth(arg) == Numbers(FirstNumber(g), OffsetNumber(g.offset))
  {}

  lemma HasN(a: string, b: string, c: string)
    ensures 'n' in a + (b + "n" + c)
  {
    var t := a + (b + "n" + c);
    assert t[|a| + |b|] == 'n';
  }

  function Inside(junk: string, sign: Sign, digits: string, tail: string): string {
    junk + (SignText(sign) + digits + "n" + tail)
  }

  lemma FoundInside(junk: string, sign: Sign, digits: string, tail: string)
    requires IsJunk(junk) && AllDigits(digits)
    ensures Exec(Inside(junk, sign, digits, tail)) == Some(Groups(sign == Minus, digits, OffsetOf(tail)))
  {
    ExecSkips(junk, SignText(sign) + digits + "n" + tail);
    ExecFormula(sign, digits, tail);
  }

  lemma FirstWritten(sign: Sign, digits: string, offset: string)
    requires AllDigits(digits)
    ensures FirstNumber(Groups(sign == Minus, digits, offset)) == Signed(sign, if digits == "" then 1 else Value(digits))
  {}

  /** The first formula in a text is read, whatever stands around it, unless the text is the word even. */
  lemma FormulaInText(junk: string, sign: Sign, digits: string, offsetSign: Sign, offset: string, rest: string)
    requires IsJunk(junk) && AllDigits(digits) && AllDigits(offset) && Ends(offsetSign, offset, rest)
    ensures var arg := Inside(junk, sign, digits, SignText(offsetSign) + (offset + rest));
            arg != "even" ==>
              ParseNth(arg) ==
              Numbers(Signed(sign, if digits == "" then 1 else Value(digits)), OffsetWritten(offsetSign, offset))
  {
    var tail := SignText(offsetSign) + (offset + rest);
    var arg := Inside(junk, sign, digits, tail);
    FoundInside(junk, sign, digits, tail);
    OffsetFound(offsetSign, offset, rest);
    OffsetRead(offsetSign, offset);
    FirstWritten(sign, digits, SignText(offsetSign) + offset);
    if arg != "even" {
      HasN(junk, SignText(sign) + digits, tail);
      KeptWithN(arg);
      ParsedAs(arg, Groups(sign == Minus, digits, SignText(offsetSign) + offset));
    }
  }

  lemma NotRewritten(head: string, tail: string)
    requires forall c <- head :: IsDigit(c) || c == '+' || c == '-'
    ensures Rewrite(head + "n" + tail) == head + "n" + tail
  {
    var t := head + "n" + tail;
    assert t[|head|] == 'n';
    if head == "" {
      assert t[0] == 'n';
    } else {
      assert t[0] == head[0] && head[0] in head;
    }
  }

  lemma SingleDigit(c: char)
    requires IsDigit(c)
    ensures Value([c]) == DigitValue(c)
  {
    assert [c][..0] == "";
  }

  /** An argument is read like the formula that it is rewritten to. */
  lemma ReadLikeFormula(arg: string, digits: string, offsetSign: Sign, offset: string)
    requires AllDigits(digits) && digits != "" && AllDigits(offset) && (offset != "" ==> offsetSign != NoSign)
    requires Rewrite(arg) == FormulaText(NoSign, digits, offsetSign, offset)
    ensures ParseNth(arg) ==
            Numbers(Value(digits), Some(if offset == "" then 0 else Signed(offsetSign, Value(offset))))
  {
    NotRewritten("" + digits, Tail(offsetSign, offset));
    FormulaReads(NoSign, digits, offsetSign, offset);
  }

  lemma EvenReads()
    ensures ParseNth("even") == Numbers(2, Some(0))
  {
    SingleDigit('2');
    assert FormulaText(NoSign, "2", NoSign, "") == "2n";
    ReadLikeFormula("even", "2", NoSign, "");
  }

  lemma OddReads()
    ensures ParseNth("odd") == Numbers(2, Some(1))
  {
    SingleDigit('1');
    SingleDigit('2');
    assert FormulaText(NoSign, "2", Plus, "1") == "2n+1";
    ReadLikeFormula("odd", "2", Plus, "1");
  }

  lemma RewriteInteger(digits: string)
    requires AllDigits(digits) && digits != ""
    ensures Rewrite(digits) == "0n+" + digits
  {
    assert digits[0] != 'e' && digits[0] != 'o';
  }

  lemma IntegerText(digits: string)
    requires digits != ""
    ensures FormulaText(NoSign, "0", Plus, digits) == "0n+" + digits
  {
    assert "" + "0" + "n" == "0n";
    assert "0n" + ("+" + digits) == "0n+" + digits;
  }

  lemma IntegerReads(digits: string)
    requires AllDigits(digits) && digits != ""
    ensures ParseNth(digits) == Numbers(0, Some(Value(digits)))
  {
    RewriteInteger(digits);
    SingleDigit('0');
    IntegerText(digits);
    ReadLikeFormula(digits, "0", Plus, digits);
  }

  /** even, odd and plain integers. */
  lemma KeywordsRead(digits: string)
    requires AllDigits(digits) && digits != ""
    ensures ParseNth("even") == Numbers(2, Some(0))
    ensures ParseNth("odd") == Numbers(2, Some(1))
    ensures ParseNth(digits) == Numbers(0, Some(Value(digits)))
  {
    EvenReads();
    OddReads();
    IntegerReads(digits);
  }
}
