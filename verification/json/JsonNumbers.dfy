/** Numbers by their parts: the number of RFC 4627, section 2.4, and the looser one of the guard's pattern.
    The functions that scan a text for a number are shown to find these, and the longest of them. */
module JsonNumbers {
  import opened Wrappers
  import opened JsonText

  /** The letter, an optional sign and the digits. */
  datatype Exponent = Exponent(letter: CodeUnit, sign: Text, digits: Text)

  /** The fraction is what follows the point. */
  datatype NumberParts = NumberParts(minus: bool, whole: Text, fraction: Option<Text>, exponent: Option<Exponent>)

  predicate AllDigits(t: Text) { forall c <- t :: 0x30 <= c <= 0x39 }

  function SignPart(minus: bool): Text { if minus then [0x2D] else [] }

  function FractionPart(f: Option<Text>): Text { if f.Some? then [0x2E] + f.value else [] }

  function ExponentPart(e: Option<Exponent>): Text {
    if e.Some? then [e.value.letter] + e.value.sign + e.value.digits else []
  }

  function SpellNumber(p: NumberParts): Text {
    SignPart(p.minus) + p.whole + FractionPart(p.fraction) + ExponentPart(p.exponent)
  }

  predicate ExponentOk(e: Option<Exponent>) {
    e.Some? ==>
      && (e.value.letter == 0x65 || e.value.letter == 0x45)
      && (e.value.sign == [] || e.value.sign == [0x2B] || e.value.sign == [0x2D])
      && e.value.digits != [] && AllDigits(e.value.digits)
  }

  /** -?\d+(?:\.\d*)?(?:[eE][+\-]?\d+)? */
  predicate LooseParts(p: NumberParts) {
    && p.whole != [] && AllDigits(p.whole)
    && (p.fraction.Some? ==> AllDigits(p.fraction.value))
    && ExponentOk(p.exponent)
  }

  /** number = [ minus ] int [ frac ] [ exp ]: besides, no leading zero, and digits behind the point. */
  predicate StrictParts(p: NumberParts) {
    && LooseParts(p)
    && (p.whole[0] == 0x30 ==> |p.whole| == 1)
    && p.fraction != Some([])
  }

  ghost predicate IsLoose(t: Text) { exists p :: LooseParts(p) && SpellNumber(p) == t }

  ghost predicate IsStrict(t: Text) { exists p :: StrictParts(p) && SpellNumber(p) == t }

  // --- digits ----------------------------------------------------------------------------

  /** Digits counts the digits that a text starts with. */
  lemma {:induction false} DigitsRun(t: Text)
    ensures AllDigits(t[..Digits(t)])
    ensures Digits(t) < |t| ==> !(0x30 <= t[Digits(t)] <= 0x39)
  {
    if t != [] && IsDigit(t[0]) {
      DigitsRun(t[1..]);
      assert t[..Digits(t)] == [t[0]] + t[1..][..Digits(t[1..])];
    }
  }

  lemma {:induction false} DigitsOver(d: Text, rest: Text)
    requires AllDigits(d)
    ensures Digits(d + rest) == |d| + Digits(rest)
  {
    if d == [] {
      assert d + rest == rest;
    } else {
      assert d[0] in d && forall c <- d[1..] :: c in d;
      DigitsOver(d[1..], rest);
      assert (d + rest)[1..] == d[1..] + rest;
    }
  }

  lemma DigitsOnly(d: Text)
    requires AllDigits(d)
    ensures Digits(d) == |d|
  {
    DigitsOver(d, []);
    assert d + [] == d;
  }

  // --- what is found is a number -------------------------------------------------------------

  lemma ExponentFound(t: Text, p: nat) returns (e: Option<Exponent>)
    requires p <= |t|
    ensures ExponentOk(e) && ExponentPart(e) == t[p..ExponentEnd(t, p)]
  {
    var n := ExponentEnd(t, p);
    e := None;
    if n > p {
      var q := if p + 1 < |t| && (t[p + 1] == PLUS || t[p + 1] == MINUS) then p + 2 else p + 1;
      DigitsRun(t[q..]);
      assert t[q..n] == t[q..][..Digits(t[q..])];
      e := Some(Exponent(t[p], t[p + 1..q], t[q..n]));
      assert t[p..n] == [t[p]] + t[p + 1..q] + t[q..n];
    }
  }

  lemma FractionFound(t: Text, p: nat) returns (f: Option<Text>)
    requires p <= |t|
    ensures f.Some? ==> AllDigits(f.value)
    ensures FractionPart(f) == t[p..FractionEnd(t, p)]
  {
    f := None;
    if p < |t| && t[p] == DOT {
      var n := FractionEnd(t, p);
      DigitsRun(t[p + 1..]);
      assert t[p + 1..n] == t[p + 1..][..Digits(t[p + 1..])];
      f := Some(t[p + 1..n]);
      assert t[p..n] == [t[p]] + t[p + 1..n];
    }
  }

  lemma MatchFrom(t: Text, s: nat)
    requires t != [] && s == (if t[0] == MINUS then 1 else 0) && Digits(t[s..]) > 0
    ensures MatchNumber(t) == ExponentEnd(t, FractionEnd(t, s + Digits(t[s..]))) >= s + Digits(t[s..])
  {}

  /** The parts of the match at the start of a text. */
  lemma PartsFound(t: Text) returns (p: NumberParts)
    requires MatchNumber(t) > 0
    ensures LooseParts(p) && SpellNumber(p) == t[..MatchNumber(t)]
  {
    var s := if t[0] == MINUS then 1 else 0;
    var w := s + Digits(t[s..]);
    var a := FractionEnd(t, w);
    MatchFrom(t, s);
    var f := FractionFound(t, w);
    var e := ExponentFound(t, a);
    DigitsRun(t[s..]);
    assert t[s..w] == t[s..][..w - s];
    p := NumberParts(t[0] == MINUS, t[s..w], f, e);
    assert SignPart(p.minus) == t[..s];
    InFour(t, s, w, a, MatchNumber(t));
  }

  lemma InFour(t: Text, a: nat, b: nat, c: nat, d: nat)
    requires a <= b <= c <= d <= |t|
    ensures t[..d] == t[..a] + t[a..b] + t[b..c] + t[c..d]
  {}

  // --- every number at the start is covered ------------------------------------------------------

  lemma DropFront(a: Text, b: Text)
    ensures (a + b)[|a|..] == b
  {}

  lemma ExponentPlaced(t: Text, p: nat, e: Exponent, rest: Text)
    requires p <= |t| && t[p..] == ExponentPart(Some(e)) + rest
    ensures p < |t| && t[p] == e.letter && t[p + 1..] == e.sign + (e.digits + rest)
    ensures t[p + 1 + |e.sign|..] == e.digits + rest
  {
    assert t[p] == t[p..][0];
    Assoc([e.letter] + e.sign, e.digits, rest);
    Assoc([e.letter], e.sign, e.digits + rest);
    DropFront([e.letter], e.sign + (e.digits + rest));
    DropFront([e.letter] + e.sign, e.digits + rest);
    DropDrop(t, p, 1);
    DropDrop(t, p, 1 + |e.sign|);
  }

  lemma ExponentCovered(t: Text, p: nat, e: Exponent, rest: Text)
    requires p <= |t| && ExponentOk(Some(e)) && t[p..] == ExponentPart(Some(e)) + rest
    ensures ExponentEnd(t, p) >= p + |ExponentPart(Some(e))|
  {
    ExponentPlaced(t, p, e, rest);
    DigitsOver(e.digits, rest);
    var after := e.sign + (e.digits + rest);
    assert t[p + 1] == after[0];
    if e.sign == [] {
      assert after == e.digits + rest;
      assert e.digits[0] in e.digits && after[0] == e.digits[0];
    } else {
      assert after[0] == e.sign[0];
    }
  }

  /** Behind the digits of a fraction; exactly there when an exponent follows. */
  lemma FractionCovered(t: Text, p: nat, f: Option<Text>, more: Text)
    requires p <= |t| && (f.Some? ==> AllDigits(f.value)) && t[p..] == FractionPart(f) + more
    ensures FractionEnd(t, p) >= p + |FractionPart(f)|
    ensures more != [] && more[0] != 0x2E && !(0x30 <= more[0] <= 0x39) ==> FractionEnd(t, p) == p + |FractionPart(f)|
  {
    if f.Some? {
      assert t[p] == 0x2E && t[p + 1..] == f.value + more by {
        assert t[p..][0] == 0x2E && t[p..][1..] == f.value + more;
      }
      DigitsOver(f.value, more);
    } else if more != [] {
      assert t[p] == more[0];
    }
  }

  lemma FourInFront(m: Text, w: Text, f: Text, x: Text, rest: Text)
    ensures var t := m + w + f + x + rest;
            && t[|m|..] == w + (f + (x + rest))
            && t[|m| + |w|..] == f + (x + rest)
            && t[|m| + |w| + |f|..] == x + rest
  {
    Assoc(m + w + f, x, rest);
    Assoc(m + w, f, x + rest);
    Assoc(m, w, f + (x + rest));
    DropFront(m, w + (f + (x + rest)));
    DropFront(m + w, f + (x + rest));
    DropFront(m + w + f, x + rest);
  }

  lemma MinusInFront(p: NumberParts, rest: Text)
    requires LooseParts(p)
    ensures (SpellNumber(p) + rest)[0] == MINUS <==> p.minus
  {
    assert p.whole[0] in p.whole;
    assert (SignPart(p.minus) + p.whole)[0] == if p.minus then MINUS else p.whole[0];
  }

  /** Where the parts lie in a text that starts with them. */
  lemma Placed(p: NumberParts, rest: Text)
    requires LooseParts(p)
    ensures var t, s, f, x := SpellNumber(p) + rest, |SignPart(p.minus)|, FractionPart(p.fraction), ExponentPart(p.exponent);
            && (t[0] == MINUS <==> p.minus)
            && t[s..] == p.whole + (f + (x + rest))
            && t[s + |p.whole|..] == f + (x + rest)
            && t[s + |p.whole| + |f|..] == x + rest
  {
    MinusInFront(p, rest);
    FourInFront(SignPart(p.minus), p.whole, FractionPart(p.fraction), ExponentPart(p.exponent), rest);
  }

  /** The fraction and the exponent start with no digit. */
  lemma TailStarts(p: NumberParts, rest: Text)
    requires LooseParts(p)
    ensures var f, x := FractionPart(p.fraction), ExponentPart(p.exponent);
            && (f != [] ==> (f + (x + rest))[0] == 0x2E)
            && (f == [] && x != [] ==> (f + (x + rest))[0] in {0x65, 0x45})
            && (x != [] ==> (x + rest)[0] in {0x65, 0x45})
  {
    assert [] + (ExponentPart(p.exponent) + rest) == ExponentPart(p.exponent) + rest;
  }

  /** The digits at the front: all of the integer part, and no more when there are other parts. */
  lemma WholeCovered(p: NumberParts, rest: Text)
    requires LooseParts(p)
    ensures var t, s := SpellNumber(p) + rest, |SignPart(p.minus)|;
            && Digits(t[s..]) >= |p.whole|
            && (p.fraction.Some? || p.exponent.Some? ==> Digits(t[s..]) == |p.whole|)
  {
    Placed(p, rest);
    TailStarts(p, rest);
    DigitsOver(p.whole, FractionPart(p.fraction) + (ExponentPart(p.exponent) + rest));
  }

  lemma ExponentStart(e: Exponent, rest: Text)
    requires ExponentOk(Some(e))
    ensures var more := ExponentPart(Some(e)) + rest;
            more != [] && more[0] != 0x2E && !(0x30 <= more[0] <= 0x39)
  {}

  /** The same for both. */
  lemma TailFrom(t: Text, w: nat, f: Option<Text>, e: Option<Exponent>, rest: Text)
    requires w + |FractionPart(f)| <= |t| && (f.Some? ==> AllDigits(f.value)) && ExponentOk(e)
    requires t[w..] == FractionPart(f) + (ExponentPart(e) + rest)
    requires t[w + |FractionPart(f)|..] == ExponentPart(e) + rest
    ensures ExponentEnd(t, FractionEnd(t, w)) >= w + |FractionPart(f)| + |ExponentPart(e)|
  {
    var more := ExponentPart(e) + rest;
    var a := w + |FractionPart(f)|;
    FractionCovered(t, w, f, more);
    match e
    case None => assert |ExponentPart(e)| == 0;
    case Some(x) =>
      ExponentStart(x, rest);
      assert FractionEnd(t, w) == a;
      ExponentCovered(t, a, x, rest);
  }

  lemma Lengths(p: NumberParts, rest: Text)
    ensures var w, f, x := |SignPart(p.minus)| + |p.whole|, |FractionPart(p.fraction)|, |ExponentPart(p.exponent)|;
            |SpellNumber(p)| == w + f + x <= |SpellNumber(p) + rest|
  {}

  lemma TailCovered(p: NumberParts, rest: Text, t: Text, w: nat)
    requires LooseParts(p) && t == SpellNumber(p) + rest && w == |SignPart(p.minus)| + |p.whole|
    ensures w <= |t| && ExponentEnd(t, FractionEnd(t, w)) >= |SpellNumber(p)|
  {
    Lengths(p, rest);
    Placed(p, rest);
    TailFrom(t, w, p.fraction, p.exponent, rest);
  }

  /** A number at the start of a text is within the match. */
  lemma PartsCovered(p: NumberParts, rest: Text)
    requires LooseParts(p)
    ensures MatchNumber(SpellNumber(p) + rest) >= |SpellNumber(p)|
  {
    Placed(p, rest);
    WholeCovered(p, rest);
    MatchFrom(SpellNumber(p) + rest, |SignPart(p.minus)|);
    if p.fraction.Some? || p.exponent.Some? {
      TailCovered(p, rest, SpellNumber(p) + rest, |SignPart(p.minus)| + |p.whole|);
    }
  }

  // --- the laws ------------------------------------------------------------------------------------

  lemma LooseWithin(t: Text, m: nat)
    requires m <= |t| && IsLoose(t[..m])
    ensures 0 < m <= MatchNumber(t)
  {
    var p :| LooseParts(p) && SpellNumber(p) == t[..m];
    PartsCovered(p, t[m..]);
    assert t[..m] + t[m..] == t;
  }

  /** The guard's number pattern matches the longest number that a text starts with, and nothing exactly when
      it starts with none. */
  lemma LongestMatch(t: Text)
    ensures MatchNumber(t) > 0 ==> IsLoose(t[..MatchNumber(t)])
    ensures forall m :: 0 <= m <= |t| && IsLoose(t[..m]) ==> 0 < m <= MatchNumber(t)
  {
    if MatchNumber(t) > 0 {
      var p := PartsFound(t);
    }
    forall m | 0 <= m <= |t| && IsLoose(t[..m])
      ensures 0 < m <= MatchNumber(t)
    {
      LooseWithin(t, m);
    }
  }

  /** A text matches whole exactly when it is a number of the pattern. */
  lemma LooseExact(t: Text)
    ensures IsLoose(t) <==> t != [] && MatchNumber(t) == |t|
  {
    LongestMatch(t);
    assert t[..|t|] == t;
  }

  /** IsNumber says exactly which texts are numbers of RFC 4627. */
  lemma NumberExact(t: Text)
    ensures IsNumber(t) <==> IsStrict(t)
  {
    if IsNumber(t) {
      var p := PartsFound(t);
      assert t[..|t|] == t;
      StrictDecided(p);
    }
    if IsStrict(t) {
      var p :| StrictParts(p) && SpellNumber(p) == t;
      StrictDecided(p);
    }
  }

  lemma NumberFrom(t: Text, s: nat, d: nat)
    requires t != [] && s == (if t[0] == MINUS then 1 else 0) && d == Digits(t[s..]) > 0 && MatchNumber(t) == |t|
    ensures IsNumber(t) <==> (t[s] == ZERO ==> d == 1) && (s + d < |t| && t[s + d] == DOT ==> Digits(t[s + d + 1..]) > 0)
  {}

  /** IsNumber looks at exactly the conditions that the grammar adds. */
  lemma StrictDecided(p: NumberParts)
    requires LooseParts(p)
    ensures IsNumber(SpellNumber(p)) <==> StrictParts(p)
  {
    var t, s := SpellNumber(p), |SignPart(p.minus)|;
    LooseExact(t);
    DigitsBetween(p);
    NumberFrom(t, s, |p.whole|);
    if p.fraction.Some? {
      FractionDigits(p);
    } else {
      NoPoint(p);
    }
  }

  lemma NoPoint(p: NumberParts)
    requires LooseParts(p) && p.fraction.None?
    ensures var t, w := SpellNumber(p), |SignPart(p.minus)| + |p.whole|; w < |t| ==> t[w] != 0x2E
  {
    NothingBehind(SpellNumber(p));
    Placed(p, []);
    TailStarts(p, []);
  }

  lemma NothingBehind(t: Text)
    ensures t + [] == t
  {}

  lemma DigitsBetween(p: NumberParts)
    requires LooseParts(p)
    ensures var t, s := SpellNumber(p), |SignPart(p.minus)|;
            s < |t| && s == (if t[0] == MINUS then 1 else 0) && t[s] == p.whole[0] && Digits(t[s..]) == |p.whole|
  {
    NothingBehind(SpellNumber(p));
    Placed(p, []);
    WholeCovered(p, []);
    assert SpellNumber(p)[|SignPart(p.minus)|..][0] == p.whole[0];
    if p.fraction.None? && p.exponent.None? {
      DigitsOnly(p.whole);
      assert p.whole + ([] + ([] + [])) == p.whole;
    }
  }

  lemma FractionDigits(p: NumberParts)
    requires LooseParts(p) && p.fraction.Some?
    ensures var t, w := SpellNumber(p), |SignPart(p.minus)| + |p.whole|;
            && w < |t| && t[w] == 0x2E
            && (Digits(t[w + 1..]) > 0 <==> p.fraction.value != [])
  {
    var t, w, x := SpellNumber(p), |SignPart(p.minus)| + |p.whole|, ExponentPart(p.exponent);
    NothingBehind(t);
    Placed(p, []);
    assert t[w..] == [0x2E] + p.fraction.value + x;
    PointPlaced(t, w, p.fraction.value, x);
    DigitsOver(p.fraction.value, x);
    if x != [] {
      assert x[0] == p.exponent.value.letter;
    }
  }

  lemma PointPlaced(t: Text, w: nat, f: Text, x: Text)
    requires w <= |t| && t[w..] == [0x2E] + f + x
    ensures w < |t| && t[w] == 0x2E && t[w + 1..] == f + x
  {
    assert t[w] == t[w..][0];
    Assoc([0x2E], f, x);
    DropFront([0x2E], f + x);
    DropDrop(t, w, 1);
  }

  lemma FractionStops(t: Text, p: nat)
    requires p <= |t| && (p < |t| ==> !IsDigit(t[p]))
    ensures FractionEnd(t, p) < |t| ==> !IsDigit(t[FractionEnd(t, p)])
  {
    if p < |t| && t[p] == DOT {
      DigitsRun(t[p + 1..]);
    }
  }

  lemma ExponentStops(t: Text, p: nat)
    requires p <= |t| && (p < |t| ==> !IsDigit(t[p]))
    ensures ExponentEnd(t, p) < |t| ==> !IsDigit(t[ExponentEnd(t, p)])
  {
    if ExponentEnd(t, p) > p {
      var q := if p + 1 < |t| && (t[p + 1] == PLUS || t[p + 1] == MINUS) then p + 2 else p + 1;
      DigitsRun(t[q..]);
    }
  }

  /** The match stops before anything but a digit. */
  lemma NumberStops(t: Text)
    requires 0 < MatchNumber(t) < |t|
    ensures !IsDigit(t[MatchNumber(t)])
  {
    var s := if t[0] == MINUS then 1 else 0;
    var w := s + Digits(t[s..]);
    DigitsRun(t[s..]);
    MatchFrom(t, s);
    FractionStops(t, w);
    ExponentStops(t, FractionEnd(t, w));
  }

  /** The characters of a number. */
  predicate IsNumberChar(c: CodeUnit) {
    0x30 <= c <= 0x39 || c == 0x2D || c == 0x2B || c == 0x2E || c == 0x65 || c == 0x45
  }

  lemma LooseCharacters(t: Text)
    requires IsLoose(t)
    ensures t != [] && (IsDigit(t[0]) || t[0] == MINUS)
    ensures forall c <- t :: IsNumberChar(c)
  {
    var p :| LooseParts(p) && SpellNumber(p) == t;
    assert p.whole[0] in p.whole;
    CharactersOf(p);
  }

  lemma CharactersOf(p: NumberParts)
    requires LooseParts(p)
    ensures forall c <- SpellNumber(p) :: IsNumberChar(c)
  {
    ExponentCharacters(p.exponent);
    forall c | c in SpellNumber(p)
      ensures IsNumberChar(c)
    {
      assert c in SignPart(p.minus) || c in p.whole || c in FractionPart(p.fraction) || c in ExponentPart(p.exponent);
    }
  }

  lemma ExponentCharacters(e: Option<Exponent>)
    requires ExponentOk(e)
    ensures forall c <- ExponentPart(e) :: IsNumberChar(c)
  {
    if e.Some? {
      assert forall c <- ExponentPart(e) :: c == e.value.letter || c in e.value.sign || c in e.value.digits;
    }
  }
}
