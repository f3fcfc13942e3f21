/** The :first-, :last-, :only- and :nth-child filters of jquery-1.3.1.js, which number the
    children of a parent at the first question about one of them and then reuse the numbers. */
module NthChild {
  import opened Wrappers
  import opened Dom

  const NODE_INDEX := "nodeIndex"

  /** match[1] with match[2] and match[3]; a last of None is NaN. */
  datatype Kind = First | Last | Only | Nth(first: int, last: Option<int>)

  // --- the tree ------------------------------------------------------------------

  function FirstChild(tree: Tree, p: Node): Node? {
    if p in tree.firstChild then tree.firstChild[p] else null
  }

  function NextSibling(tree: Tree, n: Node): Node? {
    if n in tree.nextSibling then tree.nextSibling[n] else null
  }

  /** kids[p] lists the children of p in document order, as the links of the tree give them. */
  ghost predicate Families(tree: Tree, kids: map<Node, seq<Node>>) {
    forall p <- kids :: Family(tree, p, kids[p])
  }

  ghost predicate Family(tree: Tree, p: Node, ks: seq<Node>) {
    && FirstChild(tree, p) == (if ks == [] then null else ks[0])
    && (forall i :: 0 <= i < |ks| ==> NextSibling(tree, ks[i]) == if i + 1 < |ks| then ks[i + 1] else null)
    && (forall i :: 0 <= i < |ks| ==> tree.Step(ks[i], ParentNode) == p)
    && (forall i, j :: 0 <= i < j < |ks| ==> ks[i] != ks[j])
  }

  /** The number of elements among the first n children. */
  ghost function Elements(ks: seq<Node>, n: nat): nat
    requires n <= |ks|
  {
    if n == 0 then 0 else Elements(ks, n - 1) + if ks[n - 1].nodeType == 1 then 1 else 0
  }

  /** The places of the elements among the first n children. */
  ghost function ElementPlaces(ks: seq<Node>, n: nat): set<nat>
    requires n <= |ks|
  {
    set i | 0 <= i < n && ks[i].nodeType == 1
  }

  lemma {:induction false} ElementsCount(ks: seq<Node>, n: nat)
    requires n <= |ks|
    ensures Elements(ks, n) == |ElementPlaces(ks, n)|
  {
    if n > 0 {
      ElementsCount(ks, n - 1);
      if ks[n - 1].nodeType == 1 {
        assert ElementPlaces(ks, n) == ElementPlaces(ks, n - 1) + {n - 1};
      } else {
        assert ElementPlaces(ks, n) == ElementPlaces(ks, n - 1);
      }
    }
  }

  lemma {:induction false} ElementsGrow(ks: seq<Node>, m: nat, n: nat)
    requires m <= n <= |ks|
    ensures Elements(ks, m) <= Elements(ks, n)
  {
    if m < n {
      ElementsGrow(ks, m, n - 1);
    }
  }

  // --- the cached numbers ---------------------------------------------------------

  /** The children of p carry their rank among the element siblings, counted from 1. */
  ghost predicate Numbered(h: Expandos, ks: seq<Node>)
    requires forall i :: 0 <= i < |ks| ==> ks[i] in h
  {
    forall i :: 0 <= i < |ks| && ks[i].nodeType == 1 ==> NumberIn(h, ks[i], NODE_INDEX) == Elements(ks, i + 1)
  }

  ghost predicate Holds(h: Expandos, kids: map<Node, seq<Node>>) {
    forall p <- kids :: p in h && forall i :: 0 <= i < |kids[p]| ==> kids[p][i] in h
  }

  /** A parent that carries the mark of this pass has numbered its children. */
  ghost predicate Cached(h: Expandos, kids: map<Node, seq<Node>>, doneName: string)
    requires Holds(h, kids)
  {
    forall p <- kids :: NumberIn(h, p, doneName) > 0 ==>
                          NumberIn(h, p, doneName) == Elements(kids[p], |kids[p]|) && Numbered(h, kids[p])
  }

  /** At the start of a pass, under a new name, nothing is claimed. */
  lemma CachedAtStart(h: Expandos, kids: map<Node, seq<Node>>, doneName: string)
    requires Holds(h, kids) && forall n <- h :: doneName !in h[n]
    ensures Cached(h, kids, doneName)
  {}

  /** Numbers of the first n children only. */
  ghost predicate NumberedUpTo(h: Expandos, ks: seq<Node>, n: nat)
    requires n <= |ks| && forall i :: 0 <= i < |ks| ==> ks[i] in h
  {
    forall i :: 0 <= i < n && ks[i].nodeType == 1 ==> NumberIn(h, ks[i], NODE_INDEX) == Elements(ks, i + 1)
  }

  /** Only the nodeIndex of children of p may differ. */
  ghost predicate IndexOnly(before: Expandos, after: Expandos, ks: seq<Node>) {
    && before.Keys == after.Keys
    && forall n <- before :: (n !in ks ==> before[n] == after[n]) && before[n] - {NODE_INDEX} == after[n] - {NODE_INDEX}
  }

  lemma IndexOnlyStep(before: Expandos, h: Expandos, ks: seq<Node>, i: nat, v: nat)
    requires i < |ks| && IndexOnly(before, h, ks) && ks[i] in h
    ensures IndexOnly(before, WithNumber(h, ks[i], NODE_INDEX, v), ks)
  {
    var h' := WithNumber(h, ks[i], NODE_INDEX, v);
    forall n | n in before
      ensures (n !in ks ==> before[n] == h'[n]) && before[n] - {NODE_INDEX} == h'[n] - {NODE_INDEX}
    {
      if n == ks[i] {
        assert h'[n] - {NODE_INDEX} == h[n] - {NODE_INDEX};
      } else {
        assert h'[n] == h[n];
      }
    }
  }

  lemma NumberedStep(h: Expandos, ks: seq<Node>, i: nat)
    requires i < |ks| && (forall j :: 0 <= j < |ks| ==> ks[j] in h)
    requires (forall j, k :: 0 <= j < k < |ks| ==> ks[j] != ks[k]) && NumberedUpTo(h, ks, i)
    ensures if ks[i].nodeType == 1 then NumberedUpTo(WithNumber(h, ks[i], NODE_INDEX, Elements(ks, i + 1)), ks, i + 1)
            else NumberedUpTo(h, ks, i + 1)
  {
    if ks[i].nodeType == 1 {
      var h' := WithNumber(h, ks[i], NODE_INDEX, Elements(ks, i + 1));
      forall j | 0 <= j < i && ks[j].nodeType == 1
        ensures NumberIn(h', ks[j], NODE_INDEX) == Elements(ks, j + 1)
      {
        assert h'[ks[j]] == h[ks[j]];
      }
    }
  }

  /** One round of the loop of CHILD. */
  method NumberChild(tree: Tree, node: Node, count: nat, ghost parent: Node, ghost ks: seq<Node>, ghost i: nat,
                     ghost before: Expandos, ghost h: Expandos)
    returns (next: nat, sibling: Node?, ghost after: Expandos)
    requires Family(tree, parent, ks) && i < |ks| && node == ks[i] && count == Elements(ks, i) + 1
    requires forall j :: 0 <= j < |ks| ==> ks[j] in h
    requires IndexOnly(before, h, ks) && Mirrors(h) && NumberedUpTo(h, ks, i)
    modifies h.Keys`expando
    ensures next == Elements(ks, i + 1) + 1 && sibling == if i + 1 < |ks| then ks[i + 1] else null
    ensures IndexOnly(before, after, ks) && Mirrors(after) && NumberedUpTo(after, ks, i + 1)
  {
    NumberedStep(h, ks, i);
    next, after := count, h;
    if node.nodeType == 1 {
      IndexOnlyStep(before, h, ks, i, count);
      after := SetNumber(node, NODE_INDEX, count, h);
      next := next + 1;
    }
    sibling := NextSibling(tree, node);
  }

  /** The loop of CHILD: number the element children of a parent, and count them. */
  method NumberChildren(tree: Tree, parent: Node, ghost ks: seq<Node>, ghost before: Expandos)
    returns (count: nat, ghost after: Expandos)
    requires Family(tree, parent, ks) && Mirrors(before) && forall i :: 0 <= i < |ks| ==> ks[i] in before
    modifies before.Keys`expando
    ensures count == Elements(ks, |ks|)
    ensures IndexOnly(before, after, ks) && Mirrors(after) && Numbered(after, ks)
  {
    var next := 1;
    var node := FirstChild(tree, parent);
    ghost var i := 0;
    after := before;
    while node != null
      invariant 0 <= i <= |ks|
      invariant node == if i < |ks| then ks[i] else null
      invariant next == Elements(ks, i) + 1
      invariant IndexOnly(before, after, ks) && Mirrors(after) && NumberedUpTo(after, ks, i)
      decreases |ks| - i
    {
      next, node, after := NumberChild(tree, node, next, parent, ks, i, before, after);
      i := i + 1;
    }
    count := next - 1;
  }

  // --- the filter ------------------------------------------------------------------

  /** The remainder of ECMAScript: it has the sign of the dividend. */
  function Rem(a: int, b: int): int
    requires b != 0
  {
    var m := (if a < 0 then -a else a) % (if b < 0 then -b else b);
    if a < 0 then -m else m
  }

  predicate AtStep(a: int, b: int, n: nat, index: int) { index == a * n + b }

  /** an+b of Selectors Level 3, section 6.6.5.2: some n >= 0 gives the index. */
  ghost predicate InFormula(a: int, b: int, index: int) { exists n: nat :: AtStep(a, b, n, index) }

  function NthTest(index: Option<nat>, first: int, last: Option<int>): bool {
    if first == 1 && last == Some(0) then true
    else if index.None? || last.None? then false
    else if first == 0 then index.value == last.value
    else
      var x := index.value - last.value;
      Rem(x, first) == 0 && x as real / first as real >= 0.0
  }

  /** The remainder and quotient test decides the formula, for a and b of either sign. */
  lemma NthTestDecides(index: nat, a: int, b: int)
    ensures NthTest(Some(index), a, Some(b)) <==> InFormula(a, b, index)
  {
    if a == 1 && b == 0 {
      assert AtStep(a, b, index, index);
    } else if a == 0 {
      if index == b {
        assert AtStep(a, b, 0, index);
      }
    } else {
      var x := index - b;
      if Rem(x, a) == 0 && x as real / a as real >= 0.0 {
        var n := MultipleFromTest(x, a);
        assert AtStep(a, b, n, index);
      }
      if InFormula(a, b, index) {
        var n: nat :| AtStep(a, b, n, index);
        TestFromMultiple(x, a, n);
      }
    }
  }

  lemma MultipleFromTest(x: int, a: int) returns (n: nat)
    requires a != 0 && Rem(x, a) == 0 && x as real / a as real >= 0.0
    ensures x == a * n
  {
    var y, d := if x < 0 then -x else x, if a < 0 then -a else a;
    n := y / d;
    QuotientSign(x as real, a as real);
    assert y == d * n;
  }

  lemma QuotientSign(x: real, a: real)
    requires a != 0.0 && x / a >= 0.0
    ensures a > 0.0 ==> x >= 0.0
    ensures a < 0.0 ==> x <= 0.0
  {
    var q := x / a;
    assert x == q * a;
    SameSign(q, a);
  }

  lemma SameSign(q: real, a: real)
    requires q >= 0.0
    ensures a >= 0.0 ==> q * a >= 0.0
    ensures a <= 0.0 ==> q * a <= 0.0
  {}

  lemma TestFromMultiple(x: int, a: int, n: nat)
    requires a != 0 && x == a * n
    ensures Rem(x, a) == 0 && x as real / a as real >= 0.0
  {
    var y, d := if x < 0 then -x else x, if a < 0 then -a else a;
    assert y == d * n by {
      if a > 0 {
        assert x == d * n;
      } else {
        assert x == -(d * n);
      }
    }
    MultipleRem(d, n);
    assert x as real == n as real * a as real;
    assert x as real / a as real == n as real;
  }

  lemma MultipleRem(d: nat, n: nat)
    requires d > 0
    ensures (d * n) % d == 0
  {
    var y := d * n;
    var k := n - y / d;
    assert y % d == d * k;
    if k >= 1 {
      MulGrows(d, k);
    } else if k <= -1 {
      MulNegative(d, k);
    }
  }

  lemma MulNegative(d: nat, k: int)
    requires d >= 1 && k <= -1
    ensures d * k < 0
  {}

  lemma MulGrows(d: nat, k: nat)
    requires k >= 1
    ensures d * k >= d
  {}

  /** What the filter must say of an element child: its rank and the number of elements decide. */
  ghost predicate Selected(kind: Kind, rank: nat, total: nat) {
    match kind
    case First => rank == 1
    case Last => rank == total
    case Only => total == 1
    case Nth(a, b) => b.Some? && InFormula(a, b.value, rank)
  }

  lemma ParentCached(before: Expandos, h: Expandos, after: Expandos, kids: map<Node, seq<Node>>, doneName: string, p: Node)
    requires Holds(before, kids) && Cached(before, kids, doneName) && p in kids && doneName != NODE_INDEX
    requires IndexOnly(before, h, kids[p]) && Numbered(h, kids[p])
    requires Disjoint(kids, p)
    requires after == WithNumber(h, p, doneName, Elements(kids[p], |kids[p]|))
    ensures Holds(after, kids) && Cached(after, kids, doneName) && Numbered(after, kids[p])
  {
    forall q | q in kids && NumberIn(after, q, doneName) > 0
      ensures NumberIn(after, q, doneName) == Elements(kids[q], |kids[q]|) && Numbered(after, kids[q])
    {
      forall i | 0 <= i < |kids[q]|
        ensures NumberIn(after, kids[q][i], NODE_INDEX) == NumberIn(h, kids[q][i], NODE_INDEX)
      {}
      if q != p {
        assert (before[q] - {NODE_INDEX}) == (h[q] - {NODE_INDEX});
        assert NumberIn(before, q, doneName) == NumberIn(after, q, doneName) by {
          assert doneName in before[q] <==> doneName in before[q] - {NODE_INDEX};
          assert doneName in h[q] <==> doneName in h[q] - {NODE_INDEX};
        }
      }
    }
  }

  ghost predicate Disjoint(kids: map<Node, seq<Node>>, p: Node)
    requires p in kids
  {
    forall q <- kids, i, j :: q != p && 0 <= i < |kids[q]| && 0 <= j < |kids[p]| ==> kids[q][i] != kids[p][j]
  }

  /** A node is the child of one parent only. */
  lemma FamiliesDisjoint(tree: Tree, kids: map<Node, seq<Node>>, p: Node)
    requires Families(tree, kids) && p in kids
    ensures Disjoint(kids, p)
  {
    forall q, i, j | q in kids && q != p && 0 <= i < |kids[q]| && 0 <= j < |kids[p]|
      ensures kids[q][i] != kids[p][j]
    {
      assert Family(tree, q, kids[q]) && Family(tree, p, kids[p]);
      assert tree.Step(kids[q][i], ParentNode) == q && tree.Step(kids[p][j], ParentNode) == p;
    }
  }

  ghost function IndexIn(h: Expandos, n: Node): Option<nat>
    requires n in h
  {
    if NODE_INDEX in h[n] then Some(h[n][NODE_INDEX]) else None
  }

  /** The nodeIndex of nodes without a parent is as it was. */
  ghost predicate OrphansKept(tree: Tree, before: Expandos, after: Expandos) {
    && before.Keys == after.Keys
    && forall n <- before :: tree.Step(n, ParentNode) == null ==> IndexIn(after, n) == IndexIn(before, n)
  }

  lemma NumberingKeepsOrphans(tree: Tree, p: Node, ks: seq<Node>, before: Expandos, h: Expandos, doneName: string, v: nat)
    requires Family(tree, p, ks) && IndexOnly(before, h, ks) && p in h && doneName != NODE_INDEX
    ensures OrphansKept(tree, before, WithNumber(h, p, doneName, v))
  {}

  /** Numbers the children of p unless that has been done in this pass and elem has its number. */
  method EnsureNumbered(tree: Tree, elem: Node, p: Node, doneName: string,
                        ghost kids: map<Node, seq<Node>>, ghost before: Expandos)
    returns (ghost after: Expandos)
    requires Families(tree, kids) && p in kids && doneName != NODE_INDEX
    requires Mirrors(before) && Holds(before, kids) && Cached(before, kids, doneName) && elem in before
    modifies before.Keys`expando
    ensures Mirrors(after) && after.Keys == before.Keys && Holds(after, kids) && Cached(after, kids, doneName)
    ensures OrphansKept(tree, before, after)
    ensures elem in kids[p] && elem.nodeType == 1 ==>
              Numbered(after, kids[p]) && NumberIn(after, p, doneName) == Elements(kids[p], |kids[p]|)
  {
    after := before;
    if p.Number(doneName) == 0 || elem.Number(NODE_INDEX) == 0 {
      assert Family(tree, p, kids[p]);
      var count;
      ghost var h;
      count, h := NumberChildren(tree, p, kids[p], before);
      FamiliesDisjoint(tree, kids, p);
      after := SetNumber(p, doneName, count, h);
      ParentCached(before, h, after, kids, doneName, p);
      NumberingKeepsOrphans(tree, p, kids[p], before, h, doneName, count);
    }
  }

  /** What the filter says of a node without a parent: the number that it carries, if any, decides. */
  ghost predicate SelectedAlone(kind: Kind, index: Option<nat>) {
    match kind
    case First => index == Some(1)
    case Nth(a, b) =>
      (a == 1 && b == Some(0)) || (index.Some? && b.Some? && InFormula(a, b.value, index.value))
    case _ => false
  }

  /** The answer for an element child is what its rank and the number of elements decide; for anything it is an
      exception exactly when the filter needs a parent that is missing. Number is the nodeIndex that the node
      carried before. */
  ghost predicate IsAnswer(tree: Tree, kids: map<Node, seq<Node>>, elem: Node, number: Option<nat>, kind: Kind,
                           r: Option<bool>)
    requires tree.Step(elem, ParentNode) != null ==> tree.Step(elem, ParentNode) in kids
  {
    var p := tree.Step(elem, ParentNode);
    && (r.None? <==> p == null && (kind.Last? || kind.Only?))
    && (p == null && r.Some? ==> (r.value <==> SelectedAlone(kind, number)))
    && (p != null && elem in kids[p] && elem.nodeType == 1 ==>
          forall i :: 0 <= i < |kids[p]| && kids[p][i] == elem ==>
            r.Some? && (r.value <==> Selected(kind, Elements(kids[p], i + 1), Elements(kids[p], |kids[p]|))))
  }

  /** Expr.filter.CHILD. None is the TypeError of reading a property of a missing parent. */
  method Filter(tree: Tree, elem: Node, kind: Kind, doneName: string,
                ghost kids: map<Node, seq<Node>>, ghost before: Expandos)
    returns (r: Option<bool>, ghost after: Expandos)
    requires Families(tree, kids) && doneName != NODE_INDEX && elem in before
    requires Mirrors(before) && Holds(before, kids) && Cached(before, kids, doneName)
    requires tree.Step(elem, ParentNode) != null ==> tree.Step(elem, ParentNode) in kids
    modifies before.Keys`expando
    ensures Mirrors(after) && after.Keys == before.Keys && Holds(after, kids) && Cached(after, kids, doneName)
    ensures IsAnswer(tree, kids, elem, IndexIn(before, elem), kind, r)
    ensures OrphansKept(tree, before, after)
  {
    var parent := tree.Step(elem, ParentNode);
    after := before;
    if parent != null {
      after := EnsureNumbered(tree, elem, parent, doneName, kids, before);
    }
    var index := if NODE_INDEX in elem.expando then Some(elem.expando[NODE_INDEX]) else None;
    match kind {
      case First =>
        r := Some(index == Some(1));
      case Last =>
        r := if parent == null then None else Some(index.Some? && index.value == parent.Number(doneName));
      case Only =>
        r := if parent == null then None else Some(parent.Number(doneName) == 1);
      case Nth(first, last) =>
        r := Some(NthTest(index, first, last));
    }
    if parent == null && kind.Nth? && index.Some? && kind.last.Some? {
      NthTestDecides(index.value, kind.first, kind.last.value);
    }
    if parent != null && elem in kids[parent] && elem.nodeType == 1 {
      forall i | 0 <= i < |kids[parent]| && kids[parent][i] == elem
        ensures r.Some? && (r.value <==> Selected(kind, Elements(kids[parent], i + 1), Elements(kids[parent], |kids[parent]|)))
      {
        RankIsPositive(kids[parent], i);
        if kind.Nth? && kind.last.Some? {
          NthTestDecides(Elements(kids[parent], i + 1), kind.first, kind.last.value);
        }
      }
    }
  }

  /** The first answers of a pass; the parents of all nodes are known. */
  ghost predicate Answers(tree: Tree, kids: map<Node, seq<Node>>, before: Expandos, elems: seq<Node>, kind: Kind,
                          answers: seq<bool>)
    requires forall n <- elems :: n in before
    requires forall n <- elems :: tree.Step(n, ParentNode) != null ==> tree.Step(n, ParentNode) in kids
  {
    && |answers| <= |elems|
    && forall k :: 0 <= k < |answers| ==>
         IsAnswer(tree, kids, elems[k], IndexIn(before, elems[k]), kind, Some(answers[k]))
  }

  /** The number of a node with a parent plays no part. */
  lemma SameAnswer(tree: Tree, kids: map<Node, seq<Node>>, before: Expandos, h: Expandos, elem: Node, kind: Kind,
                   r: Option<bool>)
    requires elem in before && OrphansKept(tree, before, h)
    requires tree.Step(elem, ParentNode) != null ==> tree.Step(elem, ParentNode) in kids
    requires IsAnswer(tree, kids, elem, IndexIn(h, elem), kind, r)
    ensures IsAnswer(tree, kids, elem, IndexIn(before, elem), kind, r)
  {
    if tree.Step(elem, ParentNode) == null {
      assert IndexIn(h, elem) == IndexIn(before, elem);
    }
  }

  lemma OneMoreAnswer(tree: Tree, kids: map<Node, seq<Node>>, before: Expandos, elems: seq<Node>, kind: Kind,
                      answers: seq<bool>, next: bool)
    requires (forall n <- elems :: n in before) && |answers| < |elems|
    requires forall n <- elems :: tree.Step(n, ParentNode) != null ==> tree.Step(n, ParentNode) in kids
    requires Answers(tree, kids, before, elems, kind, answers)
    requires IsAnswer(tree, kids, elems[|answers|], IndexIn(before, elems[|answers|]), kind, Some(next))
    ensures Answers(tree, kids, before, elems, kind, answers + [next])
  {}

  /** The loop of Sizzle.filter: one pass over a list of nodes, under a name that no node carries yet. It ends
      with an exception exactly when one of them lacks a parent that the filter needs; otherwise every answer
      is right, whatever nodeIndex numbers are left from earlier passes. */
  method FilterAll(tree: Tree, elems: seq<Node>, kind: Kind, doneName: string,
                   ghost kids: map<Node, seq<Node>>, ghost before: Expandos)
    returns (r: Option<seq<bool>>)
    requires Families(tree, kids) && doneName != NODE_INDEX && Mirrors(before) && Holds(before, kids)
    requires forall n <- before :: doneName !in before[n]
    requires forall n <- elems :: n in before
    requires forall n <- elems :: tree.Step(n, ParentNode) != null ==> tree.Step(n, ParentNode) in kids
    modifies before.Keys`expando
    ensures r.None? <==> (kind.Last? || kind.Only?) && exists n <- elems :: tree.Step(n, ParentNode) == null
    ensures r.Some? ==> |r.value| == |elems| && Answers(tree, kids, before, elems, kind, r.value)
  {
    var answers: seq<bool> := [];
    CachedAtStart(before, kids, doneName);
    ghost var h := before;
    for k := 0 to |elems|
      invariant |answers| == k && h.Keys == before.Keys
      invariant Mirrors(h) && Holds(h, kids) && Cached(h, kids, doneName)
      invariant OrphansKept(tree, before, h) && Answers(tree, kids, before, elems, kind, answers)
      invariant kind.Last? || kind.Only? ==> forall j :: 0 <= j < k ==> tree.Step(elems[j], ParentNode) != null
    {
      assert elems[k] in elems;
      var answer;
      ghost var after;
      answer, after := Filter(tree, elems[k], kind, doneName, kids, h);
      SameAnswer(tree, kids, before, h, elems[k], kind, answer);
      h := after;
      if answer.None? {
        return None;
      }
      OneMoreAnswer(tree, kids, before, elems, kind, answers, answer.value);
      answers := answers + [answer.value];
    }
    r := Some(answers);
  }

  lemma RankIsPositive(ks: seq<Node>, i: nat)
    requires i < |ks| && ks[i].nodeType == 1
    ensures 1 <= Elements(ks, i + 1) <= Elements(ks, |ks|)
  {
    ElementsGrow(ks, i + 1, |ks|);
  }
}
