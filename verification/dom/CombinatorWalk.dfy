/** dirNodeCheck and dirCheck: the walks behind the descendant and sibling combinators.
    Both leave marks on the nodes they pass, and stop at a mark left by an earlier slot. */
module CombinatorWalk {
  import opened Dom

  /** One entry of checkSet. */
  datatype Slot = False | True | Elem(node: Node)

  /** The second argument of dirCheck: a selector to filter with, or a node to meet. */
  datatype Part = Selector(matches: Node -> bool) | Exactly(node: Node)

  // --- the naive walk ----------------------------------------------------------

  /** The chains that one call walks: next[n] is n[dir], and verdict[n] is what the walk
      takes away from n. The ranks show that no chain comes back to a node. */
  datatype Forest = Forest(next: map<Node, Node?>, verdict: map<Node, Slot>, rank: map<Node, nat>)

  ghost predicate Acyclic(f: Forest) {
    && f.verdict.Keys == f.next.Keys == f.rank.Keys
    && forall n <- f.next :: f.next[n] != null ==> f.next[n] in f.next && f.rank[f.next[n]] < f.rank[n]
  }

  /** The walks end at null and at anything without a node type. */
  function Live(n: Node?): Node? {
    if n != null && n.nodeType != 0 then n else null
  }

  /** The forest has the links of the tree. */
  ghost predicate Follows(f: Forest, tree: Tree, dir: Dir) {
    && Acyclic(f)
    && forall n <- f.next :: StepIn(f, tree, dir, n)
  }

  ghost predicate StepIn(f: Forest, tree: Tree, dir: Dir, n: Node)
    requires Acyclic(f) && n in f.next
  {
    var m := tree.Step(n, dir);
    && f.next[n] == Live(m)
    && (m != null ==> m in f.rank && f.rank[m] < f.rank[n])
  }

  ghost predicate ByName(f: Forest, cur: string)
    requires Acyclic(f)
  {
    forall n <- f.next :: f.verdict[n] == if n.nodeName == cur then Elem(n) else False
  }

  /** dirCheck takes elements only: those that match, or the node itself. */
  ghost predicate ByPart(f: Forest, cur: Part)
    requires Acyclic(f)
  {
    forall n <- f.next ::
      f.verdict[n] ==
      if n.nodeType != 1 then False
      else if cur.Exactly? then if n == cur.node then True else False
      else if cur.matches(n) then Elem(n) else False
  }

  /** The naive walk: the first verdict along the chain, starting with n itself. */
  ghost function First(f: Forest, n: Node?): Slot
    requires Acyclic(f) && (n != null ==> n in f.next)
    decreases if n == null then 0 else 1 + f.rank[n]
  {
    if n == null then False
    else if f.verdict[n] != False then f.verdict[n]
    else First(f, f.next[n])
  }

  /** The node k steps along the chain. */
  ghost function Along(f: Forest, n: Node?, k: nat): (r: Node?)
    requires Acyclic(f) && (n != null ==> n in f.next)
    ensures r != null ==> r in f.next
    decreases k
  {
    if k == 0 || n == null then n else Along(f, f.next[n], k - 1)
  }

  ghost predicate MissesBefore(f: Forest, n: Node?, k: nat)
    requires Acyclic(f) && (n != null ==> n in f.next)
  {
    forall j: nat | j < k :: var m := Along(f, n, j); m == null || f.verdict[m] == False
  }

  /** The naive walk finds the nearest node with a verdict, and nothing when there is none. */
  lemma {:induction false} FirstIsNearest(f: Forest, n: Node?) returns (k: nat)
    requires Acyclic(f) && (n != null ==> n in f.next)
    ensures MissesBefore(f, n, k)
    ensures var m := Along(f, n, k);
            if m == null then First(f, n) == False else First(f, n) == f.verdict[m] != False
    decreases if n == null then 0 else 1 + f.rank[n]
  {
    if n == null || f.verdict[n] != False {
      k := 0;
    } else {
      var j := FirstIsNearest(f, f.next[n]);
      k := j + 1;
      forall i: nat | i < k
        ensures var m := Along(f, n, i); m == null || f.verdict[m] == False
      {
        if i > 0 {
          assert Along(f, n, i) == Along(f, f.next[n], i - 1);
        }
      }
    }
  }

  /** What a slot must become: the nearest match strictly beyond its node. */
  ghost function Expected(f: Forest, slot: Slot): Slot
    requires Acyclic(f) && (slot.Elem? ==> slot.node in f.next)
  {
    if slot.Elem? then First(f, f.next[slot.node]) else False
  }

  // --- the answers, by the links alone -----------------------------------------------

  /** The node k + 1 links beyond n, before the chain ends at null or at something without a node type. */
  ghost function Beyond(links: map<Node, Node?>, n: Node, k: nat): Node?
    decreases k
  {
    var from := if k == 0 then n else Beyond(links, n, k - 1);
    if from != null && from in links && links[from] != null && links[from].nodeType != 0 then links[from] else null
  }

  ghost predicate MissedAt(links: map<Node, Node?>, n: Node, hits: Node -> bool, k: nat) {
    var m := Beyond(links, n, k);
    m == null || !hits(m)
  }

  /** The nearest hit strictly beyond n, or false when there is none. */
  ghost predicate NearestHit(links: map<Node, Node?>, n: Node, hits: Node -> bool, r: Slot) {
    if r.Elem? then hits(r.node) && exists k :: HitAt(links, n, hits, r.node, k)
    else r == False && forall k: nat :: MissedAt(links, n, hits, k)
  }

  ghost predicate HitAt(links: map<Node, Node?>, n: Node, hits: Node -> bool, m: Node, k: nat) {
    Beyond(links, n, k) == m && forall j: nat | j < k :: MissedAt(links, n, hits, j)
  }

  /** An element that is met on the way. */
  ghost predicate Met(links: map<Node, Node?>, n: Node, m: Node) {
    m.nodeType == 1 && exists k :: Beyond(links, n, k) == m
  }

  ghost predicate NameAnswer(links: map<Node, Node?>, cur: string, was: Slot, now: Slot) {
    if was.Elem? then NearestHit(links, was.node, (e: Node) => e.nodeName == cur, now) else now == False
  }

  ghost predicate PartAnswer(links: map<Node, Node?>, cur: Part, was: Slot, now: Slot) {
    if !was.Elem? then now == False
    else if cur.Exactly? then now == if Met(links, was.node, cur.node) then True else False
    else
      var matches := cur.matches;
      NearestHit(links, was.node, (e: Node) => e.nodeType == 1 && matches(e), now)
  }

  function Links(tree: Tree, dir: Dir): map<Node, Node?> {
    match dir
    case ParentNode => tree.parentNode
    case PreviousSibling => tree.previousSibling
  }

  lemma {:induction false} AlongNext(f: Forest, n: Node?, k: nat)
    requires Acyclic(f) && (n != null ==> n in f.next)
    ensures Along(f, n, k + 1) == if Along(f, n, k) == null then null else f.next[Along(f, n, k)]
    decreases k
  {
    if k > 0 && n != null {
      AlongNext(f, f.next[n], k - 1);
    }
  }

  lemma {:induction false} AlongIsBeyond(f: Forest, tree: Tree, dir: Dir, n: Node, k: nat)
    requires Follows(f, tree, dir) && n in f.next
    ensures Along(f, f.next[n], k) == Beyond(Links(tree, dir), n, k)
    decreases k
  {
    assert StepIn(f, tree, dir, n);
    if k > 0 {
      AlongIsBeyond(f, tree, dir, n, k - 1);
      AlongNext(f, f.next[n], k - 1);
      var m := Along(f, f.next[n], k - 1);
      assert m != null ==> StepIn(f, tree, dir, m);
    }
  }

  lemma {:induction false} NothingBeyond(f: Forest, n: Node?, k: nat, i: nat)
    requires Acyclic(f) && (n != null ==> n in f.next) && Along(f, n, k) == null && k <= i
    ensures Along(f, n, i) == null
    decreases i
  {
    if k < i {
      NothingBeyond(f, n, k, i - 1);
      AlongNext(f, n, i - 1);
    }
  }

  /** The naive walk in terms of the links. */
  lemma FirstBeyond(f: Forest, tree: Tree, dir: Dir, n: Node) returns (k: nat)
    requires Follows(f, tree, dir) && n in f.next
    ensures var links, r := Links(tree, dir), First(f, f.next[n]);
            && (forall j: nat | j < k || r == False :: MissesAt(f, Beyond(links, n, j)))
            && (r != False ==> var m := Beyond(links, n, k); m != null && m in f.next && r == f.verdict[m])
  {
    k := FirstIsNearest(f, f.next[n]);
    var r := First(f, f.next[n]);
    AlongIsBeyond(f, tree, dir, n, k);
    forall j: nat | j < k || r == False
      ensures MissesAt(f, Beyond(Links(tree, dir), n, j))
    {
      AlongIsBeyond(f, tree, dir, n, j);
      if j >= k {
        NothingBeyond(f, f.next[n], k, j);
      }
    }
  }

  ghost predicate MissesAt(f: Forest, m: Node?)
    requires Acyclic(f)
  {
    m == null || (m in f.next && f.verdict[m] == False)
  }

  lemma NameAnswered(f: Forest, tree: Tree, dir: Dir, cur: string, was: Slot)
    requires Follows(f, tree, dir) && ByName(f, cur) && (was.Elem? ==> was.node in f.next)
    ensures NameAnswer(Links(tree, dir), cur, was, Expected(f, was))
  {
    if was.Elem? {
      var links, n, r := Links(tree, dir), was.node, Expected(f, was);
      var hits := (e: Node) => e.nodeName == cur;
      var k := FirstBeyond(f, tree, dir, n);
      forall j: nat | j < k || r == False
        ensures MissedAt(links, n, hits, j)
      {
        assert MissesAt(f, Beyond(links, n, j));
      }
      if r != False {
        assert HitAt(links, n, hits, r.node, k);
      }
    }
  }

  lemma SelectorAnswered(f: Forest, tree: Tree, dir: Dir, matches: Node -> bool, was: Slot)
    requires Follows(f, tree, dir) && ByPart(f, Selector(matches)) && (was.Elem? ==> was.node in f.next)
    ensures PartAnswer(Links(tree, dir), Selector(matches), was, Expected(f, was))
  {
    if was.Elem? {
      var links, n, r := Links(tree, dir), was.node, Expected(f, was);
      var hits := (e: Node) => e.nodeType == 1 && matches(e);
      var k := FirstBeyond(f, tree, dir, n);
      forall j: nat | j < k || r == False
        ensures MissedAt(links, n, hits, j)
      {
        assert MissesAt(f, Beyond(links, n, j));
      }
      if r != False {
        assert HitAt(links, n, hits, r.node, k);
      }
    }
  }

  lemma NodeAnswered(f: Forest, tree: Tree, dir: Dir, m: Node, was: Slot)
    requires Follows(f, tree, dir) && ByPart(f, Exactly(m)) && (was.Elem? ==> was.node in f.next)
    ensures PartAnswer(Links(tree, dir), Exactly(m), was, Expected(f, was))
  {
    if was.Elem? {
      var links, n := Links(tree, dir), was.node;
      var k := FirstBeyond(f, tree, dir, n);
    }
  }

  // --- marks -------------------------------------------------------------------

  /** Marks other than 0 name an earlier slot whose answer is also the answer from the marked node. */
  ghost predicate MarksTrue(f: Forest, h: Expandos, name: string, slots: seq<Slot>, i: nat)
    requires Acyclic(f) && h.Keys == f.next.Keys && i <= |slots|
  {
    forall n <- h :: NumberIn(h, n, name) > 0 ==>
                       NumberIn(h, n, name) < i && First(f, n) == slots[NumberIn(h, n, name)]
  }

  /** The same during the walk of slot i, which will get this answer and has passed
      only nodes of at least the given rank. */
  ghost predicate MarksDuring(f: Forest, h: Expandos, name: string, slots: seq<Slot>, i: nat, answer: Slot, rank: nat)
    requires Acyclic(f) && h.Keys == f.next.Keys && i < |slots|
  {
    forall n <- h :: NumberIn(h, n, name) > 0 ==>
                       if NumberIn(h, n, name) == i then First(f, n) == answer && rank <= f.rank[n]
                       else NumberIn(h, n, name) < i && First(f, n) == slots[NumberIn(h, n, name)]
  }

  /** Where the walk of slot i stands: elem is next, and answer is what it will find. */
  ghost predicate Walking(f: Forest, h: Expandos, name: string, slots: seq<Slot>, i: nat, answer: Slot, elem: Node?)
    requires Acyclic(f) && i < |slots|
  {
    && h.Keys == f.next.Keys
    && (elem != null ==> elem in f.next)
    && First(f, Live(elem)) == answer
    && MarksDuring(f, h, name, slots, i, answer, if elem == null then 0 else f.rank[elem] + 1)
  }

  /** The walk marks elem. */
  lemma WalkMarks(f: Forest, h: Expandos, name: string, slots: seq<Slot>, i: nat, answer: Slot, elem: Node)
    requires Acyclic(f) && i < |slots| && elem.nodeType != 0
    requires Walking(f, h, name, slots, i, answer, elem)
    ensures MarksDuring(f, WithNumber(h, elem, name, i), name, slots, i, answer, f.rank[elem])
  {
    var h' := WithNumber(h, elem, name, i);
    forall n | n in h' && NumberIn(h', n, name) > 0
      ensures if NumberIn(h', n, name) == i then First(f, n) == answer && f.rank[elem] <= f.rank[n]
              else NumberIn(h', n, name) < i && First(f, n) == slots[NumberIn(h', n, name)]
    {
      if n != elem {
        assert NumberIn(h', n, name) == NumberIn(h, n, name);
      }
    }
  }

  /** Once the walk is over, what it has passed no longer matters. */
  lemma WalkOver(f: Forest, h: Expandos, name: string, slots: seq<Slot>, i: nat, answer: Slot, rank: nat)
    requires Acyclic(f) && h.Keys == f.next.Keys && i < |slots|
    requires MarksDuring(f, h, name, slots, i, answer, rank)
    ensures MarksDuring(f, h, name, slots, i, answer, 0)
  {}

  /** A mark that the walk meets already holds its answer. */
  lemma WalkMeetsMark(f: Forest, h: Expandos, name: string, slots: seq<Slot>, i: nat, answer: Slot, elem: Node)
    requires Acyclic(f) && i < |slots| && elem.nodeType != 0
    requires Walking(f, h, name, slots, i, answer, elem) && NumberIn(h, elem, name) > 0
    ensures NumberIn(h, elem, name) < i && slots[NumberIn(h, elem, name)] == answer
    ensures MarksDuring(f, h, name, slots, i, answer, 0)
  {}

  /** The walk goes on behind an elem without a verdict. */
  lemma WalkOn(f: Forest, tree: Tree, dir: Dir, h: Expandos, name: string, slots: seq<Slot>, i: nat, answer: Slot,
               elem: Node)
    requires Follows(f, tree, dir) && i < |slots| && elem.nodeType != 0
    requires h.Keys == f.next.Keys && elem in h && First(f, elem) == answer && f.verdict[elem] == False
    requires MarksDuring(f, h, name, slots, i, answer, f.rank[elem])
    ensures Walking(f, h, name, slots, i, answer, tree.Step(elem, dir))
    ensures tree.Step(elem, dir) != null ==> f.rank[tree.Step(elem, dir)] < f.rank[elem]
  {
    assert StepIn(f, tree, dir, elem);
  }

  // --- what the marks cover ---------------------------------------------------------

  ghost predicate Passed(h: Expandos, name: string, n: Node)
    requires n in h
  {
    n.nodeType == 1 ==> name in h[n]
  }

  /** From n on, every element that the naive walk visits carries a mark. */
  ghost predicate Covered(f: Forest, h: Expandos, name: string, n: Node?)
    requires Acyclic(f) && h.Keys == f.next.Keys && (n != null ==> n in f.next)
    decreases if n == null then 0 else 1 + f.rank[n]
  {
    n == null || (Passed(h, name, n) && (f.verdict[n] == False ==> Covered(f, h, name, f.next[n])))
  }

  /** So does every element from n to t, t excluded, and none of them is a match. */
  ghost predicate CoveredTo(f: Forest, h: Expandos, name: string, n: Node?, t: Node?)
    requires Acyclic(f) && h.Keys == f.next.Keys && (n != null ==> n in f.next)
    decreases if n == null then 0 else 1 + f.rank[n]
  {
    n == t || (n != null && Passed(h, name, n) && f.verdict[n] == False && CoveredTo(f, h, name, f.next[n], t))
  }

  ghost predicate AllCover(f: Forest, h: Expandos, name: string)
    requires Acyclic(f) && h.Keys == f.next.Keys
  {
    forall n <- h :: name in h[n] ==> Covered(f, h, name, n)
  }

  /** The same in a walk that has come to t; it has marked only nodes of at least the given rank. */
  ghost predicate WalkCovers(f: Forest, h: Expandos, name: string, start: Node?, t: Node?, rank: nat)
    requires Acyclic(f) && h.Keys == f.next.Keys && (start != null ==> start in f.next)
  {
    && CoveredTo(f, h, name, start, t)
    && forall n <- h :: name in h[n] ==> Covered(f, h, name, n) || (rank <= f.rank[n] && CoveredTo(f, h, name, n, t))
  }

  lemma {:induction false} CoveredMore(f: Forest, h: Expandos, h': Expandos, name: string, n: Node?)
    requires Acyclic(f) && h.Keys == h'.Keys == f.next.Keys && (n != null ==> n in f.next)
    requires forall m <- h :: name in h[m] ==> name in h'[m]
    ensures Covered(f, h, name, n) ==> Covered(f, h', name, n)
    decreases if n == null then 0 else 1 + f.rank[n]
  {
    if n != null && f.verdict[n] == False {
      CoveredMore(f, h, h', name, f.next[n]);
    }
  }

  lemma {:induction false} CoveredToMore(f: Forest, h: Expandos, h': Expandos, name: string, n: Node?, t: Node?)
    requires Acyclic(f) && h.Keys == h'.Keys == f.next.Keys && (n != null ==> n in f.next)
    requires forall m <- h :: name in h[m] ==> name in h'[m]
    ensures CoveredTo(f, h, name, n, t) ==> CoveredTo(f, h', name, n, t)
    decreases if n == null then 0 else 1 + f.rank[n]
  {
    if n != null && n != t && f.verdict[n] == False {
      CoveredToMore(f, h, h', name, f.next[n], t);
    }
  }

  lemma {:induction false} CoveredToNext(f: Forest, h: Expandos, name: string, n: Node?, t: Node)
    requires Acyclic(f) && h.Keys == f.next.Keys && (n != null ==> n in f.next)
    requires t in f.next && Passed(h, name, t) && f.verdict[t] == False
    ensures CoveredTo(f, h, name, n, t) ==> CoveredTo(f, h, name, n, f.next[t])
    decreases if n == null then 0 else 1 + f.rank[n]
  {
    if n != null && n != t && f.verdict[n] == False {
      CoveredToNext(f, h, name, f.next[n], t);
    }
  }

  lemma {:induction false} CoveredThrough(f: Forest, h: Expandos, name: string, n: Node?, t: Node?)
    requires Acyclic(f) && h.Keys == f.next.Keys && (n != null ==> n in f.next) && (t != null ==> t in f.next)
    requires Covered(f, h, name, t)
    ensures CoveredTo(f, h, name, n, t) ==> Covered(f, h, name, n)
    decreases if n == null then 0 else 1 + f.rank[n]
  {
    if n != null && n != t && f.verdict[n] == False {
      CoveredThrough(f, h, name, f.next[n], t);
    }
  }

  /** The walk marks an element. */
  lemma CoverMark(f: Forest, h: Expandos, name: string, i: nat, start: Node?, elem: Node)
    requires Acyclic(f) && h.Keys == f.next.Keys && (start != null ==> start in f.next) && elem in f.next
    requires WalkCovers(f, h, name, start, elem, f.rank[elem] + 1)
    ensures WalkCovers(f, WithNumber(h, elem, name, i), name, start, elem, f.rank[elem])
  {
    var h' := WithNumber(h, elem, name, i);
    CoveredToMore(f, h, h', name, start, elem);
    forall n | n in h' && name in h'[n]
      ensures Covered(f, h', name, n) || (f.rank[elem] <= f.rank[n] && CoveredTo(f, h', name, n, elem))
    {
      if n != elem {
        assert name in h[n];
        CoveredMore(f, h, h', name, n);
        CoveredToMore(f, h, h', name, n, elem);
      }
    }
  }

  /** The walk goes on behind it. */
  lemma CoverOn(f: Forest, tree: Tree, dir: Dir, h: Expandos, name: string, start: Node?, elem: Node)
    requires Follows(f, tree, dir) && h.Keys == f.next.Keys && (start != null ==> start in f.next) && elem in f.next
    requires WalkCovers(f, h, name, start, elem, f.rank[elem]) && Passed(h, name, elem) && f.verdict[elem] == False
    ensures var next := tree.Step(elem, dir);
            (next != null ==> next in f.rank)
            && WalkCovers(f, h, name, start, Live(next), if next == null then 0 else f.rank[next] + 1)
  {
    assert StepIn(f, tree, dir, elem);
    CoveredToNext(f, h, name, start, elem);
    forall n | n in h && name in h[n]
      ensures Covered(f, h, name, n) || (f.rank[elem] <= f.rank[n] && CoveredTo(f, h, name, n, f.next[elem]))
    {
      CoveredToNext(f, h, name, n, elem);
    }
  }

  /** The walk ends where everything further on is covered. */
  lemma CoverEnd(f: Forest, h: Expandos, name: string, start: Node?, t: Node?, rank: nat)
    requires Acyclic(f) && h.Keys == f.next.Keys && (start != null ==> start in f.next) && (t != null ==> t in f.next)
    requires WalkCovers(f, h, name, start, t, rank) && Covered(f, h, name, t)
    ensures AllCover(f, h, name) && Covered(f, h, name, start)
  {
    CoveredThrough(f, h, name, start, t);
    forall n | n in h && name in h[n]
      ensures Covered(f, h, name, n)
    {
      CoveredThrough(f, h, name, n, t);
    }
  }

  /** The walks of the first i slots have left their marks. */
  ghost predicate SlotsCovered(f: Forest, h: Expandos, name: string, was: seq<Slot>, i: nat)
    requires Acyclic(f) && h.Keys == f.next.Keys && SlotsIn(was, f.next.Keys) && i <= |was|
  {
    forall j :: 0 <= j < i ==> SlotCovered(f, h, name, was, j)
  }

  ghost predicate SlotCovered(f: Forest, h: Expandos, name: string, was: seq<Slot>, j: nat)
    requires Acyclic(f) && h.Keys == f.next.Keys && SlotsIn(was, f.next.Keys) && j < |was|
  {
    assert was[j] in was;
    was[j].Elem? ==> Covered(f, h, name, f.next[was[j].node])
  }

  lemma OneMoreCovered(f: Forest, h: Expandos, h': Expandos, name: string, was: seq<Slot>, i: nat)
    requires Acyclic(f) && h.Keys == h'.Keys == f.next.Keys && SlotsIn(was, f.next.Keys) && i < |was|
    requires forall m <- h :: name in h[m] ==> name in h'[m]
    requires SlotsCovered(f, h, name, was, i) && SlotCovered(f, h', name, was, i)
    ensures SlotsCovered(f, h', name, was, i + 1)
  {
    forall j | 0 <= j < i
      ensures SlotCovered(f, h', name, was, j)
    {
      assert was[j] in was && SlotCovered(f, h, name, was, j);
      if was[j].Elem? {
        CoveredMore(f, h, h', name, f.next[was[j].node]);
      }
    }
  }

  ghost predicate SlotsIn(slots: seq<Slot>, nodes: set<Node>) {
    forall s <- slots :: s.Elem? ==> s.node in nodes
  }

  /** The slots before i have their answers, the others are as they were. */
  ghost predicate Answered(f: Forest, was: seq<Slot>, now: seq<Slot>, i: nat)
    requires Acyclic(f) && SlotsIn(was, f.next.Keys)
  {
    && i <= |was| == |now|
    && (forall j :: 0 <= j < i ==> now[j] == ExpectedAt(f, was, j))
    && (forall j :: i <= j < |was| ==> now[j] == was[j])
  }

  ghost function ExpectedAt(f: Forest, was: seq<Slot>, j: nat): Slot
    requires Acyclic(f) && SlotsIn(was, f.next.Keys) && j < |was|
  {
    assert was[j] in was;
    Expected(f, was[j])
  }

  lemma SlotDone(f: Forest, h: Expandos, name: string, was: seq<Slot>, now: seq<Slot>, i: nat, next: seq<Slot>)
    requires Acyclic(f) && h.Keys == f.next.Keys && SlotsIn(was, f.next.Keys) && i < |was| == |now| == |next|
    requires next == now[i := next[i]] && next[i] == ExpectedAt(f, was, i)
    requires Answered(f, was, now, i) && MarksDuring(f, h, name, now, i, next[i], 0)
    ensures Answered(f, was, next, i + 1) && MarksTrue(f, h, name, next, i + 1)
  {}

  lemma SlotSkipped(f: Forest, h: Expandos, name: string, was: seq<Slot>, now: seq<Slot>, i: nat)
    requires Acyclic(f) && h.Keys == f.next.Keys && SlotsIn(was, f.next.Keys) && i < |was|
    requires Answered(f, was, now, i) && MarksTrue(f, h, name, now, i) && now[i] == False
    ensures Answered(f, was, now, i + 1) && MarksTrue(f, h, name, now, i + 1)
  {}

  lemma SkippedCovered(f: Forest, h: Expandos, name: string, was: seq<Slot>, now: seq<Slot>, i: nat)
    requires Acyclic(f) && h.Keys == f.next.Keys && SlotsIn(was, f.next.Keys) && i < |was|
    requires Answered(f, was, now, i) && SlotsCovered(f, h, name, was, i) && now[i] == False
    ensures SlotsCovered(f, h, name, was, i + 1)
  {}

  /** No node carries a number of this name yet. */
  ghost predicate Fresh(h: Expandos, name: string) { forall n <- h :: name !in h[n] }

  /** Only numbers of this name differ, on elements, and in XML none; no mark is taken away. */
  ghost predicate MarksOnly(before: Expandos, after: Expandos, name: string, isXML: bool) {
    && OthersKept(before, after, {name})
    && (forall n <- before :: isXML || n.nodeType != 1 ==> after[n] == before[n])
    && forall n <- before :: name in before[n] ==> name in after[n]
  }

  lemma MarksOnlyThrough(a: Expandos, b: Expandos, c: Expandos, name: string, isXML: bool)
    requires MarksOnly(a, b, name, isXML) && MarksOnly(b, c, name, isXML)
    ensures MarksOnly(a, c, name, isXML)
  {
    OthersKeptThrough(a, b, c, {name});
  }

  /** checkSet[i] = found */
  method SetSlot(checkSet: array<Slot>, i: nat, found: Slot, ghost h: Expandos)
    requires i < checkSet.Length && Mirrors(h)
    modifies checkSet
    ensures checkSet[..] == old(checkSet[..])[i := found] && Mirrors(h)
  {
    checkSet[i] := found;
  }

  /** elem[doneName] = i, in the walk of slot i */
  method LeaveMark(elem: Node, name: string, slots: seq<Slot>, i: nat,
                   ghost f: Forest, ghost answer: Slot, ghost before: Expandos, ghost h: Expandos, ghost start: Node?)
    returns (ghost after: Expandos)
    requires Acyclic(f) && i < |slots| && elem.nodeType == 1
    requires Walking(f, h, name, slots, i, answer, elem)
    requires start != null ==> start in f.next
    requires WalkCovers(f, h, name, start, elem, f.rank[elem] + 1)
    requires Mirrors(h) && MarksOnly(before, h, name, false)
    modifies elem`expando
    ensures Mirrors(after) && MarksOnly(before, after, name, false) && after.Keys == f.next.Keys
    ensures MarksDuring(f, after, name, slots, i, answer, f.rank[elem])
    ensures WalkCovers(f, after, name, start, elem, f.rank[elem]) && Passed(after, name, elem)
  {
    WithNumberKeepsOthers(before, h, elem, name, i, {name});
    CoverMark(f, h, name, i, start, elem);
    WalkMarks(f, h, name, slots, i, answer, elem);
    after := SetNumber(elem, name, i, h);
  }

  /** One round of the inner loop of dirNodeCheck, in the walk of slot i. */
  method VisitForName(elem: Node, cur: string, doneName: string, slots: seq<Slot>, i: nat, isXML: bool,
                      ghost f: Forest, ghost answer: Slot, ghost before: Expandos, ghost h: Expandos, ghost start: Node?)
    returns (stop: bool, found: Slot, ghost after: Expandos)
    requires Acyclic(f) && ByName(f, cur) && i < |slots| && elem.nodeType != 0
    requires Walking(f, h, doneName, slots, i, answer, elem)
    requires start != null ==> start in f.next
    requires !isXML ==> WalkCovers(f, h, doneName, start, elem, f.rank[elem] + 1)
    requires Mirrors(h) && MarksOnly(before, h, doneName, isXML)
    modifies f.next.Keys`expando
    ensures Mirrors(after) && MarksOnly(before, after, doneName, isXML) && after.Keys == f.next.Keys
    ensures if stop then found == answer && MarksDuring(f, after, doneName, slots, i, answer, 0)
            else f.verdict[elem] == False && MarksDuring(f, after, doneName, slots, i, answer, f.rank[elem])
    ensures !isXML ==>
              if stop then AllCover(f, after, doneName) && Covered(f, after, doneName, start)
              else WalkCovers(f, after, doneName, start, elem, f.rank[elem]) && Passed(after, doneName, elem)
  {
    after := h;
    found := False;
    var done := elem.Number(doneName);
    if done != 0 {
      WalkMeetsMark(f, h, doneName, slots, i, answer, elem);
      if !isXML {
        CoverEnd(f, h, doneName, start, elem, f.rank[elem] + 1);
      }
      return true, slots[done], h;
    }
    if elem.nodeType == 1 && !isXML {
      after := LeaveMark(elem, doneName, slots, i, f, answer, before, h, start);
    }
    stop := elem.nodeName == cur;
    if stop {
      found := Elem(elem);
      WalkOver(f, after, doneName, slots, i, answer, f.rank[elem]);
      if !isXML {
        CoverEnd(f, after, doneName, start, elem, f.rank[elem]);
      }
    }
  }

  /** The inner loop of dirNodeCheck, for slot i. */
  method WalkToName(tree: Tree, start: Node?, dir: Dir, cur: string, doneName: string, slots: seq<Slot>, i: nat,
                    isXML: bool, ghost f: Forest, ghost before: Expandos)
    returns (found: Slot, ghost after: Expandos)
    requires Follows(f, tree, dir) && ByName(f, cur)
    requires i < |slots| && (start != null ==> start in f.next)
    requires before.Keys == f.next.Keys && Mirrors(before) && MarksTrue(f, before, doneName, slots, i)
    requires !isXML ==> AllCover(f, before, doneName)
    modifies f.next.Keys`expando
    ensures found == First(f, Live(start))
    ensures Mirrors(after) && MarksOnly(before, after, doneName, isXML)
    ensures MarksDuring(f, after, doneName, slots, i, found, 0)
    ensures !isXML ==> AllCover(f, after, doneName) && Covered(f, after, doneName, Live(start))
  {
    ghost var answer := First(f, Live(start));
    var elem := start;
    after := before;
    while elem != null && elem.nodeType != 0
      invariant Walking(f, after, doneName, slots, i, answer, elem)
      invariant Mirrors(after) && MarksOnly(before, after, doneName, isXML)
      invariant !isXML ==>
                  WalkCovers(f, after, doneName, Live(start), Live(elem), if elem == null then 0 else f.rank[elem] + 1)
      decreases if elem == null then 0 else 1 + f.rank[elem]
    {
      var stop;
      stop, found, after := VisitForName(elem, cur, doneName, slots, i, isXML, f, answer, before, after, Live(start));
      if stop {
        return;
      }
      if !isXML {
        CoverOn(f, tree, dir, after, doneName, Live(start), elem);
      }
      WalkOn(f, tree, dir, after, doneName, slots, i, answer, elem);
      elem := tree.Step(elem, dir);
    }
    found := False;
    WalkOver(f, after, doneName, slots, i, answer, if elem == null then 0 else f.rank[elem] + 1);
    if !isXML {
      CoverEnd(f, after, doneName, Live(start), null, if elem == null then 0 else f.rank[elem] + 1);
    }
  }

  /** One round of the loop of dirNodeCheck: slot i, when it is neither false nor empty. */
  method AnswerName(tree: Tree, dir: Dir, cur: string, doneName: string, checkSet: array<Slot>, i: nat, isXML: bool,
                    ghost f: Forest, ghost slots: seq<Slot>, ghost before: Expandos, ghost h: Expandos)
    returns (ghost after: Expandos)
    requires Follows(f, tree, dir) && ByName(f, cur) && SlotsIn(slots, f.next.Keys)
    requires h.Keys == f.next.Keys && Mirrors(h) && MarksOnly(before, h, doneName, isXML)
    requires i < checkSet.Length && checkSet[i] != False
    requires Answered(f, slots, checkSet[..], i) && MarksTrue(f, h, doneName, checkSet[..], i)
    requires !isXML ==> AllCover(f, h, doneName) && SlotsCovered(f, h, doneName, slots, i)
    modifies checkSet, f.next.Keys`expando
    ensures Mirrors(after) && MarksOnly(before, after, doneName, isXML) && after.Keys == f.next.Keys
    ensures !isXML ==> AllCover(f, after, doneName) && SlotsCovered(f, after, doneName, slots, i + 1)
    ensures Answered(f, slots, checkSet[..], i + 1) && MarksTrue(f, after, doneName, checkSet[..], i + 1)
  {
    ghost var now := checkSet[..];
    assert now[i] == slots[i] && slots[i] in slots;
    var elem := if checkSet[i].Elem? then tree.Step(checkSet[i].node, dir) else null;
    var found;
    found, after := WalkToName(tree, elem, dir, cur, doneName, checkSet[..], i, isXML, f, h);
    MarksOnlyThrough(before, h, after, doneName, isXML);
    if !isXML {
      assert checkSet[i].Elem? ==> StepIn(f, tree, dir, checkSet[i].node);
      OneMoreCovered(f, h, after, doneName, slots, i);
    }
    SetSlot(checkSet, i, found, after);
    SlotDone(f, after, doneName, slots, now, i, checkSet[..]);
  }

  lemma AllNamesAnswered(f: Forest, tree: Tree, dir: Dir, cur: string, was: seq<Slot>, now: seq<Slot>)
    requires Follows(f, tree, dir) && ByName(f, cur) && SlotsIn(was, f.next.Keys) && Answered(f, was, now, |was|)
    ensures forall j :: 0 <= j < |was| ==> NameAnswer(Links(tree, dir), cur, was[j], now[j])
  {
    forall j | 0 <= j < |was|
      ensures NameAnswer(Links(tree, dir), cur, was[j], now[j])
    {
      assert was[j] in was;
      NameAnswered(f, tree, dir, cur, was[j]);
    }
  }

  /** dirNodeCheck: for every candidate the nearest node along dir with the given name. */
  method DirNodeCheck(tree: Tree, dir: Dir, cur: string, doneName: string, checkSet: array<Slot>, isXML: bool,
                      ghost f: Forest, ghost before: Expandos)
    returns (ghost after: Expandos)
    requires Follows(f, tree, dir) && ByName(f, cur) && SlotsIn(checkSet[..], f.next.Keys)
    requires before.Keys == f.next.Keys && Mirrors(before) && Fresh(before, doneName)
    modifies checkSet, f.next.Keys`expando
    ensures forall j :: 0 <= j < checkSet.Length ==> NameAnswer(Links(tree, dir), cur, old(checkSet[..])[j], checkSet[j])
    ensures after.Keys == f.next.Keys && (!isXML ==> SlotsCovered(f, after, doneName, old(checkSet[..]), checkSet.Length))
    ensures Mirrors(after) && MarksOnly(before, after, doneName, isXML)
  {
    ghost var slots := checkSet[..];
    after := before;
    var i := 0;
    while i < checkSet.Length
      invariant 0 <= i <= checkSet.Length
      invariant Answered(f, slots, checkSet[..], i)
      invariant Mirrors(after) && MarksOnly(before, after, doneName, isXML)
      invariant !isXML ==> AllCover(f, after, doneName) && SlotsCovered(f, after, doneName, slots, i)
      invariant MarksTrue(f, after, doneName, checkSet[..], i)
    {
      if checkSet[i] != False {
        after := AnswerName(tree, dir, cur, doneName, checkSet, i, isXML, f, slots, before, after);
      } else {
        SlotSkipped(f, after, doneName, slots, checkSet[..], i);
        if !isXML {
          SkippedCovered(f, after, doneName, slots, checkSet[..], i);
        }
      }
      i := i + 1;
    }
    AllNamesAnswered(f, tree, dir, cur, slots, checkSet[..]);
  }

  /** One round of the inner loop of dirCheck, in the walk of slot i. */
  method VisitForPart(elem: Node, cur: Part, doneName: string, slots: seq<Slot>, i: nat, isXML: bool,
                      ghost f: Forest, ghost answer: Slot, ghost before: Expandos, ghost h: Expandos, ghost start: Node?)
    returns (stop: bool, found: Slot, ghost after: Expandos)
    requires Acyclic(f) && ByPart(f, cur) && i < |slots| && elem.nodeType != 0
    requires Walking(f, h, doneName, slots, i, answer, elem)
    requires start != null ==> start in f.next
    requires !isXML ==> WalkCovers(f, h, doneName, start, elem, f.rank[elem] + 1)
    requires Mirrors(h) && MarksOnly(before, h, doneName, isXML)
    modifies f.next.Keys`expando
    ensures Mirrors(after) && MarksOnly(before, after, doneName, isXML) && after.Keys == f.next.Keys
    ensures if stop then found == answer && MarksDuring(f, after, doneName, slots, i, answer, 0)
            else f.verdict[elem] == False && MarksDuring(f, after, doneName, slots, i, answer, f.rank[elem])
    ensures !isXML ==>
              if stop then AllCover(f, after, doneName) && Covered(f, after, doneName, start)
              else WalkCovers(f, after, doneName, start, elem, f.rank[elem]) && Passed(after, doneName, elem)
  {
    after := h;
    found := False;
    if elem.Number(doneName) != 0 {
      WalkMeetsMark(f, h, doneName, slots, i, answer, elem);
      if !isXML {
        CoverEnd(f, h, doneName, start, elem, f.rank[elem] + 1);
      }
      return true, slots[elem.Number(doneName)], h;
    }
    if elem.nodeType == 1 {
      if !isXML {
        after := LeaveMark(elem, doneName, slots, i, f, answer, before, h, start);
      }
      match cur {
        case Exactly(m) => found := if elem == m then True else False;
        case Selector(matches) => found := if matches(elem) then Elem(elem) else False;
      }
    }
    stop := found != False;
    if stop {
      WalkOver(f, after, doneName, slots, i, answer, f.rank[elem]);
      if !isXML {
        CoverEnd(f, after, doneName, start, elem, f.rank[elem]);
      }
    }
  }

  /** The inner loop of dirCheck, for slot i. */
  method WalkToPart(tree: Tree, start: Node?, dir: Dir, cur: Part, doneName: string, slots: seq<Slot>, i: nat,
                    isXML: bool, ghost f: Forest, ghost before: Expandos)
    returns (found: Slot, ghost after: Expandos)
    requires Follows(f, tree, dir) && ByPart(f, cur)
    requires i < |slots| && (start != null ==> start in f.next)
    requires before.Keys == f.next.Keys && Mirrors(before) && MarksTrue(f, before, doneName, slots, i)
    requires !isXML ==> AllCover(f, before, doneName)
    modifies f.next.Keys`expando
    ensures found == First(f, Live(start))
    ensures Mirrors(after) && MarksOnly(before, after, doneName, isXML)
    ensures MarksDuring(f, after, doneName, slots, i, found, 0)
    ensures !isXML ==> AllCover(f, after, doneName) && Covered(f, after, doneName, Live(start))
  {
    ghost var answer := First(f, Live(start));
    var elem := start;
    after := before;
    while elem != null && elem.nodeType != 0
      invariant Walking(f, after, doneName, slots, i, answer, elem)
      invariant Mirrors(after) && MarksOnly(before, after, doneName, isXML)
      invariant !isXML ==>
                  WalkCovers(f, after, doneName, Live(start), Live(elem), if elem == null then 0 else f.rank[elem] + 1)
      decreases if elem == null then 0 else 1 + f.rank[elem]
    {
      var stop;
      stop, found, after := VisitForPart(elem, cur, doneName, slots, i, isXML, f, answer, before, after, Live(start));
      if stop {
        return;
      }
      if !isXML {
        CoverOn(f, tree, dir, after, doneName, Live(start), elem);
      }
      WalkOn(f, tree, dir, after, doneName, slots, i, answer, elem);
      elem := tree.Step(elem, dir);
    }
    found := False;
    WalkOver(f, after, doneName, slots, i, answer, if elem == null then 0 else f.rank[elem] + 1);
    if !isXML {
      CoverEnd(f, after, doneName, Live(start), null, if elem == null then 0 else f.rank[elem] + 1);
    }
  }

  /** One round of the loop of dirCheck: slot i, when it is neither false nor empty. */
  method AnswerPart(tree: Tree, dir: Dir, cur: Part, doneName: string, checkSet: array<Slot>, i: nat, isXML: bool,
                    ghost f: Forest, ghost slots: seq<Slot>, ghost before: Expandos, ghost h: Expandos)
    returns (ghost after: Expandos)
    requires Follows(f, tree, dir) && ByPart(f, cur) && SlotsIn(slots, f.next.Keys)
    requires h.Keys == f.next.Keys && Mirrors(h) && MarksOnly(before, h, doneName, isXML)
    requires i < checkSet.Length && checkSet[i] != False
    requires Answered(f, slots, checkSet[..], i) && MarksTrue(f, h, doneName, checkSet[..], i)
    requires !isXML ==> AllCover(f, h, doneName) && SlotsCovered(f, h, doneName, slots, i)
    modifies checkSet, f.next.Keys`expando
    ensures Mirrors(after) && MarksOnly(before, after, doneName, isXML) && after.Keys == f.next.Keys
    ensures !isXML ==> AllCover(f, after, doneName) && SlotsCovered(f, after, doneName, slots, i + 1)
    ensures Answered(f, slots, checkSet[..], i + 1) && MarksTrue(f, after, doneName, checkSet[..], i + 1)
  {
    ghost var now := checkSet[..];
    assert now[i] == slots[i] && slots[i] in slots;
    var elem := if checkSet[i].Elem? then tree.Step(checkSet[i].node, dir) else null;
    var found;
    found, after := WalkToPart(tree, elem, dir, cur, doneName, checkSet[..], i, isXML, f, h);
    MarksOnlyThrough(before, h, after, doneName, isXML);
    if !isXML {
      assert checkSet[i].Elem? ==> StepIn(f, tree, dir, checkSet[i].node);
      OneMoreCovered(f, h, after, doneName, slots, i);
    }
    SetSlot(checkSet, i, found, after);
    SlotDone(f, after, doneName, slots, now, i, checkSet[..]);
  }

  lemma AllPartsAnswered(f: Forest, tree: Tree, dir: Dir, cur: Part, was: seq<Slot>, now: seq<Slot>)
    requires Follows(f, tree, dir) && ByPart(f, cur) && SlotsIn(was, f.next.Keys) && Answered(f, was, now, |was|)
    ensures forall j :: 0 <= j < |was| ==> PartAnswer(Links(tree, dir), cur, was[j], now[j])
  {
    forall j | 0 <= j < |was|
      ensures PartAnswer(Links(tree, dir), cur, was[j], now[j])
    {
      assert was[j] in was;
      match cur
      case Selector(matches) => SelectorAnswered(f, tree, dir, matches, was[j]);
      case Exactly(m) => NodeAnswered(f, tree, dir, m, was[j]);
    }
  }

  /** dirCheck: for every candidate the nearest element along dir that meets the part. */
  method DirCheck(tree: Tree, dir: Dir, cur: Part, doneName: string, checkSet: array<Slot>, isXML: bool,
                  ghost f: Forest, ghost before: Expandos)
    returns (ghost after: Expandos)
    requires Follows(f, tree, dir) && ByPart(f, cur) && SlotsIn(checkSet[..], f.next.Keys)
    requires before.Keys == f.next.Keys && Mirrors(before) && Fresh(before, doneName)
    modifies checkSet, f.next.Keys`expando
    ensures forall j :: 0 <= j < checkSet.Length ==> PartAnswer(Links(tree, dir), cur, old(checkSet[..])[j], checkSet[j])
    ensures after.Keys == f.next.Keys && (!isXML ==> SlotsCovered(f, after, doneName, old(checkSet[..]), checkSet.Length))
    ensures Mirrors(after) && MarksOnly(before, after, doneName, isXML)
  {
    ghost var slots := checkSet[..];
    after := before;
    var i := 0;
    while i < checkSet.Length
      invariant 0 <= i <= checkSet.Length
      invariant Answered(f, slots, checkSet[..], i)
      invariant Mirrors(after) && MarksOnly(before, after, doneName, isXML)
      invariant !isXML ==> AllCover(f, after, doneName) && SlotsCovered(f, after, doneName, slots, i)
      invariant MarksTrue(f, after, doneName, checkSet[..], i)
    {
      if checkSet[i] != False {
        after := AnswerPart(tree, dir, cur, doneName, checkSet, i, isXML, f, slots, before, after);
      } else {
        SlotSkipped(f, after, doneName, slots, checkSet[..], i);
        if !isXML {
          SkippedCovered(f, after, doneName, slots, checkSet[..], i);
        }
      }
      i := i + 1;
    }
    AllPartsAnswered(f, tree, dir, cur, slots, checkSet[..]);
  }

}
