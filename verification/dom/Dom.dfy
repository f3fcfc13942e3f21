/** The part of the DOM that the selector engine of jquery-1.3.1.js reads and writes. */
module Dom {

  datatype Dir = ParentNode | PreviousSibling

  /** A DOM node. Scripts may hang numbers on it, such as elem["done3"] and elem.nodeIndex. */
  class Node {
    const nodeType: nat
    const nodeName: string
    var expando: map<string, nat>

    constructor (nodeType: nat, nodeName: string)
      ensures this.nodeType == nodeType && this.nodeName == nodeName
      ensures expando == map[]
    {
      this.nodeType, this.nodeName, this.expando := nodeType, nodeName, map[];
    }

    /** A missing number is as false as 0 in a condition. */
    function Number(name: string): nat
      reads this`expando
    {
      if name in expando then expando[name] else 0
    }
  }

  /** The links between the nodes; no selector pass changes them. */
  datatype Tree = Tree(
    parentNode: map<Node, Node?>,
    firstChild: map<Node, Node?>,
    previousSibling: map<Node, Node?>,
    nextSibling: map<Node, Node?>
  ) {
    /** elem[dir] */
    function Step(n: Node, dir: Dir): Node? {
      var links := if dir == ParentNode then parentNode else previousSibling;
      if n in links then links[n] else null
    }
  }

  /** The expandos of some nodes, as a value. */
  type Expandos = map<Node, map<string, nat>>

  ghost predicate Mirrors(h: Expandos)
    reads h.Keys`expando
  {
    forall n <- h :: n.expando == h[n]
  }

  ghost function NumberIn(h: Expandos, n: Node, name: string): nat
    requires n in h
  {
    if name in h[n] then h[n][name] else 0
  }

  ghost function WithNumber(h: Expandos, n: Node, name: string, i: nat): Expandos
    requires n in h
  {
    var numbers: map<string, nat> := h[n][name := i];
    h[n := numbers]
  }

  /** Only numbers of these names differ. */
  ghost predicate OthersKept(before: Expandos, after: Expandos, names: set<string>) {
    && before.Keys == after.Keys
    && forall n <- before :: before[n] - names == after[n] - names
  }

  lemma OthersKeptThrough(a: Expandos, b: Expandos, c: Expandos, names: set<string>)
    requires OthersKept(a, b, names) && OthersKept(b, c, names)
    ensures OthersKept(a, c, names)
  {}

  lemma WithNumberKeepsOthers(before: Expandos, h: Expandos, n: Node, name: string, i: nat, names: set<string>)
    requires n in h && OthersKept(before, h, names) && name in names
    ensures OthersKept(before, WithNumber(h, n, name, i), names)
  {
    assert h[n][name := i] - names == h[n] - names;
  }

  /** elem[name] = i */
  method SetNumber(elem: Node, name: string, i: nat, ghost h: Expandos) returns (ghost h': Expandos)
    requires elem in h && Mirrors(h)
    modifies elem`expando
    ensures h' == WithNumber(h, elem, name, i) && Mirrors(h')
    ensures h'.Keys == h.Keys && NumberIn(h', elem, name) == i
  {
    elem.expando := elem.expando[name := i];
    h' := WithNumber(h, elem, name, i);
  }
}
