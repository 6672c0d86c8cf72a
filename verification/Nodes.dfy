/** The nodes of a document as they are linked in memory, and what their links mean. */
module Nodes {
  import opened Bytes

  datatype NodeType =
    | InvalidNode | ElementNode | AttributeNode | TextNodeType | CDataSectionNode | EntityReferenceNode | EntityNode
    | ProcessingInstructionNode | CommentNode | DocumentNode | DocumentTypeNode | DocumentFragmentNode | NotationNode

  class Node {
    var nodeName: bytes
    var nodeValue: Option<bytes>
    var nodeType: NodeType
    var namespaceURI: Option<bytes>
    var prefix: Option<bytes>
    var localName: Option<bytes>
    var parentNode: Node?
    var firstChild: Node?
    var prevSibling: Node?
    var nextSibling: Node?
    var firstAttr: Node?
    var ownerDocument: Node?
    var ownerElement: Node? // of an attribute

    /** A node as memset leaves it, with its name, value, type and document filled in. */
    constructor (typ: NodeType, name: bytes, value: Option<bytes>, doc: Node?)
      ensures nodeName == name && nodeValue == value && nodeType == typ && ownerDocument == doc
      ensures namespaceURI == None && prefix == None && localName == None
      ensures parentNode == null && firstChild == null && prevSibling == null && nextSibling == null
      ensures firstAttr == null && ownerElement == null
    {
      nodeName, nodeValue, nodeType, ownerDocument := name, value, typ, doc;
      namespaceURI, prefix, localName := None, None, None;
      parentNode, firstChild, prevSibling, nextSibling, firstAttr, ownerElement := null, null, null, null, null, null;
    }
  }

  datatype Label = Label(typ: NodeType, name: bytes, value: Option<bytes>)

  /** The tree below a node; that every node has one is what makes the links acyclic. */
  datatype Rose = Rose(node: Node, kids: seq<Rose>)

  /**
   What is known of a node: its label, its children and attributes in order, its parent or the element
   that holds it as an attribute, its position there, and the tree below it.
   */
  datatype Info = Info(lab: Label, kids: seq<Node>, attrs: seq<Node>, par: Node?, hold: Node?, pos: nat, tree: Rose)

  /** A set of nodes closed under the links. */
  type Forest = map<Node, Info>

  ghost predicate KidsOk(f: Forest, n: Node)
    requires n in f
  {
    forall i | 0 <= i < |f[n].kids| ::
      var k := f[n].kids[i]; k in f && f[k].par == n && f[k].hold == null && f[k].pos == i
  }

  ghost predicate AttrsOk(f: Forest, n: Node)
    requires n in f
  {
    forall i | 0 <= i < |f[n].attrs| ::
      var a := f[n].attrs[i];
      && a in f && f[a].hold == n && f[a].par == null && f[a].pos == i && f[a].kids == [] && f[a].attrs == []
      && f[a].lab.typ == AttributeNode
  }

  ghost predicate UpOk(f: Forest, x: Node)
    requires x in f
  {
    var u := f[x];
    && (u.par != null ==> u.par in f && u.pos < |f[u.par].kids| && f[u.par].kids[u.pos] == x)
    && (u.hold != null ==> u.hold in f && u.pos < |f[u.hold].attrs| && f[u.hold].attrs[u.pos] == x)
  }

  ghost predicate TreeOk(f: Forest, n: Node)
    requires n in f
  {
    && f[n].tree.node == n && |f[n].tree.kids| == |f[n].kids|
    && forall i | 0 <= i < |f[n].kids| :: f[n].kids[i] in f && f[n].tree.kids[i] == f[f[n].kids[i]].tree
  }

  ghost predicate WF(f: Forest) {
    && (forall n | n in f :: KidsOk(f, n))
    && (forall n | n in f :: AttrsOk(f, n))
    && (forall n | n in f :: UpOk(f, n))
    && (forall n | n in f :: TreeOk(f, n))
  }

  /** What holds of one node of a forest. */
  lemma Ok(f: Forest, n: Node)
    requires WF(f) && n in f
    ensures KidsOk(f, n) && AttrsOk(f, n) && UpOk(f, n) && TreeOk(f, n)
  {
  }

  ghost function First(s: seq<Node>): Node? {
    if s == [] then null else s[0]
  }

  /** The list a node is linked into. */
  ghost function Siblings(f: Forest, x: Node): seq<Node>
    requires WF(f) && x in f
  {
    if f[x].par != null then assert UpOk(f, x); f[f[x].par].kids
    else if f[x].hold != null then assert UpOk(f, x); f[f[x].hold].attrs
    else [x]
  }

  ghost function Index(f: Forest, x: Node): (i: nat)
    requires WF(f) && x in f
    ensures i < |Siblings(f, x)| && Siblings(f, x)[i] == x
  {
    assert UpOk(f, x);
    if f[x].par != null || f[x].hold != null then f[x].pos else 0
  }

  ghost function After(s: seq<Node>, i: nat): Node? {
    if i + 1 < |s| then s[i + 1] else null
  }

  ghost function Before(s: seq<Node>, i: nat): Node? {
    if 0 < i <= |s| then s[i - 1] else null
  }

  ghost function Next(f: Forest, x: Node): Node?
    requires WF(f) && x in f
  {
    After(Siblings(f, x), Index(f, x))
  }

  ghost function Prev(f: Forest, x: Node): Node?
    requires WF(f) && x in f
  {
    Before(Siblings(f, x), Index(f, x))
  }

  /** A node's fields say what the forest says. */
  ghost predicate RepNode(f: Forest, x: Node)
    requires WF(f) && x in f
    reads x
  {
    && x.parentNode == f[x].par && x.firstChild == First(f[x].kids) && x.firstAttr == First(f[x].attrs)
    && x.nextSibling == Next(f, x) && x.prevSibling == Prev(f, x)
    && x.nodeType == f[x].lab.typ && x.nodeName == f[x].lab.name && x.nodeValue == f[x].lab.value
  }

  ghost predicate Rep(f: Forest)
    requires WF(f)
    reads f.Keys
  {
    forall x | x in f :: RepNode(f, x)
  }

  /** Every node of the forest is linked as it says, and nothing else is. */
  ghost predicate Holds(f: Forest)
    reads f.Keys
  {
    WF(f) && Rep(f)
  }

  // ----- trees

  lemma Represented(f: Forest, x: Node)
    requires Holds(f) && x in f
    ensures RepNode(f, x)
  {
  }

  /** The fields of a node, one by one. */
  lemma Fields(f: Forest, n: Node)
    requires Holds(f) && n in f
    ensures n.nodeType == f[n].lab.typ && n.nodeName == f[n].lab.name && n.nodeValue == f[n].lab.value
    ensures f[n].lab == Label(n.nodeType, n.nodeName, n.nodeValue)
    ensures n.firstChild == First(f[n].kids) && n.firstAttr == First(f[n].attrs)
    ensures n.nextSibling == Next(f, n) && n.prevSibling == Prev(f, n) && n.parentNode == f[n].par
  {
    Represented(f, n);
  }

  ghost predicate Has(t: Rose, x: Node) {
    t.node == x || exists i | 0 <= i < |t.kids| :: Has(t.kids[i], x)
  }

  ghost predicate HasAny(ts: seq<Rose>, x: Node) {
    exists i | 0 <= i < |ts| :: Has(ts[i], x)
  }

  ghost function Size(t: Rose): nat {
    1 + SizeAll(t.kids)
  }

  ghost function SizeAll(ts: seq<Rose>): nat {
    if ts == [] then 0 else Size(ts[0]) + SizeAll(ts[1..])
  }

  lemma {:induction false} SizeOf(ts: seq<Rose>, i: nat)
    requires i < |ts|
    ensures Size(ts[i]) <= SizeAll(ts)
  {
    if i > 0 {
      SizeOf(ts[1..], i - 1);
    }
  }

  /** What is below a node has its own tree, no larger than the tree it is found in. */
  lemma {:induction false} HasInForest(f: Forest, y: Node, x: Node)
    requires WF(f) && y in f && Has(f[y].tree, x)
    ensures x in f && Size(f[x].tree) <= Size(f[y].tree)
    decreases f[y].tree
  {
    var t := f[y].tree;
    assert TreeOk(f, y);
    if t.node != x {
      var i :| 0 <= i < |t.kids| && Has(t.kids[i], x);
      SizeOf(t.kids, i);
      assert t.kids[i] == f[f[y].kids[i]].tree;
      HasInForest(f, f[y].kids[i], x);
    }
  }

  /** No node is below one of its children. */
  lemma NotBelowKid(f: Forest, p: Node, i: nat)
    requires WF(f) && p in f && i < |f[p].kids|
    ensures f[p].kids[i] in f && !Has(f[f[p].kids[i]].tree, p)
  {
    assert TreeOk(f, p);
    var k := f[p].kids[i];
    SizeOf(f[p].tree.kids, i);
    if Has(f[k].tree, p) {
      HasInForest(f, k, p);
    }
  }

  /** Whatever is in a tree below a node is below that node. */
  lemma {:induction false} Below(f: Forest, y: Node, p: Node, x: Node)
    requires WF(f) && y in f && Has(f[y].tree, p) && p in f && Has(f[p].tree, x)
    ensures Has(f[y].tree, x)
    decreases f[y].tree
  {
    Ok(f, y);
    var t := f[y].tree;
    if y != p {
      var i :| 0 <= i < |t.kids| && Has(t.kids[i], p);
      Below(f, f[y].kids[i], p, x);
    }
  }

  /** Everything in a tree but its root has its parent there. */
  lemma {:induction false} Above(f: Forest, y: Node, x: Node)
    requires WF(f) && y in f && Has(f[y].tree, x) && x != y
    ensures x in f && f[x].par != null && Has(f[y].tree, f[x].par)
    decreases f[y].tree
  {
    Ok(f, y);
    var t := f[y].tree;
    var i :| 0 <= i < |t.kids| && Has(t.kids[i], x);
    var k := f[y].kids[i];
    if x != k {
      Above(f, k, x);
    }
  }

  /** A node other than the root is in a tree exactly if its parent is. */
  lemma BelowByParent(f: Forest, c: Node, n: Node)
    requires WF(f) && c in f && n in f && n != c
    ensures Has(f[c].tree, n) <==> f[n].par != null && Has(f[c].tree, f[n].par)
  {
    if Has(f[c].tree, n) {
      Above(f, c, n);
    }
    if f[n].par != null && Has(f[c].tree, f[n].par) {
      Ok(f, n);
      Ok(f, f[n].par);
      assert Has(f[f[n].par].tree.kids[f[n].pos], n);
      Below(f, c, f[n].par, n);
    }
  }

  // ----- lists of siblings

  ghost predicate ChainAt(f: Forest, ts: seq<Rose>, i: nat)
    requires WF(f) && i < |ts|
  {
    && ts[i].node in f && f[ts[i].node].tree == ts[i]
    && Next(f, ts[i].node) == if i + 1 < |ts| then ts[i + 1].node else null
  }

  ghost function FirstNode(ts: seq<Rose>): Node? {
    if ts == [] then null else ts[0].node
  }

  /** `a` is the first of a list of siblings with the trees `ts`, the last one included. */
  ghost predicate Chain(f: Forest, a: Node?, ts: seq<Rose>)
    requires WF(f)
  {
    a == FirstNode(ts) && forall i | 0 <= i < |ts| :: ChainAt(f, ts, i)
  }

  lemma KidTree(f: Forest, n: Node, i: nat)
    requires WF(f) && n in f && i < |f[n].kids|
    ensures |f[n].tree.kids| == |f[n].kids| && f[n].kids[i] in f
    ensures f[n].tree.kids[i] == f[f[n].kids[i]].tree && f[n].tree.kids[i].node == f[n].kids[i]
    ensures Siblings(f, f[n].kids[i]) == f[n].kids && Index(f, f[n].kids[i]) == i
  {
    Ok(f, n);
    Ok(f, f[n].kids[i]);
    hide WF;
  }

  lemma ChainKids(f: Forest, n: Node)
    requires WF(f) && n in f
    ensures Chain(f, First(f[n].kids), f[n].tree.kids)
  {
    Ok(f, n);
    forall i | 0 <= i < |f[n].tree.kids| ensures ChainAt(f, f[n].tree.kids, i) {
      KidTree(f, n, i);
      if i + 1 < |f[n].kids| {
        KidTree(f, n, i + 1);
      }
    }
    if f[n].kids != [] {
      KidTree(f, n, 0);
    }
  }

  lemma ChainDrop(f: Forest, a: Node?, ts: seq<Rose>, k: nat)
    requires WF(f) && Chain(f, a, ts) && k <= |ts|
    ensures Chain(f, FirstNode(ts[k..]), ts[k..])
  {
    forall i | 0 <= i < |ts[k..]| ensures ChainAt(f, ts[k..], i) {
      assert ChainAt(f, ts, i + k);
      assert ts[k..][i] == ts[i + k];
    }
  }

  lemma ChainNext(f: Forest, a: Node?, ts: seq<Rose>)
    requires WF(f) && ts != [] && Chain(f, a, ts)
    ensures a != null && a in f && f[a].tree == ts[0] && Chain(f, Next(f, a), ts[1..])
  {
    assert ChainAt(f, ts, 0);
    ChainDrop(f, a, ts, 1);
  }

  ghost function Trees(f: Forest, s: seq<Node>): seq<Rose>
    requires forall i | 0 <= i < |s| :: s[i] in f
  {
    seq(|s|, i requires 0 <= i < |s| => f[s[i]].tree)
  }

  lemma AttrListed(f: Forest, e: Node, i: nat)
    requires WF(f) && e in f && i < |f[e].attrs|
    ensures f[e].attrs[i] in f && f[f[e].attrs[i]].tree == Rose(f[e].attrs[i], [])
    ensures Siblings(f, f[e].attrs[i]) == f[e].attrs && Index(f, f[e].attrs[i]) == i
  {
    Ok(f, e);
    Ok(f, f[e].attrs[i]);
    hide WF;
  }

  lemma AttrsIn(f: Forest, e: Node)
    requires WF(f) && e in f
    ensures forall i | 0 <= i < |f[e].attrs| :: f[e].attrs[i] in f
  {
    Ok(f, e);
  }

  lemma ChainAttrs(f: Forest, e: Node)
    requires WF(f) && e in f
    ensures (forall i | 0 <= i < |f[e].attrs| :: f[e].attrs[i] in f)
    ensures Chain(f, First(f[e].attrs), Trees(f, f[e].attrs))
  {
    AttrsIn(f, e);
    var ts := Trees(f, f[e].attrs);
    forall i | 0 <= i < |ts| ensures ChainAt(f, ts, i) {
      AttrListed(f, e, i);
      if i + 1 < |ts| {
        AttrListed(f, e, i + 1);
      }
    }
    if ts != [] {
      AttrListed(f, e, 0);
    }
  }

  /** The trees of a node and of the siblings after it. */
  ghost function Following(f: Forest, c: Node): seq<Rose>
    requires WF(f) && c in f
  {
    Ok(f, c);
    if f[c].par != null then Ok(f, f[c].par); f[f[c].par].tree.kids[f[c].pos..]
    else if f[c].hold != null then AttrsIn(f, f[c].hold); Trees(f, f[f[c].hold].attrs)[f[c].pos..]
    else [f[c].tree]
  }

  lemma ChainFrom(f: Forest, c: Node)
    requires WF(f) && c in f
    ensures Chain(f, c, Following(f, c))
  {
    Ok(f, c);
    if f[c].par != null {
      var p, i := f[c].par, f[c].pos;
      ChainKids(f, p);
      KidTree(f, p, i);
      ChainDrop(f, First(f[p].kids), f[p].tree.kids, i);
      assert f[p].tree.kids[i..][0] == f[p].tree.kids[i];
    } else if f[c].hold != null {
      var e, i := f[c].hold, f[c].pos;
      ChainAttrs(f, e);
      AttrListed(f, e, i);
      ChainDrop(f, First(f[e].attrs), Trees(f, f[e].attrs), i);
      assert Trees(f, f[e].attrs)[i..][0] == Trees(f, f[e].attrs)[i];
    } else {
      assert ChainAt(f, [f[c].tree], 0);
    }
  }
}
