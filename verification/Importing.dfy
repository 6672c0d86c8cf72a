/** Cloning and importing whole trees. */
module Importing {
  import opened Bytes
  import opened Nodes
  import opened Forests
  import opened NodeOps
  import opened Strands
  import opened Cloning
  import Edits
  import Machine

  predicate IsCloned(typ: NodeType) {
    typ in {ElementNode, AttributeNode, TextNodeType, CDataSectionNode, DocumentNode}
  }

  /** A single copy is a forest of its own, apart from the original one. */
  ghost predicate CopyOf(f: Forest, g: Forest, o: map<Node, Node>, r: Node, n: Node, deep: bool)
    reads f.Keys, g.Keys, o.Keys
  {
    Cloned(f, g, o, [r], [n], deep) && r in g
  }

  lemma OneCopy(f: Forest, g: Forest, o: map<Node, Node>, s: seq<Node>, n: Node, deep: bool)
    requires Cloned(f, g, o, s, [n], deep)
    ensures |s| == 1 && s == [s[0]] && CopyOf(f, g, o, s[0], n, deep)
  {
    CountCopies(f, g, o, s, [n], deep);
    RootsIn(g, s);
  }

  /** What a clone is: a forest of copies; or, if a document had more than one child to keep, one without such links. */
  ghost predicate CloneOf(f: Forest, s: seq<Node>, g: Forest, o: map<Node, Node>, r: Node, n: Node, deep: bool)
    reads r, n, f.Keys, g.Keys, o.Keys
  {
    if Crowded(f, n, deep) then Orphaned(f, r, n, s, g, o) else CopyOf(f, g, o, r, n, deep)
  }

  /** Every type of node but an attribute: text and documents by the recursion, which stops after them. */
  method CloneNodeTree(nodeptr: Node, deep: bool, ghost f: Forest)
    returns (newNode: Node?, ghost s: seq<Node>, ghost g: Forest, ghost o: map<Node, Node>)
    requires Holds(f) && Edits.Proper(f) && nodeptr in f && f[nodeptr].lab.typ != AttributeNode
    ensures newNode != null <==> IsCloned(f[nodeptr].lab.typ)
    ensures newNode != null ==>
              fresh(newNode) && CloneOf(f, s, g, o, newNode, nodeptr, deep) && forall x | x in g :: fresh(x)
  {
    hide WF, Rep, KeptOf, KeptKids, Next, Prev, Orphaned, Cloned, Chain, Edits.Proper;
    newNode, s, g, o := null, [], map[], map[];
    Fields(f, nodeptr);
    match nodeptr.nodeType {
      case ElementNode =>
        newNode, g, o := CloneElementTree(nodeptr, deep, f);
      case TextNodeType =>
        newNode, s, g, o := CloneAlone(nodeptr, deep, f);
      case CDataSectionNode =>
        newNode, s, g, o := CloneAlone(nodeptr, deep, f);
      case DocumentNode =>
        newNode, s, g, o := CloneAlone(nodeptr, deep, f);
      case _ =>
    }
  }

  method CloneAlone(n: Node, deep: bool, ghost f: Forest)
    returns (e: Node, ghost s: seq<Node>, ghost g: Forest, ghost o: map<Node, Node>)
    requires Holds(f) && Edits.Proper(f) && n in f
    requires f[n].lab.typ in {TextNodeType, CDataSectionNode, DocumentNode}
    ensures fresh(e) && CloneOf(f, s, g, o, e, n, deep) && forall x | x in g :: fresh(x)
  {
    hide WF, Rep, KeptOf, KeptKids, Next, Prev, Orphaned, Cloned, Chain, Following, Edits.Proper;
    ChainFrom(f, n);
    ChainStep(f, n, Following(f, n));
    KeptStep(f, n, Following(f, n), deep);
    var newNode;
    newNode, s, g, o := CloneNodeTreeRecursive(n, deep, f, Following(f, n), false);
    if !Crowded(f, n, deep) {
      OneCopy(f, g, o, s, n, deep);
    }
    e := newNode;
  }

  /** The copy has no parent and no siblings; nothing else is known to change. */
  method CloneNode(nodeptr: Node?, deep: bool, ghost f: Forest)
    returns (newNode: Node?, ghost s: seq<Node>, ghost g: Forest, ghost o: map<Node, Node>)
    requires nodeptr != null ==> Holds(f) && Edits.Proper(f) && nodeptr in f
    ensures newNode != null <==> nodeptr != null && IsCloned(f[nodeptr].lab.typ)
    ensures newNode != null ==>
              fresh(newNode) && CloneOf(f, s, g, o, newNode, nodeptr, deep) && forall x | x in g :: fresh(x)
  {
    newNode, s, g, o := null, [], map[], map[];
    if nodeptr == null {
      return;
    }
    hide WF, Rep, Next, Prev, CloneOf, Cloned, Edits.Proper;
    Fields(f, nodeptr);
    match nodeptr.nodeType {
      case AttributeNode =>
        newNode, g, o := CloneAttrTree(nodeptr, deep, f);
        AttrClone(f, s, g, o, newNode, nodeptr, deep);
      case _ =>
        newNode, s, g, o := CloneNodeTree(nodeptr, deep, f);
    }
  }

  lemma AttrClone(f: Forest, s: seq<Node>, g: Forest, o: map<Node, Node>, r: Node, n: Node, deep: bool)
    requires Cloned(f, g, o, [r], [n], deep) && r in g && n in f && f[n].lab.typ == AttributeNode
    ensures CloneOf(f, s, g, o, r, n, deep)
  {
    hide Cloned, Orphaned;
  }

  /**
   The links of a clone are those of a forest exactly if it is not
   one of a document with more than one child to keep.
   */
  lemma CloneConsistent(f: Forest, s: seq<Node>, g: Forest, o: map<Node, Node>, r: Node, n: Node, deep: bool)
    requires CloneOf(f, s, g, o, r, n, deep)
    ensures !Crowded(f, n, deep) ==> Holds(g) && r in g
    ensures Crowded(f, n, deep) ==> forall h: Forest :: !(r in h && Holds(h))
  {
    hide Crowded, Orphaned, Holds, Strand, Clones, Contents;
    if Crowded(f, n, deep) {
      forall h: Forest ensures !(r in h && Holds(h)) {
        OrphansInNoForest(f, r, n, s, g, o, h);
      }
    } else {
      StrandOfOne(g, r);
    }
  }

  // ----- the owner document

  /** Sets the document of everything at and below the node and the siblings after it; attributes are not visited. */
  method SetOwnerDocument(doc: Node, nodeptr: Node?, ghost g: Forest, ghost ts: seq<Rose>)
    requires Holds(g) && Chain(g, nodeptr, ts)
    modifies g.Keys`ownerDocument
    ensures Holds(g)
    ensures forall x | x in g :: x.ownerDocument == if HasAny(ts, x) then doc else old(x.ownerDocument)
    decreases ts
  {
    hide WF, Rep, Chain, Next, Has, HasAny;
    if nodeptr != null {
      ChainStep(g, nodeptr, ts);
      forall x | x in g ensures HasAny(ts, x) <==> ts[0].node == x || HasAny(ts[0].kids, x) || HasAny(ts[1..], x) {
        HasFirst(ts, x);
      }
      nodeptr.ownerDocument := doc;
      LinksKept(g);
      Fields(g, nodeptr);
      SetOwnerDocument(doc, nodeptr.firstChild, g, ts[0].kids);
      Fields(g, nodeptr);
      SetOwnerDocument(doc, nodeptr.nextSibling, g, ts[1..]);
    } else {
      ChainEmpty(g, ts);
    }
  }

  ghost function ImportStatus(f: Forest, doc: Node?, importNode: Node?): Status
    requires importNode != null ==> importNode in f
  {
    if doc == null || importNode == null then InvalidParameter
    else if f[importNode].lab.typ == DocumentNode then NotSupportedErr
    else if !IsCloned(f[importNode].lab.typ) then Failed
    else Success
  }

  /** What an import hands back. */
  ghost predicate Imported(f: Forest, g: Forest, o: map<Node, Node>, r: Node, n: Node, deep: bool, doc: Node)
    reads f.Keys, g.Keys
  {
    && Clones(f, g, o, [r], [n], deep) && Free(g, r) && g.Keys !! f.Keys && Holds(f + g)
    && forall d | d in g :: o[d] in f && Copied(o[d], d) && d.ownerDocument == if Has(g[r].tree, d) then doc else null
  }

  method ImportNode(doc: Node?, importNode: Node?, deep: bool, ghost f: Forest)
    returns (rc: Status, rtNode: Node?, ghost g: Forest, ghost o: map<Node, Node>)
    requires Holds(f) && Edits.Proper(f) && (importNode != null ==> importNode in f)
    ensures rc == ImportStatus(f, doc, importNode)
    ensures rc == Success ==>
              rtNode != null && Imported(f, g, o, rtNode, importNode, deep, doc) && forall x | x in g :: fresh(x)
    ensures rc != Success ==> rtNode == null
  {
    rtNode, g, o := null, map[], map[];
    if doc == null || importNode == null {
      return InvalidParameter, null, g, o;
    }
    hide WF, Rep, Next, Prev, Strand, Clones, Has;
    Fields(f, importNode);
    if importNode.nodeType == DocumentNode {
      return NotSupportedErr, null, g, o;
    }
    var newNode;
    ghost var s;
    newNode, s, g, o := CloneNode(importNode, deep, f);
    if newNode == null {
      return Failed, null, g, o;
    }
    GiveDocument(doc, newNode, importNode, deep, f, g, o);
    rtNode := newNode;
    return Success, rtNode, g, o;
  }

  method GiveDocument(doc: Node, r: Node, ghost n: Node, ghost deep: bool,
                      ghost f: Forest, ghost g: Forest, ghost o: map<Node, Node>)
    requires Holds(f) && CopyOf(f, g, o, r, n, deep) && g.Keys !! f.Keys
    modifies g.Keys`ownerDocument
    ensures Imported(f, g, o, r, n, deep, doc)
  {
    hide WF, Rep, Next, Prev, Strand, Clones, Has;
    StrandOfOne(g, r);
    CopyKeys(f, g, o, r, n, deep);
    ChainFrom(g, r);
    assert Following(g, r) == [g[r].tree];
    SetOwnerDocument(doc, r, g, [g[r].tree]);
    forall d | d in g ensures HasAny([g[r].tree], d) <==> Has(g[r].tree, d) {
      Edits.HasOne(g[r].tree, d);
    }
    UnionHolds(f, g);
  }

  lemma CopyKeys(f: Forest, g: Forest, o: map<Node, Node>, r: Node, n: Node, deep: bool)
    requires Clones(f, g, o, [r], [n], deep)
    ensures o.Keys == g.Keys
  {
  }

  // ----- what a copy says

  datatype Content = Content(lab: Label, attrs: seq<Label>, kids: seq<Content>)

  ghost function Labels(f: Forest, s: seq<Node>): seq<Label> {
    seq(|s|, i requires 0 <= i < |s| => if s[i] in f then f[s[i]].lab else Label(InvalidNode, [], None))
  }

  /** What a tree says, apart from the nodes it is made of. */
  ghost function ContentOf(f: Forest, t: Rose): Content {
    if t.node !in f then Content(Label(InvalidNode, [], None), [], [])
    else
      Content(f[t.node].lab, Labels(f, f[t.node].attrs),
              seq(|t.kids|, i requires 0 <= i < |t.kids| => ContentOf(f, t.kids[i])))
  }

  /** What its clone says. */
  ghost function KeptContent(f: Forest, t: Rose): Content {
    if t.node !in f then Content(Label(InvalidNode, [], None), [], [])
    else
      var k := |KeptKids(f, t.node, true)|;
      Content(CopyLabel(f[t.node].lab), Labels(f, KeptAttrs(f, t.node)),
              seq(if k <= |t.kids| then k else 0, i requires 0 <= i < |t.kids| => KeptContent(f, t.kids[i])))
  }

  /** The kept nodes are the first ones of the list. */
  lemma {:induction false} KeptPrefix(f: Forest, ts: seq<Rose>, deep: bool)
    ensures var k := KeptOf(f, ts, deep); |k| <= |ts| && forall i | 0 <= i < |k| :: k[i] == ts[i].node && k[i] in f
  {
    if ts != [] {
      KeptPrefix(f, ts[1..], deep);
    }
  }

  lemma CopyOne(f: Forest, g: Forest, o: map<Node, Node>, d: Node)
    requires WF(f) && WF(g) && d in g && AllCopied(f, g, o, true)
    ensures d in o && o[d] in f
    ensures g[d].lab == CopyLabel(f[o[d]].lab) && |g[d].tree.kids| == |KeptKids(f, o[d], true)| <= |f[o[d]].tree.kids|
    ensures Labels(g, g[d].attrs) == Labels(f, KeptAttrs(f, o[d]))
    ensures forall i | 0 <= i < |g[d].tree.kids| ::
              && g[d].kids[i] in g && g[d].tree.kids[i] == g[g[d].kids[i]].tree && g[d].kids[i] in o
              && o[g[d].kids[i]] in f && f[o[d]].tree.kids[i] == f[o[g[d].kids[i]]].tree
  {
    Ok(g, d);
    assert CopyAt(f, g, o, d, true);
    var n := o[d];
    Ok(f, n);
    KeptPrefix(f, f[n].tree.kids, true);
    forall i | 0 <= i < |g[d].attrs| ensures Labels(g, g[d].attrs)[i] == Labels(f, KeptAttrs(f, n))[i] {
      var a := g[d].attrs[i];
      assert CopyAt(f, g, o, a, true);
      assert Mapped(o, g[d].attrs)[i] == o[a] == KeptAttrs(f, n)[i];
    }
    forall i | 0 <= i < |g[d].kids| ensures o[g[d].kids[i]] == f[n].kids[i] {
      var k := g[d].kids[i];
      assert CopyAt(f, g, o, k, true);
      assert Mapped(o, g[d].kids)[i] == o[k];
    }
    assert |Mapped(o, g[d].kids)| == |g[d].kids| && |Mapped(o, g[d].attrs)| == |g[d].attrs|;
  }

  /** A deep copy says exactly what is kept of its original. */
  lemma {:induction false} CopySays(f: Forest, g: Forest, o: map<Node, Node>, d: Node)
    requires WF(f) && WF(g) && d in g && AllCopied(f, g, o, true)
    ensures d in o && o[d] in f && ContentOf(g, g[d].tree) == KeptContent(f, f[o[d]].tree)
    decreases g[d].tree
  {
    CopyOne(f, g, o, d);
    Ok(g, d);
    Ok(f, o[d]);
    var a, b := ContentOf(g, g[d].tree), KeptContent(f, f[o[d]].tree);
    forall i | 0 <= i < |a.kids| ensures a.kids[i] == b.kids[i] {
      CopySays(f, g, o, g[d].kids[i]);
    }
  }

  /** A child list that a clone has to its end: nothing but elements comes before its last node. */
  ghost predicate CopiedToTheEnd(f: Forest, ts: seq<Rose>) {
    forall i | 0 <= i < |ts| ::
      ts[i].node in f &&
      var typ := f[ts[i].node].lab.typ;
      typ == ElementNode || typ == AttributeNode
      || (i == |ts| - 1 && (typ == TextNodeType || typ == CDataSectionNode || typ == DocumentNode))
  }

  /** When a child list is kept to its end. */
  lemma {:induction false} KeptToTheEnd(f: Forest, ts: seq<Rose>)
    requires forall i | 0 <= i < |ts| :: ts[i].node in f
    ensures |KeptOf(f, ts, true)| == |ts| <==> CopiedToTheEnd(f, ts)
  {
    if ts != [] {
      KeptToTheEnd(f, ts[1..]);
      KeptPrefix(f, ts[1..], true);
      assert forall i | 1 <= i < |ts| :: ts[i] == ts[1..][i - 1];
    }
  }

  /**
   Trees that a clone says in full, by the types of their nodes: elements and documents with such child lists, the
   documents with their usual name, and other nodes without children. Only elements have attributes.
   */
  ghost predicate Clonable(f: Forest, t: Rose) {
    t.node in f &&
    var l := f[t.node].lab;
    && (l.typ == DocumentNode ==> l == Label(DocumentNode, Machine.DOCUMENT_NAME, None))
    && (l.typ != ElementNode ==> f[t.node].attrs == [])
    && (if l.typ == ElementNode || l.typ == DocumentNode then CopiedToTheEnd(f, t.kids) else t.kids == [])
    && forall i | 0 <= i < |t.kids| :: Clonable(f, t.kids[i])
  }

  /** The node itself is kept in full. */
  ghost predicate ClonableNode(f: Forest, t: Rose)
    requires t.node in f
  {
    CopyLabel(f[t.node].lab) == f[t.node].lab && KeptAttrs(f, t.node) == f[t.node].attrs
    && |KeptKids(f, t.node, true)| == |t.kids|
  }

  lemma ClonableStep(f: Forest, n: Node)
    requires WF(f) && n in f
    ensures Clonable(f, f[n].tree) <==>
              ClonableNode(f, f[n].tree) && forall i | 0 <= i < |f[n].kids| :: Clonable(f, f[n].tree.kids[i])
  {
    Ok(f, n);
    KeptToTheEnd(f, f[n].tree.kids);
    KeptPrefix(f, f[n].tree.kids, true);
    hide WF, KeptOf, CopiedToTheEnd;
  }

  /** Nothing is lost exactly if every list of children is kept to its end. */
  lemma {:induction false} AllKeptIffClonable(f: Forest, n: Node)
    requires WF(f) && n in f
    ensures KeptContent(f, f[n].tree) == ContentOf(f, f[n].tree) <==> Clonable(f, f[n].tree)
    decreases f[n].tree
  {
    Ok(f, n);
    ClonableStep(f, n);
    hide WF, Clonable, KeptOf;
    var t := f[n].tree;
    KeptPrefix(f, t.kids, true);
    var a, b := KeptContent(f, t), ContentOf(f, t);
    forall i | 0 <= i < |t.kids|
      ensures KeptContent(f, t.kids[i]) == ContentOf(f, t.kids[i]) <==> Clonable(f, t.kids[i])
    {
      AllKeptIffClonable(f, f[n].kids[i]);
    }
    if a == b {
      assert |a.kids| == |b.kids|;
      forall i | 0 <= i < |t.kids| ensures KeptContent(f, t.kids[i]) == ContentOf(f, t.kids[i]) {
        assert a.kids[i] == b.kids[i];
      }
      assert |a.attrs| == |b.attrs|;
    }
    if Clonable(f, t) {
      assert a.kids == b.kids;
    }
  }

  /** A deep copy says what its original says, all the way down, if and only if the types in the tree allow it. */
  lemma CloneSaysTheSame(f: Forest, g: Forest, o: map<Node, Node>, r: Node, n: Node)
    requires WF(f) && WF(g) && CopyOf(f, g, o, r, n, true)
    ensures n in f && (ContentOf(g, g[r].tree) == ContentOf(f, f[n].tree) <==> Clonable(f, f[n].tree))
  {
    CopyMaps(f, g, o, r, n, true);
    CopySays(f, g, o, r);
    AllKeptIffClonable(f, n);
  }

  lemma CopyMaps(f: Forest, g: Forest, o: map<Node, Node>, r: Node, n: Node, deep: bool)
    requires CopyOf(f, g, o, r, n, deep)
    ensures AllCopied(f, g, o, deep) && r in g && r in o && o[r] == n && n in f
  {
    assert Mapped(o, [r])[0] == n;
    assert CopyAt(f, g, o, r, deep);
  }

  /** Every node of a copy says what its original says, down to text and values; a document has its usual name. */
  lemma CopyHasLabel(f: Forest, g: Forest, o: map<Node, Node>, r: Node, n: Node, deep: bool, d: Node)
    requires CopyOf(f, g, o, r, n, deep) && d in g
    ensures d in o && o[d] in f
    ensures f[o[d]].lab.typ != DocumentNode ==> g[d].lab == f[o[d]].lab
    ensures f[o[d]].lab.typ == DocumentNode ==> g[d].lab == Label(DocumentNode, Machine.DOCUMENT_NAME, None)
  {
    CopyMaps(f, g, o, r, n, deep);
    assert CopyAt(f, g, o, d, deep);
  }

  /** A copy that is not deep has the label and the attributes of its original, and no children. */
  lemma ShallowCopy(f: Forest, g: Forest, o: map<Node, Node>, r: Node, n: Node)
    requires WF(f) && WF(g) && CopyOf(f, g, o, r, n, false)
    ensures n in f && g[r].kids == []
    ensures f[n].lab.typ == ElementNode ==> Labels(g, g[r].attrs) == Labels(f, f[n].attrs)
    ensures f[n].lab.typ != DocumentNode ==> g[r].lab == f[n].lab
  {
    CopyMaps(f, g, o, r, n, false);
    assert CopyAt(f, g, o, r, false);
    Ok(f, n);
    assert |Mapped(o, g[r].kids)| == |g[r].kids| && |Mapped(o, g[r].attrs)| == |g[r].attrs|;
    if f[n].lab.typ == ElementNode {
      forall i | 0 <= i < |g[r].attrs| ensures Labels(g, g[r].attrs)[i] == Labels(f, f[n].attrs)[i] {
        assert Mapped(o, g[r].attrs)[i] == f[n].attrs[i];
        CopiedAttr(f, g, o, r, i);
      }
    }
  }

  lemma CopiedAttr(f: Forest, g: Forest, o: map<Node, Node>, r: Node, i: nat)
    requires AllCopied(f, g, o, false) && WF(f) && WF(g) && r in g && i < |g[r].attrs| && r in o && o[r] in f
    requires f[o[r]].lab.typ == ElementNode && |g[r].attrs| == |f[o[r]].attrs|
    requires Mapped(o, g[r].attrs)[i] == f[o[r]].attrs[i]
    ensures Labels(g, g[r].attrs)[i] == Labels(f, f[o[r]].attrs)[i]
  {
    Ok(f, o[r]);
    Ok(g, r);
    assert CopyAt(f, g, o, g[r].attrs[i], false);
  }
}
