/** Cloning a node tree, and importing it into a document. */
module Cloning {
  import opened Bytes
  import opened Nodes
  import opened Forests
  import opened NodeOps
  import opened Strands
  import Edits
  import Machine

  /**
   What a list of siblings is cloned as: nothing after a text or CDATA node, after a document, or, if the clone is not
   deep, after an element; and nothing from a node of a type that is not cloned.
   */
  ghost function KeptOf(f: Forest, ts: seq<Rose>, deep: bool): seq<Node> {
    if ts == [] || ts[0].node !in f then []
    else
      var n := ts[0].node;
      match f[n].lab.typ
      case ElementNode => [n] + if deep then KeptOf(f, ts[1..], deep) else []
      case AttributeNode => [n] + KeptOf(f, ts[1..], deep)
      case TextNodeType => [n]
      case CDataSectionNode => [n]
      case DocumentNode => [n]
      case _ => []
  }

  ghost function KeptKids(f: Forest, n: Node, deep: bool): seq<Node>
    requires n in f
  {
    if deep && (f[n].lab.typ == ElementNode || f[n].lab.typ == DocumentNode) then KeptOf(f, f[n].tree.kids, deep)
    else []
  }

  ghost function KeptAttrs(f: Forest, n: Node): seq<Node>
    requires n in f
  {
    if f[n].lab.typ == ElementNode then f[n].attrs else []
  }

  /** The copy of a document has the standard name. */
  ghost function CopyLabel(l: Label): Label {
    if l.typ == DocumentNode then Label(DocumentNode, Machine.DOCUMENT_NAME, None) else l
  }

  /** The nodes that the nodes of a list were copied from. */
  ghost function Mapped(o: map<Node, Node>, s: seq<Node>): seq<Node> {
    seq(|s|, i requires 0 <= i < |s| => if s[i] in o then o[s[i]] else s[i])
  }

  /** A copied node has the label, the children and the attributes of its original, as far as they are kept. */
  ghost predicate CopyAt(f: Forest, g: Forest, o: map<Node, Node>, d: Node, deep: bool)
    requires d in g
  {
    && d in o && o[d] in f && g[d].lab == CopyLabel(f[o[d]].lab)
    && Mapped(o, g[d].kids) == KeptKids(f, o[d], deep) && Mapped(o, g[d].attrs) == KeptAttrs(f, o[d])
  }

  ghost predicate AllCopied(f: Forest, g: Forest, o: map<Node, Node>, deep: bool) {
    forall d | d in g :: CopyAt(f, g, o, d, deep)
  }

  /** The forest `g` consists of copies of nodes of `f`, and `s` of those of `us`. */
  ghost predicate Clones(f: Forest, g: Forest, o: map<Node, Node>, s: seq<Node>, us: seq<Node>, deep: bool) {
    Roots(g, s) && o.Keys == g.Keys && Mapped(o, s) == us && AllCopied(f, g, o, deep)
  }

  lemma NoClones(f: Forest, deep: bool)
    ensures Clones(f, map[], map[], [], [], deep)
  {
  }

  lemma MappedMore(o: map<Node, Node>, p: map<Node, Node>, s: seq<Node>)
    requires forall i | 0 <= i < |s| :: s[i] in o && s[i] in p && p[s[i]] == o[s[i]]
    ensures Mapped(p, s) == Mapped(o, s)
  {
  }

  /** More copies do not change what is known of one. */
  lemma CopyMore(f: Forest, g: Forest, o: map<Node, Node>, h: Forest, p: map<Node, Node>, d: Node, deep: bool)
    requires WF(g) && o.Keys == g.Keys && d in g && CopyAt(f, g, o, d, deep)
    requires d in h && h[d].lab == g[d].lab && h[d].kids == g[d].kids && h[d].attrs == g[d].attrs
    requires forall x | x in o :: x in p && p[x] == o[x]
    ensures CopyAt(f, h, p, d, deep)
  {
    Ok(g, d);
    hide WF, Mapped, KeptKids, KeptAttrs;
    MappedMore(o, p, g[d].kids);
    MappedMore(o, p, g[d].attrs);
  }

  /** Copies of two disjoint lists, seen together. */
  lemma CopiesTogether(f: Forest, g: Forest, o: map<Node, Node>, h: Forest, p: map<Node, Node>, d: Node, deep: bool)
    requires WF(g) && WF(h) && o.Keys == g.Keys && p.Keys == h.Keys && g.Keys !! h.Keys && d in g + h
    requires forall x | x in g :: CopyAt(f, g, o, x, deep)
    requires forall x | x in h :: CopyAt(f, h, p, x, deep)
    ensures CopyAt(f, g + h, o + p, d, deep)
  {
    hide WF, CopyAt;
    if d in g {
      CopyMore(f, g, o, g + h, o + p, d, deep);
    } else {
      CopyMore(f, h, p, g + h, o + p, d, deep);
    }
  }

  lemma MappedJoin(o: map<Node, Node>, p: map<Node, Node>, e: Node, s: seq<Node>)
    requires e in o && e !in p && forall i | 0 <= i < |s| :: s[i] in p
    ensures Mapped(o + p, [e] + s) == Mapped(o, [e]) + Mapped(p, s)
  {
    var m := Mapped(o, [e]) + Mapped(p, s);
    forall i | 0 <= i < |[e] + s| ensures Mapped(o + p, [e] + s)[i] == m[i] {
      if i > 0 {
        assert ([e] + s)[i] == s[i - 1] && m[i] == Mapped(p, s)[i - 1];
      }
    }
  }

  lemma JoinClones(f: Forest, g: Forest, o: map<Node, Node>, e: Node, n: Node,
                   h: Forest, p: map<Node, Node>, s: seq<Node>, us: seq<Node>, deep: bool)
    requires Clones(f, g, o, [e], [n], deep) && Clones(f, h, p, s, us, deep) && g.Keys !! h.Keys
    ensures Clones(f, g + h, o + p, [e] + s, [n] + us, deep)
  {
    hide WF, CopyAt, Roots, Mapped;
    ClonesRoots(f, g, o, [e], [n], deep);
    ClonesRoots(f, h, p, s, us, deep);
    assert [e][0] in g;
    JoinRoots(e, g, s, h);
    MappedJoin(o, p, e, s);
    forall d | d in g + h ensures CopyAt(f, g + h, o + p, d, deep) {
      CopiesTogether(f, g, o, h, p, d, deep);
    }
  }

  lemma ClonesRoots(f: Forest, g: Forest, o: map<Node, Node>, s: seq<Node>, us: seq<Node>, deep: bool)
    requires Clones(f, g, o, s, us, deep)
    ensures WF(g) && Roots(g, s) && forall i | 0 <= i < |s| :: s[i] in g
  {
    RootsIn(g, s);
    hide CopyAt, Mapped;
  }

  lemma CopiedAttrs(f: Forest, ga: Forest, oa: map<Node, Node>, sa: seq<Node>, n: Node, deep: bool)
    requires WF(f) && n in f && Clones(f, ga, oa, sa, KeptAttrs(f, n), deep)
    ensures AttrRoots(ga, sa)
  {
    Ok(f, n);
    forall i | 0 <= i < |sa|
      ensures ga[sa[i]].kids == [] && ga[sa[i]].attrs == [] && ga[sa[i]].lab.typ == AttributeNode
    {
      var a := sa[i];
      assert Free(ga, a);
      assert CopyAt(f, ga, oa, a, deep);
      assert oa[a] == Mapped(oa, sa)[i] == f[n].attrs[i];
      assert |Mapped(oa, ga[a].kids)| == |ga[a].kids| && |Mapped(oa, ga[a].attrs)| == |ga[a].attrs|;
    }
  }

  lemma WholeClones(f: Forest, n: Node, e: Node, sa: seq<Node>, ga: Forest, oa: map<Node, Node>,
                    sk: seq<Node>, gk: Forest, ok: map<Node, Node>, h: Forest, p: map<Node, Node>, deep: bool)
    requires n in f && IsWhole(h, e, CopyLabel(f[n].lab), sa, ga, sk, gk) && p == oa + ok + map[e := n]
    requires Clones(f, ga, oa, sa, KeptAttrs(f, n), deep) && Clones(f, gk, ok, sk, KeptKids(f, n, deep), deep)
    ensures Clones(f, h, p, [e], [n], deep)
  {
    hide Roots, Parts, WF, Whole, CopyAt, AllCopied, Mapped, KeptKids, KeptAttrs, CopyLabel;
    WholeOk(e, CopyLabel(f[n].lab), sa, ga, sk, gk);
    OriginKeys(oa, ok, e, n);
    MappedOne(p, e);
    WholeCopies(f, n, e, sa, ga, oa, sk, gk, ok, h, p, deep);
  }

  lemma WholeCopies(f: Forest, n: Node, e: Node, sa: seq<Node>, ga: Forest, oa: map<Node, Node>,
                    sk: seq<Node>, gk: Forest, ok: map<Node, Node>, h: Forest, p: map<Node, Node>, deep: bool)
    requires n in f && IsWhole(h, e, CopyLabel(f[n].lab), sa, ga, sk, gk) && p == oa + ok + map[e := n]
    requires Clones(f, ga, oa, sa, KeptAttrs(f, n), deep) && Clones(f, gk, ok, sk, KeptKids(f, n, deep), deep)
    ensures AllCopied(f, h, p, deep)
  {
    hide Clones, Roots, Parts, WF, Whole, CopyAt, Mapped, KeptKids, KeptAttrs, CopyLabel;
    WholeOk(e, CopyLabel(f[n].lab), sa, ga, sk, gk);
    forall d | d in h ensures CopyAt(f, h, p, d, deep) {
      if d == e {
        TopCopy(f, n, e, sa, ga, oa, sk, gk, ok, h, p, deep);
      } else {
        PartCopy(f, n, e, sa, ga, oa, sk, gk, ok, h, p, d, deep);
      }
    }
  }

  lemma OriginKeys(oa: map<Node, Node>, ok: map<Node, Node>, e: Node, n: Node)
    ensures (oa + ok + map[e := n]).Keys == oa.Keys + ok.Keys + {e} && (oa + ok + map[e := n])[e] == n
  {
  }

  lemma MappedOne(p: map<Node, Node>, e: Node)
    requires e in p
    ensures Mapped(p, [e]) == [p[e]]
  {
  }

  lemma PartCopy(f: Forest, n: Node, e: Node, sa: seq<Node>, ga: Forest, oa: map<Node, Node>,
                 sk: seq<Node>, gk: Forest, ok: map<Node, Node>, h: Forest, p: map<Node, Node>, d: Node, deep: bool)
    requires n in f && IsWhole(h, e, CopyLabel(f[n].lab), sa, ga, sk, gk) && p == oa + ok + map[e := n]
    requires Clones(f, ga, oa, sa, KeptAttrs(f, n), deep) && Clones(f, gk, ok, sk, KeptKids(f, n, deep), deep)
    requires d in h && (d in ga || d in gk)
    ensures CopyAt(f, h, p, d, deep)
  {
    WholeRest(e, CopyLabel(f[n].lab), sa, ga, sk, gk, d);
    assert WF(ga) && WF(gk);
    hide WF, Whole, CopyAt, Roots, KeptKids, KeptAttrs, Mapped;
    if d in ga {
      CopyMore(f, ga, oa, h, p, d, deep);
    } else {
      CopyMore(f, gk, ok, h, p, d, deep);
    }
  }

  lemma TopCopy(f: Forest, n: Node, e: Node, sa: seq<Node>, ga: Forest, oa: map<Node, Node>,
                sk: seq<Node>, gk: Forest, ok: map<Node, Node>, h: Forest, p: map<Node, Node>, deep: bool)
    requires n in f && IsWhole(h, e, CopyLabel(f[n].lab), sa, ga, sk, gk) && p == oa + ok + map[e := n]
    requires Clones(f, ga, oa, sa, KeptAttrs(f, n), deep) && Clones(f, gk, ok, sk, KeptKids(f, n, deep), deep)
    requires e in h
    ensures CopyAt(f, h, p, e, deep)
  {
    hide WF, Whole, KeptKids, KeptAttrs, AllCopied, Mapped, Roots, AttrRoots, CopyLabel;
    WholeRest(e, CopyLabel(f[n].lab), sa, ga, sk, gk, e);
    RootsIn(ga, sa);
    RootsIn(gk, sk);
    MappedMore(oa, p, sa);
    MappedMore(ok, p, sk);
  }

  // ----- single nodes

  /**
   The fields that are not links: a copy has those of its
   original, except that text and documents have no namespace.
   */
  ghost predicate Copied(s: Node, d: Node)
    reads s, d`nodeType, d`namespaceURI, d`prefix, d`localName
  {
    if s.nodeType == ElementNode || s.nodeType == AttributeNode then
      d.namespaceURI == s.namespaceURI && d.prefix == s.prefix && d.localName == s.localName
    else d.namespaceURI == None && d.prefix == None && d.localName == None
  }

  /** Every copy has the namespace fields of its original, and belongs to no document yet. */
  ghost predicate Contents(f: Forest, o: map<Node, Node>)
    reads f.Keys, o.Keys`nodeType, o.Keys`namespaceURI, o.Keys`prefix, o.Keys`localName, o.Keys`ownerDocument
  {
    forall d | d in o :: o[d] in f && Copied(o[d], d) && d.ownerDocument == null
  }

  method CloneText(src: Node) returns (d: Node)
    requires src.nodeType == TextNodeType || src.nodeType == CDataSectionNode
    ensures fresh(d) && Copied(src, d) && d.ownerDocument == null
    ensures HasLinks(d, null, null, null, null, null, Label(src.nodeType, src.nodeName, src.nodeValue))
  {
    d := new Node(src.nodeType, src.nodeName, src.nodeValue, null);
  }

  method CloneElementOrAttr(src: Node) returns (d: Node)
    requires src.nodeType == ElementNode || src.nodeType == AttributeNode
    ensures fresh(d) && Copied(src, d) && d.ownerDocument == null
    ensures HasLinks(d, null, null, null, null, null, Label(src.nodeType, src.nodeName, src.nodeValue))
  {
    d := new Node(src.nodeType, src.nodeName, src.nodeValue, null);
    d.namespaceURI := src.namespaceURI;
    d.prefix := src.prefix;
    d.localName := src.localName;
  }

  method NewDoc(ghost src: Node) returns (d: Node)
    requires src.nodeType == DocumentNode
    ensures fresh(d) && Copied(src, d) && d.ownerDocument == null
    ensures HasLinks(d, null, null, null, null, null, Label(DocumentNode, Machine.DOCUMENT_NAME, None))
  {
    d := new Node(DocumentNode, Machine.DOCUMENT_NAME, None, null);
  }

  // ----- linking the copies

  lemma RootsIn(g: Forest, s: seq<Node>)
    requires Roots(g, s)
    ensures forall i | 0 <= i < |s| :: s[i] in g && s[i] in s && Pos(s, s[i]) == i
  {
    forall i | 0 <= i < |s| ensures s[i] in g && s[i] in s && Pos(s, s[i]) == i {
      assert Free(g, s[i]);
      PosAt(s, i);
    }
  }

  /** setSiblingNodesParent, after the first child has been given its parent. */
  method SetParents(first: Node, parent: Node, ghost s: seq<Node>, ghost nodes: set<Node>)
    requires First(s) == first && forall i | 0 <= i < |s| :: s[i] in nodes && s[i].nextSibling == After(s, i)
    modifies nodes`parentNode
    ensures forall i | 0 <= i < |s| :: s[i].parentNode == parent
    ensures forall x | x in nodes && x !in s :: x.parentNode == old(x.parentNode)
  {
    first.parentNode := parent;
    var parentNode := first.parentNode;
    var nextptr := first.nextSibling;
    ghost var i := 1;
    while nextptr != null
      invariant 1 <= i <= |s| && nextptr == (if i < |s| then s[i] else null)
      invariant forall j | 0 <= j < i :: s[j].parentNode == parent
      invariant forall x | x in nodes && x !in s :: x.parentNode == old(x.parentNode)
      decreases |s| - i
    {
      nextptr.parentNode := parentNode;
      nextptr := nextptr.nextSibling;
      i := i + 1;
    }
  }

  lemma StrandSpelled(g: Forest, s: seq<Node>, par: Node?)
    requires Strand(g, s, par)
    ensures forall i | 0 <= i < |s| :: s[i] in g && s[i].nextSibling == After(s, i)
  {
    RootsIn(g, s);
    forall i | 0 <= i < |s| ensures s[i].nextSibling == After(s, i) {
      assert StrandAt(g, s, par, s[i]);
    }
  }

  /** Gives a new node its children. */
  method Adopt(e: Node, firstChild: Node?, ghost g: Forest, ghost s: seq<Node>)
    requires Strand(g, s, null) && First(s) == firstChild && e !in g
    modifies e`firstChild, g.Keys`parentNode
    ensures e.firstChild == firstChild && Strand(g, s, e)
  {
    hide WF, Next, Prev, Pos;
    StrandSpelled(g, s, null);
    e.firstChild := firstChild;
    if firstChild != null {
      SetParents(firstChild, e, s, g.Keys);
    }
    forall x | x in g ensures StrandAt(g, s, e, x) {
      assert old(StrandAt(g, s, null, x));
    }
  }

  /** Links a copy to the copies of the siblings after it. */
  method JoinNext(e: Node, nextSib: Node?, ghost g: Forest, ghost h: Forest, ghost s: seq<Node>)
    requires Strand(g, [e], null) && Strand(h, s, null) && g.Keys !! h.Keys && First(s) == nextSib && e in g
    requires nextSib != null ==> nextSib in h
    modifies e`nextSibling, h.Keys`prevSibling
    ensures Strand(g + h, [e] + s, null)
  {
    hide WF, Next, Prev, Pos, Roots, After, Before, First;
    StrandWF(g, [e]);
    StrandWF(h, s);
    StrandHead(g, e);
    LinkNext(e, nextSib, h.Keys);
    forall x | x in g && x != e ensures StrandAt(g, [e], null, x) {
      assert old(StrandAt(g, [e], null, x));
    }
    forall x | x in h ensures JoinAt(h, s, e, x) {
      JoinedAt(h, s, x);
      assert old(StrandAt(h, s, null, x));
    }
    JoinRep(e, g, s, h);
  }

  method LinkNext(e: Node, nextSib: Node?, ghost nodes: set<Node>)
    requires nextSib != null ==> nextSib in nodes
    requires e !in nodes
    modifies e`nextSibling, nodes`prevSibling
    ensures e.nextSibling == nextSib
    ensures forall x | x in nodes :: x.prevSibling == if x == nextSib then e else old(x.prevSibling)
  {
    e.nextSibling := nextSib;
    if nextSib != null {
      nextSib.prevSibling := e;
    }
  }

  lemma StrandWF(g: Forest, s: seq<Node>)
    requires Strand(g, s, null)
    ensures WF(g) && Roots(g, s)
  {
  }

  lemma JoinedAt(h: Forest, s: seq<Node>, x: Node)
    ensures First(s) == x ==> x in s
    ensures x in s ==> (First(s) == x <==> x == s[0])
  {
  }

  lemma StrandHead(g: Forest, e: Node)
    requires Strand(g, [e], null) && e in g
    ensures HasLinks(e, null, First(g[e].kids), null, null, First(g[e].attrs), g[e].lab)
  {
    assert StrandAt(g, [e], null, e);
  }

  // ----- the recursion

  /** The state in which a list of copies is handed back. */
  ghost predicate Cloned(f: Forest, g: Forest, o: map<Node, Node>, s: seq<Node>, us: seq<Node>, deep: bool)
    reads g.Keys, f.Keys, o.Keys
  {
    Clones(f, g, o, s, us, deep) && Strand(g, s, null) && Contents(f, o)
  }

  lemma NothingCloned(f: Forest, deep: bool)
    ensures Cloned(f, map[], map[], [], [], deep) && AttrRoots(map[], [])
  {
    NoClones(f, deep);
  }

  lemma ContentsJoin(f: Forest, o: map<Node, Node>, p: map<Node, Node>)
    requires Contents(f, o) && Contents(f, p)
    ensures Contents(f, o + p)
  {
  }

  lemma WholeDone(f: Forest, n: Node, e: Node, sa: seq<Node>, ga: Forest, oa: map<Node, Node>,
                  sk: seq<Node>, gk: Forest, ok: map<Node, Node>, h: Forest, p: map<Node, Node>, deep: bool)
    requires n in f && IsWhole(h, e, CopyLabel(f[n].lab), sa, ga, sk, gk) && p == oa + ok + map[e := n]
    requires Clones(f, ga, oa, sa, KeptAttrs(f, n), deep) && Clones(f, gk, ok, sk, KeptKids(f, n, deep), deep)
    requires Strand(ga, sa, null) && Strand(gk, sk, e)
    requires HasLinks(e, null, First(sk), null, null, First(sa), CopyLabel(f[n].lab))
    requires Contents(f, oa) && Contents(f, ok) && Copied(n, e) && e.ownerDocument == null
    ensures Cloned(f, h, p, [e], [n], deep) && h.Keys == ga.Keys + gk.Keys + {e}
  {
    hide Clones, Roots, WF, Whole, CopyLabel, Contents, Copied, KeptKids, KeptAttrs, Parts, Strand, HasLinks, IsWhole;
    WholeRep(h, e, CopyLabel(f[n].lab), sa, ga, sk, gk);
    WholeClones(f, n, e, sa, ga, oa, sk, gk, ok, h, p, deep);
    ContentsOne(f, e, n);
    ContentsJoin(f, oa, ok);
    ContentsJoin(f, oa + ok, map[e := n]);
  }

  lemma ContentsOne(f: Forest, e: Node, n: Node)
    requires n in f && Copied(n, e) && e.ownerDocument == null
    ensures Contents(f, map[e := n])
  {
  }

  /** What is kept of a list, by the type of its first node. */
  lemma KeptStep(f: Forest, a: Node, ts: seq<Rose>, deep: bool)
    requires ts != [] && a in f && ts[0].node == a
    ensures f[a].lab.typ == ElementNode ==>
              KeptOf(f, ts, deep) == if deep then [a] + KeptOf(f, ts[1..], deep) else [a]
    ensures f[a].lab.typ == AttributeNode ==> KeptOf(f, ts, deep) == [a] + KeptOf(f, ts[1..], deep)
    ensures f[a].lab.typ in {TextNodeType, CDataSectionNode, DocumentNode} ==> KeptOf(f, ts, deep) == [a]
    ensures f[a].lab.typ !in {ElementNode, AttributeNode, TextNodeType, CDataSectionNode, DocumentNode} ==>
              KeptOf(f, ts, deep) == []
  {
  }

  ghost predicate OnlyAttrs(f: Forest, ts: seq<Rose>) {
    forall i | 0 <= i < |ts| :: ts[i].node in f && f[ts[i].node].lab.typ == AttributeNode
  }

  /** The attributes of an element are all kept. */
  lemma KeptAttrList(f: Forest, n: Node, deep: bool)
    requires WF(f) && n in f
    ensures forall i | 0 <= i < |f[n].attrs| :: f[n].attrs[i] in f
    ensures OnlyAttrs(f, Trees(f, f[n].attrs)) && KeptOf(f, Trees(f, f[n].attrs), deep) == f[n].attrs
    ensures f[n].lab.typ == ElementNode ==>
              && KeptOf(f, Trees(f, f[n].attrs), deep) == KeptAttrs(f, n) && CopyLabel(f[n].lab) == f[n].lab
              && KeptKids(f, n, deep) == if deep then KeptOf(f, f[n].tree.kids, deep) else []
  {
    Ok(f, n);
    AttrTreesAre(f, f[n].attrs, deep);
  }

  lemma {:induction false} AttrTreesAre(f: Forest, s: seq<Node>, deep: bool)
    requires WF(f) && forall i | 0 <= i < |s| :: s[i] in f && f[s[i]].lab.typ == AttributeNode
    ensures OnlyAttrs(f, Trees(f, s)) && KeptOf(f, Trees(f, s), deep) == s
  {
    forall i | 0 <= i < |s| ensures Trees(f, s)[i].node == s[i] {
      Ok(f, s[i]);
    }
    if s != [] {
      AttrTreesAre(f, s[1..], deep);
      assert Trees(f, s)[1..] == Trees(f, s[1..]);
      assert s == [s[0]] + s[1..];
    }
  }

  ghost predicate NoDocs(f: Forest, ts: seq<Rose>) {
    forall i | 0 <= i < |ts| :: ts[i].node in f ==> f[ts[i].node].lab.typ != DocumentNode
  }

  /** Cloning goes on from an element or an attribute only to siblings that are no documents. */
  ghost predicate Guarded(f: Forest, a: Node?, ts: seq<Rose>) {
    a != null && a in f && (f[a].lab.typ == ElementNode || f[a].lab.typ == AttributeNode) ==> NoDocs(f, ts)
  }

  /** No element and no document has a document among its children. */
  lemma KidsNoDocs(f: Forest, n: Node)
    requires WF(f) && Edits.Proper(f) && n in f && (f[n].lab.typ == ElementNode || f[n].lab.typ == DocumentNode)
    ensures NoDocs(f, f[n].tree.kids)
  {
    Ok(f, n);
    hide WF;
    assert Edits.ProperAt(f, n);
    forall i | 0 <= i < |f[n].tree.kids|
      ensures f[n].tree.kids[i].node in f ==> f[f[n].tree.kids[i].node].lab.typ != DocumentNode
    {
      KidTree(f, n, i);
      assert Edits.Kinds(f, n, f[n].kids[i]);
    }
  }

  lemma AttrsNoDocs(f: Forest, ts: seq<Rose>)
    requires OnlyAttrs(f, ts)
    ensures NoDocs(f, ts)
  {
  }

  /** A deep clone of a document with more than one child to keep. */
  ghost predicate Crowded(f: Forest, a: Node?, deep: bool) {
    a != null && a in f && f[a].lab.typ == DocumentNode && |KeptKids(f, a, deep)| > 1
  }

  lemma {:induction false} KeptElements(f: Forest, ts: seq<Rose>)
    requires forall i | 0 <= i < |ts| :: ts[i].node in f && f[ts[i].node].lab.typ == ElementNode
    ensures |KeptOf(f, ts, true)| == |ts|
  {
    if ts != [] {
      KeptElements(f, ts[1..]);
    }
  }

  /** That is a deep clone of a document with more than one child, all of which are elements. */
  lemma CrowdedIff(f: Forest, d: Node, deep: bool)
    requires WF(f) && Edits.Proper(f) && d in f && f[d].lab.typ == DocumentNode
    ensures Crowded(f, d, deep) <==> deep && |f[d].kids| > 1
  {
    Ok(f, d);
    hide WF;
    assert Edits.ProperAt(f, d);
    forall i | 0 <= i < |f[d].tree.kids|
      ensures f[d].tree.kids[i].node in f && f[f[d].tree.kids[i].node].lab.typ == ElementNode
    {
      KidTree(f, d, i);
      assert Edits.Kinds(f, d, f[d].kids[i]);
    }
    KeptElements(f, f[d].tree.kids);
  }

  lemma AddedProper(f: Forest, n: Node, l: Label)
    requires WF(f) && Edits.Proper(f) && n !in f
    ensures Edits.Proper(Added(f, n, l)) && WF(Added(f, n, l)) && Free(Added(f, n, l), n)
    ensures forall x | x in f :: Added(f, n, l)[x] == f[x]
  {
    AddedKeeps(f, n, l);
    hide WF;
    var g := Added(f, n, l);
    forall x | x in g ensures Edits.ProperAt(g, x) {
      if x in f {
        assert Edits.ProperAt(f, x);
      }
    }
  }

  /** A new element appended to a document. */
  lemma NewRoot(f: Forest, d: Node, e: Node) returns (g: Forest)
    requires WF(f) && Edits.Proper(f) && d in f && e !in f && f[d].lab.typ == DocumentNode && f[d].hold == null
    ensures WF(g) && Edits.Proper(g) && d in g && g[d].lab == f[d].lab && g[d].hold == null
            && g[d].kids == f[d].kids + [e]
    ensures g.Keys == f.Keys + {e}
  {
    var l := Label(ElementNode, [], None);
    AddedProper(f, e, l);
    var h := Added(f, e, l);
    assert h[e].tree == Rose(e, []) && !Has(h[e].tree, d) && Edits.Kinds(h, d, e);
    hide WF, Edits.Proper, Has, Insert;
    g := Attached(h, d, e, |f[d].kids|);
    AttachedKeeps(h, d, e, |f[d].kids|);
    Edits.AttachedProper(h, d, e, |f[d].kids|);
    AttachedRest(h, d, e, |f[d].kids|, d);
    InsertLast(f[d].kids, e);
  }

  lemma InsertLast(s: seq<Node>, e: Node)
    ensures Insert(s, |s|, e) == s + [e]
  {
  }

  lemma NewDocument(d: Node) returns (f: Forest)
    ensures WF(f) && Edits.Proper(f) && f.Keys == {d} && f[d].lab.typ == DocumentNode && f[d].kids == []
            && f[d].hold == null
  {
    var l := Label(DocumentNode, Machine.DOCUMENT_NAME, None);
    AddedProper(map[], d, l);
    f := Added(map[], d, l);
  }

  /** The smallest document that is crowded. */
  lemma TwoRoots(d: Node, a: Node, b: Node) returns (f: Forest)
    requires d != a && d != b && a != b
    ensures WF(f) && Edits.Proper(f) && d in f && f[d].lab.typ == DocumentNode && f[d].kids == [a, b]
    ensures Crowded(f, d, true) && !Crowded(f, d, false)
  {
    f := NewDocument(d);
    hide WF, Edits.Proper, Crowded;
    f := NewRoot(f, d, a);
    f := NewRoot(f, d, b);
    assert [] + [a] + [b] == [a, b];
    CrowdedIff(f, d, true);
    CrowdedIff(f, d, false);
  }

  /** What such a clone is: only the first of the copied children has the copy as its parent. */
  ghost predicate Orphaned(f: Forest, e: Node, n: Node, s: seq<Node>, g: Forest, o: map<Node, Node>)
    reads e, n, g.Keys, f.Keys, o.Keys
  {
    && |s| > 1 && n in f && e !in g && HasLinks(e, null, s[0], null, null, null, CopyLabel(f[n].lab))
    && Copied(n, e) && e.ownerDocument == null
    && Clones(f, g, o, s, KeptKids(f, n, true), true) && Contents(f, o) && HeadAdopted(g, s, e)
  }

  ghost predicate HeadAdopted(g: Forest, s: seq<Node>, e: Node)
    reads g.Keys
  {
    Roots(g, s) && s != [] && forall x | x in g :: StrandAt(g, s, if x == s[0] then e else null, x)
  }

  /** No forest has such links. */
  lemma OrphansInNoForest(f: Forest, e: Node, n: Node, s: seq<Node>, g: Forest, o: map<Node, Node>, h: Forest)
    requires Orphaned(f, e, n, s, g, o)
    ensures !(Holds(h) && e in h)
  {
    OrphanLinks(g, s, e);
    hide Clones, Contents, Copied, CopyLabel, Holds;
    SecondChild(h, e, s[0], s[1]);
  }

  lemma OrphanLinks(g: Forest, s: seq<Node>, e: Node)
    requires HeadAdopted(g, s, e) && |s| > 1
    ensures s[0].parentNode == e && s[0].nextSibling == s[1] && s[1].parentNode == null
  {
    RootsIn(g, s);
    hide WF;
    assert StrandAt(g, s, e, s[0]) && StrandAt(g, s, null, s[1]);
  }

  /** In a forest the second child of a node has it as its parent, like the first. */
  lemma SecondChild(h: Forest, e: Node, a: Node, b: Node)
    requires e.firstChild == a && a.nextSibling == b
    ensures Holds(h) && e in h ==> b.parentNode == e
  {
    if Holds(h) && e in h {
      assert RepNode(h, e);
      Ok(h, e);
      var s := h[e].kids;
      assert s[0] == a && RepNode(h, a);
      Ok(h, a);
      assert Next(h, a) == After(s, 0);
      assert s[1] == b && RepNode(h, b);
    }
  }

  /** Gives a document its first child, and no other one its parent. */
  method AdoptFirst(e: Node, firstChild: Node?, ghost g: Forest, ghost s: seq<Node>)
    requires Strand(g, s, null) && First(s) == firstChild && e !in g
    modifies e`firstChild, g.Keys`parentNode
    ensures e.firstChild == firstChild
    ensures if |s| <= 1 then Strand(g, s, e) else HeadAdopted(g, s, e)
  {
    hide WF, Next, Prev, Pos;
    StrandSpelled(g, s, null);
    e.firstChild := firstChild;
    if firstChild != null {
      firstChild.parentNode := e;
    }
    forall x | x in g ensures StrandAt(g, s, if x == firstChild then e else null, x) {
      assert old(StrandAt(g, s, null, x));
      assert x == firstChild ==> x in s;
    }
    if |s| <= 1 {
      forall x | x in g ensures StrandAt(g, s, e, x) {
        assert x in s <==> x == firstChild;
      }
    }
  }

  /** A copied node without attributes and children. */
  lemma AloneDone(f: Forest, n: Node, e: Node, deep: bool) returns (h: Forest, p: map<Node, Node>)
    requires n in f && KeptAttrs(f, n) == [] && KeptKids(f, n, deep) == []
    requires HasLinks(e, null, null, null, null, null, CopyLabel(f[n].lab))
    requires Copied(n, e) && e.ownerDocument == null
    ensures h.Keys == {e} && Cloned(f, h, p, [e], [n], deep)
  {
    NothingCloned(f, deep);
    NoStrand(e);
    h, p := Whole(e, CopyLabel(f[n].lab), [], map[], [], map[]), map[] + map[] + map[e := n];
    WholeDone(f, n, e, [], map[], map[], [], map[], map[], h, p, deep);
  }

  lemma PartsOf(f: Forest, n: Node, e: Node, sa: seq<Node>, ga: Forest, oa: map<Node, Node>,
                sk: seq<Node>, gk: Forest, ok: map<Node, Node>, deep: bool)
    requires WF(f) && n in f && ga.Keys !! gk.Keys && e !in ga && e !in gk
    requires Clones(f, ga, oa, sa, KeptAttrs(f, n), deep) && Clones(f, gk, ok, sk, KeptKids(f, n, deep), deep)
    ensures Parts(e, sa, ga, sk, gk)
  {
    CopiedAttrs(f, ga, oa, sa, n, deep);
  }

  /** A new node that has been given copies of its attributes and of its children. */
  lemma CopyDone(f: Forest, n: Node, e: Node, sa: seq<Node>, ga: Forest, oa: map<Node, Node>,
                 sk: seq<Node>, gk: Forest, ok: map<Node, Node>, deep: bool) returns (g: Forest, o: map<Node, Node>)
    requires WF(f) && n in f && ga.Keys !! gk.Keys && e !in ga && e !in gk
    requires Clones(f, ga, oa, sa, KeptAttrs(f, n), deep) && Clones(f, gk, ok, sk, KeptKids(f, n, deep), deep)
    requires Strand(ga, sa, null) && Strand(gk, sk, e) && Contents(f, oa) && Contents(f, ok)
    requires HasLinks(e, null, First(sk), null, null, First(sa), CopyLabel(f[n].lab))
    requires Copied(n, e) && e.ownerDocument == null
    ensures Cloned(f, g, o, [e], [n], deep) && g.Keys == ga.Keys + gk.Keys + {e}
  {
    hide WF, Clones, Contents, Whole, Strand, Parts, KeptAttrs, KeptKids, CopyLabel, HasLinks, Copied;
    PartsOf(f, n, e, sa, ga, oa, sk, gk, ok, deep);
    g := Whole(e, CopyLabel(f[n].lab), sa, ga, sk, gk);
    o := oa + ok + map[e := n];
    WholeDone(f, n, e, sa, ga, oa, sk, gk, ok, g, o, deep);
  }

  /** A copied element, with its attributes and, in a deep clone, its children. */
  method CloneElementTree(n: Node, deep: bool, ghost f: Forest)
    returns (e: Node, ghost g: Forest, ghost o: map<Node, Node>)
    requires Holds(f) && Edits.Proper(f) && n in f && f[n].lab.typ == ElementNode
    ensures Cloned(f, g, o, [e], [n], deep) && e in g && forall x | x in g :: fresh(x)
    decreases 1, f[n].tree.kids, 3
  {
    hide WF, Rep, Clones, Contents, Whole, KeptOf, Chain, Next, Prev, Strand, Roots, Parts,
         Mapped, KeptAttrs, KeptKids, AllCopied, OnlyAttrs, Edits.Proper, Copied, CopyLabel;
    Fields(f, n);
    e := CloneElementOrAttr(n);
    KeptAttrList(f, n, deep);
    var attr;
    ghost var sa, ga: Forest, oa;
    attr, sa, ga, oa := CloneAttrs(n, deep, f);
    assert e !in ga;
    e.firstAttr := attr;
    ghost var sk: seq<Node>, gk: Forest, ok: map<Node, Node> := [], map[], map[];
    NothingCloned(f, deep);
    NoStrand(e);
    if deep {
      sk, gk, ok := CloneKids(n, e, f, ga);
    }
    g, o := CopyDone(f, n, e, sa, ga, oa, sk, gk, ok, deep);
  }

  method CloneAttrs(n: Node, deep: bool, ghost f: Forest)
    returns (attr: Node?, ghost sa: seq<Node>, ghost ga: Forest, ghost oa: map<Node, Node>)
    requires Holds(f) && Edits.Proper(f) && n in f && f[n].lab.typ == ElementNode
    ensures attr == First(sa) && Cloned(f, ga, oa, sa, KeptAttrs(f, n), deep) && forall x | x in ga :: fresh(x)
    decreases 1, f[n].tree.kids, 0
  {
    hide WF, Rep, Cloned, KeptOf, Chain, Next, Prev, KeptAttrs, KeptKids, CopyLabel, OnlyAttrs;
    Fields(f, n);
    KeptAttrList(f, n, deep);
    ChainAttrs(f, n);
    AttrsNoDocs(f, Trees(f, f[n].attrs));
    NotDocument(f, First(f[n].attrs), Trees(f, f[n].attrs), deep);
    attr, sa, ga, oa := CloneNodeTreeRecursive(n.firstAttr, deep, f, Trees(f, f[n].attrs), true);
  }

  method CloneKids(n: Node, e: Node, ghost f: Forest, ghost ga: Forest)
    returns (ghost sk: seq<Node>, ghost gk: Forest, ghost ok: map<Node, Node>)
    requires Holds(f) && Edits.Proper(f) && n in f && f[n].lab.typ == ElementNode && e !in f
    modifies e`firstChild
    ensures e.firstChild == First(sk) && Strand(gk, sk, e) && e !in gk && gk.Keys !! ga.Keys
            && forall x | x in gk :: fresh(x)
    ensures Clones(f, gk, ok, sk, KeptKids(f, n, true), true) && Contents(f, ok)
    decreases 1, f[n].tree.kids, 2
  {
    hide WF, Rep, Clones, Contents, KeptOf, Chain, Next, Prev, Strand, KeptAttrs, KeptKids, CopyLabel;
    Fields(f, n);
    KeptAttrList(f, n, true);
    ChainKids(f, n);
    KidsNoDocs(f, n);
    NotDocument(f, First(f[n].kids), f[n].tree.kids, true);
    Ok(f, n);
    var first;
    first, sk, gk, ok := CloneNodeTreeRecursive(n.firstChild, true, f, f[n].tree.kids, false);
    assert e !in gk && ga.Keys !! gk.Keys;
    Adopt(e, first, gk, sk);
  }

  /** A copied text or CDATA node. */
  method CloneTextTree(n: Node, deep: bool, ghost f: Forest)
    returns (e: Node, ghost g: Forest, ghost o: map<Node, Node>)
    requires Holds(f) && n in f && (f[n].lab.typ == TextNodeType || f[n].lab.typ == CDataSectionNode)
    ensures Cloned(f, g, o, [e], [n], deep) && e in g && forall x | x in g :: fresh(x)
  {
    hide WF, Rep, Next, Cloned;
    Fields(f, n);
    e := CloneText(n);
    g, o := AloneDone(f, n, e, deep);
  }

  method CloneAttrTree(n: Node, deep: bool, ghost f: Forest)
    returns (e: Node, ghost g: Forest, ghost o: map<Node, Node>)
    requires Holds(f) && n in f && f[n].lab.typ == AttributeNode
    ensures Cloned(f, g, o, [e], [n], deep) && e in g && forall x | x in g :: fresh(x)
  {
    hide WF, Rep, Next, Cloned;
    Fields(f, n);
    e := CloneElementOrAttr(n);
    g, o := AloneDone(f, n, e, deep);
  }

  lemma DocumentKept(f: Forest, n: Node, deep: bool)
    requires WF(f) && n in f && f[n].lab.typ == DocumentNode
    ensures KeptAttrs(f, n) == [] && KeptKids(f, n, deep) == (if deep then KeptOf(f, f[n].tree.kids, deep) else [])
    ensures CopyLabel(f[n].lab) == Label(DocumentNode, Machine.DOCUMENT_NAME, None)
  {
    Ok(f, n);
  }

  lemma CountCopies(f: Forest, g: Forest, o: map<Node, Node>, s: seq<Node>, us: seq<Node>, deep: bool)
    requires Clones(f, g, o, s, us, deep)
    ensures |s| == |us|
  {
    assert |Mapped(o, s)| == |s|;
  }

  /**
   A copied document, with its children in a deep clone; if there
   are more than one, only the first gets its parent.
   */
  method CloneDocumentTree(n: Node, deep: bool, ghost f: Forest)
    returns (e: Node, ghost s: seq<Node>, ghost g: Forest, ghost o: map<Node, Node>)
    requires Holds(f) && Edits.Proper(f) && n in f && f[n].lab.typ == DocumentNode
    ensures !Crowded(f, n, deep) ==> s == [e] && Cloned(f, g, o, s, [n], deep) && e in g
    ensures Crowded(f, n, deep) ==> Orphaned(f, e, n, s, g, o)
    ensures fresh(e) && forall x | x in g :: fresh(x)
    decreases 1, f[n].tree.kids, 2
  {
    hide WF, Rep, Clones, Contents, Whole, KeptOf, Chain, Next, Prev, Strand, Roots, Parts, HeadAdopted,
         Mapped, KeptAttrs, KeptKids, CopyLabel, AllCopied, OnlyAttrs, NoDocs, Edits.Proper;
    Fields(f, n);
    e := NewDoc(n);
    DocumentKept(f, n, deep);
    ghost var sk: seq<Node>, gk: Forest, ok: map<Node, Node> := [], map[], map[];
    NothingCloned(f, deep);
    NoStrand(e);
    if deep {
      ChainKids(f, n);
      KidsNoDocs(f, n);
      NotDocument(f, First(f[n].kids), f[n].tree.kids, deep);
      Ok(f, n);
      var first;
      first, sk, gk, ok := CloneNodeTreeRecursive(n.firstChild, deep, f, f[n].tree.kids, false);
      assert e !in gk;
      AdoptFirst(e, first, gk, sk);
    }
    CountCopies(f, gk, ok, sk, KeptKids(f, n, deep), deep);
    if |sk| > 1 {
      s, g, o := sk, gk, ok;
    } else {
      s := [e];
      g, o := CopyDone(f, n, e, [], map[], map[], sk, gk, ok, deep);
    }
  }

  lemma JoinDone(f: Forest, g: Forest, o: map<Node, Node>, e: Node, n: Node,
                 h: Forest, p: map<Node, Node>, s: seq<Node>, us: seq<Node>, deep: bool)
    requires Clones(f, g, o, [e], [n], deep) && Clones(f, h, p, s, us, deep) && g.Keys !! h.Keys
    requires Contents(f, o) && Contents(f, p) && Strand(g + h, [e] + s, null)
    ensures Cloned(f, g + h, o + p, [e] + s, [n] + us, deep)
  {
    hide Clones, Contents, Strand;
    JoinClones(f, g, o, e, n, h, p, s, us, deep);
    ContentsJoin(f, o, p);
  }

  lemma FirstIn(f: Forest, h: Forest, p: map<Node, Node>, s: seq<Node>, us: seq<Node>, deep: bool)
    requires Clones(f, h, p, s, us, deep)
    ensures First(s) != null ==> First(s) in h
  {
    RootsIn(h, s);
  }

  /** The copies of the siblings after a node are linked to its copy. */
  method CloneNext(n: Node, e: Node, deep: bool, ghost f: Forest, ghost ts: seq<Rose>, ghost asAttrs: bool,
                   ghost g0: Forest, ghost o0: map<Node, Node>)
    returns (ghost s: seq<Node>, ghost g: Forest, ghost o: map<Node, Node>)
    requires Holds(f) && Edits.Proper(f) && n in f && Chain(f, n, ts) && ts != [] && (asAttrs ==> OnlyAttrs(f, ts))
    requires NoDocs(f, ts)
    requires Cloned(f, g0, o0, [e], [n], deep) && e in g0 && g0.Keys !! f.Keys
    modifies e`nextSibling
    ensures First(s) == e && Cloned(f, g, o, s, [n] + KeptOf(f, ts[1..], deep), deep)
    ensures forall x | x in g :: x in g0 || fresh(x)
    decreases if asAttrs then 0 else 1, ts, 0
  {
    hide WF, Rep, Clones, Contents, KeptOf, Next, Prev, Strand, Chain;
    Fields(f, n);
    ChainStep(f, n, ts);
    OnlyAttrsRest(f, ts, asAttrs);
    RestNoDocs(f, ts);
    NotDocument(f, Next(f, n), ts[1..], deep);
    var nextSib;
    ghost var s1, g1: Forest, o1;
    nextSib, s1, g1, o1 := CloneNodeTreeRecursive(n.nextSibling, deep, f, ts[1..], asAttrs);
    FirstIn(f, g1, o1, s1, KeptOf(f, ts[1..], deep), deep);
    assert g0.Keys !! g1.Keys;
    JoinNext(e, nextSib, g0, g1, s1);
    s, g, o := [e] + s1, g0 + g1, o0 + o1;
    JoinDone(f, g0, o0, e, n, g1, o1, s1, KeptOf(f, ts[1..], deep), deep);
  }

  lemma RestNoDocs(f: Forest, ts: seq<Rose>)
    requires ts != [] && NoDocs(f, ts)
    ensures NoDocs(f, ts[1..])
  {
  }

  /** A list without documents may be cloned from its first node, and that is not crowded. */
  lemma NotDocument(f: Forest, a: Node?, ts: seq<Rose>, deep: bool)
    requires WF(f) && Chain(f, a, ts) && NoDocs(f, ts)
    ensures Guarded(f, a, ts) && !Crowded(f, a, deep)
  {
    if a == null {
      ChainEmpty(f, ts);
    } else {
      ChainStep(f, a, ts);
    }
  }

  lemma OnlyAttrsRest(f: Forest, ts: seq<Rose>, asAttrs: bool)
    requires ts != [] && (asAttrs ==> OnlyAttrs(f, ts))
    ensures asAttrs ==> OnlyAttrs(f, ts[1..]) && ts[0].node in f && f[ts[0].node].lab.typ == AttributeNode
  {
  }

  /** Copies a node and, as far as they are kept, what is below it and the siblings after it. */
  method CloneNodeTreeRecursive(nodeptr: Node?, deep: bool, ghost f: Forest, ghost ts: seq<Rose>, ghost asAttrs: bool)
    returns (newNode: Node?, ghost s: seq<Node>, ghost g: Forest, ghost o: map<Node, Node>)
    requires Holds(f) && Edits.Proper(f) && Chain(f, nodeptr, ts) && (asAttrs ==> OnlyAttrs(f, ts))
    requires Guarded(f, nodeptr, ts)
    ensures !Crowded(f, nodeptr, deep) ==> newNode == First(s) && Cloned(f, g, o, s, KeptOf(f, ts, deep), deep)
    ensures Crowded(f, nodeptr, deep) ==> newNode != null && Orphaned(f, newNode, nodeptr, s, g, o)
    ensures (newNode != null ==> fresh(newNode)) && forall x | x in g :: fresh(x)
    decreases if asAttrs then 0 else 1, ts, 1
  {
    hide WF, Rep, KeptOf, Next, Prev, Cloned, Chain, OnlyAttrs, NoDocs, Orphaned, KeptKids, Edits.Proper;
    newNode, s, g, o := null, [], map[], map[];
    NothingCloned(f, deep);
    if nodeptr == null {
      ChainEmpty(f, ts);
      KeptNothing(f, deep);
      return;
    }
    ChainStep(f, nodeptr, ts);
    ChainNext(f, nodeptr, ts);
    Fields(f, nodeptr);
    KeptStep(f, nodeptr, ts, deep);
    OnlyAttrsRest(f, ts, asAttrs);
    match nodeptr.nodeType {
      case ElementNode =>
        newNode, g, o := CloneElementTree(nodeptr, deep, f);
        s := [newNode];
        if deep {
          s, g, o := CloneNext(nodeptr, newNode, deep, f, ts, asAttrs, g, o);
        }
      case AttributeNode =>
        newNode, g, o := CloneAttrTree(nodeptr, deep, f);
        s, g, o := CloneNext(nodeptr, newNode, deep, f, ts, asAttrs, g, o);
      case TextNodeType =>
        newNode, g, o := CloneTextTree(nodeptr, deep, f);
        s := [newNode];
      case CDataSectionNode =>
        newNode, g, o := CloneTextTree(nodeptr, deep, f);
        s := [newNode];
      case DocumentNode =>
        newNode, s, g, o := CloneDocumentTree(nodeptr, deep, f);
      case _ =>
    }
  }

  lemma KeptNothing(f: Forest, deep: bool)
    ensures KeptOf(f, [], deep) == []
  {
  }
}
