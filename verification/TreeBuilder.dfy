/** The main loop of the parser: it reads nodes and links them into a document. */
module TreeBuilder {
  import opened Bytes
  import opened Xml
  import opened Nodes
  import opened Forests
  import opened Edits
  import opened NodeOps
  import opened Attributes
  import opened AttrMaps
  import opened Printer
  import opened Scanner
  import opened NodeReader
  import opened Building
  import Machine
  import Parse
  import Lexer
  import NodeFree
  import MachineProperties

  // ----- namespaces in scope

  lemma NsLookupStep(ns: seq<Machine.Ns>, j: nat, prefix: bytes)
    requires j < |ns|
    ensures Machine.NsLookup(ns[j..], prefix)
         == if ns[j].prefix == prefix then Some(ns[j].uri) else Machine.NsLookup(ns[j + 1..], prefix)
  {
    assert ns[j..][1..] == ns[j + 1..];
  }

  method FindNamespace(ns: seq<Machine.Ns>, prefix: bytes) returns (uri: Option<bytes>)
    ensures uri == Machine.NsLookup(ns, prefix)
  {
    var j := 0;
    while j < |ns|
      invariant j <= |ns| && Machine.NsLookup(ns, prefix) == Machine.NsLookup(ns[j..], prefix)
    {
      NsLookupStep(ns, j, prefix);
      if ns[j].prefix == prefix {
        return Some(ns[j].uri);
      }
      j := j + 1;
    }
    return None;
  }

  lemma PrefixStep(stack: seq<Machine.Scope>, i: nat, prefix: bytes)
    requires i < |stack|
    ensures Machine.PrefixLookup(stack[i..], prefix)
         == if stack[i].prefix == Some(prefix) then Some(Said(stack[i].uri))
            else if Machine.NsLookup(stack[i].ns, prefix).Some? then Machine.NsLookup(stack[i].ns, prefix)
            else Machine.PrefixLookup(stack[i + 1..], prefix)
  {
    assert stack[i..][1..] == stack[i + 1..];
  }

  /** Whether a prefix is defined; its URI may be missing even so. */
  method ElementPrefixDefined(p: Parser, prefix: bytes) returns (defined: bool, nsURI: Option<bytes>)
    ensures defined <==> Machine.PrefixLookup(p.elements, prefix).Some?
    ensures defined ==> Said(nsURI) == Machine.PrefixLookup(p.elements, prefix).value
  {
    var i := 0;
    while i < |p.elements|
      invariant i <= |p.elements|
      invariant Machine.PrefixLookup(p.elements, prefix) == Machine.PrefixLookup(p.elements[i..], prefix)
    {
      PrefixStep(p.elements, i, prefix);
      if p.elements[i].prefix == Some(prefix) {
        return true, p.elements[i].uri;
      }
      nsURI := FindNamespace(p.elements[i].ns, prefix);
      if nsURI.Some? {
        return true, nsURI;
      }
      i := i + 1;
    }
    return false, None;
  }

  method HasDefaultNamespace(p: Parser) returns (defined: bool, nsURI: Option<bytes>)
    ensures defined <==> Machine.DefaultLookup(p.elements).Some?
    ensures defined ==> nsURI == Machine.DefaultLookup(p.elements)
  {
    var i := 0;
    while i < |p.elements|
      invariant i <= |p.elements| && Machine.DefaultLookup(p.elements) == Machine.DefaultLookup(p.elements[i..])
    {
      assert p.elements[i..][1..] == p.elements[i + 1..];
      if p.elements[i].prefix.None? && p.elements[i].uri.Some? {
        return true, p.elements[i].uri;
      }
      i := i + 1;
    }
    return false, None;
  }

  method SetElementNamespace(e: Node, nsURI: Option<bytes>)
    requires e.namespaceURI == None
    modifies e`namespaceURI
    ensures e.namespaceURI == Some(Said(nsURI))
  {
    if e.namespaceURI == None {
      e.namespaceURI := Some(Said(nsURI));
    }
  }

  /** Finds the namespace of a new element, or lets it wait for one, and pushes it. */
  method PushScoped(p: Parser, e: Node, name: bytes, prefix: Option<bytes>)
    requires e.nodeName == name && e.prefix == prefix && e.namespaceURI == None
    modifies p`elements, p`pNeedPrefixNode, e`namespaceURI
    ensures ReaderOf(p) == Machine.Opened(old(ReaderOf(p)), name, prefix)
    ensures p.pNeedPrefixNode == old(p.pNeedPrefixNode) || p.pNeedPrefixNode == e
  {
    hide Machine.PrefixLookup, Machine.DefaultLookup;
    if prefix.Some? {
      var defined, nsURI := ElementPrefixDefined(p, prefix.value);
      if !defined {
        p.pNeedPrefixNode := e;
      } else {
        SetElementNamespace(e, nsURI);
      }
    } else {
      var defined, nsURI := HasDefaultNamespace(p);
      if defined {
        SetElementNamespace(e, nsURI);
      } else if p.state == Machine.InAttribute {
        p.pNeedPrefixNode := e;
      }
    }
    p.elements := [Machine.Scope(e.nodeName, e.prefix, e.namespaceURI, [])] + p.elements;
  }

  // ----- nodes

  const TEXT_NAME: bytes := [0x23, 0x74, 0x65, 0x78, 0x74] // #text
  // #cdata-section
  const CDATA_NAME: bytes :=
    [0x23, 0x63, 0x64, 0x61, 0x74, 0x61, 0x2D, 0x73, 0x65, 0x63, 0x74, 0x69, 0x6F, 0x6E]

  /** The nodes of a document under construction. */
  ghost predicate Site(f: Forest, doc: Node)
    reads f.Keys
  {
    && Holds(f) && doc in f && f[doc].par == null && f[doc].lab.typ == DocumentNode
    && forall x | x in f :: x.ownerDocument == doc
  }

  /** Appends a new node to the current one; text directly under the document is refused. */
  method AppendNew(cur: Node, c: Node, doc: Node, ghost f: Forest, ghost l: Label) returns (ok: bool, ghost g: Forest)
    requires Site(f, doc) && cur in f && c !in f && f[cur].hold == null && l.typ != AttributeNode
    requires f[cur].lab.typ == ElementNode || f[cur].lab.typ == DocumentNode
    requires l.typ in {ElementNode, TextNodeType, CDataSectionNode}
    requires HasLinks(c, null, null, null, null, null, l) && c.ownerDocument == doc
    modifies f.Keys`parentNode, f.Keys`firstChild, f.Keys`prevSibling, f.Keys`nextSibling
    modifies c`parentNode, c`firstChild, c`prevSibling, c`nextSibling, c`ownerDocument
    ensures ok <==> f[cur].lab.typ == ElementNode || l.typ == ElementNode
    ensures Site(g, doc) && g.Keys == f.Keys + {c}
    ensures ok ==> Grew(f, g, cur, c, l)
  {
    hide WF, Rep, Appended, Taken, Fits, Ancestral, Added, Grew;
    NewFits(f, cur, c, l);
    AddedHolds(f, c, l);
    NewPlaceable(f, cur, c, l);
    AppendGrows(f, cur, c, l);
    ghost var h := Added(f, c, l);
    AddedRest(f, c, l, cur);
    AddedRest(f, c, l, doc);
    GrewRest(f, Appended(h, cur, c), cur, c, l, doc);
    var rc;
    rc, g := AppendChild(cur, c, h);
    ok := rc == Status.Success;
  }

  lemma GrewRest(f: Forest, g: Forest, p: Node, c: Node, l: Label, x: Node)
    requires Grew(f, g, p, c, l) && x in f
    ensures x in g && g[x].par == f[x].par && g[x].lab == f[x].lab
  {
  }

  lemma GrewAttrRest(f: Forest, g: Forest, e: Node, a: Node, l: Label, x: Node)
    requires GrewAttr(f, g, e, a, l) && x in f
    ensures x in g && g[x].par == f[x].par && g[x].lab == f[x].lab
  {
  }

  lemma AddedRest(f: Forest, c: Node, l: Label, x: Node)
    requires x in f && c !in f
    ensures var h := Added(f, c, l); h.Keys == f.Keys + {c} && h[x] == f[x] && h[c].lab == l
  {
  }

  /** A new node may be placed, and is below nothing. */
  lemma NewPlaceable(f: Forest, p: Node, c: Node, l: Label)
    requires WF(f) && p in f && c !in f && f[p].hold == null
    ensures var h := Added(f, c, l);
            && WF(h) && p in h && c in h && Placeable(h, p, c) && !Ancestral(h, c, p)
            && h[p].lab == f[p].lab && h[c].lab == l
  {
    AddedKeeps(f, c, l);
    var h := Added(f, c, l);
    Ok(h, p);
    AncestralIffBelow(h, p, c);
  }

  /** createElementEx and setNodeProperties. */
  method CreateElement(rootDoc: Node, name: bytes, prefix: Option<bytes>, localName: bytes) returns (e: Node)
    ensures fresh(e) && HasLinks(e, null, null, null, null, null, Label(ElementNode, name, None))
    ensures e.nodeName == name && e.prefix == prefix && e.localName == Some(localName)
    ensures e.namespaceURI == None && e.ownerDocument == rootDoc
  {
    e := new Node(ElementNode, name, None, rootDoc);
    e.localName := Some(localName);
    e.prefix := prefix;
  }

  /** A new element with its namespace, if it is known yet, pushed on the stack of open elements. */
  method PushNew(rootDoc: Node, p: Parser, name: bytes, prefix: Option<bytes>, localName: bytes) returns (e: Node)
    modifies p`elements, p`savePtr, p`pNeedPrefixNode
    ensures fresh(e) && HasLinks(e, null, null, null, null, null, Label(ElementNode, name, None))
    ensures e.ownerDocument == rootDoc && ReaderOf(p) == Machine.Opened(old(ReaderOf(p)), name, prefix)
    ensures p.pNeedPrefixNode == old(p.pNeedPrefixNode) || p.pNeedPrefixNode == e
  {
    hide Machine.Opened;
    p.savePtr := p.curPtr;
    e := CreateElement(rootDoc, name, prefix, localName);
    PushScoped(p, e, name, prefix);
  }

  /** A new element becomes the last child of the current node, and the current node. */
  method LinkElement(rootDoc: Node, p: Parser, e: Node, ghost f: Forest, ghost l: Label) returns (ghost g: Forest)
    requires Site(f, rootDoc) && p.currentNodePtr != null && p.currentNodePtr in f && f[p.currentNodePtr].hold == null
    requires f[p.currentNodePtr].lab.typ == ElementNode || f[p.currentNodePtr].lab.typ == DocumentNode
    requires HasLinks(e, null, null, null, null, null, l) && e.ownerDocument == rootDoc && e !in f
    requires l.typ == ElementNode
    modifies p`currentNodePtr
    modifies f.Keys`parentNode, f.Keys`firstChild, f.Keys`prevSibling, f.Keys`nextSibling
    modifies e`parentNode, e`firstChild, e`prevSibling, e`nextSibling, e`ownerDocument
    ensures Site(g, rootDoc) && Grew(f, g, old(p.currentNodePtr), e, l) && p.currentNodePtr == e
    ensures e in g
  {
    hide WF, Rep, Grew, Site, HasLinks;
    var appended;
    appended, g := AppendNew(p.currentNodePtr, e, rootDoc, f, l);
    p.currentNodePtr := e;
  }

  /** An element that has been read becomes the last child of the current node, and the current node. */
  method ProcessElementName(rootDoc: Node, p: Parser, name: bytes, prefix: Option<bytes>, localName: bytes,
                            ghost f: Forest)
    returns (ok: bool, ghost e: Node, ghost g: Forest)
    requires Site(f, rootDoc) && p.currentNodePtr != null && p.currentNodePtr in f && f[p.currentNodePtr].hold == null
    requires f[p.currentNodePtr].lab.typ == ElementNode || f[p.currentNodePtr].lab.typ == DocumentNode
    modifies p`bHasTopLevel, p`savePtr, p`currentNodePtr, p`elements, p`pNeedPrefixNode
    modifies f.Keys`parentNode, f.Keys`firstChild, f.Keys`prevSibling, f.Keys`nextSibling
    ensures ok <==> !(old(p.bHasTopLevel) && old(p.elements) == [])
    ensures !ok ==> g == f && Site(g, rootDoc)
    ensures ok ==>
              && fresh(e) && Site(g, rootDoc) && Grew(f, g, old(p.currentNodePtr), e, Label(ElementNode, name, None))
              && p.currentNodePtr == e && p.bHasTopLevel
              && ReaderOf(p) == Machine.Opened(old(ReaderOf(p)), name, prefix)
    ensures p.pNeedPrefixNode == null || p.pNeedPrefixNode == old(p.pNeedPrefixNode) || fresh(p.pNeedPrefixNode)
    ensures p.pNeedPrefixNode != null && fresh(p.pNeedPrefixNode) ==> p.pNeedPrefixNode in g
  {
    hide WF, Rep, Grew, Machine.Opened, Site, HasLinks;
    e, g := rootDoc, f;
    if p.bHasTopLevel {
      if p.elements == [] {
        return false, rootDoc, f;
      }
    } else {
      p.bHasTopLevel := true;
    }
    var newElement := PushNew(rootDoc, p, name, prefix, localName);
    g := LinkElement(rootDoc, p, newElement, f, Label(ElementNode, name, None));
    return true, newElement, g;
  }

  /** A text or CDATA node becomes the last child of the current node, if that is not the document. */
  method ProcessLeaf(rootDoc: Node, p: Parser, typ: NodeType, name: bytes, value: bytes, ghost f: Forest)
    returns (ok: bool, ghost t: Node, ghost g: Forest)
    requires Site(f, rootDoc) && p.currentNodePtr != null && p.currentNodePtr in f && f[p.currentNodePtr].hold == null
    requires f[p.currentNodePtr].lab.typ == ElementNode || f[p.currentNodePtr].lab.typ == DocumentNode
    requires typ == TextNodeType || typ == CDataSectionNode
    modifies f.Keys`parentNode, f.Keys`firstChild, f.Keys`prevSibling, f.Keys`nextSibling
    ensures ok <==> f[p.currentNodePtr].lab.typ == ElementNode
    ensures fresh(t) && Site(g, rootDoc) && g.Keys == f.Keys + {t}
    ensures ok ==> Grew(f, g, p.currentNodePtr, t, Label(typ, name, Some(value)))
  {
    hide WF, Rep, Grew, Site;
    var node := new Node(typ, name, Some(value), rootDoc);
    ok, g := AppendNew(p.currentNodePtr, node, rootDoc, f, Label(typ, name, Some(value)));
    t := node;
  }

  /** Whether the current element has an attribute of the name already. */
  method IsDuplicateAttribute(p: Parser, name: bytes, ghost f: Forest) returns (found: bool)
    requires Holds(f) && p.currentNodePtr != null && p.currentNodePtr in f
    ensures found == Machine.HasAttr(AttrValues(f, f[p.currentNodePtr].attrs), name)
  {
    hide WF, Rep;
    var attr := FindAttr(p.currentNodePtr, name, f);
    found := attr != null;
    SameNames(f, p.currentNodePtr, name);
  }

  lemma SameNames(f: Forest, e: Node, name: bytes)
    requires WF(f) && e in f
    ensures Contains(AttrList(f, e), name) <==> Machine.HasAttr(AttrValues(f, f[e].attrs), name)
  {
    AttrsIn(f, e);
    var s, v := AttrList(f, e), AttrValues(f, f[e].attrs);
    assert |s| == |v| && forall i | 0 <= i < |s| :: s[i].name == v[i].name;
    var k := IndexOf(s, name);
    if Contains(s, name) {
      assert v[k].name == name;
    }
  }

  /** An attribute that has been read is added to the current element, unless its name is taken. */
  method ProcessAttributeName(rootDoc: Node, p: Parser, attr: Attr, prefix: Option<bytes>, localName: Option<bytes>,
                              ghost f: Forest)
    returns (ok: bool, ghost a: Node, ghost g: Forest)
    requires Site(f, rootDoc) && p.currentNodePtr != null && p.currentNodePtr in f
    requires f[p.currentNodePtr].lab.typ == ElementNode
    modifies f.Keys`firstAttr, f.Keys`prevSibling, f.Keys`nextSibling
    ensures ok <==> !Machine.HasAttr(AttrValues(f, f[p.currentNodePtr].attrs), attr.name)
    ensures !ok ==> g == f && Site(g, rootDoc)
    ensures ok ==>
              fresh(a) && Site(g, rootDoc)
              && GrewAttr(f, g, p.currentNodePtr, a, Label(AttributeNode, attr.name, Some(attr.value)))
  {
    hide WF, Rep, GrewAttr, AttrValues, Machine.HasAttr;
    a, g := rootDoc, f;
    var duplicate := IsDuplicateAttribute(p, attr.name, f);
    if duplicate {
      return false, a, g;
    }
    SameNames(f, p.currentNodePtr, attr.name);
    var newAttr := CreateAttribute(rootDoc, attr, prefix, localName);
    g := AddNewAttr(p.currentNodePtr, newAttr, rootDoc, f, Label(AttributeNode, attr.name, Some(attr.value)));
    return true, newAttr, g;
  }

  /** createAttributeEx and setNodeProperties. */
  method CreateAttribute(rootDoc: Node, attr: Attr, prefix: Option<bytes>, localName: Option<bytes>) returns (a: Node)
    ensures fresh(a) && HasLinks(a, null, null, null, null, null, Label(AttributeNode, attr.name, Some(attr.value)))
    ensures a.ownerDocument == rootDoc && a.ownerElement == null && a.prefix == prefix && a.localName == localName
  {
    a := new Node(AttributeNode, attr.name, None, rootDoc);
    a.nodeValue := Some(attr.value);
    a.localName := localName;
    a.prefix := prefix;
  }

  method AddNewAttr(e: Node, a: Node, doc: Node, ghost f: Forest, ghost l: Label) returns (ghost g: Forest)
    requires Site(f, doc) && e in f && a !in f && f[e].lab.typ == ElementNode && l.typ == AttributeNode
    requires HasLinks(a, null, null, null, null, null, l) && a.ownerDocument == doc && a.ownerElement == null
    requires !Contains(AttrList(f, e), l.name)
    modifies f.Keys`firstAttr, f.Keys`prevSibling, f.Keys`nextSibling, a`firstAttr, a`prevSibling, a`nextSibling,
             a`ownerElement
    ensures Site(g, doc) && GrewAttr(f, g, e, a, l)
  {
    hide WF, Rep, GrewAttr, AttrList, Added, AttrAdded;
    ElementFree(f, e);
    AddedHolds(f, a, l);
    AddedFits(f, e, a, l);
    AttrGrows(f, e, a, l);
    ghost var h := Added(f, a, l);
    var rc, rtAttr := SetAttributeNode(e, a, h);
    g := AttrAdded(h, e, a);
    GrewAttrRest(f, g, e, a, l, doc);
  }

  // ----- the main loop

  /** Between two iterations: the machine says where the parser stands, and its frames what has been built. */
  ghost predicate Underway(p: Parser, doc: Node, f: Forest, val: Building.Values, ns: seq<Node>,
                           open: seq<Machine.Frame>)
    reads p, f.Keys
  {
    && Site(f, doc) && Mirrors(f, val, ns, open) && ns[|ns| - 1] == doc && p.currentNodePtr == ns[0]
    && (p.pNeedPrefixNode != null ==> p.pNeedPrefixNode in f)
  }

  /** Reading a node leaves the document alone. */
  method ReadNode(p: Parser, doc: Node, ghost f: Forest, ghost val: Building.Values, ghost ns: seq<Node>,
                  ghost open: seq<Machine.Frame>)
    returns (ret: Result, item: Item)
    requires NoNul(p.data) && Underway(p, doc, f, val, ns, open)
    modifies p`curPtr, p`savePtr, p`tokenBuf, p`state, p`lastElem, p`elements, p`pNeedPrefixNode,
             Waiting(p)`namespaceURI
    ensures Underway(p, doc, f, val, ns, open)
    ensures match Machine.GetNextNode(p.data, old(ReaderOf(p)))
            case FileDone => ret == FileDone && ReaderOf(p) == old(ReaderOf(p))
            case Bad => ret == Failure
            case Got(r, i) => ret == Result.Success && ReaderOf(p) == r && item == i
  {
    hide WF, Rep, Mirrors, Machine.GetNextNode;
    ret, item := GetNextNode(p);
    LinksKept(f);
  }

  /** What becomes of the element, or the failure, the machine says. */
  ghost predicate Digested(p: Parser, doc: Node, f: Forest, val: Building.Values, ns: seq<Node>,
                           err: Option<Machine.Code>, s: Machine.Stepped)
    reads p, p.pNeedPrefixNode, f.Keys
  {
    match s
    case Finish => false
    case Stop(code) => err == Some(code) && Site(f, doc)
    case Next(m) =>
      err == None && Underway(p, doc, f, val, ns, m.open) && ReaderOf(p) == m.r && p.bHasTopLevel == m.hasTop
  }

  method DigestStart(p: Parser, doc: Node, name: bytes, prefix: Option<bytes>, localName: bytes,
                     ghost f: Forest, ghost val: Building.Values, ghost ns: seq<Node>, ghost m: Machine.Machine)
    returns (err: Option<Machine.Code>, ghost g: Forest, ghost ns': seq<Node>)
    requires Underway(p, doc, f, val, ns, m.open) && p.bHasTopLevel == m.hasTop && Machine.Running(m)
    modifies p`bHasTopLevel, p`savePtr, p`currentNodePtr, p`elements, p`pNeedPrefixNode
    modifies f.Keys`parentNode, f.Keys`firstChild, f.Keys`prevSibling, f.Keys`nextSibling
    ensures Digested(p, doc, g, val, ns', err,
                     Machine.Digest(m, old(ReaderOf(p)), Machine.StartTag(name, prefix, localName)))
    ensures forall x | x in g :: x in f || fresh(x)
  {
    hide WF, Rep, Mirrors, Machine.Opened, Grew, Site;
    Outside(f, val, ns, m.open);
    SameLength(f, val, ns, m.open);
    var ok;
    ghost var e;
    ns' := ns;
    ok, e, g := ProcessElementName(doc, p, name, prefix, localName, f);
    if ok {
      OpenMirrors(f, g, val, ns, m.open, e, Label(ElementNode, name, None));
      ns' := [e] + ns;
      GrewKeys(f, g, ns[0], e, Label(ElementNode, name, None));
      err := None;
    } else {
      err := Some(Machine.SyntaxErr);
    }
  }

  lemma GrewKeys(f: Forest, g: Forest, p: Node, c: Node, l: Label)
    requires Grew(f, g, p, c, l)
    ensures g.Keys == f.Keys + {c}
  {
  }

  method DigestLeaf(p: Parser, doc: Node, typ: NodeType, name: bytes, value: bytes, ghost v: Tree,
                    ghost f: Forest, ghost val: Building.Values, ghost ns: seq<Node>, ghost m: Machine.Machine)
    returns (err: Option<Machine.Code>, ghost g: Forest, ghost val': Building.Values)
    requires Underway(p, doc, f, val, ns, m.open) && p.bHasTopLevel == m.hasTop && Machine.Running(m)
    requires (typ == TextNodeType && v == Text(value)) || (typ == CDataSectionNode && v == CData(value))
    modifies f.Keys`parentNode, f.Keys`firstChild, f.Keys`prevSibling, f.Keys`nextSibling
    ensures Digested(p, doc, g, val', ns, err,
                     Machine.Digest(m, ReaderOf(p),
                                    if typ == TextNodeType then Machine.TextNode(value) else Machine.CDataNode(value)))
    ensures forall x | x in g :: x in f || fresh(x)
  {
    hide WF, Rep, Mirrors, Grew, Site;
    Outside(f, val, ns, m.open);
    SameLength(f, val, ns, m.open);
    var ok;
    ghost var t;
    ok, t, g := ProcessLeaf(doc, p, typ, name, value, f);
    if ok {
      LeafMirrors(f, g, val, ns, m.open, t, Label(typ, name, Some(value)), v);
      val' := val[t := v];
      err := None;
    } else {
      val' := val;
      err := Some(Machine.HierarchyRequestErr);
    }
  }

  lemma SameLength(f: Forest, val: Building.Values, ns: seq<Node>, open: seq<Machine.Frame>)
    requires Mirrors(f, val, ns, open)
    ensures |ns| == |open| > 0
  {
  }

  method DigestAttr(p: Parser, doc: Node, attr: Attr, prefix: Option<bytes>, localName: Option<bytes>,
                    ghost f: Forest, ghost val: Building.Values, ghost ns: seq<Node>, ghost m: Machine.Machine)
    returns (err: Option<Machine.Code>, ghost g: Forest)
    requires Underway(p, doc, f, val, ns, m.open) && p.bHasTopLevel == m.hasTop && |m.open| > 1
    modifies f.Keys`firstAttr, f.Keys`prevSibling, f.Keys`nextSibling
    ensures Digested(p, doc, g, val, ns, err, Machine.Digest(m, ReaderOf(p), Machine.AttrNode(attr, prefix, localName)))
    ensures forall x | x in g :: x in f || fresh(x)
  {
    hide WF, Rep, Mirrors, GrewAttr, Site, Machine.HasAttr;
    Outside(f, val, ns, m.open);
    SameLength(f, val, ns, m.open);
    var ok;
    ghost var a;
    ok, a, g := ProcessAttributeName(doc, p, attr, prefix, localName, f);
    if ok {
      AttrMirrors(f, g, val, ns, m.open, a, Label(AttributeNode, attr.name, Some(attr.value)), attr.value);
      GrewAttrKeys(f, g, ns[0], a, Label(AttributeNode, attr.name, Some(attr.value)));
      assert Attr(attr.name, attr.value) == attr;
      err := None;
    } else {
      err := Some(Machine.SyntaxErr);
    }
  }

  lemma GrewAttrKeys(f: Forest, g: Forest, e: Node, a: Node, l: Label)
    requires GrewAttr(f, g, e, a, l)
    ensures g.Keys == f.Keys + {a}
  {
  }

  /** The element stack and the current node are both checked against the name of an end tag. */
  method ETagVerification(p: Parser, name: bytes) returns (ok: bool)
    requires p.currentNodePtr != null
    modifies p`elements, p`currentNodePtr
    ensures ok <==>
            old(p.elements) != [] && old(p.elements)[0].element == name && old(p.currentNodePtr).nodeName == name
    ensures ok ==> p.elements == old(p.elements)[1..] && p.currentNodePtr == old(p.currentNodePtr).parentNode
  {
    if p.elements == [] || p.elements[0].element != name {
      return false;
    }
    p.elements := p.elements[1..];
    if name != p.currentNodePtr.nodeName {
      return false;
    }
    p.currentNodePtr := p.currentNodePtr.parentNode;
    ok := true;
  }

  method DigestEnd(p: Parser, doc: Node, name: bytes,
                   ghost f: Forest, ghost val: Building.Values, ghost ns: seq<Node>, ghost m: Machine.Machine)
    returns (err: Option<Machine.Code>, ghost val': Building.Values, ghost ns': seq<Node>)
    requires Underway(p, doc, f, val, ns, m.open) && p.bHasTopLevel == m.hasTop && |m.open| == |p.elements| + 1
    modifies p`elements, p`currentNodePtr, p`state
    ensures Digested(p, doc, f, val', ns', err, Machine.Digest(m, old(ReaderOf(p)), Machine.EndTag(name)))
  {
    hide WF, Rep, Mirrors;
    Outside(f, val, ns, m.open);
    SameLength(f, val, ns, m.open);
    Fields(f, ns[0]);
    val', ns' := val, ns;
    var ok := ETagVerification(p, name);
    if !ok {
      return Some(Machine.SyntaxErr), val, ns;
    }
    p.state := Machine.InContent;
    CloseMirrors(f, val, ns, m.open);
    val', ns' := val[ns[0] := Machine.Closed(m.open[0])], ns[1..];
    err := None;
  }

  /** The switch of the main loop. */
  method Digest(p: Parser, doc: Node, item: Item,
                ghost f: Forest, ghost val: Building.Values, ghost ns: seq<Node>, ghost m: Machine.Machine)
    returns (err: Option<Machine.Code>, ghost g: Forest, ghost val': Building.Values, ghost ns': seq<Node>)
    requires Underway(p, doc, f, val, ns, m.open) && p.bHasTopLevel == m.hasTop && Machine.Running(m)
    requires |m.open| == |p.elements| + 1 && (item.AttrNode? ==> p.elements != [])
    modifies p
    modifies f.Keys`parentNode, f.Keys`firstChild, f.Keys`prevSibling, f.Keys`nextSibling, f.Keys`firstAttr
    ensures Digested(p, doc, g, val', ns', err, Machine.Digest(m, old(ReaderOf(p)), item))
    ensures forall x | x in g :: x in f || fresh(x)
  {
    hide WF, Rep, Mirrors, Site, Machine.Digest;
    g, val', ns' := f, val, ns;
    match item {
      case NoNode =>
        err := None;
        NothingDigested(m, ReaderOf(p));
      case StartTag(name, prefix, localName) =>
        err, g, ns' := DigestStart(p, doc, name, prefix, localName, f, val, ns, m);
      case TextNode(v) =>
        err, g, val' := DigestLeaf(p, doc, TextNodeType, TEXT_NAME, v, Text(v), f, val, ns, m);
      case CDataNode(v) =>
        err, g, val' := DigestLeaf(p, doc, CDataSectionNode, CDATA_NAME, v, CData(v), f, val, ns, m);
      case AttrNode(attr, prefix, localName) =>
        err, g := DigestAttr(p, doc, attr, prefix, localName, f, val, ns, m);
      case EndTag(name) =>
        err, val', ns' := DigestEnd(p, doc, name, f, val, ns, m);
    }
  }

  lemma NothingDigested(m: Machine.Machine, r: Machine.Reader)
    requires Machine.Running(m)
    ensures Machine.Digest(m, r, Machine.NoNode) == Machine.Next(m.(r := r))
  {
  }

  /** On failure everything built so far is freed. */
  method FreeDocument(doc: Node, ghost f: Forest)
    requires Site(f, doc)
    modifies f.Keys
  {
    hide WF, Rep;
    DocumentAlone(f, doc);
    var freed, handled := NodeFree.NodeFree(doc, f);
  }

  lemma DocumentAlone(f: Forest, doc: Node)
    requires WF(f) && doc in f && f[doc].par == null && f[doc].lab.typ == DocumentNode
    ensures Next(f, doc) == null
  {
    Ok(f, doc);
    if f[doc].hold != null {
      Ok(f, f[doc].hold);
    }
  }

  ghost predicate AtStart(p: Parser)
    reads p
  {
    && p.curPtr == 0 && p.state == Machine.InElement && p.lastElem == [] && p.elements == []
    && p.pNeedPrefixNode == null && !p.bHasTopLevel
  }

  /** A new document, and the machine before its first step. */
  method CreateDocument() returns (doc: Node, ghost f: Forest)
    ensures fresh(doc) && Site(f, doc) && f.Keys == {doc} && Mirrors(f, map[], [doc], Machine.Start(0).open)
  {
    doc := new Node(DocumentNode, Machine.DOCUMENT_NAME, None, null);
    doc.ownerDocument := doc;
    ghost var l := Label(DocumentNode, Machine.DOCUMENT_NAME, None);
    f := Added(map[], doc, l);
    MirrorsStart(doc, l);
    AddedHolds(map[], doc, l);
  }

  /** What a finished parse hands back: a document whose nodes say what the machine has read. */
  ghost predicate Delivers(f: Forest, doc: Node, roots: seq<Tree>)
    reads f.Keys
  {
    && Holds(f) && doc in f && f[doc].lab.typ == DocumentNode
    && Printer.Values(f, f[doc].tree.kids) == roots && PlainTrees(f, f[doc].tree.kids)
  }

  /** What holds at the head of the main loop. */
  ghost predicate Going(p: Parser, doc: Node, f: Forest, val: Building.Values, ns: seq<Node>, m: Machine.Machine)
    reads p, p.pNeedPrefixNode, f.Keys
  {
    && Machine.Running(m) && MachineProperties.StackMatches(m)
    && Underway(p, doc, f, val, ns, m.open) && ReaderOf(p) == m.r && p.bHasTopLevel == m.hasTop
  }

  /** One iteration does one step of the machine. */
  method Iterate(p: Parser, doc: Node, ghost f: Forest, ghost val: Building.Values, ghost ns: seq<Node>,
                 ghost m: Machine.Machine)
    returns (done: bool, err: Option<Machine.Code>, ghost g: Forest, ghost val': Building.Values, ghost ns': seq<Node>)
    requires NoNul(p.data) && Going(p, doc, f, val, ns, m)
    modifies p, Waiting(p)`namespaceURI
    modifies f.Keys`parentNode, f.Keys`firstChild, f.Keys`prevSibling, f.Keys`nextSibling, f.Keys`firstAttr
    ensures var s := Machine.Step(p.data, m);
            && (s.Finish? ==> done && err == None && Going(p, doc, g, val', ns', m))
            && (s.Stop? ==> !done && err == Some(s.code) && Site(g, doc))
            && (s.Next? ==> !done && err == None && Going(p, doc, g, val', ns', s.m))
    ensures forall x | x in g :: x in f || fresh(x)
  {
    hide WF, Rep, Mirrors, Site, Machine.Step, Machine.Digest, MachineProperties.StackMatches;
    done, err, g, val', ns' := false, None, f, val, ns;
    var ret, item := ReadNode(p, doc, f, val, ns, m.open);
    StepRead(p.data, m);
    if ret == FileDone {
      done := true;
    } else if ret == Failure {
      err := Some(Machine.Failed);
      UnderwaySite(p, doc, f, val, ns, m.open);
    } else {
      StackSizes(p.data, m);
      err, g, val', ns' := Digest(p, doc, item, f, val, ns, m);
      if err == None {
        MachineProperties.StackMatchesStep(p.data, m);
        RunStep(p.data, m);
      }
    }
  }

  lemma UnderwaySite(p: Parser, doc: Node, f: Forest, val: Building.Values, ns: seq<Node>, open: seq<Machine.Frame>)
    requires Underway(p, doc, f, val, ns, open)
    ensures Site(f, doc)
  {
  }

  method ParseDocument(p: Parser) returns (err: Option<Machine.Code>, retDoc: Node?, ghost f: Forest)
    requires NoNul(p.data) && AtStart(p)
    modifies p
    ensures match Parse.ParseDocument(p.data)
            case Parsed(roots) => err == None && retDoc != null && Delivers(f, retDoc, roots)
            case Rejected(code) => err == Some(code) && retDoc == null
    ensures forall x | x in f :: fresh(x)
  {
    hide WF, Rep, Mirrors, Site, Machine.Step, Parse.Run, MachineProperties.StackMatches, Lexer.SkipProlog;
    var gRootDoc;
    gRootDoc, f := CreateDocument();
    p.currentNodePtr := gRootDoc;
    var ok := p.SkipPrologue();
    if !ok {
      FreeDocument(gRootDoc, f);
      return Some(Machine.SyntaxErr), null, f;
    }
    ghost var m := Machine.Start(p.curPtr);
    MachineProperties.StackMatchesStart(p.curPtr);
    err, retDoc, f := MainLoop(p, gRootDoc, f, map[], [gRootDoc], m);
  }

  /** From the machine in its first state to the end. */
  method MainLoop(p: Parser, gRootDoc: Node, ghost f0: Forest, ghost val0: Building.Values, ghost ns0: seq<Node>,
                  ghost m0: Machine.Machine)
    returns (err: Option<Machine.Code>, retDoc: Node?, ghost f: Forest)
    requires NoNul(p.data) && Going(p, gRootDoc, f0, val0, ns0, m0)
    modifies p, f0.Keys
    ensures match Parse.Run(p.data, m0)
            case Parsed(roots) => err == None && retDoc != null && Delivers(f, retDoc, roots)
            case Rejected(code) => err == Some(code) && retDoc == null
    ensures forall x | x in f :: x in f0 || fresh(x)
  {
    hide WF, Rep, Mirrors, Site, Machine.Step, Parse.Run, MachineProperties.StackMatches;
    f := f0;
    ghost var val, ns, m := val0, ns0, m0;
    var done := false;
    while !done
      invariant Going(p, gRootDoc, f, val, ns, m)
      invariant Parse.Run(p.data, m) == Parse.Run(p.data, m0)
      invariant done ==> Machine.Step(p.data, m) == Machine.Finish
      invariant forall x | x in f :: x in f0 || fresh(x)
      decreases !done, Machine.Left(p.data, m.r), Machine.Phase(m.r)
    {
      RunStep(p.data, m);
      WaitingIn(p, gRootDoc, f, val, ns, m);
      done, err, f, val, ns := Iterate(p, gRootDoc, f, val, ns, m);
      if err.Some? {
        FreeDocument(gRootDoc, f);
        return err, null, f;
      }
      if !done {
        m := Machine.Step(p.data, m).m;
      }
    }
    RunStep(p.data, m);
    if p.elements != [] {
      UnderwaySite(p, gRootDoc, f, val, ns, m.open);
      FreeDocument(gRootDoc, f);
      return Some(Machine.SyntaxErr), null, f;
    }
    StackSizesEnd(m);
    SameLength(f, val, ns, m.open);
    DocumentDone(f, val, ns, m.open);
    SiteHolds(f, gRootDoc);
    return None, gRootDoc, f;
  }

  lemma WaitingIn(p: Parser, doc: Node, f: Forest, val: Building.Values, ns: seq<Node>, m: Machine.Machine)
    requires Going(p, doc, f, val, ns, m)
    ensures Waiting(p) <= f.Keys
  {
  }

  lemma SiteHolds(f: Forest, doc: Node)
    requires Site(f, doc)
    ensures Holds(f)
  {
  }

  lemma RunStep(d: bytes, m: Machine.Machine)
    requires Machine.Running(m)
    ensures var s := Machine.Step(d, m);
            && (s.Finish? ==>
                  Parse.Run(d, m) == if m.r.stack != [] then Parse.Rejected(Machine.SyntaxErr)
                                     else Parse.Parsed(m.open[|m.open| - 1].kids))
            && (s.Stop? ==> Parse.Run(d, m) == Parse.Rejected(s.code))
            && (s.Next? ==>
                  && Machine.Running(s.m) && Parse.Run(d, m) == Parse.Run(d, s.m)
                  && (|| Machine.Left(d, s.m.r) < Machine.Left(d, m.r)
                      || (Machine.Left(d, s.m.r) == Machine.Left(d, m.r) && Machine.Phase(s.m.r) < Machine.Phase(m.r))))
  {
    hide Machine.Step;
    if Machine.Step(d, m).Next? {
      Parse.StepProgress(d, m);
    }
  }

  lemma StepRead(d: bytes, m: Machine.Machine)
    requires Machine.Running(m)
    ensures match Machine.GetNextNode(d, m.r)
            case FileDone => Machine.Step(d, m) == Machine.Finish
            case Bad => Machine.Step(d, m) == Machine.Stop(Machine.Failed)
            case Got(r, item) => Machine.Step(d, m) == Machine.Digest(m, r, item)
  {
    hide Machine.GetNextNode, Machine.Digest;
  }

  /** Reading keeps the height of the stack, and reads attributes only inside an element. */
  lemma StackSizes(d: bytes, m: Machine.Machine)
    requires Machine.Running(m) && MachineProperties.StackMatches(m) && Machine.GetNextNode(d, m.r).Got?
    ensures var g := Machine.GetNextNode(d, m.r); |m.open| == |g.r.stack| + 1 && (g.item.AttrNode? ==> g.r.stack != [])
  {
    MachineProperties.ReadingEffect(d, m.r);
    hide Machine.GetNextNode;
  }

  lemma StackSizesEnd(m: Machine.Machine)
    requires MachineProperties.StackMatches(m) && m.r.stack == []
    ensures |m.open| == 1
  {
  }

  /** ixmlParseBufferEx */
  method ParseBuffer(buffer: Option<bytes>) returns (err: Option<Machine.Code>, retDoc: Node?, ghost f: Forest)
    requires buffer.Some? ==> NoNul(buffer.value)
    ensures buffer == None ==> err == Some(Machine.InvalidParameter) && retDoc == null
    ensures buffer.Some? ==>
              match Parse.ParseBuffer(buffer.value)
              case Parsed(roots) => err == None && retDoc != null && Delivers(f, retDoc, roots)
              case Rejected(code) => err == Some(code) && retDoc == null
    ensures forall x | x in f :: fresh(x)
  {
    f := map[];
    if buffer == None || buffer.value == [] {
      return Some(Machine.InvalidParameter), null, f;
    }
    var p := new Parser(buffer.value);
    err, retDoc, f := ParseDocument(p);
  }
}
