/** Printing a document from its nodes. */
module Printer {
  import opened Bytes
  import opened Lexer
  import opened Xml
  import opened Printing
  import opened Nodes
  import opened NodeOps
  import opened Membuf

  /** What a node's value stands for in print; a missing one prints as nothing. */
  function Said(value: Option<bytes>): bytes {
    if value.Some? then value.value else []
  }

  ghost function AttrValues(f: Forest, s: seq<Node>): seq<Attr> {
    seq(|s|, i requires 0 <= i < |s| => if s[i] in f then Attr(f[s[i]].lab.name, Said(f[s[i]].lab.value))
      else Attr([], []))
  }

  /** The tree as a value. */
  ghost function Value(f: Forest, t: Rose): Tree {
    if t.node !in f then Text([])
    else
      var l := f[t.node].lab;
      match l.typ
      case ElementNode =>
        Element(l.name, AttrValues(f, f[t.node].attrs),
                seq(|t.kids|, i requires 0 <= i < |t.kids| => Value(f, t.kids[i])))
      case CDataSectionNode => CData(Said(l.value))
      case _ => Text(Said(l.value))
  }

  ghost function Values(f: Forest, ts: seq<Rose>): seq<Tree> {
    seq(|ts|, i requires 0 <= i < |ts| => Value(f, ts[i]))
  }

  /** Trees of elements, text and CDATA, as the parser builds them. */
  ghost predicate PlainTrees(f: Forest, ts: seq<Rose>) {
    forall i | 0 <= i < |ts| ::
      && ts[i].node in f
      && match f[ts[i].node].lab.typ
         case ElementNode => PlainTrees(f, ts[i].kids)
         case TextNodeType => true
         case CDataSectionNode => f[ts[i].node].lab.value.Some?
         case _ => false
  }

  lemma ValuesRest(f: Forest, ts: seq<Rose>)
    requires ts != []
    ensures Values(f, ts)[0] == Value(f, ts[0]) && Values(f, ts)[1..] == Values(f, ts[1..])
    ensures PlainTrees(f, ts) ==> PlainTrees(f, ts[1..])
  {
  }

  /** Appends to a buffer that already holds `c + x`. */
  method Put(buf: Buffer, s: bytes, ghost c: bytes, ghost x: bytes)
    requires buf.Valid() && buf.Contents() == c + x
    modifies buf, buf.buf
    ensures buf.Valid() && buf.Contents() == c + (x + s)
    ensures buf.buf == old(buf.buf) || fresh(buf.buf)
  {
    buf.AppendStr(s);
    Assoc(c, x, s);
  }

  /** The switch of copy_with_escape. */
  method EscapeOne(buf: Buffer, b: byte)
    requires buf.Valid()
    modifies buf, buf.buf
    ensures buf.Valid() && buf.Contents() == old(buf.Contents()) + EscapeByte(b)
    ensures buf.buf == old(buf.buf) || fresh(buf.buf)
  {
    if b == LESS_THAN {
      buf.AppendStr(LT);
    } else if b == GREATER_THAN {
      buf.AppendStr(GT);
    } else if b == AMPERSAND {
      buf.AppendStr(AMP);
    } else if b == SINGLE_QUOTE {
      buf.AppendStr(APOS);
    } else if b == QUOTE {
      buf.AppendStr(QUOT);
    } else {
      buf.Append(b);
    }
  }

  /** copy_with_escape: nothing for a missing value. */
  method CopyWithEscape(buf: Buffer, p: Option<bytes>)
    requires buf.Valid()
    modifies buf, buf.buf
    ensures buf.Valid() && buf.Contents() == old(buf.Contents()) + Escape(Said(p))
    ensures buf.buf == old(buf.buf) || fresh(buf.buf)
  {
    hide Escape, EscapeByte;
    ghost var c := buf.Contents();
    EscapeNothing(c);
    if p == None {
      return;
    }
    var s := p.value;
    var i := 0;
    TakeAll(s);
    while i < |s|
      invariant i <= |s| && buf.Valid() && buf.Contents() == c + Escape(s[..i])
      invariant buf.buf == old(buf.buf) || fresh(buf.buf)
    {
      EscapeNext(c, s, i);
      EscapeOne(buf, s[i]);
      i := i + 1;
    }
  }

  lemma EscapeNothing(c: bytes)
    ensures c + Escape([]) == c
  {
  }

  lemma TakeAll(s: bytes)
    ensures s[..0] == [] && s[..|s|] == s
  {
  }

  lemma EscapeNext(c: bytes, s: bytes, i: nat)
    requires i < |s|
    ensures c + Escape(s[..i + 1]) == c + Escape(s[..i]) + EscapeByte(s[i])
  {
    assert s[..i + 1][..i] == s[..i];
    EscapeOnce(s[..i + 1]);
    hide Escape, EscapeByte;
    Assoc(c, Escape(s[..i]), EscapeByte(s[i]));
  }

  ghost predicate AttrNode(f: Forest, e: Node, i: nat, a: Node?)
    requires e in f
  {
    i <= |f[e].attrs| && a == if i < |f[e].attrs| then f[e].attrs[i] else null
  }

  lemma AttrStep(f: Forest, e: Node, i: nat, a: Node)
    requires Holds(f) && e in f && AttrNode(f, e, i, a)
    ensures i < |f[e].attrs| && a in f && AttrNode(f, e, i + 1, a.nextSibling)
    ensures a.nodeName == f[a].lab.name && a.nodeValue == f[a].lab.value && a == f[e].attrs[i]
  {
    AttrListed(f, e, i);
    Represented(f, a);
    hide WF;
  }

  lemma AttrValuesRest(f: Forest, s: seq<Node>, i: nat)
    requires i < |s| && s[i] in f
    ensures var v := AttrValues(f, s[i..]);
            && v != [] && v[0] == Attr(f[s[i]].lab.name, Said(f[s[i]].lab.value)) && v[1..] == AttrValues(f, s[i + 1..])
            && |v| == |s| - i
  {
  }

  /** One attribute. */
  method PrintAttribute(nodeptr: Node, buf: Buffer)
    requires buf.Valid()
    modifies buf, buf.buf
    ensures buf.Valid()
    ensures buf.Contents() == old(buf.Contents()) + PrintAttr(Attr(nodeptr.nodeName, Said(nodeptr.nodeValue)))
    ensures buf.buf == old(buf.buf) || fresh(buf.buf)
  {
    hide Escape;
    ghost var c := buf.Contents();
    var value := nodeptr.nodeValue;
    ghost var x := nodeptr.nodeName;
    buf.AppendStr(nodeptr.nodeName);
    Put(buf, [EQUALS, QUOTE], c, x);
    x := x + [EQUALS, QUOTE];
    CopyWithEscape(buf, value);
    Assoc(c, x, Escape(Said(value)));
    x := x + Escape(Said(value));
    Put(buf, [QUOTE], c, x);
  }

  /** The attribute case of the recursion. */
  method PrintAttributes(nodeptr: Node, buf: Buffer, ghost f: Forest, ghost e: Node, ghost i: nat)
    requires Holds(f) && e in f && AttrNode(f, e, i, nodeptr) && buf.Valid()
    modifies buf, buf.buf
    ensures buf.Valid() && buf.Contents() == old(buf.Contents()) + PrintAttrs(AttrValues(f, f[e].attrs[i..]))
    ensures buf.buf == old(buf.buf) || fresh(buf.buf)
    decreases |f[e].attrs| - i
  {
    hide WF, Rep, Escape, AttrValues, PrintAttrs, PrintAttr;
    ghost var c := buf.Contents();
    ghost var v := AttrValues(f, f[e].attrs[i..]);
    AttrStep(f, e, i, nodeptr);
    AttrValuesRest(f, f[e].attrs, i);
    PrintAttrsStep(v);
    PrintAttribute(nodeptr, buf);
    ghost var x := PrintAttr(v[0]);
    if nodeptr.nextSibling != null {
      Put(buf, [SPACE], c, x);
      x := x + [SPACE];
      PrintAttributes(nodeptr.nextSibling, buf, f, e, i + 1);
      Assoc(c, x, PrintAttrs(v[1..]));
      Assoc(PrintAttr(v[0]), [SPACE], PrintAttrs(v[1..]));
    } else {
      assert PrintAttr(v[0]) + [] == PrintAttr(v[0]);
    }
  }

  lemma PrintAttrsStep(v: seq<Attr>)
    requires v != []
    ensures PrintAttrs(v) == PrintAttr(v[0]) + (if |v| == 1 then [] else [SPACE] + PrintAttrs(v[1..]))
  {
  }

  /** A list of siblings as the recursion meets it. */
  ghost predicate Listing(f: Forest, a: Node?, ts: seq<Rose>)
    reads f.Keys
  {
    Holds(f) && Chain(f, a, ts) && PlainTrees(f, ts)
  }

  lemma PlainStep(f: Forest, ts: seq<Rose>)
    requires PlainTrees(f, ts) && ts != []
    ensures ts[0].node in f && PlainTrees(f, ts[1..])
    ensures var l := f[ts[0].node].lab;
            && l.typ in {ElementNode, TextNodeType, CDataSectionNode}
            && (l.typ == ElementNode ==> PlainTrees(f, ts[0].kids))
            && (l.typ == CDataSectionNode ==> l.value.Some?)
  {
  }

  lemma ValueIs(f: Forest, t: Rose)
    requires t.node in f
    ensures var l := f[t.node].lab;
            && (l.typ == ElementNode ==>
                  Value(f, t) == Element(l.name, AttrValues(f, f[t.node].attrs), Values(f, t.kids)))
            && (l.typ == TextNodeType ==> Value(f, t) == Text(Said(l.value)))
            && (l.typ == CDataSectionNode ==> Value(f, t) == CData(Said(l.value)))
  {
    hide AttrValues;
    if f[t.node].lab.typ == ElementNode {
      assert Value(f, t).kids == Values(f, t.kids);
    }
  }

  lemma ListingStep(f: Forest, a: Node, ts: seq<Rose>)
    requires Listing(f, a, ts)
    ensures ts != [] && a in f && ts[0].node == a && Value(f, ts[0]) == Values(f, ts)[0]
    ensures Values(f, ts)[1..] == Values(f, ts[1..]) && |Values(f, ts)| == |ts|
    ensures Listing(f, a.nextSibling, ts[1..]) && a.nodeName == f[a].lab.name && a.nodeValue == f[a].lab.value
    ensures a.nodeType == f[a].lab.typ && a.nodeType in {ElementNode, TextNodeType, CDataSectionNode}
    ensures a.nodeType == CDataSectionNode ==> a.nodeValue.Some?
    ensures a.nodeType == ElementNode ==>
              && Listing(f, a.firstChild, ts[0].kids) && a.firstAttr == First(f[a].attrs)
              && Value(f, ts[0]) == Element(a.nodeName, AttrValues(f, f[a].attrs), Values(f, ts[0].kids))
    ensures a.nodeType == TextNodeType ==> Value(f, ts[0]) == Text(Said(a.nodeValue))
    ensures a.nodeType == CDataSectionNode ==> Value(f, ts[0]) == CData(a.nodeValue.value)
  {
    hide WF, Rep, Chain, Next, Prev, Value, AttrValues, PlainTrees;
    ChainStep(f, a, ts);
    ValuesRest(f, ts);
    Represented(f, a);
    PlainStep(f, ts);
    ValueIs(f, ts[0]);
  }

  /** What the first node of a listing is decides the line ends around it. */
  lemma FirstKind(f: Forest, a: Node?, ts: seq<Rose>)
    requires Listing(f, a, ts)
    ensures FirstGap(Values(f, ts)) == if a != null && a.nodeType == ElementNode then NEWLINE else []
    ensures NextGap(Values(f, ts)) == if a != null && a.nodeType == TextNodeType then [] else NEWLINE
  {
    hide Chain, WF, Rep;
    if a == null {
      ChainEmpty(f, ts);
    } else {
      ListingStep(f, a, ts);
    }
  }

  /** The start tag, with the line end before a first child that is an element. */
  method PrintStart(n: Node, buf: Buffer, ghost f: Forest, ghost kids: seq<Rose>)
    requires buf.Valid() && Holds(f) && n in f && n.firstAttr == First(f[n].attrs) && Listing(f, n.firstChild, kids)
    modifies buf, buf.buf
    ensures buf.buf == old(buf.buf) || fresh(buf.buf)
    ensures buf.Valid() && buf.Contents()
         == old(buf.Contents()) + (OpenTag(n.nodeName, AttrValues(f, f[n].attrs)) + FirstGap(Values(f, kids)))
  {
    hide WF, Rep, Escape, AttrValues, PrintAttrs, Values, Listing;
    ghost var c, v := buf.Contents(), AttrValues(f, f[n].attrs);
    PrintNameAndAttrs(n, buf, f);
    ghost var x := [LESS_THAN] + n.nodeName + (if v == [] then [] else [SPACE] + PrintAttrs(v));
    FirstKind(f, n.firstChild, kids);
    var child := n.firstChild;
    if child != null && child.nodeType == ElementNode {
      Put(buf, [GREATER_THAN] + NEWLINE, c, x);
      Assoc(x, [GREATER_THAN], NEWLINE);
    } else {
      Put(buf, [GREATER_THAN], c, x);
      assert x + [GREATER_THAN] + [] == x + [GREATER_THAN];
    }
    assert OpenTag(n.nodeName, v) == x + [GREATER_THAN];
  }

  method PrintNameAndAttrs(n: Node, buf: Buffer, ghost f: Forest)
    requires buf.Valid() && Holds(f) && n in f && n.firstAttr == First(f[n].attrs)
    modifies buf, buf.buf
    ensures buf.buf == old(buf.buf) || fresh(buf.buf)
    ensures var v := AttrValues(f, f[n].attrs);
            && buf.Valid()
            && buf.Contents()
            == old(buf.Contents()) + ([LESS_THAN] + n.nodeName + (if v == [] then [] else [SPACE] + PrintAttrs(v)))
  {
    hide WF, Rep, Escape, AttrValues, PrintAttrs;
    ghost var c, v := buf.Contents(), AttrValues(f, f[n].attrs);
    AttrsNone(f, n);
    buf.AppendStr([LESS_THAN]);
    Put(buf, n.nodeName, c, [LESS_THAN]);
    ghost var x := [LESS_THAN] + n.nodeName;
    assert x + [] == x;
    if n.firstAttr != null {
      Put(buf, [SPACE], c, x);
      PrintAttributes(n.firstAttr, buf, f, n, 0);
      Assoc(c, x + [SPACE], PrintAttrs(v));
      Assoc(x, [SPACE], PrintAttrs(v));
    }
  }

  lemma AttrsNone(f: Forest, n: Node)
    requires n in f
    ensures f[n].attrs == [] <==> AttrValues(f, f[n].attrs) == []
    ensures f[n].attrs[0..] == f[n].attrs
  {
  }

  /** The end tag, with a line end unless text follows. */
  method PrintEnd(n: Node, buf: Buffer, ghost f: Forest, ghost rest: seq<Rose>)
    requires buf.Valid() && Listing(f, n.nextSibling, rest)
    modifies buf, buf.buf
    ensures buf.Valid() && buf.Contents() == old(buf.Contents()) + (CloseTag(n.nodeName) + NextGap(Values(f, rest)))
    ensures buf.buf == old(buf.buf) || fresh(buf.buf)
  {
    hide WF, Rep, Values, Listing;
    ghost var c := buf.Contents();
    FirstKind(f, n.nextSibling, rest);
    buf.AppendStr(END_TAG);
    Put(buf, n.nodeName, c, END_TAG);
    ghost var x := END_TAG + n.nodeName;
    var sibling := n.nextSibling;
    if sibling != null && sibling.nodeType == TextNodeType {
      Put(buf, [GREATER_THAN], c, x);
      assert x + [GREATER_THAN] + [] == x + [GREATER_THAN];
    } else {
      Put(buf, [GREATER_THAN] + NEWLINE, c, x);
      Assoc(x, [GREATER_THAN], NEWLINE);
    }
  }

  lemma KidsPrinted(v: Tree, rest: seq<Tree>, vs: seq<Tree>, a: bytes, b: bytes)
    requires vs != [] && vs[0] == v && vs[1..] == rest && v.Element?
    requires a == OpenTag(v.name, v.attrs) + FirstGap(v.kids) && b == CloseTag(v.name) + NextGap(rest)
    ensures PrintKids(vs) == a + (PrintKids(v.kids) + (b + PrintKids(rest)))
  {
    hide OpenTag, CloseTag, FirstGap, NextGap;
    var o, fg, k, e, ng, r := OpenTag(v.name, v.attrs), FirstGap(v.kids), PrintKids(v.kids), CloseTag(v.name),
      NextGap(rest), PrintKids(rest);
    assert PrintKids(vs) == o + fg + k + e + ng + r;
    assert o + fg + k + e + ng + r == a + (k + (b + r));
  }

  /** Prints a list of siblings, up to and including the first that is text or CDATA. */
  method PrintDomTreeRecursive(nodeptr: Node?, buf: Buffer, ghost f: Forest, ghost ts: seq<Rose>)
    requires Listing(f, nodeptr, ts) && buf.Valid()
    modifies buf, buf.buf
    ensures buf.Valid() && buf.Contents() == old(buf.Contents()) + PrintKids(Values(f, ts))
    ensures buf.buf == old(buf.buf) || fresh(buf.buf)
    decreases ts
  {
    hide WF, Rep, Escape, AttrValues, PrintAttrs, Values, Value, Listing, OpenTag, CloseTag, FirstGap, NextGap;
    ghost var c := buf.Contents();
    if nodeptr == null {
      NothingPrinted(f, ts, c);
      return;
    }
    ListingStep(f, nodeptr, ts);
    ghost var vs := Values(f, ts);
    if nodeptr.nodeType == TextNodeType {
      CopyWithEscape(buf, nodeptr.nodeValue);
    } else if nodeptr.nodeType == CDataSectionNode {
      buf.AppendStr(CD_START);
      Put(buf, nodeptr.nodeValue.value, c, CD_START);
      Put(buf, CD_END, c, CD_START + nodeptr.nodeValue.value);
    } else {
      PrintElement(nodeptr, buf, f, ts);
    }
  }

  lemma NothingPrinted(f: Forest, ts: seq<Rose>, c: bytes)
    requires Listing(f, null, ts)
    ensures c + PrintKids(Values(f, ts)) == c
  {
    ChainEmpty(f, ts);
    assert Values(f, []) == [];
    assert c + [] == c;
  }

  /** The element case of the recursion. */
  method PrintElement(n: Node, buf: Buffer, ghost f: Forest, ghost ts: seq<Rose>)
    requires Listing(f, n, ts) && ts != [] && buf.Valid() && n.nodeType == ElementNode
    modifies buf, buf.buf
    ensures buf.Valid() && buf.Contents() == old(buf.Contents()) + PrintKids(Values(f, ts))
    ensures buf.buf == old(buf.buf) || fresh(buf.buf)
    decreases ts, 0
  {
    hide WF, Rep, Escape, AttrValues, PrintAttrs, Values, Value, Listing, OpenTag, CloseTag, FirstGap, NextGap,
         PrintKids;
    ghost var c := buf.Contents();
    ListingStep(f, n, ts);
    ghost var vs := Values(f, ts);
    ghost var v := vs[0];
    ghost var a, k := OpenTag(v.name, v.attrs) + FirstGap(v.kids), PrintKids(v.kids);
    ghost var b, r := CloseTag(v.name) + NextGap(vs[1..]), PrintKids(vs[1..]);
    assert Holds(f) by { ListingHolds(f, n, ts); }
    PrintStart(n, buf, f, ts[0].kids);
    PrintDomTreeRecursive(n.firstChild, buf, f, ts[0].kids);
    PrintEnd(n, buf, f, ts[1..]);
    PrintDomTreeRecursive(n.nextSibling, buf, f, ts[1..]);
    Pieces(c, a, k, b, r);
    KidsPrinted(v, vs[1..], vs, a, b);
  }

  lemma ListingHolds(f: Forest, a: Node?, ts: seq<Rose>)
    requires Listing(f, a, ts)
    ensures Holds(f)
  {
  }

  lemma Pieces(c: bytes, a: bytes, k: bytes, b: bytes, r: bytes)
    ensures c + a + k + b + r == c + (a + (k + (b + r)))
  {
  }

  lemma DocumentListing(f: Forest, doc: Node)
    requires Holds(f) && doc in f && PlainTrees(f, f[doc].tree.kids)
    ensures Listing(f, doc.firstChild, f[doc].tree.kids)
  {
    hide WF, Rep, Values, PrintKids, Chain, PlainTrees, Next;
    ChainKids(f, doc);
    Represented(f, doc);
  }

  /** Prints a whole document: the header, and the children of the document node. */
  method DocumentToString(doc: Node?, ghost f: Forest) returns (buf: Buffer?)
    requires doc != null ==> Holds(f) && doc in f && f[doc].lab.typ == DocumentNode && PlainTrees(f, f[doc].tree.kids)
    ensures buf == null <==> doc == null
    ensures buf != null ==> fresh(buf) && buf.Valid() && buf.Contents() == PrintDocument(Values(f, f[doc].tree.kids))
  {
    if doc == null {
      return null;
    }
    DocumentListing(f, doc);
    hide WF, Rep, Holds, Listing, Values, PrintKids, PrintDocument, PlainTrees;
    buf := NewWithHeader();
    PrintDomTreeRecursive(doc.firstChild, buf, f, f[doc].tree.kids);
    DocumentText(Values(f, f[doc].tree.kids));
  }

  method NewWithHeader() returns (buf: Buffer)
    ensures fresh(buf) && buf.Valid() && buf.Contents() == HEADER && (buf.buf == null || fresh(buf.buf))
  {
    buf := new Buffer();
    buf.AppendStr(HEADER);
    ConcatNone(HEADER);
  }

  lemma DocumentText(roots: seq<Tree>)
    ensures PrintDocument(roots) == HEADER + PrintKids(roots)
  {
    hide PrintKids;
  }
}
