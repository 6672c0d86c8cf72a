/** How the parser reads one node, in place. */
module NodeReader {
  import opened Bytes
  import opened NameTables
  import opened Lexer
  import opened Xml
  import opened Nodes
  import opened Scanner
  import Machine
  import Utf8

  type Item = Machine.Item

  ghost function NeedOf(n: Node?): Option<Machine.Need>
    reads n
  {
    if n == null then None else Some(Machine.Need(n.nodeName, n.prefix))
  }

  /** What of the parser's state the next step depends on. */
  ghost function ReaderOf(p: Parser): Machine.Reader
    reads p, p.pNeedPrefixNode
  {
    Machine.Reader(p.curPtr, p.state, p.lastElem, p.elements, NeedOf(p.pNeedPrefixNode))
  }

  /** A reading that comes out as `g` says. */
  ghost predicate Yields(p: Parser, ok: bool, item: Item, g: Machine.Got)
    reads p, p.pNeedPrefixNode
  {
    match g
    case FileDone => false
    case Bad => !ok
    case Got(r, i) => ok && ReaderOf(p) == r && item == i
  }

  method SetNodePrefixAndLocalName(name: bytes) returns (prefix: Option<bytes>, localName: bytes)
    ensures Machine.QName(prefix, localName) == Machine.SplitName(name)
  {
    var colon := Find(name, 0, [Machine.COLON]);
    if colon.None? {
      return None, name;
    }
    return Some(name[..colon.value]), name[colon.value + 1..];
  }

  method ProcessSTag(p: Parser) returns (ok: bool, item: Item)
    requires NoNul(p.data)
    modifies p`curPtr, p`savePtr, p`tokenBuf, p`state, p`lastElem
    ensures Yields(p, ok, item, Machine.ProcessSTag(p.data, old(ReaderOf(p))))
  {
    hide NextToken, Machine.SplitName;
    ok, item := false, Machine.NoNode;
    var n := p.GetNextToken();
    if n == 0 {
      return;
    }
    var name := p.tokenBuf;
    p.lastElem := name;
    var prefix, localName := SetNodePrefixAndLocalName(name);
    p.savePtr := p.curPtr;
    n := p.GetNextToken();
    if n == 0 {
      return;
    }
    if p.tokenBuf == COMPLETE_TAG {
      p.state := Machine.InElement;
      p.curPtr := p.savePtr;
    } else if p.tokenBuf == [GREATER_THAN] {
      p.state := Machine.InContent;
    } else {
      p.state := Machine.InAttribute;
      p.curPtr := p.savePtr;
    }
    return true, Machine.StartTag(name, prefix, localName);
  }

  method ProcessETag(p: Parser) returns (ok: bool, item: Item)
    requires NoNul(p.data)
    modifies p`curPtr, p`savePtr, p`tokenBuf
    ensures Yields(p, ok, item, Machine.ProcessETag(p.data, old(ReaderOf(p))))
  {
    hide NextToken;
    ok, item := false, Machine.NoNode;
    var n := p.GetNextToken();
    if n == 0 {
      return;
    }
    var name := p.tokenBuf;
    p.SkipWhiteSpaces();
    n := p.GetNextToken();
    if n == 0 {
      return;
    }
    if p.tokenBuf != [GREATER_THAN] {
      return;
    }
    return true, Machine.EndTag(name);
  }

  /** From the start of the section; where the parser goes on. */
  method ProcessCDSect(d: bytes, src: nat, ghost r: Machine.Reader) returns (ok: bool, cur: nat, item: Item)
    requires NoNul(d)
    ensures match Machine.ProcessCDSect(d, src, r)
            case Got(r', i) => ok && item == i && r' == r.(cur := cur)
            case _ => !ok
  {
    cur, item := src, Machine.NoNode;
    var start := src + |CD_START|;
    var end := start;
    var found := false;
    while !found && At(d, end) < 128 && IsXmlChar(At(d, end)) && At(d, end) != 0
      invariant start <= end && (end > start ==> end <= |d|)
      invariant Machine.CDataEnd(d, start) == Machine.CDataEnd(d, end)
      invariant found ==> Looking(d, end, CD_END)
      decreases !found, |d| - end
    {
      if Looking(d, end, CD_END) {
        found := true;
      } else {
        end := end + 1;
      }
    }
    if end > start && At(d, end) != 0 {
      return true, end + |CD_END|, Machine.CDataNode(d[start..end]);
    }
    ok := false;
  }

  /** The end of character data. */
  method FindTextEnd(d: bytes, src: nat) returns (end: nat)
    requires NoNul(d)
    ensures end == Machine.TextEnd(d, src)
  {
    end := src;
    while At(d, end) != LESS_THAN && !Looking(d, end, CD_END) && At(d, end) != 0
      invariant Machine.TextEnd(d, src) == Machine.TextEnd(d, end)
      decreases |d| - end
    {
      end := end + 1;
    }
  }

  method ProcessContent(p: Parser) returns (ok: bool, item: Item)
    requires NoNul(p.data)
    modifies p`curPtr, p`savePtr, p`tokenBuf, p`state
    ensures Yields(p, ok, item, Machine.ProcessContent(p.data, old(ReaderOf(p))))
  {
    hide SkipWhite, CopyToken, Machine.TextEnd, SkipComment, Machine.SkipPI, Machine.ProcessCDSect, Looking;
    item := Machine.NoNode;
    p.savePtr := p.curPtr;
    p.SkipWhiteSpaces();
    if At(p.data, p.curPtr) == 0 {
      return true, item;
    }
    if At(p.data, p.curPtr) == LESS_THAN {
      ok, item := ProcessMarkup(p, old(ReaderOf(p)));
    } else {
      p.curPtr := p.savePtr;
      var end := FindTextEnd(p.data, p.curPtr);
      if Looking(p.data, end, CD_END) {
        return false, item;
      }
      p.tokenBuf := [];
      ok := p.CopyIntoToken(p.curPtr, end - p.curPtr);
      if !ok {
        return;
      }
      item := Machine.TextNode(p.tokenBuf);
      p.curPtr := end;
    }
  }

  /** The markup that content goes on with, at the cursor. */
  method ProcessMarkup(p: Parser, ghost r: Machine.Reader) returns (ok: bool, item: Item)
    requires NoNul(p.data) && At(p.data, p.curPtr) == LESS_THAN
    requires r == ReaderOf(p).(cur := r.cur) && p.curPtr == SkipWhite(p.data, r.cur)
    modifies p`curPtr, p`state
    ensures Yields(p, ok, item, Machine.ProcessContent(p.data, r))
  {
    hide SkipWhite, CopyToken, Machine.TextEnd, SkipComment, Machine.SkipPI, Machine.ProcessCDSect, Looking;
    item := Machine.NoNode;
    var end;
    if Looking(p.data, p.curPtr, CD_START) {
      ok, end, item := ProcessCDSect(p.data, p.curPtr, r);
      CDataNotDone(p.data, p.curPtr, r);
    } else if Looking(p.data, p.curPtr, BEGIN_COMMENT) {
      ok, end := SkipCommentFrom(p.data, p.curPtr);
    } else if Looking(p.data, p.curPtr, BEGIN_PI) {
      ok, end := SkipPIFrom(p.data, p.curPtr);
    } else {
      p.state := Machine.InElement;
      return true, item;
    }
    if ok {
      p.curPtr := end;
    }
  }

  lemma CDataNotDone(d: bytes, src: nat, r: Machine.Reader)
    ensures !Machine.ProcessCDSect(d, src, r).FileDone?
  {
  }

  // ----- namespaces

  /** The list search of the namespace declarations: replaces the entry of the prefix, or appends one. */
  method SetNamespace(ns: seq<Machine.Ns>, prefix: bytes, uri: bytes) returns (r: seq<Machine.Ns>)
    ensures r == Machine.NsSet(ns, prefix, uri)
  {
    var i := 0;
    while i < |ns| && ns[i].prefix != prefix
      invariant i <= |ns| && Machine.NsSet(ns, prefix, uri) == ns[..i] + Machine.NsSet(ns[i..], prefix, uri)
    {
      NsSetStep(ns, i, prefix, uri);
      i := i + 1;
    }
    if i == |ns| {
      r := ns + [Machine.Ns(prefix, uri)];
      assert ns[i..] == [] && ns[..i] == ns;
    } else {
      r := ns[i := Machine.Ns(prefix, uri)];
      assert ns[i..][0] == ns[i] && ns[i..][1..] == ns[i + 1..];
    }
  }

  lemma NsSetStep(ns: seq<Machine.Ns>, i: nat, prefix: bytes, uri: bytes)
    requires i < |ns| && ns[i].prefix != prefix
    ensures ns[..i] + Machine.NsSet(ns[i..], prefix, uri) == ns[..i + 1] + Machine.NsSet(ns[i + 1..], prefix, uri)
  {
    assert ns[i..][1..] == ns[i + 1..];
    assert ns[..i + 1] == ns[..i] + [ns[i]];
  }

  /** Gives the waiting element its namespace, if the top of the stack has one for it. */
  method AddNamespace(p: Parser) returns (ok: bool)
    requires p.elements != [] && p.pNeedPrefixNode != null
    modifies p`pNeedPrefixNode, p.pNeedPrefixNode`namespaceURI
    ensures match Machine.AddNamespace(p.elements, old(ReaderOf(p)).need)
            case ScopeErr => !ok
            case Scoping(stack, need) => ok && stack == p.elements && need == NeedOf(p.pNeedPrefixNode)
    ensures p.pNeedPrefixNode == null || p.pNeedPrefixNode == old(p.pNeedPrefixNode)
    ensures ok && p.pNeedPrefixNode == null && p.elements[0].uri.Some? ==>
              old(p.pNeedPrefixNode).namespaceURI == p.elements[0].uri
  {
    var pNode, pCur := p.pNeedPrefixNode, p.elements[0];
    if pNode.prefix.None? {
      if pNode.nodeName != pCur.element {
        return false;
      }
      if pCur.uri.Some? {
        pNode.namespaceURI := pCur.uri;
      }
      p.pNeedPrefixNode := null;
    } else {
      if pCur.prefix.None? || (pNode.nodeName != pCur.element && pNode.prefix != pCur.prefix) {
        return false;
      }
      if pCur.uri.Some? {
        pNode.namespaceURI := pCur.uri;
        p.pNeedPrefixNode := null;
      }
    }
    ok := true;
  }

  ghost function Waiting(p: Parser): set<Node>
    reads p
  {
    if p.pNeedPrefixNode == null then {} else {p.pNeedPrefixNode}
  }

  method XmlNamespace(p: Parser, name: bytes, value: bytes) returns (ok: bool)
    requires p.elements != []
    modifies p`elements, p`pNeedPrefixNode, Waiting(p)`namespaceURI
    ensures match Machine.XmlNamespace(old(p.elements), old(ReaderOf(p)).need, name, value)
            case ScopeErr => !ok
            case Scoping(stack, need) => ok && stack == p.elements && need == NeedOf(p.pNeedPrefixNode)
    ensures p.pNeedPrefixNode == null || p.pNeedPrefixNode == old(p.pNeedPrefixNode)
  {
    hide Machine.NsSet, Machine.SplitName, Machine.AddNamespace;
    var top, rest := p.elements[0], p.elements[1..];
    if name == Machine.XMLNS {
      p.elements := [top.(uri := Some(value))] + rest;
    } else if Looking(name, 0, Machine.XMLNS_COLON) {
      var prefix, localName := SetNodePrefixAndLocalName(name);
      if top.prefix == Some(localName) {
        p.elements := [top.(uri := Some(value))] + rest;
      } else {
        var ns := SetNamespace(top.ns, localName, value);
        p.elements := [top.(ns := ns)] + rest;
      }
    } else {
      assert p.elements == [top] + rest;
    }
    NoNeed(p.elements);
    ok := true;
    if p.pNeedPrefixNode != null {
      ok := AddNamespace(p);
    }
  }

  lemma NoNeed(stack: seq<Machine.Scope>)
    requires stack != []
    ensures Machine.AddNamespace(stack, None) == Machine.Scoping(stack, None)
  {
  }

  // ----- attributes

  /** The value up to the end quote, with references replaced, in the token buffer. */
  method ReadValue(p: Parser, end: nat) returns (ok: bool)
    requires p.curPtr <= end <= |p.data|
    modifies p`tokenBuf
    ensures Copied(ok, p.tokenBuf) == Machine.AttrValue(p.data, p.curPtr, end)
            || (!ok && !Machine.AttrValue(p.data, p.curPtr, end).ok)
  {
    hide CopyToken;
    var i := p.curPtr;
    while i < end
      invariant p.curPtr <= i <= end && LESS_THAN !in p.data[p.curPtr..i]
    {
      if p.data[i] == LESS_THAN {
        assert p.data[p.curPtr..end][i - p.curPtr] == LESS_THAN;
        return false;
      }
      i := i + 1;
    }
    p.tokenBuf := [];
    ok := true;
    if end != p.curPtr {
      ok := p.CopyIntoToken(p.curPtr, end - p.curPtr);
    }
  }

  /** The "=" and the opening quote after a name, and where the value ends. */
  method ReadQuotes(p: Parser) returns (ok: bool, end: nat)
    requires NoNul(p.data)
    modifies p`curPtr, p`savePtr, p`tokenBuf
    ensures ok <==> QuotesAt(p.data, old(p.curPtr)).Some?
    ensures ok ==> QuotesAt(p.data, old(p.curPtr)).value == (p.curPtr, end) && p.curPtr <= end < |p.data|
  {
    hide NextToken;
    ok, end := false, 0;
    var n := p.GetNextToken();
    if n == 0 || At(p.tokenBuf, 0) != EQUALS {
      return;
    }
    n := p.GetNextToken();
    if n == 0 || (At(p.tokenBuf, 0) != QUOTE && At(p.tokenBuf, 0) != SINGLE_QUOTE) {
      return;
    }
    var found := Find(p.data, p.curPtr, p.tokenBuf);
    if found.None? {
      return;
    }
    assert |p.tokenBuf| > 0;
    return true, found.value;
  }

  /** Where a value begins and ends, from just after the name. */
  ghost function QuotesAt(d: bytes, cur: nat): Option<(nat, nat)> {
    var eq := NextToken(d, cur);
    if eq.len == 0 || At(eq.buf, 0) != EQUALS then None
    else
      var quote := NextToken(d, eq.cur);
      if quote.len == 0 || (At(quote.buf, 0) != QUOTE && At(quote.buf, 0) != SINGLE_QUOTE) then None
      else match Find(d, quote.cur, quote.buf) case None => None case Some(e) => Some((quote.cur, e))
  }

  ghost function AttrItem(name: bytes, value: bytes): Item {
    var q := Machine.SplitName(name);
    if name != Machine.XMLNS && Looking(name, 0, Machine.XMLNS_COLON) then
      Machine.AttrNode(Attr(name, value), q.prefix, Some(q.localName))
    else Machine.AttrNode(Attr(name, value), None, None)
  }

  /** The parts of the reading of an attribute. */
  lemma AttributeParts(d: bytes, r: Machine.Reader, name: bytes)
    requires r.stack != []
    ensures var g, q := Machine.ProcessAttribute(d, r, name), QuotesAt(d, r.cur);
            && !g.FileDone?
            && (!IsName(Utf8.Decode(name, 0).value, false) || q.None? ==> g.Bad?)
            && (g.Got? ==> q.Some? && q.value.0 <= q.value.1 <= |d|)
    ensures IsName(Utf8.Decode(name, 0).value, false) && QuotesAt(d, r.cur).Some? ==>
              var (b, e) := QuotesAt(d, r.cur).value;
              && b <= e <= |d|
              && Machine.ProcessAttribute(d, r, name) == AfterQuotes(d, r, name, b, e)
  {
    hide NextToken, IsName, Utf8.Decode, Machine.SplitName, Machine.XmlNamespace, Machine.AttrValue;
  }

  ghost function AfterQuotes(d: bytes, r: Machine.Reader, name: bytes, b: nat, e: nat): Machine.Got
    requires b <= e <= |d| && r.stack != []
  {
    var v := Machine.AttrValue(d, b, e);
    if !v.ok then Machine.Bad
    else
      match Machine.XmlNamespace(r.stack, r.need, name, v.out)
      case ScopeErr => Machine.Bad
      case Scoping(stack, need) =>
        AfterValue(d, r.(cur := e + 1, stack := stack, need := need), AttrItem(name, v.out))
  }

  ghost function AfterValue(d: bytes, r: Machine.Reader, item: Item): Machine.Got {
    var ahead := NextToken(d, r.cur);
    if ahead.len == 0 || ahead.buf == [LESS_THAN] then Machine.Bad
    else if ahead.buf == [GREATER_THAN] then Machine.Got(r.(cur := ahead.cur, state := Machine.InContent), item)
    else if ahead.buf == COMPLETE_TAG then Machine.Got(r.(cur := ahead.cur - ahead.len), item)
    else Machine.Got(r, item)
  }

  /** Reads ahead to see whether there are more attributes. */
  method ReadAhead(p: Parser, ghost item: Item) returns (ok: bool)
    requires NoNul(p.data)
    modifies p`curPtr, p`savePtr, p`tokenBuf, p`state
    ensures Yields(p, ok, item, AfterValue(p.data, old(ReaderOf(p)), item))
  {
    hide NextToken;
    p.savePtr := p.curPtr;
    var n := p.GetNextToken();
    if n == 0 {
      return false;
    }
    if p.tokenBuf == [LESS_THAN] {
      return false;
    } else if p.tokenBuf != [GREATER_THAN] {
      p.curPtr := p.savePtr;
    } else {
      p.state := Machine.InContent;
    }
    ok := true;
  }

  method ProcessAttribute(p: Parser) returns (ok: bool, item: Item)
    requires NoNul(p.data) && p.elements != []
    modifies p`curPtr, p`savePtr, p`tokenBuf, p`state, p`elements, p`pNeedPrefixNode, Waiting(p)`namespaceURI
    ensures Yields(p, ok, item, Machine.ProcessAttribute(p.data, old(ReaderOf(p)), old(p.tokenBuf)))
    ensures p.pNeedPrefixNode == null || p.pNeedPrefixNode == old(p.pNeedPrefixNode)
  {
    hide NextToken, IsName, Utf8.Decode, Machine.XmlNamespace, Machine.AttrValue, QuotesAt, Machine.ProcessAttribute,
         AttrItem, AfterValue;
    ghost var r := ReaderOf(p);
    item := Machine.NoNode;
    var name := p.tokenBuf;
    AttributeParts(p.data, r, name);
    var begins := IsNameChar(Utf8.Decode(name, 0).value, false);
    if !begins {
      return false, item;
    }
    var end;
    ok, end := ReadQuotes(p);
    if !ok {
      return;
    }
    ok := ReadValue(p, end);
    if !ok {
      return;
    }
    p.curPtr := end + 1;
    var value := p.tokenBuf;
    ok := XmlNamespace(p, name, value);
    if !ok {
      return;
    }
    item := MakeAttrItem(name, value);
    ok := ReadAhead(p, item);
  }

  /** An attribute that declares a prefix has its name split. */
  method MakeAttrItem(name: bytes, value: bytes) returns (item: Item)
    ensures item == AttrItem(name, value)
  {
    if name != Machine.XMLNS && Looking(name, 0, Machine.XMLNS_COLON) {
      var prefix, localName := SetNodePrefixAndLocalName(name);
      return Machine.AttrNode(Attr(name, value), prefix, Some(localName));
    }
    return Machine.AttrNode(Attr(name, value), None, None);
  }

  datatype Result = Success | FileDone | Failure

  /** Reads one node; an end tag is marked by its item. */
  method GetNextNode(p: Parser) returns (ret: Result, item: Item)
    requires NoNul(p.data)
    modifies p`curPtr, p`savePtr, p`tokenBuf, p`state, p`lastElem, p`elements, p`pNeedPrefixNode,
             Waiting(p)`namespaceURI
    ensures match Machine.GetNextNode(p.data, old(ReaderOf(p)))
            case FileDone => ret == FileDone && ReaderOf(p) == old(ReaderOf(p))
            case Bad => ret == Failure
            case Got(r, i) => ret == Success && ReaderOf(p) == r && item == i
    ensures p.pNeedPrefixNode == null || p.pNeedPrefixNode == old(p.pNeedPrefixNode)
  {
    hide NextToken, SkipWhite, Machine.ProcessSTag, Machine.ProcessETag, Machine.ProcessAttribute,
         Machine.ProcessContent;
    item := Machine.NoNode;
    if At(p.data, p.curPtr) == 0 {
      return FileDone, item;
    }
    if p.state == Machine.InContent {
      var ok;
      ok, item := ProcessContent(p);
      return if ok then Success else Failure, item;
    }
    p.SkipWhiteSpaces();
    var tokenLen := p.GetNextToken();
    if tokenLen == 0 && p.elements == [] && At(p.data, p.curPtr) == 0 {
      return Success, item;
    } else if p.tokenBuf == [] {
      return Failure, item;
    }
    var ok := false;
    if p.tokenBuf[0] == GREATER_THAN {
      ok := true;
    } else if p.tokenBuf == END_TAG {
      ok, item := ProcessETag(p);
    } else if p.tokenBuf[0] == LESS_THAN {
      ok, item := ProcessSTag(p);
    } else if p.tokenBuf == COMPLETE_TAG {
      if p.lastElem != [] {
        ok, item := true, Machine.EndTag(p.lastElem);
      }
    } else if p.elements != [] && p.state == Machine.InAttribute {
      ok, item := ProcessAttribute(p);
    }
    return if ok then Success else Failure, item;
  }
}
