/**
 The parser as a state machine over values: one step is one iteration of its main loop.
 NodeReader.dfy and TreeBuilder.dfy refine it in place; its properties are in MachineProperties.dfy.
 */
module Machine {
  import opened Bytes
  import opened NameTables
  import opened Lexer
  import opened Xml
  import Utf8

  datatype State = InElement | InAttribute | InContent

  /** One namespace declared by an xmlns: attribute of an element. */
  datatype Ns = Ns(prefix: bytes, uri: bytes)

  /** An item of the element stack; the top of the stack comes first. */
  datatype Scope = Scope(element: bytes, prefix: Option<bytes>, uri: Option<bytes>, ns: seq<Ns>)

  /** The element that still waits for its namespace to be declared. */
  datatype Need = Need(name: bytes, prefix: Option<bytes>)

  datatype Reader = Reader(cur: nat, state: State, lastElem: bytes, stack: seq<Scope>, need: Option<Need>)

  datatype Item =
    | NoNode
    | StartTag(name: bytes, prefix: Option<bytes>, local: bytes)
    | TextNode(value: bytes)
    | CDataNode(value: bytes)
    | AttrNode(attr: Attr, attrPrefix: Option<bytes>, attrLocal: Option<bytes>)
    | EndTag(name: bytes)

  datatype Got = FileDone | Bad | Got(r: Reader, item: Item)

  const COLON: byte := 0x3A
  const XMLNS: bytes := [0x78, 0x6D, 0x6C, 0x6E, 0x73]
  const XMLNS_COLON: bytes := [0x78, 0x6D, 0x6C, 0x6E, 0x73, 0x3A]
  const DOCUMENT_NAME: bytes := [0x23, 0x64, 0x6F, 0x63, 0x75, 0x6D, 0x65, 0x6E, 0x74] // #document

  datatype QName = QName(prefix: Option<bytes>, localName: bytes)

  function SplitName(name: bytes): QName {
    match Find(name, 0, [COLON])
    case None => QName(None, name)
    case Some(i) => QName(Some(name[..i]), name[i + 1..])
  }

  // ----- namespaces

  /** The first entry for a prefix in the list of an element. */
  function NsLookup(ns: seq<Ns>, prefix: bytes): Option<bytes> {
    if ns == [] then None else if ns[0].prefix == prefix then Some(ns[0].uri) else NsLookup(ns[1..], prefix)
  }

  /** Replaces the first entry for the prefix, or appends one. */
  function NsSet(ns: seq<Ns>, prefix: bytes, uri: bytes): seq<Ns> {
    if ns == [] then [Ns(prefix, uri)]
    else if ns[0].prefix == prefix then [Ns(prefix, uri)] + ns[1..]
    else [ns[0]] + NsSet(ns[1..], prefix, uri)
  }

  /**
   Whether a prefix is bound by the stack, and to what: the element's own prefix counts as bound
   even while its URI is unknown, and the empty string then stands for the URI.
   */
  function PrefixLookup(stack: seq<Scope>, prefix: bytes): Option<bytes> {
    if stack == [] then None
    else if stack[0].prefix == Some(prefix) then Some(if stack[0].uri.Some? then stack[0].uri.value else [])
    else if NsLookup(stack[0].ns, prefix).Some? then NsLookup(stack[0].ns, prefix)
    else PrefixLookup(stack[1..], prefix)
  }

  function DefaultLookup(stack: seq<Scope>): Option<bytes> {
    if stack == [] then None
    else if stack[0].prefix.None? && stack[0].uri.Some? then stack[0].uri
    else DefaultLookup(stack[1..])
  }

  datatype Scoping = ScopeErr | Scoping(stack: seq<Scope>, need: Option<Need>)

  /** The top scope after the attribute, if it declares a namespace. */
  function Declared(top: Scope, name: bytes, value: bytes): Scope {
    if name == XMLNS then top.(uri := Some(value))
    else if Looking(name, 0, XMLNS_COLON) then
      var local := SplitName(name).localName;
      if top.prefix == Some(local) then top.(uri := Some(value)) else top.(ns := NsSet(top.ns, local, value))
    else top
  }

  /** Serves the element that waits for a namespace, if any, from the top scope. */
  function AddNamespace(stack: seq<Scope>, need: Option<Need>): Scoping
    requires stack != []
  {
    var top := stack[0];
    match need
    case None => Scoping(stack, None)
    case Some(Need(name, None)) => if name != top.element then ScopeErr else Scoping(stack, None)
    case Some(Need(name, Some(prefix))) =>
      if top.prefix.None? || (name != top.element && Some(prefix) != top.prefix) then ScopeErr
      else Scoping(stack, if top.uri.Some? then None else need)
  }

  function XmlNamespace(stack: seq<Scope>, need: Option<Need>, name: bytes, value: bytes): Scoping
    requires stack != []
  {
    AddNamespace([Declared(stack[0], name, value)] + stack[1..], need)
  }

  // ----- the readers of one node

  function ProcessSTag(d: bytes, r: Reader): Got {
    var t := NextToken(d, r.cur);
    if t.len == 0 then Bad
    else
      var q := SplitName(t.buf);
      var item := StartTag(t.buf, q.prefix, q.localName);
      var u := NextToken(d, t.cur);
      if u.len == 0 then Bad
      else if u.buf == COMPLETE_TAG then Got(r.(cur := u.cur - u.len, state := InElement, lastElem := t.buf), item)
      else if u.buf == [GREATER_THAN] then Got(r.(cur := u.cur, state := InContent, lastElem := t.buf), item)
      else Got(r.(cur := t.cur, state := InAttribute, lastElem := t.buf), item)
  }

  function ProcessETag(d: bytes, r: Reader): Got {
    var t := NextToken(d, r.cur);
    if t.len == 0 then Bad
    else
      var u := NextToken(d, SkipWhite(d, t.cur));
      if u.len == 0 || u.buf != [GREATER_THAN] then Bad else Got(r.(cur := u.cur), EndTag(t.buf))
  }

  /** The scan of a CDATA section: bytes above 127 are negative there, so no XML characters. */
  function CDataEnd(d: bytes, p: nat): (e: nat)
    ensures e >= p && (e > p ==> e <= |d|)
    decreases |d| - p
  {
    if p < |d| && d[p] < 128 && IsXmlChar(d[p]) && !Looking(d, p, CD_END) then CDataEnd(d, p + 1) else p
  }

  function ProcessCDSect(d: bytes, p: nat, r: Reader): Got {
    var e := CDataEnd(d, p + |CD_START|);
    if e > p + |CD_START| && At(d, e) != 0 then
      Got(r.(cur := e + |CD_END|), CDataNode(d[p + |CD_START|..e]))
    else Bad
  }

  function SkipPI(d: bytes, p: nat): (r: Skip)
    ensures r.ok ==> p < r.cur <= |d|
  {
    if LookingNoCase(d, p, XML_DECL) || LookingNoCase(d, p, XML_DECL2) then Skip(false, p)
    else
      match Find(d, p, END_PI)
      case Some(q) => if q != p then Skip(true, q + 2) else Skip(false, p)
      case None => Skip(false, p)
  }

  /** The end of character data: a '<', a "]]>" or the end of the buffer. */
  function TextEnd(d: bytes, p: nat): (e: nat)
    ensures e >= p && (e > p ==> e <= |d|)
    decreases |d| - p
  {
    if p < |d| && d[p] != 0 && d[p] != LESS_THAN && !Looking(d, p, CD_END) then TextEnd(d, p + 1) else p
  }

  function ProcessContent(d: bytes, r: Reader): Got {
    var q := SkipWhite(d, r.cur);
    if At(d, q) == 0 then Got(r.(cur := q), NoNode)
    else if At(d, q) == LESS_THAN then
      if Looking(d, q, CD_START) then ProcessCDSect(d, q, r)
      else if Looking(d, q, BEGIN_COMMENT) then
        var s := SkipComment(d, q);
        if s.ok then Got(r.(cur := s.cur), NoNode) else Bad
      else if Looking(d, q, BEGIN_PI) then
        var s := SkipPI(d, q);
        if s.ok then Got(r.(cur := s.cur), NoNode) else Bad
      else Got(r.(cur := q, state := InElement), NoNode)
    else
      var e := TextEnd(d, r.cur);
      var t := CopyToken(d, r.cur, e - r.cur);
      if Looking(d, e, CD_END) || !t.ok then Bad else Got(r.(cur := e), TextNode(t.out))
  }

  /** The value between the quotes, which no '<' may interrupt. */
  function AttrValue(d: bytes, p: nat, e: nat): Copied
    requires p <= e <= |d|
  {
    if LESS_THAN in d[p..e] then Copied(false, [])
    else if p == e then Copied(true, [])
    else CopyToken(d, p, e - p)
  }

  /** From just after the name, which is in the token buffer. */
  function ProcessAttribute(d: bytes, r: Reader, name: bytes): Got
    requires r.stack != []
  {
    if !IsName(Utf8.Decode(name, 0).value, false) then Bad
    else
      var eq := NextToken(d, r.cur);
      if eq.len == 0 || At(eq.buf, 0) != EQUALS then Bad
      else
        var quote := NextToken(d, eq.cur);
        if quote.len == 0 || (At(quote.buf, 0) != QUOTE && At(quote.buf, 0) != SINGLE_QUOTE) then Bad
        else
          match Find(d, quote.cur, quote.buf)
          case None => Bad
          case Some(e) =>
            var v := AttrValue(d, quote.cur, e);
            if !v.ok then Bad
            else
              match XmlNamespace(r.stack, r.need, name, v.out)
              case ScopeErr => Bad
              case Scoping(stack, need) =>
                var q := SplitName(name);
                var item :=
                  if name != XMLNS && Looking(name, 0, XMLNS_COLON) then
                    AttrNode(Attr(name, v.out), q.prefix, Some(q.localName))
                  else AttrNode(Attr(name, v.out), None, None);
                var r' := r.(cur := e + 1, stack := stack, need := need);
                var ahead := NextToken(d, e + 1);
                if ahead.len == 0 || ahead.buf == [LESS_THAN] then Bad
                else if ahead.buf == [GREATER_THAN] then Got(r'.(cur := ahead.cur, state := InContent), item)
                else if ahead.buf == COMPLETE_TAG then Got(r'.(cur := ahead.cur - ahead.len), item)
                else Got(r', item)
  }

  /** Reads one node, or an end tag, or nothing of either. */
  function GetNextNode(d: bytes, r: Reader): Got {
    if At(d, r.cur) == 0 then FileDone
    else if r.state == InContent then ProcessContent(d, r)
    else
      var t := NextToken(d, SkipWhite(d, r.cur));
      var r' := r.(cur := t.cur);
      if t.len == 0 && r.stack == [] && At(d, t.cur) == 0 then Got(r', NoNode)
      else if t.buf == [] then Bad
      else if t.buf[0] == GREATER_THAN then Got(r', NoNode)
      else if t.buf == END_TAG then ProcessETag(d, r')
      else if t.buf[0] == LESS_THAN then ProcessSTag(d, r')
      else if t.buf == COMPLETE_TAG then (if r.lastElem == [] then Bad else Got(r', EndTag(r.lastElem)))
      else if r.stack != [] && r.state == InAttribute then ProcessAttribute(d, r', t.buf)
      else Bad
  }

  // ----- the main loop

  /** An element whose end tag has not been read; the innermost comes first, the document last. */
  datatype Frame = Frame(name: bytes, attrs: seq<Attr>, kids: seq<Tree>)

  datatype Code = SyntaxErr | Failed | HierarchyRequestErr | InvalidParameter

  datatype Machine = Machine(r: Reader, hasTop: bool, open: seq<Frame>)

  datatype Stepped = Finish | Stop(code: Code) | Next(m: Machine)

  predicate Running(m: Machine) {
    m.open != []
  }

  /** A start tag: its scope inherits a namespace, or it waits for one, or neither. */
  function Opened(r: Reader, name: bytes, prefix: Option<bytes>): Reader {
    match prefix
    case Some(p) =>
      (match PrefixLookup(r.stack, p)
       case Some(u) => r.(stack := [Scope(name, prefix, Some(u), [])] + r.stack)
       case None => r.(stack := [Scope(name, prefix, None, [])] + r.stack, need := Some(Need(name, prefix))))
    case None =>
      match DefaultLookup(r.stack)
      case Some(u) => r.(stack := [Scope(name, None, Some(u), [])] + r.stack)
      case None =>
        r.(stack := [Scope(name, None, None, [])] + r.stack,
           need := if r.state == InAttribute then Some(Need(name, None)) else r.need)
  }

  function AddKid(f: Frame, t: Tree): Frame {
    f.(kids := f.kids + [t])
  }

  predicate HasAttr(attrs: seq<Attr>, name: bytes) {
    exists i | 0 <= i < |attrs| :: attrs[i].name == name
  }

  function Closed(f: Frame): Tree {
    Element(f.name, f.attrs, f.kids)
  }

  /** What the loop does with the node that was read. */
  function Digest(m: Machine, r: Reader, item: Item): Stepped
    requires Running(m)
  {
    var top := m.open[0];
    match item
    case NoNode => Next(m.(r := r))
    case StartTag(name, prefix, _) =>
      if m.hasTop && r.stack == [] then Stop(SyntaxErr)
      else Next(Machine(Opened(r, name, prefix), true, [Frame(name, [], [])] + m.open))
    case TextNode(v) =>
      if |m.open| == 1 then Stop(HierarchyRequestErr)
      else Next(m.(r := r, open := [AddKid(top, Text(v))] + m.open[1..]))
    case CDataNode(v) =>
      if |m.open| == 1 then Stop(HierarchyRequestErr)
      else Next(m.(r := r, open := [AddKid(top, CData(v))] + m.open[1..]))
    case AttrNode(a, _, _) =>
      if HasAttr(top.attrs, a.name) then Stop(SyntaxErr)
      else Next(m.(r := r, open := [top.(attrs := top.attrs + [a])] + m.open[1..]))
    case EndTag(name) =>
      if r.stack == [] || r.stack[0].element != name then Stop(SyntaxErr)
      else if top.name != name || |m.open| == 1 then Stop(SyntaxErr)
      else
        Next(m.(r := r.(stack := r.stack[1..], state := InContent),
                open := [AddKid(m.open[1], Closed(top))] + m.open[2..]))
  }

  function Step(d: bytes, m: Machine): Stepped
    requires Running(m)
  {
    match GetNextNode(d, m.r)
    case FileDone => Finish
    case Bad => Stop(Failed)
    case Got(r, item) => Digest(m, r, item)
  }

  function Left(d: bytes, r: Reader): nat {
    if r.cur < |d| then |d| - r.cur else 0
  }

  function Phase(r: Reader): nat {
    if r.state == InContent then 1 else 0
  }

  function Start(cur: nat): Machine {
    Machine(Reader(cur, InElement, [], [], None), false, [Frame(DOCUMENT_NAME, [], [])])
  }
}
