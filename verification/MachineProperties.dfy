/** What every iteration of the main loop keeps, and what a finished run has built. */
module MachineProperties {
  import opened Bytes
  import opened Lexer
  import opened Xml
  import opened Machine
  import opened Parse
  import NameTables

  /** How reading one node may touch the element stack and the state. */
  predicate Effect(r: Reader, r': Reader, item: Item) {
    && (!item.AttrNode? ==> r'.stack == r.stack && r'.need == r.need)
    && (item.AttrNode? ==>
          && r.stack != [] && r.state == InAttribute
          && r'.stack == [Declared(r.stack[0], item.attr.name, item.attr.value)] + r.stack[1..])
    && (item.TextNode? || item.CDataNode? ==> r.state == InContent && r'.state == InContent)
    && (r'.state == InAttribute && !item.StartTag? ==> r.state == InAttribute)
  }

  lemma ReadingEffect(d: bytes, r: Reader)
    requires GetNextNode(d, r).Got?
    ensures Effect(r, GetNextNode(d, r).r, GetNextNode(d, r).item)
  {
    hide NextToken, SkipMisc, CopyToken, Declared, Effect, ProcessSTag, ProcessETag, ProcessAttribute, ProcessContent;
    if r.state == InContent {
      ContentEffect(d, r);
    } else {
      TagEffect(d, r);
    }
  }

  lemma ContentEffect(d: bytes, r: Reader)
    requires r.state == InContent && GetNextNode(d, r).Got?
    ensures Effect(r, GetNextNode(d, r).r, GetNextNode(d, r).item)
  {
    hide NextToken, SkipMisc, CopyToken, Declared, ProcessSTag, ProcessETag, ProcessAttribute;
  }

  lemma TagEffect(d: bytes, r: Reader)
    requires r.state != InContent && GetNextNode(d, r).Got?
    ensures Effect(r, GetNextNode(d, r).r, GetNextNode(d, r).item)
  {
    hide NextToken, SkipWhite, Declared, Effect, ProcessSTag, ProcessETag, ProcessAttribute, ProcessContent;
    var t := NextToken(d, SkipWhite(d, r.cur));
    var r' := r.(cur := t.cur);
    if t.buf == END_TAG {
      ETagEffect(d, r', r);
    } else if t.buf != [] && t.buf[0] == LESS_THAN {
      STagEffect(d, r', r);
    } else if r.stack != [] && r.state == InAttribute {
      AttributeEffect(d, r', t.buf, r);
    }
    PlainEffect(r, r', NoNode);
    PlainEffect(r, r', EndTag(r.lastElem));
  }

  /** What moves no more than the cursor. */
  lemma PlainEffect(r: Reader, r': Reader, item: Item)
    requires r.state != InContent && (item.NoNode? || item.EndTag?) && r' == r.(cur := r'.cur)
    ensures Effect(r, r', item)
  {
  }

  lemma STagEffect(d: bytes, r: Reader, r0: Reader)
    ensures ProcessSTag(d, r).Got? && r == r0.(cur := r.cur) && r0.state != InContent ==>
              Effect(r0, ProcessSTag(d, r).r, ProcessSTag(d, r).item)
  {
    hide NextToken, SplitName, NameTables.IsName;
  }

  lemma ETagEffect(d: bytes, r: Reader, r0: Reader)
    requires r0.state != InContent
    ensures ProcessETag(d, r).Got? && r == r0.(cur := r.cur) ==>
              Effect(r0, ProcessETag(d, r).r, ProcessETag(d, r).item)
  {
    hide NextToken, NameTables.IsName;
  }

  lemma AttributeEffect(d: bytes, r: Reader, name: bytes, r0: Reader)
    requires r.stack != [] && r.state == InAttribute && r == r0.(cur := r.cur)
    ensures ProcessAttribute(d, r, name).Got? ==>
              Effect(r0, ProcessAttribute(d, r, name).r, ProcessAttribute(d, r, name).item)
  {
    hide NextToken, SplitName, NameTables.IsName, Find, AttrValue, Looking, Declared, AddNamespace;
    AddNamespaceStack(r, name);
  }

  /** Serving the element that waits leaves the stack alone. */
  lemma AddNamespaceStack(r: Reader, name: bytes)
    requires r.stack != []
    ensures forall value: bytes :: var x := XmlNamespace(r.stack, r.need, name, value);
              x.Scoping? ==> x.stack == [Declared(r.stack[0], name, value)] + r.stack[1..]
  {
    hide Declared;
  }

  // ----- the element stack and the tree

  /**
   The element stack, read from the top, names the elements from the current node up to the root,
   below them is only the document, and a document has at most one top-level element.
   */
  predicate StackMatches(m: Machine) {
    && |m.open| == |m.r.stack| + 1
    && (forall i | 0 <= i < |m.r.stack| :: m.open[i].name == m.r.stack[i].element)
    && m.open[|m.r.stack|].name == DOCUMENT_NAME
    && var kids := m.open[|m.r.stack|].kids;
    && (forall i | 0 <= i < |kids| :: kids[i].Element?)
    && |kids| + (if m.r.stack == [] then 0 else 1) == (if m.hasTop then 1 else 0)
    && (m.r.state == InAttribute ==> m.r.stack != [] && m.open[0].kids == [])
  }

  lemma DeclaredKeeps(top: Scope, name: bytes, value: bytes)
    ensures Declared(top, name, value).element == top.element && Declared(top, name, value).prefix == top.prefix
  {
  }

  lemma OpenedPushes(r: Reader, name: bytes, prefix: Option<bytes>)
    ensures var r' := Opened(r, name, prefix);
            && r'.cur == r.cur && r'.state == r.state && r'.lastElem == r.lastElem
            && |r'.stack| == |r.stack| + 1 && r'.stack[1..] == r.stack
            && r'.stack[0].element == name && r'.stack[0].prefix == prefix && r'.stack[0].ns == []
  {
    hide PrefixLookup, DefaultLookup;
  }

  lemma DigestKeeps(m: Machine, r: Reader, item: Item)
    requires StackMatches(m) && Effect(m.r, r, item) && Digest(m, r, item).Next?
    ensures StackMatches(Digest(m, r, item).m)
  {
    match item
    case NoNode => LeafKeeps(m, r, item);
    case StartTag(_, _, _) => StartKeeps(m, r, item);
    case TextNode(_) => LeafKeeps(m, r, item);
    case CDataNode(_) => LeafKeeps(m, r, item);
    case AttrNode(_, _, _) => AttrKeeps(m, r, item);
    case EndTag(_) => EndKeeps(m, r, item);
  }

  lemma LeafKeeps(m: Machine, r: Reader, item: Item)
    requires StackMatches(m) && Effect(m.r, r, item) && Digest(m, r, item).Next?
    requires item.NoNode? || item.TextNode? || item.CDataNode?
    ensures StackMatches(Digest(m, r, item).m)
  {
  }

  lemma StartKeeps(m: Machine, r: Reader, item: Item)
    requires StackMatches(m) && Effect(m.r, r, item) && Digest(m, r, item).Next? && item.StartTag?
    ensures StackMatches(Digest(m, r, item).m)
  {
    hide Opened;
    OpenedPushes(r, item.name, item.prefix);
    var m' := Digest(m, r, item).m;
    var n := |m.r.stack|;
    assert forall i | 1 <= i <= n :: m'.open[i] == m.open[i - 1] && m'.r.stack[i] == m'.r.stack[1..][i - 1];
    assert m'.open[n + 1] == m.open[n];
  }

  lemma AttrKeeps(m: Machine, r: Reader, item: Item)
    requires StackMatches(m) && Effect(m.r, r, item) && Digest(m, r, item).Next? && item.AttrNode?
    ensures StackMatches(Digest(m, r, item).m)
  {
    hide Declared, HasAttr;
    DeclaredKeeps(m.r.stack[0], item.attr.name, item.attr.value);
  }

  lemma EndKeeps(m: Machine, r: Reader, item: Item)
    requires StackMatches(m) && Effect(m.r, r, item) && Digest(m, r, item).Next? && item.EndTag?
    ensures StackMatches(Digest(m, r, item).m)
  {
    var m' := Digest(m, r, item).m;
    assert forall i | 1 <= i < |m.r.stack| :: m'.open[i] == m.open[i + 1];
    assert m'.open[0].name == m.open[1].name;
  }

  lemma StackMatchesStep(d: bytes, m: Machine)
    requires StackMatches(m) && Step(d, m).Next?
    ensures StackMatches(Step(d, m).m)
  {
    hide GetNextNode, Digest, StackMatches, Effect;
    ReadingEffect(d, m.r);
    DigestKeeps(m, GetNextNode(d, m.r).r, GetNextNode(d, m.r).item);
  }

  lemma StackMatchesRunning(m: Machine)
    requires StackMatches(m)
    ensures Running(m)
  {
  }

  /** The loop run for `n` iterations; None if it ends before. */
  function Steps(d: bytes, m: Machine, n: nat): Option<Machine>
    requires Running(m)
    ensures Steps(d, m, n).Some? ==> Running(Steps(d, m, n).value)
    decreases n
  {
    if n == 0 then Some(m)
    else
      match Step(d, m)
      case Next(m') =>
        StepProgress(d, m);
        Steps(d, m', n - 1)
      case _ => None
  }

  /** At every iteration of every parse the element stack is the parent chain of the current node. */
  lemma {:induction false} StackMatchesAlways(d: bytes, m: Machine, n: nat)
    requires StackMatches(m)
    requires Steps(d, m, n).Some?
    ensures StackMatches(Steps(d, m, n).value)
    decreases n
  {
    hide StackMatches, Step;
    if n > 0 {
      StackMatchesRunning(m);
      StackMatchesStep(d, m);
      StepProgress(d, m);
      StackMatchesAlways(d, Step(d, m).m, n - 1);
    }
  }

  lemma StackMatchesStart(cur: nat)
    ensures StackMatches(Start(cur))
  {
  }

  /** So the second comparison of names in the verification of an end tag never fails. */
  lemma SecondNameCheck(d: bytes, cur: nat, n: nat)
    requires Steps(d, Start(cur), n).Some?
    requires var m := Steps(d, Start(cur), n).value;
             var g := GetNextNode(d, m.r);
             g.Got? && g.item.EndTag? && m.r.stack != [] && m.r.stack[0].element == g.item.name
    ensures var m := Steps(d, Start(cur), n).value;
            m.open[0].name == GetNextNode(d, m.r).item.name && |m.open| > 1 && Step(d, m).Next?
  {
    StackMatchesStart(cur);
    StackMatchesAlways(d, Start(cur), n);
    var m := Steps(d, Start(cur), n).value;
    ReadingEffect(d, m.r);
    hide Steps, GetNextNode, Start;
    NamesAgree(m, GetNextNode(d, m.r).r, GetNextNode(d, m.r).item);
  }

  lemma NamesAgree(m: Machine, r: Reader, item: Item)
    requires StackMatches(m) && Effect(m.r, r, item) && item.EndTag?
    requires m.r.stack != [] && m.r.stack[0].element == item.name
    ensures m.open[0].name == item.name && |m.open| > 1 && Digest(m, r, item).Next?
  {
  }

  // ----- what has been read is what has been built

  function ItemEvents(item: Item): seq<Event> {
    match item
    case NoNode => []
    case StartTag(name, _, _) => [StartEvent(name)]
    case TextNode(v) => [TextEvent(v)]
    case CDataNode(v) => [CDataEvent(v)]
    case AttrNode(a, _, _) => [AttrEvent(a)]
    case EndTag(name) => [EndEvent(name)]
  }

  /** The events of the rest of a run. */
  function Log(d: bytes, m: Machine): seq<Event>
    requires Running(m)
    decreases Left(d, m.r), Phase(m.r)
  {
    match Step(d, m)
    case Next(m') =>
      StepProgress(d, m);
      ItemEvents(GetNextNode(d, m.r).item) + Log(d, m')
    case _ => []
  }

  /** The linearisation of a tree that is still open along its last branch. */
  function OpenLinear(open: seq<Frame>): seq<Event> {
    if open == [] then []
    else
      var f := open[0];
      (if |open| == 1 then [] else OpenLinear(open[1..]) + [StartEvent(f.name)] + AttrEvents(f.attrs)) + Linears(f.kids)
  }

  lemma LinearsAdd(ts: seq<Tree>, t: Tree)
    ensures Linears(ts + [t]) == Linears(ts) + Linear(t)
  {
    assert (ts + [t])[..|ts|] == ts;
  }

  lemma OpenLinearAdd(open: seq<Frame>, t: Tree)
    requires open != []
    ensures OpenLinear([AddKid(open[0], t)] + open[1..]) == OpenLinear(open) + Linear(t)
  {
    LinearsAdd(open[0].kids, t);
    var open' := [AddKid(open[0], t)] + open[1..];
    assert open'[1..] == open[1..];
  }

  lemma OpenLinearAttr(open: seq<Frame>, a: Attr)
    requires |open| > 1 && open[0].kids == []
    ensures OpenLinear([open[0].(attrs := open[0].attrs + [a])] + open[1..]) == OpenLinear(open) + [AttrEvent(a)]
  {
    var f := open[0].(attrs := open[0].attrs + [a]);
    assert ([f] + open[1..])[1..] == open[1..];
    assert f.attrs[..|open[0].attrs|] == open[0].attrs;
  }

  lemma Reassociate<T>(a: seq<T>, b: seq<T>, c: seq<T>, d: seq<T>, e: seq<T>)
    ensures a + (b + c + d + e) == a + b + c + d + e
  {
  }

  lemma OpenLinearClose(open: seq<Frame>)
    requires |open| > 1
    ensures OpenLinear([AddKid(open[1], Closed(open[0]))] + open[2..]) == OpenLinear(open) + [EndEvent(open[0].name)]
  {
    hide AttrEvents, Linears;
    var f := open[0];
    assert Linear(Closed(f)) == [StartEvent(f.name)] + AttrEvents(f.attrs) + Linears(f.kids) + [EndEvent(f.name)];
    assert OpenLinear(open) == OpenLinear(open[1..]) + [StartEvent(f.name)] + AttrEvents(f.attrs) + Linears(f.kids);
    Reassociate(OpenLinear(open[1..]), [StartEvent(f.name)], AttrEvents(f.attrs), Linears(f.kids), [EndEvent(f.name)]);
    hide OpenLinear, Linear;
    OpenLinearAdd(open[1..], Closed(f));
    assert open[1..][1..] == open[2..];
  }

  lemma OpenLinearStart(open: seq<Frame>, name: bytes)
    requires open != []
    ensures OpenLinear([Frame(name, [], [])] + open) == OpenLinear(open) + [StartEvent(name)]
  {
    var o := [Frame(name, [], [])] + open;
    assert o[1..] == open;
    assert OpenLinear(o) == OpenLinear(open) + [StartEvent(name)] + AttrEvents([]) + Linears([]);
    assert AttrEvents([]) == [] && Linears([]) == [];
  }

  lemma OpenLinearDigest(m: Machine, r: Reader, item: Item)
    requires StackMatches(m) && Effect(m.r, r, item) && Digest(m, r, item).Next?
    ensures OpenLinear(Digest(m, r, item).m.open) == OpenLinear(m.open) + ItemEvents(item)
  {
    StackMatchesRunning(m);
    hide OpenLinear, StackMatches, Effect, Linear;
    match item
    case NoNode =>
    case StartTag(name, _, _) => OpenLinearStart(m.open, name);
    case TextNode(v) => LinearLeaf(m.open, Text(v), TextEvent(v));
    case CDataNode(v) => LinearLeaf(m.open, CData(v), CDataEvent(v));
    case AttrNode(a, _, _) =>
      InsideTag(m, r, item);
      OpenLinearAttr(m.open, a);
    case EndTag(_) => OpenLinearClose(m.open);
  }

  lemma LinearLeaf(open: seq<Frame>, t: Tree, e: Event)
    requires open != [] && ((t.Text? && e == TextEvent(t.value)) || (t.CData? && e == CDataEvent(t.value)))
    ensures OpenLinear([AddKid(open[0], t)] + open[1..]) == OpenLinear(open) + [e]
  {
    hide OpenLinear;
    OpenLinearAdd(open, t);
  }

  lemma InsideTag(m: Machine, r: Reader, item: Item)
    requires StackMatches(m) && Effect(m.r, r, item) && item.AttrNode?
    ensures |m.open| > 1 && m.open[0].kids == []
  {
  }

  lemma OpenLinearStep(d: bytes, m: Machine)
    requires StackMatches(m) && Step(d, m).Next?
    ensures OpenLinear(Step(d, m).m.open) == OpenLinear(m.open) + ItemEvents(GetNextNode(d, m.r).item)
  {
    hide GetNextNode, Digest, StackMatches, Effect, OpenLinear, ItemEvents;
    ReadingEffect(d, m.r);
    OpenLinearDigest(m, GetNextNode(d, m.r).r, GetNextNode(d, m.r).item);
  }

  lemma LinearAtEnd(m: Machine)
    requires StackMatches(m) && m.r.stack == []
    ensures OpenLinear(m.open) == Linears(m.open[0].kids) && |m.open| == 1
  {
  }

  /** A finished run has read exactly the linearisation of the document it returns. */
  lemma {:induction false} LogIsLinear(d: bytes, m: Machine)
    requires StackMatches(m) && Run(d, m).Parsed?
    ensures OpenLinear(m.open) + Log(d, m) == Linears(Run(d, m).roots)
    ensures |Run(d, m).roots| <= 1 && forall t | t in Run(d, m).roots :: t.Element?
    decreases Left(d, m.r), Phase(m.r)
  {
    hide Step, OpenLinear, ItemEvents, GetNextNode, Linears;
    match Step(d, m)
    case Finish =>
      assert OpenLinear(m.open) == Linears(m.open[0].kids) by { LinearAtEnd(m); }
    case Stop(_) =>
    case Next(m') =>
      StepProgress(d, m);
      StackMatchesStep(d, m);
      OpenLinearStep(d, m);
      LogIsLinear(d, m');
  }

  /** The whole parse: events read, document returned, at most one top-level element. */
  lemma ParsedIsRead(d: bytes)
    requires ParseDocument(d).Parsed?
    ensures var roots := ParseDocument(d).roots;
            && Linears(roots) == Log(d, Start(SkipProlog(d).cur))
            && |roots| <= 1 && (forall t | t in roots :: t.Element?)
  {
    StackMatchesStart(SkipProlog(d).cur);
    LogIsLinear(d, Start(SkipProlog(d).cur));
  }
}
