/** Documents are parsed to what they say, however they are spelled. */
module SpelledParsing {
  import opened Bytes
  import opened NameTables
  import opened Lexer
  import opened Xml
  import opened Machine
  import opened Parse
  import opened Printing
  import opened Reading
  import opened Spelling
  import opened NodeReading
  import opened MachineProperties
  import opened Waiting
  import Utf8

  // ----- single steps of the run

  lemma RunStep(d: bytes, m: Machine, m': Machine)
    requires Running(m) && Step(d, m) == Next(m')
    ensures Running(m') && Run(d, m) == Run(d, m')
  {
    StepProgress(d, m);
    hide Step;
  }

  lemma RunDigest(d: bytes, m: Machine, r: Reader, item: Item, m': Machine)
    requires Running(m) && GetNextNode(d, m.r) == Got(r, item) && Digest(m, r, item) == Next(m')
    ensures Running(m') && Run(d, m) == Run(d, m')
  {
    hide GetNextNode, Digest;
    RunStep(d, m, m');
  }

  lemma RunBad(d: bytes, m: Machine)
    requires Running(m) && GetNextNode(d, m.r) == Bad
    ensures Run(d, m) == Rejected(Failed)
  {
    hide GetNextNode;
  }

  lemma RunStop(d: bytes, m: Machine, r: Reader, item: Item, code: Code)
    requires Running(m) && GetNextNode(d, m.r) == Got(r, item) && Digest(m, r, item) == Stop(code)
    ensures Run(d, m) == Rejected(code)
  {
    hide GetNextNode, Digest;
  }

  // ----- start tags

  predicate InTag(m: Machine) {
    m.open != [] && m.r.stack != [] && m.r.state == InAttribute
  }

  /** The machine after an attribute, when `attrs` have been read. */
  function AttrDone(m: Machine, e: nat, a: Ahead, s: Scoping, attrs: seq<Attr>): Machine
    requires m.open != [] && s.Scoping?
  {
    m.(r := AfterAttr(m.r.(stack := s.stack, need := s.need), e, a),
       open := [m.open[0].(attrs := attrs)] + m.open[1..])
  }

  /** One attribute: it is refused while another element waits, or taken. */
  lemma AttrStep(d: bytes, m: Machine, a: SAttr, attrs: seq<Attr>, next: Ahead)
    requires InTag(m) && m.open[0].attrs == attrs && GoodAttr(a) && !HasAttr(attrs, a.name)
    requires Looking(d, m.r.cur, AttrText(a)) && Follows(d, m.r.cur + |AttrText(a)|, next)
    ensures var s := XmlNamespace(m.r.stack, m.r.need, a.name, PiecesValue(a.value));
            && Running(m) && (s.ScopeErr? ==> Run(d, m) == Rejected(Failed))
            && (s.Scoping? ==>
                  var m' := AttrDone(m, m.r.cur + |AttrText(a)|, next, s, attrs + [AttrOf(a)]);
                  Running(m') && Run(d, m) == Run(d, m'))
  {
    hide GetNextNode, AttrText, Looking, GoodAttr, XmlNamespace, Run, SplitName, Follows, HasAttr, PiecesValue;
    ReadAttr(d, m.r, a, next);
    var e := m.r.cur + |AttrText(a)|;
    var s := XmlNamespace(m.r.stack, m.r.need, a.name, PiecesValue(a.value));
    if s.ScopeErr? {
      RunBad(d, m);
    } else {
      var got := GetNextNode(d, m.r);
      var m' := AttrDone(m, e, next, s, attrs + [AttrOf(a)]);
      assert Digest(m, got.r, got.item) == Next(m');
      RunDigest(d, m, got.r, got.item, m');
    }
  }

  lemma DoneTwice(m: Machine, e: nat, q: nat, n: bytes, s: Scoping, attrs: seq<Attr>,
                  e': nat, a: Ahead, s': Scoping, attrs': seq<Attr>)
    requires m.open != [] && s.Scoping? && s'.Scoping?
    ensures AttrDone(AttrDone(m, e, Another(q, n), s, attrs), e', a, s', attrs') == AttrDone(m, e', a, s', attrs')
  {
  }

  lemma AttrsFirst(attrs: seq<SAttr>, k: nat)
    requires k < |attrs|
    ensures AttrsText(attrs[k..]) == AttrText(attrs[k]) + AttrsText(attrs[k + 1..])
    ensures AttrsOf(attrs[k..])[0] == AttrOf(attrs[k]) && AttrsOf(attrs[k..])[1..] == AttrsOf(attrs[k + 1..])
    ensures AttrsOf(attrs)[..k + 1] == AttrsOf(attrs)[..k] + [AttrOf(attrs[k])]
  {
    hide AttrText, AttrOf;
    assert attrs[k..][0] == attrs[k] && attrs[k..][1..] == attrs[k + 1..];
  }

  lemma NoAttrsText()
    ensures AttrsText([]) == [] && AttrsOf([]) == []
  {
  }

  /** What comes at the attributes from the k-th on: the k-th, or the end of the tag. */
  function AheadOf(attrs: seq<SAttr>, k: nat, p: nat, end: Ahead): Ahead {
    if k < |attrs| then Another(p + |attrs[k].gap|, attrs[k].name) else end
  }

  lemma AttrFollows(d: bytes, attrs: seq<SAttr>, k: nat, p: nat, end: Ahead)
    requires forall i | 0 <= i < |attrs| :: GoodAttr(attrs[i])
    requires k <= |attrs| && Looking(d, p, AttrsText(attrs[k..]))
    requires Follows(d, p + |AttrsText(attrs[k..])|, end)
    ensures Follows(d, p, AheadOf(attrs, k, p, end))
  {
    hide AttrText, Looking, GoodAttr, IsName, Utf8.Decode;
    if k < |attrs| {
      AttrsFirst(attrs, k);
      var a := attrs[k];
      LookingConcat(d, p, AttrText(a), AttrsText(attrs[k + 1..]));
      AttrParts(d, p, a);
      NotNameByte(d, p + |a.gap| + |a.name|);
      GoodAttrName(a);
    } else {
      assert attrs[k..] == [];
      NoAttrsText();
    }
  }

  lemma GoodAttrName(a: SAttr)
    requires GoodAttr(a)
    ensures ValidName(a.name) && a.gap != []
  {
  }

  lemma NotYet(attrs: seq<SAttr>, k: nat)
    requires DistinctNames(AttrsOf(attrs)) && k < |attrs|
    ensures !HasAttr(AttrsOf(attrs)[..k], attrs[k].name)
  {
    var all := AttrsOf(attrs);
    assert all[k].name == attrs[k].name;
    forall i | 0 <= i < k ensures all[..k][i].name != attrs[k].name {
      assert all[..k][i] == all[i];
    }
  }

  /** The scopes after the attributes from the k-th on, by the k-th one. */
  lemma ScopesFrom(stack: seq<Scope>, need: Option<Need>, attrs: seq<SAttr>, k: nat)
    requires stack != [] && k < |attrs|
    ensures var s := XmlNamespace(stack, need, attrs[k].name, PiecesValue(attrs[k].value));
            && (s.ScopeErr? ==> AttrScopes(stack, need, AttrsOf(attrs[k..])) == ScopeErr)
            && (s.Scoping? ==>
                  s.stack != [] && AttrScopes(stack, need, AttrsOf(attrs[k..])) ==
                                   AttrScopes(s.stack, s.need, AttrsOf(attrs[k + 1..])))
  {
    AttrsFirst(attrs, k);
    hide Declared, AttrsOf, PiecesValue;
  }

  lemma NoScopes(stack: seq<Scope>, need: Option<Need>)
    requires stack != []
    ensures AttrScopes(stack, need, []) == Scoping(stack, need)
  {
  }

  /** The attributes of a start tag from the k-th on, and what ends the tag. */
  lemma {:induction false} ReadAttrs(d: bytes, m: Machine, attrs: seq<SAttr>, k: nat, end: Ahead)
    requires InTag(m) && k < |attrs| && m.open[0].attrs == AttrsOf(attrs)[..k]
    requires (forall i | 0 <= i < |attrs| :: GoodAttr(attrs[i])) && DistinctNames(AttrsOf(attrs))
    requires Looking(d, m.r.cur, AttrsText(attrs[k..])) && Follows(d, m.r.cur + |AttrsText(attrs[k..])|, end)
    ensures var s := AttrScopes(m.r.stack, m.r.need, AttrsOf(attrs[k..]));
            && Running(m) && (s.ScopeErr? ==> Run(d, m) == Rejected(Failed))
            && (s.Scoping? ==>
                  var m' := AttrDone(m, m.r.cur + |AttrsText(attrs[k..])|, end, s, AttrsOf(attrs));
                  Running(m') && Run(d, m) == Run(d, m'))
    decreases |attrs| - k
  {
    hide AttrText, Looking, GoodAttr, DistinctNames, Follows, AttrsText, AttrsOf, Run, AttrScopes, XmlNamespace,
         PiecesValue, HasAttr;
    var p := m.r.cur;
    var a := attrs[k];
    var e := p + |AttrText(a)|;
    AllOf(attrs);
    AttrsFirst(attrs, k);
    LookingConcat(d, p, AttrText(a), AttrsText(attrs[k + 1..]));
    var next := AheadOf(attrs, k + 1, e, end);
    AttrFollows(d, attrs, k + 1, e, end);
    NotYet(attrs, k);
    AttrStep(d, m, a, AttrsOf(attrs)[..k], next);
    ScopesFrom(m.r.stack, m.r.need, attrs, k);
    var s := XmlNamespace(m.r.stack, m.r.need, a.name, PiecesValue(a.value));
    if s.Scoping? {
      if k + 1 == |attrs| {
        assert attrs[k + 1..] == [];
        NoAttrsText();
        NoScopes(s.stack, s.need);
      } else {
        var m' := AttrDone(m, e, next, s, AttrsOf(attrs)[..k + 1]);
        ReadAttrs(d, m', attrs, k + 1, end);
        var all := AttrScopes(s.stack, s.need, AttrsOf(attrs[k + 1..]));
        if all.Scoping? {
          DoneTwice(m, e, next.q, next.name, s, AttrsOf(attrs)[..k + 1], e + |AttrsText(attrs[k + 1..])|, end, all,
                    AttrsOf(attrs));
        }
      }
    }
  }

  lemma AllOf(attrs: seq<SAttr>)
    ensures |AttrsOf(attrs)| == |attrs| && AttrsOf(attrs)[..|attrs|] == AttrsOf(attrs) && attrs[0..] == attrs
    ensures AttrsOf(attrs)[..0] == []
  {
  }

  predicate BeforeTag(m: Machine) {
    m.open != [] && m.r.state == InElement && !(m.hasTop && m.r.stack == [])
  }

  /** The machine after a start tag: in the element, or before the end of an empty-element tag. */
  function Entered(m: Machine, end: Ahead, s: Scoping, name: bytes, attrs: seq<Attr>): Machine
    requires s.Scoping?
  {
    var r := Reader(0, if attrs == [] then InElement else InAttribute, name, s.stack, s.need);
    Machine(AfterAttr(r, 0, end), true, [Frame(name, attrs, [])] + m.open)
  }

  /** The machine after the name of a start tag. */
  function NameDone(m: Machine, name: bytes, e: nat, a: Ahead): Machine {
    Machine(Opened(AfterName(m.r, name, e, a), name, SplitName(name).prefix), true, [Frame(name, [], [])] + m.open)
  }

  lemma NameDoneScopes(m: Machine, name: bytes, e: nat, a: Ahead, attrs: seq<Attr>)
    requires m.r.state != InContent && (a.Another? <==> attrs != [])
    ensures var m1, r := NameDone(m, name, e, a), OpenedScopes(m.r.stack, m.r.need, name, attrs);
            && m1.r == AfterName(m.r, name, e, a).(stack := r.stack, need := r.need)
            && m1.r.stack != []
            && TagScopes(m.r.stack, m.r.need, name, attrs) == AttrScopes(m1.r.stack, m1.r.need, attrs)
  {
    hide PrefixLookup, DefaultLookup, SplitName, AttrScopes;
  }

  lemma FollowsByte(d: bytes, e: nat, a: Ahead)
    requires Follows(d, e, a) && !(a.Another? && a.q == e)
    ensures IsWhite(At(d, e)) || At(d, e) in {GREATER_THAN, SLASH}
  {
  }

  /** The name of a start tag is read, and what comes after it is seen. */
  lemma TagStart(d: bytes, r: Reader, name: bytes, attrs: seq<SAttr>, gap: bytes, end: Ahead)
    requires r.state != InContent && GoodTag(name, attrs, gap) && !end.Another?
    requires Looking(d, r.cur, [LESS_THAN] + name + AttrsText(attrs))
    requires Follows(d, r.cur + |[LESS_THAN] + name + AttrsText(attrs)|, end)
    ensures var e := r.cur + 1 + |name|;
            var first := AheadOf(attrs, 0, e, end);
            && GetNextNode(d, r) == Got(AfterName(r, name, e, first), StartItem(name)) && Follows(d, e, first)
            && Looking(d, e, AttrsText(attrs)) && (first.Another? <==> attrs != [])
  {
    hide GetNextNode, Looking, ValidName, Follows, SplitName, GoodAttr, DistinctNames, AttrsText, AttrsOf;
    var p := r.cur;
    var e := p + 1 + |name|;
    LookingConcat(d, p, [LESS_THAN] + name, AttrsText(attrs));
    LookingConcat(d, p, [LESS_THAN], name);
    LookingAt(d, p, [LESS_THAN], 0);
    AllOf(attrs);
    var first := AheadOf(attrs, 0, e, end);
    AttrFollows(d, attrs, 0, e, end);
    if attrs != [] {
      GoodAttrName(attrs[0]);
    }
    FollowsByte(d, e, first);
    NotNameByte(d, e);
    assert NameAt(d, p + 1, name);
    ReadStart(d, r, name, first);
  }

  /** A start tag: the run goes on after it, unless an attribute is refused. */
  lemma ReadTag(d: bytes, m: Machine, name: bytes, attrs: seq<SAttr>, gap: bytes, end: Ahead)
    requires BeforeTag(m) && GoodTag(name, attrs, gap) && !end.Another?
    requires Looking(d, m.r.cur, [LESS_THAN] + name + AttrsText(attrs))
    requires Follows(d, m.r.cur + |[LESS_THAN] + name + AttrsText(attrs)|, end)
    ensures var s := TagScopes(m.r.stack, m.r.need, name, AttrsOf(attrs));
            && Running(m) && (s.ScopeErr? ==> Run(d, m) == Rejected(Failed))
            && (s.Scoping? ==>
                  var m' := Entered(m, end, s, name, AttrsOf(attrs)); Running(m') && Run(d, m) == Run(d, m'))
  {
    hide GetNextNode, Looking, ValidName, Run, Follows, SplitName, Opened, AttrScopes, TagScopes, OpenedScopes,
         GoodAttr, DistinctNames, AttrsText, AttrsOf;
    var e := m.r.cur + 1 + |name|;
    var first := AheadOf(attrs, 0, e, end);
    TagStart(d, m.r, name, attrs, gap, end);
    AllOf(attrs);
    NameDoneScopes(m, name, e, first, AttrsOf(attrs));
    var m1 := NameDone(m, name, e, first);
    RunDigest(d, m, AfterName(m.r, name, e, first), StartItem(name), m1);
    if attrs == [] {
      NoAttrsText();
      NoScopes(m1.r.stack, m1.r.need);
    } else {
      ReadAttrs(d, m1, attrs, 0, end);
      assert m1.open[1..] == m.open;
    }
  }

  /** A start tag puts one scope on those around it. */
  lemma TagScopesShape(stack: seq<Scope>, need: Option<Need>, name: bytes, attrs: seq<Attr>)
    ensures var s := TagScopes(stack, need, name, attrs);
            s.Scoping? ==> s.stack != [] && s.stack[1..] == stack && s.stack[0].element == name
  {
    var r := OpenedScopes(stack, need, name, attrs);
    AttrScopesShape(r.stack, r.need, attrs);
    hide AttrScopes, SplitName, PrefixLookup, DefaultLookup;
    assert r.stack[1..] == stack;
  }

  lemma {:induction false} AttrScopesShape(stack: seq<Scope>, need: Option<Need>, attrs: seq<Attr>)
    requires stack != []
    ensures var s := AttrScopes(stack, need, attrs);
            s.Scoping? ==> s.stack != [] && s.stack[1..] == stack[1..] && s.stack[0].element == stack[0].element
    decreases |attrs|
  {
    if attrs != [] {
      DeclaredBinds(stack[0], attrs[0].name, attrs[0].value, []);
      hide Declared;
      var s := XmlNamespace(stack, need, attrs[0].name, attrs[0].value);
      if s.Scoping? {
        AttrScopesShape(s.stack, s.need, attrs[1..]);
      }
    }
  }

  // ----- content

  /** From content to the markup after white space. */
  lemma ToMarkup(d: bytes, m: Machine, q: nat)
    requires Running(m) && m.r.state == InContent && WhiteFrom(d, m.r.cur, q)
    requires At(d, q) == LESS_THAN && At(d, q + 1) != 0x21 && At(d, q + 1) != 0x3F
    ensures var m' := m.(r := m.r.(cur := q, state := InElement)); Running(m') && Run(d, m) == Run(d, m')
  {
    hide GetNextNode, Run;
    ReadToMarkup(d, m.r, q);
    RunDigest(d, m, m.r.(cur := q, state := InElement), NoNode, m.(r := m.r.(cur := q, state := InElement)));
  }

  /** The machine after the end of the current element. */
  function ElementLeft(m: Machine, cur: nat): Machine
    requires |m.open| > 1 && m.r.stack != []
  {
    m.(r := m.r.(cur := cur, state := InContent, stack := m.r.stack[1..]),
       open := [AddKid(m.open[1], Closed(m.open[0]))] + m.open[2..])
  }

  predicate InElem(m: Machine, name: bytes) {
    |m.open| > 1 && m.r.stack != [] && m.r.stack[0].element == name && m.open[0].name == name
  }

  lemma ReadClose(d: bytes, m: Machine, name: bytes, gap: bytes, q: nat)
    requires InElem(m, name) && m.r.state == InContent && WhiteFrom(d, m.r.cur, q)
    requires ValidName(name) && AllWhite(gap) && Looking(d, q, CloseText(name, gap))
    ensures var m' := ElementLeft(m, q + |CloseText(name, gap)|); Running(m') && Run(d, m) == Run(d, m')
  {
    hide GetNextNode, Run, ValidName, Looking, AllWhite, CloseText;
    CloseParts(d, q, name, gap);
    ToMarkup(d, m, q);
    var m1 := m.(r := m.r.(cur := q, state := InElement));
    ReadEnd(d, m1.r, name, gap);
    var e := q + |CloseText(name, gap)|;
    RunDigest(d, m1, m1.r.(cur := e), EndTag(name), ElementLeft(m, e));
  }

  lemma ReadEmptyClose(d: bytes, m: Machine, name: bytes)
    requires InElem(m, name) && m.r.state != InContent && m.r.lastElem == name != []
    requires At(d, m.r.cur) == SLASH && At(d, m.r.cur + 1) == GREATER_THAN
    ensures var m' := ElementLeft(m, m.r.cur + 2); Running(m') && Run(d, m) == Run(d, m')
  {
    hide GetNextNode, Run;
    ReadEmptyEnd(d, m.r);
    RunDigest(d, m, m.r.(cur := m.r.cur + 2), EndTag(name), ElementLeft(m, m.r.cur + 2));
  }

  function AddKids(f: Frame, ts: seq<Tree>): Frame {
    f.(kids := f.kids + ts)
  }

  /** The machine after the children `ts` of the current element. */
  function WithKids(m: Machine, cur: nat, lastElem: bytes, need: Option<Need>, ts: seq<Tree>): Machine
    requires m.open != []
  {
    m.(r := m.r.(cur := cur, lastElem := lastElem, need := need), open := [AddKids(m.open[0], ts)] + m.open[1..])
  }

  predicate InKids(m: Machine) {
    |m.open| > 1 && m.r.stack != [] && m.hasTop && m.r.state == InContent
  }

  lemma WithNoKids(m: Machine, cur: nat)
    requires m.open != []
    ensures WithKids(m, cur, m.r.lastElem, m.r.need, []) == m.(r := m.r.(cur := cur))
  {
    assert m.open[0].kids + [] == m.open[0].kids;
    assert [m.open[0]] + m.open[1..] == m.open;
  }

  /** Comments and instructions are passed over. */
  lemma ReadMisc(d: bytes, m: Machine, x: Markup, q: nat)
    requires Running(m) && m.r.state == InContent && WhiteFrom(d, m.r.cur, q) && Good(x)
             && (x.Comment? || x.Instruction?)
    requires Looking(d, q, Written(x))
    ensures var m' := m.(r := m.r.(cur := q + |Written(x)|)); Running(m') && Run(d, m) == Run(d, m')
  {
    hide GetNextNode, Run, Looking, GoodComment, GoodInstruction, CommentText, InstructionText, WhiteFrom;
    var e := q + |Written(x)|;
    match x
    case Comment(v) =>
      ReadComment(d, m.r, q, v);
      RunDigest(d, m, m.r.(cur := e), NoNode, m.(r := m.r.(cur := e)));
    case Instruction(v) =>
      ReadInstruction(d, m.r, q, v);
      RunDigest(d, m, m.r.(cur := e), NoNode, m.(r := m.r.(cur := e)));
  }

  lemma ReadChars(d: bytes, m: Machine, ps: seq<Piece>)
    requires InKids(m) && Good(Chars(ps)) && !AllWhite(PiecesText(ps))
    requires Looking(d, m.r.cur, PiecesText(ps)) && At(d, m.r.cur + |PiecesText(ps)|) == LESS_THAN
    ensures var m' := WithKids(m, m.r.cur + |PiecesText(ps)|, m.r.lastElem, m.r.need, [Text(PiecesValue(ps))]);
            Running(m) && Running(m') && Run(d, m) == Run(d, m')
  {
    hide GetNextNode, Run, GoodPieces, AllWhite, Looking, PiecesText, PiecesValue, NoSectionEnd;
    ReadText(d, m.r, ps);
    var e := m.r.cur + |PiecesText(ps)|;
    var v := PiecesValue(ps);
    RunDigest(d, m, m.r.(cur := e), TextNode(v), WithKids(m, e, m.r.lastElem, m.r.need, [Text(v)]));
  }

  lemma ReadSection(d: bytes, m: Machine, q: nat, v: bytes)
    requires InKids(m) && ValidCData(v) && WhiteFrom(d, m.r.cur, q)
    requires Looking(d, q, CD_START + v + CD_END)
    ensures var m' := WithKids(m, q + |CD_START + v + CD_END|, m.r.lastElem, m.r.need, [CData(v)]);
            Running(m) && Running(m') && Run(d, m) == Run(d, m')
  {
    hide GetNextNode, Run, ValidCData, WhiteFrom, Looking;
    ReadCData(d, m.r, q, v);
    var e := q + |CD_START + v + CD_END|;
    RunDigest(d, m, m.r.(cur := e), CDataNode(v), WithKids(m, e, m.r.lastElem, m.r.need, [CData(v)]));
  }

  lemma WithKidsTwice(m: Machine, c: nat, l: bytes, n: Option<Need>, ts: seq<Tree>,
                      c': nat, l': bytes, n': Option<Need>, us: seq<Tree>)
    requires m.open != []
    ensures WithKids(WithKids(m, c, l, n, ts), c', l', n', us) == WithKids(m, c', l', n', ts + us)
  {
    assert m.open[0].kids + ts + us == m.open[0].kids + (ts + us);
  }

  lemma WithKidsAt(m: Machine, c: nat, last: bytes, need: Option<Need>, ts: seq<Tree>)
    requires m.open != []
    ensures var m' := WithKids(m, c, last, need, ts);
            && m'.r.cur == c && m'.r.stack == m.r.stack && m'.r.need == need && m'.r.state == m.r.state
            && |m'.open| == |m.open| && m'.open[0].name == m.open[0].name && (InKids(m) ==> InKids(m'))
            && m'.hasTop == m.hasTop
  {
  }

  // ----- elements

  lemma {:induction false} KidScopesConcat(stack: seq<Scope>, need: Option<Need>, a: seq<Tree>, b: seq<Tree>)
    ensures var s := KidScopes(stack, need, a);
            KidScopes(stack, need, a + b) == if s.ScopeErr? then ScopeErr else KidScopes(stack, s.need, b)
    decreases |a|
  {
    hide TagScopes;
    if a == [] {
      ConcatNone(b);
    } else {
      ConcatFirst(a, b);
      if a[0].Element? {
        var t := TagScopes(stack, need, a[0].name, a[0].attrs);
        if t.Scoping? {
          var k := KidScopes(t.stack, t.need, a[0].kids);
          if k.Scoping? {
            KidScopesConcat(stack, k.need, a[1..], b);
          }
        }
      } else {
        KidScopesConcat(stack, need, a[1..], b);
      }
    }
  }

  lemma NoKidScopes(stack: seq<Scope>, need: Option<Need>)
    ensures KidScopes(stack, need, []) == Scoping(stack, need)
  {
  }

  lemma LeafScopes(stack: seq<Scope>, need: Option<Need>, t: Tree)
    requires !t.Element?
    ensures KidScopes(stack, need, [t]) == Scoping(stack, need)
  {
    assert [t][1..] == [];
  }

  lemma ElementScopes(stack: seq<Scope>, need: Option<Need>, name: bytes, attrs: seq<Attr>, kids: seq<Tree>)
    ensures var s := TagScopes(stack, need, name, attrs);
            KidScopes(stack, need, [Element(name, attrs, kids)]) ==
            if s.ScopeErr? then ScopeErr
            else
              var k := KidScopes(s.stack, s.need, kids);
              if k.ScopeErr? then ScopeErr else Scoping(stack, k.need)
  {
    hide TagScopes;
    assert [Element(name, attrs, kids)][1..] == [];
    var s := TagScopes(stack, need, name, attrs);
    if s.Scoping? && KidScopes(s.stack, s.need, kids).Scoping? {
      NoKidScopes(stack, KidScopes(s.stack, s.need, kids).need);
    }
  }

  /** Back in content, where there is a top-level element now. */
  function Back(m: Machine): Machine {
    m.(r := m.r.(state := InContent), hasTop := true)
  }

  /** An element is added to its parent. */
  lemma AddElement(m: Machine, end: Ahead, s: Scoping, name: bytes, attrs: seq<Attr>,
                   c: nat, last: bytes, need: Option<Need>, inner: seq<Tree>, e: nat)
    requires m.open != [] && s.Scoping? && s.stack != [] && s.stack[1..] == m.r.stack
    ensures var m3 := WithKids(Entered(m, end, s, name, attrs), c, last, need, inner);
            m3.r.stack != [] && |m3.open| > 1 &&
            ElementLeft(m3, e) == WithKids(Back(m), e, last, need, [Element(name, attrs, inner)])
  {
    var m3 := WithKids(Entered(m, end, s, name, attrs), c, last, need, inner);
    assert m3.open == [Frame(name, attrs, [] + inner)] + m.open;
    assert [] + inner == inner;
    assert m3.open[1] == m.open[0] && m3.open[2..] == m.open[1..];
  }

  lemma EnteredAt(m: Machine, end: Ahead, s: Scoping, name: bytes, attrs: seq<Attr>)
    requires m.open != [] && s.Scoping? && s.stack != [] && s.stack[0].element == name && !end.Another?
    ensures var m' := Entered(m, end, s, name, attrs);
            && InElem(m', name) && m'.r.stack == s.stack && m'.r.need == s.need && m'.r.lastElem == name && m'.hasTop
            && (end.Closing? ==> m'.r.cur == end.q + 1 && m'.r.state == InContent && InKids(m'))
            && (end.Ending? ==> m'.r.cur == end.q && m'.r.state != InContent)
  {
  }

  /** Where the parts of an element stand. */
  lemma ElemParts(d: bytes, q: nat, x: Markup) returns (e: nat, end: Ahead)
    requires x.Elem? && Good(x) && Looking(d, q, Written(x))
    ensures Looking(d, q, [LESS_THAN] + x.name + AttrsText(x.attrs))
    ensures e == q + |[LESS_THAN] + x.name + AttrsText(x.attrs)| && Follows(d, e, end) && !end.Another?
    ensures x.body.Empty? ==> end == Ending(q + |Written(x)| - 2)
    ensures x.body.Full? ==>
              && end.Closing? && Looking(d, end.q + 1, WrittenAll(x.body.kids))
              && Looking(d, end.q + 1 + |WrittenAll(x.body.kids)|, CloseText(x.name, x.body.endGap))
              && q + |Written(x)| == end.q + 1 + |WrittenAll(x.body.kids)| + |CloseText(x.name, x.body.endGap)|
    ensures At(d, q) == LESS_THAN && At(d, q + 1) != 0x21 && At(d, q + 1) != 0x3F && GoodTag(x.name, x.attrs, x.gap)
  {
    hide Looking, AttrsText, WrittenAll, ValidName, GoodAttr, DistinctNames, Goods;
    var tag := [LESS_THAN] + x.name + AttrsText(x.attrs);
    e := q + |tag|;
    var rest := if x.body.Empty? then COMPLETE_TAG
                else [GREATER_THAN] + WrittenAll(x.body.kids) + CloseText(x.name, x.body.endGap);
    assert Written(x) == tag + x.gap + rest;
    LookingConcat(d, q, tag + x.gap, rest);
    LookingConcat(d, q, tag, x.gap);
    WhiteLooking(d, e, x.gap);
    var g := e + |x.gap|;
    if x.body.Empty? {
      LookingAt(d, g, COMPLETE_TAG, 0);
      LookingAt(d, g, COMPLETE_TAG, 1);
      end := Ending(g);
    } else {
      LookingConcat(d, g, [GREATER_THAN] + WrittenAll(x.body.kids), CloseText(x.name, x.body.endGap));
      LookingConcat(d, g, [GREATER_THAN], WrittenAll(x.body.kids));
      LookingAt(d, g, [GREATER_THAN], 0);
      end := Closing(g);
    }
    TagOpens(d, q, x.name, AttrsText(x.attrs));
  }

  /** The second byte of a start tag does not make it markup of another kind. */
  lemma TagOpens(d: bytes, q: nat, name: bytes, rest: bytes)
    requires ValidName(name) && Looking(d, q, [LESS_THAN] + name + rest)
    ensures At(d, q) == LESS_THAN && At(d, q + 1) != 0x21 && At(d, q + 1) != 0x3F
  {
    hide Looking, ValidName;
    LookingConcat(d, q, [LESS_THAN] + name, rest);
    LookingConcat(d, q, [LESS_THAN], name);
    LookingAt(d, q, [LESS_THAN], 0);
    NameStart(name);
    LookingAt(d, q + 1, name, 0);
  }

  lemma NameStart(name: bytes)
    requires ValidName(name)
    ensures name != [] && name[0] !in {0x21, 0x3F}
  {
    hide IsName, Utf8.Encode;
    var cs: seq<int> :| NameChars(cs) && name == Utf8.EncodeAll(cs);
    NameCut(cs);
    NotWhiteName(cs[0], false);
    FirstByte(cs[0]);
    assert name[0] == Utf8.Encode(cs[0])[0];
  }

  lemma FirstByte(c: int)
    requires IsXmlChar(c)
    ensures Utf8.Encode(c) != [] && (Utf8.Encode(c)[0] == c || Utf8.Encode(c)[0] >= 128)
  {
  }

  // ----- lists

  lemma WrittenStep(ms: seq<Markup>)
    requires ms != []
    ensures WrittenAll(ms) == Written(ms[0]) + WrittenAll(ms[1..]) && Meanings(ms) == Meaning(ms[0]) + Meanings(ms[1..])
  {
    hide Written, Meaning;
  }

  lemma WrittenNone()
    ensures WrittenAll([]) == [] && Meanings([]) == []
  {
  }

  lemma GoodsStep(ms: seq<Markup>)
    requires ms != [] && Goods(ms)
    ensures Good(ms[0]) && Goods(ms[1..]) && (|ms| > 1 && ms[0].Chars? ==> !ms[1].Chars?)
  {
    hide Good;
  }

  /** Markup begins with '<'. */
  lemma MarkupStarts(d: bytes, q: nat, x: Markup, rest: bytes)
    requires Good(x) && !x.Chars? && Looking(d, q, Written(x) + rest)
    ensures At(d, q) == LESS_THAN
  {
    hide Looking, AttrsText, WrittenAll, Good;
    LookingAt(d, q, Written(x) + rest, 0);
  }

  /** What follows a list that does not begin with characters is '<'. */
  lemma ListStarts(d: bytes, q: nat, ms: seq<Markup>, end: byte)
    requires Goods(ms) && (ms != [] ==> !ms[0].Chars?) && Looking(d, q, WrittenAll(ms))
    requires At(d, q + |WrittenAll(ms)|) == end
    ensures At(d, q) == if ms == [] then end else LESS_THAN
  {
    hide Looking, WrittenAll, Goods, Written, Good;
    if ms == [] {
      WrittenNone();
    } else {
      WrittenStep(ms);
      GoodsStep(ms);
      MarkupStarts(d, q, ms[0], WrittenAll(ms[1..]));
    }
  }

  /** One piece of content, after white space. */
  ghost predicate ItemRead(d: bytes, m: Machine, x: Markup, q: nat, c: nat, last: bytes)
    requires m.open != []
  {
    var s := KidScopes(m.r.stack, m.r.need, Meaning(x));
    && Running(m) && (s.ScopeErr? ==> Run(d, m) == Rejected(Failed))
    && (s.Scoping? ==>
          && s.stack == m.r.stack && WhiteFrom(d, c, q + |Written(x)|) && (x.Chars? || c == q + |Written(x)|)
          && Run(d, m) == Run(d, WithKids(m, c, last, s.need, Meaning(x))))
  }

  lemma {:induction false} ReadItem(d: bytes, m: Machine, x: Markup, q: nat) returns (c: nat, last: bytes)
    requires InKids(m) && Good(x) && WhiteFrom(d, m.r.cur, q) && Looking(d, q, Written(x))
    requires x.Chars? && !Blank(x) ==> m.r.cur == q && At(d, q + |Written(x)|) == LESS_THAN
    ensures ItemRead(d, m, x, q, c, last)
    decreases x, 2
  {
    hide Run, Looking, WhiteFrom, AllWhite, WithKids, KidScopes, ValidCData, GoodComment, GoodInstruction, GoodPieces,
         NoSectionEnd, PiecesText, PiecesValue, CommentText, InstructionText, AttrsText, WrittenAll, Goods, GoodTag;
    c, last := q + |Written(x)|, m.r.lastElem;
    WhiteNone(d, c);
    NoKidScopes(m.r.stack, m.r.need);
    match x
    case Elem(_, _, _, _) => c, last := ReadElemKid(d, m, x, q);
    case Chars(ps) =>
      if AllWhite(PiecesText(ps)) {
        WhiteLooking(d, q, PiecesText(ps));
        WhiteThrough(d, m.r.cur, q, c);
        c := m.r.cur;
        WithNoKids(m, c);
      } else {
        ReadChars(d, m, ps);
        LeafScopes(m.r.stack, m.r.need, Text(PiecesValue(ps)));
      }
    case Section(v) =>
      ReadSection(d, m, q, v);
      LeafScopes(m.r.stack, m.r.need, CData(v));
    case Comment(v) =>
      ReadMisc(d, m, x, q);
      WithNoKids(m, c);
    case Instruction(v) =>
      ReadMisc(d, m, x, q);
      WithNoKids(m, c);
  }

  lemma WhiteThrough(d: bytes, p: nat, q: nat, e: nat)
    requires WhiteFrom(d, p, q) && WhiteFrom(d, q, e)
    ensures WhiteFrom(d, p, e)
  {
  }

  lemma {:induction false} ReadElemKid(d: bytes, m: Machine, x: Markup, q: nat) returns (c: nat, last: bytes)
    requires InKids(m) && x.Elem? && Good(x) && WhiteFrom(d, m.r.cur, q) && Looking(d, q, Written(x))
    ensures ItemRead(d, m, x, q, c, last)
    ensures KidScopes(m.r.stack, m.r.need, Meaning(x)).Scoping? ==> c == q + |Written(x)|
    decreases x, 1
  {
    hide Run, Looking, WhiteFrom, KidScopes, Meaning, Good, Written, WithKids, Follows, GoodTag, AttrsText, CloseText,
         WrittenAll;
    var e, end := ElemParts(d, q, x);
    ToMarkup(d, m, q);
    var m1 := m.(r := m.r.(cur := q, state := InElement));
    last := ReadElem(d, m1, x);
    c := q + |Written(x)|;
    WhiteNone(d, c);
    BackInKids(m, q, c, last, KidScopes(m.r.stack, m.r.need, Meaning(x)), Meaning(x));
  }

  lemma BackInKids(m: Machine, q: nat, c: nat, last: bytes, s: Scoping, ts: seq<Tree>)
    requires InKids(m)
    ensures s.Scoping? ==>
              WithKids(Back(m.(r := m.r.(cur := q, state := InElement))), c, last, s.need, ts) ==
              WithKids(m, c, last, s.need, ts)
  {
  }

  /** One element, from its '<'. */
  lemma {:induction false} ReadElem(d: bytes, m: Machine, x: Markup) returns (last: bytes)
    requires BeforeTag(m) && x.Elem? && Good(x) && Looking(d, m.r.cur, Written(x))
    ensures var s := KidScopes(m.r.stack, m.r.need, Meaning(x));
            && Running(m) && (s.ScopeErr? ==> Run(d, m) == Rejected(Failed))
            && (s.Scoping? ==>
                  && s.stack == m.r.stack
                  && Run(d, m) == Run(d, WithKids(Back(m), m.r.cur + |Written(x)|, last, s.need, Meaning(x))))
    decreases x, 0
  {
    hide Run, Looking, WhiteFrom, KidScopes, TagScopes, AttrsOf, AttrsText, GoodTag, Goods, WrittenAll, Meanings,
         WithKids, Entered, ElementLeft, Follows, CloseText, AllWhite;
    last := x.name;
    var name, attrs := x.name, AttrsOf(x.attrs);
    var inner := if x.body.Full? then Meanings(x.body.kids) else [];
    var q := m.r.cur;
    var e, end := ElemParts(d, q, x);
    ReadTag(d, m, name, x.attrs, x.gap, end);
    ElementScopes(m.r.stack, m.r.need, name, attrs, inner);
    var s := TagScopes(m.r.stack, m.r.need, name, attrs);
    if s.Scoping? {
      TagScopesShape(m.r.stack, m.r.need, name, attrs);
      var m2 := Entered(m, end, s, name, attrs);
      EnteredAt(m, end, s, name, attrs);
      GoodTagName(x);
      if x.body.Empty? {
        ReadEmptyElem(d, m, x, end, s);
      } else {
        last := ReadFullElem(d, m, x, end, s);
      }
    }
  }

  lemma ElemMeans(x: Markup)
    requires x.Elem?
    ensures Meaning(x) ==
            [Element(x.name, AttrsOf(x.attrs), if x.body.Full? then Meanings(x.body.kids) else [])]
  {
    hide AttrsOf, Meanings;
  }

  lemma GoodTagName(x: Markup)
    requires x.Elem? && Good(x)
    ensures ValidName(x.name) && x.name != [] && (x.body.Full? ==> AllWhite(x.body.endGap))
  {
    hide Goods, AttrsOf, GoodAttr, DistinctNames, ValidName;
    NameStart(x.name);
  }

  lemma ReadEmptyElem(d: bytes, m: Machine, x: Markup, end: Ahead, s: Scoping)
    requires BeforeTag(m) && x.Elem? && Good(x) && x.body.Empty? && Looking(d, m.r.cur, Written(x))
    requires s.Scoping? && s.stack != [] && s.stack[1..] == m.r.stack && s.stack[0].element == x.name
    requires end == Ending(m.r.cur + |Written(x)| - 2)
    ensures var m2 := Entered(m, end, s, x.name, AttrsOf(x.attrs));
            && KidScopes(s.stack, s.need, []) == Scoping(s.stack, s.need) && Running(m2)
            && Run(d, m2) == Run(d, WithKids(Back(m), m.r.cur + |Written(x)|, x.name, s.need, Meaning(x)))
  {
    hide Run, Looking, KidScopes, AttrsOf, AttrsText, WithKids, Entered, ElementLeft, Good, Meaning, Written, Back,
         InKids, ValidName;
    var attrs := AttrsOf(x.attrs);
    ElemMeans(x);
    var m2 := Entered(m, end, s, x.name, attrs);
    EnteredAt(m, end, s, x.name, attrs);
    NoKidScopes(s.stack, s.need);
    GoodTagName(x);
    EmptyEnds(d, m.r.cur, x);
    ReadEmptyClose(d, m2, x.name);
    WithNoKids(m2, m2.r.cur);
    AddElement(m, end, s, x.name, attrs, m2.r.cur, x.name, s.need, [], end.q + 2);
  }

  lemma EmptyEnds(d: bytes, q: nat, x: Markup)
    requires x.Elem? && x.body.Empty? && Looking(d, q, Written(x))
    ensures var e := q + |Written(x)| - 2; At(d, e) == SLASH && At(d, e + 1) == GREATER_THAN
  {
    hide Looking, AttrsText;
    var n := |Written(x)|;
    LookingAt(d, q, Written(x), n - 2);
    LookingAt(d, q, Written(x), n - 1);
  }

  lemma {:induction false} ReadFullElem(d: bytes, m: Machine, x: Markup, end: Ahead, s: Scoping) returns (last: bytes)
    requires BeforeTag(m) && x.Elem? && Good(x) && x.body.Full? && Looking(d, m.r.cur, Written(x))
    requires s.Scoping? && s.stack != [] && s.stack[1..] == m.r.stack && s.stack[0].element == x.name
    requires end.Closing? && Looking(d, end.q + 1, WrittenAll(x.body.kids))
    requires Looking(d, end.q + 1 + |WrittenAll(x.body.kids)|, CloseText(x.name, x.body.endGap))
    requires m.r.cur + |Written(x)| ==
             end.q + 1 + |WrittenAll(x.body.kids)| + |CloseText(x.name, x.body.endGap)|
    ensures var m2 := Entered(m, end, s, x.name, AttrsOf(x.attrs));
            var k := KidScopes(s.stack, s.need, Meanings(x.body.kids));
            && Running(m2) && (k.ScopeErr? ==> Run(d, m2) == Rejected(Failed))
            && (k.Scoping? ==>
                  Run(d, m2) == Run(d, WithKids(Back(m), m.r.cur + |Written(x)|, last, k.need, Meaning(x))))
    decreases x.body.kids, 3
  {
    hide Run, Looking, WhiteFrom, KidScopes, AttrsOf, AttrsText, GoodTag, Goods, WrittenAll, Meanings, WithKids,
         Entered, ElementLeft, CloseText, AllWhite, Written, Meaning;
    var kids, name, attrs, gap := x.body.kids, x.name, AttrsOf(x.attrs), x.body.endGap;
    var m2 := Entered(m, end, s, name, attrs);
    EnteredAt(m, end, s, name, attrs);
    var q := end.q + 1;
    var q3 := q + |WrittenAll(kids)|;
    CloseParts(d, q3, name, gap);
    WhiteNone(d, q);
    var c;
    c, last := ReadItems(d, m2, kids, q);
    var k := KidScopes(s.stack, s.need, Meanings(kids));
    if k.Scoping? {
      LeaveElem(d, m, x, end, s, c, last, k.need, q3);
    }
  }

  /** From the children of an element through its end tag. */
  lemma LeaveElem(d: bytes, m: Machine, x: Markup, end: Ahead, s: Scoping, c: nat, last: bytes, need: Option<Need>,
                  q: nat)
    requires m.open != [] && x.Elem? && Good(x) && x.body.Full? && end.Closing?
    requires s.Scoping? && s.stack != [] && s.stack[1..] == m.r.stack && s.stack[0].element == x.name
    requires WhiteFrom(d, c, q) && Looking(d, q, CloseText(x.name, x.body.endGap))
    ensures var m3 := WithKids(Entered(m, end, s, x.name, AttrsOf(x.attrs)), c, last, need, Meanings(x.body.kids));
            && Running(m3)
            && Run(d, m3) == Run(d, WithKids(Back(m), q + |CloseText(x.name, x.body.endGap)|, last, need, Meaning(x)))
  {
    hide Run, Looking, WhiteFrom, AttrsOf, Good, Meaning, Meanings, WithKids, Entered, ElementLeft, CloseText, AllWhite,
         Back, InKids, ValidName;
    var name, attrs, ts, gap := x.name, AttrsOf(x.attrs), Meanings(x.body.kids), x.body.endGap;
    ElemMeans(x);
    var m2 := Entered(m, end, s, name, attrs);
    EnteredAt(m, end, s, name, attrs);
    WithKidsAt(m2, c, last, need, ts);
    GoodTagName(x);
    ReadClose(d, WithKids(m2, c, last, need, ts), name, gap, q);
    AddElement(m, end, s, name, attrs, c, last, need, ts, q + |CloseText(name, gap)|);
  }

  /**
   The children of an element, after white space: the run goes on as if from a machine that has what they say and
   stands in the white space before what follows, unless an attribute is refused.
   */
  lemma {:induction false} ReadItems(d: bytes, m: Machine, ms: seq<Markup>, q: nat) returns (c: nat, last: bytes)
    requires InKids(m) && Goods(ms) && WhiteFrom(d, m.r.cur, q)
    requires ms != [] && ms[0].Chars? && !Blank(ms[0]) ==> m.r.cur == q
    requires Looking(d, q, WrittenAll(ms)) && At(d, q + |WrittenAll(ms)|) == LESS_THAN
    ensures var s := KidScopes(m.r.stack, m.r.need, Meanings(ms));
            && Running(m) && (s.ScopeErr? ==> Run(d, m) == Rejected(Failed))
            && (s.Scoping? ==> WhiteFrom(d, c, q + |WrittenAll(ms)|)
                               && Run(d, m) == Run(d, WithKids(m, c, last, s.need, Meanings(ms))))
    decreases ms, 2
  {
    hide Run, Looking, WhiteFrom, KidScopes, Good, Goods, WrittenAll, Meanings, WithKids, Written, Meaning, Blank;
    c, last := m.r.cur, m.r.lastElem;
    if ms == [] {
      WrittenNone();
      NoKidScopes(m.r.stack, m.r.need);
      WithNoKids(m, c);
    } else {
      WrittenStep(ms);
      GoodsStep(ms);
      var x, rest := ms[0], ms[1..];
      LookingConcat(d, q, Written(x), WrittenAll(rest));
      var q1 := q + |Written(x)|;
      if x.Chars? {
        ListStarts(d, q1, rest, LESS_THAN);
      }
      c, last := ReadItem(d, m, x, q);
      KidScopesConcat(m.r.stack, m.r.need, Meaning(x), Meanings(rest));
      var s := KidScopes(m.r.stack, m.r.need, Meaning(x));
      if s.Scoping? {
        var m1 := WithKids(m, c, last, s.need, Meaning(x));
        WithKidsAt(m, c, last, s.need, Meaning(x));
        var c1, l1 := ReadItems(d, m1, rest, q1);
        var t := KidScopes(m.r.stack, s.need, Meanings(rest));
        if t.Scoping? {
          WithKidsTwice(m, c, last, s.need, Meaning(x), c1, l1, t.need, Meanings(rest));
        }
        c, last := c1, l1;
      }
    }
  }
}
