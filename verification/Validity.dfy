/** Whatever buffer is parsed, the document returned holds valid names, character data and attributes. */
module Validity {
  import opened Bytes
  import opened NameTables
  import opened Lexer
  import opened Xml
  import opened Machine
  import opened Parse
  import opened Escaping
  import opened Reading
  import opened NodeReading
  import Utf8

  ghost predicate ValidAttr(a: Attr) {
    ValidName(a.name) && WellFormed(a.value)
  }

  ghost predicate ValidTag(name: bytes, attrs: seq<Attr>) {
    ValidName(name) && (forall i | 0 <= i < |attrs| :: ValidAttr(attrs[i])) && DistinctNames(attrs)
  }

  ghost predicate ValidNode(t: Tree) {
    match t
    case Text(v) => WellFormed(v)
    case CData(v) => ValidCData(v)
    case Element(name, attrs, inner) => ValidTag(name, attrs) && Valid(inner)
  }

  /** Lists of nodes with valid names, distinct attributes and valid character data. */
  ghost predicate Valid(kids: seq<Tree>) {
    kids != [] ==> ValidNode(kids[0]) && Valid(kids[1..])
  }

  lemma {:induction false} ValidAdd(kids: seq<Tree>, t: Tree)
    requires Valid(kids) && ValidNode(t)
    ensures Valid(kids + [t])
  {
    hide ValidNode;
    if kids != [] {
      ValidAdd(kids[1..], t);
      assert (kids + [t])[1..] == kids[1..] + [t];
    } else {
      assert [t][1..] == [] && kids + [t] == [t];
    }
  }

  // ----- names

  /** The characters of a run of name characters. */
  function NameRunChars(d: bytes, p: nat): seq<int>
    decreases |d| - p
  {
    var u := Utf8.Decode(d, p);
    if IsName(u.value, true) then
      NameIsXmlChar(u.value, true);
      [u.value] + NameRunChars(d, p + u.len)
    else []
  }

  lemma NameRunStep(d: bytes, p: nat)
    ensures var u := Utf8.Decode(d, p);
            NameRunChars(d, p) ==
            if IsName(u.value, true) && u.len > 0 then [u.value] + NameRunChars(d, p + u.len) else []
  {
    hide IsName, Utf8.Decode;
    if IsName(Utf8.Decode(d, p).value, true) {
      CharOfName(d, p, true);
    }
  }

  lemma EncodeAllFirst(c: int, cs: seq<int>)
    ensures Utf8.EncodeAll([c] + cs) == Utf8.Encode(c) + Utf8.EncodeAll(cs)
  {
    hide Utf8.Encode;
    assert ([c] + cs)[1..] == cs;
  }

  lemma CopyOfIs(c: int, len: nat)
    requires len == 1 ==> 0 <= c < 128
    ensures CopyOf(c, len) == Utf8.Encode(c)
  {
    EncodeOne(c);
    hide Utf8.Encode;
  }

  lemma {:induction false} NameRunCopied(d: bytes, p: nat, out: bytes)
    ensures CopyFrom(d, p, NameEnd(d, p), out) == Copied(true, out + Utf8.EncodeAll(NameRunChars(d, p)))
    ensures forall i | 0 <= i < |NameRunChars(d, p)| :: IsName(NameRunChars(d, p)[i], true)
    decreases |d| - p
  {
    hide IsName, Utf8.Encode, Utf8.Decode, NameEnd, GetChar, NameRunChars, CopyOf, Utf8.EncodeAll;
    var u := Utf8.Decode(d, p);
    NameEndStep(d, p);
    NameRunStep(d, p);
    if IsName(u.value, true) {
      hide CopyFrom;
      CopyNameChar(d, p, NameEnd(d, p), out, true);
      CopyOfIs(u.value, u.len);
      NameRunCopied(d, p + u.len, out + Utf8.Encode(u.value));
      EncodeAllFirst(u.value, NameRunChars(d, p + u.len));
      Assoc(out, Utf8.Encode(u.value), Utf8.EncodeAll(NameRunChars(d, p + u.len)));
    } else {
      EncodeNone();
      ConcatNone(out);
    }
  }

  lemma EncodeNone()
    ensures Utf8.EncodeAll([]) == []
  {
  }

  lemma EncodeOne(c: int)
    ensures 0 <= c < 128 ==> Utf8.Encode(c) == [c]
  {
  }

  lemma NameBegun(c: int, rest: seq<int>)
    requires IsName(c, false) && IsName(c, true) && IsXmlChar(c)
    requires forall i | 0 <= i < |rest| :: IsName(rest[i], true)
    ensures ValidName([] + Utf8.Encode(c) + Utf8.EncodeAll(rest))
  {
    hide IsName, IsXmlChar, Utf8.Encode;
    var cs := [c] + rest;
    assert Utf8.EncodeAll(cs) == Utf8.Encode(c) + Utf8.EncodeAll(rest) by {
      assert cs[1..] == rest;
    }
    hide Utf8.EncodeAll;
    assert [] + Utf8.Encode(c) == Utf8.Encode(c);
    assert forall i | 0 <= i < |cs| :: cs[i] == if i == 0 then c else rest[i - 1];
    assert NameChars(cs);
  }

  /** A token that begins like a name is a name. */
  lemma NameTokenValid(d: bytes, q: nat)
    requires IsName(Utf8.Decode(d, q).value, false)
    ensures var u := Utf8.Decode(d, q);
            u.len > 0 && ValidName(CopyToken(d, q, NameEnd(d, q + u.len) - q).out)
  {
    hide IsName, IsXmlChar, Utf8.Encode, Utf8.Decode, NameEnd, ValidName, GetChar, CopyFrom, CopyOf, NameRunChars,
         Utf8.EncodeAll;
    var u := Utf8.Decode(d, q);
    CharOfName(d, q, false);
    NameMonotone(u.value, false);
    NameIsXmlChar(u.value, false);
    NameEndStep(d, q + u.len);
    CopyNameChar(d, q, NameEnd(d, q + u.len), [], false);
    CopyOfIs(u.value, u.len);
    NameRunCopied(d, q + u.len, [] + Utf8.Encode(u.value));
    NameBegun(u.value, NameRunChars(d, q + u.len));
  }

  /** Where a token is a name: its first character says so, in the buffer as in the copy. */
  lemma NameTokenAt(d: bytes, p: nat)
    requires At(d, p) != 0 && SkipMisc(d, p).ok && IsName(Utf8.Decode(d, SkipMisc(d, p).cur).value, false)
    ensures ValidName(NextToken(d, p).buf)
  {
    hide IsName, Utf8.Decode, NameEnd, SkipMisc, ValidName, CopyToken, NextToken, TokenLength;
    var q := SkipMisc(d, p).cur;
    var u := Utf8.Decode(d, q);
    NameTokenValid(d, q);
    NameEndAfter(d, q + u.len);
    NameLength(d, q, u.value, NameEnd(d, q + u.len));
    NextTokenIs(d, p, q);
  }

  lemma NameEndAfter(d: bytes, p: nat)
    ensures NameEnd(d, p) >= p
  {
  }

  /** A token that left something in the buffer was measured. */
  lemma Measured(d: bytes, p: nat)
    requires NextToken(d, p).buf != []
    ensures At(d, p) != 0 && SkipMisc(d, p).ok && TokenLength(d, SkipMisc(d, p).cur) > 0
  {
    hide TokenLength, SkipMisc;
  }

  lemma MiscAtName(d: bytes, p: nat)
    requires IsName(Utf8.Decode(d, p).value, false)
    ensures At(d, p) != 0 && SkipMisc(d, p) == Skip(true, p)
  {
    var u := Utf8.Decode(d, p);
    NotWhiteName(u.value, false);
    NameFirst(d, p, u.value);
    hide IsName, Utf8.Decode;
    SkipMiscTo(d, p, p);
  }

  /** The tokens that are not names do not begin like one. */
  lemma OtherToken(d: bytes, p: nat)
    requires NextToken(d, p).buf != [] && IsName(Utf8.Decode(NextToken(d, p).buf, 0).value, false)
    ensures At(d, p) != 0 && SkipMisc(d, p).ok && IsName(Utf8.Decode(d, SkipMisc(d, p).cur).value, false)
  {
    var q := SkipMisc(d, p).cur;
    var b := NextToken(d, p).buf;
    NameByte(b);
    assert b != END_TAG;
    Measured(d, p);
    hide SkipMisc, Utf8.Decode, CopyToken, NameEnd;
    if !IsName(Utf8.Decode(d, q).value, false) {
      hide IsName;
      assert At(d, q) in {QUOTE, SINGLE_QUOTE, LESS_THAN, EQUALS, SLASH, GREATER_THAN};
      QuoteNotName(b);
      TokenCopied(d, q);
      PunctuationNotName(At(d, q));
    }
  }

  lemma PunctuationNotName(c: int)
    requires c in {0x22, 0x27, 0x3C, 0x3D, 0x2F, 0x3E}
    ensures !IsName(c, false)
  {
    Punctuation(c);
    hide Letter, NameChar;
  }

  lemma QuoteNotName(b: bytes)
    requires b != [] && IsName(Utf8.Decode(b, 0).value, false)
    ensures b[0] != SINGLE_QUOTE && b[0] != QUOTE
  {
    NotWhiteName(Utf8.Decode(b, 0).value, false);
    hide IsName;
  }

  // ----- one node

  /** Only a '<' in the buffer makes a token that begins with one. */
  lemma LessComesFirst(d: bytes, q: nat)
    requires TokenLength(d, q) > 0 && At(d, q) != LESS_THAN
    ensures var b := CopyToken(d, q, TokenLength(d, q)).out; b == [] || b[0] != LESS_THAN
  {
    hide Utf8.Decode, CopyToken, NameEnd, IsName, ValidName;
    if At(d, q) in {QUOTE, SINGLE_QUOTE, EQUALS, SLASH, GREATER_THAN} {
      TokenCopied(d, q);
      PunctuationNotName(At(d, q));
    } else {
      var u := Utf8.Decode(d, q);
      NameTokenValid(d, q);
      ValidNameByte(CopyToken(d, q, TokenLength(d, q)).out);
    }
  }

  /** A '<' is a token of its own only before a name. */
  lemma LessBeforeName(d: bytes, q: nat)
    requires TokenLength(d, q) > 0 && At(d, q) == LESS_THAN
    ensures var t := CopyToken(d, q, TokenLength(d, q));
            t.out == END_TAG || (t.ok && IsName(Utf8.Decode(d, q + TokenLength(d, q)).value, false))
  {
    TokenCopied(d, q);
    LessNotName();
    hide CopyToken, NameEnd, IsName;
  }

  /** A '<' token stands before a name. */
  lemma OpensName(d: bytes, p: nat)
    requires NextToken(d, p).buf != [] && NextToken(d, p).buf[0] == LESS_THAN && NextToken(d, p).buf != END_TAG
    ensures IsName(Utf8.Decode(d, NextToken(d, p).cur).value, false)
  {
    hide SkipMisc, Utf8.Decode, CopyToken, NameEnd, IsName, TokenLength, NextToken;
    var q := SkipMisc(d, p).cur;
    Measured(d, p);
    NextTokenIs(d, p, q);
    if At(d, q) == LESS_THAN {
      LessBeforeName(d, q);
    } else {
      LessComesFirst(d, q);
    }
  }

  lemma LessNotName()
    ensures !IsName(LESS_THAN, false)
  {
    PunctuationNotName(LESS_THAN);
    hide IsName;
  }

  lemma ValidNameByte(b: bytes)
    requires ValidName(b)
    ensures b != [] && b[0] != LESS_THAN
  {
    var cs: seq<int> :| NameChars(cs) && b == Utf8.EncodeAll(cs);
    NotWhiteName(cs[0], false);
    NameIsXmlChar(cs[0], false);
    EncodeBytes(cs[0]);
    hide IsName, Utf8.Encode;
    assert b == Utf8.Encode(cs[0]) + Utf8.EncodeAll(cs[1..]);
  }

  ghost predicate ValidItem(item: Item) {
    match item
    case NoNode => true
    case StartTag(name, _, _) => ValidName(name)
    case TextNode(v) => WellFormed(v) && v != []
    case CDataNode(v) => ValidCData(v)
    case AttrNode(a, _, _) => ValidAttr(a)
    case EndTag(_) => true
  }

  lemma CopiedValid(d: bytes, p: nat, len: nat)
    requires CopyToken(d, p, len).ok
    ensures WellFormed(CopyToken(d, p, len).out) && CopyToken(d, p, len).out != []
  {
    WellFormedEmpty();
    CopyYields(d, p, p + len, []);
    CopyGrows(d, p, p + len, []);
    hide CopyFrom, WellFormed;
  }

  lemma {:induction false} CopyGrows(d: bytes, p: nat, end: nat, out: bytes)
    requires CopyFrom(d, p, end, out).ok
    ensures |CopyFrom(d, p, end, out).out| >= |out| && (p < end ==> |CopyFrom(d, p, end, out).out| > |out|)
    decreases end - p
  {
    hide GetChar, Utf8.Encode;
    if p < end {
      var ch := GetChar(d, p);
      CharIsXml(d, p);
      if ch.len == 1 {
        CopyGrows(d, p + 1, end, out + [ch.c]);
      } else {
        CopyGrows(d, p + ch.len, end, out + Utf8.Encode(ch.c));
      }
    }
  }

  lemma {:induction false} ScannedCData(d: bytes, p: nat)
    ensures forall i | p <= i < CDataEnd(d, p) :: d[i] < 128 && IsXmlChar(d[i]) && !Looking(d, i, CD_END)
    decreases |d| - p
  {
    if p < |d| && d[p] < 128 && IsXmlChar(d[p]) && !Looking(d, p, CD_END) {
      ScannedCData(d, p + 1);
    }
  }

  lemma CDataIsValid(d: bytes, p: nat, e: nat)
    requires e == CDataEnd(d, p) > p
    ensures ValidCData(d[p..e])
  {
    ScannedCData(d, p);
    var v := d[p..e];
    hide CDataEnd;
    assert forall i | 0 <= i < |v| :: v[i] == d[p + i];
    forall i | 0 <= i < |v| ensures !Looking(v, i, CD_END) {
      assert !Looking(d, p + i, CD_END);
      if i + 3 <= |v| {
        assert v[i..i + 3] == d[p + i..p + i + 3];
      }
    }
  }

  lemma ContentValid(d: bytes, r: Reader)
    requires ProcessContent(d, r).Got?
    ensures ValidItem(ProcessContent(d, r).item)
  {
    var q := SkipWhite(d, r.cur);
    hide CopyToken, WellFormed, CDataEnd, ValidCData, Looking, SkipComment, SkipPI, SkipWhite, TextEnd;
    if At(d, q) == LESS_THAN {
      if Looking(d, q, CD_START) {
        var e := CDataEnd(d, q + |CD_START|);
        if e > q + |CD_START| {
          CDataIsValid(d, q + |CD_START|, e);
        }
      }
    } else if At(d, q) != 0 {
      CopiedValid(d, r.cur, TextEnd(d, r.cur) - r.cur);
    }
  }

  lemma ValueValid(d: bytes, p: nat, e: nat)
    requires p <= e <= |d| && AttrValue(d, p, e).ok
    ensures WellFormed(AttrValue(d, p, e).out)
  {
    WellFormedEmpty();
    hide CopyToken, WellFormed;
    if LESS_THAN !in d[p..e] && p < e {
      CopiedValid(d, p, e - p);
    }
  }

  lemma AttributeValid(d: bytes, r: Reader, name: bytes)
    requires r.stack != [] && ValidName(name) && ProcessAttribute(d, r, name).Got?
    ensures ValidItem(ProcessAttribute(d, r, name).item)
  {
    hide NextToken, IsName, Utf8.Decode, SplitName, XmlNamespace, WellFormed, ValidName, AttrValue, Find, Looking;
    var quote := NextToken(d, NextToken(d, r.cur).cur);
    var e := Find(d, quote.cur, quote.buf).value;
    FindWithin(d, quote.cur, quote.buf);
    ValueValid(d, quote.cur, e);
  }

  lemma FindWithin(d: bytes, p: nat, key: bytes)
    requires Find(d, p, key).Some?
    ensures p <= Find(d, p, key).value <= |d|
  {
  }

  lemma ItemValid(d: bytes, r: Reader)
    requires GetNextNode(d, r).Got?
    ensures ValidItem(GetNextNode(d, r).item)
  {
    hide NextToken, ProcessSTag, ProcessETag, ProcessAttribute, ProcessContent, ValidName, ValidItem, SkipWhite;
    if r.state == InContent {
      ContentValid(d, r);
    } else {
      var t := NextToken(d, SkipWhite(d, r.cur));
      var r' := r.(cur := t.cur);
      NothingValid();
      if t.len == 0 && r.stack == [] && At(d, t.cur) == 0 {
      } else if t.buf != [] && t.buf[0] != GREATER_THAN {
        if t.buf == END_TAG {
          ETagValid(d, r');
        } else if t.buf[0] == LESS_THAN {
          OpensName(d, SkipWhite(d, r.cur));
          STagValid(d, r');
        } else if t.buf != COMPLETE_TAG && r.stack != [] && r.state == InAttribute {
          AttributeStarts(d, r', t.buf);
          OtherToken(d, SkipWhite(d, r.cur));
          NameTokenAt(d, SkipWhite(d, r.cur));
          AttributeValid(d, r', t.buf);
        }
      }
    }
  }

  lemma NothingValid()
    ensures ValidItem(NoNode) && forall name :: ValidItem(EndTag(name))
  {
  }

  lemma ETagValid(d: bytes, r: Reader)
    requires ProcessETag(d, r).Got?
    ensures ValidItem(ProcessETag(d, r).item)
  {
    hide NextToken;
  }

  lemma STagValid(d: bytes, r: Reader)
    requires ProcessSTag(d, r).Got? && IsName(Utf8.Decode(d, r.cur).value, false)
    ensures ValidItem(ProcessSTag(d, r).item)
  {
    hide NextToken, IsName, Utf8.Decode, ValidName, SkipMisc, At;
    MiscAtName(d, r.cur);
    NameTokenAt(d, r.cur);
    hide SplitName;
  }

  lemma AttributeStarts(d: bytes, r: Reader, name: bytes)
    requires r.stack != [] && ProcessAttribute(d, r, name).Got?
    ensures IsName(Utf8.Decode(name, 0).value, false)
  {
    hide NextToken, IsName, Utf8.Decode;
  }

  // ----- the run

  ghost predicate ValidFrame(f: Frame) {
    (forall i | 0 <= i < |f.attrs| :: ValidAttr(f.attrs[i])) && DistinctNames(f.attrs) && Valid(f.kids)
  }

  /** Every open element is as valid as it will be; the last frame is the document, which has no tag. */
  ghost predicate ValidOpen(open: seq<Frame>) {
    && (forall i | 0 <= i < |open| :: ValidFrame(open[i]))
    && (forall i | 0 <= i < |open| - 1 :: ValidName(open[i].name))
  }

  lemma DigestValid(m: Machine, r: Reader, item: Item)
    requires Running(m) && ValidOpen(m.open) && ValidItem(item) && Digest(m, r, item).Next?
    ensures ValidOpen(Digest(m, r, item).m.open)
  {
    hide ValidAttr, Valid, ValidNode, WellFormed, ValidCData, ValidName, ValidOpen, ValidFrame, Opened, DistinctNames;
    match item
    case NoNode =>
    case StartTag(name, _, _) => OpenValid(m.open, name);
    case TextNode(v) =>
      TextValid(v);
      KidValid(m.open, Text(v));
    case CDataNode(v) =>
      TextValid(v);
      KidValid(m.open, CData(v));
    case AttrNode(a, _, _) => AttrValid(m.open, a);
    case EndTag(_) => CloseValid(m.open);
  }

  lemma OpenValid(open: seq<Frame>, name: bytes)
    requires ValidOpen(open) && ValidName(name) && open != []
    ensures ValidOpen([Frame(name, [], [])] + open)
  {
    hide Valid, ValidAttr, ValidName;
    NoneValid();
    var open' := [Frame(name, [], [])] + open;
    assert forall i | 1 <= i < |open'| :: open'[i] == open[i - 1];
  }

  lemma KidValid(open: seq<Frame>, t: Tree)
    requires ValidOpen(open) && ValidNode(t) && open != []
    ensures ValidOpen([AddKid(open[0], t)] + open[1..])
  {
    hide Valid, ValidAttr, ValidName, ValidNode;
    ValidAdd(open[0].kids, t);
    var open' := [AddKid(open[0], t)] + open[1..];
    assert forall i | 1 <= i < |open'| :: open'[i] == open[i];
  }

  lemma AttrValid(open: seq<Frame>, a: Attr)
    requires ValidOpen(open) && ValidAttr(a) && open != [] && !HasAttr(open[0].attrs, a.name)
    ensures ValidOpen([open[0].(attrs := open[0].attrs + [a])] + open[1..])
  {
    hide Valid, ValidAttr, ValidName;
    var attrs := open[0].attrs + [a];
    assert forall i | 0 <= i < |attrs| - 1 :: attrs[i] == open[0].attrs[i];
    assert DistinctNames(attrs);
    var open' := [open[0].(attrs := attrs)] + open[1..];
    assert forall i | 1 <= i < |open'| :: open'[i] == open[i];
  }

  lemma CloseValid(open: seq<Frame>)
    requires ValidOpen(open) && |open| > 1
    ensures ValidOpen([AddKid(open[1], Closed(open[0]))] + open[2..])
  {
    hide Valid, ValidAttr, ValidName, ValidNode, DistinctNames;
    ClosedValid(open[0]);
    ValidAdd(open[1].kids, Closed(open[0]));
    var open' := [AddKid(open[1], Closed(open[0]))] + open[2..];
    assert forall i | 1 <= i < |open'| :: open'[i] == open[i + 1];
  }

  lemma NoneValid()
    ensures Valid([])
  {
  }

  lemma TextValid(v: bytes)
    ensures WellFormed(v) ==> ValidNode(Text(v))
    ensures ValidCData(v) ==> ValidNode(CData(v))
  {
  }

  lemma ClosedValid(f: Frame)
    requires ValidFrame(f) && ValidName(f.name)
    ensures ValidNode(Closed(f))
  {
  }

  lemma {:induction false} RunValid(d: bytes, m: Machine)
    requires Running(m) && ValidOpen(m.open) && Run(d, m).Parsed?
    ensures Valid(Run(d, m).roots)
    decreases Left(d, m.r), Phase(m.r)
  {
    hide GetNextNode, Digest, ValidOpen, Valid;
    match Step(d, m)
    case Finish =>
      assert Valid(m.open[|m.open| - 1].kids) by { DocumentValid(m.open); }
    case Stop(_) =>
    case Next(m') =>
      StepProgress(d, m);
      ItemValid(d, m.r);
      DigestValid(m, GetNextNode(d, m.r).r, GetNextNode(d, m.r).item);
      RunValid(d, m');
  }

  lemma DocumentValid(open: seq<Frame>)
    requires ValidOpen(open) && open != []
    ensures Valid(open[|open| - 1].kids)
  {
    hide Valid, ValidAttr;
    assert ValidFrame(open[|open| - 1]);
  }

  /** Every document the parser returns is valid, whatever the buffer. */
  lemma ParsedIsValid(d: bytes)
    requires ParseDocument(d).Parsed?
    ensures Valid(ParseDocument(d).roots)
  {
    var m := Start(SkipProlog(d).cur);
    assert ValidFrame(m.open[0]);
    hide Run, SkipProlog, Valid;
    RunValid(d, m);
  }

  // ----- where the CDATA scan falls short

  /** A section is read whole if and only if its contents are ASCII characters of XML, and there are some. */
  lemma CDataReadIff(d: bytes, r: Reader, q: nat, v: bytes)
    requires r.state == InContent && WhiteFrom(d, r.cur, q) && Looking(d, q, CD_START + v + CD_END)
    ensures GetNextNode(d, r) == Got(r.(cur := q + |CD_START + v + CD_END|), CDataNode(v)) <==> ValidCData(v)
  {
    hide GetNextNode, ValidCData, Looking, WhiteFrom;
    if ValidCData(v) {
      ReadCData(d, r, q, v);
    } else if GetNextNode(d, r).Got? {
      ItemValid(d, r);
    }
  }

  /** The section holds "a", a byte above 127 and "b"; it is read as "a", and reading goes on in its end. */
  lemma ShortCData()
    ensures var d, r := CD_START + [0x61, 0x80, 0x62] + CD_END, Reader(0, InContent, [], [], None);
            GetNextNode(d, r) == Got(r.(cur := 13), CDataNode([0x61])) && d[13..] == [0x5D, 0x3E]
  {
    var v := [0x61, 0x80, 0x62];
    var d, r := CD_START + v + CD_END, Reader(0, InContent, [], [], None);
    assert d[0..9] == CD_START && Looking(d, 0, CD_START);
    assert SkipWhite(d, 0) == 0;
    assert d[9] == 0x61 && d[10] == 0x80 && d[9..10] == [0x61];
    LookingNo(d, 9, CD_END, 0);
    assert CDataEnd(d, 10) == 10;
    assert CDataEnd(d, 9) == 10;
    hide CDataEnd;
    assert d[13..] == [0x5D, 0x3E];
  }
}
