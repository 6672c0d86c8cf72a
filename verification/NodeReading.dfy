/** Reading one node of a document that is spelled in any of the ways of Spelling. */
module NodeReading {
  import opened Bytes
  import opened NameTables
  import opened Lexer
  import opened Xml
  import opened Machine
  import opened Parse
  import opened Printing
  import opened Escaping
  import opened Reading
  import opened References
  import opened Spelling
  import Utf8

  // ----- characters

  /** No byte that ends a string or begins markup. */
  predicate NoMarkup(s: bytes) {
    forall i | 0 <= i < |s| :: s[i] != 0 && s[i] != LESS_THAN
  }

  lemma NoMarkupConcat(a: bytes, b: bytes)
    requires NoMarkup(a) && NoMarkup(b)
    ensures NoMarkup(a + b)
  {
  }

  lemma {:induction false} ZerosNoMarkup(k: nat)
    ensures NoMarkup(Zeros(k))
  {
    if k > 0 {
      ZerosNoMarkup(k - 1);
    }
  }

  lemma {:induction false} HexNoMarkup(s: bytes, n: nat)
    requires HexSpells(s, n)
    ensures NoMarkup(s)
    decreases n
  {
    var k := |s| - 1;
    HexDigitIs(s[k], n % 16);
    if n >= 16 {
      HexNoMarkup(s[..k], n / 16);
      assert s == s[..k] + [s[k]];
    }
  }

  lemma {:induction false} DecNoMarkup(n: nat)
    ensures NoMarkup(DecDigits(n))
  {
    if n >= 10 {
      DecNoMarkup(n / 10);
    }
  }

  lemma PieceClean(p: Piece)
    requires GoodPiece(p)
    ensures NoMarkup(PieceText(p)) && PieceText(p) != []
  {
    match p
    case Plain(c) =>
      EncodeBytes(c);
      hide Utf8.Encode;
    case Named(b) => EscapeByteIsClean(b);
    case Dec(n, zeros) =>
      ZerosNoMarkup(zeros);
      DecNoMarkup(n);
      hide Zeros, DecDigits;
    case Hex(n, x, zeros, digits) =>
      ZerosNoMarkup(zeros);
      HexNoMarkup(digits, n);
      hide Zeros, HexSpells;
  }

  lemma {:induction false} PiecesClean(ps: seq<Piece>)
    requires GoodPieces(ps)
    ensures NoMarkup(PiecesText(ps)) && (ps != [] ==> PiecesText(ps) != [])
  {
    hide GoodPiece, PieceText;
    if ps != [] {
      PieceClean(ps[0]);
      PiecesClean(ps[1..]);
      NoMarkupConcat(PieceText(ps[0]), PiecesText(ps[1..]));
    }
  }

  /** A piece is copied as the character it stands for. */
  lemma PieceCopied(d: bytes, p: nat, end: nat, out: bytes, x: Piece)
    requires GoodPiece(x) && Looking(d, p, PieceText(x)) && p + |PieceText(x)| <= end
    ensures CopyFrom(d, p, end, out) == CopyFrom(d, p + |PieceText(x)|, end, out + Utf8.Encode(CharOf(x)))
  {
    hide CopyFrom, GetChar, Looking, HexSpells, DecDigits, Zeros;
    EncodeBytes(CharOf(x));
    hide Utf8.Encode;
    match x
    case Plain(c) => CopyPlain(d, p, end, out, c);
    case Named(b) =>
      ReferenceChar(d, p, b);
      CopyReference(d, p, end, out, b, |PieceText(x)|);
    case Dec(n, zeros) =>
      DecReference(d, p, n, zeros);
      NotXml();
      CopyReference(d, p, end, out, n, |PieceText(x)|);
    case Hex(n, h, zeros, digits) =>
      HexReference(d, p, n, h, zeros, digits);
      NotXml();
      CopyReference(d, p, end, out, n, |PieceText(x)|);
  }

  lemma PiecesStep(ps: seq<Piece>)
    requires ps != []
    ensures PiecesText(ps) == PieceText(ps[0]) + PiecesText(ps[1..])
    ensures PiecesValue(ps) == Utf8.Encode(CharOf(ps[0])) + PiecesValue(ps[1..])
  {
    hide PieceText, Utf8.Encode, CharOf;
    assert Characters(ps)[0] == CharOf(ps[0]) && Characters(ps)[1..] == Characters(ps[1..]);
  }

  lemma NoPieces()
    ensures PiecesText([]) == [] && PiecesValue([]) == []
  {
  }

  lemma {:induction false} PiecesCopied(d: bytes, p: nat, end: nat, out: bytes, ps: seq<Piece>)
    requires GoodPieces(ps) && Looking(d, p, PiecesText(ps)) && p + |PiecesText(ps)| <= end
    ensures CopyFrom(d, p, end, out) == CopyFrom(d, p + |PiecesText(ps)|, end, out + PiecesValue(ps))
    decreases |ps|
  {
    hide GetChar, GoodPiece, PieceText, PiecesText, PiecesValue, Utf8.Encode, Looking, CharOf, CopyFrom;
    if ps == [] {
      NoPieces();
      assert out + [] == out;
    } else {
      PiecesStep(ps);
      var x, rest := PieceText(ps[0]), PiecesText(ps[1..]);
      var u := Utf8.Encode(CharOf(ps[0]));
      LookingConcat(d, p, x, rest);
      PieceCopied(d, p, end, out, ps[0]);
      PiecesCopied(d, p + |x|, end, out + u, ps[1..]);
      Assoc(out, u, PiecesValue(ps[1..]));
    }
  }

  lemma CopyDone(d: bytes, p: nat, out: bytes)
    ensures CopyFrom(d, p, p, out) == Copied(true, out)
  {
  }

  lemma TextCopied(d: bytes, p: nat, ps: seq<Piece>)
    requires ps != [] && GoodPieces(ps) && Looking(d, p, PiecesText(ps))
    ensures CopyToken(d, p, |PiecesText(ps)|) == Copied(true, PiecesValue(ps))
  {
    hide CopyFrom, PiecesText, PiecesValue, GoodPieces, Looking;
    PiecesClean(ps);
    PiecesCopied(d, p, p + |PiecesText(ps)|, [], ps);
    CopyDone(d, p + |PiecesText(ps)|, [] + PiecesValue(ps));
    ConcatNone(PiecesValue(ps));
    CopyTokenIs(d, p, |PiecesText(ps)|);
  }

  // ----- tokens

  lemma NotNameByte(d: bytes, p: nat)
    requires IsWhite(At(d, p)) || At(d, p) in {EQUALS, GREATER_THAN, SLASH}
    ensures !IsName(Utf8.Decode(d, p).value, true)
  {
    Punctuation(At(d, p));
    hide IsName;
  }

  /** What the first byte of a name token is not. */
  lemma NameByte(name: bytes)
    requires name != [] && IsName(Utf8.Decode(name, 0).value, false)
    ensures name[0] !in {LESS_THAN, GREATER_THAN, SLASH, EQUALS, SPACE, QUOTE, SINGLE_QUOTE}
  {
    NotWhiteName(Utf8.Decode(name, 0).value, false);
    hide IsName;
  }

  lemma NameWhite(d: bytes, p: nat)
    requires IsName(Utf8.Decode(d, p).value, false)
    ensures !IsWhite(At(d, p)) && At(d, p) != 0
  {
    NotWhiteName(Utf8.Decode(d, p).value, false);
    hide IsName;
  }

  /** What stands after a part of a start tag, white space aside: an attribute, or one of its two ends. */
  datatype Ahead = Another(q: nat, name: bytes) | Closing(q: nat) | Ending(q: nat)

  /** A name, and something else after it. */
  ghost predicate NameAt(d: bytes, q: nat, name: bytes) {
    ValidName(name) && Looking(d, q, name) && !IsName(Utf8.Decode(d, q + |name|).value, true)
  }

  ghost predicate Follows(d: bytes, e: nat, a: Ahead) {
    WhiteFrom(d, e, a.q) &&
    match a
    case Another(q, name) => NameAt(d, q, name)
    case Closing(q) => At(d, q) == GREATER_THAN
    case Ending(q) => At(d, q) == SLASH && At(d, q + 1) == GREATER_THAN
  }

  lemma AheadToken(d: bytes, e: nat, a: Ahead)
    requires Follows(d, e, a)
    ensures var t := NextToken(d, e);
            && t.len > 0 && t.buf != [] && t.buf != [LESS_THAN] && (a.Closing? <==> t.buf == [GREATER_THAN])
            && (a.Ending? <==> t.buf == COMPLETE_TAG) && (a.Closing? ==> t.cur == a.q + 1)
            && (a.Ending? ==> t.cur == a.q + 2 && t.len == 2)
  {
    hide NextToken, IsName, Utf8.Decode, Looking, ValidName, WhiteFrom;
    match a
    case Another(q, name) =>
      NameToken(d, e, q, name);
      NameByte(name);
    case Closing(q) => CharToken(d, e, q);
    case Ending(q) => SlashToken(d, e, q);
  }

  /** From markup, the node is read by what the first token is. */
  lemma NodeByToken(d: bytes, r: Reader, t: Token)
    requires r.state != InContent && At(d, r.cur) != 0
    requires NextToken(d, SkipWhite(d, r.cur)) == t && t.buf != [] && t.buf[0] != GREATER_THAN && t.len > 0
    ensures t.buf == [LESS_THAN] ==> GetNextNode(d, r) == ProcessSTag(d, r.(cur := t.cur))
    ensures t.buf == END_TAG ==> GetNextNode(d, r) == ProcessETag(d, r.(cur := t.cur))
    ensures t.buf == COMPLETE_TAG && r.lastElem != [] ==> GetNextNode(d, r) == Got(r.(cur := t.cur), EndTag(r.lastElem))
    ensures t.buf[0] != LESS_THAN && t.buf[0] != SLASH && r.stack != [] && r.state == InAttribute ==>
              GetNextNode(d, r) == ProcessAttribute(d, r.(cur := t.cur), t.buf)
  {
    hide NextToken, ProcessSTag, ProcessETag, ProcessAttribute, ProcessContent, SkipWhite;
  }

  // ----- start tags

  /** The reader after the name of a start tag. */
  function AfterName(r: Reader, name: bytes, e: nat, a: Ahead): Reader {
    match a
    case Another(_, _) => r.(cur := e, state := InAttribute, lastElem := name)
    case Closing(q) => r.(cur := q + 1, state := InContent, lastElem := name)
    case Ending(q) => r.(cur := q, state := InElement, lastElem := name)
  }

  function StartItem(name: bytes): Item {
    StartTag(name, SplitName(name).prefix, SplitName(name).localName)
  }

  lemma STagByTokens(d: bytes, r: Reader, name: bytes, e: nat, a: Ahead)
    requires name != [] && NextToken(d, r.cur) == Token(|name|, name, e) && Follows(d, e, a)
    ensures ProcessSTag(d, r) == Got(AfterName(r, name, e, a), StartItem(name))
  {
    AheadToken(d, e, a);
    hide NextToken, SplitName, Follows;
  }

  /** A '<' right before a name, with something else after the name. */
  lemma ReadStart(d: bytes, r: Reader, name: bytes, a: Ahead)
    requires r.state != InContent && At(d, r.cur) == LESS_THAN && NameAt(d, r.cur + 1, name)
    requires Follows(d, r.cur + 1 + |name|, a)
    ensures GetNextNode(d, r) == Got(AfterName(r, name, r.cur + 1 + |name|, a), StartItem(name))
  {
    hide NextToken, IsName, Utf8.Decode, SplitName, GetNextNode, ProcessSTag, Looking, ValidName, Follows;
    var p := r.cur;
    NameToken(d, p + 1, p + 1, name);
    OpenToken(d, p, p);
    SkipWhiteTo(d, p, p);
    NodeByToken(d, r, Token(1, [LESS_THAN], p + 1));
    STagByTokens(d, r.(cur := p + 1), name, p + 1 + |name|, a);
  }

  /** An empty-element tag ends like an end tag. */
  lemma ReadEmptyEnd(d: bytes, r: Reader)
    requires r.state != InContent && r.lastElem != [] && At(d, r.cur) == SLASH && At(d, r.cur + 1) == GREATER_THAN
    ensures GetNextNode(d, r) == Got(r.(cur := r.cur + 2), EndTag(r.lastElem))
  {
    hide NextToken, GetNextNode;
    SlashToken(d, r.cur, r.cur);
    SkipWhiteTo(d, r.cur, r.cur);
    NodeByToken(d, r, Token(2, COMPLETE_TAG, r.cur + 2));
  }

  // ----- attributes

  /** The quote that ends a value is the first one after it. */
  lemma EndQuote(d: bytes, p: nat, quote: byte, v: bytes)
    requires Looking(d, p, v) && At(d, p + |v|) == quote && quote != 0 && quote !in v && NoMarkup(v)
    ensures Find(d, p, [quote]) == Some(p + |v|) && p + |v| <= |d| && LESS_THAN !in d[p..p + |v|]
  {
    var e := p + |v|;
    assert d[e..e + 1] == [quote];
    assert Looking(d, e, [quote]);
    forall q: nat | p <= q < e ensures !Looking(d, q, [quote]) {
      LookingAt(d, p, v, q - p);
      LookingNo(d, q, [quote], 0);
    }
  }

  lemma QuotedValue(d: bytes, p: nat, e: nat, v: bytes)
    requires p <= e <= |d| && LESS_THAN !in d[p..e]
    requires if p == e then v == [] else CopyToken(d, p, e - p) == Copied(true, v)
    ensures AttrValue(d, p, e) == Copied(true, v)
  {
    hide CopyToken;
  }

  lemma ValueRead(d: bytes, p: nat, quote: byte, ps: seq<Piece>)
    requires GoodPieces(ps) && Looking(d, p, PiecesText(ps)) && At(d, p + |PiecesText(ps)|) == quote
    requires quote != 0 && quote !in PiecesText(ps)
    ensures var e := p + |PiecesText(ps)|;
            Find(d, p, [quote]) == Some(e) && e <= |d| && AttrValue(d, p, e) == Copied(true, PiecesValue(ps))
  {
    hide CopyToken, GoodPieces, PiecesText, PiecesValue, Looking, AttrValue, Find, At, NoMarkup;
    PiecesClean(ps);
    EndQuote(d, p, quote, PiecesText(ps));
    if ps == [] {
      NoPieces();
    } else {
      TextCopied(d, p, ps);
    }
    QuotedValue(d, p, p + |PiecesText(ps)|, PiecesValue(ps));
  }

  /** The item read for an attribute. */
  function AttrItem(a: Attr): Item {
    var q := SplitName(a.name);
    if a.name != XMLNS && Looking(a.name, 0, XMLNS_COLON) then AttrNode(a, q.prefix, Some(q.localName))
    else AttrNode(a, None, None)
  }

  function AfterAttr(r: Reader, e: nat, a: Ahead): Reader {
    match a
    case Another(_, _) => r.(cur := e)
    case Closing(q) => r.(cur := q + 1, state := InContent)
    case Ending(q) => r.(cur := q)
  }

  /** What is read of an attribute that ends at `e`: it may declare a namespace, or be refused. */
  function AttrGot(r: Reader, a: Attr, e: nat, next: Ahead): Got
    requires r.stack != []
  {
    match XmlNamespace(r.stack, r.need, a.name, a.value)
    case ScopeErr => Bad
    case Scoping(stack, need) => Got(AfterAttr(r.(stack := stack, need := need), e, next), AttrItem(a))
  }

  /** The tokens of an attribute after its name, up to its value. */
  ghost predicate ValueTokens(d: bytes, r: Reader, a: Attr, quote: byte, p: nat, e: nat) {
    && IsName(Utf8.Decode(a.name, 0).value, false)
    && NextToken(d, r.cur).len > 0 && NextToken(d, r.cur).buf == [EQUALS]
    && NextToken(d, NextToken(d, r.cur).cur) == Token(1, [quote], p) && quote in {QUOTE, SINGLE_QUOTE}
    && Find(d, p, [quote]) == Some(e) && p <= e <= |d| && AttrValue(d, p, e) == Copied(true, a.value)
  }

  /** The look at what comes after the value. */
  function AfterValue(r: Reader, ahead: Token, item: Item): Got {
    if ahead.len == 0 || ahead.buf == [LESS_THAN] then Bad
    else if ahead.buf == [GREATER_THAN] then Got(r.(cur := ahead.cur, state := InContent), item)
    else if ahead.buf == COMPLETE_TAG && ahead.cur >= ahead.len then Got(r.(cur := ahead.cur - ahead.len), item)
    else Got(r, item)
  }

  lemma AttributeStep(d: bytes, r: Reader, a: Attr, quote: byte, p: nat, e: nat)
    requires r.stack != [] && ValueTokens(d, r, a, quote, p, e)
    ensures ProcessAttribute(d, r, a.name) ==
            match XmlNamespace(r.stack, r.need, a.name, a.value)
            case ScopeErr => Bad
            case Scoping(stack, need) =>
              AfterValue(r.(cur := e + 1, stack := stack, need := need), NextToken(d, e + 1), AttrItem(a))
  {
    hide NextToken, IsName, Utf8.Decode, SplitName, XmlNamespace, AttrValue, Find;
    assert a == Attr(a.name, a.value);
  }

  lemma AfterValueIs(d: bytes, r: Reader, e: nat, next: Ahead, item: Item)
    requires Follows(d, e, next) && r.cur == e
    ensures AfterValue(r, NextToken(d, e), item) == Got(AfterAttr(r, e, next), item)
  {
    AheadToken(d, e, next);
    hide NextToken, Follows;
  }

  lemma AttributeByTokens(d: bytes, r: Reader, a: Attr, quote: byte, p: nat, e: nat, next: Ahead)
    requires r.stack != [] && ValueTokens(d, r, a, quote, p, e) && Follows(d, e + 1, next)
    ensures ProcessAttribute(d, r, a.name) == AttrGot(r, a, e + 1, next)
  {
    hide ValueTokens, Follows, XmlNamespace, ProcessAttribute, AfterValue, NextToken, AttrItem;
    AttributeStep(d, r, a, quote, p, e);
    var s := XmlNamespace(r.stack, r.need, a.name, a.value);
    if s.Scoping? {
      AfterValueIs(d, r.(cur := e + 1, stack := s.stack, need := s.need), e + 1, next, AttrItem(a));
    }
  }

  /** Where the parts of an attribute stand. */
  lemma AttrParts(d: bytes, p: nat, a: SAttr)
    requires GoodAttr(a) && Looking(d, p, AttrText(a))
    ensures var q := p + |a.gap|;
            var e := q + |a.name|;
            var s := e + |a.before|;
            var u := s + 1 + |a.after|;
            && WhiteFrom(d, p, q) && Looking(d, q, a.name) && WhiteFrom(d, e, s) && At(d, s) == EQUALS
            && WhiteFrom(d, s + 1, u) && At(d, u) == a.quote && Looking(d, u + 1, PiecesText(a.value))
            && At(d, u + 1 + |PiecesText(a.value)|) == a.quote
            && p + |AttrText(a)| == u + 2 + |PiecesText(a.value)|
            && (IsWhite(At(d, e)) || At(d, e) == EQUALS)
  {
    hide Looking, PiecesText, ValidName, GoodPieces;
    var g, n, b, f, v := a.gap, a.name, a.before, a.after, PiecesText(a.value);
    LookingConcat(d, p, g + n + b + [EQUALS] + f + [a.quote] + v, [a.quote]);
    LookingConcat(d, p, g + n + b + [EQUALS] + f + [a.quote], v);
    LookingConcat(d, p, g + n + b + [EQUALS] + f, [a.quote]);
    LookingConcat(d, p, g + n + b + [EQUALS], f);
    LookingConcat(d, p, g + n + b, [EQUALS]);
    LookingConcat(d, p, g + n, b);
    LookingConcat(d, p, g, n);
    var s := p + |g + n + b|;
    LookingAt(d, s, [EQUALS], 0);
    LookingAt(d, s + 1 + |f|, [a.quote], 0);
    LookingAt(d, s + 2 + |f| + |v|, [a.quote], 0);
    WhiteLooking(d, p, g);
    WhiteLooking(d, p + |g + n|, b);
    WhiteLooking(d, s + 1, f);
  }

  lemma WhiteLooking(d: bytes, p: nat, w: bytes)
    requires AllWhite(w) && Looking(d, p, w)
    ensures WhiteFrom(d, p, p + |w|)
  {
    forall i | p <= i < p + |w| ensures IsWhite(At(d, i)) {
      LookingAt(d, p, w, i - p);
    }
  }

  lemma ReadAttr(d: bytes, r: Reader, a: SAttr, next: Ahead)
    requires r.state == InAttribute && r.stack != [] && GoodAttr(a)
    requires Looking(d, r.cur, AttrText(a)) && Follows(d, r.cur + |AttrText(a)|, next)
    ensures GetNextNode(d, r) == AttrGot(r, AttrOf(a), r.cur + |AttrText(a)|, next)
  {
    hide NextToken, IsName, Utf8.Decode, ProcessAttribute, GetNextNode, Looking, ValidName, AttrGot, Follows,
         AttrText, PiecesText, PiecesValue, GoodPieces, WhiteFrom, Find, AttrValue;
    AttrParts(d, r.cur, a);
    var q := r.cur + |a.gap|;
    var e := q + |a.name|;
    var s := e + |a.before|;
    var u := s + 1 + |a.after|;
    NotNameByte(d, e);
    NameToken(d, q, q, a.name) by { WhiteNone(d, q); }
    NameByte(a.name);
    NameWhite(d, q);
    SkipWhiteTo(d, r.cur, q);
    SomethingThere(d, r.cur, q);
    NodeByToken(d, r, Token(|a.name|, a.name, e));
    CharToken(d, e, s);
    CharToken(d, s + 1, u);
    ValueRead(d, u + 1, a.quote, a.value);
    var r1 := r.(cur := e);
    AttributeByTokens(d, r1, AttrOf(a), a.quote, u + 1, u + 1 + |PiecesText(a.value)|, next);
    AttrGotFrom(r, e, AttrOf(a), r.cur + |AttrText(a)|, next);
  }

  lemma WhiteNone(d: bytes, p: nat)
    ensures WhiteFrom(d, p, p)
  {
  }

  lemma AttrGotFrom(r: Reader, cur: nat, a: Attr, e: nat, next: Ahead)
    requires r.stack != []
    ensures AttrGot(r.(cur := cur), a, e, next) == AttrGot(r, a, e, next)
  {
    hide XmlNamespace, AttrItem;
  }

  // ----- end tags

  function CloseText(name: bytes, gap: bytes): bytes {
    END_TAG + name + gap + [GREATER_THAN]
  }

  lemma ETagByTokens(d: bytes, r: Reader, name: bytes, e: nat, q: nat)
    requires name != [] && NextToken(d, r.cur) == Token(|name|, name, e) && SkipWhite(d, e) == q
    requires NextToken(d, q) == Token(1, [GREATER_THAN], q + 1)
    ensures ProcessETag(d, r) == Got(r.(cur := q + 1), EndTag(name))
  {
    hide NextToken, SkipWhite;
  }

  lemma CloseParts(d: bytes, p: nat, name: bytes, gap: bytes)
    requires AllWhite(gap) && Looking(d, p, CloseText(name, gap))
    ensures var e := p + 2 + |name|;
            && Looking(d, p, END_TAG) && Looking(d, p + 2, name) && WhiteFrom(d, e, e + |gap|)
            && At(d, e + |gap|) == GREATER_THAN && At(d, p) == LESS_THAN && At(d, p + 1) == SLASH
            && p + |CloseText(name, gap)| == e + |gap| + 1
            && (IsWhite(At(d, e)) || At(d, e) == GREATER_THAN)
  {
    hide Looking;
    LookingConcat(d, p, END_TAG + name + gap, [GREATER_THAN]);
    LookingConcat(d, p, END_TAG + name, gap);
    LookingConcat(d, p, END_TAG, name);
    LookingAt(d, p + 2 + |name| + |gap|, [GREATER_THAN], 0);
    LookingAt(d, p, END_TAG, 0);
    LookingAt(d, p, END_TAG, 1);
    WhiteLooking(d, p + 2 + |name|, gap);
  }

  lemma ReadEnd(d: bytes, r: Reader, name: bytes, gap: bytes)
    requires r.state != InContent && ValidName(name) && AllWhite(gap) && Looking(d, r.cur, CloseText(name, gap))
    ensures GetNextNode(d, r) == Got(r.(cur := r.cur + |CloseText(name, gap)|), EndTag(name))
  {
    hide NextToken, IsName, Utf8.Decode, GetNextNode, ProcessETag, Looking, ValidName, AllWhite, CloseText;
    var p := r.cur;
    CloseParts(d, p, name, gap);
    var e := p + 2 + |name|;
    EndToken(d, p);
    SkipWhiteTo(d, p, p);
    NotNameByte(d, e);
    NameToken(d, p + 2, p + 2, name);
    SkipWhiteTo(d, e, e + |gap|);
    CharToken(d, e + |gap|, e + |gap|);
    NodeByToken(d, r, Token(2, END_TAG, p + 2));
    ETagByTokens(d, r.(cur := p + 2), name, e, e + |gap|);
  }

  // ----- content

  lemma WhiteThenLess(d: bytes, p: nat, q: nat)
    requires WhiteFrom(d, p, q) && At(d, q) == LESS_THAN
    ensures SkipWhite(d, p) == q && At(d, p) != 0
  {
    SkipWhiteTo(d, p, q);
    hide SkipWhite;
  }

  /** White space, then markup that is neither a comment, a CDATA section nor an instruction. */
  lemma ReadToMarkup(d: bytes, r: Reader, q: nat)
    requires r.state == InContent && WhiteFrom(d, r.cur, q)
    requires At(d, q) == LESS_THAN && At(d, q + 1) != 0x21 && At(d, q + 1) != 0x3F
    ensures GetNextNode(d, r) == Got(r.(cur := q, state := InElement), NoNode)
  {
    WhiteThenLess(d, r.cur, q);
    LookingNo(d, q, CD_START, 1);
    LookingNo(d, q, BEGIN_COMMENT, 1);
    LookingNo(d, q, BEGIN_PI, 1);
    hide SkipWhite, Looking, CDataEnd, ProcessCDSect, SkipComment, SkipPI, TextEnd, CopyToken;
  }

  /** The first occurrence is what a search finds. */
  lemma FindAt(d: bytes, p: nat, q: nat, key: bytes)
    requires p <= q && Looking(d, q, key) && forall i: nat | p <= i < q :: !Looking(d, i, key)
    ensures Find(d, p, key) == Some(q)
  {
    hide Looking;
  }

  /** An occurrence inside a stretch of the buffer is one in the stretch. */
  lemma LookingInside(d: bytes, p: nat, x: bytes, i: nat, key: bytes)
    requires Looking(d, p, x) && i + |key| <= |x|
    ensures Looking(d, p + i, key) <==> Looking(x, i, key)
  {
    var a, b := d[p + i..p + i + |key|], x[i..i + |key|];
    forall k | 0 <= k < |key| ensures a[k] == b[k] {
      LookingAt(d, p, x, i + k);
    }
  }

  lemma CommentSkipped(d: bytes, q: nat, v: bytes)
    requires GoodComment(v) && Looking(d, q, CommentText(v))
    ensures SkipComment(d, q) == Skip(true, q + |CommentText(v)|)
  {
    var x := CommentText(v);
    var n := 4 + |v|;
    forall i: nat | q <= i < q + n ensures !Looking(d, i, END_COMMENT) {
      LookingInside(d, q, x, i - q, END_COMMENT);
    }
    assert x[n..n + 3] == END_COMMENT;
    LookingInside(d, q, x, n, END_COMMENT);
    FindAt(d, q, q + n, END_COMMENT);
    LookingAt(d, q, x, n - 1);
    assert x[n - 1] == v[|v| - 1];
    hide Find;
  }

  lemma CommentStarts(d: bytes, q: nat, v: bytes)
    requires Looking(d, q, CommentText(v))
    ensures At(d, q) == LESS_THAN && At(d, q + 1) == 0x21 && Looking(d, q, BEGIN_COMMENT) && !Looking(d, q, CD_START)
    ensures LookingNoCase(d, q, BEGIN_COMMENT)
  {
    LookingConcat(d, q, BEGIN_COMMENT + v, END_COMMENT);
    LookingConcat(d, q, BEGIN_COMMENT, v);
    LookingAt(d, q, BEGIN_COMMENT, 0);
    LookingAt(d, q, BEGIN_COMMENT, 1);
    LookingAt(d, q, BEGIN_COMMENT, 2);
    LookingNo(d, q, CD_START, 2);
    LookingNoCaseSame(d, q, BEGIN_COMMENT);
  }

  lemma ReadComment(d: bytes, r: Reader, q: nat, v: bytes)
    requires r.state == InContent && WhiteFrom(d, r.cur, q) && GoodComment(v) && Looking(d, q, CommentText(v))
    ensures GetNextNode(d, r) == Got(r.(cur := q + |CommentText(v)|), NoNode)
  {
    CommentSkipped(d, q, v);
    CommentStarts(d, q, v);
    WhiteThenLess(d, r.cur, q);
    hide SkipWhite, Looking, ProcessCDSect, SkipComment, SkipPI, TextEnd, CopyToken, CommentText, GoodComment;
  }

  lemma InstructionFound(d: bytes, q: nat, v: bytes)
    requires GoodInstruction(v) && Looking(d, q, InstructionText(v))
    ensures Find(d, q, END_PI) == Some(q + 2 + |v|) && |InstructionText(v)| == |v| + 4
  {
    var x := InstructionText(v);
    var n := 2 + |v|;
    forall i: nat | q <= i < q + n ensures !Looking(d, i, END_PI) {
      LookingInside(d, q, x, i - q, END_PI);
    }
    assert x[n..n + 2] == END_PI;
    LookingInside(d, q, x, n, END_PI);
    FindAt(d, q, q + n, END_PI);
  }

  lemma InstructionStarts(d: bytes, q: nat, v: bytes)
    requires GoodInstruction(v) && Looking(d, q, InstructionText(v))
    ensures At(d, q) == LESS_THAN && At(d, q + 1) == 0x3F && Looking(d, q, BEGIN_PI) && LookingNoCase(d, q, BEGIN_PI)
    ensures !Looking(d, q, CD_START) && !LookingNoCase(d, q, BEGIN_COMMENT) && !Looking(d, q, BEGIN_COMMENT)
  {
    LookingConcat(d, q, BEGIN_PI + v, END_PI);
    LookingConcat(d, q, BEGIN_PI, v);
    LookingAt(d, q, BEGIN_PI, 0);
    LookingAt(d, q, BEGIN_PI, 1);
    LookingNo(d, q, CD_START, 1);
    LookingNo(d, q, BEGIN_COMMENT, 1);
    LookingNoCaseNo(d, q, BEGIN_COMMENT, 1);
    LookingNoCaseSame(d, q, BEGIN_PI);
  }

  /** An instruction does not look like an XML declaration; a declaration might only reach past its end. */
  lemma NoDeclaration(d: bytes, q: nat, v: bytes, decl: bytes)
    requires Looking(d, q, InstructionText(v)) && !LookingNoCase(InstructionText(v), 0, decl)
    requires decl in {XML_DECL, XML_DECL2}
    ensures !LookingNoCase(d, q, decl)
  {
    var x := InstructionText(v);
    if |x| < |decl| {
      LookingAt(d, q, x, |v| + 2);
      LookingNoCaseNo(d, q, decl, |v| + 2);
    } else {
      forall i | 0 <= i < |x| ensures d[q + i] == x[i] {
        LookingAt(d, q, x, i);
      }
    }
  }

  lemma ReadInstruction(d: bytes, r: Reader, q: nat, v: bytes)
    requires r.state == InContent && WhiteFrom(d, r.cur, q) && GoodInstruction(v) && Looking(d, q, InstructionText(v))
    ensures GetNextNode(d, r) == Got(r.(cur := q + |InstructionText(v)|), NoNode)
  {
    InstructionFound(d, q, v);
    InstructionStarts(d, q, v);
    NoDeclaration(d, q, v, XML_DECL);
    NoDeclaration(d, q, v, XML_DECL2);
    WhiteThenLess(d, r.cur, q);
    hide SkipWhite, Looking, LookingNoCase, ProcessCDSect, SkipComment, Find, TextEnd, CopyToken, InstructionText,
         GoodInstruction;
  }

  lemma {:induction false} TextEndTo(d: bytes, p: nat, e: nat)
    requires p <= e && At(d, e) in {0, LESS_THAN} && !Looking(d, e, CD_END)
    requires forall i | p <= i < e :: At(d, i) !in {0, LESS_THAN} && !Looking(d, i, CD_END)
    ensures TextEnd(d, p) == e
    decreases e - p
  {
    hide Looking;
    if p < e {
      assert At(d, p) !in {0, LESS_THAN};
      TextEndTo(d, p + 1, e);
    }
  }

  /** No "]]>" begins in a text that has none, since it ends with '<' or the buffer. */
  lemma NoEndHere(d: bytes, p: nat, x: bytes, i: nat)
    requires Looking(d, p, x) && NoSectionEnd(x) && i < |x| && At(d, p + |x|) in {0, LESS_THAN}
    ensures !Looking(d, p + i, CD_END)
  {
    if i + 3 <= |x| {
      LookingInside(d, p, x, i, CD_END);
    } else {
      LookingNo(d, p + i, CD_END, |x| - i);
    }
  }

  /** The scan of a text without the bytes that end one: past its white space, and to its end. */
  lemma CleanScan(d: bytes, p: nat, x: bytes)
    requires NoMarkup(x) && NoSectionEnd(x) && !AllWhite(x) && Looking(d, p, x) && At(d, p + |x|) in {0, LESS_THAN}
    ensures At(d, SkipWhite(d, p)) !in {0, LESS_THAN} && At(d, p) != 0
    ensures TextEnd(d, p) == p + |x| && !Looking(d, p + |x|, CD_END)
  {
    hide SkipWhite, TextEnd, Looking, NoSectionEnd;
    var k :| 0 <= k < |x| && !IsWhite(x[k]);
    forall i | p <= i < p + |x| ensures At(d, i) == x[i - p] && !Looking(d, i, CD_END) {
      LookingAt(d, p, x, i - p);
      NoEndHere(d, p, x, i - p);
    }
    hide IsWhite;
    var q := SkipWhite(d, p);
    assert At(d, p + k) == x[k];
    assert q <= p + k;
    assert At(d, q) == x[q - p];
    assert At(d, p) == x[0];
    LookingNo(d, p + |x|, CD_END, 0);
    TextEndTo(d, p, p + |x|);
  }

  lemma TextRead(d: bytes, r: Reader, v: bytes, e: nat)
    requires r.state == InContent && At(d, r.cur) != 0 && At(d, SkipWhite(d, r.cur)) !in {0, LESS_THAN}
    requires TextEnd(d, r.cur) == e >= r.cur && !Looking(d, e, CD_END)
             && CopyToken(d, r.cur, e - r.cur) == Copied(true, v)
    ensures GetNextNode(d, r) == Got(r.(cur := e), TextNode(v))
  {
    hide CopyToken, Looking, ProcessCDSect, SkipComment, SkipPI, TextEnd, SkipWhite, At;
  }

  lemma ReadText(d: bytes, r: Reader, ps: seq<Piece>)
    requires r.state == InContent && ps != [] && GoodPieces(ps) && NoSectionEnd(PiecesText(ps))
    requires !AllWhite(PiecesText(ps))
    requires Looking(d, r.cur, PiecesText(ps)) && At(d, r.cur + |PiecesText(ps)|) in {0, LESS_THAN}
    ensures GetNextNode(d, r) == Got(r.(cur := r.cur + |PiecesText(ps)|), TextNode(PiecesValue(ps)))
  {
    hide PiecesText, PiecesValue, GoodPieces, NoMarkup, AllWhite, Looking, SkipWhite, TextEnd, CopyToken, GetNextNode,
         At, NoSectionEnd;
    PiecesClean(ps);
    CleanScan(d, r.cur, PiecesText(ps));
    TextCopied(d, r.cur, ps);
    TextRead(d, r, PiecesValue(ps), r.cur + |PiecesText(ps)|);
  }

  lemma NoEndInside(d: bytes, p: nat, v: bytes, k: nat)
    requires ValidCData(v) && k < |v| && Looking(d, p, v) && Looking(d, p + |v|, CD_END)
    ensures !Looking(d, p + k, CD_END)
  {
    if k + 2 < |v| {
      assert !Looking(v, k, CD_END);
      var j := if v[k] != CD_END[0] then 0 else if v[k + 1] != CD_END[1] then 1 else 2;
      assert v[k..k + 3] == [v[k], v[k + 1], v[k + 2]];
      assert v[k + j] != CD_END[j];
      LookingAt(d, p, v, k + j);
      LookingNo(d, p + k, CD_END, j);
    } else {
      LookingAt(d, p + |v|, CD_END, k + 2 - |v|);
      LookingNo(d, p + k, CD_END, 2);
    }
  }

  lemma {:induction false} CDataEndTo(d: bytes, p: nat, v: bytes, k: nat)
    requires ValidCData(v) && k <= |v| && Looking(d, p, v) && Looking(d, p + |v|, CD_END)
    ensures CDataEnd(d, p + k) == p + |v|
    decreases |v| - k
  {
    hide Looking;
    if k < |v| {
      LookingAt(d, p, v, k);
      NoEndInside(d, p, v, k);
      CDataEndTo(d, p, v, k + 1);
    }
  }

  lemma CDSectByScan(d: bytes, r: Reader, q: nat, e: nat)
    requires r.state == InContent && SkipWhite(d, r.cur) == q && At(d, r.cur) != 0
    requires Looking(d, q, CD_START) && CDataEnd(d, q + 9) == e > q + 9 && At(d, e) != 0
    ensures GetNextNode(d, r) == Got(r.(cur := e + 3), CDataNode(d[q + 9..e]))
  {
    LookingAt(d, q, CD_START, 0);
    hide CDataEnd, SkipComment, SkipPI, CopyToken, Looking, SkipWhite, NextToken, ProcessSTag, ProcessETag,
         ProcessAttribute, TextEnd, At;
  }

  lemma CDataParts(d: bytes, q: nat, v: bytes)
    requires Looking(d, q, CD_START + v + CD_END)
    ensures Looking(d, q, CD_START) && Looking(d, q + 9, v) && Looking(d, q + 9 + |v|, CD_END)
    ensures q + 9 + |v| <= |d| && d[q + 9..q + 9 + |v|] == v && |CD_START + v + CD_END| == |v| + 12
  {
    LookingConcat(d, q, CD_START + v, CD_END);
    LookingConcat(d, q, CD_START, v);
  }

  lemma CDataSome(v: bytes)
    requires ValidCData(v)
    ensures v != []
  {
  }

  lemma ReadCData(d: bytes, r: Reader, q: nat, v: bytes)
    requires r.state == InContent && WhiteFrom(d, r.cur, q) && ValidCData(v)
    requires Looking(d, q, CD_START + v + CD_END)
    ensures GetNextNode(d, r) == Got(r.(cur := q + |CD_START + v + CD_END|), CDataNode(v))
  {
    hide CDataEnd, GetNextNode, Looking, WhiteFrom, SkipWhite, ValidCData, At;
    CDataParts(d, q, v);
    LookingAt(d, q, CD_START, 0);
    LookingAt(d, q + 9 + |v|, CD_END, 0);
    WhiteThenLess(d, r.cur, q);
    CDataSome(v);
    CDataEndTo(d, q + 9, v, 0);
    CDSectByScan(d, r, q, q + 9 + |v|);
  }
}
