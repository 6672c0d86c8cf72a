/** Parsing what was printed: the printer's text is one spelling of what printing preserves. */
module RoundTrip {
  import opened Bytes
  import opened NameTables
  import opened Lexer
  import opened Xml
  import opened Machine
  import opened Parse
  import opened Printing
  import opened Escaping
  import opened Reading
  import opened Spelling
  import opened NodeReading
  import opened SpelledParsing
  import opened SpelledDocuments
  import opened Validity
  import opened MachineProperties
  import opened Waiting
  import Utf8

  // ----- characters

  lemma WhiteConcat(a: bytes, b: bytes)
    ensures AllWhite(a + b) <==> AllWhite(a) && AllWhite(b)
  {
    if AllWhite(a + b) {
      assert forall i | 0 <= i < |a| :: a[i] == (a + b)[i];
      assert forall i | 0 <= i < |b| :: b[i] == (a + b)[|a| + i];
    }
  }

  lemma WhiteLast(s: bytes)
    requires s != []
    ensures AllWhite(s) <==> AllWhite(s[..|s| - 1]) && IsWhite(s[|s| - 1])
    ensures s == s[..|s| - 1] + [s[|s| - 1]]
  {
    var n := |s| - 1;
    assert s == s[..n] + [s[n]];
    WhiteConcat(s[..n], [s[n]]);
    hide AllWhite;
    WhiteOne(s[n]);
  }

  lemma WhiteOne(b: byte)
    ensures AllWhite([b]) <==> IsWhite(b)
  {
    assert [b][0] == b;
  }

  /** White space is printed as it stands; anything else leaves something that is not white. */
  lemma {:induction false} EscapeWhite(s: bytes)
    ensures AllWhite(s) ==> Escape(s) == s
    ensures !AllWhite(s) ==> !AllWhite(Escape(s))
  {
    if s == [] {
      EscapeEmpty();
    } else {
      hide Escape, EscapeByte, AllWhite, IsWhite;
      var n := |s| - 1;
      EscapeWhite(s[..n]);
      EscapeOnce(s);
      WhiteLast(s);
      EscapeByteWhite(s[n]);
      WhiteConcat(Escape(s[..n]), EscapeByte(s[n]));
    }
  }

  lemma EscapeByteWhite(b: byte)
    ensures IsWhite(b) ==> EscapeByte(b) == [b]
    ensures !IsWhite(b) ==> !AllWhite(EscapeByte(b))
  {
    assert !IsWhite(b) ==> !IsWhite(EscapeByte(b)[0]);
  }

  /** A character as the printer writes it. */
  function PieceFor(c: int): Piece {
    if c in {LESS_THAN, GREATER_THAN, AMPERSAND, SINGLE_QUOTE, QUOTE} then Named(c) else Plain(c)
  }

  function PiecesFor(cs: seq<int>): seq<Piece> {
    seq(|cs|, i requires 0 <= i < |cs| => PieceFor(cs[i]))
  }

  ghost function CharsOf(v: bytes): (cs: seq<int>)
    ensures WellFormed(v) ==> XmlChars(cs) && Utf8.EncodeAll(cs) == v
  {
    if WellFormed(v) then
      var cs: seq<int> :| XmlChars(cs) && v == Utf8.EncodeAll(cs);
      cs
    else []
  }

  lemma PieceForText(c: int)
    requires IsXmlChar(c)
    ensures PieceText(PieceFor(c)) == EscapeChar(c) && GoodPiece(PieceFor(c)) && CharOf(PieceFor(c)) == c
  {
    EncodeBytes(c);
    hide Utf8.Encode;
  }

  lemma {:induction false} PiecesForText(cs: seq<int>)
    requires XmlChars(cs)
    ensures PiecesText(PiecesFor(cs)) == Escape(Utf8.EncodeAll(cs)) && GoodPieces(PiecesFor(cs))
    ensures Characters(PiecesFor(cs)) == cs && PiecesValue(PiecesFor(cs)) == Utf8.EncodeAll(cs)
  {
    hide PieceText, PieceFor, GoodPiece, CharOf, Escape, Utf8.Encode, EscapeChar, IsXmlChar;
    forall i | 0 <= i < |cs| ensures GoodPiece(PieceFor(cs[i])) && CharOf(PieceFor(cs[i])) == cs[i] {
      PieceForText(cs[i]);
    }
    if cs == [] {
      EscapeEmpty();
    } else {
      var ps := PiecesFor(cs);
      PieceForText(cs[0]);
      EscapeEncodeAll(cs);
      assert ps[1..] == PiecesFor(cs[1..]);
      PiecesForText(cs[1..]);
    }
  }

  /** A text as the printer writes it. */
  ghost function TextFor(v: bytes): seq<Piece> {
    PiecesFor(CharsOf(v))
  }

  lemma TextForIs(v: bytes)
    requires WellFormed(v)
    ensures var ps := TextFor(v);
            && PiecesText(ps) == Escape(v) && GoodPieces(ps) && PiecesValue(ps) == v
            && NoSectionEnd(Escape(v)) && QUOTE !in Escape(v) && (v != [] ==> ps != [])
  {
    hide PiecesText, GoodPieces, PiecesValue, Escape, PiecesFor;
    PiecesForText(CharsOf(v));
    EscapeIsClean(v);
    if TextFor(v) == [] {
      NoPieces();
    }
  }

  // ----- tags

  ghost function AttrFor(a: Attr): SAttr {
    SAttr([SPACE], a.name, [], [], QUOTE, TextFor(a.value))
  }

  ghost function AttrsFor(attrs: seq<Attr>): seq<SAttr> {
    seq(|attrs|, i requires 0 <= i < |attrs| => AttrFor(attrs[i]))
  }

  lemma AttrForIs(a: Attr)
    requires ValidAttr(a)
    ensures AttrText(AttrFor(a)) == [SPACE] + PrintAttr(a) && GoodAttr(AttrFor(a)) && AttrOf(AttrFor(a)) == a
  {
    hide PiecesText, PiecesValue, GoodPieces, Escape, TextFor, ValidName, WellFormed;
    TextForIs(a.value);
    var g, n, e, q, v := [SPACE], a.name, [EQUALS], [QUOTE], Escape(a.value);
    assert g + n + [] + e + [] + q + v + q == g + (n + [EQUALS, QUOTE] + v + q);
  }

  lemma AttrsForAre(attrs: seq<Attr>)
    requires forall i | 0 <= i < |attrs| :: ValidAttr(attrs[i])
    ensures AttrsOf(AttrsFor(attrs)) == attrs && forall i | 0 <= i < |attrs| :: GoodAttr(AttrsFor(attrs)[i])
  {
    hide AttrText, PrintAttr, ValidAttr, GoodAttr, AttrFor, AttrOf;
    forall i | 0 <= i < |attrs| ensures GoodAttr(AttrFor(attrs[i])) && AttrOf(AttrFor(attrs[i])) == attrs[i] {
      AttrForIs(attrs[i]);
    }
  }

  lemma AttrsForSplit(attrs: seq<Attr>)
    requires attrs != []
    ensures AttrsText(AttrsFor(attrs)) == AttrText(AttrFor(attrs[0])) + AttrsText(AttrsFor(attrs[1..]))
  {
    hide AttrText, AttrFor;
    assert AttrsFor(attrs)[1..] == AttrsFor(attrs[1..]);
  }

  lemma PrintAttrsSplit(attrs: seq<Attr>)
    requires attrs != []
    ensures PrintAttrs(attrs) ==
            PrintAttr(attrs[0]) + if attrs[1..] == [] then [] else [SPACE] + PrintAttrs(attrs[1..])
  {
    hide PrintAttr;
  }

  lemma {:induction false} AttrsForText(attrs: seq<Attr>)
    requires forall i | 0 <= i < |attrs| :: ValidAttr(attrs[i])
    ensures AttrsText(AttrsFor(attrs)) == if attrs == [] then [] else [SPACE] + PrintAttrs(attrs)
    decreases |attrs|
  {
    if attrs != [] {
      hide AttrText, PrintAttr, ValidAttr, AttrFor, AttrsFor, AttrsText, PrintAttrs;
      AttrForIs(attrs[0]);
      AttrsForSplit(attrs);
      PrintAttrsSplit(attrs);
      AttrsForText(attrs[1..]);
      Assoc([SPACE], PrintAttr(attrs[0]), AttrsText(AttrsFor(attrs[1..])));
    }
  }

  // ----- content

  const LINE_END: Markup := Chars([Plain(0x0D), Plain(0x0A)])

  function Gap(g: bytes): seq<Markup> {
    if g == [] then [] else [LINE_END]
  }

  lemma LineEnd()
    ensures PiecesText(LINE_END.pieces) == NEWLINE && Blank(LINE_END) && Good(LINE_END)
    ensures Written(LINE_END) == NEWLINE && Meaning(LINE_END) == []
  {
    var ps := LINE_END.pieces;
    assert Utf8.Encode(0x0D) == [0x0D] && Utf8.Encode(0x0A) == [0x0A];
    hide Utf8.Encode;
    assert ps[1..] == [Plain(0x0A)] && ps[1..][1..] == [];
    assert PiecesText(ps[1..]) == [0x0A];
    assert PiecesText(ps) == NEWLINE;
    forall i: nat | i < 2 ensures !Looking(NEWLINE, i, CD_END) {
      LookingNo(NEWLINE, i, CD_END, 0);
    }
  }

  lemma GapIs(g: bytes)
    requires g == [] || g == NEWLINE
    ensures WrittenAll(Gap(g)) == g && Meanings(Gap(g)) == [] && Goods(Gap(g))
  {
    LineEnd();
    hide Written, Meaning, Good;
    if g != [] {
      assert Gap(g)[1..] == [];
      WrittenNone();
    } else {
      WrittenNone();
    }
  }

  /** What the printer writes of a child list, as markup. */
  ghost function Printed(kids: seq<Tree>): seq<Markup>
    decreases kids, 0
  {
    if kids == [] then []
    else
      match kids[0]
      case Text(v) => if v == [] then [] else [Chars(TextFor(v))]
      case CData(v) => [Section(v)]
      case Element(name, attrs, inner) =>
        [ElementFor(name, attrs, inner)] + (Gap(NextGap(kids[1..])) + Printed(kids[1..]))
  }

  ghost function ElementFor(name: bytes, attrs: seq<Attr>, inner: seq<Tree>): Markup
    decreases inner, 1
  {
    Elem(name, AttrsFor(attrs), [], Full(Gap(FirstGap(inner)) + Printed(inner), []))
  }

  lemma {:induction false} WrittenConcat(a: seq<Markup>, b: seq<Markup>)
    ensures WrittenAll(a + b) == WrittenAll(a) + WrittenAll(b) && Meanings(a + b) == Meanings(a) + Meanings(b)
    decreases |a|
  {
    hide Written, Meaning;
    if a == [] {
      ConcatNone(b);
    } else {
      ConcatFirst(a, b);
      WrittenConcat(a[1..], b);
      Assoc(Written(a[0]), WrittenAll(a[1..]), WrittenAll(b));
      Assoc(Meaning(a[0]), Meanings(a[1..]), Meanings(b));
    }
  }

  lemma GapBefore(g: bytes, ms: seq<Markup>)
    requires (g == [] || g == NEWLINE) && Goods(ms) && (g != [] && ms != [] ==> !ms[0].Chars?)
    ensures var all := Gap(g) + ms;
            && WrittenAll(all) == g + WrittenAll(ms) && Meanings(all) == Meanings(ms) && Goods(all)
  {
    LineEnd();
    GapIs(g);
    WrittenConcat(Gap(g), ms);
    ConcatNone(Meanings(ms));
    hide Written, Meaning, Good, WrittenAll, Meanings;
    if g == [] {
      assert [] + ms == ms;
    } else {
      assert (Gap(g) + ms)[1..] == ms;
    }
  }

  /** The printed text of a child list is a spelling of what printing preserves of it. */
  lemma {:induction false} PrintedIs(kids: seq<Tree>)
    requires Valid(kids)
    ensures WrittenAll(Printed(kids)) == PrintKids(kids) && Meanings(Printed(kids)) == Normal(kids)
    ensures Goods(Printed(kids)) && (Printed(kids) != [] && Printed(kids)[0].Chars? ==> kids != [] && kids[0].Text?)
    decreases kids, 1
  {
    hide Escape, WellFormed, ValidCData, TextFor, ElementFor, Written, Meaning, Good, AllWhite, PiecesText, PiecesValue;
    if kids == [] {
      WrittenNone();
    } else {
      match kids[0]
      case Text(v) =>
        if v == [] {
          EscapeEmpty();
          WrittenNone();
          NothingWhite();
        } else {
          OneText(v);
          OneMarkup(Chars(TextFor(v)));
        }
      case CData(v) =>
        OneSection(v);
        OneMarkup(Section(v));
      case Element(name, attrs, inner) => PrintedElement(kids);
    }
  }

  lemma NothingWhite()
    ensures AllWhite([])
  {
  }

  lemma OneMarkup(x: Markup)
    ensures WrittenAll([x]) == Written(x) && Meanings([x]) == Meaning(x) && (Good(x) ==> Goods([x]))
  {
    hide Written, Meaning, Good;
    assert [x][1..] == [];
    ConcatNone(Written(x));
    ConcatNone(Meaning(x));
  }

  lemma OneText(v: bytes)
    requires WellFormed(v) && v != []
    ensures var x := Chars(TextFor(v));
            Good(x) && Written(x) == Escape(v) && Meaning(x) == if AllWhite(v) then [] else [Text(v)]
  {
    hide PiecesText, PiecesValue, GoodPieces, Escape, AllWhite, NoSectionEnd, TextFor, WellFormed;
    TextForIs(v);
    EscapeWhite(v);
  }

  lemma OneSection(v: bytes)
    requires ValidCData(v)
    ensures Good(Section(v)) && Written(Section(v)) == CD_START + v + CD_END && Meaning(Section(v)) == [CData(v)]
  {
  }

  lemma ValidFirst(kids: seq<Tree>)
    requires kids != [] && kids[0].Element? && Valid(kids)
    ensures ValidTag(kids[0].name, kids[0].attrs) && Valid(kids[0].kids) && Valid(kids[1..])
  {
    hide ValidTag;
  }

  lemma {:induction false} PrintedElement(kids: seq<Tree>)
    requires Valid(kids) && kids != [] && kids[0].Element?
    ensures WrittenAll(Printed(kids)) == PrintKids(kids) && Meanings(Printed(kids)) == Normal(kids)
    ensures Goods(Printed(kids)) && Printed(kids) != [] && !Printed(kids)[0].Chars?
    decreases kids, 0
  {
    hide Valid, ValidTag, Printed, ElementFor, Written, Meaning, Good, Goods, WrittenAll, Meanings, PrintKids, Normal,
         OpenTag, CloseTag;
    ValidFirst(kids);
    var name, attrs, inner, rest := kids[0].name, kids[0].attrs, kids[0].kids, kids[1..];
    var x, g := ElementFor(name, attrs, inner), NextGap(rest);
    PrintedIs(rest);
    ElementIs(name, attrs, inner);
    GapBefore(g, Printed(rest));
    var more := Gap(g) + Printed(rest);
    PrintedSplit(kids);
    ConcatFirst([x], more);
    WrittenStep([x] + more);
    GoodsCons(x, more);
    var o, f, k, c := OpenTag(name, attrs), FirstGap(inner), PrintKids(inner), CloseTag(name);
    assert o + f + k + c + g + PrintKids(rest) == (o + f + k + c) + (g + PrintKids(rest));
  }

  lemma GoodsCons(x: Markup, ms: seq<Markup>)
    requires Good(x) && Goods(ms) && !x.Chars?
    ensures Goods([x] + ms)
  {
    hide Good;
    ConcatFirst([x], ms);
    assert [x][1..] + ms == ms;
  }

  lemma PrintedSplit(kids: seq<Tree>)
    requires kids != [] && kids[0].Element?
    ensures var name, attrs, inner, rest := kids[0].name, kids[0].attrs, kids[0].kids, kids[1..];
            && Printed(kids) == [ElementFor(name, attrs, inner)] + (Gap(NextGap(rest)) + Printed(rest))
            && PrintKids(kids) == OpenTag(name, attrs) + FirstGap(inner) + PrintKids(inner) + CloseTag(name)
                                  + NextGap(rest) + PrintKids(rest)
            && Normal(kids) == [Element(name, attrs, Normal(inner))] + Normal(rest)
  {
    hide ElementFor, OpenTag, CloseTag;
  }

  lemma {:induction false} ElementIs(name: bytes, attrs: seq<Attr>, inner: seq<Tree>)
    requires ValidTag(name, attrs) && Valid(inner)
    ensures var x := ElementFor(name, attrs, inner);
            && x.Elem? && Good(x) && Meaning(x) == [Element(name, attrs, Normal(inner))]
            && Written(x) == OpenTag(name, attrs) + FirstGap(inner) + PrintKids(inner) + CloseTag(name)
    decreases inner, 2
  {
    hide Valid, ValidAttr, Printed, Goods, WrittenAll, Meanings, PrintKids, Normal, AttrsText, AttrsOf, AttrsFor,
         GoodAttr, DistinctNames, ValidName;
    PrintedIs(inner);
    AttrsForText(attrs);
    AttrsForAre(attrs);
    GapBefore(FirstGap(inner), Printed(inner));
    var t, w := AttrsText(AttrsFor(attrs)), FirstGap(inner) + PrintKids(inner);
    TagText(name, t, w, FirstGap(inner), PrintKids(inner), END_TAG + name + [GREATER_THAN]);
    AttrsForLength(attrs);
    assert END_TAG + name + [] + [GREATER_THAN] == END_TAG + name + [GREATER_THAN];
  }

  lemma AttrsForLength(attrs: seq<Attr>)
    ensures |AttrsFor(attrs)| == |attrs|
  {
  }

  lemma TagText(name: bytes, t: bytes, w: bytes, f: bytes, k: bytes, c: bytes)
    requires w == f + k
    ensures [LESS_THAN] + name + t + [] + ([GREATER_THAN] + w + c) ==
            ([LESS_THAN] + name + t + [GREATER_THAN]) + f + k + c
  {
  }

  // ----- documents

  const VERSION: bytes := HEADER[6..19]

  function HeaderPrologue(): Prologue {
    Prologue(false, [], Some(VERSION), [LINE_END], None, [])
  }

  lemma VersionGood()
    ensures GoodDecl(VERSION) && DeclText(VERSION) == HEADER[..21]
  {
    var x := DeclText(VERSION);
    assert x == HEADER[..21];
    forall i: nat | i < 19 ensures !Looking(x, i, END_PI) {
      assert x[i] == HEADER[i] && x[i + 1] == HEADER[i + 1];
      LookingNo(x, i, END_PI, if i == 1 then 1 else 0);
    }
  }

  lemma HeaderIs()
    ensures PrologueText(HeaderPrologue()) == HEADER && GoodPrologue(HeaderPrologue())
  {
    VersionGood();
    LineEnd();
    GapIs(NEWLINE);
    hide Written, Meaning, Good, PiecesText, WrittenAll, GoodDecl, DeclText, Blank;
    WrittenNone();
    NothingWhite();
    assert Goods([]);
    assert HEADER[..21] + NEWLINE == HEADER;
    assert [] + [] + HEADER[..21] + NEWLINE + [] + [] == HEADER[..21] + NEWLINE;
  }

  /** What the parser makes of a printed document. */
  ghost function Reread(roots: seq<Tree>): Outcome {
    if roots != [] && !Served(Normal([roots[0]])) then Rejected(Failed)
    else if |roots| <= 1 then Parsed(Normal(roots))
    else Rejected(SyntaxErr)
  }

  /**
   Parsing a printed document yields what printing preserves of it, if it has at most one top-level
   element; an attribute that is refused while an element waits for its namespace, and a second
   top-level element, are errors.
   */
  lemma ParsePrinted(roots: seq<Tree>)
    requires Valid(roots) && forall i | 0 <= i < |roots| :: roots[i].Element?
    ensures ParseDocument(PrintDocument(roots)) == Reread(roots)
  {
    hide ParseDocument, Valid, PrintKids, Normal, Reread, PrologueText, GoodPrologue;
    HeaderIs();
    if roots == [] {
      NoRoots();
      PrologueAlone(HeaderPrologue());
      assert HEADER + [] == HEADER;
    } else {
      PrintedDocument(roots);
    }
  }

  lemma NoRoots()
    ensures PrintKids([]) == [] && Normal([]) == [] && Reread([]) == Parsed([])
  {
  }

  lemma PrintedDocument(roots: seq<Tree>)
    requires Valid(roots) && roots != [] && forall i | 0 <= i < |roots| :: roots[i].Element?
    ensures ParseDocument(PrintDocument(roots)) == Reread(roots)
  {
    hide ParseDocument, Valid, ValidTag, PrintKids, Normal, PrologueText, GoodPrologue, Printed, ElementFor, Served,
         Good, Goods, Written, WrittenAll, Meaning, Meanings, OpenTag, CloseTag, Refusal;
    HeaderIs();
    ValidFirst(roots);
    var name, attrs, inner, rest := roots[0].name, roots[0].attrs, roots[0].kids, roots[1..];
    var root := ElementFor(name, attrs, inner);
    var tail := Gap(NextGap(rest)) + Printed(rest);
    ElementIs(name, attrs, inner);
    PrintedIs(rest);
    GapBefore(NextGap(rest), Printed(rest));
    PrintedSplit(roots);
    OneRoot(roots[0]);
    SpelledIsParsed(HeaderPrologue(), root, tail);
    PrintedText(roots, root, tail);
    if rest == [] {
      NoMore();
    } else {
      assert rest[0] == roots[1];
      MoreRoots(rest);
    }
    LastRoot(roots);
  }

  lemma PrintedText(roots: seq<Tree>, root: Markup, tail: seq<Markup>)
    requires roots != [] && roots[0].Element? && PrologueText(HeaderPrologue()) == HEADER
    requires var name, attrs, inner, rest := roots[0].name, roots[0].attrs, roots[0].kids, roots[1..];
             && Written(root) == OpenTag(name, attrs) + FirstGap(inner) + PrintKids(inner) + CloseTag(name)
             && WrittenAll(tail) == NextGap(rest) + PrintKids(rest)
    ensures DocumentText(HeaderPrologue(), root, tail) == PrintDocument(roots)
  {
    hide OpenTag, CloseTag, Written, WrittenAll, PrologueText;
    KidsText(roots);
    var w, g, k := Written(root), NextGap(roots[1..]), PrintKids(roots[1..]);
    Assoc(HEADER, w, g + k);
    Assoc(w, g, k);
  }

  lemma LastRoot(roots: seq<Tree>)
    requires roots != [] && roots[0].Element?
    ensures |roots| == 1 ==> Normal(roots) == [Element(roots[0].name, roots[0].attrs, Normal(roots[0].kids))]
  {
    if |roots| == 1 {
      OneRoot(roots[0]);
      assert roots == [roots[0]];
    }
  }

  lemma OneRoot(root: Tree)
    requires root.Element?
    ensures Normal([root]) == [Element(root.name, root.attrs, Normal(root.kids))]
  {
    assert [root][1..] == [];
  }

  lemma NoMore()
    ensures Refusal(Gap(NextGap([])) + Printed([])) == None
  {
    LineEnd();
    var tail := Gap(NextGap([])) + Printed([]);
    assert tail == [LINE_END] && tail[1..] == [];
    hide Blank;
  }

  lemma MoreRoots(rest: seq<Tree>)
    requires rest != [] && rest[0].Element?
    ensures Refusal(Gap(NextGap(rest)) + Printed(rest)) == Some(SyntaxErr)
  {
    hide Printed, AllWhite, PiecesText, Written, Meaning, Good, PrintKids, Normal, OpenTag, CloseTag;
    LineEnd();
    PrintedSplit(rest);
    var p := Printed(rest);
    ConcatFirst([LINE_END], p);
    ConcatFirst([p[0]], p[1..]);
    assert Gap(NextGap(rest)) == [LINE_END] && p[0].Elem? && [LINE_END][1..] + p == p;
    assert Refusal(p) == Some(SyntaxErr);
  }

  /**
   The round trip: printing then parsing is the identity exactly when the document has at most one
   top-level element, is canonical, holds nothing but valid names, distinct attributes and valid
   character data, and no attribute of it is refused while an element waits for its namespace.
   */
  lemma PrintParse(roots: seq<Tree>)
    requires forall i | 0 <= i < |roots| :: roots[i].Element?
    ensures ParseDocument(PrintDocument(roots)) == Parsed(roots) <==>
            |roots| <= 1 && Canonical(roots) && Valid(roots) && Served(roots)
  {
    hide ParseDocument, PrintDocument, Normal, Canonical, Valid, Served;
    if Valid(roots) {
      ParsePrinted(roots);
      NormalIffCanonical(roots);
      if |roots| <= 1 {
        ServedRoot(roots);
      }
    } else if ParseDocument(PrintDocument(roots)) == Parsed(roots) {
      ParsedIsValid(PrintDocument(roots));
    }
  }

  lemma ServedRoot(roots: seq<Tree>)
    requires |roots| <= 1
    ensures Served(Normal(roots)) <==> roots == [] || Served(Normal([roots[0]]))
  {
    assert roots != [] ==> roots == [roots[0]];
    assert roots == [] ==> KidsWait([], None, Normal(roots)) == Wait(None);
    hide KidsWait, Normal;
  }

  // a:b with the attribute xmlns:q, and q:d with an attribute inside it
  const OUTER: bytes := [0x61, 0x3A, 0x62]
  const INNER: bytes := [0x71, 0x3A, 0x64]
  const XMLNS_Q: bytes := XMLNS_COLON + [0x71]

  function StaleKids(): seq<Tree> {
    [Element(INNER, [Attr([0x79], [0x76])], [])]
  }

  function StaleDocument(): seq<Tree> {
    [Element(OUTER, [Attr(XMLNS_Q, [0x75])], StaleKids())]
  }

  lemma LettersAndColon(c: int)
    requires c == COLON || 0x61 <= c <= 0x7A
    ensures IsName(c, false) && IsName(c, true)
  {
    assert Letter()[0] == Letter00()[0] && Letter()[3] == Letter00()[3];
    assert InTable(c, Letter());
  }

  lemma {:induction false} AsciiEncoded(s: bytes)
    requires forall i | 0 <= i < |s| :: s[i] < 128
    ensures Utf8.EncodeAll(s) == s
  {
    if s != [] {
      EncodeOne(s[0]);
      AsciiEncoded(s[1..]);
      hide Utf8.Encode;
      assert s == [s[0]] + s[1..];
    }
  }

  lemma LetterName(s: bytes)
    requires s != [] && forall i | 0 <= i < |s| :: s[i] == COLON || 0x61 <= s[i] <= 0x7A
    ensures ValidName(s) && WellFormed(s)
  {
    AsciiEncoded(s);
    hide IsName, Utf8.EncodeAll;
    forall i | 0 <= i < |s| ensures IsName(s[i], false) && IsName(s[i], true) && IsXmlChar(s[i]) {
      LettersAndColon(s[i]);
    }
    assert NameChars(s) && XmlChars(s);
  }

  lemma PrefixOf(p: byte, c: byte)
    requires p != COLON
    ensures SplitName([p, COLON, c]).prefix == Some([p])
  {
    var name := [p, COLON, c];
    LookingNo(name, 0, [COLON], 0);
    assert name[1..2] == [COLON] && Looking(name, 1, [COLON]);
    assert name[..1] == [p];
  }

  lemma StaleRefused()
    ensures !Served(StaleDocument())
  {
    PrefixOf(0x61, 0x62);
    PrefixOf(0x71, 0x64);
    hide SplitName;
    var root := StaleDocument()[0];
    var t, u := Tag(root.name, root.attrs), Tag(root.kids[0].name, root.kids[0].attrs);
    assert XMLNS_Q[6] == 0x71 && (XMLNS_COLON + [0x61])[6] == 0x61 && |XMLNS_Q| == 7;
    assert TagWait([], None, t) == Wait(Some([0x61]));
    assert t.attrs[0].name == XMLNS_COLON + [0x71];
    assert BindsPrefix(([t] + [])[0], [0x71]);
    assert TagWait([t] + [], Some([0x61]), u) == Refused;
  }

  lemma OneAttr(name: bytes, a: Attr)
    requires ValidName(name) && ValidAttr(a)
    ensures ValidTag(name, [a])
  {
    hide ValidName, ValidAttr;
  }

  lemma OneElement(name: bytes, attrs: seq<Attr>, kids: seq<Tree>)
    requires ValidTag(name, attrs) && Valid(kids)
    ensures Valid([Element(name, attrs, kids)])
  {
    hide ValidTag;
    var list := [Element(name, attrs, kids)];
    assert list[1..] == [];
  }

  lemma KidsValid()
    ensures Valid(StaleKids())
  {
    LetterName(INNER);
    LetterName([0x76]);
    LetterName([0x79]);
    NoneValid();
    hide ValidName, WellFormed, ValidTag, Valid;
    OneAttr(INNER, Attr([0x79], [0x76]));
    OneElement(INNER, [Attr([0x79], [0x76])], []);
  }

  lemma StaleValid()
    ensures Valid(StaleDocument())
  {
    LetterName(OUTER);
    LetterName(XMLNS_Q);
    LetterName([0x75]);
    KidsValid();
    hide ValidName, WellFormed, ValidTag, Valid, StaleKids;
    OneAttr(OUTER, Attr(XMLNS_Q, [0x75]));
    OneElement(OUTER, [Attr(XMLNS_Q, [0x75])], StaleKids());
  }

  lemma StaleCanonical()
    ensures Canonical(StaleDocument())
  {
    var roots := StaleDocument();
    assert roots[1..] == [] && roots[0].kids[1..] == [];
    assert Canonical(roots[0].kids);
  }

  lemma UnservedRoot(roots: seq<Tree>)
    requires |roots| == 1 && roots[0].Element? && Valid(roots) && Canonical(roots) && !Served(roots)
    ensures ParseDocument(PrintDocument(roots)) == Rejected(Failed)
  {
    hide Valid, Served, ParseDocument, PrintDocument, Normal, Canonical;
    assert roots == [roots[0]];
    NormalIffCanonical(roots);
    ParsePrinted(roots);
  }

  lemma StaleShape()
    ensures |StaleDocument()| == 1 && StaleDocument()[0].Element?
  {
  }

  /** A document that is printed, but whose text is refused: an element waits for its namespace in vain. */
  lemma StaleWait()
    ensures Canonical(StaleDocument()) && Valid(StaleDocument())
    ensures ParseDocument(PrintDocument(StaleDocument())) == Rejected(Failed)
  {
    hide StaleDocument, Valid, Canonical, Served, ParseDocument, PrintDocument;
    StaleShape();
    StaleValid();
    StaleCanonical();
    StaleRefused();
    UnservedRoot(StaleDocument());
  }

  lemma {:induction false} NormalIsCanonical(kids: seq<Tree>)
    ensures Canonical(Normal(kids))
  {
    if kids != [] && kids[0].Element? {
      NormalIsCanonical(kids[0].kids);
      NormalIsCanonical(kids[1..]);
      assert Normal(kids)[1..] == Normal(kids[1..]);
    }
  }

  /** Whatever it loses, one trip loses at once: the second one is the identity. */
  lemma SecondTrip(roots: seq<Tree>)
    requires Valid(roots) && Served(Normal(roots)) && |roots| <= 1 && forall i | 0 <= i < |roots| :: roots[i].Element?
    ensures Valid(Normal(roots))
    ensures ParseDocument(PrintDocument(Normal(roots))) == Parsed(Normal(roots))
  {
    hide ParseDocument, PrintDocument, Valid, Normal, Canonical, Served;
    NormalValid(roots);
    NormalIsCanonical(roots);
    NormalElements(roots);
    PrintParse(Normal(roots));
  }

  lemma {:induction false} NormalValid(kids: seq<Tree>)
    requires Valid(kids)
    ensures Valid(Normal(kids))
  {
    hide ValidTag, WellFormed, ValidCData;
    if kids != [] {
      if kids[0].Element? {
        NormalValid(kids[0].kids);
        NormalValid(kids[1..]);
        assert Normal(kids)[1..] == Normal(kids[1..]);
      } else if Normal(kids) != [] {
        assert Normal(kids)[1..] == [];
      }
    }
  }

  lemma NormalElements(roots: seq<Tree>)
    requires |roots| <= 1 && forall i | 0 <= i < |roots| :: roots[i].Element?
    ensures |Normal(roots)| <= 1 && forall i | 0 <= i < |Normal(roots)| :: Normal(roots)[i].Element?
  {
    if roots != [] {
      assert roots == [roots[0]];
      OneRoot(roots[0]);
    }
  }

  /** Any buffer at all: printing its document and parsing again gives what printing preserves, or is refused. */
  lemma ReprintAnyBuffer(d: bytes)
    requires ParseDocument(d).Parsed?
    ensures var roots := ParseDocument(d).roots;
            ParseDocument(PrintDocument(roots)) ==
            if Served(Normal(roots)) then Parsed(Normal(roots)) else Rejected(Failed)
  {
    hide ParseDocument, PrintDocument, Normal, Valid, Served;
    var roots := ParseDocument(d).roots;
    ParsedIsValid(d);
    ParsedIsRead(d);
    assert forall i | 0 <= i < |roots| :: roots[i] in roots;
    ParsePrinted(roots);
    ServedRoot(roots);
  }
}
