/** The text a document is printed as, by the recursion of the printer over first children and siblings. */
module Printing {
  import opened Bytes
  import opened Lexer
  import opened Xml

  const SPACE: byte := 0x20
  const NEWLINE: bytes := [0x0D, 0x0A]

  // <?xml version="1.0"?> and a line end
  const HEADER: bytes := [0x3C, 0x3F, 0x78, 0x6D, 0x6C, 0x20, 0x76, 0x65, 0x72, 0x73, 0x69, 0x6F, 0x6E, 0x3D, 0x22,
                          0x31, 0x2E, 0x30, 0x22, 0x3F, 0x3E, 0x0D, 0x0A]

  function EscapeByte(b: byte): bytes {
    if b == LESS_THAN then LT
    else if b == GREATER_THAN then GT
    else if b == AMPERSAND then AMP
    else if b == SINGLE_QUOTE then APOS
    else if b == QUOTE then QUOT
    else [b]
  }

  function Escape(s: bytes): bytes {
    if s == [] then [] else Escape(s[..|s| - 1]) + EscapeByte(s[|s| - 1])
  }

  lemma EscapeOnce(s: bytes)
    requires s != []
    ensures Escape(s) == Escape(s[..|s| - 1]) + EscapeByte(s[|s| - 1])
  {
    hide EscapeByte;
  }

  function PrintAttr(a: Attr): bytes {
    a.name + [EQUALS, QUOTE] + Escape(a.value) + [QUOTE]
  }

  function PrintAttrs(attrs: seq<Attr>): bytes {
    if attrs == [] then []
    else PrintAttr(attrs[0]) + (if |attrs| == 1 then [] else [SPACE] + PrintAttrs(attrs[1..]))
  }

  function OpenTag(name: bytes, attrs: seq<Attr>): bytes {
    [LESS_THAN] + name + (if attrs == [] then [] else [SPACE] + PrintAttrs(attrs)) + [GREATER_THAN]
  }

  function CloseTag(name: bytes): bytes {
    END_TAG + name + [GREATER_THAN]
  }

  function FirstGap(kids: seq<Tree>): bytes {
    if kids != [] && kids[0].Element? then NEWLINE else []
  }

  function NextGap(rest: seq<Tree>): bytes {
    if rest != [] && rest[0].Text? then [] else NEWLINE
  }

  /** A child list; nothing is printed after a text or CDATA node. */
  function PrintKids(kids: seq<Tree>): bytes {
    if kids == [] then []
    else
      match kids[0]
      case Text(v) => Escape(v)
      case CData(v) => CD_START + v + CD_END
      case Element(name, attrs, inner) =>
        OpenTag(name, attrs) + FirstGap(inner) + PrintKids(inner) + CloseTag(name) + NextGap(kids[1..])
        + PrintKids(kids[1..])
  }

  /** ixmlPrintDocument and ixmlDocumenttoString */
  function PrintDocument(roots: seq<Tree>): bytes {
    HEADER + PrintKids(roots)
  }

  predicate AllWhite(s: bytes) {
    forall i | 0 <= i < |s| :: IsWhite(s[i])
  }

  /**
   What printing preserves of a child list: everything up to the first text or CDATA node,
   and that node too unless it is text that is all white space.
   */
  function Normal(kids: seq<Tree>): seq<Tree> {
    if kids == [] then []
    else
      match kids[0]
      case Text(v) => if AllWhite(v) then [] else [kids[0]]
      case CData(v) => [kids[0]]
      case Element(name, attrs, inner) => [Element(name, attrs, Normal(inner))] + Normal(kids[1..])
  }

  /** Child lists that printing preserves: elements, then at most one text or CDATA node, which is not blank. */
  predicate Canonical(kids: seq<Tree>) {
    kids != [] ==>
      match kids[0]
      case Text(v) => |kids| == 1 && !AllWhite(v)
      case CData(v) => |kids| == 1
      case Element(_, _, inner) => Canonical(inner) && Canonical(kids[1..])
  }

  lemma {:induction false} NormalIffCanonical(kids: seq<Tree>)
    ensures Normal(kids) == kids <==> Canonical(kids)
  {
    if kids != [] && kids[0].Element? {
      NormalIffCanonical(kids[0].kids);
      NormalIffCanonical(kids[1..]);
      assert kids == [kids[0]] + kids[1..];
      assert Normal(kids) == kids ==> Normal(kids)[0] == kids[0] && Normal(kids)[1..] == kids[1..];
    } else if kids != [] {
      assert |kids| == 1 ==> kids == [kids[0]];
    }
  }

  /** The text of a child list that begins with an element. */
  lemma KidsText(kids: seq<Tree>)
    requires kids != [] && kids[0].Element?
    ensures var name, attrs, inner, rest := kids[0].name, kids[0].attrs, kids[0].kids, kids[1..];
            PrintKids(kids) == OpenTag(name, attrs) + FirstGap(inner) + PrintKids(inner) + CloseTag(name)
                               + NextGap(rest) + PrintKids(rest)
  {
    hide OpenTag, CloseTag;
  }

  // <a x="&lt;">, <b>t</b>, <c></c> and </a>, each with a line end
  function LineA(): bytes { [0x3C, 0x61, 0x20, 0x78, 0x3D, 0x22, 0x26, 0x6C, 0x74, 0x3B, 0x22, 0x3E] + NEWLINE }
  function LineB(): bytes { [0x3C, 0x62, 0x3E, 0x74, 0x3C, 0x2F, 0x62, 0x3E] + NEWLINE }
  function LineC(): bytes { [0x3C, 0x63, 0x3E, 0x3C, 0x2F, 0x63, 0x3E] + NEWLINE }
  function LastLine(): bytes { [0x3C, 0x2F, 0x61, 0x3E] + NEWLINE }

  const SAMPLE_ATTR: Attr := Attr([0x78], [0x3C])
  const SAMPLE_B: Tree := Element([0x62], [], [Text([0x74])])
  const SAMPLE_C: Tree := Element([0x63], [], [])

  lemma SampleAttr()
    ensures PrintAttrs([SAMPLE_ATTR]) == [0x78, 0x3D, 0x22, 0x26, 0x6C, 0x74, 0x3B, 0x22]
  {
    assert Escape([0x3C]) == LT by { assert Escape([]) == []; }
    hide Escape;
    assert PrintAttrs([SAMPLE_ATTR]) == PrintAttr(SAMPLE_ATTR) + [];
  }

  lemma SampleStart()
    ensures OpenTag([0x61], [SAMPLE_ATTR]) + NEWLINE == LineA()
  {
    SampleAttr();
    hide PrintAttrs;
  }

  lemma SampleEnd()
    ensures CloseTag([0x61]) + NEWLINE == LastLine()
  {
  }

  lemma SampleC()
    ensures PrintKids([SAMPLE_C]) == LineC()
  {
    assert [SAMPLE_C][1..] == [];
  }

  lemma SampleLeaf()
    ensures OpenTag([0x62], []) + [] + PrintKids([Text([0x74])]) + CloseTag([0x62]) + NEWLINE == LineB()
  {
    assert Escape([0x74]) == [0x74];
  }

  lemma SampleKids()
    ensures PrintKids([SAMPLE_B, SAMPLE_C]) == LineB() + LineC()
  {
    hide PrintKids, OpenTag, CloseTag, LineB, LineC;
    SampleC();
    SampleLeaf();
    var kids := [SAMPLE_B, SAMPLE_C];
    assert kids[1..] == [SAMPLE_C];
    KidsText(kids);
  }

  lemma NothingPrinted()
    ensures PrintKids([]) == []
  {
  }

  /** A document in full: line ends follow end tags, and a start tag that an element follows. */
  lemma Sample()
    ensures PrintDocument([Element([0x61], [SAMPLE_ATTR], [SAMPLE_B, SAMPLE_C])]) ==
            HEADER + (LineA() + (LineB() + LineC()) + LastLine())
  {
    hide PrintKids, OpenTag, CloseTag, LineA, LineB, LineC, LastLine;
    var roots := [Element([0x61], [SAMPLE_ATTR], [SAMPLE_B, SAMPLE_C])];
    SampleKids();
    SampleStart();
    SampleEnd();
    NothingPrinted();
    KidsText(roots);
    assert roots[1..] == [];
    var a, k, c := OpenTag([0x61], [SAMPLE_ATTR]), LineB() + LineC(), CloseTag([0x61]);
    assert a + NEWLINE + k + c + NEWLINE + [] == (a + NEWLINE) + k + (c + NEWLINE);
  }
}
