/** A buffer that is parsed, although the text its document is printed as is not. */
module LostWait {
  import opened Bytes
  import opened Lexer
  import opened Xml
  import opened Machine
  import opened Parse
  import opened Printing
  import opened Escaping
  import opened Reading
  import opened Spelling
  import opened NodeReading
  import opened SpelledParsing
  import opened SpelledDocuments
  import opened Validity
  import opened Waiting
  import opened RoundTrip

  // The elements r, a:b inside it, a:c after text inside that, and e after a:b.
  const R: bytes := [0x72]
  const B: bytes := [0x61, 0x3A, 0x62]
  const C: bytes := [0x61, 0x3A, 0x63]
  const E: bytes := [0x65]
  const T: bytes := [0x74]

  // xmlns="u" and x='v'
  const AR: seq<SAttr> := [SAttr([SPACE], XMLNS, [], [], QUOTE, [Plain(0x75)])]
  const AX: seq<SAttr> := [SAttr([SPACE], [0x78], [], [], SINGLE_QUOTE, [Plain(0x76)])]

  /** The document with everything in it, also what follows the text; its childless elements have empty-element tags. */
  function Inner(): seq<Markup> {
    [Chars([Plain(0x74)]), Elem(C, AX, [], Empty)]
  }

  function Kids(): seq<Markup> {
    [Elem(B, [], [], Full(Inner(), [])), Elem(E, AX, [], Empty)]
  }

  function Root(): Markup {
    Elem(R, AR, [], Full(Kids(), []))
  }

  const BARE: Prologue := Prologue(false, [], None, [], None, [])

  function FullText(): bytes {
    DocumentText(BARE, Root(), [])
  }

  /** What it says. */
  function InnerKids(): seq<Tree> {
    [Text(T), Element(C, [Attr([0x78], [0x76])], [])]
  }

  function RootKids(): seq<Tree> {
    [Element(B, [], InnerKids()), Element(E, [Attr([0x78], [0x76])], [])]
  }

  function Roots(): seq<Tree> {
    [Element(R, [Attr(XMLNS, [0x75])], RootKids())]
  }

  const TR: Tag := Tag(R, [Attr(XMLNS, [0x75])])
  const TB: Tag := Tag(B, [])
  const TC: Tag := Tag(C, [Attr([0x78], [0x76])])
  const TE: Tag := Tag(E, [Attr([0x78], [0x76])])

  lemma Prefixes()
    ensures Prefix(TR).None? && Prefix(TE).None? && Prefix(TB) == Some([0x61]) && Prefix(TC) == Some([0x61])
  {
    PrefixOf(0x61, 0x62);
    PrefixOf(0x61, 0x63);
    NoColon(R);
    NoColon(E);
  }

  lemma NoColon(name: bytes)
    requires |name| == 1 && name[0] != COLON
    ensures SplitName(name).prefix.None?
  {
    forall q: nat ensures !Looking(name, q, [COLON]) {
      LookingNo(name, q, [COLON], 0);
    }
  }

  /** What waits along the way: a:b does until a:c, and nothing is refused; without a:c, e is. */
  lemma WaitsOnTheWay()
    ensures TagWait([], None, TR) == Wait(None) && TagWait([TR], None, TB) == Wait(Some([0x61]))
    ensures TagWait([TB, TR], Some([0x61]), TC) == Wait(None) && TagWait([TR], None, TE) == Wait(None)
    ensures TagWait([TR], Some([0x61]), TE) == Refused
  {
    Prefixes();
    hide SplitName;
    assert (XMLNS_COLON + [0x61])[5] == COLON && |XMLNS| == 5;
    assert !BindsPrefix([TR][0], [0x61]);
    assert BindsPrefix([TB, TR][0], [0x61]);
    assert TR.attrs[0].name == XMLNS && BindsDefault([TR][0]);
  }

  lemma ServedInFull()
    ensures Served(Roots())
  {
    WaitsOnTheWay();
    hide TagWait;
    assert [TB] + [TR] == [TB, TR] && [TR] + [] == [TR];
    var c, e := InnerKids()[1..], RootKids()[1..];
    assert c == [InnerKids()[1]] && c[1..] == [] && e == [RootKids()[1]] && e[1..] == [];
    assert KidsWait([TB, TR], Some([0x61]), c) == Wait(None);
    assert KidsWait([TB, TR], Some([0x61]), InnerKids()) == Wait(None);
    assert KidsWait([TR], None, e) == Wait(None);
    assert KidsWait([TR], None, RootKids()) == Wait(None);
    assert Roots()[1..] == [];
  }

  /** Printing drops a:c. */
  lemma PrintedRoots()
    ensures Normal(Roots()) ==
            [Element(R, TR.attrs, [Element(B, [], [Text(T)]), Element(E, TE.attrs, [])])]
  {
    var kids, e := RootKids(), RootKids()[1];
    assert !IsWhite(T[0]);
    assert Normal(InnerKids()) == [Text(T)];
    assert kids[1..] == [e] && Roots() == [Roots()[0]];
    OneRoot(e);
    assert Normal([]) == [];
    assert Normal(kids) == [Element(B, [], Normal(InnerKids()))] + Normal(kids[1..]);
    var x, y := Element(B, [], [Text(T)]), Element(E, TE.attrs, []);
    assert [x] + [y] == [x, y];
    assert Normal(kids) == [x, y];
    OneRoot(Roots()[0]);
  }

  lemma NotServedPrinted()
    ensures !Served(Normal(Roots()))
  {
    PrintedRoots();
    WaitsOnTheWay();
    hide TagWait, Normal;
    var kids: seq<Tree> := [Element(B, [], [Text(T)]), Element(E, TE.attrs, [])];
    assert [TB] + [TR] == [TB, TR] && [TR] + [] == [TR];
    assert [Text(T)][1..] == [] && kids[1..] == [Element(E, TE.attrs, [])];
    assert KidsWait([TB, TR], Some([0x61]), [Text(T)]) == Wait(Some([0x61]));
    assert KidsWait([TR], Some([0x61]), kids[1..]) == Refused;
    assert KidsWait([TR], None, kids) == Refused;
  }

  // ----- the spelling is a good one

  predicate Letters(s: bytes) {
    s != [] && forall i | 0 <= i < |s| :: s[i] == COLON || 0x61 <= s[i] <= 0x7A
  }

  lemma LettersName(s: bytes)
    requires Letters(s)
    ensures ValidName(s)
  {
    LetterName(s);
  }

  lemma OnePiece(c: byte)
    requires 0x61 <= c <= 0x7A
    ensures var ps := [Plain(c)]; GoodPieces(ps) && PiecesText(ps) == [c] && PiecesValue(ps) == [c]
    ensures !AllWhite([c]) && NoSectionEnd([c]) && QUOTE !in [c] && SINGLE_QUOTE !in [c]
  {
    var ps := [Plain(c)];
    EncodeBytes(c);
    assert ps[1..] == [];
    PiecesStep(ps);
    NoPieces();
    LookingNo([c], 0, CD_END, 0);
    assert !IsWhite([c][0]);
  }

  lemma OneAttr(name: bytes, c: byte, quote: byte)
    requires Letters(name) && 0x61 <= c <= 0x7A && quote in {QUOTE, SINGLE_QUOTE}
    ensures var a := SAttr([SPACE], name, [], [], quote, [Plain(c)]);
            && GoodAttr(a) && AttrsOf([a]) == [Attr(name, [c])] && DistinctNames(AttrsOf([a]))
  {
    hide ValidName, PiecesText, PiecesValue, GoodPieces, Letters;
    LettersName(name);
    OnePiece(c);
    var a := SAttr([SPACE], name, [], [], quote, [Plain(c)]);
    assert AllWhite([SPACE]) && AllWhite([]);
    assert AttrsOf([a])[0] == Attr(name, [c]);
  }

  lemma EmptyTag(name: bytes)
    requires Letters(name)
    ensures var x := Elem(name, AX, [], Empty);
            Good(x) && Meaning(x) == [Element(name, [Attr([0x78], [0x76])], [])]
  {
    hide ValidName, GoodAttr, AttrsOf;
    LettersName(name);
    OneAttr([0x78], 0x76, SINGLE_QUOTE);
  }

  lemma FullTag(name: bytes, attrs: seq<SAttr>, kids: seq<Markup>)
    requires Letters(name) && Goods(kids) && (attrs == [] || attrs == AR)
    ensures var x := Elem(name, attrs, [], Full(kids, []));
            Good(x) && Meaning(x) == [Element(name, if attrs == [] then [] else TR.attrs, Meanings(kids))]
  {
    hide ValidName, GoodAttr, AttrsOf, Goods, Meanings;
    LettersName(name);
    if attrs == [] {
      NoAttrsText();
    } else {
      OneAttr(XMLNS, 0x75, QUOTE);
    }
  }

  lemma InnerIs()
    ensures Goods(Inner()) && Meanings(Inner()) == InnerKids()
  {
    OnePiece(0x74);
    EmptyTag(C);
    var x, y := Chars([Plain(0x74)]), Elem(C, AX, [], Empty);
    hide PiecesText, PiecesValue, GoodPieces, AllWhite, NoSectionEnd, GoodTag, AttrsOf;
    OneMarkup(y);
    assert Inner()[1..] == [y];
    assert Meaning(x) == [Text(T)];
    assert InnerKids() == [Text(T)] + [InnerKids()[1]];
  }

  lemma KidsAre()
    ensures Goods(Kids()) && Meanings(Kids()) == RootKids()
  {
    hide Good, Meaning, Inner, InnerKids;
    InnerIs();
    FullTag(B, [], Inner());
    EmptyTag(E);
    var y := Elem(E, AX, [], Empty);
    OneMarkup(y);
    assert Kids()[1..] == [y];
    assert RootKids() == [RootKids()[0]] + [RootKids()[1]];
  }

  lemma RootIs()
    ensures Good(Root()) && Meaning(Root()) == Roots() && GoodDocument(BARE, Root(), [])
  {
    hide Good, Meaning, Kids, RootKids;
    KidsAre();
    FullTag(R, AR, Kids());
  }

  /**
   What was parsed from a buffer is not always accepted again after printing: here the printer drops the element
   that ends the wait of another one.
   */
  lemma ParsedButNotServed()
    ensures ParseDocument(FullText()) == Parsed(Roots())
    ensures ParseDocument(PrintDocument(Roots())) == Rejected(Failed)
  {
    hide ParseDocument, PrintDocument, DocumentText, Root, Roots, GoodDocument, Meaning, Served, Normal, Refusal;
    RootIs();
    ServedInFull();
    NoRefusal(Roots());
    SpelledIsParsed(BARE, Root(), []);
    NotServedPrinted();
    ReprintAnyBuffer(FullText());
  }
}
