/** What the readers of one node refuse, so that the whole buffer is refused. */
module Refusals {
  import opened Bytes
  import opened NameTables
  import opened Lexer
  import opened Machine
  import opened Parse
  import opened Printing
  import opened Escaping
  import opened Reading
  import opened References
  import opened Spelling
  import opened NodeReading
  import Utf8

  // ----- characters

  /** An ampersand that begins neither a named nor a numeric reference. */
  lemma UnknownReference(d: bytes, p: nat)
    requires At(d, p) == AMPERSAND && Lower(At(d, p + 1)) !in {0x71, 0x6C, 0x67, 0x61, 0x23}
    ensures GetChar(d, p).c == -1
  {
    LookingNoCaseNo(d, p, QUOT, 1);
    LookingNoCaseNo(d, p, LT, 1);
    LookingNoCaseNo(d, p, GT, 1);
    LookingNoCaseNo(d, p, APOS, 1);
    LookingNoCaseNo(d, p, AMP, 1);
    LookingNoCaseNo(d, p, ESC_HEX, 1);
    LookingNoCaseNo(d, p, ESC_DEC, 1);
  }

  /** A numeric reference is read as no character, unless it is one of some XML character. */
  lemma NoSuchReference(d: bytes, p: nat)
    requires At(d, p) == AMPERSAND && At(d, p + 1) == 0x23 && At(d, p + 2) !in {0x58, 0x78}
    requires forall c: nat, len: nat, zeros: nat | IsXmlChar(c) :: !DecRefAt(d, p, c, len, zeros)
    ensures GetChar(d, p).c == -1
  {
    var g := GetChar(d, p);
    CharIsXml(d, p);
    if g.c != -1 {
      DecReferenceIff(d, p, g.c, g.len);
    }
  }

  /** Characters, and then something that is none, before the end of the text or value. */
  ghost predicate Spoiled(d: bytes, p: nat, e: nat, ps: seq<Piece>) {
    && GoodPieces(ps) && Looking(d, p, PiecesText(ps)) && p + |PiecesText(ps)| < e
    && GetChar(d, p + |PiecesText(ps)|).c <= 0
  }

  lemma SpoiledCopy(d: bytes, p: nat, e: nat, ps: seq<Piece>)
    requires Spoiled(d, p, e, ps)
    ensures CopyToken(d, p, e - p) == Copied(false, PiecesValue(ps))
  {
    hide GetChar, PiecesText, PiecesValue, GoodPieces, Looking;
    PiecesCopied(d, p, e, [], ps);
    ConcatNone(PiecesValue(ps));
    CopyTokenIs(d, p, e - p);
  }

  // ----- text

  /** A text from `p` to the next '<', "]]>" or the end. */
  predicate TextTo(d: bytes, p: nat, e: nat) {
    && p <= e && (At(d, e) in {0, LESS_THAN} || Looking(d, e, CD_END))
    && forall i: nat | p <= i < e :: At(d, i) !in {0, LESS_THAN} && !Looking(d, i, CD_END)
  }

  lemma {:induction false} TextEndIs(d: bytes, p: nat, e: nat)
    requires TextTo(d, p, e)
    ensures TextEnd(d, p) == e
    decreases e - p
  {
    if p < e {
      assert At(d, p) !in {0, LESS_THAN} && !Looking(d, p, CD_END);
      TextEndIs(d, p + 1, e);
    } else {
      hide Looking;
    }
  }

  lemma TextByCopy(d: bytes, r: Reader, e: nat)
    requires r.state == InContent && At(d, r.cur) != 0 && At(d, SkipWhite(d, r.cur)) !in {0, LESS_THAN}
    requires TextEnd(d, r.cur) == e && (Looking(d, e, CD_END) || !CopyToken(d, r.cur, e - r.cur).ok)
    ensures GetNextNode(d, r) == Bad
  {
    hide CopyToken, Looking, ProcessCDSect, SkipComment, SkipPI, TextEnd, SkipWhite, At;
  }

  lemma NotAtEnd(d: bytes, p: nat)
    requires At(d, SkipWhite(d, p)) != 0
    ensures At(d, p) != 0
  {
  }

  /** Text is refused if "]]>" comes in it, or something that is no character. */
  lemma TextRefused(d: bytes, r: Reader, e: nat, ps: seq<Piece>)
    requires r.state == InContent && At(d, SkipWhite(d, r.cur)) !in {0, LESS_THAN} && TextTo(d, r.cur, e)
    requires Looking(d, e, CD_END) || Spoiled(d, r.cur, e, ps)
    ensures GetNextNode(d, r) == Bad
  {
    hide CopyToken, Looking, TextEnd, SkipWhite, Spoiled, GetNextNode, At, PiecesValue;
    TextEndIs(d, r.cur, e);
    NotAtEnd(d, r.cur);
    if Spoiled(d, r.cur, e, ps) {
      SpoiledCopy(d, r.cur, e, ps);
    }
    TextByCopy(d, r, e);
  }

  // ----- attributes

  /** The name of an attribute has been read, and the next token is not '=', or the one after it no quote. */
  lemma AttributeRefused(d: bytes, r: Reader, name: bytes, q: nat, e: nat)
    requires r.state == InAttribute && r.stack != [] && WhiteFrom(d, r.cur, q) && NameAt(d, q, name)
    requires e == q + |name|
    requires ProcessAttribute(d, r.(cur := e), name) == Bad
    ensures GetNextNode(d, r) == Bad
  {
    hide NextToken, IsName, Utf8.Decode, ProcessAttribute, GetNextNode, Looking, ValidName, WhiteFrom;
    WhiteNone(d, q);
    NameToken(d, q, q, name);
    NameByte(name);
    NameWhite(d, q);
    SkipWhiteTo(d, r.cur, q);
    SomethingThere(d, r.cur, q);
    NodeByToken(d, r, Token(|name|, name, e));
  }

  lemma NoEquals(d: bytes, r: Reader, name: bytes, s: nat)
    requires r.stack != [] && WhiteFrom(d, r.cur, s) && At(d, s) in {GREATER_THAN, QUOTE, SINGLE_QUOTE}
    ensures ProcessAttribute(d, r, name) == Bad
  {
    hide NextToken, IsName, Utf8.Decode, XmlNamespace, AttrValue, Find, SplitName;
    CharToken(d, r.cur, s);
  }

  lemma NoQuote(d: bytes, r: Reader, name: bytes, s: nat, next: Ahead)
    requires r.stack != [] && WhiteFrom(d, r.cur, s) && At(d, s) == EQUALS && Follows(d, s + 1, next)
    ensures ProcessAttribute(d, r, name) == Bad
  {
    hide NextToken, IsName, Utf8.Decode, XmlNamespace, AttrValue, Find, SplitName, Looking, ValidName, WhiteFrom;
    CharToken(d, r.cur, s);
    match next {
      case Another(q, n) =>
        NameToken(d, s + 1, q, n);
        NameByte(n);
      case Closing(q) => CharToken(d, s + 1, q);
      case Ending(q) => SlashToken(d, s + 1, q);
    }
  }

  /** The value of an attribute begins after the quote at `u`. */
  predicate ValueAt(d: bytes, p: nat, s: nat, u: nat) {
    WhiteFrom(d, p, s) && At(d, s) == EQUALS && WhiteFrom(d, s + 1, u) && At(d, u) in {QUOTE, SINGLE_QUOTE}
  }

  lemma ValueFound(d: bytes, r: Reader, name: bytes, s: nat, u: nat)
    requires r.stack != [] && ValueAt(d, r.cur, s, u)
    ensures Find(d, u + 1, [At(d, u)]).None? ==> ProcessAttribute(d, r, name) == Bad
    ensures var f := Find(d, u + 1, [At(d, u)]);
            f.Some? && u + 1 <= f.value <= |d| && !AttrValue(d, u + 1, f.value).ok ==>
              ProcessAttribute(d, r, name) == Bad
  {
    hide NextToken, IsName, Utf8.Decode, XmlNamespace, AttrValue, Find, SplitName;
    CharToken(d, r.cur, s);
    CharToken(d, s + 1, u);
  }

  /** A value without the quote that ends it. */
  lemma NoEndQuote(d: bytes, r: Reader, name: bytes, s: nat, u: nat)
    requires r.stack != [] && ValueAt(d, r.cur, s, u) && forall i: nat | u < i < |d| :: d[i] != At(d, u)
    ensures ProcessAttribute(d, r, name) == Bad
  {
    hide ProcessAttribute, GetChar;
    ValueFound(d, r, name, s, u);
    var f := Find(d, u + 1, [At(d, u)]);
    if f.Some? {
      LookingAt(d, f.value, [At(d, u)], 0);
    }
  }

  /** A value with a '<' in it, or with something that is no character. */
  lemma BadValue(d: bytes, r: Reader, name: bytes, s: nat, u: nat, e: nat, ps: seq<Piece>)
    requires r.stack != [] && ValueAt(d, r.cur, s, u) && u < e < |d| && d[e] == d[u]
    requires (forall i: nat | u < i < e :: d[i] != d[u])
    requires LESS_THAN in d[u + 1..e] || Spoiled(d, u + 1, e, ps)
    ensures ProcessAttribute(d, r, name) == Bad
  {
    hide ProcessAttribute, GetChar, Spoiled, CopyToken;
    forall i: nat | u + 1 <= i < e ensures !Looking(d, i, [d[u]]) {
      LookingNo(d, i, [d[u]], 0);
    }
    assert d[e..e + 1] == [d[u]];
    FindAt(d, u + 1, e, [d[u]]);
    ValueFound(d, r, name, s, u);
    if Spoiled(d, u + 1, e, ps) {
      SpoiledCopy(d, u + 1, e, ps);
      SpoiledSome(d, u + 1, e, ps);
    }
  }

  lemma SpoiledSome(d: bytes, p: nat, e: nat, ps: seq<Piece>)
    requires Spoiled(d, p, e, ps)
    ensures p < e
  {
  }

  // ----- end tags and the end of the buffer

  /** An end tag with something else than white space and '>' after its name. */
  lemma BadEnd(d: bytes, r: Reader, name: bytes, q: nat)
    requires r.state != InContent && ValidName(name) && Looking(d, r.cur, END_TAG + name)
    requires WhiteFrom(d, r.cur + 2 + |name|, q) && At(d, q) in {EQUALS, QUOTE, SINGLE_QUOTE}
    ensures GetNextNode(d, r) == Bad
  {
    hide NextToken, IsName, Utf8.Decode, GetNextNode, ProcessETag, Looking, ValidName;
    var e := r.cur + 2 + |name|;
    LookingConcat(d, r.cur, END_TAG, name);
    LookingAt(d, r.cur, END_TAG, 0);
    EndToken(d, r.cur);
    SkipWhiteTo(d, r.cur, r.cur);
    QuoteNotName(d, e);
    NameToken(d, r.cur + 2, r.cur + 2, name);
    SkipWhiteTo(d, e, q);
    CharToken(d, q, q);
    NodeByToken(d, r, Token(2, END_TAG, r.cur + 2));
    NoBracket(d, r.(cur := r.cur + 2), name, e, q);
  }

  lemma QuoteNotName(d: bytes, p: nat)
    requires IsWhite(At(d, p)) || At(d, p) in {EQUALS, QUOTE, SINGLE_QUOTE}
    ensures !IsName(Utf8.Decode(d, p).value, true)
  {
    Punctuation(At(d, p));
    hide IsName;
  }

  lemma NoBracket(d: bytes, r: Reader, name: bytes, e: nat, q: nat)
    requires name != [] && NextToken(d, r.cur) == Token(|name|, name, e) && SkipWhite(d, e) == q
    requires NextToken(d, q).buf != [GREATER_THAN]
    ensures ProcessETag(d, r) == Bad
  {
    hide NextToken, SkipWhite;
  }

  /** The first "-->" from `q` on ends at `e`, and no '-' comes before it. */
  predicate CommentEnds(d: bytes, q: nat, e: nat) {
    && e >= q + 5 && Looking(d, e - 3, END_COMMENT) && At(d, e - 4) != 0x2D
    && forall i: nat | q <= i < e - 3 :: !Looking(d, i, END_COMMENT)
  }

  lemma NoEarlyEnd(d: bytes, q: nat)
    requires Looking(d, q, BEGIN_COMMENT)
    ensures !Looking(d, q, END_COMMENT) && !Looking(d, q + 1, END_COMMENT) && !Looking(d, q, CD_START)
    ensures At(d, q) == LESS_THAN
  {
    LookingAt(d, q, BEGIN_COMMENT, 0);
    LookingAt(d, q, BEGIN_COMMENT, 1);
    LookingAt(d, q, BEGIN_COMMENT, 2);
    LookingNo(d, q, CD_START, 2);
    LookingNo(d, q, END_COMMENT, 0);
    LookingNo(d, q + 1, END_COMMENT, 0);
  }

  lemma SkipCommentIff(d: bytes, q: nat, e: nat)
    requires Looking(d, q, BEGIN_COMMENT)
    ensures SkipComment(d, q) == Skip(true, e) <==> CommentEnds(d, q, e)
  {
    NoEarlyEnd(d, q);
    hide Looking;
    if CommentEnds(d, q, e) {
      FindAt(d, q, e - 3, END_COMMENT);
    }
    hide Find;
  }

  /** A comment is passed over up to `e` if and only if it ends there; otherwise it is refused. */
  lemma CommentIff(d: bytes, r: Reader, q: nat, e: nat)
    requires r.state == InContent && WhiteFrom(d, r.cur, q) && Looking(d, q, BEGIN_COMMENT)
    ensures GetNextNode(d, r) == Got(r.(cur := e), NoNode) <==> CommentEnds(d, q, e)
    ensures GetNextNode(d, r) == Bad || exists f :: CommentEnds(d, q, f)
  {
    hide SkipWhite, GetNextNode, Looking, CommentEnds, SkipComment, WhiteFrom;
    NoEarlyEnd(d, q);
    WhiteThenLess(d, r.cur, q);
    CommentContent(d, r, q);
    SkipCommentIff(d, q, e);
    SkipCommentIff(d, q, SkipComment(d, q).cur);
  }

  lemma CommentContent(d: bytes, r: Reader, q: nat)
    requires r.state == InContent && SkipWhite(d, r.cur) == q && At(d, r.cur) != 0 && At(d, q) == LESS_THAN
    requires Looking(d, q, BEGIN_COMMENT) && !Looking(d, q, CD_START)
    ensures var s := SkipComment(d, q);
            GetNextNode(d, r) == if s.ok then Got(r.(cur := s.cur), NoNode) else Bad
  {
    hide SkipWhite, Looking, ProcessCDSect, SkipComment, SkipPI, TextEnd, CopyToken;
  }

  /** The buffer ends while an element is open. */
  lemma OpenAtEnd(d: bytes, m: Machine)
    requires Running(m) && m.r.stack != [] && At(d, m.r.cur) == 0
    ensures Run(d, m) == Rejected(SyntaxErr)
  {
  }
}
