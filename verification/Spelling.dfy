/**
 XML documents as they may be written: with white space in tags, either kind of quotes, references for characters,
 empty-element tags, comments, processing instructions, CDATA sections and a prologue.
 */
module Spelling {
  import opened Bytes
  import opened NameTables
  import opened Lexer
  import opened Xml
  import opened Machine
  import opened Printing
  import opened Reading
  import opened References
  import Utf8

  // ----- characters

  /** One character, as it stands or as a reference. */
  datatype Piece =
    | Plain(c: int)
    | Named(b: byte)
    | Dec(n: nat, zeros: nat)
    | Hex(n: nat, x: byte, zeros: nat, digits: bytes)

  function CharOf(p: Piece): int {
    match p
    case Plain(c) => c
    case Named(b) => b
    case Dec(n, _) => n
    case Hex(n, _, _, _) => n
  }

  function PieceText(p: Piece): bytes {
    match p
    case Plain(c) => Utf8.Encode(c)
    case Named(b) => EscapeByte(b)
    case Dec(n, zeros) => DecRef(n, zeros)
    case Hex(_, x, zeros, digits) => HexRef(x, zeros, digits)
  }

  predicate GoodPiece(p: Piece) {
    IsXmlChar(CharOf(p)) &&
    match p
    case Plain(c) => c != AMPERSAND && c != LESS_THAN
    case Named(b) => b in {LESS_THAN, GREATER_THAN, AMPERSAND, SINGLE_QUOTE, QUOTE}
    case Dec(_, _) => true
    case Hex(n, x, _, digits) => x in {0x58, 0x78} && HexSpells(digits, n)
  }

  predicate GoodPieces(ps: seq<Piece>) {
    forall i | 0 <= i < |ps| :: GoodPiece(ps[i])
  }

  function PiecesText(ps: seq<Piece>): bytes {
    if ps == [] then [] else PieceText(ps[0]) + PiecesText(ps[1..])
  }

  function Characters(ps: seq<Piece>): seq<int> {
    seq(|ps|, i requires 0 <= i < |ps| => CharOf(ps[i]))
  }

  function PiecesValue(ps: seq<Piece>): bytes {
    Utf8.EncodeAll(Characters(ps))
  }

  // ----- tags

  /** An attribute with the white space before it and around its '='. */
  datatype SAttr = SAttr(gap: bytes, name: bytes, before: bytes, after: bytes, quote: byte, value: seq<Piece>)

  function AttrText(a: SAttr): bytes {
    a.gap + a.name + a.before + [EQUALS] + a.after + [a.quote] + PiecesText(a.value) + [a.quote]
  }

  ghost predicate GoodAttr(a: SAttr) {
    && a.gap != [] && AllWhite(a.gap) && AllWhite(a.before) && AllWhite(a.after) && ValidName(a.name)
    && a.quote in {QUOTE, SINGLE_QUOTE} && GoodPieces(a.value) && a.quote !in PiecesText(a.value)
  }

  function AttrOf(a: SAttr): Attr {
    Attr(a.name, PiecesValue(a.value))
  }

  function AttrsText(attrs: seq<SAttr>): bytes {
    if attrs == [] then [] else AttrText(attrs[0]) + AttrsText(attrs[1..])
  }

  function AttrsOf(attrs: seq<SAttr>): seq<Attr> {
    seq(|attrs|, i requires 0 <= i < |attrs| => AttrOf(attrs[i]))
  }

  // ----- content

  datatype Markup =
    | Elem(name: bytes, attrs: seq<SAttr>, gap: bytes, body: Body)
    | Chars(pieces: seq<Piece>)
    | Section(value: bytes)
    | Comment(comment: bytes)
    | Instruction(instruction: bytes)

  /** An empty-element tag has no body; the end tag may have white space after the name. */
  datatype Body = Empty | Full(kids: seq<Markup>, endGap: bytes)

  function CommentText(v: bytes): bytes {
    BEGIN_COMMENT + v + END_COMMENT
  }

  function InstructionText(v: bytes): bytes {
    BEGIN_PI + v + END_PI
  }

  function Written(m: Markup): bytes
    decreases m
  {
    match m
    case Elem(name, attrs, gap, body) =>
      [LESS_THAN] + name + AttrsText(attrs) + gap
      + (match body
         case Empty => COMPLETE_TAG
         case Full(kids, endGap) => [GREATER_THAN] + WrittenAll(kids) + (END_TAG + name + endGap + [GREATER_THAN]))
    case Chars(ps) => PiecesText(ps)
    case Section(v) => CD_START + v + CD_END
    case Comment(v) => CommentText(v)
    case Instruction(v) => InstructionText(v)
  }

  function WrittenAll(ms: seq<Markup>): bytes
    decreases ms
  {
    if ms == [] then [] else Written(ms[0]) + WrittenAll(ms[1..])
  }

  /** Characters that are white space as they stand say nothing. */
  predicate Blank(m: Markup) {
    m.Chars? && AllWhite(PiecesText(m.pieces))
  }

  /** What the markup says: comments, instructions and blank characters nothing. */
  function Meaning(m: Markup): seq<Tree>
    decreases m
  {
    match m
    case Elem(name, attrs, _, body) =>
      [Element(name, AttrsOf(attrs), if body.Full? then Meanings(body.kids) else [])]
    case Chars(ps) => if AllWhite(PiecesText(ps)) then [] else [Text(PiecesValue(ps))]
    case Section(v) => [CData(v)]
    case Comment(_) => []
    case Instruction(_) => []
  }

  function Meanings(ms: seq<Markup>): seq<Tree>
    decreases ms
  {
    if ms == [] then [] else Meaning(ms[0]) + Meanings(ms[1..])
  }

  predicate NoSectionEnd(s: bytes) {
    forall i: nat | i < |s| :: !Looking(s, i, CD_END)
  }

  /** A comment ends at the first "-->"; it is not empty and no '-' comes before its end. */
  predicate GoodComment(v: bytes) {
    && v != [] && v[|v| - 1] != 0x2D
    && forall i: nat | i < |v| + 4 :: !Looking(CommentText(v), i, END_COMMENT)
  }

  /** An instruction ends at the first "?>" and is no XML declaration. */
  predicate GoodInstruction(v: bytes) {
    && (forall i: nat | i < |v| + 2 :: !Looking(InstructionText(v), i, END_PI))
    && !LookingNoCase(InstructionText(v), 0, XML_DECL) && !LookingNoCase(InstructionText(v), 0, XML_DECL2)
  }

  ghost predicate GoodTag(name: bytes, attrs: seq<SAttr>, gap: bytes) {
    && ValidName(name) && AllWhite(gap) && (forall i | 0 <= i < |attrs| :: GoodAttr(attrs[i]))
    && DistinctNames(AttrsOf(attrs))
  }

  ghost predicate Good(m: Markup)
    decreases m
  {
    match m
    case Elem(name, attrs, gap, body) =>
      GoodTag(name, attrs, gap) && (body.Full? ==> AllWhite(body.endGap) && Goods(body.kids))
    case Chars(ps) => ps != [] && GoodPieces(ps) && NoSectionEnd(PiecesText(ps))
    case Section(v) => ValidCData(v)
    case Comment(v) => GoodComment(v)
    case Instruction(v) => GoodInstruction(v)
  }

  /** Two runs of characters are never neighbours. */
  ghost predicate Goods(ms: seq<Markup>)
    decreases ms
  {
    ms != [] ==> Good(ms[0]) && Goods(ms[1..]) && (|ms| > 1 && ms[0].Chars? ==> !ms[1].Chars?)
  }

  // ----- the prologue

  /** A part of a document type declaration, which may nest others and quote strings. */
  datatype Part = Byte(b: byte) | Quoted(v: bytes) | Nested(parts: seq<Part>)

  function PartText(p: Part): bytes
    decreases p
  {
    match p
    case Byte(b) => [b]
    case Quoted(v) => [QUOTE] + v + [QUOTE]
    case Nested(parts) => [LESS_THAN] + PartsText(parts) + [GREATER_THAN]
  }

  function PartsText(parts: seq<Part>): bytes
    decreases parts
  {
    if parts == [] then [] else PartText(parts[0]) + PartsText(parts[1..])
  }

  predicate GoodPart(p: Part)
    decreases p
  {
    match p
    case Byte(b) => b !in {0, LESS_THAN, GREATER_THAN, QUOTE}
    case Quoted(v) => QUOTE !in v
    case Nested(parts) => GoodParts(parts)
  }

  predicate GoodParts(parts: seq<Part>)
    decreases parts
  {
    parts != [] ==> GoodPart(parts[0]) && GoodParts(parts[1..])
  }

  const DOCTYPE: bytes := BEGIN_DOCTYPE[1..]

  function DocTypeText(parts: seq<Part>): bytes {
    [LESS_THAN] + (DOCTYPE + PartsText(parts)) + [GREATER_THAN]
  }

  function DeclText(v: bytes): bytes {
    XML_DECL + v + END_PI
  }

  predicate GoodDecl(v: bytes) {
    forall i: nat | i < |v| + 6 :: !Looking(DeclText(v), i, END_PI)
  }

  /** What may stand between the declarations and around the document: comments, instructions and white space. */
  predicate Misc(m: Markup) {
    m.Comment? || m.Instruction? || Blank(m)
  }

  datatype Prologue = Prologue(bom: bool, lead: bytes, decl: Option<bytes>, misc: seq<Markup>,
                               docType: Option<seq<Part>>, rest: seq<Markup>)

  function DeclPart(decl: Option<bytes>): bytes {
    match decl case None => [] case Some(v) => DeclText(v)
  }

  function DocTypePart(docType: Option<seq<Part>>): bytes {
    match docType case None => [] case Some(parts) => DocTypeText(parts)
  }

  function PrologueText(p: Prologue): bytes {
    (if p.bom then BOM else []) + p.lead + DeclPart(p.decl) + WrittenAll(p.misc) + DocTypePart(p.docType)
    + WrittenAll(p.rest)
  }

  ghost predicate GoodMisc(ms: seq<Markup>) {
    Goods(ms) && forall i | 0 <= i < |ms| :: Misc(ms[i])
  }

  /**
   Without an XML declaration white space belongs to the lead; without a document type nothing is left for the rest.
   */
  ghost predicate GoodPrologue(p: Prologue) {
    && AllWhite(p.lead) && (p.decl.Some? ==> GoodDecl(p.decl.value)) && (p.docType.Some? ==> GoodParts(p.docType.value))
    && GoodMisc(p.misc) && GoodMisc(p.rest)
    && (p.decl.None? && p.misc != [] ==> !Blank(p.misc[0])) && (p.docType.None? ==> p.rest == [])
  }

  // ----- documents

  /** After the document element, more than comments, instructions and white space is refused. */
  function Refusal(ms: seq<Markup>): Option<Code> {
    if ms == [] then None
    else if Misc(ms[0]) then Refusal(ms[1..])
    else Some(if ms[0].Elem? then SyntaxErr else HierarchyRequestErr)
  }

  function DocumentText(p: Prologue, root: Markup, tail: seq<Markup>): bytes {
    PrologueText(p) + Written(root) + WrittenAll(tail)
  }

  ghost predicate GoodDocument(p: Prologue, root: Markup, tail: seq<Markup>) {
    GoodPrologue(p) && root.Elem? && Good(root) && Goods(tail)
  }
}
