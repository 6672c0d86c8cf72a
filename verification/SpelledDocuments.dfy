/** Whole documents: the prologue, the document element, and what follows it. */
module SpelledDocuments {
  import opened Bytes
  import opened NameTables
  import opened Lexer
  import opened Xml
  import opened Machine
  import opened Parse
  import opened Printing
  import opened Escaping
  import opened Reading
  import opened Spelling
  import opened NodeReading
  import opened MachineProperties
  import opened Waiting
  import opened SpelledParsing
  import Utf8

  // ----- what is skipped

  /** A place where neither white space nor anything the lexer skips begins. */
  predicate Halts(d: bytes, e: nat) {
    && !IsWhite(At(d, e)) && !LookingNoCase(d, e, BEGIN_COMMENT) && !LookingNoCase(d, e, BEGIN_PI)
  }

  lemma DeclIsPI(d: bytes, e: nat, decl: bytes)
    requires LookingNoCase(d, e, decl) && decl in {XML_DECL, XML_DECL2}
    ensures LookingNoCase(d, e, BEGIN_PI)
  {
    assert Lower(d[e + 0]) == Lower(decl[0]) && Lower(d[e + 1]) == Lower(decl[1]);
  }

  lemma NoPI(d: bytes, e: nat)
    requires !LookingNoCase(d, e, BEGIN_PI)
    ensures !LookingNoCase(d, e, XML_DECL) && !LookingNoCase(d, e, XML_DECL2) && !Looking(d, e, XML_DECL)
  {
    hide LookingNoCase;
    if LookingNoCase(d, e, XML_DECL) {
      DeclIsPI(d, e, XML_DECL);
    }
    if LookingNoCase(d, e, XML_DECL2) {
      DeclIsPI(d, e, XML_DECL2);
    }
    if Looking(d, e, XML_DECL) {
      LookingNoCaseSame(d, e, XML_DECL);
    }
  }

  lemma HaltsSkip(d: bytes, e: nat)
    requires Halts(d, e)
    ensures SkipMisc(d, e) == Skip(true, e)
  {
    NoPI(d, e);
    WhiteNone(d, e);
    SkipWhiteTo(d, e, e);
    hide LookingNoCase, SkipWhite;
  }

  /** Only white space is skipped where white space begins. */
  lemma WhiteSkip(d: bytes, p: nat, e: nat)
    requires WhiteFrom(d, p, e) && p < e && !IsWhite(At(d, e))
    ensures SkipMisc(d, p) == Skip(true, e)
  {
    SkipWhiteTo(d, p, e);
    LookingNoCaseNo(d, p, BEGIN_COMMENT, 0);
    LookingNoCaseNo(d, p, BEGIN_PI, 0);
    NoPI(d, p);
    hide LookingNoCase, SkipWhite;
  }

  lemma CommentSkip(d: bytes, p: nat, v: bytes)
    requires GoodComment(v) && Looking(d, p, CommentText(v))
    ensures SkipMisc(d, p) == SkipMisc(d, SkipWhite(d, p + |CommentText(v)|))
  {
    CommentStarts(d, p, v);
    CommentSkipped(d, p, v);
    hide LookingNoCase, SkipWhite, SkipComment, CommentText, GoodComment, Looking;
  }

  lemma PIStep(d: bytes, p: nat)
    requires !LookingNoCase(d, p, BEGIN_COMMENT) && LookingNoCase(d, p, BEGIN_PI)
    requires !LookingNoCase(d, p, XML_DECL) && !LookingNoCase(d, p, XML_DECL2)
    ensures var r := SkipString(d, p, END_PI); r.ok ==> SkipMisc(d, p) == SkipMisc(d, SkipWhite(d, r.cur))
  {
    hide LookingNoCase, SkipWhite, SkipString;
  }

  lemma InstructionSkip(d: bytes, p: nat, v: bytes)
    requires GoodInstruction(v) && Looking(d, p, InstructionText(v))
    ensures SkipMisc(d, p) == SkipMisc(d, SkipWhite(d, p + |InstructionText(v)|))
  {
    hide LookingNoCase, SkipWhite, SkipMisc, Find, Looking;
    InstructionStarts(d, p, v);
    InstructionFound(d, p, v);
    NotDecl(v);
    NoDeclaration(d, p, v, XML_DECL);
    NoDeclaration(d, p, v, XML_DECL2);
    PIStep(d, p);
  }

  lemma GoodMiscStep(ms: seq<Markup>)
    requires ms != [] && GoodMisc(ms)
    ensures Good(ms[0]) && Misc(ms[0]) && GoodMisc(ms[1..]) && (|ms| > 1 && ms[0].Chars? ==> !ms[1].Chars?)
  {
    GoodsStep(ms);
    hide Goods, Good;
    assert forall i | 0 <= i < |ms[1..]| :: ms[1..][i] == ms[i + 1];
  }

  /** White space and comments begin with bytes that are white or '<'. */
  lemma MiscAt(d: bytes, p: nat, ms: seq<Markup>)
    requires GoodMisc(ms) && (ms != [] ==> !ms[0].Chars?) && Looking(d, p, WrittenAll(ms))
    requires !IsWhite(At(d, p + |WrittenAll(ms)|))
    ensures !IsWhite(At(d, p))
  {
    hide Looking, WrittenAll, Goods;
    ListStarts(d, p, ms, At(d, p + |WrittenAll(ms)|));
  }

  /** Comments and instructions are skipped with the white space between them, when none comes first. */
  lemma {:induction false} MiscSkip(d: bytes, p: nat, ms: seq<Markup>)
    requires GoodMisc(ms) && (ms != [] ==> !ms[0].Chars?) && Looking(d, p, WrittenAll(ms))
    requires Halts(d, p + |WrittenAll(ms)|)
    ensures SkipMisc(d, p) == Skip(true, p + |WrittenAll(ms)|)
    decreases |ms|
  {
    hide Looking, WrittenAll, SkipMisc, SkipWhite, Written, GoodMisc, Goods, Good, LookingNoCase, WhiteFrom;
    if ms == [] {
      WrittenNone();
      HaltsSkip(d, p);
    } else {
      WrittenStep(ms);
      GoodMiscStep(ms);
      var x, rest := ms[0], ms[1..];
      LookingConcat(d, p, Written(x), WrittenAll(rest));
      var e := p + |Written(x)|;
      OneSkip(d, p, x);
      if rest != [] && rest[0].Chars? {
        var more := BlankFirst(d, e, rest);
        SkipWhiteTo(d, e, more);
        MiscSkip(d, more, rest[1..]);
      } else {
        MiscAt(d, e, rest);
        WhiteNone(d, e);
        SkipWhiteTo(d, e, e);
        MiscSkip(d, e, rest);
      }
    }
  }

  lemma OneSkip(d: bytes, p: nat, x: Markup)
    requires Good(x) && Misc(x) && !x.Chars? && Looking(d, p, Written(x))
    ensures SkipMisc(d, p) == SkipMisc(d, SkipWhite(d, p + |Written(x)|))
  {
    hide Looking, SkipMisc, SkipWhite, GoodComment, GoodInstruction, CommentText, InstructionText;
    match x
    case Comment(v) => CommentSkip(d, p, v);
    case Instruction(v) => InstructionSkip(d, p, v);
  }

  /** White space at the beginning of such a list, and the rest of it, which begins with other markup. */
  lemma BlankFirst(d: bytes, p: nat, ms: seq<Markup>) returns (e: nat)
    requires ms != [] && ms[0].Chars? && GoodMisc(ms) && Looking(d, p, WrittenAll(ms))
    requires Halts(d, p + |WrittenAll(ms)|)
    ensures e == p + |Written(ms[0])| && WhiteFrom(d, p, e) && p < e && !IsWhite(At(d, e))
    ensures Looking(d, e, WrittenAll(ms[1..])) && e + |WrittenAll(ms[1..])| == p + |WrittenAll(ms)|
    ensures GoodMisc(ms[1..]) && (ms[1..] != [] ==> !ms[1..][0].Chars?)
  {
    hide Looking, WrittenAll, Goods, GoodPieces, PiecesText, LookingNoCase;
    WrittenStep(ms);
    GoodMiscStep(ms);
    LookingConcat(d, p, Written(ms[0]), WrittenAll(ms[1..]));
    WhiteLooking(d, p, PiecesText(ms[0].pieces));
    PiecesClean(ms[0].pieces);
    e := p + |Written(ms[0])|;
    MiscAt(d, e, ms[1..]);
  }

  /** From wherever skipping has come to in such a list, it comes to the end of it. */
  lemma MiscTwice(d: bytes, p: nat, ms: seq<Markup>) returns (c: nat)
    requires GoodMisc(ms) && Looking(d, p, WrittenAll(ms)) && Halts(d, p + |WrittenAll(ms)|)
    ensures SkipMisc(d, p) == Skip(true, c) && !IsWhite(At(d, c)) && p <= c <= p + |WrittenAll(ms)|
    ensures SkipMisc(d, c) == Skip(true, p + |WrittenAll(ms)|)
    ensures At(d, p + |WrittenAll(ms)|) != 0 ==> At(d, c) != 0
  {
    hide Looking, WrittenAll, GoodMisc, LookingNoCase, SkipMisc, WhiteFrom;
    var e := p + |WrittenAll(ms)|;
    if ms != [] && ms[0].Chars? {
      c := BlankFirst(d, p, ms);
      WhiteSkip(d, p, c);
      MiscSkip(d, c, ms[1..]);
      MiscStarts(d, c, ms[1..]);
    } else {
      MiscSkip(d, p, ms);
      HaltsSkip(d, e);
      c := e;
    }
  }

  lemma MiscStarts(d: bytes, p: nat, ms: seq<Markup>)
    requires GoodMisc(ms) && (ms != [] ==> !ms[0].Chars?) && Looking(d, p, WrittenAll(ms))
    ensures At(d, p) == if ms == [] then At(d, p + |WrittenAll(ms)|) else LESS_THAN
  {
    hide Looking, WrittenAll, Goods;
    ListStarts(d, p, ms, At(d, p + |WrittenAll(ms)|));
  }

  // ----- the document type

  lemma DocTypeByte(d: bytes, p: nat, num: int)
    requires num > 0 && At(d, p) !in {0, LESS_THAN, GREATER_THAN, QUOTE}
    ensures SkipDocType(d, p, num) == SkipDocType(d, p + 1, num)
  {
  }

  lemma DocTypeOpens(d: bytes, p: nat, num: int)
    requires num > 0 && At(d, p) == LESS_THAN
    ensures SkipDocType(d, p, num) == SkipDocType(d, p + 1, num + 1)
  {
  }

  lemma DocTypeCloses(d: bytes, p: nat, num: int)
    requires num > 0 && At(d, p) == GREATER_THAN
    ensures SkipDocType(d, p, num) == SkipDocType(d, p + 1, num - 1)
  {
  }

  lemma DocTypeQuoted(d: bytes, p: nat, num: int, v: bytes)
    requires num > 0 && QUOTE !in v && Looking(d, p, [QUOTE] + v + [QUOTE])
    ensures SkipDocType(d, p, num) == SkipDocType(d, p + |v| + 2, num)
  {
    LookingConcat(d, p, [QUOTE] + v, [QUOTE]);
    LookingConcat(d, p, [QUOTE], v);
    LookingAt(d, p, [QUOTE], 0);
    forall i: nat | p + 1 <= i < p + 1 + |v| ensures !Looking(d, i, [QUOTE]) {
      LookingAt(d, p + 1, v, i - p - 1);
      LookingNo(d, i, [QUOTE], 0);
    }
    FindAt(d, p + 1, p + 1 + |v|, [QUOTE]);
    hide Find, Looking;
  }

  lemma {:induction false} DocTypeBytes(d: bytes, p: nat, num: int, s: bytes)
    requires num > 0 && Looking(d, p, s) && forall i | 0 <= i < |s| :: s[i] !in {0, LESS_THAN, GREATER_THAN, QUOTE}
    ensures SkipDocType(d, p, num) == SkipDocType(d, p + |s|, num)
    decreases |s|
  {
    hide SkipDocType, Looking;
    if s != [] {
      assert s == [s[0]] + s[1..];
      LookingConcat(d, p, [s[0]], s[1..]);
      LookingAt(d, p, s, 0);
      DocTypeByte(d, p, num);
      DocTypeBytes(d, p + 1, num, s[1..]);
    }
  }

  lemma {:induction false} DocTypePart1(d: bytes, p: nat, num: int, x: Part)
    requires num > 0 && GoodPart(x) && Looking(d, p, PartText(x))
    ensures SkipDocType(d, p, num) == SkipDocType(d, p + |PartText(x)|, num)
    decreases x, 0
  {
    hide SkipDocType, Looking, PartsText, GoodParts;
    match x
    case Byte(b) =>
      LookingAt(d, p, [b], 0);
      DocTypeByte(d, p, num);
    case Quoted(v) => DocTypeQuoted(d, p, num, v);
    case Nested(parts) =>
      var t := PartsText(parts);
      LookingConcat(d, p, [LESS_THAN] + t, [GREATER_THAN]);
      LookingConcat(d, p, [LESS_THAN], t);
      LookingAt(d, p, [LESS_THAN], 0);
      LookingAt(d, p + 1 + |t|, [GREATER_THAN], 0);
      DocTypeOpens(d, p, num);
      DocTypeParts(d, p + 1, num + 1, parts);
      DocTypeCloses(d, p + 1 + |t|, num + 1);
  }

  lemma {:induction false} DocTypeParts(d: bytes, p: nat, num: int, parts: seq<Part>)
    requires num > 0 && GoodParts(parts) && Looking(d, p, PartsText(parts))
    ensures SkipDocType(d, p, num) == SkipDocType(d, p + |PartsText(parts)|, num)
    decreases parts, 1
  {
    hide SkipDocType, Looking, PartText, GoodPart;
    if parts != [] {
      LookingConcat(d, p, PartText(parts[0]), PartsText(parts[1..]));
      DocTypePart1(d, p, num, parts[0]);
      DocTypeParts(d, p + |PartText(parts[0])|, num, parts[1..]);
    }
  }

  /** A document type declaration is skipped to its own '>'. */
  lemma DocTypeSkip(d: bytes, p: nat, parts: seq<Part>)
    requires GoodParts(parts) && Looking(d, p, DocTypeText(parts))
    ensures Looking(d, p, BEGIN_DOCTYPE) && SkipDocType(d, p + 1, 1) == Skip(true, p + |DocTypeText(parts)|)
    ensures Halts(d, p) && !Looking(d, p, XML_DECL) && At(d, p) == LESS_THAN
  {
    hide SkipDocType, Looking, PartsText, GoodParts;
    var t := PartsText(parts);
    LookingConcat(d, p, [LESS_THAN] + (DOCTYPE + t), [GREATER_THAN]);
    LookingConcat(d, p, [LESS_THAN], DOCTYPE + t);
    LookingConcat(d, p + 1, DOCTYPE, t);
    assert BEGIN_DOCTYPE == [LESS_THAN] + DOCTYPE;
    LookingConcat(d, p, [LESS_THAN], DOCTYPE);
    DocTypeBytes(d, p + 1, 1, DOCTYPE);
    DocTypeParts(d, p + 1 + |DOCTYPE|, 1, parts);
    var e := p + 1 + |DOCTYPE| + |t|;
    LookingAt(d, e, [GREATER_THAN], 0);
    DocTypeCloses(d, e, 1);
    DocTypeDone(d, e + 1);
    LookingAt(d, p, BEGIN_DOCTYPE, 0);
    LookingAt(d, p, BEGIN_DOCTYPE, 1);
    LookingAt(d, p, BEGIN_DOCTYPE, 2);
    LookingNoCaseNo(d, p, BEGIN_COMMENT, 2);
    LookingNoCaseNo(d, p, BEGIN_PI, 1);
    NoPI(d, p);
  }

  lemma DocTypeDone(d: bytes, p: nat)
    ensures SkipDocType(d, p, 0) == Skip(true, p)
  {
  }

  // ----- the prologue

  lemma DeclSkip(d: bytes, p: nat, v: bytes)
    requires GoodDecl(v) && Looking(d, p, DeclText(v))
    ensures Looking(d, p, XML_DECL) && SkipString(d, p, END_PI) == Skip(true, p + |DeclText(v)|)
    ensures !IsWhite(At(d, p)) && At(d, p) == LESS_THAN
  {
    var x := DeclText(v);
    var n := 6 + |v|;
    LookingConcat(d, p, XML_DECL + v, END_PI);
    LookingConcat(d, p, XML_DECL, v);
    LookingAt(d, p, XML_DECL, 0);
    forall i: nat | p <= i < p + n ensures !Looking(d, i, END_PI) {
      LookingInside(d, p, x, i - p, END_PI);
    }
    FindAt(d, p, p + n, END_PI);
    hide Find, Looking;
  }

  /** Where the parts of a prologue stand. */
  lemma PrologueParts(d: bytes, p: Prologue, rest: bytes) returns (p0: nat, p1: nat, p2: nat, p3: nat)
    requires d == PrologueText(p) + rest && GoodPrologue(p)
    ensures p0 == |(if p.bom then BOM else []) + p.lead| && p1 == p0 + |DeclPart(p.decl)|
    ensures p2 == p1 + |WrittenAll(p.misc)| && p3 == p2 + |DocTypePart(p.docType)|
    ensures p3 + |WrittenAll(p.rest)| == |PrologueText(p)|
    ensures (p.bom ==> Looking(d, 0, BOM)) && WhiteFrom(d, if p.bom then 3 else 0, p0)
    ensures Looking(d, p0, DeclPart(p.decl)) && Looking(d, p1, WrittenAll(p.misc))
    ensures Looking(d, p2, DocTypePart(p.docType)) && Looking(d, p3, WrittenAll(p.rest))
    ensures Looking(d, |PrologueText(p)|, rest)
  {
    hide Looking, WrittenAll, GoodMisc, GoodDecl, GoodParts, PartsText, DeclText, DocTypeText;
    var b := if p.bom then BOM else [];
    var x, m, t, r := DeclPart(p.decl), WrittenAll(p.misc), DocTypePart(p.docType), WrittenAll(p.rest);
    p0 := |b + p.lead|;
    p1 := p0 + |x|;
    p2 := p1 + |m|;
    p3 := p2 + |t|;
    assert PrologueText(p) == b + p.lead + x + m + t + r;
    WholeLooking(d);
    LookingConcat(d, 0, b + p.lead + x + m + t + r, rest);
    LookingConcat(d, 0, b + p.lead + x + m + t, r);
    LookingConcat(d, 0, b + p.lead + x + m, t);
    LookingConcat(d, 0, b + p.lead + x, m);
    LookingConcat(d, 0, b + p.lead, x);
    LookingConcat(d, 0, b, p.lead);
    WhiteLooking(d, |b|, p.lead);
  }

  lemma WholeLooking(d: bytes)
    ensures Looking(d, 0, d)
  {
    assert d[0..|d|] == d;
  }

  /** A place where the document element begins, or where the buffer ends. */
  predicate RootAt(d: bytes, e: nat) {
    At(d, e) == 0 || (At(d, e) == LESS_THAN && At(d, e + 1) != 0x21 && At(d, e + 1) != 0x3F)
  }

  lemma RootHalts(d: bytes, e: nat)
    requires RootAt(d, e)
    ensures Halts(d, e) && !Looking(d, e, BEGIN_DOCTYPE) && !Looking(d, e, XML_DECL)
  {
    if At(d, e) == 0 {
      LookingNoCaseNo(d, e, BEGIN_COMMENT, 0);
      LookingNoCaseNo(d, e, BEGIN_PI, 0);
      LookingNo(d, e, BEGIN_DOCTYPE, 0);
    } else {
      LookingNoCaseNo(d, e, BEGIN_COMMENT, 1);
      LookingNoCaseNo(d, e, BEGIN_PI, 1);
      LookingNo(d, e, BEGIN_DOCTYPE, 1);
    }
    NoPI(d, e);
  }

  /** From the end of the first declaration: the document type with what stands around it. */
  lemma SecondHalf(d: bytes, p: Prologue, p2: nat, p3: nat, e: nat) returns (c: nat)
    requires GoodPrologue(p) && p3 == p2 + |DocTypePart(p.docType)| && e == p3 + |WrittenAll(p.rest)|
    requires Looking(d, p2, DocTypePart(p.docType)) && Looking(d, p3, WrittenAll(p.rest)) && RootAt(d, e)
    ensures Halts(d, p2) && !Looking(d, p2, XML_DECL) && At(d, p2) in {0, LESS_THAN}
    ensures var s := if Looking(d, p2, BEGIN_DOCTYPE) then
                       var t := SkipDocType(d, p2 + 1, 1);
                       if t.ok then SkipMisc(d, t.cur) else Skip(false, p2 + 1)
                     else SkipMisc(d, p2);
            s == Skip(true, c)
    ensures !IsWhite(At(d, c)) && SkipMisc(d, c) == Skip(true, e) && c <= e && (At(d, e) != 0 ==> At(d, c) != 0)
  {
    hide Looking, WrittenAll, GoodMisc, GoodParts, SkipMisc, SkipDocType, LookingNoCase, DocTypeText, IsWhite;
    RootHalts(d, e);
    match p.docType {
      case None =>
        WrittenNone();
        HaltsSkip(d, e);
        c := e;
      case Some(parts) =>
        DocTypeSkip(d, p2, parts);
        c := MiscTwice(d, p3, p.rest);
    }
  }

  /** The part before the document type, after the declaration. */
  lemma FirstHalf(d: bytes, ms: seq<Markup>, p1: nat, p2: nat)
    requires GoodMisc(ms) && Looking(d, p1, WrittenAll(ms)) && p2 == p1 + |WrittenAll(ms)| && Halts(d, p2)
    ensures SkipMisc(d, SkipWhite(d, p1)) == Skip(true, p2)
    ensures ms != [] && !ms[0].Chars? ==> SkipMisc(d, p1) == Skip(true, p2) && SkipWhite(d, p1) == p1
    ensures ms == [] ==> SkipMisc(d, p1) == Skip(true, p2) && SkipWhite(d, p1) == p1
  {
    hide Looking, WrittenAll, GoodMisc, SkipMisc, SkipWhite, LookingNoCase, WhiteFrom, IsWhite;
    if ms != [] && ms[0].Chars? {
      var q := BlankFirst(d, p1, ms);
      SkipWhiteTo(d, p1, q);
      MiscSkip(d, q, ms[1..]);
    } else {
      MiscAt(d, p1, ms);
      WhiteNone(d, p1);
      SkipWhiteTo(d, p1, p1);
      MiscSkip(d, p1, ms);
    }
  }

  lemma PrologByParts(d: bytes, b: nat, p0: nat, decl: bool, p1: nat, p2: nat, c: nat)
    requires (Looking(d, 0, BOM) <==> b == 3) && (b == 0 || b == 3) && SkipWhite(d, b) == p0
    requires Looking(d, p0, XML_DECL) <==> decl
    requires decl ==> SkipString(d, p0, END_PI) == Skip(true, p1) && SkipMisc(d, SkipWhite(d, p1)) == Skip(true, p2)
    requires !decl ==> SkipMisc(d, p0) == Skip(true, p2)
    requires (if Looking(d, p2, BEGIN_DOCTYPE) then
                var t := SkipDocType(d, p2 + 1, 1);
                if t.ok then SkipMisc(d, t.cur) else Skip(false, p2 + 1)
              else SkipMisc(d, p2)) == Skip(true, c)
    ensures SkipProlog(d) == Skip(true, c)
  {
    hide Looking, SkipMisc, SkipWhite, SkipString, SkipDocType;
  }

  lemma NoBom(d: bytes, p: nat)
    requires IsWhite(At(d, 0)) || At(d, 0) == LESS_THAN || At(d, 0) == 0
    ensures !Looking(d, 0, BOM)
  {
    LookingNo(d, 0, BOM, 0);
  }

  /** A prologue is skipped, up to what is left of its last comments; skipping again comes to its end. */
  lemma PrologueSkipped(d: bytes, p: Prologue, rest: bytes) returns (c: nat)
    requires d == PrologueText(p) + rest && GoodPrologue(p) && RootAt(d, |PrologueText(p)|)
    ensures SkipProlog(d) == Skip(true, c) && !IsWhite(At(d, c)) && c <= |PrologueText(p)|
    ensures SkipMisc(d, c) == Skip(true, |PrologueText(p)|)
    ensures At(d, |PrologueText(p)|) != 0 ==> At(d, c) != 0
  {
    hide Looking, WrittenAll, GoodMisc, GoodParts, GoodDecl, SkipMisc, SkipDocType, SkipWhite, LookingNoCase,
         DocTypeText, DeclText, IsWhite, SkipProlog, SkipString, PrologueText, WhiteFrom, Halts;
    var p0, p1, p2, p3 := PrologueParts(d, p, rest);
    c := SecondHalf(d, p, p2, p3, |PrologueText(p)|);
    FirstHalf(d, p.misc, p1, p2);
    var b := if p.bom then 3 else 0;
    match p.decl {
      case None =>
        NoDeclAt(d, p, p1, p2);
        SkipWhiteTo(d, b, p0);
        BomIff(d, p, b, p0);
      case Some(v) =>
        DeclSkip(d, p0, v);
        SkipWhiteTo(d, b, p0);
        BomIff(d, p, b, p0);
    }
    PrologByParts(d, b, p0, p.decl.Some?, p1, p2, c);
  }

  lemma BomIff(d: bytes, p: Prologue, b: nat, p0: nat)
    requires b == (if p.bom then 3 else 0) && (p.bom ==> Looking(d, 0, BOM)) && WhiteFrom(d, b, p0)
    requires At(d, p0) in {0, LESS_THAN}
    ensures Looking(d, 0, BOM) <==> p.bom
  {
    if !p.bom {
      NoBom(d, p0);
    }
  }

  /** Without a declaration, what comes first does not look like one. */
  lemma NoDeclAt(d: bytes, p: Prologue, p1: nat, p2: nat)
    requires GoodPrologue(p) && p.decl.None? && Looking(d, p1, WrittenAll(p.misc)) && p2 == p1 + |WrittenAll(p.misc)|
    requires Halts(d, p2) && !Looking(d, p2, XML_DECL) && At(d, p2) in {0, LESS_THAN}
    ensures !Looking(d, p1, XML_DECL) && !IsWhite(At(d, p1)) && At(d, p1) in {0, LESS_THAN}
    ensures p.misc != [] ==> !p.misc[0].Chars?
  {
    hide Looking, WrittenAll, Goods, LookingNoCase;
    var ms := p.misc;
    if ms == [] {
      WrittenNone();
    } else {
      GoodMiscStep(ms);
      WrittenStep(ms);
      MiscStarts(d, p1, ms);
      LookingConcat(d, p1, Written(ms[0]), WrittenAll(ms[1..]));
      NoDeclMarkup(d, p1, ms[0]);
    }
  }

  lemma NoDeclMarkup(d: bytes, p: nat, x: Markup)
    requires Good(x) && Misc(x) && !x.Chars? && Looking(d, p, Written(x))
    ensures !Looking(d, p, XML_DECL)
  {
    hide Looking, GoodComment, GoodInstruction, CommentText, InstructionText;
    match x
    case Comment(v) =>
      CommentStarts(d, p, v);
      LookingNo(d, p, XML_DECL, 1);
    case Instruction(v) =>
      NotDecl(v);
      NoDeclaration(d, p, v, XML_DECL);
      if Looking(d, p, XML_DECL) {
        LookingNoCaseSame(d, p, XML_DECL);
      }
  }

  lemma NotDecl(v: bytes)
    requires GoodInstruction(v)
    ensures !LookingNoCase(InstructionText(v), 0, XML_DECL) && !LookingNoCase(InstructionText(v), 0, XML_DECL2)
  {
  }

  // ----- the document element and what follows it

  lemma SameToken(d: bytes, c: nat, e: nat)
    requires At(d, c) != 0 && At(d, e) != 0 && SkipMisc(d, c) == Skip(true, e) && SkipMisc(d, e) == Skip(true, e)
    ensures NextToken(d, c) == NextToken(d, e)
  {
    hide SkipMisc, TokenLength, CopyToken;
  }

  /** Before the document element it makes no difference whether what is left of the prologue has been skipped. */
  lemma SameStart(d: bytes, c: nat, e: nat)
    requires At(d, e) != 0 && Halts(d, e) && !IsWhite(At(d, c)) && At(d, c) != 0 && SkipMisc(d, c) == Skip(true, e)
    requires GetNextNode(d, Start(e).r).Got? && GetNextNode(d, Start(e).r).item.StartTag?
    ensures GetNextNode(d, Start(c).r) == GetNextNode(d, Start(e).r)
  {
    hide SkipMisc, NextToken, ProcessSTag, ProcessETag, ProcessAttribute, ProcessContent, LookingNoCase;
    HaltsSkip(d, e);
    SameToken(d, c, e);
    WhiteNone(d, c);
    WhiteNone(d, e);
    SkipWhiteTo(d, c, c);
    SkipWhiteTo(d, e, e);
    hide SkipWhite;
  }

  lemma RunSame(d: bytes, m: Machine, m': Machine)
    requires Running(m) && Running(m') && GetNextNode(d, m.r) == GetNextNode(d, m'.r)
    requires GetNextNode(d, m.r).Got? && m.hasTop == m'.hasTop && m.open == m'.open
    requires !GetNextNode(d, m.r).item.NoNode?
    ensures Run(d, m) == Run(d, m')
  {
    hide GetNextNode;
  }

  /** The end of the buffer after every element has been closed. */
  lemma ReadEnd1(d: bytes, m: Machine)
    requires |m.open| == 1 && m.r.stack == [] && m.r.state == InContent && WhiteFrom(d, m.r.cur, |d|)
    ensures Run(d, m) == Parsed(m.open[0].kids)
  {
    SkipWhiteTo(d, m.r.cur, |d|);
    var m1 := m.(r := m.r.(cur := |d|));
    assert GetNextNode(d, m1.r) == FileDone;
    assert Run(d, m1) == Parsed(m.open[0].kids);
    if At(d, m.r.cur) != 0 {
      assert ProcessContent(d, m.r) == Got(m1.r, NoNode);
      hide GetNextNode;
      EndOfContent(d, m.r);
      RunDigest(d, m, m1.r, NoNode, m1);
    }
  }

  lemma EndOfContent(d: bytes, r: Reader)
    requires r.state == InContent && At(d, r.cur) != 0
    ensures GetNextNode(d, r) == ProcessContent(d, r)
  {
    hide ProcessContent, NextToken;
  }

  predicate AfterRoot(m: Machine) {
    |m.open| == 1 && m.r.stack == [] && m.r.state == InContent && m.hasTop
  }

  /** What the tail makes of the document. */
  function Ended(ms: seq<Markup>, roots: seq<Tree>): Outcome {
    match Refusal(ms) case None => Parsed(roots) case Some(code) => Rejected(code)
  }

  lemma RefusalStep(ms: seq<Markup>, roots: seq<Tree>)
    requires ms != []
    ensures Misc(ms[0]) ==> Ended(ms, roots) == Ended(ms[1..], roots)
    ensures !Misc(ms[0]) ==> Ended(ms, roots) == Rejected(if ms[0].Elem? then SyntaxErr else HierarchyRequestErr)
  {
    hide Misc;
  }

  /** A second element is a syntax error, and text or CDATA is out of place. */
  lemma ReadRefused(d: bytes, m: Machine, x: Markup, q: nat)
    requires AfterRoot(m) && Good(x) && !Misc(x) && WhiteFrom(d, m.r.cur, q) && Looking(d, q, Written(x))
    requires x.Chars? ==> m.r.cur == q && At(d, q + |Written(x)|) in {0, LESS_THAN}
    ensures Run(d, m) == Rejected(if x.Elem? then SyntaxErr else HierarchyRequestErr)
  {
    hide Run, GetNextNode, Looking, WhiteFrom, AllWhite, GoodPieces, NoSectionEnd, PiecesText, PiecesValue, ValidCData,
         AttrsText, WrittenAll, Goods, GoodTag, Follows, SplitName;
    match x
    case Elem(name, attrs, gap, body) =>
      var e, end := ElemParts(d, q, x);
      ToMarkup(d, m, q);
      var m1 := m.(r := m.r.(cur := q, state := InElement));
      TagStart(d, m1.r, name, attrs, gap, end);
      var e1 := q + 1 + |name|;
      RunStop(d, m1, AfterName(m1.r, name, e1, AheadOf(attrs, 0, e1, end)), StartItem(name), SyntaxErr);
    case Chars(ps) =>
      ReadText(d, m.r, ps);
      RunStop(d, m, m.r.(cur := m.r.cur + |PiecesText(ps)|), TextNode(PiecesValue(ps)), HierarchyRequestErr);
    case Section(v) =>
      ReadCData(d, m.r, q, v);
      RunStop(d, m, m.r.(cur := q + |CD_START + v + CD_END|), CDataNode(v), HierarchyRequestErr);
    case Comment(_) =>
    case Instruction(_) =>
  }

  /** What follows the document element, to the end of the buffer. */
  lemma {:induction false} ReadTail(d: bytes, m: Machine, ms: seq<Markup>, q: nat)
    requires AfterRoot(m) && Goods(ms) && WhiteFrom(d, m.r.cur, q)
    requires ms != [] && ms[0].Chars? && !Blank(ms[0]) ==> m.r.cur == q
    requires Looking(d, q, WrittenAll(ms)) && q + |WrittenAll(ms)| == |d|
    ensures Running(m) && Run(d, m) == Ended(ms, m.open[0].kids)
    decreases |ms|
  {
    hide Run, Looking, WhiteFrom, Good, Goods, WrittenAll, Written, Refusal, PiecesText, AllWhite, Ended;
    if ms == [] {
      WrittenNone();
      NoRefusal(m.open[0].kids);
      ReadEnd1(d, m);
    } else {
      WrittenStep(ms);
      GoodsStep(ms);
      RefusalStep(ms, m.open[0].kids);
      var x, rest := ms[0], ms[1..];
      var q1 := q + |Written(x)|;
      LookingConcat(d, q, Written(x), WrittenAll(rest));
      if x.Chars? {
        ListStarts(d, q1, rest, 0);
      }
      if !Misc(x) {
        ReadRefused(d, m, x, q);
      } else if x.Chars? {
        BlankLooking(d, m.r.cur, q, x);
        ReadTail(d, m, rest, q1);
      } else {
        ReadMisc(d, m, x, q);
        WhiteNone(d, q1);
        ReadTail(d, m.(r := m.r.(cur := q1)), rest, q1);
      }
    }
  }

  lemma NoRefusal(roots: seq<Tree>)
    ensures Ended([], roots) == Parsed(roots)
  {
  }

  lemma BlankLooking(d: bytes, p: nat, q: nat, x: Markup)
    requires WhiteFrom(d, p, q) && Blank(x) && Looking(d, q, Written(x))
    ensures WhiteFrom(d, p, q + |Written(x)|)
  {
    hide Looking, WhiteFrom, AllWhite, PiecesText;
    WhiteLooking(d, q, PiecesText(x.pieces));
    WhiteThrough(d, p, q, q + |Written(x)|);
  }

  lemma RootServed(x: Markup)
    ensures Served(Meaning(x)) <==> KidScopes([], None, Meaning(x)).Scoping?
  {
    ServedIff(Meaning(x));
  }

  /** The document element and what follows it. */
  lemma ReadRoot(d: bytes, q: nat, root: Markup, tail: seq<Markup>)
    requires root.Elem? && Good(root) && Goods(tail) && Looking(d, q, Written(root) + WrittenAll(tail))
    requires q + |Written(root)| + |WrittenAll(tail)| == |d|
    ensures Running(Start(q))
    ensures Run(d, Start(q)) == if Served(Meaning(root)) then Ended(tail, Meaning(root)) else Rejected(Failed)
  {
    hide Run, Looking, WhiteFrom, Good, Goods, WrittenAll, Written, Meaning, Ended, KidScopes, Served, Blank;
    LookingConcat(d, q, Written(root), WrittenAll(tail));
    var m := Start(q);
    var last := ReadElem(d, m, root);
    RootServed(root);
    var s := KidScopes([], None, Meaning(root));
    if s.Scoping? {
      var e := q + |Written(root)|;
      var m1 := WithKids(Back(m), e, last, s.need, Meaning(root));
      WhiteNone(d, e);
      assert [] + Meaning(root) == Meaning(root);
      ReadTail(d, m1, tail, e);
    }
  }

  lemma RootStarts(d: bytes, q: nat, root: Markup)
    requires root.Elem? && Good(root) && Looking(d, q, Written(root))
    ensures RootAt(d, q) && At(d, q) != 0
    ensures GetNextNode(d, Start(q).r).Got? && GetNextNode(d, Start(q).r).item.StartTag?
  {
    hide Looking, Good, Written, GetNextNode, GoodTag, AttrsText, Follows, WrittenAll, SplitName;
    var e, end := ElemParts(d, q, root);
    TagStart(d, Start(q).r, root.name, root.attrs, root.gap, end);
  }

  /**
   However a document is spelled, it is parsed to what it says: unless an attribute is refused while an element waits
   for its namespace, or something other than comments, instructions and white space follows the document element.
   */
  lemma SpelledIsParsed(p: Prologue, root: Markup, tail: seq<Markup>)
    requires GoodDocument(p, root, tail)
    ensures ParseDocument(DocumentText(p, root, tail)) ==
            if !Served(Meaning(root)) then Rejected(Failed) else Ended(tail, Meaning(root))
  {
    hide Looking, Good, Goods, Written, WrittenAll, PrologueText, GoodPrologue, SkipProlog, Run, Meaning, Served, Ended,
         GetNextNode, SkipMisc, IsWhite, Halts;
    var d := DocumentText(p, root, tail);
    var rest := Written(root) + WrittenAll(tail);
    var e := |PrologueText(p)|;
    Assoc(PrologueText(p), Written(root), WrittenAll(tail));
    WholeLooking(d);
    LookingConcat(d, 0, PrologueText(p), rest);
    LookingConcat(d, e, Written(root), WrittenAll(tail));
    RootStarts(d, e, root);
    var c := PrologueSkipped(d, p, rest);
    RootHalts(d, e);
    SameStart(d, c, e);
    RunSame(d, Start(c), Start(e));
    ReadRoot(d, e, root, tail);
  }

  /** A prologue without a document element is parsed to an empty document. */
  lemma PrologueAlone(p: Prologue)
    requires GoodPrologue(p)
    ensures ParseDocument(PrologueText(p)) == Parsed([])
  {
    hide PrologueText, GoodPrologue, SkipProlog, Run, SkipMisc, IsWhite;
    var d := PrologueText(p);
    assert d + [] == d;
    var c := PrologueSkipped(d, p, []);
    NothingLeft(d, c);
  }

  lemma NothingLeft(d: bytes, c: nat)
    requires c <= |d| && !IsWhite(At(d, c)) && SkipMisc(d, c) == Skip(true, |d|)
    ensures Running(Start(c)) && Run(d, Start(c)) == Parsed([])
  {
    var m, m1 := Start(c), Start(|d|);
    assert Run(d, m1) == Parsed([]);
    if At(d, c) != 0 {
      WhiteNone(d, c);
      SkipWhiteTo(d, c, c);
      NoToken(d, c);
      hide NextToken, SkipWhite, ProcessSTag, ProcessETag, ProcessAttribute, ProcessContent, Run;
      RunDigest(d, m, m1.r, NoNode, m1);
    }
  }

  lemma NoToken(d: bytes, c: nat)
    requires At(d, c) != 0 && SkipMisc(d, c) == Skip(true, |d|)
    ensures NextToken(d, c) == Token(0, [], |d|)
  {
    StartPunctuation(0);
    hide SkipMisc, IsName;
    assert Utf8.Decode(d, |d|).value == 0;
  }
}
