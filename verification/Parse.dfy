/** Termination of the main loop, and with it the parser as a function from buffers to documents. */
module Parse {
  import opened Bytes
  import opened NameTables
  import opened Lexer
  import opened Xml
  import opened Machine
  import Utf8

  lemma CharOfName(d: bytes, p: nat, bNameChar: bool)
    requires IsName(Utf8.Decode(d, p).value, bNameChar)
    ensures var u := Utf8.Decode(d, p); GetChar(d, p) == Char(u.value, u.len) && u.len > 0 && p < |d|
  {
    NameIsXmlChar(Utf8.Decode(d, p).value, bNameChar);
    hide IsName;
  }

  lemma EncodeSome(c: int)
    requires IsXmlChar(c)
    ensures Utf8.Encode(c) != []
  {
  }

  /** What a character is copied as. */
  function CopyOf(c: int, len: nat): bytes
    requires len == 1 ==> 0 <= c < 128
  {
    if len == 1 then [c] else Utf8.Encode(c)
  }

  lemma OneByte(d: bytes, p: nat)
    ensures Utf8.Decode(d, p).len == 1 ==> 0 <= Utf8.Decode(d, p).value < 128
  {
  }

  /** One name character is copied as it stands. */
  lemma CopyNameChar(d: bytes, p: nat, end: nat, out: bytes, bNameChar: bool)
    requires IsName(Utf8.Decode(d, p).value, bNameChar) && p + Utf8.Decode(d, p).len <= end
    ensures var u := Utf8.Decode(d, p);
            && (u.len == 1 ==> 0 <= u.value < 128)
            && CopyFrom(d, p, end, out) == CopyFrom(d, p + u.len, end, out + CopyOf(u.value, u.len))
  {
    hide IsName, Utf8.Encode, Utf8.Decode, GetChar;
    var u := Utf8.Decode(d, p);
    CharOfName(d, p, bNameChar);
    NameIsXmlChar(u.value, bNameChar);
    EncodeSome(u.value);
    OneByte(d, p);
  }

  lemma NameEndStep(d: bytes, p: nat)
    ensures NameEnd(d, p) >= p
    ensures var u := Utf8.Decode(d, p);
            if IsName(u.value, true) then
              u.len > 0 && p + u.len <= |d| && NameEnd(d, p) == NameEnd(d, p + u.len) >= p + u.len
            else NameEnd(d, p) == p
  {
    hide IsName, Utf8.Decode;
    if IsName(Utf8.Decode(d, p).value, true) {
      NameIsXmlChar(Utf8.Decode(d, p).value, true);
      CharOfName(d, p, true);
    }
  }

  /** A run of name characters is copied in full. */
  lemma {:induction false} NameCopied(d: bytes, p: nat, out: bytes)
    ensures CopyFrom(d, p, NameEnd(d, p), out).ok
    decreases |d| - p
  {
    hide IsName, Utf8.Decode, NameEnd, GetChar, CopyOf;
    var u := Utf8.Decode(d, p);
    NameEndStep(d, p);
    if IsName(u.value, true) {
      hide CopyFrom;
      CopyNameChar(d, p, NameEnd(d, p), out, true);
      NameCopied(d, p + u.len, out + CopyOf(u.value, u.len));
    }
  }

  /** The one kind of token that is measured but not copied: "</" with an overlong solidus. */
  predicate OverlongEndTag(d: bytes, q: nat) {
    At(d, q) == LESS_THAN && Utf8.Decode(d, q + 1).value == 0x2F && At(d, q + 1) != 0x2F
  }

  lemma AsciiChar(d: bytes, p: nat)
    requires 0x20 <= At(d, p) < 128 && At(d, p) != AMPERSAND
    ensures GetChar(d, p) == Char(At(d, p), 1) && p < |d|
  {
  }

  lemma CopyOne(d: bytes, q: nat)
    requires 0x20 <= At(d, q) < 128 && At(d, q) != AMPERSAND
    ensures CopyToken(d, q, 1) == Copied(true, [At(d, q)])
  {
    AsciiChar(d, q);
    assert CopyFrom(d, q + 1, q + 1, [] + [At(d, q)]) == Copied(true, [At(d, q)]);
  }

  lemma CopyTwo(d: bytes, q: nat)
    requires 0x20 <= At(d, q) < 128 && At(d, q) != AMPERSAND
    requires 0x20 <= At(d, q + 1) < 128 && At(d, q + 1) != AMPERSAND
    ensures CopyToken(d, q, 2) == Copied(true, [At(d, q), At(d, q + 1)])
  {
    AsciiChar(d, q);
    AsciiChar(d, q + 1);
    var out := [] + [At(d, q)] + [At(d, q + 1)];
    assert CopyFrom(d, q + 2, q + 2, out) == Copied(true, out);
    assert CopyFrom(d, q + 1, q + 2, [] + [At(d, q)]) == Copied(true, out);
  }

  lemma CopyOverlong(d: bytes, q: nat)
    requires OverlongEndTag(d, q)
    ensures CopyToken(d, q, 2) == Copied(false, END_TAG)
  {
    hide IsName;
    AsciiChar(d, q);
    var u := Utf8.Decode(d, q + 1);
    assert GetChar(d, q + 1) == Char(0x2F, u.len) && u.len > 1;
    assert Utf8.Encode(0x2F) == [0x2F];
    var out: bytes := [] + [At(d, q)];
    assert CopyFrom(d, q + 1 + u.len, q + 2, out + [0x2F]) == Copied(false, END_TAG);
    assert CopyFrom(d, q + 1, q + 2, out) == Copied(false, END_TAG);
  }

  /** A name token is copied in full. */
  lemma NameTokenCopied(d: bytes, q: nat)
    requires IsName(Utf8.Decode(d, q).value, false)
    ensures var u := Utf8.Decode(d, q);
            u.len > 0 && CopyToken(d, q, NameEnd(d, q + u.len) - q).ok
  {
    hide IsName, Utf8.Decode, NameEnd, GetChar, CopyFrom, CopyOf;
    var u := Utf8.Decode(d, q);
    CharOfName(d, q, false);
    NameEndStep(d, q + u.len);
    CopyNameChar(d, q, NameEnd(d, q + u.len), [], false);
    NameCopied(d, q + u.len, [] + CopyOf(u.value, u.len));
  }

  /**
   Any token that is measured is copied in full, with one exception, whose failure leaves "</" behind
   in the token buffer.
   */
  lemma TokenCopied(d: bytes, q: nat)
    requires TokenLength(d, q) > 0
    ensures var t := CopyToken(d, q, TokenLength(d, q));
            && (t.ok <==> !OverlongEndTag(d, q))
            && (!t.ok ==> t.out == END_TAG)
            && (t.ok && At(d, q) < 128 && !IsName(At(d, q), false) ==>
                  t.out == if TokenLength(d, q) == 1 then [At(d, q)] else [At(d, q), At(d, q + 1)])
  {
    hide IsName, CopyToken;
    var c := At(d, q);
    var n := TokenLength(d, q);
    if c == LESS_THAN {
      if n == 2 {
        assert At(d, q + 1) == 0x2F || OverlongEndTag(d, q) by { }
        if OverlongEndTag(d, q) {
          CopyOverlong(d, q);
        } else {
          CopyTwo(d, q);
        }
      } else {
        CopyOne(d, q);
      }
    } else if c == SLASH {
      CopyTwo(d, q);
    } else if c in {QUOTE, SINGLE_QUOTE, EQUALS, GREATER_THAN} {
      CopyOne(d, q);
    } else {
      NameTokenCopied(d, q);
      assert c < 128 ==> Utf8.Decode(d, q).value == c;
    }
  }

  /** The shortest buffer with such a token: '<', an overlong solidus of two bytes, and '>'. */
  lemma OverlongSolidus()
    ensures var d := [0x3C, 0xC0, 0xAF, 0x3E];
            && TokenLength(d, 0) == 2 && OverlongEndTag(d, 0) && CopyToken(d, 0, 2) == Copied(false, END_TAG)
            && NextToken(d, 0) == Token(0, END_TAG, 0)
  {
    var d := [0x3C, 0xC0, 0xAF, 0x3E];
    assert At(d, 1) == 0xC0;
    CopyOverlong(d, 0);
    hide CopyToken;
    assert SkipMisc(d, 0) == Skip(true, 0) by {
      LookingNo(d, 0, BEGIN_COMMENT, 1);
      LookingNoCaseNo(d, 0, BEGIN_PI, 1);
    }
  }

  /** The token buffer of a failed read is empty, or holds the "</" that could not be copied. */
  lemma FailedToken(d: bytes, p: nat)
    requires NextToken(d, p).len == 0
    ensures NextToken(d, p).buf == [] || NextToken(d, p).buf == END_TAG
  {
    hide TokenLength;
    var m := SkipMisc(d, p);
    if At(d, p) != 0 && m.ok && TokenLength(d, m.cur) > 0 {
      TokenCopied(d, m.cur);
    }
  }

  /** Reading a node always moves the cursor, or leaves content for markup where it stands. */
  lemma Progress(d: bytes, r: Reader)
    requires GetNextNode(d, r).Got?
    ensures var g := GetNextNode(d, r);
            || Left(d, g.r) < Left(d, r)
            || (Left(d, g.r) == Left(d, r) && g.item.NoNode? && r.state == InContent && g.r.state == InElement)
  {
    hide NextToken, SkipMisc, CopyToken, IsName;
    var g := GetNextNode(d, r);
    assert r.cur < |d|;
    if r.state != InContent && NextToken(d, SkipWhite(d, r.cur)).len == 0 {
      FailedToken(d, SkipWhite(d, r.cur));
    }
  }

  lemma StepProgress(d: bytes, m: Machine)
    requires Running(m) && Step(d, m).Next?
    ensures var m' := Step(d, m).m;
            && Running(m')
            && (|| Left(d, m'.r) < Left(d, m.r)
                || (Left(d, m'.r) == Left(d, m.r) && Phase(m'.r) < Phase(m.r)))
  {
    hide GetNextNode;
    Progress(d, m.r);
  }

  datatype Outcome = Parsed(roots: seq<Tree>) | Rejected(code: Code)

  /** The main loop from a machine on. */
  function Run(d: bytes, m: Machine): Outcome
    requires Running(m)
    decreases Left(d, m.r), Phase(m.r)
  {
    match Step(d, m)
    case Finish => if m.r.stack != [] then Rejected(SyntaxErr) else Parsed(m.open[|m.open| - 1].kids)
    case Stop(code) => Rejected(code)
    case Next(m') =>
      StepProgress(d, m);
      Run(d, m')
  }

  function ParseDocument(d: bytes): Outcome {
    var s := SkipProlog(d);
    if s.ok then Run(d, Start(s.cur)) else Rejected(SyntaxErr)
  }

  function ParseBuffer(d: bytes): Outcome {
    if d == [] then Rejected(InvalidParameter) else ParseDocument(d)
  }
}
