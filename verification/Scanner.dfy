/** The parser's state, and how it reads tokens from the buffer. */
module Scanner {
  import opened Bytes
  import opened NameTables
  import opened Lexer
  import opened Machine
  import opened Nodes
  import opened Parse
  import Utf8

  /** A `char *` argument that moves, and whether the skip succeeded. */
  method SkipStringFrom(d: bytes, p: nat, key: bytes) returns (ok: bool, q: nat)
    requires NoNul(d) && key != []
    ensures Skip(ok, q) == SkipString(d, p, key)
  {
    q := p;
    while At(d, q) != 0 && !Looking(d, q, key)
      invariant p <= q && (q > p ==> q <= |d|) && Find(d, p, key) == Find(d, q, key)
      decreases |d| - q
    {
      q := q + 1;
    }
    if At(d, q) == 0 {
      return false, q;
    }
    return true, q + |key|;
  }

  method SkipCommentFrom(d: bytes, p: nat) returns (ok: bool, q: nat)
    ensures Skip(ok, q) == SkipComment(d, p)
  {
    var found := Find(d, p, END_COMMENT);
    if found.Some? && found.value != p && d[found.value - 1] != 0x2D {
      return true, found.value + |END_COMMENT|;
    }
    return false, p;
  }

  method SkipDocTypeFrom(d: bytes, p: nat) returns (ok: bool, q: nat)
    requires NoNul(d)
    ensures ok == SkipDocType(d, p, 1).ok && (ok ==> q == SkipDocType(d, p, 1).cur)
  {
    var cur := p;
    var num := 1;
    while num != 0 && At(d, cur) != 0
      invariant cur >= p && SkipDocType(d, p, 1) == SkipDocType(d, cur, num)
      decreases |d| - cur
    {
      if d[cur] == LESS_THAN {
        num := num + 1;
      } else if d[cur] == GREATER_THAN {
        num := num - 1;
      } else if d[cur] == QUOTE {
        var next := Find(d, cur + 1, [QUOTE]);
        if next.None? {
          return false, p;
        }
        cur := next.value;
      }
      cur := cur + 1;
    }
    if num == 0 {
      return true, cur;
    }
    return false, p;
  }

  method SkipPIFrom(d: bytes, p: nat) returns (ok: bool, q: nat)
    requires Looking(d, p, BEGIN_PI)
    ensures Skip(ok, q) == SkipPI(d, p)
  {
    if LookingNoCase(d, p, XML_DECL) || LookingNoCase(d, p, XML_DECL2) {
      return false, p;
    }
    q := p;
    if LookingNoCase(d, p, BEGIN_PI) {
      var end := Find(d, p, END_PI);
      if end.Some? && end.value != p {
        q := end.value + |BEGIN_PI|;
      } else {
        return false, p;
      }
    } else {
      assert false by { LookingBothWays(d, p, BEGIN_PI); }
    }
    ok := true;
  }

  lemma LookingBothWays(d: bytes, p: nat, x: bytes)
    requires Looking(d, p, x)
    ensures LookingNoCase(d, p, x)
  {
    forall i | 0 <= i < |x| ensures Lower(d[p + i]) == Lower(x[i]) {
      LookingAt(d, p, x, i);
    }
  }

  /** The digits of a hexadecimal reference. */
  method ReadHex(d: bytes, p: nat) returns (sum: nat, end: nat)
    ensures Number(sum, end) == HexNumber(d, p, 0)
  {
    sum, end := 0, p;
    while end < |d| && IsHexDigit(d[end])
      invariant p <= end && HexNumber(d, p, 0) == HexNumber(d, end, sum)
    {
      var c := d[end];
      if c <= 0x39 {
        sum := sum * 16 + (c - 0x30);
      } else if c <= 0x46 {
        sum := sum * 16 + (c - 0x41 + 10);
      } else {
        sum := sum * 16 + (c - 0x61 + 10);
      }
      end := end + 1;
    }
  }

  method ReadDec(d: bytes, p: nat) returns (sum: nat, end: nat)
    ensures Number(sum, end) == DecNumber(d, p, 0)
  {
    sum, end := 0, p;
    while end < |d| && IsDigit(d[end])
      invariant p <= end && DecNumber(d, p, 0) == DecNumber(d, end, sum)
    {
      sum := sum * 10 + (d[end] - 0x30);
      end := end + 1;
    }
  }

  /** The next character, or -1, and the bytes it takes. */
  method ReadChar(d: bytes, src: nat) returns (ret: int, cLen: nat)
    ensures Char(ret, cLen) == GetChar(d, src)
  {
    hide Utf8.Decode, HexNumber, DecNumber;
    ret, cLen := -1, 0;
    if At(d, src) != AMPERSAND {
      if 0 < At(d, src) < 128 && IsXmlChar(At(d, src)) {
        return At(d, src), 1;
      }
      var u := Utf8.Decode(d, src);
      if !IsXmlChar(u.value) {
        return -1, u.len;
      }
      return u.value, u.len;
    } else if LookingNoCase(d, src, QUOT) {
      return 0x22, |QUOT|;
    } else if LookingNoCase(d, src, LT) {
      return 0x3C, |LT|;
    } else if LookingNoCase(d, src, GT) {
      return 0x3E, |GT|;
    } else if LookingNoCase(d, src, APOS) {
      return 0x27, |APOS|;
    } else if LookingNoCase(d, src, AMP) {
      return 0x26, |AMP|;
    } else if LookingNoCase(d, src, ESC_HEX) {
      var sum, pnum := ReadHex(d, src + |ESC_HEX|);
      if pnum == src || At(d, pnum) != SEMICOLON || !IsXmlChar(sum) {
        return -1, 0;
      }
      return sum, pnum - src + 1;
    } else if LookingNoCase(d, src, ESC_DEC) {
      var sum, pnum := ReadDec(d, src + |ESC_DEC|);
      if pnum == src || At(d, pnum) != SEMICOLON || !IsXmlChar(sum) {
        return -1, 0;
      }
      return sum, pnum - src + 1;
    }
  }

  class Parser {
    const data: bytes
    var curPtr: nat
    var savePtr: nat
    var lastElem: bytes
    var tokenBuf: bytes // empty when nothing is allocated
    var pNeedPrefixNode: Node?
    var elements: seq<Scope> // the top comes first
    var currentNodePtr: Node?
    var state: State
    var bHasTopLevel: bool

    constructor (buffer: bytes)
      ensures data == buffer && curPtr == 0 && state == InElement && lastElem == [] && elements == []
      ensures pNeedPrefixNode == null && currentNodePtr == null && !bHasTopLevel
    {
      data, curPtr, savePtr, lastElem, tokenBuf := buffer, 0, 0, [], [];
      pNeedPrefixNode, elements, currentNodePtr, state, bHasTopLevel := null, [], null, InElement, false;
    }

    method SkipWhiteSpaces()
      modifies this`curPtr
      ensures curPtr == SkipWhite(data, old(curPtr))
    {
      while At(data, curPtr) != 0 && IsWhite(At(data, curPtr))
        invariant SkipWhite(data, curPtr) == SkipWhite(data, old(curPtr))
        decreases |data| - curPtr
      {
        curPtr := curPtr + 1;
      }
    }

    method SkipMiscellany() returns (ok: bool)
      requires NoNul(data)
      modifies this`curPtr
      ensures Skip(ok, curPtr) == SkipMisc(data, old(curPtr))
    {
      var done := false;
      ok := true;
      while !done && ok
        invariant !done && ok ==> SkipMisc(data, curPtr) == SkipMisc(data, old(curPtr))
        invariant done || !ok ==> SkipMisc(data, old(curPtr)) == Skip(ok, curPtr)
        decreases !done && ok, |data| - curPtr
      {
        hide SkipComment, SkipString;
        if LookingNoCase(data, curPtr, BEGIN_COMMENT) {
          ok, curPtr := SkipCommentFrom(data, curPtr);
        } else if LookingNoCase(data, curPtr, XML_DECL) || LookingNoCase(data, curPtr, XML_DECL2) {
          ok := false;
        } else if LookingNoCase(data, curPtr, BEGIN_PI) {
          ok, curPtr := SkipStringFrom(data, curPtr, END_PI);
        } else {
          done := true;
        }
        SkipWhiteSpaces();
      }
    }

    method SkipPrologue() returns (ok: bool)
      requires NoNul(data) && curPtr == 0
      modifies this`curPtr
      ensures ok == SkipProlog(data).ok && (ok ==> curPtr == SkipProlog(data).cur)
    {
      hide SkipMisc, SkipWhite, SkipString, SkipDocType, Looking;
      if Looking(data, curPtr, BOM) {
        curPtr := curPtr + |BOM|;
      }
      SkipWhiteSpaces();
      if Looking(data, curPtr, XML_DECL) {
        ok, curPtr := SkipStringFrom(data, curPtr, END_PI);
        SkipWhiteSpaces();
        if !ok {
          return;
        }
      }
      ok := SkipMiscellany();
      if ok && Looking(data, curPtr, BEGIN_DOCTYPE) {
        curPtr := curPtr + 1;
        var cur;
        ok, cur := SkipDocTypeFrom(data, curPtr);
        curPtr := cur;
      }
      if ok {
        ok := SkipMiscellany();
      }
    }

    /** Appends the characters of a stretch of the buffer, with references replaced, to the token buffer. */
    method CopyIntoToken(src: nat, len: nat) returns (ok: bool)
      requires tokenBuf == []
      modifies this`tokenBuf
      ensures Copied(ok, tokenBuf) == CopyToken(data, src, len)
    {
      hide GetChar, Utf8.Encode;
      if len == 0 {
        return false;
      }
      var psrc, pend := src, src + len;
      while psrc < pend
        invariant CopyFrom(data, src, pend, []) == CopyFrom(data, psrc, pend, tokenBuf)
        decreases pend - psrc
      {
        var c, cl := ReadChar(data, psrc);
        CharLength(data, psrc);
        if c <= 0 {
          return false;
        }
        if cl == 1 {
          tokenBuf := tokenBuf + [c];
          psrc := psrc + 1;
        } else {
          var uch := Utf8.Encode(c);
          if uch == [] {
            return false;
          }
          tokenBuf := tokenBuf + uch;
          psrc := psrc + cl;
        }
      }
      return psrc <= pend;
    }

    /** The length of the run of name characters at the cursor, the first of which has been read. */
    method NameLength(first: nat) returns (index: nat)
      requires curPtr + first <= |data|
      ensures curPtr + index == NameEnd(data, curPtr + first) && index >= first
    {
      hide IsName, Utf8.Decode;
      index := first;
      var goesOn := true;
      while goesOn
        invariant index >= first
        invariant goesOn ==> curPtr + index <= |data| && NameEnd(data, curPtr + first) == NameEnd(data, curPtr + index)
        invariant !goesOn ==> curPtr + index == NameEnd(data, curPtr + first)
        decreases goesOn, |data| - curPtr - index
      {
        var u := Utf8.Decode(data, curPtr + index);
        goesOn := IsNameChar(u.value, true);
        NameEndStep(data, curPtr + index);
        if goesOn {
          index := index + u.len;
        }
      }
    }

    /** Measures and copies the next token; its length, or 0. The end of an empty tag is remembered. */
    method GetNextToken() returns (tokenLength: nat)
      requires NoNul(data)
      modifies this`curPtr, this`savePtr, this`tokenBuf
      ensures Token(tokenLength, tokenBuf, curPtr) == NextToken(data, old(curPtr))
      ensures savePtr == if tokenLength > 0 && tokenBuf == COMPLETE_TAG then curPtr - tokenLength else old(savePtr)
    {
      hide SkipMisc, IsName, CopyToken;
      tokenLength := 0;
      tokenBuf := [];
      if At(data, curPtr) == 0 {
        return;
      }
      var ok := SkipMiscellany();
      if !ok {
        return;
      }
      ghost var q := curPtr;
      tokenLength := MeasureToken();
      CopiedCompleteTag(data, q);
      ok := CopyIntoToken(curPtr, tokenLength);
      if !ok {
        return 0;
      }
      curPtr := curPtr + tokenLength;
    }

    /** The length of the token at the cursor. */
    method MeasureToken() returns (tokenLength: nat)
      modifies this`savePtr
      ensures tokenLength == TokenLength(data, curPtr)
      ensures savePtr == if Looking(data, curPtr, COMPLETE_TAG) then curPtr else old(savePtr)
    {
      hide IsName, Utf8.Decode;
      CompleteTagAt(data, curPtr);
      tokenLength := 0;
      var c := At(data, curPtr);
      if c == QUOTE {
        tokenLength := 1;
      } else if c == SINGLE_QUOTE {
        tokenLength := 1;
      } else if c == LESS_THAN {
        var temp := Utf8.Decode(data, curPtr + 1).value;
        SlashInside(data, curPtr + 1);
        if temp == 0x2F {
          tokenLength := 2;
        } else {
          var begins := IsNameChar(temp, false);
          if begins {
            tokenLength := 1;
          }
        }
      } else if c == EQUALS {
        tokenLength := 1;
      } else if c == SLASH {
        if At(data, curPtr + 1) == GREATER_THAN {
          tokenLength := 2;
          savePtr := curPtr;
        }
      } else if c == GREATER_THAN {
        tokenLength := 1;
      } else {
        var u := Utf8.Decode(data, curPtr);
        var begins := IsNameChar(u.value, false);
        if begins {
          NameInside(data, curPtr);
          tokenLength := NameLength(u.len);
        }
      }
    }
  }

  lemma CharLength(d: bytes, p: nat)
    ensures GetChar(d, p).c > 0 ==> GetChar(d, p).len > 0
  {
  }

  lemma NameInside(d: bytes, p: nat)
    requires IsName(Utf8.Decode(d, p).value, false)
    ensures Utf8.Decode(d, p).len > 0 && p + Utf8.Decode(d, p).len <= |d|
  {
    NameIsXmlChar(Utf8.Decode(d, p).value, false);
    hide IsName;
  }

  lemma SlashInside(d: bytes, p: nat)
    ensures Utf8.Decode(d, p).value == 0x2F ==> p < |d|
  {
  }

  lemma CompleteTagAt(d: bytes, p: nat)
    ensures Looking(d, p, COMPLETE_TAG) <==> At(d, p) == SLASH && At(d, p + 1) == GREATER_THAN
  {
    if p + 2 <= |d| {
      assert d[p..p + 2] == [d[p], d[p + 1]];
    }
  }

  lemma {:induction false} CopyExtends(d: bytes, p: nat, end: nat, out: bytes)
    ensures out <= CopyFrom(d, p, end, out).out
    decreases end - p
  {
    hide GetChar, Utf8.Encode;
    if p < end {
      var ch := GetChar(d, p);
      CharLength(d, p);
      if ch.c > 0 {
        if ch.len == 1 {
          CopyExtends(d, p + 1, end, out + [ch.c]);
        } else {
          CopyExtends(d, p + ch.len, end, out + Utf8.Encode(ch.c));
        }
      }
    }
  }

  lemma EncodeFirst(c: int)
    requires 0 <= c && c != 0x2F
    ensures Utf8.Encode(c) == [] || Utf8.Encode(c)[0] != SLASH
  {
  }

  lemma NameFirst(d: bytes, q: nat)
    requires IsName(Utf8.Decode(d, q).value, false)
    ensures var u := Utf8.Decode(d, q);
            GetChar(d, q) == Char(u.value, u.len) && u.len > 0 && u.value > 0 && u.value != 0x2F
    ensures Utf8.Encode(Utf8.Decode(d, q).value) != []
  {
    CharOfName(d, q, false);
    NameIsXmlChar(Utf8.Decode(d, q).value, false);
    EncodeSome(Utf8.Decode(d, q).value);
    if Utf8.Decode(d, q).value == 0x2F {
      StartPunctuation(0x2F);
    }
    hide IsName, Utf8.Decode;
  }

  /** A name token does not begin with a solidus. */
  lemma NameNotSlash(d: bytes, q: nat, n: nat)
    requires IsName(Utf8.Decode(d, q).value, false) && n > 0
    ensures var t := CopyToken(d, q, n); t.ok ==> t.out != [] && t.out[0] != SLASH
  {
    hide IsName, Utf8.Decode, Utf8.Encode, GetChar;
    var u := Utf8.Decode(d, q);
    NameFirst(d, q);
    EncodeFirst(u.value);
    FirstCopied(d, q, q + n, u.value, u.len);
    CopyExtends(d, q + u.len, q + n, if u.len == 1 then [u.value] else Utf8.Encode(u.value));
  }

  lemma FirstCopied(d: bytes, q: nat, end: nat, c: int, len: nat)
    requires q < end && GetChar(d, q) == Char(c, len) && c > 0 && Utf8.Encode(c) != []
    ensures len == 1 ==> c < 256 && CopyFrom(d, q, end, []) == CopyFrom(d, q + 1, end, [c])
    ensures len != 1 ==> CopyFrom(d, q, end, []) == CopyFrom(d, q + len, end, Utf8.Encode(c))
  {
    hide GetChar, Utf8.Encode;
    assert [] + Utf8.Encode(c) == Utf8.Encode(c);
    assert len == 1 ==> [] + [c] == [c];
  }

  /** A token is copied as "/>" exactly if it is one. */
  lemma CopiedCompleteTag(d: bytes, q: nat)
    ensures var t := CopyToken(d, q, TokenLength(d, q));
            t.ok && t.out == COMPLETE_TAG <==> Looking(d, q, COMPLETE_TAG)
  {
    CompleteTagAt(d, q);
    var n, c := TokenLength(d, q), At(d, q);
    if n > 0 {
      TokenCopied(d, q);
      if c in {QUOTE, SINGLE_QUOTE, LESS_THAN, EQUALS, SLASH, GREATER_THAN} {
        StartPunctuationOf(c);
      } else {
        NameNotSlash(d, q, n);
      }
    }
    hide IsName, CopyToken, Utf8.Decode;
  }

  lemma StartPunctuationOf(c: byte)
    requires c in {QUOTE, SINGLE_QUOTE, LESS_THAN, EQUALS, SLASH, GREATER_THAN}
    ensures !IsName(c, false)
  {
    Punctuation(c);
    hide InTable;
  }
}
