/** How the lexer and the readers of one node treat what the printer writes. */
module Reading {
  import opened Bytes
  import opened NameTables
  import opened Lexer
  import opened Xml
  import opened Machine
  import opened Parse
  import opened Printing
  import opened Escaping
  import Utf8

  predicate NameChars(cs: seq<int>) {
    cs != [] && IsName(cs[0], false) && forall i | 0 <= i < |cs| :: IsName(cs[i], true)
  }

  /** Names of section 2.3 of XML 1.0, in shortest-form UTF-8. */
  ghost predicate ValidName(s: bytes) {
    exists cs: seq<int> :: NameChars(cs) && s == Utf8.EncodeAll(cs)
  }

  /** The contents a CDATA section can carry through the parser. */
  predicate ValidCData(v: bytes) {
    && v != []
    && (forall i | 0 <= i < |v| :: v[i] < 128 && IsXmlChar(v[i]))
    && (forall i | 0 <= i < |v| :: !Looking(v, i, CD_END))
  }

  predicate WhiteFrom(d: bytes, p: nat, q: nat) {
    p <= q && forall i | p <= i < q :: IsWhite(At(d, i))
  }

  lemma {:induction false} SkipWhiteTo(d: bytes, p: nat, q: nat)
    requires WhiteFrom(d, p, q) && !IsWhite(At(d, q))
    ensures SkipWhite(d, p) == q
    decreases q - p
  {
    if p < q {
      assert IsWhite(At(d, p)) && p < |d|;
      SkipWhiteTo(d, p + 1, q);
    }
  }

  /** Where markup that the lexer skips cannot begin. */
  predicate NoMisc(d: bytes, q: nat) {
    !IsWhite(At(d, q)) && (At(d, q) == LESS_THAN ==> At(d, q + 1) != 0x21 && At(d, q + 1) != 0x3F)
  }

  lemma SkipMiscTo(d: bytes, p: nat, q: nat)
    requires WhiteFrom(d, p, q) && NoMisc(d, q)
    ensures SkipMisc(d, p) == Skip(true, q)
  {
    SkipWhiteTo(d, p, q);
    if At(d, p) != LESS_THAN {
      LookingNoCaseNo(d, p, BEGIN_COMMENT, 0);
      LookingNoCaseNo(d, p, XML_DECL, 0);
      LookingNoCaseNo(d, p, XML_DECL2, 0);
      LookingNoCaseNo(d, p, BEGIN_PI, 0);
    } else {
      assert p == q;
      LookingNoCaseNo(d, p, BEGIN_COMMENT, 1);
      LookingNoCaseNo(d, p, XML_DECL, 1);
      LookingNoCaseNo(d, p, XML_DECL2, 1);
      LookingNoCaseNo(d, p, BEGIN_PI, 1);
    }
  }

  // ----- tokens

  lemma CharToken(d: bytes, p: nat, q: nat)
    requires WhiteFrom(d, p, q) && At(d, q) in {EQUALS, QUOTE, SINGLE_QUOTE, GREATER_THAN}
    ensures NextToken(d, p) == Token(1, [At(d, q)], q + 1)
  {
    hide IsName, SkipMisc, Utf8.Decode, CopyToken;
    assert At(d, p) != 0;
    SkipMiscTo(d, p, q);
    CopyOne(d, q);
  }

  /** The end of an empty-element tag is one token. */
  lemma SlashToken(d: bytes, p: nat, q: nat)
    requires WhiteFrom(d, p, q) && At(d, q) == SLASH && At(d, q + 1) == GREATER_THAN
    ensures NextToken(d, p) == Token(2, COMPLETE_TAG, q + 2)
  {
    hide IsName, SkipMisc, Utf8.Decode, CopyToken;
    assert At(d, p) != 0;
    SkipMiscTo(d, p, q);
    CopyTwo(d, q);
  }

  lemma NotWhiteName(c: int, b: bool)
    requires IsName(c, b)
    ensures c > 0x2F || c == 0x2D || c == 0x2E
    ensures c !in {0x3C, 0x3D, 0x3E, 0x3F, 0x5B}
    ensures !b ==> c >= 0x3A
  {
    NameMonotone(c, b);
    if c < 0x2D || c == 0x2F || c in {0x3C, 0x3D, 0x3E, 0x3F, 0x5B} {
      Punctuation(c);
    }
    if !b && c < 0x3A {
      StartPunctuation(c);
    }
    hide IsName;
  }

  lemma NameMonotone(c: int, b: bool)
    requires IsName(c, b)
    ensures IsName(c, true)
  {
    hide Letter, NameChar;
  }

  lemma AsciiDecode(d: bytes, p: nat)
    ensures At(d, p) < 128 ==> Utf8.Decode(d, p).value == At(d, p)
  {
  }

  /** A '<' before a name is a token of its own. */
  lemma OpenToken(d: bytes, p: nat, q: nat)
    requires WhiteFrom(d, p, q) && At(d, q) == LESS_THAN && IsName(Utf8.Decode(d, q + 1).value, false)
    ensures NextToken(d, p) == Token(1, [LESS_THAN], q + 1)
    ensures At(d, q + 1) !in {0x21, 0x2F, 0x3F}
  {
    NotWhiteName(Utf8.Decode(d, q + 1).value, false);
    AsciiDecode(d, q + 1);
    hide IsName, SkipMisc, Utf8.Decode, CopyToken, WhiteFrom, At, NameEnd;
    SomethingThere(d, p, q);
    SkipMiscTo(d, p, q);
    CopyOne(d, q);
  }

  lemma EndToken(d: bytes, p: nat)
    requires Looking(d, p, END_TAG)
    ensures NextToken(d, p) == Token(2, END_TAG, p + 2)
  {
    LookingAt(d, p, END_TAG, 0);
    LookingAt(d, p, END_TAG, 1);
    assert Utf8.Decode(d, p + 1).value == SLASH;
    hide IsName, SkipMisc, Utf8.Decode, CopyToken;
    SkipMiscTo(d, p, p);
    CopyTwo(d, p);
  }

  /** The run of name characters of a name that something else follows. */
  lemma {:induction false} NameRun(d: bytes, p: nat, cs: seq<int>, out: bytes)
    requires forall i | 0 <= i < |cs| :: IsName(cs[i], true)
    requires Looking(d, p, Utf8.EncodeAll(cs))
    requires !IsName(Utf8.Decode(d, p + |Utf8.EncodeAll(cs)|).value, true)
    ensures NameEnd(d, p) == p + |Utf8.EncodeAll(cs)|
    ensures CopyFrom(d, p, p + |Utf8.EncodeAll(cs)|, out) == Copied(true, out + Utf8.EncodeAll(cs))
    decreases |cs|
  {
    hide IsName, GetChar, Utf8.Encode, Utf8.Decode, Looking;
    if cs == [] {
      assert out + [] == out;
    } else {
      var c, rest := cs[0], Utf8.EncodeAll(cs[1..]);
      var e := Utf8.Encode(c);
      LookingConcat(d, p, e, rest);
      NameIsXmlChar(c, true);
      Utf8.DecodeEncode(d, p, c);
      NameRun(d, p + |e|, cs[1..], out + e);
      NotWhiteName(c, true);
      CopyPlain(d, p, p + |e + rest|, out, c);
      assert out + e + rest == out + (e + rest);
    }
  }

  lemma NameCut(cs: seq<int>)
    requires NameChars(cs)
    ensures Utf8.EncodeAll(cs) == Utf8.Encode(cs[0]) + Utf8.EncodeAll(cs[1..]) && Utf8.Encode(cs[0]) != []
    ensures IsName(cs[0], false) && IsXmlChar(cs[0]) && 0 <= cs[0] <= 0x7FFFFFFF
    ensures forall i | 0 <= i < |cs[1..]| :: IsName(cs[1..][i], true)
  {
    NameIsXmlChar(cs[0], false);
    EncodeBytes(cs[0]);
    hide IsName, Utf8.Encode;
  }

  /** The characters of a name that something else follows are measured and copied. */
  lemma NameSpelled(d: bytes, q: nat, cs: seq<int>, name: bytes)
    requires NameChars(cs) && name == Utf8.EncodeAll(cs) && Looking(d, q, name)
    requires !IsName(Utf8.Decode(d, q + |name|).value, true)
    ensures name != [] && TokenLength(d, q) == |name| && CopyToken(d, q, |name|) == Copied(true, name)
    ensures cs != [] && IsName(cs[0], false) && Utf8.Decode(d, q).value == cs[0] == Utf8.Decode(name, 0).value
  {
    hide Utf8.Encode, Utf8.Decode, IsName, IsXmlChar, CopyToken, CopyFrom, NameEnd, Looking, TokenLength,
         Utf8.EncodeAll;
    NameCut(cs);
    var e, rest := Utf8.Encode(cs[0]), Utf8.EncodeAll(cs[1..]);
    LookingConcat(d, q, e, rest);
    Utf8.DecodeEncode(d, q, cs[0]);
    NameAtStart(name, cs[0], rest);
    NameRun(d, q, cs, []);
    NameRun(d, q + |e|, cs[1..], []);
    ConcatNone(name);
    CopyTokenIs(d, q, |name|);
    NameLength(d, q, cs[0], q + |name|);
  }

  /** A name is one token, when something other than a name character follows it. */
  lemma NameToken(d: bytes, p: nat, q: nat, name: bytes)
    requires WhiteFrom(d, p, q) && ValidName(name) && Looking(d, q, name)
    requires !IsName(Utf8.Decode(d, q + |name|).value, true)
    ensures NextToken(d, p) == Token(|name|, name, q + |name|) && name != []
    ensures IsName(Utf8.Decode(d, q).value, false) && IsName(Utf8.Decode(name, 0).value, false)
  {
    hide Utf8.Encode, Utf8.Decode, IsName, CopyToken, NameChars, Looking, TokenLength, NextToken, Utf8.EncodeAll,
         SkipMisc, WhiteFrom;
    var cs: seq<int> :| NameChars(cs) && name == Utf8.EncodeAll(cs);
    NameSpelled(d, q, cs, name);
    NotWhiteName(cs[0], false);
    NameFirst(d, q, cs[0]);
    hide At;
    SomethingThere(d, p, q);
    SkipMiscTo(d, p, q);
    NextTokenIs(d, p, q);
  }

  lemma SomethingThere(d: bytes, p: nat, q: nat)
    requires WhiteFrom(d, p, q) && At(d, q) != 0
    ensures At(d, p) != 0
  {
  }

  lemma CopyTokenIs(d: bytes, p: nat, n: nat)
    requires n > 0
    ensures CopyToken(d, p, n) == CopyFrom(d, p, p + n, [])
  {
  }

  lemma NextTokenIs(d: bytes, p: nat, q: nat)
    requires At(d, p) != 0 && SkipMisc(d, p) == Skip(true, q)
    ensures var n := TokenLength(d, q);
            var t := CopyToken(d, q, n);
            NextToken(d, p) == if t.ok then Token(n, t.out, q + n) else Token(0, t.out, q)
  {
    hide TokenLength, CopyToken, SkipMisc;
  }

  lemma NameAtStart(name: bytes, c: int, rest: bytes)
    requires 0 <= c <= 0x7FFFFFFF && name == Utf8.Encode(c) + rest
    ensures Utf8.Decode(name, 0) == Utf8.Decoded(c, |Utf8.Encode(c)|)
  {
    hide Utf8.Encode, Utf8.Decode;
    assert name[0..0 + |Utf8.Encode(c)|] == Utf8.Encode(c);
    Utf8.DecodeEncode(name, 0, c);
  }

  lemma NameFirst(d: bytes, q: nat, c: int)
    requires Utf8.Decode(d, q).value == c && c >= 0x3A && c !in {0x3C, 0x3D, 0x3E}
    ensures At(d, q) >= 0x3A && At(d, q) !in {LESS_THAN, EQUALS, GREATER_THAN}
  {
  }

  lemma NameLength(d: bytes, q: nat, c: int, end: nat)
    requires IsName(c, false) && Utf8.Decode(d, q).value == c
    requires NameEnd(d, q + Utf8.Decode(d, q).len) == end >= q
    ensures TokenLength(d, q) == end - q
  {
    NotWhiteName(c, false);
    NameFirst(d, q, c);
    hide IsName, Utf8.Decode, NameEnd;
  }
}
