/** Escaping and its inverse, the copying of a token. */
module Escaping {
  import opened Bytes
  import opened NameTables
  import opened Lexer
  import opened Printing
  import Utf8

  /** Strings of XML characters in shortest-form UTF-8. */
  ghost predicate WellFormed(s: bytes) {
    exists cs: seq<int> :: XmlChars(cs) && s == Utf8.EncodeAll(cs)
  }

  predicate XmlChars(cs: seq<int>) {
    forall i | 0 <= i < |cs| :: IsXmlChar(cs[i])
  }

  lemma {:induction false} EncodeAllAdd(cs: seq<int>, c: int)
    ensures Utf8.EncodeAll(cs + [c]) == Utf8.EncodeAll(cs) + Utf8.Encode(c)
  {
    hide Utf8.Encode;
    if cs == [] {
      assert Utf8.EncodeAll([c]) == Utf8.Encode(c) + Utf8.EncodeAll([]);
    } else {
      EncodeAllAdd(cs[1..], c);
      assert (cs + [c])[1..] == cs[1..] + [c];
    }
  }

  lemma {:induction false} EscapeConcat(a: bytes, b: bytes)
    ensures Escape(a + b) == Escape(a) + Escape(b)
  {
    hide EscapeByte;
    if b == [] {
      assert a + b == a;
    } else {
      var n := |b| - 1;
      EscapeConcat(a, b[..n]);
      assert (a + b)[..|a + b| - 1] == a + b[..n];
    }
  }

  lemma {:induction false} EscapePlain(s: bytes)
    requires forall i | 0 <= i < |s| :: s[i] >= 128
    ensures Escape(s) == s
  {
    if s != [] {
      EscapePlain(s[..|s| - 1]);
      assert EscapeByte(s[|s| - 1]) == [s[|s| - 1]];
      assert s == s[..|s| - 1] + [s[|s| - 1]];
    }
  }

  lemma EncodeBytes(c: int)
    requires IsXmlChar(c)
    ensures c < 128 ==> Utf8.Encode(c) == [c]
    ensures c >= 128 ==> |Utf8.Encode(c)| > 1 && forall i | 0 <= i < |Utf8.Encode(c)| :: Utf8.Encode(c)[i] >= 128
  {
  }

  /** An escaped character. */
  function EscapeChar(c: int): bytes {
    if 0 <= c < 128 then EscapeByte(c) else Utf8.Encode(c)
  }

  lemma EscapeEncode(c: int)
    requires IsXmlChar(c)
    ensures Escape(Utf8.Encode(c)) == EscapeChar(c)
  {
    EncodeBytes(c);
    if c < 128 {
      assert Escape([c]) == Escape([]) + EscapeByte(c);
    } else {
      EscapePlain(Utf8.Encode(c));
    }
  }

  /** A plain character is copied as it stands. */
  lemma CopyPlain(d: bytes, p: nat, end: nat, out: bytes, c: int)
    requires IsXmlChar(c) && c != AMPERSAND
    requires Looking(d, p, Utf8.Encode(c)) && p + |Utf8.Encode(c)| <= end
    ensures CopyFrom(d, p, end, out) == CopyFrom(d, p + |Utf8.Encode(c)|, end, out + Utf8.Encode(c))
  {
    EncodeBytes(c);
    Utf8.DecodeEncode(d, p, c);
    hide Utf8.Encode, Utf8.Decode;
    LookingAt(d, p, Utf8.Encode(c), 0);
    assert GetChar(d, p) == Char(c, |Utf8.Encode(c)|);
  }

  lemma LookingNoCaseSame(d: bytes, p: nat, x: bytes)
    requires Looking(d, p, x)
    ensures LookingNoCase(d, p, x)
  {
    forall i | 0 <= i < |x| ensures d[p + i] == x[i] {
      LookingAt(d, p, x, i);
    }
  }

  /** A reference is read as the character it stands for. */
  lemma ReferenceChar(d: bytes, p: nat, b: byte)
    requires b in {LESS_THAN, GREATER_THAN, AMPERSAND, SINGLE_QUOTE, QUOTE}
    requires Looking(d, p, EscapeByte(b))
    ensures GetChar(d, p) == Char(b, |EscapeByte(b)|)
  {
    hide Utf8.Decode;
    var e := EscapeByte(b);
    LookingNoCaseSame(d, p, e);
    LookingAt(d, p, e, 0);
    LookingAt(d, p, e, 1);
    LookingAt(d, p, e, 2);
    if b != QUOTE {
      LookingNoCaseNo(d, p, QUOT, 1);
    }
    if b != LESS_THAN {
      LookingNoCaseNo(d, p, LT, 1);
    }
    if b != GREATER_THAN {
      LookingNoCaseNo(d, p, GT, 1);
    }
    if b == AMPERSAND {
      LookingNoCaseNo(d, p, APOS, 2);
    }
  }

  lemma CopyReference(d: bytes, p: nat, end: nat, out: bytes, c: int, len: nat)
    requires Utf8.Encode(c) != [] && c > 0 && len > 1 && p + len <= end && GetChar(d, p) == Char(c, len)
    ensures CopyFrom(d, p, end, out) == CopyFrom(d, p + len, end, out + Utf8.Encode(c))
  {
    hide GetChar, Utf8.Encode;
  }

  lemma CopyEscapedChar(d: bytes, p: nat, end: nat, out: bytes, c: int)
    requires IsXmlChar(c)
    requires Looking(d, p, EscapeChar(c)) && p + |EscapeChar(c)| <= end
    ensures CopyFrom(d, p, end, out) == CopyFrom(d, p + |EscapeChar(c)|, end, out + Utf8.Encode(c))
  {
    hide CopyFrom, GetChar, Looking;
    EncodeBytes(c);
    hide Utf8.Encode;
    if c in {LESS_THAN, GREATER_THAN, AMPERSAND, SINGLE_QUOTE, QUOTE} {
      ReferenceChar(d, p, c);
      CopyReference(d, p, end, out, c, |EscapeByte(c)|);
    } else {
      CopyPlain(d, p, end, out, c);
      assert EscapeChar(c) == Utf8.Encode(c);
    }
  }

  lemma EscapeEncodeAll(cs: seq<int>)
    requires XmlChars(cs) && cs != []
    ensures Escape(Utf8.EncodeAll(cs)) == EscapeChar(cs[0]) + Escape(Utf8.EncodeAll(cs[1..]))
  {
    hide Utf8.Encode, EscapeChar;
    EscapeConcat(Utf8.Encode(cs[0]), Utf8.EncodeAll(cs[1..]));
    EscapeEncode(cs[0]);
  }

  /** Copying an escaped string appends the string it came from. */
  lemma {:induction false} CopyEscaped(d: bytes, p: nat, end: nat, out: bytes, cs: seq<int>)
    requires XmlChars(cs) && end == p + |Escape(Utf8.EncodeAll(cs))|
    requires Looking(d, p, Escape(Utf8.EncodeAll(cs)))
    ensures CopyFrom(d, p, end, out) == Copied(true, out + Utf8.EncodeAll(cs))
    decreases |cs|
  {
    hide GetChar, Utf8.Encode, EscapeChar, Escape, Looking;
    if cs == [] {
      assert Escape([]) == [] by { EscapeEmpty(); }
      assert out + [] == out;
    } else {
      EscapeEncodeAll(cs);
      var e := EscapeChar(cs[0]);
      LookingConcat(d, p, e, Escape(Utf8.EncodeAll(cs[1..])));
      CopyEscapedChar(d, p, end, out, cs[0]);
      var out' := out + Utf8.Encode(cs[0]);
      CopyEscaped(d, p + |e|, end, out', cs[1..]);
      assert out' + Utf8.EncodeAll(cs[1..]) == out + Utf8.EncodeAll(cs);
    }
  }

  lemma EscapeEmpty()
    ensures Escape([]) == []
  {
  }

  /** Whatever copying yields is well-formed. */
  lemma {:induction false} CopyYields(d: bytes, p: nat, end: nat, out: bytes)
    requires WellFormed(out)
    ensures WellFormed(CopyFrom(d, p, end, out).out)
    decreases end - p
  {
    hide GetChar, Utf8.Encode;
    if p < end {
      var ch := GetChar(d, p);
      CharIsXml(d, p);
      if ch.c > 0 {
        EncodeBytes(ch.c);
        var cs: seq<int> :| XmlChars(cs) && out == Utf8.EncodeAll(cs);
        EncodeAllAdd(cs, ch.c);
        assert XmlChars(cs + [ch.c]);
        if ch.len == 1 {
          CopyYields(d, p + 1, end, out + [ch.c]);
        } else {
          CopyYields(d, p + ch.len, end, out + Utf8.Encode(ch.c));
        }
      }
    }
  }

  lemma CharIsXml(d: bytes, p: nat)
    ensures var r := GetChar(d, p);
            && (r.c == -1 || IsXmlChar(r.c))
            && (r.c > 0 ==> 0 < r.len && p + r.len <= |d|)
            && (r.c > 0 && r.len == 1 ==> r.c < 128)
  {
  }

  lemma CopyEscapedToken(d: bytes, p: nat, s: bytes)
    requires s != [] && WellFormed(s) && Looking(d, p, Escape(s))
    ensures CopyToken(d, p, |Escape(s)|) == Copied(true, s)
  {
    hide Utf8.Encode, GetChar, Escape;
    var cs: seq<int> :| XmlChars(cs) && s == Utf8.EncodeAll(cs);
    CopyEscaped(d, p, p + |Escape(s)|, [], cs);
    assert [] + s == s;
    EscapeNonEmpty(s);
  }

  /** Unescaping undoes escaping exactly on the non-empty well-formed strings. */
  lemma UnescapeEscape(s: bytes)
    ensures CopyToken(Escape(s), 0, |Escape(s)|) == Copied(true, s) <==> s != [] && WellFormed(s)
  {
    hide CopyFrom, WellFormed;
    var e := Escape(s);
    if s == [] {
      EscapeEmpty();
    } else if WellFormed(s) {
      assert e[0..0 + |e|] == e;
      CopyEscapedToken(e, 0, s);
    } else {
      EscapeNonEmpty(s);
      WellFormedEmpty();
      CopyYields(e, 0, |e|, []);
    }
  }

  lemma WellFormedEmpty()
    ensures WellFormed([])
  {
    assert XmlChars([]) && [] == Utf8.EncodeAll([]);
  }

  lemma EscapeNonEmpty(s: bytes)
    requires s != []
    ensures Escape(s) != []
  {
  }

  /** Free of the bytes that end a text or a quoted value. */
  predicate Clean(e: bytes) {
    forall i | 0 <= i < |e| :: e[i] !in {LESS_THAN, GREATER_THAN, QUOTE, SINGLE_QUOTE}
  }

  lemma EscapeByteIsClean(b: byte)
    ensures Clean(EscapeByte(b))
  {
  }

  /** Nothing that ends a text or a quoted value occurs in an escaped string. */
  lemma {:induction false} EscapeIsClean(s: bytes)
    ensures Clean(Escape(s)) && forall i: nat :: !Looking(Escape(s), i, CD_END)
  {
    hide EscapeByte;
    var e := Escape(s);
    if s != [] {
      EscapeIsClean(s[..|s| - 1]);
      EscapeByteIsClean(s[|s| - 1]);
    }
    assert Clean(e);
    forall i: nat ensures !Looking(e, i, CD_END) {
      assert i + 2 < |e| ==> e[i + 2] != GREATER_THAN;
      LookingNo(e, i, CD_END, 2);
    }
  }
}
