/** What the lexer of the parser computes from the buffer and an offset into it, in strict mode. */
module Lexer {
  import opened Bytes
  import opened NameTables
  import Utf8

  const LESS_THAN: byte := 0x3C // <
  const GREATER_THAN: byte := 0x3E // >
  const SLASH: byte := 0x2F
  const EQUALS: byte := 0x3D
  const QUOTE: byte := 0x22
  const SINGLE_QUOTE: byte := 0x27
  const AMPERSAND: byte := 0x26
  const SEMICOLON: byte := 0x3B

  const COMPLETE_TAG: bytes := [0x2F, 0x3E] // />
  const END_TAG: bytes := [0x3C, 0x2F] // </
  const XML_DECL: bytes := [0x3C, 0x3F, 0x78, 0x6D, 0x6C, 0x20] // "<?xml "
  const XML_DECL2: bytes := [0x3C, 0x3F, 0x78, 0x6D, 0x6C, 0x3F] // <?xml?
  const BEGIN_COMMENT: bytes := [0x3C, 0x21, 0x2D, 0x2D] // <!--
  const END_COMMENT: bytes := [0x2D, 0x2D, 0x3E] // -->
  const BEGIN_PI: bytes := [0x3C, 0x3F] // <?
  const END_PI: bytes := [0x3F, 0x3E] // ?>
  const BEGIN_DOCTYPE: bytes := [0x3C, 0x21, 0x44, 0x4F, 0x43, 0x54, 0x59, 0x50, 0x45] // <!DOCTYPE
  const CD_START: bytes := [0x3C, 0x21, 0x5B, 0x43, 0x44, 0x41, 0x54, 0x41, 0x5B] // <![CDATA[
  const CD_END: bytes := [0x5D, 0x5D, 0x3E] // ]]>
  const BOM: bytes := [0xEF, 0xBB, 0xBF]

  const QUOT: bytes := [0x26, 0x71, 0x75, 0x6F, 0x74, 0x3B] // &quot;
  const LT: bytes := [0x26, 0x6C, 0x74, 0x3B] // &lt;
  const GT: bytes := [0x26, 0x67, 0x74, 0x3B] // &gt;
  const APOS: bytes := [0x26, 0x61, 0x70, 0x6F, 0x73, 0x3B] // &apos;
  const AMP: bytes := [0x26, 0x61, 0x6D, 0x70, 0x3B] // &amp;
  const ESC_HEX: bytes := [0x26, 0x23, 0x78] // &#x
  const ESC_DEC: bytes := [0x26, 0x23] // &#

  predicate IsWhite(b: byte) {
    b == 0x0A || b == 0x09 || b == 0x0D || b == 0x20
  }

  function SkipWhite(d: bytes, p: nat): (q: nat)
    ensures p <= q && (q > p ==> q <= |d|)
    ensures !IsWhite(At(d, q)) && forall i | p <= i < q :: IsWhite(At(d, i))
    decreases |d| - p
  {
    if p < |d| && IsWhite(d[p]) then SkipWhite(d, p + 1) else p
  }

  /** An offset and whether the skip succeeded; a failing skip may still have moved. */
  datatype Skip = Skip(ok: bool, cur: nat)

  /** Skips past the next occurrence of the key, or to the end of the buffer if there is none. */
  function SkipString(d: bytes, p: nat, key: bytes): (r: Skip)
    requires key != []
    ensures r.cur >= p && (r.ok ==> p + |key| <= r.cur <= |d|) && (r.cur > p ==> r.cur <= |d|)
  {
    match Find(d, p, key)
    case Some(q) => Skip(true, q + |key|)
    case None => Skip(false, if p <= |d| then |d| else p)
  }

  function SkipComment(d: bytes, p: nat): (r: Skip)
    ensures r.cur >= p && (r.ok ==> p < r.cur <= |d|) && (!r.ok ==> r.cur == p)
  {
    match Find(d, p, END_COMMENT)
    case Some(q) => if q != p && d[q - 1] != 0x2D then Skip(true, q + 3) else Skip(false, p)
    case None => Skip(false, p)
  }

  /** Skips comments, processing instructions and white space. */
  function SkipMisc(d: bytes, p: nat): (r: Skip)
    ensures r.cur >= p && (r.cur > p ==> r.cur <= |d|)
    ensures r.ok ==> !IsWhite(At(d, r.cur))
    decreases |d| - p
  {
    if LookingNoCase(d, p, BEGIN_COMMENT) then
      var r := SkipComment(d, p);
      var q := SkipWhite(d, r.cur);
      if r.ok then SkipMisc(d, q) else Skip(false, q)
    else if LookingNoCase(d, p, XML_DECL) || LookingNoCase(d, p, XML_DECL2) then Skip(false, SkipWhite(d, p))
    else if LookingNoCase(d, p, BEGIN_PI) then
      var r := SkipString(d, p, END_PI);
      var q := SkipWhite(d, r.cur);
      if r.ok then SkipMisc(d, q) else Skip(false, q)
    else Skip(true, SkipWhite(d, p))
  }

  /** From just after the '<' of the declaration; `num` counts the '<' still open. */
  function SkipDocType(d: bytes, p: nat, num: int): (r: Skip)
    ensures r.cur >= p && (r.cur > p ==> r.cur <= |d|)
    decreases |d| - p
  {
    if num == 0 then Skip(true, p)
    else if At(d, p) == 0 || p >= |d| then Skip(false, p)
    else if d[p] == LESS_THAN then SkipDocType(d, p + 1, num + 1)
    else if d[p] == GREATER_THAN then SkipDocType(d, p + 1, num - 1)
    else if d[p] == QUOTE then
      match Find(d, p + 1, [QUOTE])
      case Some(q) => SkipDocType(d, q + 1, num)
      case None => Skip(false, p)
    else SkipDocType(d, p + 1, num)
  }

  function SkipProlog(d: bytes): (r: Skip)
    ensures r.cur <= |d|
  {
    var p0 := SkipWhite(d, if Looking(d, 0, BOM) then 3 else 0);
    var decl := if Looking(d, p0, XML_DECL) then SkipString(d, p0, END_PI) else Skip(true, p0);
    var p1 := if Looking(d, p0, XML_DECL) then SkipWhite(d, decl.cur) else p0;
    if !decl.ok then Skip(false, p1)
    else
      var m := SkipMisc(d, p1);
      if !m.ok then m
      else if Looking(d, m.cur, BEGIN_DOCTYPE) then
        var t := SkipDocType(d, m.cur + 1, 1);
        if t.ok then SkipMisc(d, t.cur) else Skip(false, m.cur + 1)
      else SkipMisc(d, m.cur)
  }

  predicate IsDigit(b: byte) {
    0x30 <= b <= 0x39
  }

  predicate IsHexDigit(b: byte) {
    IsDigit(b) || 0x41 <= b <= 0x46 || 0x61 <= b <= 0x66
  }

  function HexValue(b: byte): nat
    requires IsHexDigit(b)
  {
    if b <= 0x39 then b - 0x30 else if b <= 0x46 then b - 0x41 + 10 else b - 0x61 + 10
  }

  datatype Number = Number(value: nat, end: nat)

  function HexNumber(d: bytes, p: nat, sum: nat): (r: Number)
    ensures r.end >= p
    decreases |d| - p
  {
    if p < |d| && IsHexDigit(d[p]) then HexNumber(d, p + 1, sum * 16 + HexValue(d[p])) else Number(sum, p)
  }

  function DecNumber(d: bytes, p: nat, sum: nat): (r: Number)
    ensures r.end >= p
    decreases |d| - p
  {
    if p < |d| && IsDigit(d[p]) then DecNumber(d, p + 1, sum * 10 + (d[p] - 0x30)) else Number(sum, p)
  }

  /** A character and the bytes it takes in the buffer; -1 for an illegal one. */
  datatype Char = Char(c: int, len: nat)

  function NumberChar(d: bytes, p: nat, n: Number): Char
    requires n.end >= p
  {
    if At(d, n.end) != SEMICOLON || !IsXmlChar(n.value) then Char(-1, 0) else Char(n.value, n.end - p + 1)
  }

  /** The next character, with the five named references and the numeric ones replaced. */
  function GetChar(d: bytes, p: nat): (r: Char)
    ensures r.c == -1 || IsXmlChar(r.c)
    ensures r.c > 0 ==> 0 < r.len && p + r.len <= |d|
    ensures r.c > 0 && r.len == 1 ==> r.c < 128
  {
    if At(d, p) != AMPERSAND then
      if 0 < At(d, p) < 128 && IsXmlChar(At(d, p)) then Char(At(d, p), 1)
      else
        var u := Utf8.Decode(d, p);
        if IsXmlChar(u.value) then Char(u.value, u.len) else Char(-1, u.len)
    else if LookingNoCase(d, p, QUOT) then Char(0x22, 6)
    else if LookingNoCase(d, p, LT) then Char(0x3C, 4)
    else if LookingNoCase(d, p, GT) then Char(0x3E, 4)
    else if LookingNoCase(d, p, APOS) then Char(0x27, 6)
    else if LookingNoCase(d, p, AMP) then Char(0x26, 5)
    else if LookingNoCase(d, p, ESC_HEX) then NumberChar(d, p, HexNumber(d, p + 3, 0))
    else if LookingNoCase(d, p, ESC_DEC) then NumberChar(d, p, DecNumber(d, p + 2, 0))
    else Char(-1, 0)
  }

  /** What the token buffer holds after a copy, and whether the copy succeeded. */
  datatype Copied = Copied(ok: bool, out: bytes)

  /** The copying loop: from `p` up to `end`, after `out` has been copied. */
  function CopyFrom(d: bytes, p: nat, end: nat, out: bytes): (r: Copied)
    decreases end - p
  {
    if p >= end then Copied(p == end, out)
    else
      var ch := GetChar(d, p);
      if ch.c <= 0 then Copied(false, out)
      else if ch.len == 1 then CopyFrom(d, p + 1, end, out + [ch.c])
      else
        var u := Utf8.Encode(ch.c);
        if u == [] then Copied(false, out) else CopyFrom(d, p + ch.len, end, out + u)
  }

  /** Copies `len` bytes into the empty token buffer. */
  function CopyToken(d: bytes, p: nat, len: nat): Copied {
    if len == 0 then Copied(false, []) else CopyFrom(d, p, p + len, [])
  }

  /** A token: its measured length (0 for none), the token buffer, and the cursor after it. */
  datatype Token = Token(len: nat, buf: bytes, cur: nat)

  /** The end of the run of name characters from `p`. */
  function NameEnd(d: bytes, p: nat): (q: nat)
    ensures p <= q && (q > p ==> q <= |d|)
    decreases |d| - p
  {
    var u := Utf8.Decode(d, p);
    if IsName(u.value, true) then
      NameIsXmlChar(u.value, true);
      NameEnd(d, p + u.len)
    else p
  }

  /** The length of the token at the cursor; 0 if none of the kinds of token starts here. */
  function TokenLength(d: bytes, p: nat): (n: nat)
    ensures n <= |d| - p || n == 0
  {
    var c := At(d, p);
    if c == QUOTE || c == SINGLE_QUOTE then 1
    else if c == LESS_THAN then
      var v := Utf8.Decode(d, p + 1).value;
      if v == 0x2F then (if p + 1 < |d| then 2 else 0) else if IsName(v, false) then 1 else 0
    else if c == EQUALS then 1
    else if c == SLASH then (if At(d, p + 1) == GREATER_THAN then 2 else 0)
    else if c == GREATER_THAN then 1
    else
      var u := Utf8.Decode(d, p);
      if IsName(u.value, false) then
        NameIsXmlChar(u.value, false);
        NameEnd(d, p + u.len) - p
      else 0
  }

  function NextToken(d: bytes, p: nat): (r: Token)
    ensures r.cur >= p && (r.cur > p ==> r.cur <= |d|)
    ensures r.len > 0 ==> p + r.len <= r.cur
  {
    if At(d, p) == 0 then Token(0, [], p)
    else
      var m := SkipMisc(d, p);
      if !m.ok then Token(0, [], m.cur)
      else
        var n := TokenLength(d, m.cur);
        var t := CopyToken(d, m.cur, n);
        if t.ok then Token(n, t.out, m.cur + n) else Token(0, t.out, m.cur)
  }
}
