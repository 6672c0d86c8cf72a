/** What numeric character references stand for, whatever their digits, and that they are read as nothing else. */
module References {
  import opened Bytes
  import opened NameTables
  import opened Lexer

  const ZERO: byte := 0x30

  function Zeros(k: nat): bytes {
    if k == 0 then [] else [ZERO] + Zeros(k - 1)
  }

  lemma {:induction false} ZerosMore(k: nat)
    ensures Zeros(k) + [ZERO] == Zeros(k + 1) && |Zeros(k)| == k
  {
    if k > 0 {
      ZerosMore(k - 1);
    }
  }

  // ----- decimal digits

  /** The decimal digits of a number, the most significant first. */
  function DecDigits(n: nat): bytes {
    (if n < 10 then [] else DecDigits(n / 10)) + [ZERO + n % 10]
  }

  /** A decimal reference, with leading zeros. */
  function DecRef(c: nat, zeros: nat): bytes {
    ESC_DEC + (Zeros(zeros) + DecDigits(c) + [SEMICOLON])
  }

  lemma DecOne(d: bytes, p: nat, sum: nat)
    requires IsDigit(At(d, p))
    ensures DecNumber(d, p, sum) == DecNumber(d, p + 1, sum * 10 + (At(d, p) - ZERO))
  {
  }

  lemma {:induction false} DecZeros(d: bytes, p: nat, k: nat, t: bytes)
    requires Looking(d, p, Zeros(k) + t)
    ensures DecNumber(d, p, 0) == DecNumber(d, p + k, 0) && Looking(d, p + k, t)
    decreases k
  {
    hide DecNumber, Looking;
    if k == 0 {
      assert [] + t == t;
    } else {
      assert Zeros(k) + t == [ZERO] + (Zeros(k - 1) + t);
      LookingConcat(d, p, [ZERO], Zeros(k - 1) + t);
      LookingAt(d, p, [ZERO], 0);
      DecOne(d, p, 0);
      DecZeros(d, p + 1, k - 1, t);
    }
  }

  lemma {:induction false} DecValue(d: bytes, p: nat, n: nat, t: bytes)
    requires Looking(d, p, DecDigits(n) + t)
    ensures DecNumber(d, p, 0) == DecNumber(d, p + |DecDigits(n)|, n) && Looking(d, p + |DecDigits(n)|, t)
    ensures IsDigit(At(d, p))
    decreases n
  {
    hide DecNumber, Looking;
    var last: byte := ZERO + n % 10;
    var rest := if n < 10 then [] else DecDigits(n / 10);
    assert DecDigits(n) + t == rest + ([last] + t);
    LookingConcat(d, p, rest, [last] + t);
    if n >= 10 {
      DecValue(d, p, n / 10, [last] + t);
    }
    LookingConcat(d, p + |rest|, [last], t);
    LookingAt(d, p + |rest|, [last], 0);
    DecOne(d, p + |rest|, n / 10);
  }

  lemma DecEnds(d: bytes, p: nat, sum: nat)
    requires !IsDigit(At(d, p))
    ensures DecNumber(d, p, sum) == Number(sum, p)
  {
  }

  lemma Unnamed(d: bytes, p: nat)
    requires At(d, p) == AMPERSAND && At(d, p + 1) == 0x23
    ensures GetChar(d, p) == if LookingNoCase(d, p, ESC_HEX) then NumberChar(d, p, HexNumber(d, p + 3, 0))
                             else NumberChar(d, p, DecNumber(d, p + 2, 0))
  {
    LookingNoCaseNo(d, p, QUOT, 1);
    LookingNoCaseNo(d, p, LT, 1);
    LookingNoCaseNo(d, p, GT, 1);
    LookingNoCaseNo(d, p, APOS, 1);
    LookingNoCaseNo(d, p, AMP, 1);
    hide HexNumber, DecNumber, NumberChar;
  }

  lemma DecStarts(d: bytes, p: nat)
    requires At(d, p) == AMPERSAND && At(d, p + 1) == 0x23 && At(d, p + 2) !in {0x58, 0x78}
    ensures GetChar(d, p) == NumberChar(d, p, DecNumber(d, p + 2, 0))
  {
    LookingNoCaseNo(d, p, ESC_HEX, 2);
    Unnamed(d, p);
    hide GetChar, NumberChar, DecNumber;
  }

  /** A decimal reference stands for the character with that number. */
  lemma DecReference(d: bytes, p: nat, c: nat, zeros: nat)
    requires IsXmlChar(c) && Looking(d, p, DecRef(c, zeros))
    ensures GetChar(d, p) == Char(c, |DecRef(c, zeros)|)
  {
    hide GetChar, Looking, DecNumber, IsXmlChar, DecDigits, Zeros;
    var z, n := Zeros(zeros), DecDigits(c);
    ZerosMore(zeros);
    LookingConcat(d, p, ESC_DEC, z + n + [SEMICOLON]);
    LookingAt(d, p, ESC_DEC, 0);
    LookingAt(d, p, ESC_DEC, 1);
    assert z + n + [SEMICOLON] == z + (n + [SEMICOLON]);
    DecZeros(d, p + 2, zeros, n + [SEMICOLON]);
    DecValue(d, p + 2 + zeros, c, [SEMICOLON]);
    if zeros > 0 {
      ZeroFirst(d, p + 2, zeros, n + [SEMICOLON]);
    }
    LookingAt(d, p + 2 + zeros + |n|, [SEMICOLON], 0);
    DecEnds(d, p + 2 + zeros + |n|, c);
    DecStarts(d, p);
  }

  lemma ZeroFirst(d: bytes, p: nat, k: nat, t: bytes)
    requires k > 0 && Looking(d, p, Zeros(k) + t)
    ensures At(d, p) == ZERO
  {
    LookingAt(d, p, Zeros(k) + t, 0);
  }

  /** Digits that have been read, and what the number is then. */
  ghost predicate DecSpells(s: bytes, n: nat) {
    exists k: nat :: s == Zeros(k) + DecDigits(n)
  }

  lemma DecSpellsMore(s: bytes, n: nat, b: byte)
    requires IsDigit(b) && (s == [] ==> n == 0) && (s != [] ==> DecSpells(s, n))
    ensures DecSpells(s + [b], n * 10 + (b - ZERO))
  {
    var m := n * 10 + (b - ZERO);
    if s == [] {
      assert s + [b] == Zeros(0) + DecDigits(m);
    } else {
      var k: nat :| s == Zeros(k) + DecDigits(n);
      if n == 0 {
        ZerosMore(k);
        assert s + [b] == Zeros(k + 1) + DecDigits(m);
      } else {
        assert m / 10 == n && m % 10 == b - ZERO;
        assert s + [b] == Zeros(k) + DecDigits(m);
      }
    }
  }

  lemma {:induction false} DecRead(d: bytes, from: nat, p: nat, sum: nat)
    requires from <= p <= |d| && (p == from ==> sum == 0) && (p > from ==> DecSpells(d[from..p], sum))
    ensures var r := DecNumber(d, p, sum);
            && p <= r.end <= |d| && (r.end > from ==> DecSpells(d[from..r.end], r.value))
            && (r.end == from ==> r.value == 0)
    decreases |d| - p
  {
    hide DecSpells;
    if p < |d| && IsDigit(d[p]) {
      assert d[from..p] + [d[p]] == d[from..p + 1];
      DecSpellsMore(d[from..p], sum, d[p]);
      DecRead(d, from, p + 1, sum * 10 + (d[p] - ZERO));
    }
  }

  /** The buffer holds a decimal reference of a character. */
  predicate DecRefAt(d: bytes, p: nat, c: nat, len: nat, zeros: nat) {
    len == |DecRef(c, zeros)| && Looking(d, p, DecRef(c, zeros))
  }

  /** A decimal reference is read as a character if and only if it is the reference of that character. */
  lemma DecReferenceIff(d: bytes, p: nat, c: nat, len: nat)
    requires At(d, p) == AMPERSAND && At(d, p + 1) == 0x23 && At(d, p + 2) !in {0x58, 0x78}
    ensures GetChar(d, p) == Char(c, len) <==>
              IsXmlChar(c) && exists zeros: nat :: DecRefAt(d, p, c, len, zeros)
  {
    hide GetChar, Looking, DecNumber, IsXmlChar, DecDigits, Zeros;
    if zeros: nat :| IsXmlChar(c) && DecRefAt(d, p, c, len, zeros) {
      DecReference(d, p, c, zeros);
    }
    if GetChar(d, p) == Char(c, len) {
      DecStarts(d, p);
      DecRead(d, p + 2, p + 2, 0);
      NotXml();
      var n := DecNumber(d, p + 2, 0);
      var zeros: nat :| d[p + 2..n.end] == Zeros(zeros) + DecDigits(c);
      RefLooking(d, p, ESC_DEC, n.end, Zeros(zeros) + DecDigits(c));
      assert DecRefAt(d, p, c, len, zeros);
    }
  }

  lemma NotXml()
    ensures !IsXmlChar(0)
  {
  }

  lemma RefLooking(d: bytes, p: nat, esc: bytes, e: nat, digits: bytes)
    requires p + |esc| <= e < |d| && d[e] == SEMICOLON && d[p + |esc|..e] == digits
    requires forall i | 0 <= i < |esc| :: d[p + i] == esc[i]
    ensures Looking(d, p, esc + (digits + [SEMICOLON])) && e - p + 1 == |esc + (digits + [SEMICOLON])|
  {
    var w := esc + (digits + [SEMICOLON]);
    assert |w| == e - p + 1;
    forall i | 0 <= i < |w| ensures d[p..p + |w|][i] == w[i] {
      if |esc| <= i < e - p {
        assert d[p + |esc|..e][i - |esc|] == digits[i - |esc|];
      }
    }
  }

  // ----- hexadecimal digits

  const UPPER: bytes := [0x30, 0x31, 0x32, 0x33, 0x34, 0x35, 0x36, 0x37, 0x38, 0x39, 0x41, 0x42, 0x43, 0x44, 0x45, 0x46]
  const LOWER: bytes := [0x30, 0x31, 0x32, 0x33, 0x34, 0x35, 0x36, 0x37, 0x38, 0x39, 0x61, 0x62, 0x63, 0x64, 0x65, 0x66]

  /** A string of hexadecimal digits of a number, each in upper or lower case, without leading zeros. */
  predicate HexSpells(s: bytes, n: nat)
    decreases n
  {
    && s != [] && s[|s| - 1] in {UPPER[n % 16], LOWER[n % 16]}
    && if n < 16 then |s| == 1 else HexSpells(s[..|s| - 1], n / 16)
  }

  /** A hexadecimal reference, with leading zeros; the x may be a capital one. */
  function HexRef(x: byte, zeros: nat, digits: bytes): bytes {
    [AMPERSAND, 0x23, x] + (Zeros(zeros) + digits + [SEMICOLON])
  }

  lemma HexDigitIs(b: byte, v: nat)
    requires v < 16
    ensures b in {UPPER[v], LOWER[v]} <==> IsHexDigit(b) && HexValue(b) == v
  {
  }

  lemma HexOne(d: bytes, p: nat, sum: nat)
    requires IsHexDigit(At(d, p))
    ensures HexNumber(d, p, sum) == HexNumber(d, p + 1, sum * 16 + HexValue(At(d, p)))
  {
  }

  lemma {:induction false} HexZeros(d: bytes, p: nat, k: nat, t: bytes)
    requires Looking(d, p, Zeros(k) + t)
    ensures HexNumber(d, p, 0) == HexNumber(d, p + k, 0) && Looking(d, p + k, t)
    decreases k
  {
    hide HexNumber, Looking;
    if k == 0 {
      assert [] + t == t;
    } else {
      assert Zeros(k) + t == [ZERO] + (Zeros(k - 1) + t);
      LookingConcat(d, p, [ZERO], Zeros(k - 1) + t);
      LookingAt(d, p, [ZERO], 0);
      HexOne(d, p, 0);
      HexZeros(d, p + 1, k - 1, t);
    }
  }

  lemma {:induction false} HexScan(d: bytes, p: nat, s: bytes, n: nat, t: bytes)
    requires HexSpells(s, n) && Looking(d, p, s + t)
    ensures HexNumber(d, p, 0) == HexNumber(d, p + |s|, n) && Looking(d, p + |s|, t)
    decreases n
  {
    hide HexNumber, Looking;
    var k := |s| - 1;
    assert s + t == s[..k] + ([s[k]] + t);
    LookingConcat(d, p, s[..k], [s[k]] + t);
    if n >= 16 {
      HexScan(d, p, s[..k], n / 16, [s[k]] + t);
    }
    LookingConcat(d, p + k, [s[k]], t);
    LookingAt(d, p + k, [s[k]], 0);
    HexDigitIs(s[k], n % 16);
    HexOne(d, p + k, n / 16);
  }

  lemma HexEnds(d: bytes, p: nat, sum: nat)
    requires !IsHexDigit(At(d, p))
    ensures HexNumber(d, p, sum) == Number(sum, p)
  {
  }

  lemma HexStarts(d: bytes, p: nat)
    requires At(d, p) == AMPERSAND && At(d, p + 1) == 0x23 && At(d, p + 2) in {0x58, 0x78}
    ensures GetChar(d, p) == NumberChar(d, p, HexNumber(d, p + 3, 0))
  {
    assert LookingNoCase(d, p, ESC_HEX) by {
      assert d[p + 0] == AMPERSAND && d[p + 1] == 0x23;
    }
    Unnamed(d, p);
    hide GetChar, NumberChar, HexNumber;
  }

  /** A hexadecimal reference stands for the character with that number. */
  lemma HexReference(d: bytes, p: nat, c: nat, x: byte, zeros: nat, digits: bytes)
    requires IsXmlChar(c) && x in {0x58, 0x78} && HexSpells(digits, c) && Looking(d, p, HexRef(x, zeros, digits))
    ensures GetChar(d, p) == Char(c, |HexRef(x, zeros, digits)|)
  {
    hide GetChar, Looking, HexNumber, IsXmlChar, HexSpells, Zeros;
    var z, esc := Zeros(zeros), [AMPERSAND, 0x23, x];
    ZerosMore(zeros);
    LookingConcat(d, p, esc, z + digits + [SEMICOLON]);
    LookingAt(d, p, esc, 0);
    LookingAt(d, p, esc, 1);
    LookingAt(d, p, esc, 2);
    assert z + digits + [SEMICOLON] == z + (digits + [SEMICOLON]);
    HexZeros(d, p + 3, zeros, digits + [SEMICOLON]);
    HexScan(d, p + 3 + zeros, digits, c, [SEMICOLON]);
    LookingAt(d, p + 3 + zeros + |digits|, [SEMICOLON], 0);
    HexEnds(d, p + 3 + zeros + |digits|, c);
    HexStarts(d, p);
  }

  ghost predicate HexRun(s: bytes, n: nat) {
    exists k: nat, h: bytes :: s == Zeros(k) + h && HexSpells(h, n)
  }

  lemma HexRunMore(s: bytes, n: nat, b: byte)
    requires IsHexDigit(b) && (s == [] ==> n == 0) && (s != [] ==> HexRun(s, n))
    ensures HexRun(s + [b], n * 16 + HexValue(b))
  {
    var v := HexValue(b);
    var m := n * 16 + v;
    HexDigitIs(b, v);
    hide HexValue;
    assert m / 16 == n && m % 16 == v;
    if n == 0 {
      assert HexSpells([b], m);
      if s == [] {
        assert s + [b] == Zeros(0) + [b];
      } else {
        var k: nat, h: bytes :| s == Zeros(k) + h && HexSpells(h, n);
        ZerosMore(k);
        assert h == [ZERO];
        assert s + [b] == Zeros(k + 1) + [b];
      }
    } else {
      var k: nat, h: bytes :| s == Zeros(k) + h && HexSpells(h, n);
      assert (h + [b])[..|h|] == h && HexSpells(h + [b], m);
      assert s + [b] == Zeros(k) + (h + [b]);
    }
  }

  lemma {:induction false} HexRead(d: bytes, from: nat, p: nat, sum: nat)
    requires from <= p <= |d| && (p == from ==> sum == 0) && (p > from ==> HexRun(d[from..p], sum))
    ensures var r := HexNumber(d, p, sum);
            && p <= r.end <= |d| && (r.end > from ==> HexRun(d[from..r.end], r.value))
            && (r.end == from ==> r.value == 0)
    decreases |d| - p
  {
    hide HexRun, HexValue;
    if p < |d| && IsHexDigit(d[p]) {
      assert d[from..p] + [d[p]] == d[from..p + 1];
      HexRunMore(d[from..p], sum, d[p]);
      HexRead(d, from, p + 1, sum * 16 + HexValue(d[p]));
    }
  }

  /** The buffer holds a hexadecimal reference of a character. */
  predicate HexRefAt(d: bytes, p: nat, c: nat, len: nat, x: byte, zeros: nat, digits: bytes) {
    HexSpells(digits, c) && len == |HexRef(x, zeros, digits)| && Looking(d, p, HexRef(x, zeros, digits))
  }

  /** A hexadecimal reference is read as a character if and only if it is a reference of that character. */
  lemma HexReferenceIff(d: bytes, p: nat, c: nat, len: nat, x: byte)
    requires At(d, p) == AMPERSAND && At(d, p + 1) == 0x23 && At(d, p + 2) == x && x in {0x58, 0x78}
    ensures GetChar(d, p) == Char(c, len) <==>
              IsXmlChar(c) && exists zeros: nat, digits: bytes :: HexRefAt(d, p, c, len, x, zeros, digits)
  {
    hide GetChar, Looking, HexNumber, IsXmlChar, HexSpells, Zeros;
    if zeros: nat, digits: bytes :| IsXmlChar(c) && HexRefAt(d, p, c, len, x, zeros, digits) {
      HexReference(d, p, c, x, zeros, digits);
    }
    if GetChar(d, p) == Char(c, len) {
      HexStarts(d, p);
      HexRead(d, p + 3, p + 3, 0);
      NotXml();
      var n := HexNumber(d, p + 3, 0);
      var zeros: nat, digits: bytes :| d[p + 3..n.end] == Zeros(zeros) + digits && HexSpells(digits, c);
      RefLooking(d, p, [AMPERSAND, 0x23, x], n.end, Zeros(zeros) + digits);
      assert HexRefAt(d, p, c, len, x, zeros, digits);
    }
  }
}
