/** The six-octet UTF-8 codec of section 2 of RFC 2279, as the parser writes it. */
module Utf8 {
  import opened Bytes

  datatype Decoded = Decoded(value: int, len: nat)

  predicate Cont(b: byte) {
    128 <= b < 192
  }

  /** `b & 0x3f`, the payload of a continuation octet. */
  function Low(b: byte): (r: int)
    requires Cont(b)
  {
    b - 0x80
  }

  function Trail(c: nat): byte {
    0x80 + c % 64
  }

  /** The encoder: each shift right by six is a division by 64, each mask a remainder. */
  function Encode(c: int): bytes {
    if c < 0 || c > 0x7FFFFFFF then []
    else
      var c1 := c / 64;
      var c2 := c1 / 64;
      var c3 := c2 / 64;
      var c4 := c3 / 64;
      var c5 := c4 / 64;
      if c <= 0x7F then [c]
      else if c <= 0x7FF then [0xC0 + c1, Trail(c)]
      else if c <= 0xFFFF then [0xE0 + c2, Trail(c1), Trail(c)]
      else if c <= 0x1FFFFF then [0xF0 + c3, Trail(c2), Trail(c1), Trail(c)]
      else if c <= 0x3FFFFFF then [0xF8 + c4, Trail(c3), Trail(c2), Trail(c1), Trail(c)]
      else [0xFC + c5, Trail(c4), Trail(c3), Trail(c2), Trail(c1), Trail(c)]
  }

  /** The decoder in strict mode: an ill-formed sequence is value -1 and length 0. */
  function Decode(d: bytes, p: nat): (r: Decoded)
    ensures r.value >= 0 <==> r.len > 0
    ensures r.value >= -1 && r.len <= 6
    ensures r.len > 1 ==> p + r.len <= |d|
  {
    var c := At(d, p);
    var b1, b2, b3, b4, b5 := At(d, p + 1), At(d, p + 2), At(d, p + 3), At(d, p + 4), At(d, p + 5);
    if c <= 127 then Decoded(c, 1)
    else if 0xC0 <= c < 0xE0 && Cont(b1) then Decoded((c - 0xC0) * 64 + Low(b1), 2)
    else if 0xE0 <= c < 0xF0 && Cont(b1) && Cont(b2) then
      Decoded(((c - 0xE0) * 64 + Low(b1)) * 64 + Low(b2), 3)
    else if 0xF0 <= c < 0xF8 && Cont(b1) && Cont(b2) && Cont(b3) then
      Decoded((((c - 0xF0) * 64 + Low(b1)) * 64 + Low(b2)) * 64 + Low(b3), 4)
    else if 0xF8 <= c < 0xFC && Cont(b1) && Cont(b2) && Cont(b3) && Cont(b4) then
      Decoded(((((c - 0xF8) * 64 + Low(b1)) * 64 + Low(b2)) * 64 + Low(b3)) * 64 + Low(b4), 5)
    else if 0xFC <= c < 0xFE && Cont(b1) && Cont(b2) && Cont(b3) && Cont(b4) && Cont(b5) then
      Decoded((((((c - 0xFC) * 64 + Low(b1)) * 64 + Low(b2)) * 64 + Low(b3)) * 64 + Low(b4)) * 64 + Low(b5), 6)
    else Decoded(-1, 0)
  }

  /** Decoding depends on nothing after the sequence it consumes. */
  lemma DecodeFrame(e: bytes, d: bytes, p: nat)
    requires Decode(e, 0).len == |e| > 0
    requires Looking(d, p, e)
    ensures Decode(d, p) == Decode(e, 0)
  {
    forall i | 0 <= i < |e| ensures At(d, p + i) == At(e, i) {
      LookingAt(d, p, e, i);
    }
    assert At(d, p + 0) == At(e, 0);
  }

  lemma Rejoin(c: nat)
    ensures c / 64 * 64 + Low(Trail(c)) == c && Cont(Trail(c))
  {
  }

  lemma DecodeOwn4(c: int)
    requires 0xFFFF < c <= 0x1FFFFF
    ensures Decode(Encode(c), 0) == Decoded(c, 4)
  {
    var c1, c2 := c / 64, c / 64 / 64;
    Rejoin(c);
    Rejoin(c1);
    Rejoin(c2);
    assert Encode(c) == [0xF0 + c2 / 64, Trail(c2), Trail(c1), Trail(c)];
  }

  lemma DecodeOwn5(c: int)
    requires 0x1FFFFF < c <= 0x3FFFFFF
    ensures Decode(Encode(c), 0) == Decoded(c, 5)
  {
    var c1, c2, c3 := c / 64, c / 64 / 64, c / 64 / 64 / 64;
    Rejoin(c);
    Rejoin(c1);
    Rejoin(c2);
    Rejoin(c3);
    assert Encode(c) == [0xF8 + c3 / 64, Trail(c3), Trail(c2), Trail(c1), Trail(c)];
  }

  lemma DecodeOwn6(c: int)
    requires 0x3FFFFFF < c <= 0x7FFFFFFF
    ensures Decode(Encode(c), 0) == Decoded(c, 6)
  {
    var c1, c2, c3, c4 := c / 64, c / 64 / 64, c / 64 / 64 / 64, c / 64 / 64 / 64 / 64;
    Rejoin(c);
    Rejoin(c1);
    Rejoin(c2);
    Rejoin(c3);
    Rejoin(c4);
    assert Encode(c) == [0xFC + c4 / 64, Trail(c4), Trail(c3), Trail(c2), Trail(c1), Trail(c)];
  }

  lemma DecodeOwn(c: int)
    requires 0 <= c <= 0x7FFFFFFF
    ensures Decode(Encode(c), 0) == Decoded(c, |Encode(c)|) && 1 <= |Encode(c)| <= 6
  {
    if c <= 0xFFFF {
      Rejoin(c);
      Rejoin(c / 64);
    } else if c <= 0x1FFFFF {
      DecodeOwn4(c);
    } else if c <= 0x3FFFFFF {
      DecodeOwn5(c);
    } else {
      DecodeOwn6(c);
    }
  }

  /** Decoding what was encoded gives the character back and skips exactly its bytes. */
  lemma DecodeEncode(d: bytes, p: nat, c: int)
    requires 0 <= c <= 0x7FFFFFFF
    requires Looking(d, p, Encode(c))
    ensures Decode(d, p) == Decoded(c, |Encode(c)|)
  {
    DecodeOwn(c);
    DecodeFrame(Encode(c), d, p);
  }

  /** The least value a sequence of `len` octets is meant for. */
  function Least(len: nat): int {
    match len
    case 2 => 0x80
    case 3 => 0x800
    case 4 => 0x10000
    case 5 => 0x200000
    case 6 => 0x4000000
    case _ => 0
  }

  lemma Join(x: nat, y: nat)
    requires y < 64
    ensures (x * 64 + y) / 64 == x && (x * 64 + y) % 64 == y
  {
  }

  lemma Form3(s: bytes)
    requires |s| == 3 && Decode(s, 0).len == 3 && Decode(s, 0).value >= 0x800
    ensures Encode(Decode(s, 0).value) == s
  {
    var lead := s[0] - 0xE0;
    Join(lead, Low(s[1]));
    Join(lead * 64 + Low(s[1]), Low(s[2]));
  }

  lemma Form4(s: bytes)
    requires |s| == 4 && Decode(s, 0).len == 4 && Decode(s, 0).value >= 0x10000
    ensures Encode(Decode(s, 0).value) == s
  {
    var lead := s[0] - 0xF0;
    var v1 := lead * 64 + Low(s[1]);
    var v2 := v1 * 64 + Low(s[2]);
    Join(lead, Low(s[1]));
    Join(v1, Low(s[2]));
    Join(v2, Low(s[3]));
  }

  lemma TrailOf(x: nat, b: byte)
    requires Cont(b)
    ensures (x * 64 + Low(b)) / 64 == x && Trail(x * 64 + Low(b)) == b
  {
    Join(x, Low(b));
  }

  lemma EncodeFive(c: int)
    requires 0x1FFFFF < c <= 0x3FFFFFF
    ensures var c1 := c / 64; var c2 := c1 / 64; var c3 := c2 / 64; var c4 := c3 / 64;
            Encode(c) == [0xF8 + c4, Trail(c3), Trail(c2), Trail(c1), Trail(c)]
  {
    hide Trail;
  }

  lemma EncodeSix(c: int)
    requires 0x3FFFFFF < c <= 0x7FFFFFFF
    ensures var c1 := c / 64; var c2 := c1 / 64; var c3 := c2 / 64; var c4 := c3 / 64; var c5 := c4 / 64;
            Encode(c) == [0xFC + c5, Trail(c4), Trail(c3), Trail(c2), Trail(c1), Trail(c)]
  {
    hide Trail;
  }

  lemma Bounds5(s: bytes)
    requires |s| == 5 && Decode(s, 0).len == 5
    ensures Decode(s, 0).value <= 0x3FFFFFF
  {
  }

  lemma Bounds6(s: bytes)
    requires |s| == 6 && Decode(s, 0).len == 6
    ensures Decode(s, 0).value <= 0x7FFFFFFF
  {
  }

  lemma Form5(s: bytes)
    requires |s| == 5 && Decode(s, 0).len == 5 && Decode(s, 0).value >= 0x200000
    ensures Encode(Decode(s, 0).value) == s
  {
    Bounds5(s);
    EncodeFive(Decode(s, 0).value);
    hide Encode, Trail, Low;
    var lead := s[0] - 0xF8;
    var v1 := lead * 64 + Low(s[1]);
    var v2 := v1 * 64 + Low(s[2]);
    var v3 := v2 * 64 + Low(s[3]);
    TrailOf(lead, s[1]);
    TrailOf(v1, s[2]);
    TrailOf(v2, s[3]);
    TrailOf(v3, s[4]);
  }

  lemma SixBytes(lead: nat, a: byte, b: byte, c: byte, d: byte, e: byte)
    requires lead < 4 && Cont(a) && Cont(b) && Cont(c) && Cont(d) && Cont(e)
    ensures var v := ((((lead * 64 + Low(a)) * 64 + Low(b)) * 64 + Low(c)) * 64 + Low(d)) * 64 + Low(e);
            0x3FFFFFF < v <= 0x7FFFFFFF ==> Encode(v) == [0xFC + lead, a, b, c, d, e]
  {
    var v1 := lead * 64 + Low(a);
    var v2 := v1 * 64 + Low(b);
    var v3 := v2 * 64 + Low(c);
    var v4 := v3 * 64 + Low(d);
    var v5 := v4 * 64 + Low(e);
    if 0x3FFFFFF < v5 <= 0x7FFFFFFF {
      EncodeSix(v5);
    }
    hide Encode, Trail, Low;
    TrailOf(lead, a);
    TrailOf(v1, b);
    TrailOf(v2, c);
    TrailOf(v3, d);
    TrailOf(v4, e);
  }

  lemma Form6(s: bytes)
    requires |s| == 6 && Decode(s, 0).len == 6 && Decode(s, 0).value >= 0x4000000
    ensures Encode(Decode(s, 0).value) == s
  {
    Bounds6(s);
    hide Encode, Low;
    SixBytes(s[0] - 0xFC, s[1], s[2], s[3], s[4], s[5]);
    assert s == [s[0], s[1], s[2], s[3], s[4], s[5]];
  }

  /** Re-encoding a decoded sequence restores its bytes exactly when it is in shortest form. */
  lemma EncodeDecode(d: bytes, p: nat)
    requires p < |d|
    requires Decode(d, p).len > 0
    ensures var r := Decode(d, p);
            p + r.len <= |d| && (Encode(r.value) == d[p..p + r.len] <==> r.value >= Least(r.len))
  {
    DecodeLocal(d, p);
    EncodeDecodeWhole(d[p..p + Decode(d, p).len]);
  }

  lemma DecodeLocal(d: bytes, p: nat)
    requires p < |d| && Decode(d, p).len > 0
    ensures p + Decode(d, p).len <= |d|
    ensures Decode(d[p..p + Decode(d, p).len], 0) == Decode(d, p)
  {
    var s := d[p..p + Decode(d, p).len];
    assert forall i | 0 <= i < |s| :: At(s, i) == At(d, p + i);
    assert At(s, 0) == At(d, p);
  }

  lemma EncodeDecodeWhole(s: bytes)
    requires s != [] && Decode(s, 0).len == |s|
    ensures Encode(Decode(s, 0).value) == s <==> Decode(s, 0).value >= Least(|s|)
  {
    var r := Decode(s, 0);
    assert At(s, 0) == s[0];
    if r.value < Least(r.len) {
      assert |Encode(r.value)| < r.len;
    } else if r.len == 2 {
      Join(s[0] - 0xC0, Low(s[1]));
    } else if r.len == 3 {
      Form3(s);
    } else if r.len == 4 {
      Form4(s);
    } else if r.len == 5 {
      Form5(s);
    } else if r.len == 6 {
      Form6(s);
    }
  }

  function EncodeAll(cs: seq<int>): bytes {
    if cs == [] then [] else Encode(cs[0]) + EncodeAll(cs[1..])
  }

  /** Decodes from left to right until the end of the string; None at the first ill-formed sequence. */
  function DecodeAll(d: bytes, p: nat): Option<seq<int>>
    decreases |d| - p
  {
    if p >= |d| then Some([])
    else
      var r := Decode(d, p);
      if r.len == 0 then None
      else
        match DecodeAll(d, p + r.len)
        case None => None
        case Some(rest) => Some([r.value] + rest)
  }

  lemma DecodeAllStep(d: bytes, p: nat, c: int, rest: bytes)
    requires 0 <= c <= 0x7FFFFFFF
    requires p <= |d| && d[p..] == Encode(c) + rest
    ensures Decode(d, p).value == c && 0 < Decode(d, p).len
    ensures p < |d| && p + Decode(d, p).len <= |d|
    ensures d[p + Decode(d, p).len..] == rest
  {
    var e := Encode(c);
    assert d[p..p + |e|] == d[p..][..|e|] == e;
    DecodeEncode(d, p, c);
    assert d[p + |e|..] == d[p..][|e|..] == rest;
  }

  /** The code is uniquely decodable: concatenated encodings decode to the characters encoded. */
  lemma {:induction false} DecodeAllEncodeAll(d: bytes, p: nat, cs: seq<int>)
    requires forall i | 0 <= i < |cs| :: 0 <= cs[i] <= 0x7FFFFFFF
    requires p <= |d| && d[p..] == EncodeAll(cs)
    ensures DecodeAll(d, p) == Some(cs)
    decreases |cs|
  {
    hide Encode, Decode;
    if cs == [] {
      assert |d[p..]| == |d| - p;
    } else {
      DecodeAllStep(d, p, cs[0], EncodeAll(cs[1..]));
      DecodeAllEncodeAll(d, p + Decode(d, p).len, cs[1..]);
      assert cs == [cs[0]] + cs[1..];
    }
  }
}
