/** Reading and writing IPv4 addresses as text. */
module Inet4 {
  import opened Bytes

  const DOT: byte := 0x2E
  const ZERO: byte := 0x30

  predicate IsDigit(c: byte) {
    0x30 <= c <= 0x39
  }

  // ----- what the text means

  /** The stretches between the dots. */
  function Split(s: bytes): (r: seq<bytes>)
    ensures r != []
  {
    if s == [] then [[]]
    else
      var n := |s| - 1;
      if s[n] == DOT then Split(s[..n]) + [[]] else Grow(Split(s[..n]), [s[n]])
  }

  /** The last stretch goes on. */
  function Grow(p: seq<bytes>, run: bytes): (r: seq<bytes>)
    requires p != []
    ensures |r| == |p| && r[|r| - 1] == p[|p| - 1] + run && r[..|r| - 1] == p[..|p| - 1]
    ensures forall j | 0 <= j < |p| - 1 :: r[j] == p[j]
  {
    p[..|p| - 1] + [p[|p| - 1] + run]
  }

  lemma GrowTwice(p: seq<bytes>, a: bytes, b: bytes)
    requires p != []
    ensures Grow(Grow(p, a), b) == Grow(p, a + b)
  {
    assert p[|p| - 1] + a + b == p[|p| - 1] + (a + b);
  }

  lemma GrowNothing(p: seq<bytes>)
    requires p != []
    ensures Grow(p, []) == p
  {
    assert p[|p| - 1] + [] == p[|p| - 1];
  }

  lemma GrowLast(q: seq<bytes>, run: bytes)
    ensures Grow(q + [[]], run) == q + [run]
  {
    assert [] + run == run;
  }

  function Join(p: seq<bytes>): bytes {
    if p == [] then [] else if |p| == 1 then p[0] else Join(p[..|p| - 1]) + [DOT] + p[|p| - 1]
  }

  lemma JoinGrow(p: seq<bytes>, run: bytes)
    requires p != []
    ensures Join(Grow(p, run)) == Join(p) + run
  {
    var q := Grow(p, run);
    if |p| > 1 {
      assert q[..|q| - 1] == p[..|p| - 1];
    }
  }

  ghost predicate Undotted(p: seq<bytes>) {
    forall i | 0 <= i < |p| :: DOT !in p[i]
  }

  lemma CutNext(p: seq<bytes>, c: byte)
    requires p != [] && Undotted(p)
    ensures var q := if c == DOT then p + [[]] else Grow(p, [c]); Undotted(q) && Join(q) == Join(p) + [c]
  {
    if c == DOT {
      assert (p + [[]])[..|p|] == p;
    } else {
      hide Join;
      JoinGrow(p, [c]);
    }
  }

  /** The stretches have no dots, and with dots between them they are the text. */
  lemma {:induction false} SplitIsCut(s: bytes)
    ensures Join(Split(s)) == s && Undotted(Split(s))
  {
    hide Join, Undotted, Grow, Split;
    if s == [] {
      CutNothing();
    } else {
      var n := |s| - 1;
      SplitIsCut(s[..n]);
      SplitNext(s[..n], s[n]);
      CutNext(Split(s[..n]), s[n]);
      assert s == s[..n] + [s[n]];
    }
  }

  lemma CutNothing()
    ensures Split([]) == [[]] && Join([[]]) == [] && Undotted([[]])
  {
  }

  predicate Digits(s: bytes) {
    forall i | 0 <= i < |s| :: IsDigit(s[i])
  }

  function Value(s: bytes): int
    requires Digits(s)
  {
    if s == [] then 0 else Value(s[..|s| - 1]) * 10 + (s[|s| - 1] - ZERO)
  }

  /** A run of digits, however many zeros lead, for a number that fits an octet. */
  predicate IsOctet(s: bytes) {
    s != [] && Digits(s) && Value(s) <= 255
  }

  /** Four octets separated by single dots. */
  predicate IsAddress(s: bytes) {
    |Split(s)| == 4 && forall i | 0 <= i < 4 :: IsOctet(Split(s)[i])
  }

  lemma {:induction false} ValueGrows(s: bytes)
    requires Digits(s)
    ensures 0 <= Value(s)
  {
    if s != [] {
      ValueGrows(s[..|s| - 1]);
    }
  }

  lemma ValueNext(s: bytes, c: byte)
    requires Digits(s) && IsDigit(c)
    ensures Digits(s + [c]) && Value(s + [c]) == Value(s) * 10 + (c - ZERO)
  {
    assert (s + [c])[..|s|] == s;
  }

  /** A prefix of a string of digits has no larger value. */
  lemma {:induction false} ValuePrefix(s: bytes, t: bytes)
    requires s <= t && Digits(t)
    ensures Digits(s) && Value(s) <= Value(t)
  {
    ValueGrows(s);
    if s != t {
      assert s <= t[..|t| - 1];
      ValuePrefix(s, t[..|t| - 1]);
    }
  }

  lemma SplitNext(s: bytes, c: byte)
    ensures Split(s + [c]) == if c == DOT then Split(s) + [[]] else Grow(Split(s), [c])
  {
    assert (s + [c])[..|s|] == s;
  }

  /** Going on keeps the finished stretches, and goes on with the last one. */
  ghost predicate GoesOn(p: seq<bytes>, q: seq<bytes>)
    requires p != []
  {
    && |p| <= |q| && (forall j | 0 <= j < |p| - 1 :: q[j] == p[j]) && p[|p| - 1] <= q[|p| - 1]
  }

  lemma GoesOnNext(p: seq<bytes>, q: seq<bytes>, c: byte)
    requires p != [] && GoesOn(p, q)
    ensures GoesOn(p, if c == DOT then q + [[]] else Grow(q, [c]))
  {
  }

  lemma {:induction false} SplitGoesOn(s: bytes, t: bytes)
    requires s <= t
    ensures GoesOn(Split(s), Split(t))
    decreases |t|
  {
    hide Split, Grow;
    if s != t {
      var n := |t| - 1;
      assert s <= t[..n];
      SplitGoesOn(s, t[..n]);
      assert t == t[..n] + [t[n]];
      SplitNext(t[..n], t[n]);
      GoesOnNext(Split(s), Split(t[..n]), t[n]);
    }
  }

  /** What cannot be mended by going on: too many stretches, a bad finished one, or one that is no octet's beginning. */
  ghost predicate Hopeless(p: seq<bytes>)
    requires p != []
  {
    || |p| > 4
    || (exists i | 0 <= i < |p| - 1 :: !IsOctet(p[i]))
    || !Digits(p[|p| - 1]) || Value(p[|p| - 1]) > 255
  }

  lemma HopelessStays(p: seq<bytes>, q: seq<bytes>)
    requires p != [] && GoesOn(p, q) && Hopeless(p)
    ensures |q| > 4 || exists i | 0 <= i < |q| :: !IsOctet(q[i])
  {
    hide Value;
    var k := |p| - 1;
    if i :| 0 <= i < k && !IsOctet(p[i]) {
      assert !IsOctet(q[i]);
    } else if |p| <= 4 {
      if Digits(q[k]) {
        ValuePrefix(p[k], q[k]);
      }
      assert !IsOctet(q[k]);
    }
  }

  lemma HopelessPrefix(s: bytes, t: bytes)
    requires s <= t && Hopeless(Split(s))
    ensures !IsAddress(t)
  {
    SplitGoesOn(s, t);
    hide Split, Hopeless, GoesOn;
    HopelessStays(Split(s), Split(t));
  }

  // ----- inet_pton4

  /** The stretches read so far, as the loop keeps them. */
  ghost predicate Holding(p: seq<bytes>, tmp: seq<int>, octets: int, sawDigit: bool)
    requires p != []
  {
    && |tmp| == |p| <= 4 && (sawDigit <==> p[|p| - 1] != []) && octets == (if sawDigit then |p| else |p| - 1)
    && (forall j | 0 <= j < |p| - 1 :: IsOctet(p[j]))
    && Digits(p[|p| - 1]) && Value(p[|p| - 1]) <= 255
    && forall j | 0 <= j < |p| :: Digits(p[j]) && tmp[j] == Value(p[j])
  }

  ghost predicate Reading(s: bytes, i: nat, tmp: seq<int>, octets: int, sawDigit: bool) {
    i <= |s| && Holding(Split(s[..i]), tmp, octets, sawDigit)
  }

  lemma HoldDigit(p: seq<bytes>, tmp: seq<int>, octets: int, sawDigit: bool, c: byte)
    requires p != [] && Holding(p, tmp, octets, sawDigit) && IsDigit(c)
    ensures |tmp| > 0
    ensures var sum := tmp[|tmp| - 1] * 10 + (c - ZERO);
            && (sum > 255 ==> Hopeless(Grow(p, [c])))
            && (sum <= 255 ==>
                  Holding(Grow(p, [c]), tmp[|tmp| - 1 := sum], if sawDigit then octets else octets + 1, true))
  {
    ValueNext(p[|p| - 1], c);
    hide Value, Digits, Grow;
  }

  lemma HoldOther(p: seq<bytes>, tmp: seq<int>, octets: int, sawDigit: bool, c: byte)
    requires p != [] && Holding(p, tmp, octets, sawDigit) && !IsDigit(c)
    ensures Hopeless(Grow(p, [c]))
  {
    var k := |p| - 1;
    assert Grow(p, [c])[k][|p[k]|] == c;
    hide Value, Grow;
  }

  lemma HoldDot(p: seq<bytes>, tmp: seq<int>, octets: int, sawDigit: bool)
    requires p != [] && Holding(p, tmp, octets, sawDigit)
    ensures !sawDigit || octets == 4 ==> Hopeless(p + [[]])
    ensures sawDigit && octets != 4 ==> Holding(p + [[]], tmp + [0], octets, false)
  {
    var q := p + [[]];
    assert Digits([]) && Value([]) == 0;
    hide Value, Digits;
    if !sawDigit {
      assert !IsOctet(q[|p| - 1]);
    }
  }

  lemma ReadDigit(s: bytes, i: nat, tmp: seq<int>, octets: int, sawDigit: bool)
    requires Reading(s, i, tmp, octets, sawDigit) && i < |s| && IsDigit(s[i])
    ensures |tmp| > 0
    ensures var sum := tmp[|tmp| - 1] * 10 + (s[i] - ZERO);
            && (sum > 255 ==> !IsAddress(s))
            && (sum <= 255 ==>
                  Reading(s, i + 1, tmp[|tmp| - 1 := sum], if sawDigit then octets else octets + 1, true))
  {
    hide Split, Grow, Holding, Hopeless, IsAddress;
    HoldDigit(Split(s[..i]), tmp, octets, sawDigit, s[i]);
    SplitNext(s[..i], s[i]);
    assert s[..i] + [s[i]] == s[..i + 1];
    if Hopeless(Split(s[..i + 1])) {
      HopelessPrefix(s[..i + 1], s);
    }
  }

  lemma ReadDot(s: bytes, i: nat, tmp: seq<int>, octets: int, sawDigit: bool)
    requires Reading(s, i, tmp, octets, sawDigit) && i < |s| && !IsDigit(s[i])
    ensures s[i] != DOT || !sawDigit ==> !IsAddress(s)
    ensures s[i] == DOT && sawDigit && octets == 4 ==> !IsAddress(s)
    ensures s[i] == DOT && sawDigit && octets != 4 ==> Reading(s, i + 1, tmp + [0], octets, false)
  {
    hide Split, Grow, Holding, Hopeless, IsAddress;
    HoldDot(Split(s[..i]), tmp, octets, sawDigit);
    HoldOther(Split(s[..i]), tmp, octets, sawDigit, s[i]);
    SplitNext(s[..i], s[i]);
    assert s[..i] + [s[i]] == s[..i + 1];
    if Hopeless(Split(s[..i + 1])) {
      HopelessPrefix(s[..i + 1], s);
    }
  }

  lemma ReadAll(s: bytes, tmp: seq<int>, octets: int, sawDigit: bool)
    requires Reading(s, |s|, tmp, octets, sawDigit)
    ensures octets == 4 <==> IsAddress(s)
    ensures octets == 4 ==> |tmp| == 4 && forall j | 0 <= j < 4 :: Digits(Split(s)[j]) && tmp[j] == Value(Split(s)[j])
  {
    hide Split, Value;
    assert s[..|s|] == s;
    if octets == 4 {
      assert forall j | 0 <= j < 4 :: IsOctet(Split(s)[j]);
    } else if |Split(s)| == 4 {
      assert !IsOctet(Split(s)[3]);
    }
  }

  /** Accepts exactly the addresses; the destination gets their octets, and is left alone otherwise. */
  method Pton4(src: bytes, dst: array<byte>) returns (ok: bool)
    requires NoNul(src) && dst.Length == 4
    modifies dst
    ensures ok <==> IsAddress(src)
    ensures ok ==> forall j | 0 <= j < 4 :: dst[j] == Value(Split(src)[j])
    ensures !ok ==> dst[..] == old(dst[..])
  {
    hide Reading, IsAddress;
    var tmp: seq<int> := [0];
    var octets, sawDigit, i := 0, false, 0;
    assert Reading(src, 0, tmp, 0, false) by { Begin(src); }
    while i < |src|
      invariant i <= |src| && Reading(src, i, tmp, octets, sawDigit) && dst[..] == old(dst[..])
    {
      var ch := src[i];
      if IsDigit(ch) {
        ReadDigit(src, i, tmp, octets, sawDigit);
        var sum := tmp[|tmp| - 1] * 10 + (ch - ZERO);
        if sum > 255 {
          return false;
        }
        tmp := tmp[|tmp| - 1 := sum];
        if !sawDigit {
          octets := octets + 1;
          OctetsBound(src, i + 1, tmp, octets, true);
          if octets > 4 {
            return false;
          }
          sawDigit := true;
        }
      } else {
        ReadDot(src, i, tmp, octets, sawDigit);
        if ch == DOT && sawDigit {
          if octets == 4 {
            return false;
          }
          tmp := tmp + [0];
          sawDigit := false;
        } else {
          return false;
        }
      }
      i := i + 1;
    }
    ReadAll(src, tmp, octets, sawDigit);
    if octets < 4 {
      OctetsBound(src, |src|, tmp, octets, sawDigit);
      return false;
    }
    OctetsBound(src, |src|, tmp, octets, sawDigit);
    AddressOctets(src);
    dst[0], dst[1], dst[2], dst[3] := tmp[0], tmp[1], tmp[2], tmp[3];
    ok := true;
  }

  lemma Begin(s: bytes)
    ensures Reading(s, 0, [0], 0, false)
  {
    assert s[..0] == [];
  }

  lemma OctetsBound(s: bytes, i: nat, tmp: seq<int>, octets: int, sawDigit: bool)
    requires Reading(s, i, tmp, octets, sawDigit)
    ensures octets <= 4
  {
  }

  lemma AddressOctets(s: bytes)
    requires IsAddress(s)
    ensures forall j | 0 <= j < 4 :: Digits(Split(s)[j]) && 0 <= Value(Split(s)[j]) <= 255
  {
    forall j | 0 <= j < 4 ensures Digits(Split(s)[j]) && 0 <= Value(Split(s)[j]) <= 255 {
      assert IsOctet(Split(s)[j]);
      ValueGrows(Split(s)[j]);
    }
  }

  // ----- inet_ntop4

  /** A number without leading zeros. */
  function Decimal(b: byte): bytes {
    if b < 10 then [ZERO + b]
    else if b < 100 then [ZERO + b / 10, ZERO + b % 10]
    else [ZERO + b / 100, ZERO + b / 10 % 10, ZERO + b % 10]
  }

  function Text(src: seq<byte>): bytes
    requires |src| == 4
  {
    Decimal(src[0]) + [DOT] + Decimal(src[1]) + [DOT] + Decimal(src[2]) + [DOT] + Decimal(src[3])
  }

  /** The hundreds are written and taken back if they are zero, and the tens likewise. */
  method WriteOctet(tmp: seq<byte>, b: byte) returns (r: seq<byte>)
    ensures r == tmp + Decimal(b)
  {
    r := tmp + [ZERO + b / 100];
    if r[|r| - 1] == ZERO {
      r := r[|r| - 1 := ZERO + b / 10 % 10];
      if r[|r| - 1] == ZERO {
        r := r[..|r| - 1];
        assert r == tmp;
      }
    } else {
      r := r + [ZERO + b / 10 % 10];
    }
    r := r + [ZERO + b % 10];
  }

  ghost predicate WrittenTo(dst: array<byte>, text: bytes)
    reads dst
  {
    |text| < dst.Length && dst[..|text|] == text && dst[|text|] == 0
  }

  /**
   Puts the text and its NUL into the destination, unless the text is longer than the given size. A text of exactly
   that size passes, so the destination must be larger than the size then.
   */
  method Ntop4(src: seq<byte>, dst: array<byte>, size: nat) returns (ok: bool)
    requires |src| == 4 && (|Text(src)| <= size ==> |Text(src)| < dst.Length)
    modifies dst
    ensures ok <==> |Text(src)| <= size
    ensures ok ==> WrittenTo(dst, Text(src)) && dst[|Text(src)| + 1..] == old(dst[|Text(src)| + 1..])
    ensures !ok ==> dst[..] == old(dst[..])
  {
    hide Text;
    var tmp := Write4(src);
    if |tmp| > size {
      return false;
    }
    forall i | 0 <= i < |tmp| {
      dst[i] := tmp[i];
    }
    dst[|tmp|] := 0;
    ok := true;
  }

  method Write4(src: seq<byte>) returns (tmp: seq<byte>)
    requires |src| == 4
    ensures tmp == Text(src)
  {
    hide Decimal;
    tmp := [];
    var octet := 0;
    while octet <= 3
      invariant 0 <= octet <= 4 && tmp == Dotted(src[..octet])
    {
      assert src[..octet + 1][..octet] == src[..octet];
      tmp := WriteOctet(tmp, src[octet]);
      tmp := tmp + [DOT];
      octet := octet + 1;
    }
    assert src[..4] == src;
    DottedText(src);
    tmp := tmp[..|tmp| - 1];
  }

  function Dotted(src: seq<byte>): bytes {
    if src == [] then [] else Dotted(src[..|src| - 1]) + Decimal(src[|src| - 1]) + [DOT]
  }

  lemma DottedNext(src: seq<byte>, k: nat)
    requires k < |src|
    ensures Dotted(src[..k + 1]) == Dotted(src[..k]) + Decimal(src[k]) + [DOT]
  {
    hide Decimal;
    assert src[..k + 1][..k] == src[..k];
  }

  lemma DottedText(src: seq<byte>)
    requires |src| == 4
    ensures Dotted(src) == Text(src) + [DOT]
  {
    assert Dotted(src[..0]) == [];
    hide Decimal, Dotted;
    DottedNext(src, 0);
    DottedNext(src, 1);
    DottedNext(src, 2);
    DottedNext(src, 3);
    assert [] + Decimal(src[0]) == Decimal(src[0]);
    assert src[..4] == src;
  }

  /** A stretch without dots just goes on with the last one. */
  lemma {:induction false} SplitRun(s: bytes, run: bytes)
    requires DOT !in run
    ensures Split(s + run) == Grow(Split(s), run)
  {
    hide Split, Grow;
    if run == [] {
      assert s + run == s;
      GrowNothing(Split(s));
    } else {
      var n := |run| - 1;
      SplitRun(s, run[..n]);
      assert s + run == s + run[..n] + [run[n]];
      SplitNext(s + run[..n], run[n]);
      assert run == run[..n] + [run[n]];
      GrowTwice(Split(s), run[..n], [run[n]]);
    }
  }

  lemma DigitsMean(d: bytes)
    requires 1 <= |d| <= 3 && forall i | 0 <= i < |d| :: IsDigit(d[i])
    ensures Digits(d)
    ensures Value(d) == if |d| == 1 then d[0] - ZERO
                        else if |d| == 2 then (d[0] - ZERO) * 10 + (d[1] - ZERO)
                        else (d[0] - ZERO) * 100 + (d[1] - ZERO) * 10 + (d[2] - ZERO)
  {
    assert Value([]) == 0;
    ValueNext([], d[0]);
    hide Value;
    if |d| == 1 {
      assert [] + [d[0]] == d;
    } else {
      ValueNext([] + [d[0]], d[1]);
      if |d| == 2 {
        assert [] + [d[0]] + [d[1]] == d;
      } else {
        ValueNext([] + [d[0]] + [d[1]], d[2]);
        assert [] + [d[0]] + [d[1]] + [d[2]] == d;
      }
    }
  }

  lemma DecimalIs(b: byte)
    ensures DOT !in Decimal(b) && Digits(Decimal(b)) && IsOctet(Decimal(b)) && Value(Decimal(b)) == b
  {
    hide Value, Digits;
    DecimalDigits(b);
    DigitsMean(Decimal(b));
    if b < 10 {
      assert Value(Decimal(b)) == b;
    } else if b < 100 {
      assert Value(Decimal(b)) == b / 10 * 10 + b % 10;
    } else {
      assert Value(Decimal(b)) == b / 100 * 100 + b / 10 % 10 * 10 + b % 10;
    }
    ThreeDigits(b);
  }

  /** A number without leading zeros. */
  predicate Shortest(d: bytes) {
    |d| > 1 ==> d[0] != ZERO
  }

  lemma DecimalShortest(b: byte)
    ensures Shortest(Decimal(b))
  {
  }

  lemma DecimalDigits(b: byte)
    ensures DOT !in Decimal(b) && 1 <= |Decimal(b)| <= 3 && forall i | 0 <= i < |Decimal(b)| :: IsDigit(Decimal(b)[i])
  {
  }

  lemma ThreeDigits(b: byte)
    ensures b / 10 * 10 + b % 10 == b && b / 100 * 100 + b / 10 % 10 * 10 + b % 10 == b
  {
    assert b / 10 / 10 == b / 100;
  }

  /** Whatever is printed is accepted, and gives the four octets back. */
  lemma PrintedIsRead(src: seq<byte>)
    requires |src| == 4
    ensures IsAddress(Text(src))
    ensures Split(Text(src)) == [Decimal(src[0]), Decimal(src[1]), Decimal(src[2]), Decimal(src[3])]
    ensures forall j | 0 <= j < 4 :: Digits(Split(Text(src))[j]) && Value(Split(Text(src))[j]) == src[j]
    ensures forall j | 0 <= j < 4 :: Shortest(Split(Text(src))[j])
  {
    forall j | 0 <= j < 4 ensures Shortest(Decimal(src[j])) {
      DecimalShortest(src[j]);
    }
    DecimalIs(src[0]);
    DecimalIs(src[1]);
    DecimalIs(src[2]);
    DecimalIs(src[3]);
    hide Decimal, IsOctet, Split, Digits, Value, Shortest;
    var a, b, c, d := Decimal(src[0]), Decimal(src[1]), Decimal(src[2]), Decimal(src[3]);
    SplitFour(a, b, c, d);
    assert Split(Text(src)) == [a, b, c, d];
  }

  /** A dot and a run add a stretch. */
  lemma SplitDot(s: bytes, run: bytes)
    requires DOT !in run
    ensures Split(s + [DOT] + run) == Split(s) + [run]
  {
    hide Split, Grow;
    SplitNext(s, DOT);
    SplitRun(s + [DOT], run);
    GrowLast(Split(s), run);
  }

  lemma SplitFour(a: bytes, b: bytes, c: bytes, d: bytes)
    requires DOT !in a && DOT !in b && DOT !in c && DOT !in d
    ensures Split(a + [DOT] + b + [DOT] + c + [DOT] + d) == [a, b, c, d]
  {
    hide Split;
    SplitFirst(a);
    SplitDot(a, b);
    SplitDot(a + [DOT] + b, c);
    SplitDot(a + [DOT] + b + [DOT] + c, d);
  }

  lemma SplitFirst(a: bytes)
    requires DOT !in a
    ensures Split(a) == [a]
  {
    SplitRun([], a);
    assert [] + a == a;
    GrowLast([], a);
  }
}
