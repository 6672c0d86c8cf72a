/** The character tables of names and their binary search. */
module NameTables {

  datatype Range = Row(l: int, h: int)
  type Table = seq<Range>

  function Letter00(): Table {
    [
      Row(0x003A, 0x003A), Row(0x0041, 0x005A), Row(0x005F, 0x005F), Row(0x0061, 0x007A), Row(0x00C0, 0x00D6),
      Row(0x00D8, 0x00F6), Row(0x00F8, 0x00FF), Row(0x0100, 0x0131), Row(0x0134, 0x013E), Row(0x0141, 0x0148),
      Row(0x014A, 0x017E), Row(0x0180, 0x01C3), Row(0x01CD, 0x01F0), Row(0x01F4, 0x01F5), Row(0x01FA, 0x0217),
      Row(0x0250, 0x02A8), Row(0x02BB, 0x02C1), Row(0x0386, 0x0386)
    ]
  }

  function Letter01(): Table {
    [
      Row(0x0388, 0x038A), Row(0x038C, 0x038C), Row(0x038E, 0x03A1), Row(0x03A3, 0x03CE), Row(0x03D0, 0x03D6),
      Row(0x03DA, 0x03DA), Row(0x03DC, 0x03DC), Row(0x03DE, 0x03DE), Row(0x03E0, 0x03E0), Row(0x03E2, 0x03F3),
      Row(0x0401, 0x040C), Row(0x040E, 0x044F), Row(0x0451, 0x045C), Row(0x045E, 0x0481), Row(0x0490, 0x04C4),
      Row(0x04C7, 0x04C8), Row(0x04CB, 0x04CC), Row(0x04D0, 0x04EB)
    ]
  }

  function Letter02(): Table {
    [
      Row(0x04EE, 0x04F5), Row(0x04F8, 0x04F9), Row(0x0531, 0x0556), Row(0x0559, 0x0559), Row(0x0561, 0x0586),
      Row(0x05D0, 0x05EA), Row(0x05F0, 0x05F2), Row(0x0621, 0x063A), Row(0x0641, 0x064A), Row(0x0671, 0x06B7),
      Row(0x06BA, 0x06BE), Row(0x06C0, 0x06CE), Row(0x06D0, 0x06D3), Row(0x06D5, 0x06D5), Row(0x06E5, 0x06E6),
      Row(0x0905, 0x0939), Row(0x093D, 0x093D), Row(0x0958, 0x0961)
    ]
  }

  function Letter03(): Table {
    [
      Row(0x0985, 0x098C), Row(0x098F, 0x0990), Row(0x0993, 0x09A8), Row(0x09AA, 0x09B0), Row(0x09B2, 0x09B2),
      Row(0x09B6, 0x09B9), Row(0x09DC, 0x09DD), Row(0x09DF, 0x09E1), Row(0x09F0, 0x09F1), Row(0x0A05, 0x0A0A),
      Row(0x0A0F, 0x0A10), Row(0x0A13, 0x0A28), Row(0x0A2A, 0x0A30), Row(0x0A32, 0x0A33), Row(0x0A35, 0x0A36),
      Row(0x0A38, 0x0A39), Row(0x0A59, 0x0A5C), Row(0x0A5E, 0x0A5E)
    ]
  }

  function Letter04(): Table {
    [
      Row(0x0A72, 0x0A74), Row(0x0A85, 0x0A8B), Row(0x0A8D, 0x0A8D), Row(0x0A8F, 0x0A91), Row(0x0A93, 0x0AA8),
      Row(0x0AAA, 0x0AB0), Row(0x0AB2, 0x0AB3), Row(0x0AB5, 0x0AB9), Row(0x0ABD, 0x0ABD), Row(0x0AE0, 0x0AE0),
      Row(0x0B05, 0x0B0C), Row(0x0B0F, 0x0B10), Row(0x0B13, 0x0B28), Row(0x0B2A, 0x0B30), Row(0x0B32, 0x0B33),
      Row(0x0B36, 0x0B39), Row(0x0B3D, 0x0B3D), Row(0x0B5C, 0x0B5D)
    ]
  }

  function Letter05(): Table {
    [
      Row(0x0B5F, 0x0B61), Row(0x0B85, 0x0B8A), Row(0x0B8E, 0x0B90), Row(0x0B92, 0x0B95), Row(0x0B99, 0x0B9A),
      Row(0x0B9C, 0x0B9C), Row(0x0B9E, 0x0B9F), Row(0x0BA3, 0x0BA4), Row(0x0BA8, 0x0BAA), Row(0x0BAE, 0x0BB5),
      Row(0x0BB7, 0x0BB9), Row(0x0C05, 0x0C0C), Row(0x0C0E, 0x0C10), Row(0x0C12, 0x0C28), Row(0x0C2A, 0x0C33),
      Row(0x0C35, 0x0C39), Row(0x0C60, 0x0C61), Row(0x0C85, 0x0C8C)
    ]
  }

  function Letter06(): Table {
    [
      Row(0x0C8E, 0x0C90), Row(0x0C92, 0x0CA8), Row(0x0CAA, 0x0CB3), Row(0x0CB5, 0x0CB9), Row(0x0CDE, 0x0CDE),
      Row(0x0CE0, 0x0CE1), Row(0x0D05, 0x0D0C), Row(0x0D0E, 0x0D10), Row(0x0D12, 0x0D28), Row(0x0D2A, 0x0D39),
      Row(0x0D60, 0x0D61), Row(0x0E01, 0x0E2E), Row(0x0E30, 0x0E30), Row(0x0E32, 0x0E33), Row(0x0E40, 0x0E45),
      Row(0x0E81, 0x0E82), Row(0x0E84, 0x0E84), Row(0x0E87, 0x0E88)
    ]
  }

  function Letter07(): Table {
    [
      Row(0x0E8A, 0x0E8A), Row(0x0E8D, 0x0E8D), Row(0x0E94, 0x0E97), Row(0x0E99, 0x0E9F), Row(0x0EA1, 0x0EA3),
      Row(0x0EA5, 0x0EA5), Row(0x0EA7, 0x0EA7), Row(0x0EAA, 0x0EAB), Row(0x0EAD, 0x0EAE), Row(0x0EB0, 0x0EB0),
      Row(0x0EB2, 0x0EB3), Row(0x0EBD, 0x0EBD), Row(0x0EC0, 0x0EC4), Row(0x0F40, 0x0F47), Row(0x0F49, 0x0F69),
      Row(0x10A0, 0x10C5), Row(0x10D0, 0x10F6), Row(0x1100, 0x1100)
    ]
  }

  function Letter08(): Table {
    [
      Row(0x1102, 0x1103), Row(0x1105, 0x1107), Row(0x1109, 0x1109), Row(0x110B, 0x110C), Row(0x110E, 0x1112),
      Row(0x113C, 0x113C), Row(0x113E, 0x113E), Row(0x1140, 0x1140), Row(0x114C, 0x114C), Row(0x114E, 0x114E),
      Row(0x1150, 0x1150), Row(0x1154, 0x1155), Row(0x1159, 0x1159), Row(0x115F, 0x1161), Row(0x1163, 0x1163),
      Row(0x1165, 0x1165), Row(0x1167, 0x1167), Row(0x1169, 0x1169)
    ]
  }

  function Letter09(): Table {
    [
      Row(0x116D, 0x116E), Row(0x1172, 0x1173), Row(0x1175, 0x1175), Row(0x119E, 0x119E), Row(0x11A8, 0x11A8),
      Row(0x11AB, 0x11AB), Row(0x11AE, 0x11AF), Row(0x11B7, 0x11B8), Row(0x11BA, 0x11BA), Row(0x11BC, 0x11C2),
      Row(0x11EB, 0x11EB), Row(0x11F0, 0x11F0), Row(0x11F9, 0x11F9), Row(0x1E00, 0x1E9B), Row(0x1EA0, 0x1EF9),
      Row(0x1F00, 0x1F15), Row(0x1F18, 0x1F1D), Row(0x1F20, 0x1F45)
    ]
  }

  function Letter10(): Table {
    [
      Row(0x1F48, 0x1F4D), Row(0x1F50, 0x1F57), Row(0x1F59, 0x1F59), Row(0x1F5B, 0x1F5B), Row(0x1F5D, 0x1F5D),
      Row(0x1F5F, 0x1F7D), Row(0x1F80, 0x1FB4), Row(0x1FB6, 0x1FBC), Row(0x1FBE, 0x1FBE), Row(0x1FC2, 0x1FC4),
      Row(0x1FC6, 0x1FCC), Row(0x1FD0, 0x1FD3), Row(0x1FD6, 0x1FDB), Row(0x1FE0, 0x1FEC), Row(0x1FF2, 0x1FF4),
      Row(0x1FF6, 0x1FFC), Row(0x2126, 0x2126), Row(0x212A, 0x212B)
    ]
  }

  function Letter11(): Table {
    [
      Row(0x212E, 0x212E), Row(0x2180, 0x2182), Row(0x3007, 0x3007), Row(0x3021, 0x3029), Row(0x3041, 0x3094),
      Row(0x30A1, 0x30FA), Row(0x3105, 0x312C), Row(0x4E00, 0x9FA5), Row(0xAC00, 0xD7A3)
    ]
  }

  function NameChar00(): Table {
    [
      Row(0x002D, 0x002D), Row(0x002E, 0x002E), Row(0x0030, 0x0039), Row(0x00B7, 0x00B7), Row(0x02D0, 0x02D0),
      Row(0x02D1, 0x02D1), Row(0x0300, 0x0345), Row(0x0360, 0x0361), Row(0x0387, 0x0387), Row(0x0483, 0x0486),
      Row(0x0591, 0x05A1), Row(0x05A3, 0x05B9), Row(0x05BB, 0x05BD), Row(0x05BF, 0x05BF), Row(0x05C1, 0x05C2),
      Row(0x05C4, 0x05C4), Row(0x0640, 0x0640), Row(0x064B, 0x0652)
    ]
  }

  function NameChar01(): Table {
    [
      Row(0x0660, 0x0669), Row(0x0670, 0x0670), Row(0x06D6, 0x06DC), Row(0x06DD, 0x06DF), Row(0x06E0, 0x06E4),
      Row(0x06E7, 0x06E8), Row(0x06EA, 0x06ED), Row(0x06F0, 0x06F9), Row(0x0901, 0x0903), Row(0x093C, 0x093C),
      Row(0x093E, 0x094C), Row(0x094D, 0x094D), Row(0x0951, 0x0954), Row(0x0962, 0x0963), Row(0x0966, 0x096F),
      Row(0x0981, 0x0983), Row(0x09BC, 0x09BC), Row(0x09BE, 0x09BE)
    ]
  }

  function NameChar02(): Table {
    [
      Row(0x09BF, 0x09BF), Row(0x09C0, 0x09C4), Row(0x09C7, 0x09C8), Row(0x09CB, 0x09CD), Row(0x09D7, 0x09D7),
      Row(0x09E2, 0x09E3), Row(0x09E6, 0x09EF), Row(0x0A02, 0x0A02), Row(0x0A3C, 0x0A3C), Row(0x0A3E, 0x0A3E),
      Row(0x0A3F, 0x0A3F), Row(0x0A40, 0x0A42), Row(0x0A47, 0x0A48), Row(0x0A4B, 0x0A4D), Row(0x0A66, 0x0A6F),
      Row(0x0A70, 0x0A71), Row(0x0A81, 0x0A83), Row(0x0ABC, 0x0ABC)
    ]
  }

  function NameChar03(): Table {
    [
      Row(0x0ABE, 0x0AC5), Row(0x0AC7, 0x0AC9), Row(0x0ACB, 0x0ACD), Row(0x0AE6, 0x0AEF), Row(0x0B01, 0x0B03),
      Row(0x0B3C, 0x0B3C), Row(0x0B3E, 0x0B43), Row(0x0B47, 0x0B48), Row(0x0B4B, 0x0B4D), Row(0x0B56, 0x0B57),
      Row(0x0B66, 0x0B6F), Row(0x0B82, 0x0B83), Row(0x0BBE, 0x0BC2), Row(0x0BC6, 0x0BC8), Row(0x0BCA, 0x0BCD),
      Row(0x0BD7, 0x0BD7), Row(0x0BE7, 0x0BEF), Row(0x0C01, 0x0C03)
    ]
  }

  function NameChar04(): Table {
    [
      Row(0x0C3E, 0x0C44), Row(0x0C46, 0x0C48), Row(0x0C4A, 0x0C4D), Row(0x0C55, 0x0C56), Row(0x0C66, 0x0C6F),
      Row(0x0C82, 0x0C83), Row(0x0CBE, 0x0CC4), Row(0x0CC6, 0x0CC8), Row(0x0CCA, 0x0CCD), Row(0x0CD5, 0x0CD6),
      Row(0x0CE6, 0x0CEF), Row(0x0D02, 0x0D03), Row(0x0D3E, 0x0D43), Row(0x0D46, 0x0D48), Row(0x0D4A, 0x0D4D),
      Row(0x0D57, 0x0D57), Row(0x0D66, 0x0D6F), Row(0x0E31, 0x0E31)
    ]
  }

  function NameChar05(): Table {
    [
      Row(0x0E34, 0x0E3A), Row(0x0E46, 0x0E46), Row(0x0E47, 0x0E4E), Row(0x0E50, 0x0E59), Row(0x0EB1, 0x0EB1),
      Row(0x0EB4, 0x0EB9), Row(0x0EBB, 0x0EBC), Row(0x0EC6, 0x0EC6), Row(0x0EC8, 0x0ECD), Row(0x0ED0, 0x0ED9),
      Row(0x0F18, 0x0F19), Row(0x0F20, 0x0F29), Row(0x0F35, 0x0F35), Row(0x0F37, 0x0F37), Row(0x0F39, 0x0F39),
      Row(0x0F3E, 0x0F3E), Row(0x0F3F, 0x0F3F), Row(0x0F71, 0x0F84)
    ]
  }

  function NameChar06(): Table {
    [
      Row(0x0F86, 0x0F8B), Row(0x0F90, 0x0F95), Row(0x0F97, 0x0F97), Row(0x0F99, 0x0FAD), Row(0x0FB1, 0x0FB7),
      Row(0x0FB9, 0x0FB9), Row(0x20D0, 0x20DC), Row(0x20E1, 0x20E1), Row(0x3005, 0x3005), Row(0x302A, 0x302F),
      Row(0x3031, 0x3035), Row(0x3099, 0x3099), Row(0x309A, 0x309A), Row(0x309D, 0x309E), Row(0x30FC, 0x30FE)
    ]
  }

  function LetterLow(): Table {
    Letter00() + Letter01() + Letter02() + Letter03() + Letter04() + Letter05()
  }

  function LetterHigh(): Table {
    Letter06() + Letter07() + Letter08() + Letter09() + Letter10() + Letter11()
  }

  /** Every character a name may start with. */
  function Letter(): Table {
    LetterLow() + LetterHigh()
  }

  /** What else a name may go on with. */
  function NameChar(): Table {
    NameChar00() + NameChar01() + NameChar02() + NameChar03() + NameChar04() + NameChar05() + NameChar06()
  }

  predicate InTable(c: int, t: Table) {
    exists i | 0 <= i < |t| :: t[i].l <= c <= t[i].h
  }

  /** Rows are proper ranges, in ascending order, without overlap. */
  predicate Sorted(t: Table) {
    && (forall i | 0 <= i < |t| :: t[i].l <= t[i].h)
    && (forall i, j | 0 <= i < j < |t| :: t[i].h < t[j].l)
  }

  /** The same, one row after the other: what can be read off a table. */
  predicate Chained(t: Table) {
    && (forall i | 0 <= i < |t| :: t[i].l <= t[i].h)
    && (forall i | 0 <= i < |t| - 1 :: t[i].h < t[i + 1].l)
  }

  lemma {:induction false} ChainedSorted(t: Table)
    requires Chained(t)
    ensures Sorted(t)
  {
    if t != [] {
      var u := t[1..];
      assert forall i | 0 <= i < |u| :: u[i] == t[i + 1];
      ChainedSorted(u);
      forall i, j | 0 <= i < j < |t| ensures t[i].h < t[j].l {
        if i > 0 {
          assert u[i - 1].h < u[j - 1].l;
        } else if j > 1 {
          assert u[0].h < u[j - 1].l;
        }
      }
    }
  }

  lemma ChainedConcat(a: Table, b: Table)
    requires a != [] && b != []
    requires Chained(a) && Chained(b) && a[|a| - 1].h < b[0].l
    ensures Chained(a + b) && (|a| >= 4 ==> (a + b)[..4] == a[..4]) && (a + b)[|a + b| - 1] == b[|b| - 1]
  {
    var c := a + b;
    forall i | 0 <= i < |c| - 1 ensures c[i].h < c[i + 1].l {
      if i < |a| - 1 {
        assert a[i].h < a[i + 1].l;
      } else if i >= |a| {
        assert b[i - |a|].h < b[i - |a| + 1].l;
      }
    }
  }

  lemma Letter00Chained()
    ensures Letter00()[..4] == [Row(0x003A, 0x003A), Row(0x0041, 0x005A), Row(0x005F, 0x005F), Row(0x0061, 0x007A)]
    ensures Chained(Letter00()) && |Letter00()| == 18 && Letter00()[0] == Row(0x003A, 0x003A)
            && Letter00()[17] == Row(0x0386, 0x0386)
  {
  }

  lemma Letter01Chained()
    ensures Chained(Letter01()) && |Letter01()| == 18 && Letter01()[0] == Row(0x0388, 0x038A)
            && Letter01()[17] == Row(0x04D0, 0x04EB)
  {
  }

  lemma Letter02Chained()
    ensures Chained(Letter02()) && |Letter02()| == 18 && Letter02()[0] == Row(0x04EE, 0x04F5)
            && Letter02()[17] == Row(0x0958, 0x0961)
  {
  }

  lemma Letter03Chained()
    ensures Chained(Letter03()) && |Letter03()| == 18 && Letter03()[0] == Row(0x0985, 0x098C)
            && Letter03()[17] == Row(0x0A5E, 0x0A5E)
  {
  }

  lemma Letter04Chained()
    ensures Chained(Letter04()) && |Letter04()| == 18 && Letter04()[0] == Row(0x0A72, 0x0A74)
            && Letter04()[17] == Row(0x0B5C, 0x0B5D)
  {
  }

  lemma Letter05Chained()
    ensures Chained(Letter05()) && |Letter05()| == 18 && Letter05()[0] == Row(0x0B5F, 0x0B61)
            && Letter05()[17] == Row(0x0C85, 0x0C8C)
  {
  }

  lemma Letter06Chained()
    ensures Chained(Letter06()) && |Letter06()| == 18 && Letter06()[0] == Row(0x0C8E, 0x0C90)
            && Letter06()[17] == Row(0x0E87, 0x0E88)
  {
  }

  lemma Letter07Chained()
    ensures Chained(Letter07()) && |Letter07()| == 18 && Letter07()[0] == Row(0x0E8A, 0x0E8A)
            && Letter07()[17] == Row(0x1100, 0x1100)
  {
  }

  lemma Letter08Chained()
    ensures Chained(Letter08()) && |Letter08()| == 18 && Letter08()[0] == Row(0x1102, 0x1103)
            && Letter08()[17] == Row(0x1169, 0x1169)
  {
  }

  lemma Letter09Chained()
    ensures Chained(Letter09()) && |Letter09()| == 18 && Letter09()[0] == Row(0x116D, 0x116E)
            && Letter09()[17] == Row(0x1F20, 0x1F45)
  {
  }

  lemma Letter10Chained()
    ensures Chained(Letter10()) && |Letter10()| == 18 && Letter10()[0] == Row(0x1F48, 0x1F4D)
            && Letter10()[17] == Row(0x212A, 0x212B)
  {
  }

  lemma Letter11Chained()
    ensures Chained(Letter11()) && |Letter11()| == 9 && Letter11()[0] == Row(0x212E, 0x212E)
            && Letter11()[8] == Row(0xAC00, 0xD7A3)
  {
  }

  lemma LetterLowChained()
    ensures |LetterLow()| > 3 && Chained(LetterLow())
    ensures LetterLow()[..4] == [Row(0x003A, 0x003A), Row(0x0041, 0x005A), Row(0x005F, 0x005F), Row(0x0061, 0x007A)]
            && LetterLow()[|LetterLow()| - 1] == Row(0x0C85, 0x0C8C)
  {
    hide Letter00, Letter01, Letter02, Letter03, Letter04, Letter05;
    var t := Letter00();
    Letter00Chained();
    Letter01Chained();
    ChainedConcat(t, Letter01());
    t := t + Letter01();
    Letter02Chained();
    ChainedConcat(t, Letter02());
    t := t + Letter02();
    Letter03Chained();
    ChainedConcat(t, Letter03());
    t := t + Letter03();
    Letter04Chained();
    ChainedConcat(t, Letter04());
    t := t + Letter04();
    Letter05Chained();
    ChainedConcat(t, Letter05());
    t := t + Letter05();
  }

  lemma LetterHighChained()
    ensures |LetterHigh()| > 3 && Chained(LetterHigh())
    ensures LetterHigh()[0] == Row(0x0C8E, 0x0C90) && LetterHigh()[|LetterHigh()| - 1] == Row(0xAC00, 0xD7A3)
  {
    hide Letter06, Letter07, Letter08, Letter09, Letter10, Letter11;
    var t := Letter06();
    Letter06Chained();
    Letter07Chained();
    ChainedConcat(t, Letter07());
    t := t + Letter07();
    Letter08Chained();
    ChainedConcat(t, Letter08());
    t := t + Letter08();
    Letter09Chained();
    ChainedConcat(t, Letter09());
    t := t + Letter09();
    Letter10Chained();
    ChainedConcat(t, Letter10());
    t := t + Letter10();
    Letter11Chained();
    ChainedConcat(t, Letter11());
    t := t + Letter11();
  }

  /** The rows of the table in the source are in order, as its binary search needs. */
  lemma LetterTable()
    ensures |Letter()| > 3 && Sorted(Letter())
    ensures Letter()[..4] == [Row(0x003A, 0x003A), Row(0x0041, 0x005A), Row(0x005F, 0x005F), Row(0x0061, 0x007A)]
            && Letter()[|Letter()| - 1] == Row(0xAC00, 0xD7A3)
  {
    hide LetterLow, LetterHigh;
    LetterLowChained();
    LetterHighChained();
    ChainedConcat(LetterLow(), LetterHigh());
    ChainedSorted(LetterLow() + LetterHigh());
  }

  lemma NameChar00Chained()
    ensures NameChar00()[..4] == [Row(0x002D, 0x002D), Row(0x002E, 0x002E), Row(0x0030, 0x0039), Row(0x00B7, 0x00B7)]
    ensures Chained(NameChar00()) && |NameChar00()| == 18 && NameChar00()[0] == Row(0x002D, 0x002D)
            && NameChar00()[17] == Row(0x064B, 0x0652)
  {
  }

  lemma NameChar01Chained()
    ensures Chained(NameChar01()) && |NameChar01()| == 18 && NameChar01()[0] == Row(0x0660, 0x0669)
            && NameChar01()[17] == Row(0x09BE, 0x09BE)
  {
  }

  lemma NameChar02Chained()
    ensures Chained(NameChar02()) && |NameChar02()| == 18 && NameChar02()[0] == Row(0x09BF, 0x09BF)
            && NameChar02()[17] == Row(0x0ABC, 0x0ABC)
  {
  }

  lemma NameChar03Chained()
    ensures Chained(NameChar03()) && |NameChar03()| == 18 && NameChar03()[0] == Row(0x0ABE, 0x0AC5)
            && NameChar03()[17] == Row(0x0C01, 0x0C03)
  {
  }

  lemma NameChar04Chained()
    ensures Chained(NameChar04()) && |NameChar04()| == 18 && NameChar04()[0] == Row(0x0C3E, 0x0C44)
            && NameChar04()[17] == Row(0x0E31, 0x0E31)
  {
  }

  lemma NameChar05Chained()
    ensures Chained(NameChar05()) && |NameChar05()| == 18 && NameChar05()[0] == Row(0x0E34, 0x0E3A)
            && NameChar05()[17] == Row(0x0F71, 0x0F84)
  {
  }

  lemma NameChar06Chained()
    ensures Chained(NameChar06()) && |NameChar06()| == 15 && NameChar06()[0] == Row(0x0F86, 0x0F8B)
            && NameChar06()[14] == Row(0x30FC, 0x30FE)
  {
  }

  /** The rows of the table in the source are in order, as its binary search needs. */
  lemma NameCharTable()
    ensures |NameChar()| > 3 && Sorted(NameChar())
    ensures NameChar()[..4] == [Row(0x002D, 0x002D), Row(0x002E, 0x002E), Row(0x0030, 0x0039), Row(0x00B7, 0x00B7)]
            && NameChar()[|NameChar()| - 1] == Row(0x30FC, 0x30FE)
  {
    hide NameChar00, NameChar01, NameChar02, NameChar03, NameChar04, NameChar05, NameChar06;
    var t := NameChar00();
    NameChar00Chained();
    NameChar01Chained();
    ChainedConcat(t, NameChar01());
    t := t + NameChar01();
    NameChar02Chained();
    ChainedConcat(t, NameChar02());
    t := t + NameChar02();
    NameChar03Chained();
    ChainedConcat(t, NameChar03());
    t := t + NameChar03();
    NameChar04Chained();
    ChainedConcat(t, NameChar04());
    t := t + NameChar04();
    NameChar05Chained();
    ChainedConcat(t, NameChar05());
    t := t + NameChar05();
    NameChar06Chained();
    ChainedConcat(t, NameChar06());
    t := t + NameChar06();
    ChainedSorted(t);
  }

  /** The binary search; rows are 16-bit, so the middle index is exact. */
  method IsCharInTable(c: int, tbl: Table) returns (found: bool)
    requires Sorted(tbl)
    ensures found <==> InTable(c, tbl)
  {
    var t, b := 0, |tbl| - 1;
    while t <= b
      invariant 0 <= t <= b + 1 <= |tbl|
      invariant forall i | 0 <= i < t :: tbl[i].h < c
      invariant forall i | b < i < |tbl| :: c < tbl[i].l
    {
      var m := (t + b) / 2;
      if c < tbl[m].l {
        b := m - 1;
      } else if c > tbl[m].h {
        t := m + 1;
      } else {
        return true;
      }
    }
    return false;
  }

  predicate IsName(c: int, bNameChar: bool) {
    InTable(c, Letter()) || (bNameChar && InTable(c, NameChar()))
  }

  method IsNameChar(c: int, bNameChar: bool) returns (r: bool)
    ensures r <==> IsName(c, bNameChar)
  {
    hide Letter, NameChar;
    LetterTable();
    NameCharTable();
    r := IsCharInTable(c, Letter());
    if !r && bNameChar {
      r := IsCharInTable(c, NameChar());
    }
  }

  /** Section 2.2 of XML 1.0, Second Edition. */
  predicate IsXmlChar(c: int) {
    c == 0x9 || c == 0xA || c == 0xD || 0x20 <= c <= 0xD7FF || 0xE000 <= c <= 0xFFFD || 0x10000 <= c <= 0x10FFFF
  }

  /** Names are made of XML characters, none of them a reference or white space. */
  lemma NameIsXmlChar(c: int, bNameChar: bool)
    requires IsName(c, bNameChar)
    ensures IsXmlChar(c) && 0x2D <= c
  {
    hide Letter, NameChar;
    LetterTable();
    NameCharTable();
    var t := if InTable(c, Letter()) then Letter() else NameChar();
    var i :| 0 <= i < |t| && t[i].l <= c <= t[i].h;
    assert t[0] == t[..4][0];
    assert t[0].l <= c && t[i].h <= t[|t| - 1].h;
  }

  lemma InGap(t: Table, i: nat, c: int)
    requires Sorted(t) && i + 1 < |t| && t[i].h < c < t[i + 1].l
    ensures !InTable(c, t)
  {
  }

  /** The characters the lexer's tokens begin with are not name characters. */
  lemma Punctuation(c: int)
    requires c < 0x2D || c == 0x2F || c in {0x3C, 0x3D, 0x3E, 0x3F, 0x5B}
    ensures !IsName(c, true)
  {
    hide Letter, NameChar;
    LetterTable();
    NameCharTable();
    var l, n := Letter(), NameChar();
    assert l[0] == l[..4][0] && l[1] == l[..4][1] && l[2] == l[..4][2];
    assert n[0] == n[..4][0] && n[1] == n[..4][1] && n[2] == n[..4][2] && n[3] == n[..4][3];
    if c >= 0x2D {
      if c == 0x5B {
        InGap(l, 1, c);
      } else if c > 0x3A {
        InGap(l, 0, c);
      }
      InGap(n, if c == 0x2F then 1 else 2, c);
    }
  }

  /** '-', '.' and the digits go on with a name but do not begin one; '!' does neither. */
  lemma StartPunctuation(c: int)
    requires c < 0x3A
    ensures !IsName(c, false)
  {
    hide Letter;
    LetterTable();
    assert Letter()[0] == Letter()[..4][0];
  }
}
