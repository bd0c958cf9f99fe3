/** The cases of the repository's unit tests, stated about the model: the
    expansion, compression and construction of IPv6 literals, and the IPv4
    addresses the tests accept and refuse. */
module TestCases {
  import opened Errors
  import opened Numerals
  import opened Text
  import opened Bytes
  import DottedQuad
  import Ipv6Text
  import IPv6
  import IPv4

  // ---------------------------------------------------------------------
  // Helpers for concrete numerals
  // ---------------------------------------------------------------------

  lemma ValueOfShort(d0: nat, d1: nat, d2: nat, base: nat)
    ensures ValueOf([d0], base) == d0
    ensures ValueOf([d0, d1], base) == d0 * base + d1
    ensures ValueOf([d0, d1, d2], base) == (d0 * base + d1) * base + d2
  {
    assert [d0][..0] == [];
    assert [d0, d1][..1] == [d0];
    assert [d0, d1, d2][..2] == [d0, d1];
  }

  /** The value of a hex numeral of one to four digits, digit by digit. */
  lemma HexDigitsValue(t: string)
    requires 1 <= |t| <= 4 && forall i :: 0 <= i < |t| ==> IsHexDigit(t[i])
    ensures |t| == 1 ==> HexValue(t) == CharValue(t[0])
    ensures |t| == 2 ==> HexValue(t) == CharValue(t[0]) * 16 + CharValue(t[1])
    ensures |t| == 3 ==> HexValue(t) == (CharValue(t[0]) * 16 + CharValue(t[1])) * 16 + CharValue(t[2])
    ensures |t| == 4 ==> HexValue(t) == ((CharValue(t[0]) * 16 + CharValue(t[1])) * 16 + CharValue(t[2])) * 16 + CharValue(t[3])
  {
    var ds := Read(t);
    if |t| == 4 {
      assert ds == [ds[0], ds[1], ds[2], ds[3]];
      ValueOfFour(ds[0], ds[1], ds[2], ds[3], 16);
    } else if |t| == 3 {
      assert ds == [ds[0], ds[1], ds[2]];
      ValueOfShort(ds[0], ds[1], ds[2], 16);
    } else if |t| == 2 {
      assert ds == [ds[0], ds[1]];
      ValueOfShort(ds[0], ds[1], 0, 16);
    } else {
      assert ds == [ds[0]];
      ValueOfShort(ds[0], 0, 0, 16);
    }
  }

  /** The value of a decimal numeral of one to three digits, digit by digit. */
  lemma DecimalDigitsValue(t: string)
    requires 1 <= |t| <= 3 && forall i :: 0 <= i < |t| ==> IsDecimalDigit(t[i])
    ensures |t| == 1 ==> DecimalValue(t) == CharValue(t[0])
    ensures |t| == 2 ==> DecimalValue(t) == CharValue(t[0]) * 10 + CharValue(t[1])
    ensures |t| == 3 ==> DecimalValue(t) == (CharValue(t[0]) * 10 + CharValue(t[1])) * 10 + CharValue(t[2])
  {
    DecimalIsHex(t);
    var ds := Read(t);
    if |t| == 3 {
      assert ds == [ds[0], ds[1], ds[2]];
      ValueOfShort(ds[0], ds[1], ds[2], 10);
    } else if |t| == 2 {
      assert ds == [ds[0], ds[1]];
      ValueOfShort(ds[0], ds[1], 0, 10);
    } else {
      assert ds == [ds[0]];
      ValueOfShort(ds[0], 0, 0, 10);
    }
  }

  /** Four-digit texts worth the given words are the words' `WordHexes`. */
  lemma WordHexesOfTexts(ts: seq<string>, g: seq<Word16>)
    requires |ts| == |g|
    requires forall k :: 0 <= k < |ts| ==> |ts[k]| == 4 && forall i :: 0 <= i < 4 ==> IsLowerHexDigit(ts[k][i])
    requires forall k :: 0 <= k < |ts| ==> HexValue(ts[k]) == g[k]
    ensures WordHexes(g) == ts
  {
    forall k | 0 <= k < |ts|
      ensures WordHexes(g)[k] == ts[k]
    {
      WordHexOfText(ts[k], g[k]);
    }
  }

  // ---------------------------------------------------------------------
  // IPv6 (the literals are written as their pieces joined by ':')
  // ---------------------------------------------------------------------

  const ShortHead := ["2607", "f0d0", "1002", "51"]
  const LongTexts := ["2607", "f0d0", "1002", "0051", "0000", "0000", "0000", "0004"]
  const Groups: seq<Word16> := [0x2607, 0xF0D0, 0x1002, 0x51, 0, 0, 0, 4]

  lemma ShortHeadSpells()
    ensures Ipv6Text.Spells(ShortHead, Groups[..4])
    ensures Ipv6Text.Spells(["4"], Groups[7..])
  {
    HexDigitsValue("2607");
    HexDigitsValue("f0d0");
    HexDigitsValue("1002");
    HexDigitsValue("51");
    HexDigitsValue("4");
  }

  lemma LongTextsValues()
    ensures forall k :: 0 <= k < 8 ==> |LongTexts[k]| == 4 && forall i :: 0 <= i < 4 ==> IsLowerHexDigit(LongTexts[k][i])
    ensures forall k :: 0 <= k < 8 ==> HexValue(LongTexts[k]) == Groups[k]
  {
    HexDigitsValue("2607");
    HexDigitsValue("f0d0");
    HexDigitsValue("1002");
    HexDigitsValue("0051");
    HexDigitsValue("0000");
    HexDigitsValue("0004");
  }

  /** The first test literal denotes the groups 2607, f0d0, 1002, 51, 0, 0, 0, 4. */
  lemma ParseShort()
    ensures Ipv6Text.Parse(Join(ShortHead, ':') + "::" + Join(["4"], ':')) == Some(Groups)
  {
    ShortHeadSpells();
    Ipv6Text.ParseJoinedAround(ShortHead, Groups[..4], ["4"], Groups[7..]);
    assert Groups[..4] + Ipv6Text.Zeros(3) + Groups[7..] == Groups;
  }

  /** The expanded test literal denotes the same groups, and its pieces are
      the groups' four-digit texts. */
  lemma ParseLong()
    ensures Ipv6Text.Parse(Join(LongTexts, ':')) == Some(Groups)
    ensures WordHexes(Groups) == LongTexts
  {
    LongTextsValues();
    WordHexesOfTexts(LongTexts, Groups);
    Ipv6Text.WordHexesSpell(Groups);
    Ipv6Text.ParseJoined(LongTexts, Groups);
  }

  /** `expand('2607:f0d0:1002:51::4')` is
      `2607:f0d0:1002:0051:0000:0000:0000:0004`. */
  lemma ExpandShort()
    ensures Ipv6Text.IsLiteral(Join(ShortHead, ':') + "::" + Join(["4"], ':'))
    ensures IPv6.Expand(Join(ShortHead, ':') + "::" + Join(["4"], ':')) == Join(LongTexts, ':')
  {
    ParseShort();
    ParseLong();
  }

  lemma CompressLong()
    ensures Ipv6Text.IsLiteral(Join(LongTexts, ':'))
    ensures IPv6.Compress(Join(LongTexts, ':')) == Join(ShortHead, ':') + "::" + Join(["4"], ':')
  {
    ParseLong();
    CompressOfGroups(Join(LongTexts, ':'), Groups);
  }

  /** Groups worth 2607, f0d0, 1002, 51, 0, 0, 0, 4, element by element. */
  predicate IsTestGroups(g: seq<Word16>)
  {
    && |g| == 8 && g[0] == 0x2607 && g[1] == 0xF0D0 && g[2] == 0x1002 && g[3] == 0x51
    && g[4] == 0 && g[5] == 0 && g[6] == 0 && g[7] == 4
  }

  /** The longest zero run of the test groups is the three zeros from index 4. */
  lemma LongestRunOfGroups(g: seq<Word16>)
    requires IsTestGroups(g)
    ensures Ipv6Text.LongestZeroRun(g, 0) == (4, 3)
  {
    var r := Ipv6Text.LongestZeroRun(g, 0);
    assert Ipv6Text.ZeroRun(g, 4, 3);
    assert g[r.0] == 0;
    assert g[r.0 + r.1 - 1] == 0;
  }

  /** The short texts of the groups either side of the run. */
  lemma ShortTextsOfGroups(g: seq<Word16>)
    requires IsTestGroups(g)
    ensures Ipv6Text.ShortTexts(g[..4]) == ShortHead && Ipv6Text.ShortTexts(g[7..]) == ["4"]
  {
    ShortHeadSpells();
    forall k | 0 <= k < 4
      ensures Ipv6Text.ShortTexts(g[..4])[k] == ShortHead[k]
    {
      HexTextOfValue(ShortHead[k]);
    }
    HexTextOfValue("4");
  }

  lemma CompressedGroups(g: seq<Word16>)
    requires IsTestGroups(g)
    ensures Ipv6Text.Compressed(g) == Join(ShortHead, ':') + "::" + Join(["4"], ':')
  {
    LongestRunOfGroups(g);
    ShortTextsOfGroups(g);
  }

  /** Any literal denoting the test groups compresses to the short test text. */
  lemma CompressOfGroups(s: string, g: seq<Word16>)
    requires Ipv6Text.Parse(s) == Some(g) && IsTestGroups(g)
    ensures IPv6.Compress(s) == Join(ShortHead, ':') + "::" + Join(["4"], ':')
  {
    CompressedGroups(g);
  }

  /** `new IPv6Address('2607:f0d0:1002:51::4')` and `new
      IPv6Address('2607:f0d0:1002:0051:0000:0000:0000:0004')` both print,
      expanded, as `2607:f0d0:1002:0051:0000:0000:0000:0004`. */
  lemma ConstructFirstAddress()
    ensures var a := IPv6.New(Join(ShortHead, ':') + "::" + Join(["4"], ':'));
      a.Success? && IPv6.ToString(a.value, true) == Join(LongTexts, ':')
    ensures var a := IPv6.New(Join(LongTexts, ':'));
      a.Success? && IPv6.ToString(a.value, true) == Join(LongTexts, ':')
  {
    ExpandShort();
    ParseLong();
    IPv6.ToStringOfNew(Join(ShortHead, ':') + "::" + Join(["4"], ':'));
    IPv6.ToStringOfNew(Join(LongTexts, ':'));
  }

  const DocHead := ["2001", "db8", "85a3"]
  const DocTail := ["8a2e", "370", "7334"]
  const DocTexts := ["2001", "0db8", "85a3", "0000", "0000", "8a2e", "0370", "7334"]
  const DocGroups: seq<Word16> := [0x2001, 0xDB8, 0x85A3, 0, 0, 0x8A2E, 0x370, 0x7334]

  lemma DocSpells()
    ensures Ipv6Text.Spells(DocHead, DocGroups[..3])
    ensures Ipv6Text.Spells(DocTail, DocGroups[5..])
  {
    HexDigitsValue("2001");
    HexDigitsValue("db8");
    HexDigitsValue("85a3");
    HexDigitsValue("8a2e");
    HexDigitsValue("370");
    HexDigitsValue("7334");
  }

  lemma DocTextsValues()
    ensures forall k :: 0 <= k < 8 ==> |DocTexts[k]| == 4 && forall i :: 0 <= i < 4 ==> IsLowerHexDigit(DocTexts[k][i])
    ensures forall k :: 0 <= k < 8 ==> HexValue(DocTexts[k]) == DocGroups[k]
  {
    HexDigitsValue("2001");
    HexDigitsValue("0db8");
    HexDigitsValue("85a3");
    HexDigitsValue("0000");
    HexDigitsValue("8a2e");
    HexDigitsValue("0370");
    HexDigitsValue("7334");
  }

  /** `new IPv6Address('2001:db8:85a3::8a2e:370:7334')` prints, expanded,
      as `2001:0db8:85a3:0000:0000:8a2e:0370:7334`. */
  lemma ConstructSecondAddress()
    ensures var a := IPv6.New(Join(DocHead, ':') + "::" + Join(DocTail, ':'));
      a.Success? && IPv6.ToString(a.value, true) == Join(DocTexts, ':')
  {
    DocSpells();
    Ipv6Text.ParseJoinedAround(DocHead, DocGroups[..3], DocTail, DocGroups[5..]);
    assert DocGroups[..3] + Ipv6Text.Zeros(2) + DocGroups[5..] == DocGroups;
    DocTextsValues();
    WordHexesOfTexts(DocTexts, DocGroups);
    IPv6.ToStringOfNew(Join(DocHead, ':') + "::" + Join(DocTail, ':'));
  }

  /** `not:an:address` is refused: its first piece is not hex. */
  lemma NotAnAddress()
    ensures IPv6.New(Join(["not", "an", "address"], ':')).Failure?
  {
    assert !IsHexDigit("not"[0]);
    Ipv6Text.NonGroupPieceRefused(["not", "an", "address"], 0);
  }

  // ---------------------------------------------------------------------
  // IPv4 (the dotted quads are written as their octets joined by '.')
  // ---------------------------------------------------------------------

  /** Four octet texts joined by '.' are accepted, give the integer their
      place values add up to, and print back as themselves. */
  lemma FromQuad(ps: seq<string>)
    requires |ps| == 4
    requires DottedQuad.IsOctetText(ps[0]) && DottedQuad.IsOctetText(ps[1])
    requires DottedQuad.IsOctetText(ps[2]) && DottedQuad.IsOctetText(ps[3])
    ensures var r := IPv4.FromString(Join(ps, '.'));
      && r.Success?
      && IPv4.ToInteger(r.value)
         == DecimalValue(ps[0]) * 0x100_0000 + DecimalValue(ps[1]) * 0x1_0000 + DecimalValue(ps[2]) * 0x100 + DecimalValue(ps[3])
      && IPv4.ToString(r.value) == Join(ps, '.')
  {
    forall k | 0 <= k < 4
      ensures '.' !in ps[k]
    {
      assert forall i :: 0 <= i < |ps[k]| ==> IsDecimalDigit(ps[k][i]);
    }
    SplitJoin(ps, '.');
    DottedQuad.ParseValue(Join(ps, '.'));
  }

  lemma IsOctetOfValue(t: string, v: nat)
    requires 1 <= |t| <= 3 && forall i :: 0 <= i < |t| ==> IsDecimalDigit(t[i])
    requires t[0] != '0' || |t| == 1
    requires |t| == 1 ==> CharValue(t[0]) == v
    requires |t| == 2 ==> CharValue(t[0]) * 10 + CharValue(t[1]) == v
    requires |t| == 3 ==> (CharValue(t[0]) * 10 + CharValue(t[1])) * 10 + CharValue(t[2]) == v
    requires v <= 255
    ensures DottedQuad.IsOctetText(t) && DecimalValue(t) == v
  {
    DecimalDigitsValue(t);
  }

  /** `127.0.0.1` is accepted as 2130706433. */
  lemma Loopback()
    ensures var r := IPv4.FromString(Join(["127", "0", "0", "1"], '.'));
      r.Success? && IPv4.ToInteger(r.value) == 2130706433
  {
    IsOctetOfValue("127", 127);
    IsOctetOfValue("0", 0);
    IsOctetOfValue("1", 1);
    FromQuad(["127", "0", "0", "1"]);
  }

  /** `192.168.0.100` is accepted as 3232235620. */
  lemma PrivateAddress()
    ensures var r := IPv4.FromString(Join(["192", "168", "0", "100"], '.'));
      r.Success? && IPv4.ToInteger(r.value) == 3232235620
  {
    IsOctetOfValue("192", 192);
    IsOctetOfValue("168", 168);
    IsOctetOfValue("0", 0);
    IsOctetOfValue("100", 100);
    FromQuad(["192", "168", "0", "100"]);
  }

  /** `10.0.0.1` is accepted as 167772161. */
  lemma TenNet()
    ensures var r := IPv4.FromString(Join(["10", "0", "0", "1"], '.'));
      r.Success? && IPv4.ToInteger(r.value) == 167772161
  {
    IsOctetOfValue("10", 10);
    IsOctetOfValue("0", 0);
    IsOctetOfValue("1", 1);
    FromQuad(["10", "0", "0", "1"]);
  }

  /** `255.255.255.255` is accepted as 4294967295, the largest address. */
  lemma Broadcast()
    ensures var r := IPv4.FromString(Join(["255", "255", "255", "255"], '.'));
      r.Success? && IPv4.ToInteger(r.value) == 4294967295 == IPv4.MaxAddress
  {
    IsOctetOfValue("255", 255);
    FromQuad(["255", "255", "255", "255"]);
  }

  /** `8.8.4.4` is accepted as 134743044. */
  lemma SecondResolver()
    ensures var r := IPv4.FromString(Join(["8", "8", "4", "4"], '.'));
      r.Success? && IPv4.ToInteger(r.value) == 134743044
  {
    IsOctetOfValue("8", 8);
    IsOctetOfValue("4", 4);
    FromQuad(["8", "8", "4", "4"]);
  }

  /** `8.8.8.8` is accepted as 134744072 and prints as itself. */
  lemma FirstResolver()
    ensures var r := IPv4.FromString(Join(["8", "8", "8", "8"], '.'));
      && r.Success?
      && IPv4.ToInteger(r.value) == 134744072
      && IPv4.ToString(r.value) == Join(["8", "8", "8", "8"], '.')
  {
    IsOctetOfValue("8", 8);
    FromQuad(["8", "8", "8", "8"]);
  }

  /** The binary string of the address 134744072 (`8.8.8.8`) is four bytes
      of 8, which read back big-endian as that integer. */
  lemma FirstResolverBytes(a: IPv4.IPv4Address)
    requires IPv4.ToInteger(a) == 134744072
    ensures IPv4.ToBinaryString(a) == [8, 8, 8, 8]
    ensures UnpackN(IPv4.ToBinaryString(a)) == 134744072
  {
    UnpackPackN(IPv4.ToInteger(a));
  }

  /** Dot-free pieces joined by '.' are refused when there are not four of
      them, or when one of the four is not an octet. */
  lemma QuadRefused(ps: seq<string>, k: nat)
    requires |ps| >= 1 && forall j :: 0 <= j < |ps| ==> '.' !in ps[j]
    requires |ps| != 4 || (k < 4 && !DottedQuad.IsOctetText(ps[k]))
    ensures IPv4.FromString(Join(ps, '.')).Failure?
  {
    var s := Join(ps, '.');
    SplitJoin(ps, '.');
    assert Split(s, '.') == ps;
    PiecesRefused(s, k);
  }

  /** A text whose dot-separated pieces are not four octets is refused. */
  lemma PiecesRefused(s: string, k: nat)
    requires var ps := Split(s, '.'); |ps| != 4 || (k < 4 && !DottedQuad.IsOctetText(ps[k]))
    ensures IPv4.FromString(s).Failure?
  {
    DottedQuad.ParseRefuses(s);
  }

  /** `255.255.255.256` is refused: its last octet is over 255. */
  lemma OctetTooLarge()
    ensures IPv4.FromString(Join(["255", "255", "255", "256"], '.')).Failure?
  {
    DecimalDigitsValue("256");
    QuadRefused(["255", "255", "255", "256"], 3);
  }

  /** `10.0.-1.0` is refused: an octet holds a minus sign. */
  lemma NegativeOctet()
    ensures IPv4.FromString(Join(["10", "0", "-1", "0"], '.')).Failure?
  {
    assert !IsDecimalDigit("-1"[0]);
    QuadRefused(["10", "0", "-1", "0"], 2);
  }

  /** `not an IP address at all` is refused: it has no dot at all. */
  lemma FreeText()
    ensures IPv4.FromString(Join(["not an IP address at all"], '.')).Failure?
  {
    QuadRefused(["not an IP address at all"], 0);
  }

  /** The invalid integers of the tests are refused: PHP_INT_MAX on a 64-bit
      build, and -1. */
  lemma InvalidIntegers()
    ensures IPv4.New(0x7FFF_FFFF_FFFF_FFFF).Failure?
    ensures IPv4.New(-1).Failure?
    ensures IPv4.New(-1).error == InvalidIPAddress(IntegerInput(-1))
  {
  }
}
