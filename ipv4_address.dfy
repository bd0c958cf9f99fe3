/** `IPv4Address`: an immutable IPv4 address holding its four-byte binary
    form (the 32-bit value, big-endian), built from an integer or a strict
    dotted quad, printed back as either, and projected to the IPv4-mapped
    IPv6 address of section 2.5.5.2 of RFC 4291. */
module IPv4 {
  import opened Errors
  import opened Numerals
  import opened Text
  import opened Bytes
  import DottedQuad
  import Ipv6Text
  import IPv6

  type Binary4 = b: seq<Byte> | |b| == 4 witness [0, 0, 0, 0]

  /** `address` is the binary string the constructor stores. */
  datatype IPv4Address = IPv4Address(address: Binary4)

  /** `ip2long('255.255.255.255')` on a 64-bit build. */
  const MaxAddress: int := 0xFFFF_FFFF

  /** The constructor: refuses an integer outside 0 to 4294967295, and
      otherwise stores `pack('N', $address)`. */
  function New(address: int): (r: Result<IPv4Address, InvalidIPAddress>)
    ensures r.Success? <==> 0 <= address <= MaxAddress
    ensures r.Failure? ==> r.error == InvalidIPAddress(IntegerInput(address))
    ensures r.Success? ==> ToInteger(r.value) == address
  {
    if address > MaxAddress || address < 0 then Failure(InvalidIPAddress(IntegerInput(address)))
    else
      UnpackPackN(address);
      Success(IPv4Address(PackN(address)))
  }

  /** `fromString`: refuses anything the strict dotted-quad validator refuses,
      and otherwise constructs from `ip2long` of the string. Every accepted
      string is the text `toString` prints for the result. */
  function FromString(address: string): (r: Result<IPv4Address, InvalidIPAddress>)
    ensures r.Success? <==> DottedQuad.Parse(address).Some?
    ensures r.Failure? ==> r.error == InvalidIPAddress(StringInput(address))
    ensures r.Success? ==> ToInteger(r.value) == DottedQuad.Parse(address).value
    ensures r.Success? ==> ToString(r.value) == address
  {
    match DottedQuad.Parse(address)
    case None => Failure(InvalidIPAddress(StringInput(address)))
    case Some(n) =>
      DottedQuad.ParseIsInverseOfFormat(address, n);
      New(n)
  }

  /** `fromInteger`: the constructor under another name; an address built
      from an integer in range gives that integer back. */
  function FromInteger(address: int): (r: Result<IPv4Address, InvalidIPAddress>)
    ensures r.Success? <==> 0 <= address <= MaxAddress
    ensures r.Failure? ==> r.error == InvalidIPAddress(IntegerInput(address))
    ensures r.Success? ==> ToInteger(r.value) == address
  {
    New(address)
  }

  /** `toBinaryString`: the four stored bytes, the big-endian encoding of the
      address's integer. */
  function ToBinaryString(a: IPv4Address): (r: seq<Byte>)
    ensures |r| == 4 && r == PackN(ToInteger(a))
  {
    a.address
  }

  /** `toInteger`: `unpack('N')` of the stored bytes, whose big-endian
      encoding is those bytes. */
  function ToInteger(a: IPv4Address): (n: Word32)
    ensures PackN(n) == a.address
  {
    PackUnpackN(a.address);
    UnpackN(a.address)
  }

  /** `toString`: `long2ip` of the integer, a dotted quad the strict validator
      accepts and reads back as that integer. */
  function ToString(a: IPv4Address): (r: string)
    ensures DottedQuad.Parse(r) == Some(ToInteger(a))
  {
    DottedQuad.ParseIsInverseOfFormat(DottedQuad.Format(ToInteger(a)), ToInteger(a));
    DottedQuad.Format(ToInteger(a))
  }

  /** The literal `toIpv6Address` builds: "::ffff:" and the hex dump of the
      four bytes cut into two four-digit groups joined by ':'. */
  function MappedText(a: IPv4Address): string
  {
    "::ffff:" + Join(Chunks(HexOfBytes(a.address), 4), ':')
  }

  /** The two big-endian words of the four bytes are the high and the low
      half of the address's integer. */
  lemma MappedWords(a: IPv4Address)
    ensures UnpackWords(a.address) == [ToInteger(a) / 0x1_0000, ToInteger(a) % 0x1_0000]
  {
    var b0: nat, b1: nat, b2: nat, b3: nat := a.address[0], a.address[1], a.address[2], a.address[3];
    assert a.address[2..][2..] == [];
    assert UnpackWords(a.address) == [b0 * 0x100 + b1, b2 * 0x100 + b3];
    MulAddDiv(b0 * 0x100 + b1, 0x1_0000, b2 * 0x100 + b3);
  }

  /** "ffff" is a group worth 0xffff. */
  lemma AllOnesGroup()
    ensures Ipv6Text.IsGroupText("ffff") && Ipv6Text.GroupValue("ffff") == 0xFFFF
  {
    assert Read("ffff") == [15, 15, 15, 15];
    ValueOfFour(15, 15, 15, 15, 16);
  }

  /** The hex dump cut in four-digit chunks is the texts of the two words. */
  lemma MappedChunks(a: IPv4Address)
    ensures Chunks(HexOfBytes(a.address), 4) == WordHexes(UnpackWords(a.address))
  {
    var ws := UnpackWords(a.address);
    PackUnpackWords(a.address);
    HexOfPackedWords(ws);
    ChunksOfPieces(HexOfBytes(a.address), 4, WordHexes(ws));
  }

  /** The mapped literal is an empty head, "::", and the groups "ffff" and the
      two words joined by ':'. */
  lemma MappedTextShape(a: IPv4Address)
    ensures MappedText(a) == Join([], ':') + "::" + Join(["ffff"] + WordHexes(UnpackWords(a.address)), ':')
  {
    MappedChunks(a);
    var tp := ["ffff"] + WordHexes(UnpackWords(a.address));
    assert tp[1..] == WordHexes(UnpackWords(a.address));
  }

  /** The groups after the "::" are spelled by "ffff" and the texts of the
      two words. */
  lemma MappedPiecesSpell(a: IPv4Address)
    ensures Ipv6Text.Spells(["ffff"] + WordHexes(UnpackWords(a.address)), [0xFFFF] + UnpackWords(a.address))
  {
    AllOnesGroup();
    Ipv6Text.WordHexesSpell(UnpackWords(a.address));
  }

  /** The mapped literal denotes five zero groups, 0xffff, and the two halves
      of the address's integer. */
  lemma MappedTextGroups(a: IPv4Address)
    ensures Ipv6Text.Parse(MappedText(a))
            == Some([0, 0, 0, 0, 0, 0xFFFF, ToInteger(a) / 0x1_0000, ToInteger(a) % 0x1_0000])
  {
    var ws := UnpackWords(a.address);
    var g := [0, 0, 0, 0, 0, 0xFFFF, ToInteger(a) / 0x1_0000, ToInteger(a) % 0x1_0000];
    MappedPiecesSpell(a);
    MappedTextShape(a);
    MappedWords(a);
    assert [] + Ipv6Text.Zeros(5) + ([0xFFFF] + ws) == g;
    Ipv6Text.ParseSplice([], [], ["ffff"] + WordHexes(ws), [0xFFFF] + ws, g);
  }

  /** "::ffff:" followed by an accepted dotted quad denotes five zero groups,
      0xffff, and the high and low halves of the quad's value. */
  lemma MappedQuadGroups(q: string, n: Word32)
    requires DottedQuad.Parse(q) == Some(n)
    ensures Ipv6Text.Parse(Join([], ':') + "::" + Join(["ffff", q], ':'))
            == Some([0, 0, 0, 0, 0, 0xFFFF, n / 0x1_0000, n % 0x1_0000])
  {
    AllOnesGroup();
    var tp := ["ffff"];
    assert Ipv6Text.Spells(tp, [0xFFFF]);
    assert tp + [q] == ["ffff", q];
    var hp: seq<string>, hg: seq<Word16>, tg: seq<Word16> := [], [], [0xFFFF];
    Ipv6Text.ParseAroundQuad(hp, hg, tp, tg, q);
    var s := Join(hp, ':') + "::" + Join(tp + [q], ':');
    var lows := [n / 0x1_0000, n % 0x1_0000];
    assert Ipv6Text.Parse(s) == Some(hg + Ipv6Text.Zeros(6 - |hg| - |tg|) + tg + lows);
    assert 6 - |hg| - |tg| == 5;
    MappedGroupsSplice(n);
    assert hg + Ipv6Text.Zeros(6 - |hg| - |tg|) + tg + lows == [0, 0, 0, 0, 0, 0xFFFF, n / 0x1_0000, n % 0x1_0000];
    assert s == Join([], ':') + "::" + Join(["ffff", q], ':');
  }

  /** Five zeros, 0xffff and two halves, as `ParseAroundQuad` splices them. */
  lemma MappedGroupsSplice(n: Word32)
    ensures [] + Ipv6Text.Zeros(5) + [0xFFFF] + [n / 0x1_0000, n % 0x1_0000]
            == [0, 0, 0, 0, 0, 0xFFFF, n / 0x1_0000, n % 0x1_0000]
  {
  }

  /** The IPv4-mapped literal with the address written as a dotted quad,
      "::ffff:" followed by `toString`, denotes the same IPv6 address as
      `toIpv6Address`. */
  lemma MappedDottedText(a: IPv4Address)
    ensures Ipv6Text.Parse(Join([], ':') + "::" + Join(["ffff", ToString(a)], ':'))
            == Some(IPv6.ToIntegerArray(ToIpv6Address(a)))
  {
    MappedQuadGroups(ToString(a), ToInteger(a));
  }

  /** `toIpv6Address`: the IPv4-mapped IPv6 address. Its groups are five
      zeros, 0xffff and the two halves of this address, so its low 32 bits
      are this address's bytes. */
  function ToIpv6Address(a: IPv4Address): (r: IPv6.IPv6Address)
    ensures IPv6.ToIntegerArray(r) == [0, 0, 0, 0, 0, 0xFFFF, ToInteger(a) / 0x1_0000, ToInteger(a) % 0x1_0000]
    ensures r.address[12..] == a.address
  {
    MappedTextGroups(a);
    var r := IPv6.New(MappedText(a)).value;
    var g := [0, 0, 0, 0, 0, 0xFFFF, ToInteger(a) / 0x1_0000, ToInteger(a) % 0x1_0000];
    UnpackPackWords(g);
    PackWordsAppend(g[..6], g[6..]);
    assert g[..6] + g[6..] == g;
    PackUnpackWords(a.address);
    MappedWords(a);
    r
  }
}
