/** `IPv6Address`: an immutable IPv6 address holding its sixteen-byte binary
    form (eight 16-bit groups, big-endian, most significant group first),
    built from any IPv6 literal and printed in the compressed or the expanded
    text form; with the static `expand` and `compress` conversions. */
module IPv6 {
  import opened Errors
  import opened Text
  import opened Bytes
  import opened Ipv6Text

  type Binary16 = b: seq<Byte> | |b| == 16 witness [0, 0, 0, 0, 0, 0, 0, 0, 0, 0, 0, 0, 0, 0, 0, 0]

  /** `address` is the binary string the constructor stores. */
  datatype IPv6Address = IPv6Address(address: Binary16)

  /** The constructor: refuses anything that is not an IPv6 literal, and
      otherwise stores `inet_pton` of the expanded form of the literal. */
  function New(address: string): (r: Result<IPv6Address, InvalidIPAddress>)
    ensures r.Success? <==> IsLiteral(address)
    ensures r.Failure? ==> r.error == InvalidIPAddress(StringInput(address))
    ensures r.Success? ==> r.value.address == PackWords(Parse(address).value)
  {
    if !IsLiteral(address) then Failure(InvalidIPAddress(StringInput(address)))
    else
      var expanded := Expand(address);
      PackUnpackWords(InetPton(expanded));
      Success(IPv6Address(InetPton(expanded)))
  }

  /** `fromString`: the constructor under another name. */
  function FromString(address: string): (r: Result<IPv6Address, InvalidIPAddress>)
    ensures r.Success? <==> IsLiteral(address)
    ensures r.Failure? ==> r.error == InvalidIPAddress(StringInput(address))
    ensures r.Success? ==> r.value.address == PackWords(Parse(address).value)
  {
    New(address)
  }

  /** `toIntegerArray`: the eight groups, most significant first (`unpack('n*')`). */
  function ToIntegerArray(a: IPv6Address): (r: seq<Word16>)
    ensures |r| == 8 && PackWords(r) == a.address
  {
    PackUnpackWords(a.address);
    UnpackWords(a.address)
  }

  /** `toBinaryString`: the sixteen stored bytes. */
  function ToBinaryString(a: IPv6Address): (r: seq<Byte>)
    ensures |r| == 16 && r == PackWords(ToIntegerArray(a))
  {
    a.address
  }

  /** `toString($expanded)`: `inet_ntop` of the stored bytes, passed through
      `expand` when `expanded` is set. Either text reads back as the stored
      groups; the expanded one is eight four-digit groups. */
  function ToString(a: IPv6Address, expanded: bool): (r: string)
    ensures IsLiteral(r) && Parse(r) == Some(ToIntegerArray(a))
    ensures expanded ==> r == Join(WordHexes(ToIntegerArray(a)), ':')
    ensures !expanded ==> r == Compressed(ToIntegerArray(a))
  {
    var result := InetNtop(a.address);
    ParseCompressed(UnpackWords(a.address));
    if expanded then Expand(result) else result
  }

  /** The regular-expression replacement that puts a ':' after every run of
      four hex digits, on a string of hex digits. */
  function ColonAfterEachFour(h: string): (r: string)
    ensures |r| == |h| + |h| / 4
    decreases |h|
  {
    if |h| < 4 then h else h[..4] + ":" + ColonAfterEachFour(h[4..])
  }

  /** `substr($t, 0, -1)`: all but the last character. */
  function DropLast(t: string): (r: string)
    ensures |t| == 0 ==> r == ""
    ensures |t| > 0 ==> r + [t[|t| - 1]] == t
  {
    if |t| == 0 then "" else t[..|t| - 1]
  }

  lemma {:induction false} ColonAfterEachFourJoins(ps: seq<string>)
    requires |ps| >= 1 && forall j :: 0 <= j < |ps| ==> |ps[j]| == 4
    ensures DropLast(ColonAfterEachFour(Concat(ps))) == Join(ps, ':')
  {
    var h := Concat(ps);
    assert h == ps[0] + Concat(ps[1..]);
    assert h[..4] == ps[0] && h[4..] == Concat(ps[1..]);
    if |ps| == 1 {
      assert ps[1..] == [];
    } else {
      var rest := ColonAfterEachFour(Concat(ps[1..]));
      assert Concat(ps[1..]) == ps[1] + Concat(ps[2..]);
      assert |rest| >= 1;
      ColonAfterEachFourJoins(ps[1..]);
      assert DropLast(ps[0] + ":" + rest) == ps[0] + ":" + DropLast(rest);
    }
  }

  /** `expand`: `inet_pton`, then `unpack('H*')`, then a ':' after every four
      digits, then the trailing ':' dropped. The result is the eight groups of
      the literal as four lower-case hex digits each, joined by ':'. */
  function Expand(address: string): (r: string)
    requires IsLiteral(address)
    ensures r == Join(WordHexes(Parse(address).value), ':')
    ensures IsLiteral(r) && Parse(r) == Parse(address)
    ensures |r| == 39
    ensures forall k :: 0 <= k < 8 ==> r[5 * k..5 * k + 4] == WordHexes(Parse(address).value)[k]
    ensures forall k :: 0 <= k < 7 ==> r[5 * k..5 * k + 5] == WordHexes(Parse(address).value)[k] + ":"
  {
    var g := Parse(address).value;
    HexOfPackedWords(g);
    ColonAfterEachFourJoins(WordHexes(g));
    ParseFourDigitGroups(g);
    JoinFourCharPieces(WordHexes(g), ':');
    DropLast(ColonAfterEachFour(HexOfBytes(InetPton(address))))
  }

  /** `compress`: `inet_ntop(inet_pton($address))`, which reads back as the
      same groups. */
  function Compress(address: string): (r: string)
    requires IsLiteral(address)
    ensures IsLiteral(r) && Parse(r) == Parse(address)
    ensures r == Compressed(Parse(address).value)
  {
    ParseCompressed(Parse(address).value);
    InetNtop(InetPton(address))
  }

  /** Expanding a compressed literal gives the expansion of the literal. */
  lemma ExpandCompress(s: string)
    requires IsLiteral(s)
    ensures Expand(Compress(s)) == Expand(s)
  {
  }

  /** Expanding is idempotent. */
  lemma ExpandExpand(s: string)
    requires IsLiteral(s)
    ensures Expand(Expand(s)) == Expand(s)
  {
  }

  /** Compressing an expanded literal gives the compression of the literal,
      and compressing is idempotent. */
  lemma CompressExpand(s: string)
    requires IsLiteral(s)
    ensures Compress(Expand(s)) == Compress(s)
    ensures Compress(Compress(s)) == Compress(s)
  {
  }

  /** An address built from any literal prints, expanded, as `expand` of
      that literal, and compressed as `compress` of it. */
  lemma ToStringOfNew(s: string)
    requires IsLiteral(s)
    ensures ToString(New(s).value, true) == Expand(s)
    ensures ToString(New(s).value, false) == Compress(s)
    ensures ToIntegerArray(New(s).value) == Parse(Expand(s)).value
  {
    UnpackPackWords(Parse(s).value);
  }

  /** `toIntegerArray` as PHP evaluates it: `unpack('n*')` numbers its
      results from 1, so the array has keys 1 to 8. */
  function ToIntegerArrayAsWritten(a: IPv6Address): (m: map<int, Word16>)
    ensures forall k :: k in m <==> 1 <= k <= 8
    ensures forall k :: 1 <= k <= 8 ==> m[k] == ToIntegerArray(a)[k - 1]
  {
    var ws := UnpackWords(a.address);
    map[1 := ws[0], 2 := ws[1], 3 := ws[2], 4 := ws[3], 5 := ws[4], 6 := ws[5], 7 := ws[6], 8 := ws[7]]
  }

  /** The documented key 0 of the most significant group is absent from what
      the source returns, and key 8 is present. */
  lemma IntegerArrayKeysStartAtOne(a: IPv6Address)
    ensures 0 !in ToIntegerArrayAsWritten(a) && 8 in ToIntegerArrayAsWritten(a)
    ensures ToIntegerArrayAsWritten(a)[1] == ToIntegerArray(a)[0]
  {
  }
}
