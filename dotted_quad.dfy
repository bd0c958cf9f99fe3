/** The strict dotted-quad notation of IPv4 addresses: the validator behind
    `filter_var($s, FILTER_VALIDATE_IP, FILTER_FLAG_IPV4)`, the value `ip2long`
    gives a string that validator accepts, and `long2ip`. */
module DottedQuad {
  import opened Errors
  import opened Numerals
  import opened Text
  import opened Bytes

  /** One octet as the validator accepts it: one to three decimal digits,
      value at most 255, and no leading zero unless the octet is "0" (a
      leading zero would read as octal, which PHP refuses). */
  predicate IsOctetText(p: string)
  {
    && 1 <= |p| <= 3
    && (forall i :: 0 <= i < |p| ==> IsDecimalDigit(p[i]))
    && (p[0] != '0' || |p| == 1)
    && DecimalValue(p) <= 255
  }

  /** The decimal text of one byte. */
  function OctetText(b: Byte): (t: string)
    ensures IsOctetText(t) && DecimalValue(t) == b
    ensures '.' !in t && ':' !in t
  {
    DecimalTextFacts(b);
    assert Pow(10, 3) == 1000 by {
      assert Pow(10, 1) == 10;
      assert Pow(10, 2) == 100;
    }
    DigitsOfLength(b, 10, 3);
    DecimalText(b)
  }

  /** The four octets of a dotted quad, when `s` is one. */
  function Octets(s: string): (r: Option<seq<Byte>>)
    ensures r.Some? ==> |r.value| == 4
  {
    var ps := Split(s, '.');
    if |ps| == 4 && IsOctetText(ps[0]) && IsOctetText(ps[1]) && IsOctetText(ps[2]) && IsOctetText(ps[3])
    then Some([DecimalValue(ps[0]), DecimalValue(ps[1]), DecimalValue(ps[2]), DecimalValue(ps[3])])
    else None
  }

  /** `filter_var` with FILTER_FLAG_IPV4, then `ip2long`: the 32-bit value of
      a strict dotted quad, or None when the validator refuses `s`. */
  function Parse(s: string): Option<Word32>
  {
    match Octets(s)
    case Some(b) => Some(UnpackN(b))
    case None => None
  }

  /** `long2ip`: the dotted-decimal text of a 32-bit value. */
  function Format(n: Word32): string
  {
    UnpackPackN(n);
    var b := PackN(n);
    Join([OctetText(b[0]), OctetText(b[1]), OctetText(b[2]), OctetText(b[3])], '.')
  }

  /** What `long2ip` prints, the validator accepts and `ip2long` reads back
      as the value it was printed from. */
  lemma FormatParses(n: Word32)
    ensures Parse(Format(n)) == Some(n)
  {
    UnpackPackN(n);
    var b := PackN(n);
    var ts := [OctetText(b[0]), OctetText(b[1]), OctetText(b[2]), OctetText(b[3])];
    SplitJoin(ts, '.');
    assert Split(Format(n), '.') == ts;
    assert Octets(Format(n)) == Some(b);
  }

  /** Every text the validator accepts is the text `long2ip` prints for the
      value `ip2long` reads from it. */
  lemma ParseFormats(s: string)
    requires Parse(s).Some?
    ensures Format(Parse(s).value) == s
  {
    var ps := Split(s, '.');
    var b := Octets(s).value;
    PackUnpackN(b);
    forall k | 0 <= k < 4
      ensures OctetText(b[k]) == ps[k]
    {
      DecimalTextOfValue(ps[k]);
    }
    assert [ps[0], ps[1], ps[2], ps[3]] == ps;
  }

  /** The validator accepts exactly the texts `long2ip` prints, and `ip2long`
      reads each back as the value it was printed from. */
  lemma ParseIsInverseOfFormat(s: string, n: Word32)
    ensures Parse(s) == Some(n) <==> Format(n) == s
  {
    if Format(n) == s {
      FormatParses(n);
    }
    if Parse(s) == Some(n) {
      ParseFormats(s);
    }
  }

  /** The validator refuses exactly the texts that do not split at dots into
      four octets. */
  lemma ParseRefuses(s: string)
    ensures Parse(s).None? <==> var ps := Split(s, '.');
      |ps| != 4 || exists k :: 0 <= k < 4 && !IsOctetText(ps[k])
  {
    var ps := Split(s, '.');
    assert Parse(s).None? <==> Octets(s).None?;
    var all := |ps| == 4 && IsOctetText(ps[0]) && IsOctetText(ps[1]) && IsOctetText(ps[2]) && IsOctetText(ps[3]);
    assert Octets(s).None? <==> !all;
    if |ps| == 4 {
      assert (exists k :: 0 <= k < 4 && !IsOctetText(ps[k])) <==> !all;
    }
  }

  /** What an accepted text's octets are. */
  lemma OctetsOf(s: string)
    requires Octets(s).Some?
    ensures var ps := Split(s, '.');
      && |ps| == 4 && IsOctetText(ps[0]) && IsOctetText(ps[1]) && IsOctetText(ps[2]) && IsOctetText(ps[3])
      && Octets(s).value == [DecimalValue(ps[0]), DecimalValue(ps[1]), DecimalValue(ps[2]), DecimalValue(ps[3])]
  {
  }

  /** Four octet texts, stated one by one, are octet texts at every index. */
  lemma AllOctets(ps: seq<string>)
    requires |ps| == 4 && IsOctetText(ps[0]) && IsOctetText(ps[1]) && IsOctetText(ps[2]) && IsOctetText(ps[3])
    ensures forall k :: 0 <= k < 4 ==> IsOctetText(ps[k])
  {
  }

  /** The value of four bytes, given as four numbers. */
  lemma PlaceValues(b: seq<Byte>, o0: nat, o1: nat, o2: nat, o3: nat)
    requires |b| == 4 && b == [o0, o1, o2, o3]
    ensures UnpackN(b) == o0 * 0x100_0000 + o1 * 0x1_0000 + o2 * 0x100 + o3
  {
  }

  /** Every accepted text has exactly four octets between three dots, and its
      value is the octets weighted by 2^24, 2^16, 2^8 and 1. */
  lemma ParseValue(s: string)
    requires Parse(s).Some?
    ensures |Split(s, '.')| == 4
    ensures forall k :: 0 <= k < 4 ==> IsOctetText(Split(s, '.')[k])
    ensures var ps := Split(s, '.');
      Parse(s).value == DecimalValue(ps[0]) * 0x100_0000 + DecimalValue(ps[1]) * 0x1_0000
                        + DecimalValue(ps[2]) * 0x100 + DecimalValue(ps[3])
  {
    var ps := Split(s, '.');
    OctetsOf(s);
    AllOctets(ps);
    var b := Octets(s).value;
    assert Parse(s).value == UnpackN(b);
    PlaceValues(b, DecimalValue(ps[0]), DecimalValue(ps[1]), DecimalValue(ps[2]), DecimalValue(ps[3]));
  }
}
