/** Binary strings as the source builds them with PHP's `pack` and `unpack`:
    big-endian 32-bit numbers (format `N`), big-endian 16-bit words (format
    `n*`), and the lower-case hex dump of a byte string (format `H*`). */
module Bytes {
  import opened Numerals
  import opened Text

  type Byte = x: nat | x < 0x100
  type Word16 = x: nat | x < 0x1_0000
  type Word32 = x: nat | x < 0x1_0000_0000

  /** `pack('N', n)`: the four bytes of `n`, most significant first. */
  function PackN(n: Word32): (b: seq<Byte>)
    ensures |b| == 4
    ensures b[0] as nat * 0x100_0000 + b[1] as nat * 0x1_0000 + b[2] as nat * 0x100 + b[3] == n
  {
    var m := n / 0x100;
    var mm := m / 0x100;
    [mm / 0x100, mm % 0x100, m % 0x100, n % 0x100]
  }

  /** `unpack('N', b)[1]`: four bytes read as one number, most significant first. */
  function UnpackN(b: seq<Byte>): (n: Word32)
    requires |b| == 4
    ensures n == b[0] as nat * 0x100_0000 + b[1] as nat * 0x1_0000 + b[2] as nat * 0x100 + b[3]
  {
    var b0: nat, b1: nat, b2: nat, b3: nat := b[0], b[1], b[2], b[3];
    ((b0 * 0x100 + b1) * 0x100 + b2) * 0x100 + b3
  }

  lemma UnpackPackN(n: Word32)
    ensures |PackN(n)| == 4 && UnpackN(PackN(n)) == n
  {
  }

  lemma {:induction false} PackUnpackN(b: seq<Byte>)
    requires |b| == 4
    ensures PackN(UnpackN(b)) == b
  {
    var b0: nat, b1: nat, b2: nat, b3: nat := b[0], b[1], b[2], b[3];
    var mm: nat := b0 * 0x100 + b1;
    var m: nat := mm * 0x100 + b2;
    MulAddDiv(m, 0x100, b3);
    MulAddDiv(mm, 0x100, b2);
    MulAddDiv(b0, 0x100, b1);
  }

  /** `pack('n*', ...)`, also the layout `inet_pton` writes: the two bytes of
      each 16-bit word, most significant first. */
  function PackWords(ws: seq<Word16>): (b: seq<Byte>)
    ensures |b| == 2 * |ws|
  {
    if ws == [] then [] else [ws[0] / 0x100, ws[0] % 0x100] + PackWords(ws[1..])
  }

  /** `unpack('n*', b)`: consecutive byte pairs read as 16-bit words. */
  function UnpackWords(b: seq<Byte>): (ws: seq<Word16>)
    requires |b| % 2 == 0
    ensures |ws| == |b| / 2
  {
    if b == [] then [] else [b[0] as nat * 0x100 + b[1]] + UnpackWords(b[2..])
  }

  lemma {:induction false} UnpackPackWords(ws: seq<Word16>)
    ensures UnpackWords(PackWords(ws)) == ws
  {
    if ws != [] {
      var b := PackWords(ws);
      assert b[2..] == PackWords(ws[1..]);
      UnpackPackWords(ws[1..]);
      assert [ws[0]] + ws[1..] == ws;
    }
  }

  lemma {:induction false} PackUnpackWords(b: seq<Byte>)
    requires |b| % 2 == 0
    ensures PackWords(UnpackWords(b)) == b
  {
    if b != [] {
      var ws := UnpackWords(b);
      MulAddDiv(b[0], 0x100, b[1]);
      assert ws[0] == b[0] as nat * 0x100 + b[1];
      assert ws[1..] == UnpackWords(b[2..]);
      PackUnpackWords(b[2..]);
      assert b[..2] + b[2..] == b;
    }
  }

  lemma {:induction false} PackWordsAppend(xs: seq<Word16>, ys: seq<Word16>)
    ensures PackWords(xs + ys) == PackWords(xs) + PackWords(ys)
  {
    if xs != [] {
      assert (xs + ys)[1..] == xs[1..] + ys;
      PackWordsAppend(xs[1..], ys);
    } else {
      assert xs + ys == ys;
    }
  }

  /** `unpack('H*', b)`: two lower-case hex digits per byte, high nibble first. */
  function HexOfBytes(b: seq<Byte>): (h: string)
    ensures |h| == 2 * |b|
    ensures forall i :: 0 <= i < |h| ==> IsLowerHexDigit(h[i])
  {
    if b == [] then "" else Spell([b[0] / 16, b[0] % 16]) + HexOfBytes(b[1..])
  }

  lemma {:induction false} HexOfBytesAppend(x: seq<Byte>, y: seq<Byte>)
    ensures HexOfBytes(x + y) == HexOfBytes(x) + HexOfBytes(y)
  {
    if x != [] {
      assert (x + y)[1..] == x[1..] + y;
      HexOfBytesAppend(x[1..], y);
    } else {
      assert x + y == y;
    }
  }

  /** A 16-bit word as four lower-case hex digits with leading zeros: the hex
      dump of its two big-endian bytes. */
  function WordHex(w: Word16): (t: string)
    ensures |t| == 4
    ensures forall i :: 0 <= i < |t| ==> IsLowerHexDigit(t[i])
    ensures HexValue(t) == w
  {
    var hi, lo: Byte := w / 0x100, w % 0x100;
    var ds := [hi / 16, hi % 16, lo / 16, lo % 16];
    SpellDigits(ds);
    assert [hi, lo][1..] == [lo] && [lo][1..] == [];
    assert HexOfBytes([lo]) == Spell([lo / 16, lo % 16]);
    assert HexOfBytes([hi, lo]) == Spell([hi / 16, hi % 16]) + Spell([lo / 16, lo % 16]);
    SpellAppend([hi / 16, hi % 16], [lo / 16, lo % 16]);
    assert [hi / 16, hi % 16] + [lo / 16, lo % 16] == ds;
    ValueOfFour(hi / 16, hi % 16, lo / 16, lo % 16, 16);
    HexOfBytes([hi, lo])
  }

  /** The four-digit hex text of each word, in order. */
  function WordHexes(ws: seq<Word16>): (ts: seq<string>)
    ensures |ts| == |ws|
  {
    seq(|ws|, i requires 0 <= i < |ws| => WordHex(ws[i]))
  }

  /** The hex dump of packed words is their four-digit texts one after another. */
  lemma {:induction false} HexOfPackedWords(ws: seq<Word16>)
    ensures HexOfBytes(PackWords(ws)) == Concat(WordHexes(ws))
  {
    if ws != [] {
      var w := ws[0];
      assert PackWords(ws) == [w / 0x100, w % 0x100] + PackWords(ws[1..]);
      HexOfBytesAppend([w / 0x100, w % 0x100], PackWords(ws[1..]));
      HexOfPackedWords(ws[1..]);
      assert WordHexes(ws)[1..] == WordHexes(ws[1..]);
    }
  }

  /** The only four-digit lower-case hex text worth `w` is `WordHex(w)`. */
  lemma WordHexOfText(t: string, w: Word16)
    requires |t| == 4 && forall i :: 0 <= i < 4 ==> IsLowerHexDigit(t[i])
    requires HexValue(t) == w
    ensures WordHex(w) == t
  {
    var u := WordHex(w);
    ReadLowerHex(t);
    ReadLowerHex(u);
    ValueOfInjective(Read(t), Read(u), 16);
  }
}
