/** Bytes, 32-bit words and little-endian encodings, as md5.py uses them. */
module Bytes {

  type Byte = bv8
  type Word = bv32

  /** 256 to the power n: the number of values n bytes can hold. */
  function Pow256(n: nat): (p: nat)
    ensures p > 0
  {
    if n == 0 then 1 else 256 * Pow256(n - 1)
  }

  /** The little-endian word of four bytes, written as md5_block writes it:
      b0 | (b1 << 8) | (b2 << 16) | (b3 << 24). */
  function WordOf(b0: Byte, b1: Byte, b2: Byte, b3: Byte): Word
  {
    (b0 as Word) | ((b1 as Word) << 8) | ((b2 as Word) << 16) | ((b3 as Word) << 24)
  }

  /** The word's value is the base-256 number with digits b0 (lowest) to b3
      (highest). */
  lemma WordOfValue(b0: Byte, b1: Byte, b2: Byte, b3: Byte)
    ensures WordOf(b0, b1, b2, b3) as int == b0 as int + 0x100 * (b1 as int) + 0x1_0000 * (b2 as int) + 0x100_0000 * (b3 as int)
  {
    ShiftedBytesValue(b0, b1, b2, b3);
    assert WordOf(b0, b1, b2, b3) == (b0 as Word) | ((b1 as Word) << 8) | ((b2 as Word) << 16) | ((b3 as Word) << 24);
  }

  lemma ShiftedBytesValue(b0: Byte, b1: Byte, b2: Byte, b3: Byte)
    ensures ((b0 as Word) | ((b1 as Word) << 8) | ((b2 as Word) << 16) | ((b3 as Word) << 24)) as int
         == b0 as int + 0x100 * (b1 as int) + 0x1_0000 * (b2 as int) + 0x100_0000 * (b3 as int)
  {
    HalfValue(b0, b1);
    HalfValue(b2, b3);
    ShiftInHalf((b2 as bv16) | ((b3 as bv16) << 8), (b0 as bv16) | ((b1 as bv16) << 8));
    HalvesMakeWord(b0, b1, b2, b3);
  }

  /** The value of a 16-bit half word, from its two bytes. */
  lemma HalfValue(b0: Byte, b1: Byte)
    ensures ((b0 as bv16) | ((b1 as bv16) << 8)) as int == b0 as int + 0x100 * (b1 as int)
  {}

  /** Putting a high half above a low half adds 2^16 times its value. */
  lemma ShiftInHalf(h1: bv16, h0: bv16)
    ensures (((h1 as Word) << 16) | (h0 as Word)) as int == 0x1_0000 * (h1 as int) + h0 as int
  {
    assert ((h1 as Word) << 16) | (h0 as Word) == ((h1 as Word) << 16) + (h0 as Word);
    assert ((h1 as Word) << 16) as int == 0x1_0000 * (h1 as int);
  }

  /** The four-byte word, as two halves. */
  lemma HalvesMakeWord(b0: Byte, b1: Byte, b2: Byte, b3: Byte)
    ensures (((((b2 as bv16) | ((b3 as bv16) << 8)) as Word) << 16) | (((b0 as bv16) | ((b1 as bv16) << 8)) as Word)) as int
         == ((b0 as Word) | ((b1 as Word) << 8) | ((b2 as Word) << 16) | ((b3 as Word) << 24)) as int
  {
    assert ((((b2 as bv16) | ((b3 as bv16) << 8)) as Word) << 16) | (((b0 as bv16) | ((b1 as bv16) << 8)) as Word)
        == (b0 as Word) | ((b1 as Word) << 8) | ((b2 as Word) << 16) | ((b3 as Word) << 24);
  }

  /** w.to_bytes(4, byteorder='little'): the four bytes whose little-endian
      word is w. */
  function WordBytes(w: Word): (bs: seq<Byte>)
    ensures |bs| == 4
    ensures WordOf(bs[0], bs[1], bs[2], bs[3]) == w
  {
    WordBytesRoundTrip(w);
    [(w & 0xFF) as Byte, ((w >> 8) & 0xFF) as Byte, ((w >> 16) & 0xFF) as Byte, ((w >> 24) & 0xFF) as Byte]
  }

  lemma WordBytesRoundTrip(w: Word)
    ensures var b0, b1, b2, b3 := (w & 0xFF) as Byte, ((w >> 8) & 0xFF) as Byte, ((w >> 16) & 0xFF) as Byte, ((w >> 24) & 0xFF) as Byte;
      (b0 as Word) | ((b1 as Word) << 8) | ((b2 as Word) << 16) | ((b3 as Word) << 24) == w
  {}

  /** Every word is read back from its bytes: to_bytes is the inverse of the
      little-endian parse of md5_block. */
  lemma WordOfBytes(b0: Byte, b1: Byte, b2: Byte, b3: Byte)
    ensures WordBytes(WordOf(b0, b1, b2, b3)) == [b0, b1, b2, b3]
  {
    var w := (b0 as Word) | ((b1 as Word) << 8) | ((b2 as Word) << 16) | ((b3 as Word) << 24);
    assert (w & 0xFF) as Byte == b0 && ((w >> 8) & 0xFF) as Byte == b1;
    assert ((w >> 16) & 0xFF) as Byte == b2 && ((w >> 24) & 0xFF) as Byte == b3;
  }

  /** The unsigned integer a little-endian byte string denotes. */
  function LeValue(bs: seq<Byte>): (v: nat)
    ensures v < Pow256(|bs|)
  {
    if bs == [] then 0 else bs[0] as nat + 256 * LeValue(bs[1..])
  }

  /** v.to_bytes(n, byteorder='little'); Python raises OverflowError when
      v does not fit in n bytes, which is this function's precondition. */
  function LeBytes(v: nat, n: nat): (bs: seq<Byte>)
    requires v < Pow256(n)
    ensures |bs| == n
    ensures LeValue(bs) == v
  {
    if n == 0 then []
    else
      DivMod256(v, Pow256(n - 1));
      ByteOfDigit(v % 256);
      [(v % 256) as Byte] + LeBytes(v / 256, n - 1)
  }

  /** Splitting off the lowest base-256 digit. */
  lemma DivMod256(v: nat, p: nat)
    requires v < 256 * p
    ensures v / 256 < p
    ensures v == v % 256 + 256 * (v / 256)
  {}

  /** A digit below 256 survives the trip through a byte. */
  lemma ByteOfDigit(d: int)
    requires 0 <= d < 256
    ensures (d as Byte) as nat == d
  {
    assert CountUp(d) == d as Byte;
  }

  /** The byte with value d, reached by counting up from zero; it gives the
      solver a byte whose value is known, so that d as Byte is that byte. */
  function CountUp(d: nat): (b: Byte)
    requires d < 256
    ensures b as nat == d
  {
    if d == 0 then 0 else NextByte(CountUp(d - 1))
  }

  function NextByte(b: Byte): (c: Byte)
    requires b as nat < 255
    ensures c as nat == b as nat + 1
  {
    b + 1
  }

  /** Decoding loses nothing: a byte string is the encoding of its value. */
  lemma {:induction false} LeBytesOfValue(bs: seq<Byte>)
    ensures LeBytes(LeValue(bs), |bs|) == bs
  {
    if bs != [] {
      var v := LeValue(bs);
      var rest := LeValue(bs[1..]);
      assert v == bs[0] as nat + 256 * rest;
      assert v % 256 == bs[0] as nat && v / 256 == rest by {
        DigitsUnique(bs[0] as nat, rest);
      }
      assert (bs[0] as nat) as Byte == bs[0];
      LeBytesOfValue(bs[1..]);
    }
  }

  /** Base-256 digits are unique. */
  lemma DigitsUnique(d: nat, q: nat)
    requires d < 256
    ensures (d + 256 * q) % 256 == d && (d + 256 * q) / 256 == q
  {}

  /** Four-byte little-endian encoding of words agrees with the general one. */
  lemma WordBytesIsLeBytes(w: Word)
    ensures WordBytes(w) == LeBytes(w as nat, 4)
  {
    var bs := WordBytes(w);
    LeValueOfFour(bs);
    WordOfValue(bs[0], bs[1], bs[2], bs[3]);
    LeBytesOfValue(bs);
  }

  /** The value of four little-endian bytes, written out. */
  lemma LeValueOfFour(bs: seq<Byte>)
    requires |bs| == 4
    ensures LeValue(bs) == bs[0] as nat + 0x100 * (bs[1] as nat) + 0x1_0000 * (bs[2] as nat) + 0x100_0000 * (bs[3] as nat)
  {
    assert LeValue(bs[3..]) == bs[3] as nat by {
      assert bs[3..][1..] == [];
    }
    assert bs[2..][1..] == bs[3..] && bs[1..][1..] == bs[2..];
    assert LeValue(bs[2..]) == bs[2] as nat + 256 * LeValue(bs[3..]);
    assert LeValue(bs[1..]) == bs[1] as nat + 256 * LeValue(bs[2..]);
  }

  /** The word of four bytes is their little-endian value. */
  lemma WordOfIsLeValue(bs: seq<Byte>)
    requires |bs| == 4
    ensures WordOf(bs[0], bs[1], bs[2], bs[3]) as nat == LeValue(bs)
  {
    LeValueOfFour(bs);
    WordOfValue(bs[0], bs[1], bs[2], bs[3]);
  }
}
