/** The whole-buffer MD5 of md5.py's md5: the padding of sections 3.1 and
    3.2 of RFC 1321, the fold of md5_block over the 64-byte blocks, and the
    rendering of the final state as 32 lowercase hex characters (section 3.5
    of RFC 1321). */
module Digest {
  import opened Bytes
  import opened Compression

  /** 2^64: the length field holds the bit length modulo this. */
  const LengthModulus: nat := 0x1_0000_0000_0000_0000

  lemma LengthModulusBytes()
    ensures Pow256(8) == LengthModulus
  {}

  /** n zero bytes. */
  function Zeros(n: nat): (z: seq<Byte>)
    ensures |z| == n
    ensures forall i :: 0 <= i < n ==> z[i] == 0
  {
    seq(n, i => 0)
  }

  /** The number of zero bytes the padding puts between 0x80 and the length
      field of an n-byte message: the one count below 64 that brings the
      length to 56 modulo 64. */
  function ZeroCount(n: nat): (k: nat)
    ensures k < 64
    ensures (n + 1 + k) % 64 == 56
  {
    (55 - n) % 64
  }

  /** Only ZeroCount(n) zero bytes bring the padding to 56 modulo 64. */
  lemma ZeroCountUnique(n: nat, k: nat)
    requires k < 64 && (n + 1 + k) % 64 == 56
    ensures k == ZeroCount(n)
  {
    var z := ZeroCount(n);
    var q, q' := (n + 1 + k) / 64, (n + 1 + z) / 64;
    assert n + 1 + k == 64 * q + 56;
    assert n + 1 + z == 64 * q' + 56;
    assert k - z == 64 * (q - q');
  }

  /** The 8-byte length field: the bit length 8n modulo 2^64, little-endian
      (md5.py's to_bytes(8, byteorder='little'); md5_file masks the bit
      length first, md5 raises instead when it does not fit). */
  function LengthField(n: nat): (l: seq<Byte>)
    ensures |l| == 8
    ensures LeValue(l) == (8 * n) % LengthModulus
  {
    LengthModulusBytes();
    LeBytes((8 * n) % LengthModulus, 8)
  }

  /** Below 2^64 bits the field is the bit length itself, which md5 writes
      without masking. */
  lemma LengthFieldExact(n: nat)
    requires 8 * n < LengthModulus
    ensures LengthField(n) == LeBytes(8 * n, 8)
  {
    assert (8 * n) % LengthModulus == 8 * n;
  }

  /** The padded message of sections 3.1 and 3.2 of RFC 1321. */
  function Pad(m: seq<Byte>): (p: seq<Byte>)
    ensures |p| % 64 == 0
  {
    LengthFieldAligns(|m| + 1 + ZeroCount(|m|));
    m + [0x80] + Zeros(ZeroCount(|m|)) + LengthField(|m|)
  }

  /** Layout of the padding: the message, then 0x80, then zero bytes, then
      the little-endian bit length in the last eight bytes. */
  lemma PadLayout(m: seq<Byte>)
    ensures |Pad(m)| >= |m| + 9
    ensures Pad(m)[..|m|] == m
    ensures Pad(m)[|m|] == 0x80
    ensures forall i :: |m| < i < |Pad(m)| - 8 ==> Pad(m)[i] == 0
    ensures LeValue(Pad(m)[|Pad(m)| - 8..]) == (8 * |m|) % LengthModulus
  {
    var p := Pad(m);
    var z := ZeroCount(|m|);
    assert p[..|m|] == m;
    assert p[|Pad(m)| - 8..] == LengthField(|m|);
    forall i | |m| < i < |p| - 8
      ensures p[i] == 0
    {
      assert p[i] == Zeros(z)[i - |m| - 1];
    }
  }

  /** The padded length is between len + 9 and len + 72. */
  lemma PadLength(m: seq<Byte>)
    ensures |m| + 9 <= |Pad(m)| <= |m| + 72
  {
    assert |Pad(m)| == |m| + 9 + ZeroCount(|m|);
  }

  /** Eight length bytes after a length of 56 modulo 64 end on a block
      boundary. */
  lemma LengthFieldAligns(x: nat)
    requires x % 64 == 56
    ensures (x + 8) % 64 == 0
  {
    assert x == 64 * (x / 64) + 56;
    assert x + 8 == 64 * (x / 64 + 1);
  }

  /** The padding makes (len + 8) / 64 + 1 blocks. */
  lemma PadBlocks(m: seq<Byte>)
    ensures |Pad(m)| / 64 == (|m| + 8) / 64 + 1
  {
    var n := |m|;
    var k := ZeroCount(n);
    var q, r := (n + 8) / 64, (n + 8) % 64;
    assert n + 8 == 64 * q + r;
    var q' := (n + 1 + k) / 64;
    assert n + 1 + k == 64 * q' + 56;
    assert r + 1 + k == 64 * (q' - q) + 64;
    assert q' - q == 0;
    assert |Pad(m)| == 64 * (q + 1);
  }

  /** The padding is the shortest that leaves room for 0x80 and the length
      field: no shorter multiple of 64 holds len + 9 bytes. */
  lemma PadShortest(m: seq<Byte>, len: nat)
    requires len % 64 == 0 && len >= |m| + 9
    ensures len >= |Pad(m)|
  {
    assert |Pad(m)| == |m| + 9 + ZeroCount(|m|);
    NextMultiple(len, |m| + 9, ZeroCount(|m|));
  }

  /** Fewer than 64 bytes past x reach the first multiple of 64 at or after
      x, so no multiple of 64 at or after x is smaller. */
  lemma NextMultiple(len: nat, x: nat, k: nat)
    requires len % 64 == 0 && (x + k) % 64 == 0 && k < 64 && len >= x
    ensures len >= x + k
  {
    var q, q' := len / 64, (x + k) / 64;
    assert len == 64 * q;
    assert x + k == 64 * q';
    assert 64 * q > 64 * q' - 64;
  }

  /** The state after md5_block has run over the 64-byte blocks of bs, from
      the first to the last. */
  function Fold(s: State, bs: seq<Byte>): State
    requires |bs| % 64 == 0
    decreases |bs|
  {
    if bs == [] then s
    else
      var n := |bs| - 64;
      Compress(bs[n..], Fold(s, bs[..n]))
  }

  /** A non-empty run of whole blocks ends in a whole block. */
  lemma LastBlock(len: nat)
    requires len % 64 == 0 && len > 0
    ensures len >= 64 && (len - 64) % 64 == 0
  {}

  /** Two runs of whole blocks make a run of whole blocks. */
  lemma WholeBlocks(p: seq<Byte>, q: seq<Byte>)
    requires |p| % 64 == 0 && |q| % 64 == 0
    ensures |p + q| % 64 == 0
  {
    assert |p + q| == 64 * (|p| / 64 + |q| / 64);
  }

  /** Inside a run of whole blocks, a block boundary short of the end is
      followed by a whole block. */
  lemma RemainingBlock(i: nat, len: nat)
    requires i % 64 == 0 && len % 64 == 0 && i < len
    ensures i + 64 <= len && (i + 64) % 64 == 0
  {
    assert i == 64 * (i / 64) && len == 64 * (len / 64);
  }

  /** One more block is one more md5_block. */
  lemma FoldSnoc(s: State, p: seq<Byte>, b: seq<Byte>)
    requires |p| % 64 == 0 && |b| == 64
    ensures Fold(s, p + b) == Compress(b, Fold(s, p))
  {
    var pb := p + b;
    assert pb[..|pb| - 64] == p;
    assert pb[|pb| - 64..] == b;
  }

  /** Folding two consecutive runs of blocks is folding their concatenation:
      how far the blocks were processed in one go does not matter. */
  lemma {:induction false} FoldAppend(s: State, p: seq<Byte>, q: seq<Byte>)
    requires |p| % 64 == 0 && |q| % 64 == 0
    ensures Fold(s, p + q) == Fold(Fold(s, p), q)
    decreases |q|
  {
    if q == [] {
      assert p + q == p;
    } else {
      LastBlock(|q|);
      var n := |q| - 64;
      var q0, b := q[..n], q[n..];
      assert q == q0 + b;
      assert p + q == (p + q0) + b;
      FoldAppend(s, p, q0);
      WholeBlocks(p, q0);
      FoldSnoc(s, p + q0, b);
      FoldSnoc(Fold(s, p), q0, b);
    }
  }

  /** A lowercase hexadecimal digit, as bytes.hex() writes them. */
  predicate IsLowerHex(c: char)
  {
    '0' <= c <= '9' || 'a' <= c <= 'f'
  }

  /** The digit of value d. */
  function HexDigit(d: nat): (c: char)
    requires d < 16
    ensures IsLowerHex(c)
    ensures DigitValue(c) == d
  {
    if d < 10 then ('0' as int + d) as char else ('a' as int + d - 10) as char
  }

  /** The value of a lowercase hexadecimal digit. */
  function DigitValue(c: char): (d: nat)
    requires IsLowerHex(c)
    ensures d < 16
  {
    if c <= '9' then c as int - '0' as int else c as int - 'a' as int + 10
  }

  /** Every lowercase digit is the digit of its value. */
  lemma DigitOfValue(c: char)
    requires IsLowerHex(c)
    ensures HexDigit(DigitValue(c)) == c
  {}

  /** The two digits bytes.hex() writes for one byte, high nibble first. */
  function ByteHex(b: Byte): (h: string)
    ensures |h| == 2 && IsLowerHex(h[0]) && IsLowerHex(h[1])
    ensures 16 * DigitValue(h[0]) + DigitValue(h[1]) == b as nat
  {
    [HexDigit(b as nat / 16), HexDigit(b as nat % 16)]
  }

  /** bytes.hex(): two lowercase digits per byte. */
  function Hex(bs: seq<Byte>): (h: string)
    ensures |h| == 2 * |bs|
    ensures forall i :: 0 <= i < |h| ==> IsLowerHex(h[i])
  {
    if bs == [] then [] else ByteHex(bs[0]) + Hex(bs[1..])
  }

  /** A string of lowercase hexadecimal digits of even length. */
  predicate IsHexString(h: string)
  {
    |h| % 2 == 0 && forall i :: 0 <= i < |h| ==> IsLowerHex(h[i])
  }

  /** bytes.fromhex on lowercase digits: the inverse of Hex. */
  function Unhex(h: string): (bs: seq<Byte>)
    requires IsHexString(h)
    ensures |bs| == |h| / 2
  {
    if h == [] then []
    else
      var v := 16 * DigitValue(h[0]) + DigitValue(h[1]);
      ByteOfDigit(v);
      [v as Byte] + Unhex(h[2..])
  }

  /** Reading the hex back gives the bytes. */
  lemma {:induction false} UnhexHex(bs: seq<Byte>)
    ensures IsHexString(Hex(bs)) && Unhex(Hex(bs)) == bs
  {
    if bs != [] {
      var h := Hex(bs);
      var b := ByteHex(bs[0]);
      assert h == b + Hex(bs[1..]);
      assert h[2..] == Hex(bs[1..]);
      assert h[0] == b[0] && h[1] == b[1];
      assert (bs[0] as nat) as Byte == bs[0];
      UnhexHex(bs[1..]);
    }
  }

  /** Two digits make a byte whose hex is those two digits. */
  lemma HexOfDigits(c0: char, c1: char)
    requires IsLowerHex(c0) && IsLowerHex(c1)
    ensures 16 * DigitValue(c0) + DigitValue(c1) < 256
    ensures ByteHex((16 * DigitValue(c0) + DigitValue(c1)) as Byte) == [c0, c1]
  {
    var d0, d1 := DigitValue(c0), DigitValue(c1);
    var v := 16 * d0 + d1;
    ByteOfDigit(v);
    NibbleSplit(d0, d1);
    DigitOfValue(c0);
    DigitOfValue(c1);
    assert ByteHex(v as Byte) == [HexDigit(d0), HexDigit(d1)];
  }

  /** The high and low nibble of a byte. */
  lemma NibbleSplit(d0: nat, d1: nat)
    requires d0 < 16 && d1 < 16
    ensures (16 * d0 + d1) / 16 == d0 && (16 * d0 + d1) % 16 == d1
  {}

  /** Every lowercase hex string of even length is the hex of its bytes. */
  lemma {:induction false} HexUnhex(h: string)
    requires IsHexString(h)
    ensures Hex(Unhex(h)) == h
  {
    if h != [] {
      var bs := Unhex(h);
      HexOfDigits(h[0], h[1]);
      assert ByteHex(bs[0]) == h[..2];
      assert bs[1..] == Unhex(h[2..]);
      HexUnhex(h[2..]);
      assert h == h[..2] + h[2..];
    }
  }

  /** The state words in output order A, B, C, D. */
  function StateWords(s: State): seq<Word>
  {
    [s.a, s.b, s.c, s.d]
  }

  /** The 16 digest bytes: each state word as four little-endian bytes. */
  function StateBytes(s: State): (bs: seq<Byte>)
    ensures |bs| == 16
  {
    WordBytes(s.a) + WordBytes(s.b) + WordBytes(s.c) + WordBytes(s.d)
  }

  /** Bytes 4k to 4k + 3 of the digest are the bytes of state word k. */
  lemma StateBytesAt(s: State, k: nat)
    requires k < 4
    ensures StateBytes(s)[4 * k .. 4 * k + 4] == WordBytes(StateWords(s)[k])
  {
    var bs := StateBytes(s);
    if k == 0 {
      assert bs[0..4] == WordBytes(s.a);
    } else if k == 1 {
      assert bs[4..8] == WordBytes(s.b);
    } else if k == 2 {
      assert bs[8..12] == WordBytes(s.c);
    } else {
      assert bs[12..16] == WordBytes(s.d);
    }
  }

  /** The hex output of md5 and md5_file: ''.join(x.to_bytes(4,
      byteorder='little').hex() for x in state). */
  function StateHex(s: State): (h: string)
  {
    Hex(StateBytes(s))
  }

  /** The digest is 32 lowercase hex digits; read back, byte group k is the
      little-endian encoding of state word k, in the order A, B, C, D. */
  lemma StateHexLayout(s: State)
    ensures |StateHex(s)| == 32
    ensures IsHexString(StateHex(s))
    ensures forall k :: 0 <= k < 4 ==> Unhex(StateHex(s))[4 * k .. 4 * k + 4] == LeBytes(StateWords(s)[k] as nat, 4)
  {
    var bs := StateBytes(s);
    UnhexHex(bs);
    forall k | 0 <= k < 4
      ensures bs[4 * k .. 4 * k + 4] == LeBytes(StateWords(s)[k] as nat, 4)
    {
      StateBytesAt(s, k);
      WordBytesIsLeBytes(StateWords(s)[k]);
    }
  }

  /** Different final states give different digests: the hex rendering
      loses nothing. */
  lemma StateHexInjective(s: State, t: State)
    requires StateHex(s) == StateHex(t)
    ensures s == t
  {
    UnhexHex(StateBytes(s));
    UnhexHex(StateBytes(t));
    forall k | 0 <= k < 4
      ensures StateWords(s)[k] == StateWords(t)[k]
    {
      StateBytesAt(s, k);
      StateBytesAt(t, k);
      WordBytesInjective(StateWords(s)[k], StateWords(t)[k]);
    }
    assert StateWords(s) == StateWords(t);
  }

  /** A word is determined by its four bytes. */
  lemma WordBytesInjective(u: Word, v: Word)
    requires WordBytes(u) == WordBytes(v)
    ensures u == v
  {
    var bs := WordBytes(u);
    assert WordOf(bs[0], bs[1], bs[2], bs[3]) == u;
  }

  /** The MD5 digest of a message, in hex. */
  function Md5Hex(m: seq<Byte>): string
  {
    StateHex(Fold(Init, Pad(m)))
  }

  /** A Python bytearray: a growable byte buffer, shared by reference with
      whoever else holds it. */
  class ByteArray {
    var bytes: seq<Byte>

    constructor (bs: seq<Byte>)
      ensures bytes == bs
    {
      bytes := bs;
    }

    /** bytearray.append(b) */
    method Append(b: Byte)
      modifies this
      ensures bytes == old(bytes) + [b]
    {
      bytes := bytes + [b];
    }

    /** bytearray.extend(bs) */
    method Extend(bs: seq<Byte>)
      modifies this
      ensures bytes == old(bytes) + bs
    {
      bytes := bytes + bs;
    }
  }

  /** What md5 returns: the hex digest, or the OverflowError that to_bytes
      raises when the bit length needs more than 64 bits. */
  datatype Outcome = Digested(hex: string) | LengthOverflow

  /** md5: copy the message into a fresh bytearray, pad it in place, fold
      md5_block over its 64-byte blocks, and render the state in hex. */
  method Md5(message: seq<Byte>) returns (r: Outcome)
    ensures 8 * |message| < LengthModulus ==> r == Digested(Md5Hex(message))
    ensures 8 * |message| >= LengthModulus ==> r == LengthOverflow
  {
    var buf := new ByteArray(message);
    var ok := PadInPlace(buf);
    if !ok {
      return LengthOverflow;
    }
    var state := FoldBlocks(Init, buf.bytes);
    r := Digested(StateHex(state));
  }

  /** md5 as written when its argument already is a bytearray: no copy is
      made, so the padding is appended to the caller's own buffer. */
  method Md5OfBytearray(message: ByteArray) returns (r: Outcome)
    modifies message
    ensures 8 * |old(message.bytes)| < LengthModulus ==>
      r == Digested(Md5Hex(old(message.bytes))) && message.bytes == Pad(old(message.bytes))
    ensures 8 * |old(message.bytes)| >= LengthModulus ==>
      r == LengthOverflow && message.bytes == old(message.bytes) + [0x80] + Zeros(ZeroCount(|old(message.bytes)|))
  {
    var ok := PadInPlace(message);
    if !ok {
      return LengthOverflow;
    }
    var state := FoldBlocks(Init, message.bytes);
    r := Digested(StateHex(state));
  }

  /** After md5 returns, a shared bytearray no longer holds the message: it
      holds its padding, at least nine bytes longer, so hashing the same
      bytearray again hashes Pad(m) instead of m. */
  lemma PaddedBufferDiffers(m: seq<Byte>)
    ensures Pad(m) != m && |Pad(m)| >= |m| + 9
  {
    PadLength(m);
  }

  /** The padding steps of md5, in place: append 0x80, append zeros until
      the length is 56 modulo 64, append the 64-bit little-endian bit
      length; to_bytes raises (ok is false) after the zeros when the bit
      length does not fit in 64 bits. */
  method PadInPlace(message: ByteArray) returns (ok: bool)
    modifies message
    ensures ok == (8 * |old(message.bytes)| < LengthModulus)
    ensures ok ==> message.bytes == Pad(old(message.bytes))
    ensures !ok ==> message.bytes == old(message.bytes) + [0x80] + Zeros(ZeroCount(|old(message.bytes)|))
  {
    ghost var m := message.bytes;
    var n := |message.bytes|;
    var msgLenBits := n * 8;

    message.Append(0x80);
    while |message.bytes| % 64 != 56
      invariant n + 1 <= |message.bytes| <= n + 1 + ZeroCount(n)
      invariant message.bytes == m + [0x80] + Zeros(|message.bytes| - n - 1)
      decreases n + 1 + ZeroCount(n) - |message.bytes|
    {
      assert |message.bytes| != n + 1 + ZeroCount(n);
      assert Zeros(|message.bytes| - n - 1) + [0] == Zeros(|message.bytes| + 1 - n - 1);
      message.Append(0);
    }
    ZeroCountUnique(n, |message.bytes| - n - 1);
    assert message.bytes == m + [0x80] + Zeros(ZeroCount(n));
    if msgLenBits >= LengthModulus {
      return false;
    }
    LengthModulusBytes();
    LengthFieldExact(n);
    message.Extend(LeBytes(msgLenBits, 8));
    ok := true;
  }

  /** The block loop of md5: md5_block over each 64-byte block in turn. */
  method FoldBlocks(s: State, buf: seq<Byte>) returns (state: State)
    requires |buf| % 64 == 0
    ensures state == Fold(s, buf)
  {
    state := s;
    var i := 0;
    while i < |buf|
      invariant 0 <= i <= |buf| && i % 64 == 0
      invariant state == Fold(s, buf[..i])
    {
      RemainingBlock(i, |buf|);
      FoldSnoc(s, buf[..i], buf[i..i + 64]);
      assert buf[..i] + buf[i..i + 64] == buf[..i + 64];
      state := Md5Block(buf[i..i + 64], state);
      i := i + 64;
    }
    assert buf[..|buf|] == buf;
  }
}
