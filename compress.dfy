/** The MD5 compression function of section 3.4 of RFC 1321, as md5.py's
    md5_block computes it: round tables, rotation, the four auxiliary
    functions, and the 64-round transform of one 64-byte block. */
module Compression {
  import opened Bytes

  /** The four state words A, B, C, D, threaded by value through the blocks. */
  datatype State = State(a: Word, b: Word, c: Word, d: Word)

  /** Initial state (A, B, C, D) of section 3.3 of RFC 1321. */
  const Init: State := State(0x67452301, 0xEFCDAB89, 0x98BADCFE, 0x10325476)

  /** A rotation amount the table uses: fewer than 32 bits. */
  type Shift = n: Word | n < 32

  /** An index into the sixteen words of a block. */
  type WordIndex = k: nat | k < 16

  /** Additive constant of each round (table T of section 3.4 of RFC 1321). */
  const T: seq<Word> := [
    0xd76aa478, 0xe8c7b756, 0x242070db, 0xc1bdceee, 0xf57c0faf, 0x4787c62a, 0xa8304613, 0xfd469501,
    0x698098d8, 0x8b44f7af, 0xffff5bb1, 0x895cd7be, 0x6b901122, 0xfd987193, 0xa679438e, 0x49b40821,
    0xf61e2562, 0xc040b340, 0x265e5a51, 0xe9b6c7aa, 0xd62f105d, 0x02441453, 0xd8a1e681, 0xe7d3fbc8,
    0x21e1cde6, 0xc33707d6, 0xf4d50d87, 0x455a14ed, 0xa9e3e905, 0xfcefa3f8, 0x676f02d9, 0x8d2a4c8a,
    0xfffa3942, 0x8771f681, 0x6d9d6122, 0xfde5380c, 0xa4beea44, 0x4bdecfa9, 0xf6bb4b60, 0xbebfbc70,
    0x289b7ec6, 0xeaa127fa, 0xd4ef3085, 0x04881d05, 0xd9d4d039, 0xe6db99e5, 0x1fa27cf8, 0xc4ac5665,
    0xf4292244, 0x432aff97, 0xab9423a7, 0xfc93a039, 0x655b59c3, 0x8f0ccc92, 0xffeff47d, 0x85845dd1,
    0x6fa87e4f, 0xfe2ce6e0, 0xa3014314, 0x4e0811a1, 0xf7537e82, 0xbd3af235, 0x2ad7d2bb, 0xeb86d391
  ]

  /** Left-rotation amount of each round. */
  const S: seq<Shift> :=
    [7, 12, 17, 22, 7, 12, 17, 22, 7, 12, 17, 22, 7, 12, 17, 22] +
    [5, 9, 14, 20, 5, 9, 14, 20, 5, 9, 14, 20, 5, 9, 14, 20] +
    [4, 11, 16, 23, 4, 11, 16, 23, 4, 11, 16, 23, 4, 11, 16, 23] +
    [6, 10, 15, 21, 6, 10, 15, 21, 6, 10, 15, 21, 6, 10, 15, 21]

  /** Which word of the block each round reads. */
  const Idx: seq<WordIndex> :=
    [0, 1, 2, 3, 4, 5, 6, 7, 8, 9, 10, 11, 12, 13, 14, 15] +
    [1, 6, 11, 0, 5, 10, 15, 4, 9, 14, 3, 8, 13, 2, 7, 12] +
    [5, 8, 11, 14, 1, 4, 7, 10, 13, 0, 3, 6, 9, 12, 15, 2] +
    [0, 7, 14, 5, 12, 3, 10, 1, 8, 15, 6, 13, 4, 11, 2, 9]

  /** The word order of each quarter in closed form: round 16q + i reads
      word i in the first quarter, then 1 + 5i, 5 + 3i and 7i, each modulo
      16. */
  lemma IdxPattern(i: nat)
    requires i < 16
    ensures Idx[i] == i
    ensures Idx[16 + i] == (1 + 5 * i) % 16
    ensures Idx[32 + i] == (5 + 3 * i) % 16
    ensures Idx[48 + i] == (7 * i) % 16
  {
    match i
    case 0 => case 1 => case 2 => case 3 => case 4 => case 5 => case 6 => case 7 =>
    case 8 => case 9 => case 10 => case 11 => case 12 => case 13 => case 14 => case 15 =>
  }

  /** The four rotation amounts of quarter q. */
  function QuarterShifts(q: nat): (s: seq<Shift>)
    requires q < 4
    ensures |s| == 4
  {
    [[7, 12, 17, 22], [5, 9, 14, 20], [4, 11, 16, 23], [6, 10, 15, 21]][q]
  }

  /** Each quarter repeats its four rotation amounts: S[16q + i] is amount
      i mod 4 of quarter q. */
  lemma ShiftPattern(q: nat, i: nat)
    requires q < 4 && i < 16
    ensures S[16 * q + i] == QuarterShifts(q)[i % 4]
  {
    match q
    case 0 => ShiftQuarter0(i);
    case 1 => ShiftQuarter1(i);
    case 2 => ShiftQuarter2(i);
    case 3 => ShiftQuarter3(i);
  }

  lemma ShiftQuarter0(i: nat)
    requires i < 16
    ensures S[16 * 0 + i] == QuarterShifts(0)[i % 4]
  {
    if i < 8 {
      if i < 4 {} else {}
    } else {
      if i < 12 {} else {}
    }
    match i
    case 0 => case 1 => case 2 => case 3 => case 4 => case 5 => case 6 => case 7 =>
    case 8 => case 9 => case 10 => case 11 => case 12 => case 13 => case 14 => case 15 =>
  }

  lemma ShiftQuarter1(i: nat)
    requires i < 16
    ensures S[16 * 1 + i] == QuarterShifts(1)[i % 4]
  {
    if i < 8 {
      if i < 4 {} else {}
    } else {
      if i < 12 {} else {}
    }
    match i
    case 0 => case 1 => case 2 => case 3 => case 4 => case 5 => case 6 => case 7 =>
    case 8 => case 9 => case 10 => case 11 => case 12 => case 13 => case 14 => case 15 =>
  }

  lemma ShiftQuarter2(i: nat)
    requires i < 16
    ensures S[16 * 2 + i] == QuarterShifts(2)[i % 4]
  {
    if i < 8 {
      if i < 4 {} else {}
    } else {
      if i < 12 {} else {}
    }
    match i
    case 0 => case 1 => case 2 => case 3 => case 4 => case 5 => case 6 => case 7 =>
    case 8 => case 9 => case 10 => case 11 => case 12 => case 13 => case 14 => case 15 =>
  }

  lemma ShiftQuarter3(i: nat)
    requires i < 16
    ensures S[16 * 3 + i] == QuarterShifts(3)[i % 4]
  {
    if i < 8 {
      if i < 4 {} else {}
    } else {
      if i < 12 {} else {}
    }
    match i
    case 0 => case 1 => case 2 => case 3 => case 4 => case 5 => case 6 => case 7 =>
    case 8 => case 9 => case 10 => case 11 => case 12 => case 13 => case 14 => case 15 =>
  }

  /** rotl: ((x << n) | (x >> (32 - n))) & 0xFFFFFFFF, computed as Python
      does on a wider integer (here 64 bits, wide enough for x << n) and
      then masked back to a word. It is the left rotation by n: bit j of the
      result is bit j - n (modulo 32) of x. */
  function Rotl(x: Word, n: Word): (r: Word)
    requires n <= 32
    ensures IsRotation(r, x, n)
  {
    RotlNarrow(x, n);
    RotationBits(x, n, (x << n) | (x >> (32 - n)));
    ((((x as bv64) << (n as bv64)) | ((x as bv64) >> (32 - (n as bv64)))) & 0xFFFF_FFFF) as Word
  }

  /** r is x rotated left by n: bit j of r is bit j - n (modulo 32) of x. */
  ghost predicate IsRotation(r: Word, x: Word, n: Word)
  {
    forall j: Word :: j < 32 ==> Bit(r, j) == Bit(x, (j - n) % 32)
  }

  /** The 32-bit shift expression is a rotation. */
  lemma RotationBits(x: Word, n: Word, r: Word)
    requires n <= 32 && r == (x << n) | (x >> (32 - n))
    ensures IsRotation(r, x, n)
  {
    forall j: Word | j < 32
      ensures Bit(r, j) == Bit(x, (j - n) % 32)
    {
      RotatedBit(x, n, j);
    }
  }

  /** Masking the wide shift to 32 bits gives the word shift. */
  lemma RotlNarrow(x: Word, n: Word)
    requires n <= 32
    ensures ((((x as bv64) << (n as bv64)) | ((x as bv64) >> (32 - (n as bv64)))) & 0xFFFF_FFFF) as Word == (x << n) | (x >> (32 - n))
  {}

  /** Where bit j of a 32-bit rotation comes from. */
  lemma RotatedBit(x: Word, n: Word, j: Word)
    requires n <= 32 && j < 32
    ensures Bit((x << n) | (x >> (32 - n)), j) == Bit(x, (j - n) % 32)
  {}

  /** Bit j of a word. */
  predicate Bit(w: Word, j: Word)
    requires j < 32
  {
    (w >> j) & 1 == 1
  }

  /** F of round 1: in each bit, if x then y else z. */
  function F(x: Word, y: Word, z: Word): (r: Word)
    ensures forall j: Word :: j < 32 ==> Bit(r, j) == if Bit(x, j) then Bit(y, j) else Bit(z, j)
  {
    forall j: Word | j < 32
      ensures Bit((x & y) | (!x & z), j) == (if Bit(x, j) then Bit(y, j) else Bit(z, j))
    {
      FBit(x, y, z, j);
    }
    (x & y) | (!x & z)
  }

  lemma FBit(x: Word, y: Word, z: Word, j: Word)
    requires j < 32
    ensures Bit((x & y) | (!x & z), j) == (if Bit(x, j) then Bit(y, j) else Bit(z, j))
  {}

  /** G of round 2: in each bit, if z then x else y. */
  function G(x: Word, y: Word, z: Word): (r: Word)
    ensures forall j: Word :: j < 32 ==> Bit(r, j) == if Bit(z, j) then Bit(x, j) else Bit(y, j)
  {
    forall j: Word | j < 32
      ensures Bit((x & z) | (y & !z), j) == (if Bit(z, j) then Bit(x, j) else Bit(y, j))
    {
      GBit(x, y, z, j);
    }
    (x & z) | (y & !z)
  }

  lemma GBit(x: Word, y: Word, z: Word, j: Word)
    requires j < 32
    ensures Bit((x & z) | (y & !z), j) == (if Bit(z, j) then Bit(x, j) else Bit(y, j))
  {}

  /** H of round 3: in each bit, the parity of x, y and z. */
  function H(x: Word, y: Word, z: Word): (r: Word)
    ensures forall j: Word :: j < 32 ==> Bit(r, j) == ((Bit(x, j) != Bit(y, j)) != Bit(z, j))
  {
    forall j: Word | j < 32
      ensures Bit(x ^ y ^ z, j) == ((Bit(x, j) != Bit(y, j)) != Bit(z, j))
    {
      HBit(x, y, z, j);
    }
    x ^ y ^ z
  }

  lemma HBit(x: Word, y: Word, z: Word, j: Word)
    requires j < 32
    ensures Bit(x ^ y ^ z, j) == ((Bit(x, j) != Bit(y, j)) != Bit(z, j))
  {}

  /** I of round 4: in each bit, y exclusive-or (x or not z). */
  function I(x: Word, y: Word, z: Word): (r: Word)
    ensures forall j: Word :: j < 32 ==> Bit(r, j) == (Bit(y, j) != (Bit(x, j) || !Bit(z, j)))
  {
    forall j: Word | j < 32
      ensures Bit(y ^ (x | !z), j) == (Bit(y, j) != (Bit(x, j) || !Bit(z, j)))
    {
      IBit(x, y, z, j);
    }
    y ^ (x | !z)
  }

  lemma IBit(x: Word, y: Word, z: Word, j: Word)
    requires j < 32
    ensures Bit(y ^ (x | !z), j) == (Bit(y, j) != (Bit(x, j) || !Bit(z, j)))
  {}

  /** FUNCS[q]: the auxiliary function of quarter q (rounds 16q to 16q + 15). */
  function Aux(q: nat, x: Word, y: Word, z: Word): Word
    requires q < 4
  {
    if q == 0 then F(x, y, z) else if q == 1 then G(x, y, z) else if q == 2 then H(x, y, z) else I(x, y, z)
  }

  /** The sixteen little-endian words of a block, X of md5_block. */
  function Words(bs: seq<Byte>): (x: seq<Word>)
    requires |bs| % 4 == 0
    ensures |x| == |bs| / 4
  {
    if bs == [] then []
    else
      var n := |bs| - 4;
      Words(bs[..n]) + [WordOf(bs[n], bs[n + 1], bs[n + 2], bs[n + 3])]
  }

  /** Word k is the word of bytes 4k to 4k + 3. */
  lemma {:induction false} WordsAt(bs: seq<Byte>, k: nat)
    requires |bs| % 4 == 0 && k < |bs| / 4
    ensures Words(bs)[k] == WordOf(bs[4 * k], bs[4 * k + 1], bs[4 * k + 2], bs[4 * k + 3])
  {
    var n := |bs| - 4;
    if k < n / 4 {
      WordsAt(bs[..n], k);
    }
  }

  /** Word k of a block is the little-endian value of bytes 4k to 4k + 3:
      X[k] = b[4k] + 2^8 b[4k+1] + 2^16 b[4k+2] + 2^24 b[4k+3]. */
  lemma WordsLittleEndian(block: seq<Byte>, k: nat)
    requires |block| == 64 && k < 16
    ensures Words(block)[k] as nat == LeValue(block[4 * k .. 4 * k + 4])
    ensures Words(block)[k] as int == block[4 * k] as int + 0x100 * (block[4 * k + 1] as int)
      + 0x1_0000 * (block[4 * k + 2] as int) + 0x100_0000 * (block[4 * k + 3] as int)
  {
    var bs := block[4 * k .. 4 * k + 4];
    assert bs[0] == block[4 * k] && bs[1] == block[4 * k + 1] && bs[2] == block[4 * k + 2] && bs[3] == block[4 * k + 3];
    WordsAt(block, k);
    WordOfIsLeValue(bs);
    LeValueOfFour(bs);
  }

  /** Addition of two words modulo 2^32: md5.py's (u + v) & 0xFFFFFFFF. */
  function Plus(u: Word, v: Word): Word
  {
    u + v
  }

  /** The masked four-term sum (a + f + t + w) & 0xFFFFFFFF that opens each
      round. */
  function Plus4(a: Word, f: Word, t: Word, w: Word): Word
  {
    a + f + t + w
  }

  /** Round i of md5_block's main loop on the working registers
      (aa, bb, cc, dd): temp = rotl(aa + f + T[i] + X[IDX[i]], S[i]) + bb,
      and the registers shift one place. */
  function Step(regs: State, x: seq<Word>, i: nat): State
    requires |x| == 16 && i < 64
  {
    State(regs.d, Plus(Rotl(Plus4(regs.a, Aux(i / 16, regs.b, regs.c, regs.d), T[i], x[Idx[i]]), S[i]), regs.b), regs.b, regs.c)
  }

  /** The three assignments to temp in a round compute the new second
      register of Step. */
  lemma RoundIsStep(aa: Word, bb: Word, cc: Word, dd: Word, x: seq<Word>, i: nat, temp: Word)
    requires |x| == 16 && i < 64
    requires temp == Plus(Rotl(Plus4(aa, Aux(i / 16, bb, cc, dd), T[i], x[Idx[i]]), S[i]), bb)
    ensures Step(State(aa, bb, cc, dd), x, i) == State(dd, temp, bb, cc)
  {}

  /** One more round is one more Step. */
  lemma NextRound(s: State, x: seq<Word>, n: nat)
    requires |x| == 16 && n < 64
    ensures Rounds(s, x, n + 1) == Step(Rounds(s, x, n), x, n)
  {}

  /** The working registers after the first n rounds. */
  function Rounds(regs: State, x: seq<Word>, n: nat): State
    requires |x| == 16 && n <= 64
  {
    if n == 0 then regs else Step(Rounds(regs, x, n - 1), x, n - 1)
  }

  /** Word-wise sum modulo 2^32 of two states. */
  function Add(s: State, r: State): State
  {
    State(Plus(s.a, r.a), Plus(s.b, r.b), Plus(s.c, r.c), Plus(s.d, r.d))
  }

  /** md5_block as a function: the state plus the registers after 64 rounds. */
  function Compress(block: seq<Byte>, s: State): State
    requires |block| == 64
  {
    Add(s, Rounds(s, Words(block), 64))
  }

  /** md5_block: parse the block into words, run the 64 rounds, and add the
      registers back into the state, each word modulo 2^32. */
  method Md5Block(block: seq<Byte>, state: State) returns (r: State)
    requires |block| == 64
    ensures r == Compress(block, state)
  {
    var x := ParseWords(block);
    var aa, bb, cc, dd := state.a, state.b, state.c, state.d;
    for i := 0 to 64
      invariant State(aa, bb, cc, dd) == Rounds(state, x, i)
    {
      var roundIdx := i / 16;  // i >> 4
      var f := Aux(roundIdx, bb, cc, dd);
      var temp := Plus4(aa, f, T[i], x[Idx[i]]);
      temp := Rotl(temp, S[i]);
      temp := Plus(temp, bb);
      RoundIsStep(aa, bb, cc, dd, x, i, temp);
      NextRound(state, x, i);
      aa, bb, cc, dd := dd, temp, bb, cc;
    }
    r := State(Plus(state.a, aa), Plus(state.b, bb), Plus(state.c, cc), Plus(state.d, dd));
  }

  /** The first loop of md5_block: the sixteen little-endian words of the
      block, four bytes at a time. */
  method ParseWords(block: seq<Byte>) returns (x: seq<Word>)
    requires |block| == 64
    ensures x == Words(block)
  {
    x := [];
    var i := 0;
    while i < 64
      invariant 0 <= i <= 64 && i % 4 == 0 && x == Words(block[..i])
    {
      assert block[..i + 4][..i] == block[..i];
      x := x + [WordOf(block[i], block[i + 1], block[i + 2], block[i + 3])];
      i := i + 4;
    }
    assert block[..64] == block;
  }

  // ---------------------------------------------------------------------
  // Section 3.4 of RFC 1321 as written there: no register shifting, but
  // each operation [abcd k s i] updates one named register in place,
  //   a = b + ((a + g(b,c,d) + X[k] + T[i]) <<< s),
  // with the roles rotating ABCD, DABC, CDAB, BCDA through each group of
  // four operations.

  /** One operation [abcd k s i] of round i: the new value of register a. */
  function RfcOp(a: Word, b: Word, c: Word, d: Word, x: seq<Word>, i: nat): Word
    requires |x| == 16 && i < 64
  {
    Plus(Rotl(Plus4(a, Aux(i / 16, b, c, d), T[i], x[Idx[i]]), S[i]), b)
  }

  /** A round of md5_block computes one RFC operation on its registers. */
  lemma StepIsRfcOp(p: State, x: seq<Word>, i: nat)
    requires |x| == 16 && i < 64
    ensures Step(p, x, i) == State(p.d, RfcOp(p.a, p.b, p.c, p.d, x, i), p.b, p.c)
  {
  }

  /** The order in which the four lines of a group name the registers:
      ABCD, DABC, CDAB, BCDA. */
  function Rotated(p: State, k: nat): State
    requires k < 4
  {
    match k
    case 0 => p
    case 1 => State(p.d, p.a, p.b, p.c)
    case 2 => State(p.c, p.d, p.a, p.b)
    case 3 => State(p.b, p.c, p.d, p.a)
  }

  /** Operation i = 4g + k of the RFC: line k of group g names the registers
      in the order Rotated(p, k) and stores its result in the first one
      named. */
  function RfcNext(p: State, x: seq<Word>, i: nat): State
    requires |x| == 16 && i < 64
  {
    var r := Rotated(p, i % 4);
    Store(p, i % 4, RfcOp(r.a, r.b, r.c, r.d, x, i))
  }

  /** The register line k of a group updates: A, D, C, B. */
  function Store(p: State, k: nat, v: Word): State
    requires k < 4
  {
    match k
    case 0 => p.(a := v)
    case 1 => p.(d := v)
    case 2 => p.(c := v)
    case 3 => p.(b := v)
  }

  /** The RFC's registers A, B, C, D after its first n operations. */
  function RfcOps(s: State, x: seq<Word>, n: nat): State
    requires |x| == 16 && n <= 64
  {
    if n == 0 then s else RfcNext(RfcOps(s, x, n - 1), x, n - 1)
  }

  /** One round of md5_block is one RFC operation, seen through the
      rotation of the registers. */
  lemma StepIsRfcNext(p: State, x: seq<Word>, i: nat)
    requires |x| == 16 && i < 64
    ensures Step(Rotated(p, i % 4), x, i) == Rotated(RfcNext(p, x, i), (i + 1) % 4)
  {
    var k := i % 4;
    var r := Rotated(p, k);
    StepIsRfcOp(r, x, i);
    StoreRotated(p, k, RfcOp(r.a, r.b, r.c, r.d, x, i));
    NextLine(i, k);
  }

  /** Storing into the register a line names, then turning to the next
      line's order, puts the stored value second and shifts the others:
      the register shift of md5_block. */
  lemma StoreRotated(p: State, k: nat, v: Word)
    requires k < 4
    ensures Rotated(Store(p, k, v), (k + 1) % 4) == State(Rotated(p, k).d, v, Rotated(p, k).b, Rotated(p, k).c)
  {
    match k
    case 0 => assert (k + 1) % 4 == 1;
    case 1 => assert (k + 1) % 4 == 2;
    case 2 => assert (k + 1) % 4 == 3;
    case 3 => assert (k + 1) % 4 == 0;
  }

  /** The line after line k of a group is line k + 1 modulo 4. */
  lemma NextLine(i: nat, k: nat)
    requires k < 4 && i % 4 == k
    ensures (i + 1) % 4 == (k + 1) % 4
  {}

  /** After n rounds the shifting registers of md5_block hold the RFC's
      named registers, rotated by n mod 4. */
  lemma {:induction false} RoundsMatchRfcOps(s: State, x: seq<Word>, n: nat)
    requires |x| == 16 && n <= 64
    ensures Rounds(s, x, n) == Rotated(RfcOps(s, x, n), n % 4)
  {
    if n > 0 {
      RoundsMatchRfcOps(s, x, n - 1);
      StepIsRfcNext(RfcOps(s, x, n - 1), x, n - 1);
    }
  }

  /** md5_block computes section 3.4 of RFC 1321: A = A + AA and so on,
      where AA, BB, CC, DD are the RFC's registers after its four rounds. */
  lemma CompressMatchesRfc(block: seq<Byte>, s: State)
    requires |block| == 64
    ensures Compress(block, s) == Add(s, RfcOps(s, Words(block), 64))
  {
    RoundsMatchRfcOps(s, Words(block), 64);
  }
}
