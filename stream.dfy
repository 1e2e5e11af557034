/** The streaming MD5 of md5.py's md5_file: the file arrives as a sequence
    of chunks, complete 64-byte blocks are compressed as soon as they are
    available, the bytes after the last complete block wait in a remainder
    buffer, and the final padding is written into that buffer. */
module Stream {
  import opened Bytes
  import opened Compression
  import opened Digest

  /** The bytes of a sequence of chunks, one after the other. */
  function Concat(chunks: seq<seq<Byte>>): (bs: seq<Byte>)
  {
    if chunks == [] then [] else Concat(chunks[..|chunks| - 1]) + chunks[|chunks| - 1]
  }

  /** The number of chunks before the first empty one: f.read returns an
      empty string exactly at the end of the file, where the read loop
      stops. */
  function Eof(chunks: seq<seq<Byte>>): (k: nat)
    ensures k <= |chunks|
    ensures forall j :: 0 <= j < k ==> |chunks[j]| > 0
    ensures k < |chunks| ==> |chunks[k]| == 0
  {
    if chunks == [] || |chunks[0]| == 0 then 0 else 1 + Eof(chunks[1..])
  }

  /** When no read is empty, the loop reads them all. */
  lemma EofAllRead(chunks: seq<seq<Byte>>)
    ensures (forall j :: 0 <= j < |chunks| ==> |chunks[j]| > 0) ==> chunks[..Eof(chunks)] == chunks
  {
    if forall j :: 0 <= j < |chunks| ==> |chunks[j]| > 0 {
      assert Eof(chunks) == |chunks|;
    }
  }

  /** One more read appends its bytes. */
  lemma ConcatSnoc(chunks: seq<seq<Byte>>, k: nat)
    requires k < |chunks|
    ensures Concat(chunks[..k + 1]) == Concat(chunks[..k]) + chunks[k]
  {
    assert chunks[..k + 1][..k] == chunks[..k];
  }

  /** data[:len(data) // 64 * 64]: the complete blocks at the front of data. */
  function Blocks(data: seq<Byte>): (b: seq<Byte>)
    ensures |b| % 64 == 0 && |b| <= |data|
  {
    CompleteBlocks(|data|);
    data[..|data| / 64 * 64]
  }

  /** data[len(data) // 64 * 64:]: what is left after the complete
      blocks, fewer than 64 bytes. */
  function Tail(data: seq<Byte>): (t: seq<Byte>)
    ensures |t| < 64
  {
    CompleteBlocks(|data|);
    data[|data| / 64 * 64..]
  }

  /** The complete blocks and the tail make up the data. */
  lemma BlocksThenTail(data: seq<Byte>)
    ensures Blocks(data) + Tail(data) == data
  {
    CompleteBlocks(|data|);
    var cut := |data| / 64 * 64;
    assert data == data[..cut] + data[cut..];
  }

  /** len // 64 * 64 is a whole number of blocks, less than a block short of
      len. */
  lemma CompleteBlocks(len: nat)
    ensures (len / 64 * 64) % 64 == 0
    ensures len / 64 * 64 <= len < len / 64 * 64 + 64
  {
    assert len == 64 * (len / 64) + len % 64;
  }

  /** The padding md5_file writes after a remainder r: 0x80, zeros that
      bring r to 56 modulo 64, and the bit length of all n bytes modulo
      2^64. */
  function PadTail(r: seq<Byte>, n: nat): (t: seq<Byte>)
    ensures |t| % 64 == 0
  {
    LengthFieldAligns(|r| + 1 + ZeroCount(|r|));
    r + [0x80] + Zeros(ZeroCount(|r|)) + LengthField(n)
  }

  /** After whole blocks p, the padding of p + r is p followed by the
      padding md5_file writes after r. */
  lemma PadSplit(p: seq<Byte>, r: seq<Byte>, n: nat)
    requires |p| % 64 == 0 && n == |p| + |r|
    ensures Pad(p + r) == p + PadTail(r, n)
  {
    ZeroCountShift(|p|, |r|);
    assert |p + r| == n;
    assert Pad(p + r) == (p + r) + [0x80] + Zeros(ZeroCount(|r|)) + LengthField(n);
  }

  /** The zero count depends only on the length modulo 64. */
  lemma ZeroCountShift(p: nat, r: nat)
    requires p % 64 == 0
    ensures ZeroCount(p + r) == ZeroCount(r)
  {
    var k := ZeroCount(r);
    var q, q' := p / 64, (r + 1 + k) / 64;
    assert p == 64 * q;
    assert r + 1 + k == 64 * q' + 56;
    assert p + r + 1 + k == 64 * (q + q') + 56;
    ZeroCountUnique(p + r, k);
  }

  /** The zero bytes md5_file writes into the remainder r: up to 64 bytes
      and 56 more in the extra block when 0x80 leaves no room for the length
      field, else up to 56 bytes. */
  lemma TailZeros(r: nat)
    requires r < 64
    ensures r + 1 > 56 ==> ZeroCount(r) == (64 - (r + 1)) + 56
    ensures r + 1 <= 56 ==> ZeroCount(r) == 56 - (r + 1)
  {
    var k := if r + 1 > 56 then (64 - (r + 1)) + 56 else 56 - (r + 1);
    assert r + 1 + k == if r + 1 > 56 then 64 + 56 else 56;
    ZeroCountUnique(r, k);
  }

  /** The body of md5_file's read loop, after file_size is updated: the
      remainder and the new chunk are joined, their complete blocks go
      through md5_block in order, and the rest is the new remainder. */
  method AbsorbChunk(state: State, remainder: seq<Byte>, chunk: seq<Byte>) returns (st: State, rem: seq<Byte>)
    ensures st == Fold(state, Blocks(remainder + chunk))
    ensures rem == Tail(remainder + chunk)
  {
    var data := remainder + chunk;
    var cut := |data| / 64 * 64;
    CompleteBlocks(|data|);
    // The loop over data[i:i+64] for i < cut is md5's block loop over
    // data[:cut].
    st := FoldBlocks(state, data[..cut]);
    rem := data[cut..];
  }

  /** The final padding of md5_file: 0x80 goes into the remainder; if the
      remainder is then longer than 56 bytes it is zero-filled to a block
      and compressed, and a fresh block is begun; zeros up to 56 bytes and
      the bit length modulo 2^64 complete the last block. Every block
      handed to md5_block has 64 bytes. */
  method FinishPadding(state: State, remainder: seq<Byte>, fileSize: nat) returns (st: State)
    requires |remainder| < 64
    ensures st == Fold(state, PadTail(remainder, fileSize))
  {
    var buf := remainder + [0x80];
    if |buf| > 56 {
      st := PadTwoBlocks(state, remainder, fileSize);
    } else {
      st := PadOneBlock(state, remainder, fileSize);
    }
  }

  /** The branch of the final padding where 0x80 leaves no room for the
      length field: the zero-filled remainder is compressed, then a block of
      56 zeros and the length. */
  method PadTwoBlocks(state: State, remainder: seq<Byte>, fileSize: nat) returns (st: State)
    requires 56 < |remainder| + 1 <= 64
    ensures st == Fold(state, PadTail(remainder, fileSize))
  {
    LengthModulusBytes();
    var buf := remainder + [0x80];
    buf := buf + Zeros(64 - |buf|);
    ghost var first := buf;
    st := Md5Block(buf, state);
    buf := [];
    buf := buf + Zeros(56 - |buf|);
    var bitLen := (fileSize * 8) % LengthModulus;
    buf := buf + LeBytes(bitLen, 8);
    st := Md5Block(buf, st);
    ExtraBlockTail(remainder, fileSize, first, buf);
    FoldTwo(state, first, buf);
  }

  /** The branch of the final padding where 0x80, the zeros and the length
      fit after the remainder in one block. */
  method PadOneBlock(state: State, remainder: seq<Byte>, fileSize: nat) returns (st: State)
    requires |remainder| + 1 <= 56
    ensures st == Fold(state, PadTail(remainder, fileSize))
  {
    LengthModulusBytes();
    var buf := remainder + [0x80];
    buf := buf + Zeros(56 - |buf|);
    var bitLen := (fileSize * 8) % LengthModulus;
    buf := buf + LeBytes(bitLen, 8);
    st := Md5Block(buf, state);
    OneBlockTail(remainder, fileSize, buf);
    FoldOne(state, buf);
  }

  /** With room for the length field, the padding is one block. */
  lemma OneBlockTail(remainder: seq<Byte>, fileSize: nat, last: seq<Byte>)
    requires |remainder| + 1 <= 56
    requires last == remainder + [0x80] + Zeros(56 - (|remainder| + 1)) + LeBytes((fileSize * 8) % LengthModulus, 8)
    ensures PadTail(remainder, fileSize) == last
  {
    TailZeros(|remainder|);
    assert fileSize * 8 == 8 * fileSize;
  }

  /** Without room for the length field, the padding is the zero-filled
      remainder block and then a block of zeros and the length field. */
  lemma ExtraBlockTail(remainder: seq<Byte>, fileSize: nat, first: seq<Byte>, last: seq<Byte>)
    requires 56 < |remainder| + 1 <= 64
    requires first == remainder + [0x80] + Zeros(64 - (|remainder| + 1))
    requires last == [] + Zeros(56) + LeBytes((fileSize * 8) % LengthModulus, 8)
    ensures PadTail(remainder, fileSize) == first + last
  {
    var r := |remainder|;
    TailZeros(r);
    assert fileSize * 8 == 8 * fileSize;
    assert Zeros(63 - r) + Zeros(56) == Zeros(ZeroCount(r));
  }

  /** Folding a single block is one md5_block. */
  lemma FoldOne(s: State, b: seq<Byte>)
    requires |b| == 64
    ensures Fold(s, b) == Compress(b, s)
  {
    FoldSnoc(s, [], b);
    assert [] + b == b;
  }

  /** Folding two blocks is two md5_blocks. */
  lemma FoldTwo(s: State, b0: seq<Byte>, b1: seq<Byte>)
    requires |b0| == 64 && |b1| == 64
    ensures Fold(s, b0 + b1) == Compress(b1, Compress(b0, s))
  {
    FoldSnoc(s, b0, b1);
    FoldOne(s, b0);
  }

  /** One pass of the read loop keeps "the bytes read are the blocks
      processed followed by the remainder". */
  lemma ReadStep(chunks: seq<seq<Byte>>, k: nat, processed: seq<Byte>, remainder: seq<Byte>)
    requires k < |chunks|
    requires Concat(chunks[..k]) == processed + remainder
    ensures Concat(chunks[..k + 1]) == (processed + Blocks(remainder + chunks[k])) + Tail(remainder + chunks[k])
  {
    var data := remainder + chunks[k];
    ConcatSnoc(chunks, k);
    BlocksThenTail(data);
    assert processed + data == (processed + Blocks(data)) + Tail(data);
  }

  /** The read loop of md5_file: from the initial state, every chunk up to
      the first empty read is appended to the remainder, and the complete
      blocks are compressed. Afterwards the bytes read are the blocks
      processed followed by a remainder of fewer than 64 bytes, and
      file_size counts them. */
  method ReadLoop(chunks: seq<seq<Byte>>) returns (state: State, remainder: seq<Byte>, fileSize: nat, ghost processed: seq<Byte>)
    ensures |processed| % 64 == 0 && |remainder| < 64
    ensures Concat(chunks[..Eof(chunks)]) == processed + remainder
    ensures fileSize == |processed| + |remainder|
    ensures state == Fold(Init, processed)
  {
    state := Init;
    fileSize := 0;
    remainder := [];
    processed := [];

    var k := 0;
    while k < |chunks|
      invariant 0 <= k <= Eof(chunks)
      invariant |remainder| < 64
      invariant fileSize == |Concat(chunks[..k])|
      invariant Concat(chunks[..k]) == processed + remainder
      invariant |processed| % 64 == 0
      invariant state == Fold(Init, processed)
    {
      var chunk := chunks[k];
      if |chunk| == 0 {
        break;
      }
      ConcatSnoc(chunks, k);
      fileSize := fileSize + |chunk|;
      ghost var data := remainder + chunk;
      ReadStep(chunks, k, processed, remainder);
      WholeBlocks(processed, Blocks(data));
      FoldAppend(Init, processed, Blocks(data));
      state, remainder := AbsorbChunk(state, remainder, chunk);
      processed := processed + Blocks(data);
      k := k + 1;
    }
    assert k == Eof(chunks);
  }

  /** Compressing the padding md5_file writes after the remainder, from the
      state the read loop leaves, gives the state of the whole padded
      message. */
  lemma PaddingCompletes(processed: seq<Byte>, remainder: seq<Byte>, n: nat, before: State, after: State)
    requires |processed| % 64 == 0 && n == |processed| + |remainder|
    requires before == Fold(Init, processed)
    requires after == Fold(before, PadTail(remainder, n))
    ensures StateHex(after) == Md5Hex(processed + remainder)
  {
    var tail := PadTail(remainder, n);
    PadSplit(processed, remainder, n);
    FoldAppend(Init, processed, tail);
    assert after == Fold(Init, Pad(processed + remainder));
  }

  /** md5_file, with the file given as the chunks its successive reads
      return; an empty read is the end of the file. The digest is the MD5
      of the bytes read, however they were split into chunks. */
  method Md5File(chunks: seq<seq<Byte>>) returns (hex: string)
    ensures hex == Md5Hex(Concat(chunks[..Eof(chunks)]))
    ensures (forall j :: 0 <= j < |chunks| ==> |chunks[j]| > 0) ==> hex == Md5Hex(Concat(chunks))
  {
    var state, remainder, fileSize, processed := ReadLoop(chunks);
    ghost var before := state;
    state := FinishPadding(state, remainder, fileSize);
    PaddingCompletes(processed, remainder, fileSize, before, state);
    hex := StateHex(state);
    EofAllRead(chunks);
  }
}
