# MD5 of md5.py, modelled in Dafny

This project models md5.py, a small self-contained MD5 implementation.
Its digest algorithm is the one of RFC 1321. The model covers:
- the initial state, the round tables T, S and IDX, `rotl` and the four
  auxiliary functions F, G, H and I;
- the block function `md5_block`;
- the whole-buffer `md5`, which pads and then folds `md5_block` over the
  blocks;
- the streaming `md5_file`, which keeps a state, a remainder buffer of fewer
  than 64 bytes and a byte count across chunked reads, and writes the final
  padding into the remainder.

Modules:
- `Bytes` (bytes.dfy): bytes (`bv8`), 32-bit words (`bv32`), the
  little-endian parse of `md5_block`, and `int.to_bytes(n, 'little')`.
- `Compression` (compress.dfy): the tables, `Rotl`, `F`/`G`/`H`/`I`, and
  `Md5Block`, which is imperative like the source: a parse loop, then 64
  rounds on shifting registers.
  - It is proved against the function `Compress`.
  - `Compress` is in turn related to an independent definition: RFC 1321
    section 3.4 written with named registers, `RfcOps`.
- `Digest` (digest.dfy): the padding `Pad`, the fold `Fold` and the hex
  rendering `StateHex`.
  - Padding is proved against its layout, its length and its block count.
  - Hex is proved against its inverse `Unhex`.
  - `Md5` is the method with the source's padding loop and block loop.
  - `md5`'s bytearray buffer is the class `ByteArray`, with `Append` and
    `Extend`.
- `Stream` (stream.dfy): `md5_file` as the method `Md5File` over the
  sequence of chunks its reads return.
  - The read loop is `ReadLoop`, with its body `AbsorbChunk`; the final
    padding is `FinishPadding`.
  - The main theorem: the streaming digest equals the whole-buffer digest
    `Md5Hex` of the bytes read, however the file was chunked.

All words are `bv32`, so every `& 0xFFFFFFFF` mask of the source is the
modular arithmetic of the type. `Plus` and `Plus4` name the masked sums.

| Python | Model |
|---|---|
| `~x` (a negative integer) | `!x` in `bv32` |
| `rotl` | computed in 64 bits and masked back, as the unbounded Python integers do |
| `md5_file`'s bit length | masked to 64 bits; `LengthField` does the same |
| `md5`'s bit length | not masked: `to_bytes` raises when it needs more than 64 bits. `Md5` returns `LengthOverflow` there. |

## Model

The functions tagged "(definition)" below compute what the source computes
but carry no contract of their own. The lemmas named in their rows give
their meaning. Rows tagged "(proof step)" are lemmas that only unfold a
definition. They exist to carry the proof named in the row.

| member | source | states |
|---|---|---|
| Compression.IdxPattern | md5.py:27-32 | the word-order table in closed form: quarter 0 reads word i, then 1 + 5i, 5 + 3i and 7i, each mod 16 |
| Compression.ShiftPattern | md5.py:19-24 | each quarter of the shift table repeats its four amounts: 7, 12, 17, 22; then 5, 9, 14, 20; then 4, 11, 16, 23; then 6, 10, 15, 21 |
| Compression.ShiftQuarter0 | md5.py:20 | (proof step of ShiftPattern) first quarter of S |
| Compression.ShiftQuarter1 | md5.py:21 | (proof step of ShiftPattern) second quarter of S |
| Compression.ShiftQuarter2 | md5.py:22 | (proof step of ShiftPattern) third quarter of S |
| Compression.ShiftQuarter3 | md5.py:23 | (proof step of ShiftPattern) fourth quarter of S |
| Compression.Rotl | md5.py:35-36 | the masked shift expression is the left rotation by n: bit j of the result is bit (j - n) mod 32 of x |
| Compression.F | md5.py:39 | in every bit, F is "if x then y else z" |
| Compression.G | md5.py:40 | in every bit, G is "if z then x else y" |
| Compression.H | md5.py:41 | in every bit, H is the parity of x, y and z |
| Compression.I | md5.py:42 | in every bit, I is y xor (x or not z) |
| Compression.Aux | md5.py:45 | (definition) FUNCS[q]: F, G, H, I for quarters 0 to 3; the bitwise meaning of each is the contract of F, G, H and I |
| Bytes.WordOf | md5.py:54 | (definition) the or-of-shifts parse of four bytes; its value is WordOfValue, its inverse WordBytes and WordOfBytes |
| Compression.Words | md5.py:52-55 | a block of 4k bytes gives k words |
| Compression.WordsAt | md5.py:53-55 | word k is built from bytes 4k to 4k+3 |
| Compression.WordsLittleEndian | md5.py:52-55 | X[k] is the little-endian value of bytes 4k..4k+3: b0 + 2^8 b1 + 2^16 b2 + 2^24 b3 |
| Compression.ParseWords | md5.py:51-55 | the parse loop yields exactly the sixteen words of the block |
| Compression.Plus | md5.py:66 | (definition) (u + v) & 0xFFFFFFFF, as bv32 addition |
| Compression.Plus4 | md5.py:64 | (definition) (a + f + t + w) & 0xFFFFFFFF, as bv32 addition |
| Compression.Step | md5.py:61-68 | (definition) one pass of the main loop; StepIsRfcNext relates it to the RFC's operation |
| Compression.Rounds | md5.py:58-68 | (definition) the registers after n passes; RoundsMatchRfcOps relates them to the RFC's named registers |
| Compression.Add | md5.py:71-76 | (definition) the word-wise masked sum of two states |
| Compression.Compress | md5.py:47-76 | (definition) md5_block as a function, the specification of Md5Block; CompressMatchesRfc states its meaning |
| Compression.RoundIsStep | md5.py:61-68 | (proof step of Md5Block) the three assignments to temp and the register shift are Step |
| Compression.NextRound | md5.py:60-68 | (proof step of Md5Block) one more pass is one more Step |
| Compression.Md5Block | md5.py:47-76 | for every 64-byte block, the result is the incoming state plus the registers after 64 rounds, word by word modulo 2^32 |
| Compression.StepIsRfcOp | md5.py:64-68 | (proof step of CompressMatchesRfc) a round computes one operation [abcd k s i] of RFC 1321 on its registers |
| Compression.StoreRotated | md5.py:68 | storing a line's result into the register the line names, then taking the next line's register order, is md5_block's register shift |
| Compression.StepIsRfcNext | md5.py:60-68 | a round of the shifting registers is one RFC operation on the named registers, seen through their rotation ABCD, DABC, CDAB, BCDA |
| Compression.RoundsMatchRfcOps | md5.py:58-68 | after n rounds, the shifting registers hold the RFC's named registers rotated by n mod 4 |
| Compression.CompressMatchesRfc | md5.py:57-76 | md5_block adds back the registers of RFC 1321 section 3.4 after its 64 operations |
| Bytes.WordOfValue | md5.py:54 | the or-of-shifts parse of four bytes has value b0 + 2^8 b1 + 2^16 b2 + 2^24 b3 |
| Bytes.WordBytes | md5.py:105 | to_bytes(4, 'little') gives 4 bytes whose little-endian parse is the word |
| Bytes.WordOfBytes | md5.py:54 | parsing four bytes and encoding the word again returns the four bytes |
| Bytes.LeBytes | md5.py:98 | v.to_bytes(n, 'little') has n bytes whose little-endian value is v |
| Bytes.LeBytesOfValue | md5.py:98 | every byte string is the n-byte encoding of its own value |
| Bytes.WordBytesIsLeBytes | md5.py:105 | the four output bytes of a word are its general to_bytes(4, 'little') |
| Digest.ZeroCount | md5.py:94-95 | the zero count below 64 makes length + 1 + zeros congruent to 56 mod 64 |
| Digest.ZeroCountUnique | md5.py:94-95 | it is the only count below 64 that does so |
| Digest.LengthField | md5.py:148-149 | 8 bytes whose little-endian value is the bit length mod 2^64 |
| Digest.LengthFieldExact | md5.py:90-98 | below 2^64 bits, the length field is the unmasked bit length |
| Digest.Pad | md5.py:92-98 | the padded message is a whole number of 64-byte blocks |
| Digest.PadLayout | md5.py:92-98 | the padded message starts with the message, then 0x80, then only zeros, and ends in the 8-byte little-endian bit length |
| Digest.PadLength | md5.py:92-98 | the padded length lies between len+9 and len+72 |
| Digest.PadBlocks | md5.py:92-102 | the padding yields (len + 8) / 64 + 1 blocks |
| Digest.PadShortest | md5.py:94-98 | no shorter multiple of 64 has room for the message, 0x80 and the length field |
| Digest.ByteArray.constructor | md5.py:84 | bytearray(m) holds the bytes of m |
| Digest.ByteArray.Append | md5.py:93 | bytearray.append(b) adds b at the end and changes nothing else |
| Digest.ByteArray.Extend | md5.py:98 | bytearray.extend(bs) adds bs at the end and changes nothing else |
| Digest.PadInPlace | md5.py:90-98 | appending 0x80, zeros while the length is not 56 mod 64, and the length bytes turns the buffer into Pad(message); with more than 64 bits of length it stops, as to_bytes raises, after the zeros |
| Digest.Fold | md5.py:100-102 | (definition) md5_block over the 64-byte blocks, first to last; FoldAppend states that the grouping of the blocks does not matter |
| Digest.FoldBlocks | md5.py:100-102 | md5_block over the 64-byte slices in order is the block fold |
| Digest.FoldSnoc | md5.py:101-102 | (proof step of FoldBlocks and FoldAppend) one more block is one more md5_block |
| Digest.FoldAppend | md5.py:101-102 | folding p + q equals folding q from the state after p: how the blocks are grouped does not matter |
| Digest.HexDigit | md5.py:105 | each digit is a lowercase hex digit and has the value it encodes |
| Digest.ByteHex | md5.py:105 | a byte's hex is two lowercase digits, high nibble first, with value the byte |
| Digest.Hex | md5.py:105 | bytes.hex() gives two lowercase digits per byte |
| Digest.UnhexHex | md5.py:105 | reading the hex back gives the bytes |
| Digest.HexUnhex | md5.py:105 | every even-length lowercase hex string is the hex of its bytes |
| Digest.StateHex | md5.py:105 | (definition) the rendering of the state; StateHexLayout and StateHexInjective give its meaning |
| Digest.StateHexLayout | md5.py:105 | the digest is 32 lowercase hex digits; byte group k is the little-endian encoding of word k, in the order A, B, C, D |
| Digest.StateHexInjective | md5.py:105 | different final states give different digests |
| Digest.Md5Hex | md5.py:86-105 | (definition) the whole-buffer digest StateHex(Fold(Init, Pad(m))), the specification of Md5 and Md5File; its parts are given meaning by PadLayout, FoldAppend and StateHexLayout |
| Digest.Md5 | md5.py:78-105 | md5 of a message whose bit length fits 64 bits is Md5Hex (the hex of the fold over the padding); otherwise the OverflowError of to_bytes |
| Digest.Md5OfBytearray | md5.py:83-98 | given a bytearray, md5 returns the same digest but leaves the caller's buffer holding the padded message |
| Digest.PaddedBufferDiffers | md5.py:93-98 | the padded message differs from the message and is at least 9 bytes longer |
| Stream.Eof | md5.py:119-122 | the loop stops at the first empty read; every read before it is non-empty |
| Stream.EofAllRead | md5.py:119-122 | when no read is empty, every chunk is read |
| Stream.Blocks | md5.py:129 | the complete blocks of data are a whole number of blocks, no longer than the data |
| Stream.Tail | md5.py:133 | the kept remainder is shorter than 64 bytes |
| Stream.BlocksThenTail | md5.py:129-133 | (proof step of ReadLoop) the blocks processed and the remainder kept make up the data |
| Stream.TailZeros | md5.py:139-145 | md5_file's zero bytes are 64 - (r+1) plus 56 when r+1 > 56, else 56 - (r+1); either way they are the padding's zero count |
| Stream.PadTail | md5.py:136-149 | the final padding after the remainder is a whole number of blocks |
| Stream.PadSplit | md5.py:136-152 | after whole blocks p, padding p + r is p followed by md5_file's padding of r with the total length |
| Stream.AbsorbChunk | md5.py:125-133 | the loop body compresses the complete blocks of remainder + data in order and keeps the rest as the new remainder |
| Stream.ReadStep | md5.py:124-133 | one pass keeps "bytes read = blocks processed followed by the remainder" |
| Stream.ReadLoop | md5.py:110-133 | after the read loop, the remainder has fewer than 64 bytes; file_size counts the bytes read; the bytes read are the processed blocks followed by the remainder; the state is the fold over the processed blocks |
| Stream.OneBlockTail | md5.py:144-152 | when 0x80 leaves room for the length, the final block is the whole padding tail |
| Stream.ExtraBlockTail | md5.py:138-152 | otherwise the zero-filled remainder block and a block of 56 zeros plus the length are the padding tail |
| Stream.FoldOne | md5.py:152 | (proof step of PadOneBlock) folding a single block is one md5_block |
| Stream.FoldTwo | md5.py:141-152 | folding two blocks is two md5_blocks |
| Stream.PadTwoBlocks | md5.py:139-152 | the branch for a remainder longer than 56 bytes after 0x80 hands two 64-byte blocks to md5_block, and the final state is the fold over the padding tail |
| Stream.PadOneBlock | md5.py:144-152 | the other branch hands one 64-byte block to md5_block, and the final state is the fold over the padding tail |
| Stream.FinishPadding | md5.py:136-152 | every block handed to md5_block has 64 bytes, and the final state is the fold over md5_file's padding of the remainder |
| Stream.PaddingCompletes | md5.py:136-155 | the read loop's state, followed by the final padding, gives the whole-buffer digest of the bytes read |
| Stream.Md5File | md5.py:107-155 | md5_file's digest is the MD5 of the bytes read up to the first empty read; with no empty read, of all chunks |

## Left out

- The command line (md5.py:161-174) and its printing are not modelled.
- File I/O is not modelled.
  - Opening the file is left out. `f.read` is replaced by the sequence of
    chunks its calls return, and an empty chunk is the end of the file.
  - The chunk size of 8192 (md5.py:114) is not modelled: the theorem holds
    for every chunking.
  - The `except` clause (md5.py:157-159), which prints the error and returns
    None, is not modelled, because I/O is the only thing that can fail there.
- The type dispatch at the start of md5 (md5.py:81-84) is only partly
  modelled.
  - The copy `bytearray(message)` is modelled: `Md5` takes the bytes of the
    message and copies them into a fresh `ByteArray`.
  - The bytearray case, where no copy is made, is `Md5OfBytearray`.
  - Not modelled: encoding a `str` as UTF-8, and coercing other types
    (lists of ints, `bytes`) to bytes.
- `md5_file`'s remainder and data buffers are local, so the model keeps them
  as sequence values rather than `ByteArray` objects.
- `Md5Block`, `Md5` and `Md5File` delegate parts of the source's single
  function bodies to helper methods and lemmas:
  - `ParseWords` for md5.py:52-55;
  - `PadInPlace` and `FoldBlocks` for md5.py:92-102;
  - `ReadLoop`, `AbsorbChunk` and `FinishPadding` (with its branches
    `PadTwoBlocks` and `PadOneBlock`) for md5.py:110-152;
  - `AbsorbChunk` runs the block loop of md5.py:129-130 through
    `FoldBlocks`, because it is md5's block loop over `data[:cut]`.
- The tables S and IDX are written as the source writes them, one row per
  quarter; Dafny joins the rows with `+`.
- The T table is written out as the source's constants. Its definition as
  floor(2^32 abs(sin(i))) is not modelled, because Dafny has no
  trigonometry.
- The test vectors of RFC 1321, appendix A.5, are not computed in the
  model.
- The claims about cryptographic strength and speed in the comments are not
  modelled.
- Plus: 32-bit addition is modelled by the `bv32` type. The model proves no
  lemma relating `Plus` to (u + v) mod 2^32 on integers.

## Findings

| source | as written | input that shows it | evidently intended | confidence | as-written member | corrected member |
|---|---|---|---|---|---|---|
| md5.py:83-98 | when `message` already is a `bytearray`, no copy is made. 0x80, the zeros and the length are appended to the caller's own buffer. | any bytearray `m`, for instance `bytearray(b"abc")`: after `md5(m)`, `m` holds the 64-byte padded message, so a second `md5(m)` hashes Pad(m) instead of m (`PaddedBufferDiffers`) | md5 pads a private copy, as it does for `str` and `bytes`, and leaves its argument unchanged | medium, not executed | Digest.Md5OfBytearray | Digest.Md5 |
