# LEB128 codec, modelled in Dafny

A model of the Go package `leb128` (`leb128.go`), which writes and reads
LEB128 (Little-Endian Base 128) integers, the variable-length format of
section 7.6 of the DWARF Debugging Information Format, version 4. A value is
cut into 7-bit groups, lowest first. Every byte but the last carries the
continuation flag 0x80.

The project has four modules:

- `Groups` (`groups.dfy`) holds the shared vocabulary:
  - bytes, and Go's `uint64` and `int64` as subset types of `int`;
  - the weight `Pow128(k)` = 128^k of group k;
  - `GroupsValue`, the number held by a run of 7-bit groups;
  - `Extent`, how many bytes a decoder capped at `cap` groups consumes from a position. It is `None` when the bytes run out first.
- `Unsigned` (`unsigned.dfy`) holds the pure specification of unsigned LEB128:
  - the reference encoding `UnsignedEncoding`;
  - the decoding a capped decoder computes, `UnsignedDecoding`, wrapped to 64 bits;
  - lemmas about both.
- `Signed` (`signed.dfy`) does the same for two's-complement LEB128:
  - `SignedEncoding`;
  - sign extension `SignExtend`;
  - `SignedDecoding`, wrapped to `int64`.
- `Leb128` (`leb128.dfy`) holds the six Go functions as methods with the same loops and variables. Each method is proved against the specification functions:
  - the encoders update `value`, `remaining` and, in the signed one, `hasMore`, and append to a buffer;
  - the decoders update `result`, `ctr`, `cur` and, in the signed ones, `signBits`.

  Dafny parameters cannot be assigned, so the encoders shift a local `v` in place of Go's `value`. The decoders accumulate in a local `acc`, which is Go's `result` and is copied to `result` at the end.

Go's bit operations become arithmetic:
- `x >> 7` is `x / 0x80`. This is floor division, which equals Dafny's division for a positive divisor, also for negative `x`.
- `x & 0x7f` is `x % 0x80`.
- `(x >> 6) & 1` is `x / 0x40 % 2`.
- `x << (7 * k)` is `Shifted(x, k)`, which equals `x * 128^k`.
- `value & MinInt64 == 0` is `value >= 0`.

Go's 64-bit accumulators never wrap inside the capped loops, and the specification functions state the 64-bit wrap explicitly.

A byte source (`io.ByteReader`) is modelled as the sequence of its bytes `src` plus the position `pos` of the next unread byte. A reader returns the position `next` it leaves the source at.

## Model

| member | source | states |
|---|---|---|
| Groups.GroupsValue | leb128.go:50 | the groups a decoder accumulates, `cur & 0x7f` shifted by 7 per group, hold a value below 128^n for n groups |
| Groups.GroupsValueAppend | leb128.go:50 | one more group read adds that group times 128^k to the accumulated value |
| Groups.Extent | leb128.go:48 | the number of bytes a decoder loop (this one and the same test in the other three decoders) capped at cap groups consumes from pos: it stops after the first byte with bit 7 clear or after cap bytes, and is None when the bytes run out first; it never runs past the end of the input |
| Groups.ExtentBounds | leb128.go:48 | a decoder reads at most cap bytes, and at least one when cap > 0 |
| Groups.ExtentMeaning | leb128.go:48 | the decoder loop stops right after the first byte with bit 7 clear, or at the cap; the bytes run out first exactly when fewer than cap remain and all have bit 7 set |
| Groups.ExtentAppend | leb128.go:48 | bytes after those the decoder consumes do not change how many it consumes |
| Groups.ExtentOfTerminated | leb128.go:48 | on a run closed by one byte with bit 7 clear, the decoder consumes the whole run or its first cap bytes |
| Unsigned.UnsignedEncoding | leb128.go:31-41 | the encoding of a value is never empty |
| Unsigned.UnsignedDecoding | leb128.go:44-54 | by definition, the value of the groups a decoder capped at cap reads (the bytes counted by Extent), wrapped to 64 bits |
| Unsigned.UnsignedEncodingTerminated | leb128.go:34-39 | every byte of the encoding but the last has bit 7 set, and the last has it clear |
| Unsigned.UnsignedEncodingGroups | leb128.go:35 | byte i of the encoding holds group i of v, (v / 128^i) % 128, in its low 7 bits |
| Unsigned.UnsignedEncodingValue | leb128.go:31-41 | the groups of the encoding add up to v |
| Unsigned.UnsignedEncodingLength | leb128.go:32-39 | the encoding is n bytes long where n is the least n >= 1 with v < 128^n |
| Unsigned.UnsignedEncodingShortest | leb128.go:32-39 | no n with v < 128^n is shorter than the encoding |
| Unsigned.UnsignedEncodingAtMostTen | leb128.go:31-41 | a uint64 encodes to at most 10 bytes |
| Unsigned.UnsignedEncodingPrefix | leb128.go:35 | the first k bytes of the encoding hold v mod 128^k |
| Unsigned.NarrowDecodingDoesNotWrap | leb128.go:48-53 | with the 9-group cap the result is the groups read, never wrapped, and below 2^63 |
| Unsigned.UnsignedDecodingIgnoresTail | leb128.go:48 | bytes after the terminating byte change neither the result nor the bytes consumed |
| Unsigned.UnsignedRoundTripWithin | leb128.go:31-54 | decoding an encoding that fits the cap, followed by anything, gives v back and consumes exactly the encoding |
| Unsigned.UnsignedRoundTrip | leb128.go:31-54 | the round trip holds with the 9-group cap for every v < 2^63 |
| Unsigned.UnsignedConsecutive | leb128_test.go:51-69 | two encodings written back to back read back in order, the first read leaving the second at the front |
| Unsigned.UnsignedEncodingSamples | leb128_test.go:13-23 | the encodings of 0, 1, 2, 127, 128, 129, 130, 12857 and 16256, and so their lengths (leb128_test.go:39-49) |
| Unsigned.UnsignedDecodingSamples | leb128_test.go:133-140 | all nine sample byte strings of leb128_test.go:13-23 decode to their values (0, 1, 2, 127, 128, 129, 130, 12857, 16256) |
| Unsigned.NarrowCapKeepsLow63Bits | leb128.go:48 | with the 9-group cap, decoding the encoding of any uint64 gives v mod 2^63 |
| Unsigned.NarrowCapLosesTopBit | leb128.go:48 | every uint64 v >= 2^63 decodes to v - 2^63, which is not v |
| Unsigned.WideCapRoundTrip | leb128.go:48 | with a 10-group cap every uint64 round-trips |
| Signed.SignedEncoding | leb128.go:74-97 | the signed encoding of a value is never empty |
| Signed.SignExtend | leb128.go:111-113 | n groups read as a two's-complement number: 128^n is subtracted when bit 7n-1 is set; a value below 128^n lands in [-2^(7n-1), 2^(7n-1)) |
| Signed.SignedDecoding | leb128.go:100-115 | by definition, the sign extension of the groups a decoder capped at cap reads, wrapped to int64 |
| Signed.SignedEncodingTerminated | leb128.go:84-95 | every byte but the last has bit 7 set, and the last has it clear |
| Signed.SignedEncodingSignBit | leb128.go:85 | bit 6 of the last byte is 1 exactly when v < 0 |
| Signed.SignedEncodingPrefix | leb128.go:92 | the first k bytes of the encoding hold v mod 128^k, the low 7k bits of v |
| Signed.SignedEncodingLength | leb128.go:84-95 | the encoding is n bytes long where n is the least n >= 1 with -2^(7n-1) <= v < 2^(7n-1) |
| Signed.SignedEncodingShortest | leb128.go:84-95 | no n whose signed range holds v is shorter than the encoding |
| Signed.SignedEncodingAtMostTen | leb128.go:74-97 | an int64 encodes to at most 10 bytes |
| Signed.SignExtendOfResidue | leb128.go:111-113 | sign-extending v mod 128^n from bit 7n-1 gives back any v in the n-group signed range |
| Signed.SignedDecodingIgnoresTail | leb128.go:105 | bytes after the terminating byte change neither the result nor the bytes consumed |
| Signed.NarrowSignedDecodingDoesNotWrap | leb128.go:105-113 | with the 5-group cap the result is the sign extension of the groups read, in [-2^34, 2^34) |
| Signed.SignedRoundTripWithin | leb128.go:74-115 | decoding an encoding that fits the cap, followed by anything, gives v back and consumes exactly the encoding |
| Signed.SignedRoundTrip | leb128.go:74-115 | the round trip holds with the 5-group cap for every v in [-2^34, 2^34) |
| Signed.SignedEncodingSamples | leb128_test.go:25-37 | the signed encodings of 0, 1, 2, 127, 128, 129, -1, -2, -127, -128 and -129 |
| Signed.SignedDecodingSamples | leb128_test.go:142-149 | all eleven sample byte strings of leb128_test.go:25-37 decode to their values (0, 1, 2, 127, 128, 129, -1, -2, -127, -128, -129) |
| Signed.NarrowCapKeepsLow35Bits | leb128.go:105 | with the 5-group cap, decoding the encoding of any int64 gives v reduced to a 35-bit two's-complement number |
| Signed.NarrowCapFlipsSign | leb128.go:105 | every int64 v in [2^34, 2^35) decodes to the negative v - 2^35 |
| Signed.WideSignedRoundTrip | leb128.go:105 | with a 10-group cap every int64 round-trips |
| Leb128.EncodeULeb128 | leb128.go:31-41 | the bytes produced are the unsigned encoding of value |
| Leb128.DecodeULeb128 | leb128.go:44-54 | the result is the capped unsigned decoding of value, below 2^63 |
| Leb128.ReadError | leb128.go:65 | the one error ReadULeb128 reports, the unexpected end of input |
| Leb128.ReadULeb128 | leb128.go:57-71 | fails with UnexpectedEof exactly when the source runs dry inside the varint, yielding 0 with the source drained; otherwise it consumes exactly the bytes DecodeULeb128 reads from pos and returns the same value |
| Leb128.HasMoreIffNotFitsGroup | leb128.go:85 | the encoder's hasMore test holds exactly when the value does not fit one signed 7-bit group |
| Leb128.EncodeSLeb128 | leb128.go:74-97 | the bytes produced are the signed encoding of value |
| Leb128.SignBitSet | leb128.go:111 | by definition, Go's test `((signBits >> 1) & result) != 0`, written as a test of bit 7n-1 of result |
| Leb128.SignBitSetIffAtLeastSignWeight | leb128.go:111-113 | `(signBits >> 1) & result != 0` holds exactly when the n groups read reach 2^(7n-1) |
| Leb128.DecodeSLeb128 | leb128.go:100-115 | the result is the capped signed decoding of value, in [-2^34, 2^34) |
| Leb128.ReadSLeb128 | leb128.go:118-137 | panics exactly when the source runs dry inside the varint; otherwise it consumes exactly the bytes DecodeSLeb128 reads from pos and returns the same value |

## Left out

- The `bytes.Buffer` behind the encoders (leb128.go:33, leb128.go:75) is replaced by a returned sequence. The `io.ByteReader` behind the readers is replaced by a sequence plus a position. The `errors` package is replaced by the `ReadError` datatype.
- ReadULeb128 tests only for `io.EOF` (leb128.go:64). Other reader errors are passed over by the Go code. A sequence source has no other errors, so they are not modelled.
- ReadSLeb128's `panic(err)` (leb128.go:126-128) is modelled as the outcome `panicked`, with no value. It is not modelled as a recoverable error. On a sequence source the only read error is end of input.
- DecodeULeb128 and DecodeSLeb128 index the slice without a bounds check, so Go panics when the bytes run out. The methods instead require that the bytes they read are there (`Extent(...).Some?`).
- The constant table (leb128.go:15-28) is left out. Only `MinInt64` is used, as the sign test `value & MinInt64 == 0`, and it is modelled as `value >= 0`.
- `(signBits >> 1) & result` is modelled as a test of bit 7n-1 of result (`SignBitSet`). After n groups, result < 2^(7n) and `signBits >> 1` is -2^(7n-1), so the AND is non-zero exactly when that bit is set.
- No round trip is claimed beyond the caps: unsigned values from 2^63 up and signed values outside [-2^34, 2^34). What the caps do to those values is stated under Findings.
- The 9-group unsigned cap carries only 63 bits of payload, less than a uint64 holds; see Findings.

## Findings

| source | as written | input that shows it | evidently intended | confidence | as-written member | corrected member |
|---|---|---|---|---|---|---|
| leb128.go:48, leb128.go:62 | the unsigned decoders stop after 9 groups (63 bits), but EncodeULeb128 writes 10 bytes for every value from 2^63 up | EncodeULeb128(2^63) decodes to 0; every v >= 2^63 decodes to v - 2^63 | a 10-group cap, so that every uint64 round-trips | not executed | Unsigned.NarrowCapLosesTopBit | Unsigned.WideCapRoundTrip |
| leb128.go:105, leb128.go:124 | the signed decoders stop after 5 groups (35 bits), but EncodeSLeb128 writes up to 10 bytes for an int64 | EncodeSLeb128(2^34) decodes to -2^34; every v in [2^34, 2^35) decodes to v - 2^35 | a 10-group cap, so that every int64 round-trips | not executed | Signed.NarrowCapFlipsSign | Signed.WideSignedRoundTrip |
