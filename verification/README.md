# Delta-of-delta integer codec of pgts, in Dafny

This project models the integer codec in `src/encode.c` of pgts, a PostgreSQL
extension that compresses time series. The codec packs a series of `uint64_t`
values into bytes. It has two parts.

**The bit cursor.** A `BitStream` writes and reads a byte buffer one bit
field at a time, most significant bit first. It keeps one staging byte and a
count of its free bits in (0, 8].
- `bitstream_write_bit_n` writes up to 8 bits. A field wider than the free
  space is split across two bytes.
- `bitstream_flush` pads the staging byte with zero bits and emits it.
- `bitstream_write_64_n` and `bitstream_read_64_n` move up to 64 bits as
  8-bit windows, the low-order byte first.

**The codec.** `_u8_encode` writes these parts in order:
1. a header byte: version bits 7-6, count-width class bits 5-4, payload
   type bits 3-0;
2. the count in 1, 2 or 3 little-endian bytes;
3. the first value, as 8 little-endian bytes;
4. the first delta `v[1] - v[0]`, as 8 little-endian bytes;
5. a bit stream with one code for each position i ≥ 2.

Each code holds the delta of delta `v[i] - 2 v[i-1] + v[i-2]`:
- a control code of k one bits and a zero picks one of six buckets;
- a non-zero bucket then carries a sign bit and a magnitude of 6, 8, 11, 31
  or 63 bits.

`_u8_decode` reads the same layout. It rebuilds the series from two running
accumulators, `delta` and `last`.

## How the model is built

Bytes are naturals below 256 (`Bits.byte`). Values are `u64`, the integers in
[0, 2^64). Unsigned wrap-around is written out as `DoubleDelta.Wrap`, which
reduces modulo 2^64. The C conversion to `int64_t` is `DoubleDelta.Signed`.

Shifts, masks and `|` are functions on naturals (`Bits.Shr`, `Bits.Shl`,
`Bits.Low`, `Bits.Or`, `Bits.And`), with lemmas about how they combine. The
meaning of a bit-field write is given by `Bits.BitsOf(x, n)`: the n low bits
of x, most significant first. `Bits.Flatten` turns a byte buffer into its
bits.

The cursor is split into two immutable states:
- a `Writer`: output bytes, staging byte, free bits. `Written()` is every bit
  written so far.
- a `Reader`: buffer, byte offset, unread bits of the current byte.
  `Unread()` is every bit not yet read.

Each cursor operation is a pure function. Its partner lemma states how the
operation changes `Written()` or `Unread()`.

The encoder is split the same way:
- `Encoder.ValueImage` and `Encoder.PayloadImage` are an independent
  reference for the bits the encoder should emit.
- `Encoder.EncodeLoopAppends` proves that the writer emits exactly those
  bits.
- `Decoder.DecodeLoopAfterEncode` proves that the decoder reads them back.

The two halves meet in `RoundTrip.RoundTrip`.

Module layout follows the source:
- `Bits` — bit operators and bit images.
- `BitStream` — `src/encode.c:61-165`.
- `BitStream64` — `src/encode.c:120-182`.
- `Header` — header constants and header byte.
- `LittleEndian` — count and word fields.
- `DoubleDelta` — wrap-around arithmetic and buckets.
- `Encoder` — `_u8_encode`.
- `Decoder` — `_u8_decode`.
- `RoundTrip` — decoding undoes encoding.
- `Fixtures` — the byte vectors of `tests/test_encode.c`.
- `Results` — the error type.

## Model

| member | source | states |
|---|---|---|
| BitStream.NewWriter | src/encode.c:70-80 | a fresh cursor has written nothing and has all 8 bits of its staging byte free |
| BitStream.Flush | src/encode.c:82-93 | with nothing staged the cursor is unchanged; otherwise exactly one byte is appended, holding the written bits followed by zero padding, and 8 bits are free again |
| BitStream.FlushIdempotent | src/encode.c:82-93 | a second flush changes nothing, and flushing a cursor whose bits are all in whole bytes changes nothing |
| BitStream.WriteBits | src/encode.c:95-118 | after any write of up to 8 bits the free count is again in (0, 8], the free bits of the staging byte are zero, and at most one byte has been emitted |
| BitStream.WriteBitsAppends | src/encode.c:95-118 | writing the n-bit value x appends exactly the n bits of x, most significant first, to what was written, whether or not the field is split across two bytes |
| BitStream.FitsAppends | src/encode.c:97-105 | a field that fits the free bits of the staging byte appends its own bits |
| BitStream.SplitAppends | src/encode.c:108-117 | a field wider than the free space appends its high part to the staging byte, flushes it, and stages its low part, so that its bits appear in order |
| BitStream.NewReader | src/encode.c:70-80 | a fresh read cursor has the whole buffer's bits unread |
| BitStream.UnreadLength | src/encode.c:61-68 | the unread bits are the rest of the current byte and 8 for each later byte |
| BitStream.ReadBits | src/encode.c:133-165 | a read of n bits succeeds exactly when n bits are left; its value is below 2^n; a read of 0 bits returns 0 and leaves the cursor where it was |
| BitStream.ReadBitsMeaning | src/encode.c:133-165 | a successful read takes exactly the n bits of its value off the front of the unread bits |
| BitStream.ReadBitsAfterWrite | src/encode.c:139-165 | where the n bits of x come next, reading n bits returns x and leaves the bits after them unread |
| BitStream64.WindowWidth | src/encode.c:123-129 | window i of an n-bit transfer is 8 bits wide, or `n - 8i` if fewer remain |
| BitStream64.Write64Appends | src/encode.c:120-131 | writing an n-bit value appends its 8-bit windows, low-order window first, each window most significant bit first |
| BitStream64.WriteWindowsAppends | src/encode.c:122-130 | the window loop from window i on appends windows i and above |
| BitStream64.Read64 | src/encode.c:167-182 | a 64-bit read succeeds exactly when `min(n, 64)` bits are left, and consumes exactly that many |
| BitStream64.Read64AfterWrite | src/encode.c:167-182 | reading n bits where an n-bit value was written window by window returns that value and leaves the bits after it |
| BitStream64.ReadWindowsAfterWrite | src/encode.c:171-179 | the read loop from window i on, with the low windows already accumulated, returns the whole value |
| BitStream64.AccumulateWindow | src/encode.c:178 | or-ing window i, shifted into place, onto the low 8i bits gives the low `8i + m` bits |
| Header.CountWidth | src/encode.c:211-218 | the count field is 1, 2 or 3 bytes wide, wide enough to hold the count, and no wider than needed |
| Header.Make | src/encode.c:207-218 | the header written is version 0, payload type 1 and the size class of the count width |
| Header.ParseExact | src/encode.c:286-309 | the decoder accepts a header with count width c exactly when it is the header the encoder writes for c; every other byte is a format error |
| Header.ParseMake | src/encode.c:289-309 | the header the encoder writes reads back as its own count width |
| LittleEndian.FromLEOfLE | src/encode.c:229-232 | a count written as k little-endian bytes, when it fits them, reads back as itself |
| LittleEndian.LEOfFromLE | src/encode.c:311-312 | any k bytes read as a little-endian number and written back are the same bytes |
| DoubleDelta.Signed | src/encode.c:239-240 | the `int64_t` conversion gives a value in the `int64_t` range with the same bit pattern |
| DoubleDelta.DeltaOfDelta | src/encode.c:247-249 | the delta of delta is an `int64_t` congruent to `v[i] - 2 v[i-1] + v[i-2]` modulo 2^64 |
| DoubleDelta.DeltaOfDeltaInverts | src/encode.c:340-350 | adding the delta of delta to the previous delta gives the next delta, and adding that to the previous value gives the next value, both modulo 2^64 |
| DoubleDelta.WrapCongruent | src/encode.c:239-240 | two results of `uint64_t` arithmetic agree exactly when the exact results agree modulo 2^64 |
| DoubleDelta.Classify | src/encode.c:251-263 | the bucket chosen is the first of the six whose range holds the value |
| DoubleDelta.ClassifyFits | src/encode.c:251-271 | the magnitude of every `int64_t` other than INT64_MIN fits the width of its bucket, and only zero gets a width of 0 |
| Encoder.ControlImage | src/encode.c:251-268 | the control code of bucket k is k one bits followed by a zero |
| Encoder.EncodeValueAppends | src/encode.c:265-272 | coding one delta of delta appends its control code, then its sign and the windows of its magnitude when its bucket has a width |
| Encoder.EncodeLoopAppends | src/encode.c:246-273 | the encoder's loop from position i on appends the codes of all deltas of delta from i on |
| Encoder.PayloadLayout | src/encode.c:244-275 | the payload bytes are the codes of all deltas of delta, then fewer than 8 zero bits of padding |
| Encoder.PayloadOf | src/encode.c:244-275 | any byte string whose bits are the codes followed by fewer than 8 zero bits is the payload |
| Encoder.Encode | src/encode.c:200-278 | encoding fails exactly when there are more than 0xFFFFFF values, and then with `SizeOverflow`; the output is 1 + count width + 16 + payload bytes long |
| Decoder.ReadControlMeaning | src/encode.c:331-338 | reading a control code consumes one bits up to and including the first zero bit, and the bucket is the number of one bits |
| Decoder.ReadControlAfterWrite | src/encode.c:331-338 | where a control code of k one bits and a zero was written, the control read returns bucket k and leaves what follows |
| Decoder.ReadDeltaAfterWrite | src/encode.c:331-345 | where the code of a delta of delta was written, reading one code returns that delta of delta and leaves what follows |
| Decoder.DecodeLoopKeeps | src/encode.c:331-354 | the loop only appends: the values decoded before it stay, unchanged, at the front of its result |
| Decoder.DecodeLoopAfterEncode | src/encode.c:331-354 | where the codes of the deltas of delta from i on were written, the decoder's loop rebuilds the rest of the series; with `DoubleDelta.DeltaOfDeltaInverts` this is the partner of the loop's recurrence |
| Decoder.Word | src/encode.c:319-326 | an 8-byte word read is the value whose little-endian image is those bytes |
| Decoder.Decode | src/encode.c:280-357 | a header the decoder does not accept gives a format error; a successful decode had a valid header and a full preamble, and returns as many values as the count field says, at least 2 |
| Decoder.ForeignHeader | src/encode.c:289-309 | a buffer whose first byte is none of the headers 0x11, 0x21 and 0x31 is refused as malformed |
| Decoder.DecodeBody | src/encode.c:311-331 | past a valid header, a count below 2 is refused; otherwise the result has as many values as the count says, the first is the first word and the second is the first word plus the second word, modulo 2^64 |
| Decoder.DecodeOpens | src/encode.c:319-328 | every successful decode opens with the first word after the count, then that word plus the next word, modulo 2^64 |
| RoundTrip.EncodedFields | src/encode.c:226-245 | each field of the encoded buffer reads back as what was put there: the count width, the count, the first value, the first delta and the payload |
| RoundTrip.RoundTrip | src/encode.c:200-357 | every series of 2 to 0xFFFFFF values encodes, and decoding the result returns the series, unless some delta of delta is INT64_MIN |
| Fixtures.Encode1 | tests/test_encode.c:293-317 | [1, 2, 3] encodes to the 19 bytes of the test vector, ending in 0x00, and those bytes decode to [1, 2, 3] |
| Fixtures.Encode2 | tests/test_encode.c:319-342 | [1, 2, 1] encodes to the 20 bytes of the test vector, ending in 0xA1 0x00, and those bytes decode to [1, 2, 1] |
| Fixtures.Encode3 | tests/test_encode.c:344-369 | the three 64-bit values of the overflow test encode to the 27 bytes of the test vector, and those bytes decode back to them |
| Fixtures.Windows3 | tests/test_encode.c:361-363 | the 63-bit magnitude 0x17c2f0e57f5defdf goes out as seven whole bytes, low byte first, then 7 bits |
| Fixtures.MinDelta | src/encode.c:262-266 | [0, 0, 2^63] has the delta of delta INT64_MIN, whose magnitude 2^63 does not fit the 63 bits of its bucket |

## Left out

- `_zstd_encode` and `_zstd_decode` (`src/encode.c:22-59`) are calls into the zstd library.
- `_f8_encode` and `_f8_decode` (`src/encode.c:359-375`) are empty stubs.
- `src/pgts.c` is PostgreSQL glue around the codec. It is not part of this model.
- `src/encode.h` holds declarations only. It is not part of this model.
- Memory is not modelled:
  - the `realloc_func` callback;
  - the floating-point capacity estimate `input_sz * 8 * 1.2` (`src/encode.c:221-222`);
  - the output length written through `output_sz`.
  The encoder returns a fresh byte sequence whose length is stated instead.
- The cursor's `buffer_size` field is not modelled. The encoder sets it to the preamble length (`src/encode.c:245`), and the check that uses it is empty (`src/encode.c:87-89`).
- Host byte order is not modelled. The `memcpy` of the count (`src/encode.c:231`, `:312`) and the raw `int64_t` loads (`src/encode.c:320-325`) are modelled as little-endian, the layout of the test vectors.
- Encoder.Encode: requires at least 2 values. The source reads `input[1]` unconditionally (`src/encode.c:239`).
- RoundTrip.RoundTrip: requires that no delta of delta is INT64_MIN.
  - For that value the source calls `llabs` on INT64_MIN, which is undefined behaviour.
  - In the model its magnitude 2^63 does not fit the 63-bit bucket (`Fixtures.MinDelta`), so its code would not read back.
  - `Encode` itself stays total for such series.
- Decoder.Decode: is stricter than the source on malformed input, where the source reads out of bounds or leaves output unwritten.
  - An empty buffer or one shorter than its preamble gives `OutOfBounds`.
  - A bit stream that ends early gives `OutOfBounds`.
  - Six one bits in a row give `BadControl`. The source leaves `output[i]` unwritten and goes on (`src/encode.c:332-354`).
  - A count below 2 gives `TooFewValues`. The source writes `output[1]` regardless (`src/encode.c:328`).
- Decoder.Decode: its contract states the number of values and the first two (`Decoder.DecodeOpens`), not the values the loop reads. `RoundTrip.RoundTrip` states all of them for encoder output.
- Decoder.ReadDelta: its contract does not bound the magnitude it reads. `Decoder.ReadDeltaAfterWrite` states what it returns on encoder output.
- BitStream64.Read64: its contract does not bound the value it returns. `BitStream64.Read64AfterWrite` states what it returns on written data.
- Signed overflow in the decoder's `int64_t` accumulators (`src/encode.c:327`, `:346`, `:349`) is modelled as wrap-around modulo 2^64. This matches the `uint64_t` arithmetic of the encoder.
- Bit counts and offsets are unbounded naturals. The `uint8_t` counters of the source never exceed 64 on these paths.
