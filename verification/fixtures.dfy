/**
 The encoder test vectors of the repository, as facts about the model: three
 short series, the exact bytes `Encode` produces for each, and `Decode` of
 those bytes giving the series back.
 */
module Fixtures {
  import opened Bits
  import opened Results
  import opened LittleEndian
  import opened DoubleDelta
  import opened BitStream64
  import Header
  import Encoder
  import Decoder
  import RoundTrip

  // The series [1, 2, 3]: a constant step, so its only delta of delta is 0.

  const Series1: seq<u64> := [1, 2, 3]
  const Encoded1: seq<byte> := [0x11] + [0x03] + [1, 0, 0, 0, 0, 0, 0, 0] + [1, 0, 0, 0, 0, 0, 0, 0] + [0x00]

  lemma Encode1()
    ensures Encoder.Encode(Series1) == Ok(Encoded1)
    ensures Decoder.Decode(Encoded1) == Ok(Series1)
  {
    hide Encoder.Payload, Encoder.Encode, Decoder.Decode;
    Payload1();
    EncodedAs(Series1, 1, [0x00]);
    Preamble12();
    RoundTrip.RoundTrip(Series1);
  }

  /** A zero delta of delta is the single bit 0, padded to one byte. */
  lemma Payload1()
    ensures Encoder.Payload(Series1) == [0x00]
  {
    hide BitsOf, Flatten, Pow2, Zeros, Encoder.Payload, Encoder.PayloadImage;
    var v := Series1;
    assert DeltaOfDelta(v, 2) == 0;
    Image1();
    BitsOfZero(1);
    BitsOfZero(7);
    BitsOfGlue(0, 1, 0, 7);
    Powers();
    FlattenBytes([0x00]);
    Encoder.PayloadOf(v, [0x00], 7);
  }

  lemma Image1()
    ensures Encoder.PayloadImage(Series1, 2) == [false]
  {
    assert DeltaOfDelta(Series1, 2) == 0;
  }

  // The series [1, 2, 1]: a delta of delta of -2, coded in the 6-bit bucket.

  const Series2: seq<u64> := [1, 2, 1]
  const Encoded2: seq<byte> := [0x11] + [0x03] + [1, 0, 0, 0, 0, 0, 0, 0] + [1, 0, 0, 0, 0, 0, 0, 0] + [0xa1, 0x00]

  lemma Encode2()
    ensures Encoder.Encode(Series2) == Ok(Encoded2)
    ensures Decoder.Decode(Encoded2) == Ok(Series2)
  {
    hide Encoder.Payload, Encoder.Encode, Decoder.Decode;
    Payload2();
    EncodedAs(Series2, 1, [0xa1, 0x00]);
    Preamble12();
    RoundTrip.RoundTrip(Series2);
  }

  /** -2 is the control 10, the sign 1 and the magnitude 000010, padded to two bytes. */
  lemma Payload2()
    ensures Encoder.Payload(Series2) == [0xa1, 0x00]
  {
    hide BitsOf, Flatten, Pow2, Zeros, Encoder.Payload, Encoder.PayloadImage, Encoder.Ones;
    var v := Series2;
    assert DeltaOfDelta(v, 2) == -2;
    Image2();
    ShortImages();
    BitsOfZero(7);
    Powers();
    BitsOfGlue(0x1, 1, 0x0, 1);
    BitsOfGlue(0x2, 2, 0x1, 1);
    BitsOfGlue(0x5, 3, 0x2, 6);
    BitsOfGlue(0x142, 9, 0x0, 7);
    BitsOfGlue(0xa1, 8, 0x0, 8);
    FlattenBytes([0xa1, 0x00]);
    Encoder.PayloadOf(v, [0xa1, 0x00], 7);
  }

  lemma Image2()
    ensures Encoder.PayloadImage(Series2, 2) == Encoder.Ones(1) + [false] + [true] + BitsOf(2, 6)
  {
    assert DeltaOfDelta(Series2, 2) == -2;
  }

  // Three pseudo-random 64-bit values: a delta of delta beyond 32 bits, coded in the 63-bit bucket.

  const Series3: seq<u64> := [0x6b8b4567327b23c6, 0x643c986966334873, 0x74b0dc5119495cff]
  const Encoded3: seq<byte> := [0x11] + [0x03]
    + [0xc6, 0x23, 0x7b, 0x32, 0x67, 0x45, 0x8b, 0x6b]
    + [0xad, 0x24, 0xb8, 0x33, 0x02, 0x53, 0xb1, 0xf8]
    + [0xf9, 0xbf, 0xde, 0xba, 0xff, 0xcb, 0xe1, 0x84, 0x5c]

  lemma Encode3()
    ensures Encoder.Encode(Series3) == Ok(Encoded3)
    ensures Decoder.Decode(Encoded3) == Ok(Series3)
  {
    hide Encoder.Payload, Encoder.Encode, Decoder.Decode;
    Payload3();
    EncodedAs(Series3, 1, [0xf9, 0xbf, 0xde, 0xba, 0xff, 0xcb, 0xe1, 0x84, 0x5c]);
    Preamble3();
    RoundTrip.RoundTrip(Series3);
  }

  /** A delta of delta of 0x17c2f0e57f5defdf: the control 111110, the sign 0 and 63 magnitude bits, padded to nine bytes. */
  lemma Payload3()
    ensures Encoder.Payload(Series3) == [0xf9, 0xbf, 0xde, 0xba, 0xff, 0xcb, 0xe1, 0x84, 0x5c]
  {
    hide BitsOf, Flatten, Zeros, Encoder.Payload, Encoder.PayloadImage;
    assert DeltaOfDelta(Series3, 2) == 0x17c2f0e57f5defdf;
    Image3Value();
    Bytes3Value();
    Encoder.PayloadOf(Series3, [0xf9, 0xbf, 0xde, 0xba, 0xff, 0xcb, 0xe1, 0x84, 0x5c], 2);
  }

  /** The code of the third series, padded, is the 72-bit image of one number ... */
  lemma Image3Value()
    ensures Encoder.PayloadImage(Series3, 2) + Zeros(2) == BitsOf(0xf9bfdebaffcbe1845c, 72)
  {
    hide BitsOf, Pow2, Zeros, Encoder.PayloadImage, Encoder.Ones, WindowBits, Shr;
    Image3();
    Windows3();
    ShortImages();
    BitsOfZero(2);
    Powers();
    BitsOfGlue(0x1f, 5, 0x0, 1);
    BitsOfGlue(0x3e, 6, 0x0, 1);
    BitsOfGlue(0x7c, 7, 0xdf, 8);
    BitsOfGlue(0x7cdf, 15, 0xef, 8);
    BitsOfGlue(0x7cdfef, 23, 0x5d, 8);
    BitsOfGlue(0x7cdfef5d, 31, 0x7f, 8);
    BitsOfGlue(0x7cdfef5d7f, 39, 0xe5, 8);
    BitsOfGlue(0x7cdfef5d7fe5, 47, 0xf0, 8);
    BitsOfGlue(0x7cdfef5d7fe5f0, 55, 0xc2, 8);
    BitsOfGlue(0x7cdfef5d7fe5f0c2, 63, 0x17, 7);
    BitsOfGlue(0x3e6ff7aebff2f86117, 70, 0x0, 2);
  }

  /** ... and so are the nine payload bytes. */
  lemma Bytes3Value()
    ensures Flatten([0xf9, 0xbf, 0xde, 0xba, 0xff, 0xcb, 0xe1, 0x84, 0x5c]) == BitsOf(0xf9bfdebaffcbe1845c, 72)
  {
    hide BitsOf, Flatten, Pow2;
    Powers();
    BitsOfGlue(0xf9, 8, 0xbf, 8);
    BitsOfGlue(0xf9bf, 16, 0xde, 8);
    BitsOfGlue(0xf9bfde, 24, 0xba, 8);
    BitsOfGlue(0xf9bfdeba, 32, 0xff, 8);
    BitsOfGlue(0xf9bfdebaff, 40, 0xcb, 8);
    BitsOfGlue(0xf9bfdebaffcb, 48, 0xe1, 8);
    BitsOfGlue(0xf9bfdebaffcbe1, 56, 0x84, 8);
    BitsOfGlue(0xf9bfdebaffcbe184, 64, 0x5c, 8);
    FlattenBytes([0xf9, 0xbf, 0xde, 0xba, 0xff, 0xcb, 0xe1, 0x84, 0x5c]);
  }

  lemma Image3()
    ensures Encoder.PayloadImage(Series3, 2)
      == Encoder.Ones(5) + [false] + [false] + WindowBits(0x17c2f0e57f5defdf, 63, 0)
  {
    hide DeltaOfDelta, Encoder.ValueImage, Encoder.Ones, WindowBits;
    DeltaOfDelta3();
    SingleCode(Series3);
    WideImage(0x17c2f0e57f5defdf);
  }

  lemma DeltaOfDelta3()
    ensures DeltaOfDelta(Series3, 2) == 0x17c2f0e57f5defdf
  {
  }

  /** A positive delta of delta beyond 32 bits: control 111110, sign 0, then 63 magnitude bits. */
  lemma WideImage(dd: int)
    requires INT32_MAX <= dd < TWO63
    ensures Encoder.ValueImage(dd) == Encoder.Ones(5) + [false] + [false] + WindowBits(dd, 63, 0)
  {
    hide Encoder.Ones, WindowBits;
    assert Classify(dd) == 5;
  }

  /** The payload image of three values is the code of their one delta of delta. */
  lemma SingleCode(v: seq<u64>)
    requires |v| == 3
    ensures Encoder.PayloadImage(v, 2) == Encoder.ValueImage(DeltaOfDelta(v, 2))
  {
    hide DeltaOfDelta, Encoder.ValueImage;
    assert Encoder.PayloadImage(v, 3) == [];
  }

  /** The 63-bit magnitude goes out as seven whole bytes, low byte first, and then 7 bits. */
  lemma Windows3()
    ensures WindowBits(0x17c2f0e57f5defdf, 63, 0)
      == BitsOf(0xdf, 8) + BitsOf(0xef, 8) + BitsOf(0x5d, 8) + BitsOf(0x7f, 8)
      + BitsOf(0xe5, 8) + BitsOf(0xf0, 8) + BitsOf(0xc2, 8) + BitsOf(0x17, 7)
  {
    var x := 0x17c2f0e57f5defdf;
    hide Shr, Low, Pow2, BitsOf, WindowBits;
    ShrZero(x);
    Window(x, 63, 0, 0x17c2f0e57f5def, 0xdf);
    Window(x, 63, 1, 0x17c2f0e57f5d, 0xef);
    Window(x, 63, 2, 0x17c2f0e57f, 0x5d);
    Window(x, 63, 3, 0x17c2f0e5, 0x7f);
    Window(x, 63, 4, 0x17c2f0, 0xe5);
    Window(x, 63, 5, 0x17c2, 0xf0);
    Window(x, 63, 6, 0x17, 0xc2);
    WindowStep(x, 63, 7);
    LastWindow(x);
  }

  /**
   The series the round trip leaves out: [0, 0, 2^63] has the delta of delta
   INT64_MIN, whose magnitude 2^63 does not fit the 63 bits of its bucket, so
   its bits could not carry it back.
   */
  lemma MinDelta()
    ensures DeltaOfDelta([0, 0, 0x8000_0000_0000_0000], 2) == INT64_MIN
    ensures Classify(INT64_MIN) == 5 && Abs(INT64_MIN) == Pow2(Widths[5])
  {
    Powers();
  }

  // Helpers.

  /** The count and the first two words of the series [1, 2, 3] and [1, 2, 1]. */
  lemma Preamble12()
    ensures LE(3, 1) == [0x03] && Wrap(2 - 1) == 1 && LE(1, 8) == [1, 0, 0, 0, 0, 0, 0, 0]
  {
  }

  /** The count, the first value and the wrapped first delta of the third series. */
  lemma Preamble3()
    ensures LE(3, 1) == [0x03]
    ensures LE(0x6b8b4567327b23c6, 8) == [0xc6, 0x23, 0x7b, 0x32, 0x67, 0x45, 0x8b, 0x6b]
    ensures Wrap(0x643c986966334873 - 0x6b8b4567327b23c6) == 0xf8b1530233b824ad
    ensures LE(0xf8b1530233b824ad, 8) == [0xad, 0x24, 0xb8, 0x33, 0x02, 0x53, 0xb1, 0xf8]
  {
    hide LE, Wrap;
    Count3();
    FirstWord3();
    DeltaWord3();
  }

  lemma Count3()
    ensures LE(3, 1) == [0x03]
  {
  }

  lemma FirstWord3()
    ensures LE(0x6b8b4567327b23c6, 8) == [0xc6, 0x23, 0x7b, 0x32, 0x67, 0x45, 0x8b, 0x6b]
  {
    hide LE;
    LEStep(0x6b8b4567327b23c6, 8);
    LEStep(0x6b8b4567327b23, 7);
    LEStep(0x6b8b4567327b, 6);
    LEStep(0x6b8b456732, 5);
    LEStep(0x6b8b4567, 4);
    LEStep(0x6b8b45, 3);
    LEStep(0x6b8b, 2);
    LEStep(0x6b, 1);
    NoBytes(0);
  }

  lemma DeltaWord3()
    ensures Wrap(0x643c986966334873 - 0x6b8b4567327b23c6) == 0xf8b1530233b824ad
    ensures LE(0xf8b1530233b824ad, 8) == [0xad, 0x24, 0xb8, 0x33, 0x02, 0x53, 0xb1, 0xf8]
  {
    hide LE;
    LEStep(0xf8b1530233b824ad, 8);
    LEStep(0xf8b1530233b824, 7);
    LEStep(0xf8b1530233b8, 6);
    LEStep(0xf8b1530233, 5);
    LEStep(0xf8b15302, 4);
    LEStep(0xf8b153, 3);
    LEStep(0xf8b1, 2);
    LEStep(0xf8, 1);
    NoBytes(0);
  }

  /** What `Encode` returns for a short series whose payload is known. */
  lemma EncodedAs(v: seq<u64>, c: nat, payload: seq<byte>)
    requires 2 <= |v| <= 0xFF && c == 1 && Encoder.Payload(v) == payload
    ensures Encoder.Encode(v) == Ok([0x11] + LE(|v|, 1) + LE(v[0], 8) + LE(Wrap(v[1] as int - v[0] as int), 8) + payload)
  {
    hide Encoder.Payload, LE, Wrap;
    RoundTrip.EncodeShape(v);
  }

  /** Window i of x, when the bits of x from 8i on are 256 q + b. */
  lemma Window(x: nat, n: nat, i: nat, q: nat, b: nat)
    requires i < 8 && 8 * i + 8 <= n && b < 256 && Shr(x, 8 * i) == 256 * q + b
    ensures Shr(x, 8 * (i + 1)) == q
    ensures WindowBits(x, n, i) == BitsOf(b, 8) + WindowBits(x, n, i + 1)
  {
    hide Shr, Low, Pow2, BitsOf, WindowBits;
    ByteSplit(q, b);
    ShrShr(x, 8 * i, 8);
    BitsOfLow(Shr(x, 8 * i), 8);
    WindowStep(x, n, i);
  }

  /** A value of 256 q + b is b in its low byte and q above it. */
  lemma ByteSplit(q: nat, b: nat)
    requires b < 256
    ensures Shr(256 * q + b, 8) == q && Low(256 * q + b, 8) == b
  {
    hide Shr, Shl, Low, Pow2;
    Powers();
    ShlPow2(q, 8);
    ShrShl(q, b, 8);
    Decompose(256 * q + b, 8);
  }

  lemma WindowStep(x: nat, n: nat, i: nat)
    requires i < 8 && 8 * i <= n
    ensures WindowBits(x, n, i) == BitsOf(Shr(x, 8 * i), WindowWidth(n, i)) + WindowBits(x, n, i + 1)
  {
  }

  lemma LastWindow(x: nat)
    ensures WindowBits(x, 63, 8) == []
  {
  }

  lemma ShrZero(x: nat)
    ensures Shr(x, 0) == x
  {
  }

  lemma ShortImages()
    ensures Encoder.Ones(1) == BitsOf(1, 1) && Encoder.Ones(5) == BitsOf(31, 5)
    ensures [false] == BitsOf(0, 1) && [true] == BitsOf(1, 1)
  {
  }

  /** The bits of a byte buffer are the images of its bytes in order. */
  lemma {:induction false} FlattenBytes(bytes: seq<byte>)
    ensures |bytes| == 1 ==> Flatten(bytes) == BitsOf(bytes[0], 8)
    ensures |bytes| == 2 ==> Flatten(bytes) == BitsOf(bytes[0], 8) + BitsOf(bytes[1], 8)
    ensures |bytes| == 9 ==>
      Flatten(bytes) == BitsOf(bytes[0], 8) + BitsOf(bytes[1], 8) + BitsOf(bytes[2], 8)
                        + BitsOf(bytes[3], 8) + BitsOf(bytes[4], 8) + BitsOf(bytes[5], 8) + BitsOf(bytes[6], 8)
                        + BitsOf(bytes[7], 8) + BitsOf(bytes[8], 8)
  {
    hide BitsOf, Flatten;
    if 0 < |bytes| { FlattenCons(bytes, 0); }
    if 1 < |bytes| { FlattenCons(bytes, 1); }
    if 2 < |bytes| { FlattenCons(bytes, 2); }
    if 3 < |bytes| { FlattenCons(bytes, 3); }
    if 4 < |bytes| { FlattenCons(bytes, 4); }
    if 5 < |bytes| { FlattenCons(bytes, 5); }
    if 6 < |bytes| { FlattenCons(bytes, 6); }
    if 7 < |bytes| { FlattenCons(bytes, 7); }
    if 8 < |bytes| { FlattenCons(bytes, 8); }
    if |bytes| <= 9 {
      FlattenEmpty(bytes[|bytes|..]);
    }
  }

  lemma FlattenEmpty(bytes: seq<byte>)
    requires bytes == []
    ensures Flatten(bytes) == []
  {
  }
}
