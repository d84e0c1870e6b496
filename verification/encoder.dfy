/**
 The integer encoder: header, count field, the first value and the first
 delta as raw little-endian words, then one bit-level code per delta of
 delta, flushed to whole bytes.
 */
module Encoder {
  import opened Bits
  import opened Results
  import opened BitStream
  import opened BitStream64
  import opened LittleEndian
  import opened DoubleDelta
  import Header

  /** k one bits. */
  function Ones(k: nat): (s: seq<bool>)
    ensures |s| == k && forall i :: 0 <= i < k ==> s[i]
  {
    seq(k, _ => true)
  }

  /**
   The bits that code one delta of delta: the control code of its bucket,
   then, when the bucket has a width, the sign and that many low-order bits
   of the magnitude in the order the 64-bit writer emits them.
   */
  function ValueImage(dd: int): seq<bool>
  {
    var k := Classify(dd);
    Ones(k) + [false] + (if Widths[k] == 0 then [] else [dd < 0] + WindowBits(Abs(dd), Widths[k], 0))
  }

  /** The codes of the deltas of delta at positions i and onwards, back to back. */
  function PayloadImage(v: seq<u64>, i: nat): seq<bool>
    requires 2 <= i <= |v|
    decreases |v| - i
  {
    if i == |v| then [] else ValueImage(DeltaOfDelta(v, i)) + PayloadImage(v, i + 1)
  }

  /** No delta of delta is INT64_MIN, whose magnitude has no `int64_t` absolute value. */
  predicate NoMinDelta(v: seq<u64>)
  {
    forall i :: 2 <= i < |v| ==> DeltaOfDelta(v, i) != INT64_MIN
  }

  /** Each bucket's control code is its number of one bits followed by a zero. */
  lemma ControlImage(k: nat)
    requires k < 6
    ensures Controls[k] < Pow2(k + 1)
    ensures BitsOf(Controls[k], k + 1) == Ones(k) + [false]
  {
    Powers();
    var ones := Pow2(k) - 1;
    assert Controls[k] == 2 * ones;
    assert BitsOf(2 * ones, k + 1) == BitsOf(ones, k) + [false];
    OnesImage(k);
  }

  /** The k low-order bits of 2^k - 1 are all ones. */
  lemma {:induction false} OnesImage(k: nat)
    ensures BitsOf(Pow2(k) - 1, k) == Ones(k)
  {
    if k > 0 {
      OnesImage(k - 1);
      var x := Pow2(k) - 1;
      assert x / 2 == Pow2(k - 1) - 1 && x % 2 == 1;
      assert Ones(k) == Ones(k - 1) + [true];
    }
  }

  /** The writes for one delta of delta: control code, then sign bit and magnitude unless the bucket is 0. */
  function EncodeValue(w: Writer, dd: int): (r: Writer)
    requires w.Valid()
    ensures r.Valid()
  {
    var k := Classify(dd);
    var control := WriteBits(w, Controls[k], k + 1);
    if Widths[k] == 0 then control
    else Write64(WriteBits(control, if dd < 0 then 1 else 0, 1), Abs(dd), Widths[k])
  }

  /** Encoding one delta of delta appends its code to what was written. */
  lemma EncodeValueAppends(w: Writer, dd: int)
    requires w.Valid() && IsInt64(dd) && dd != INT64_MIN
    ensures EncodeValue(w, dd).Written() == w.Written() + ValueImage(dd)
  {
    hide EncodeValue, ValueImage, WriteBits, Write64, BitsOf, WindowBits, Pow2, Writer.Written, Classify;
    EncodeValueStep(w, dd);
    var k := Classify(dd);
    ControlImage(k);
    WriteBitsAppends(w, Controls[k], k + 1);
    var control := WriteBits(w, Controls[k], k + 1);
    if Widths[k] != 0 {
      MagnitudeAppends(control, dd);
      Assoc(w.Written(), Ones(k) + [false], [dd < 0] + WindowBits(Abs(dd), Widths[k], 0));
    }
  }

  /** The definitions of `EncodeValue` and `ValueImage`, bucket by bucket. */
  lemma EncodeValueStep(w: Writer, dd: int)
    requires w.Valid()
    ensures var k := Classify(dd);
      var control := WriteBits(w, Controls[k], k + 1);
      && (Widths[k] == 0 ==> EncodeValue(w, dd) == control && ValueImage(dd) == Ones(k) + [false])
      && (Widths[k] != 0 ==>
            && EncodeValue(w, dd) == Write64(WriteBits(control, if dd < 0 then 1 else 0, 1), Abs(dd), Widths[k])
            && ValueImage(dd) == Ones(k) + [false] + ([dd < 0] + WindowBits(Abs(dd), Widths[k], 0)))
  {
  }

  /** (a + b) + c == a + (b + c). */
  lemma Assoc(a: seq<bool>, b: seq<bool>, c: seq<bool>)
    ensures a + b + c == a + (b + c)
  {
  }

  /** The sign bit and the magnitude of a delta of delta from a bucket with a width. */
  lemma MagnitudeAppends(w: Writer, dd: int)
    requires w.Valid() && IsInt64(dd) && dd != INT64_MIN && Widths[Classify(dd)] != 0
    ensures var width := Widths[Classify(dd)];
      Write64(WriteBits(w, if dd < 0 then 1 else 0, 1), Abs(dd), width).Written()
      == w.Written() + ([dd < 0] + WindowBits(Abs(dd), width, 0))
  {
    var width := Widths[Classify(dd)];
    ClassifyFits(dd);
    var sign: byte := if dd < 0 then 1 else 0;
    SignBit(sign);
    hide WriteBits, Write64, BitsOf, WindowBits, Pow2, Classify;
    WriteBitsAppends(w, sign, 1);
    var signed := WriteBits(w, sign, 1);
    Write64Appends(signed, Abs(dd), width);
    Assoc(w.Written(), [dd < 0], WindowBits(Abs(dd), width, 0));
  }

  /** A sign bit is written as itself. */
  lemma SignBit(b: byte)
    requires b < 2
    ensures b < Pow2(1) && BitsOf(b, 1) == [b == 1]
  {
  }

  /** The encoder's main loop, from position i to the end. */
  function EncodeLoop(w: Writer, v: seq<u64>, i: nat): (r: Writer)
    requires w.Valid() && 2 <= i <= |v|
    ensures r.Valid()
    decreases |v| - i
  {
    if i == |v| then w else EncodeLoop(EncodeValue(w, DeltaOfDelta(v, i)), v, i + 1)
  }

  /** The main loop appends the codes of all remaining deltas of delta. */
  lemma {:induction false} EncodeLoopAppends(w: Writer, v: seq<u64>, i: nat)
    requires w.Valid() && 2 <= i <= |v| && NoMinDelta(v)
    ensures EncodeLoop(w, v, i).Written() == w.Written() + PayloadImage(v, i)
    decreases |v| - i
  {
    hide EncodeLoop, EncodeValue, ValueImage, PayloadImage, Writer.Written, DeltaOfDelta;
    EncodeLoopStep(w, v, i);
    if i < |v| {
      var dd := DeltaOfDelta(v, i);
      EncodeValueAppends(w, dd);
      var next := EncodeValue(w, dd);
      EncodeLoopAppends(next, v, i + 1);
      Assoc(w.Written(), ValueImage(dd), PayloadImage(v, i + 1));
    }
  }

  /** One step of the main loop and of its image. */
  lemma EncodeLoopStep(w: Writer, v: seq<u64>, i: nat)
    requires w.Valid() && 2 <= i <= |v|
    ensures i == |v| ==> EncodeLoop(w, v, i) == w && PayloadImage(v, i) == []
    ensures i < |v| ==>
      && EncodeLoop(w, v, i) == EncodeLoop(EncodeValue(w, DeltaOfDelta(v, i)), v, i + 1)
      && PayloadImage(v, i) == ValueImage(DeltaOfDelta(v, i)) + PayloadImage(v, i + 1)
  {
  }

  /** The payload: the bit stream of all deltas of delta, flushed to whole bytes. */
  function Payload(v: seq<u64>): seq<byte>
    requires |v| >= 2
  {
    Flush(EncodeLoop(NewWriter(), v, 2)).out
  }

  /**
   The payload is the codes of the deltas of delta from position 2 on,
   padded with fewer than 8 zero bits to a whole number of bytes.
   */
  lemma PayloadLayout(v: seq<u64>)
    requires |v| >= 2 && NoMinDelta(v)
    ensures var bits := PayloadImage(v, 2);
      && |bits| <= 8 * |Payload(v)| < |bits| + 8
      && Flatten(Payload(v)) == bits + Zeros(8 * |Payload(v)| - |bits|)
  {
    hide EncodeLoop, PayloadImage, BitsOf, Flatten, Shr, Low, Writer.Written, Zeros, NewWriter;
    var bits := PayloadImage(v, 2);
    var w := EncodeLoop(NewWriter(), v, 2);
    EncodeLoopAppends(NewWriter(), v, 2);
    var p := if w.remaining == 8 then 0 else w.remaining;
    assert Flatten(Flush(w).out) == bits + Zeros(p) by {
      if w.remaining == 8 {
        ZerosEmpty();
      }
    }
    assert 8 * |Payload(v)| == |bits| + p;
  }

  /** A buffer whose bits are the payload image padded with fewer than 8 zero bits is the payload. */
  lemma PayloadOf(v: seq<u64>, payload: seq<byte>, pad: nat)
    requires |v| >= 2 && NoMinDelta(v) && pad < 8
    requires Flatten(payload) == PayloadImage(v, 2) + Zeros(pad)
    ensures Payload(v) == payload
  {
    hide EncodeLoop, PayloadImage, BitsOf, Flatten, Zeros, Payload;
    PayloadLayout(v);
    FlattenInjective(Payload(v), payload);
  }

  lemma ZerosEmpty()
    ensures forall s: seq<bool> :: s + Zeros(0) == s
  {
  }

  /**
   Encodes `v`: header, count field of the narrowest of 1, 2 or 3 bytes, the
   first value, the first delta, and the payload; `SizeOverflow` when the
   count does not fit 3 bytes.
   */
  function Encode(v: seq<u64>): (res: Result<seq<byte>>)
    requires |v| >= 2
    ensures res.Ok? <==> |v| <= Header.MaxCount
    ensures res.Err? ==> res.error == SizeOverflow
    ensures res.Ok? ==> |res.value| == 1 + Header.CountWidth(|v|) + 16 + |Payload(v)|
  {
    if |v| > Header.MaxCount then Err(SizeOverflow)
    else
      var c := Header.CountWidth(|v|);
      Ok([Header.Make(c)] + LE(|v|, c) + LE(v[0], 8) + LE(Wrap(v[1] as int - v[0] as int), 8) + Payload(v))
  }
}
