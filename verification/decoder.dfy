/**
 The integer decoder: header checks, count field, the first value and the
 first delta, then one control code (and sign and magnitude) per further
 value. `last` and `delta` are `int64_t` in C and add up with signed
 overflow; here they are their bit patterns and add up modulo 2^64.
 */
module Decoder {
  import opened Bits
  import opened Results
  import opened BitStream
  import opened BitStream64
  import opened LittleEndian
  import opened DoubleDelta
  import Header
  import Encoder

  /**
   Reads a control code one bit at a time; k one bits have been read so far.
   Returns the bucket (the number of one bits before the first zero), or
   `BadControl` after six one bits.
   */
  function ReadControl(r: Reader, k: nat): (res: Result<(nat, Reader)>)
    requires r.Valid() && k <= 6
    ensures res.Ok? ==> k <= res.value.0 < 6 && res.value.1.Valid() && res.value.1.buf == r.buf
    decreases 6 - k
  {
    if k == 6 then Err(BadControl)
    else
      var control :- ReadBits(r, 1);
      if Low(control.0, 1) == 1 then ReadControl(control.1, k + 1)
      else Ok((k, control.1))
  }

  /** One step of `ReadControl`. */
  lemma ReadControlStep(r: Reader, k: nat)
    requires r.Valid() && k < 6 && ReadBits(r, 1).Ok?
    ensures var control := ReadBits(r, 1).value;
      ReadControl(r, k) == if Low(control.0, 1) == 1 then ReadControl(control.1, k + 1) else Ok((k, control.1))
  {
  }

  /** A single bit read is the bit list of its own value. */
  lemma OneBit(r: Reader)
    requires r.Valid() && ReadBits(r, 1).Ok?
    ensures r.Unread() == [Low(ReadBits(r, 1).value.0, 1) == 1] + ReadBits(r, 1).value.1.Unread()
  {
    hide Or, Shl, Shr, Flatten, U8, ReadBits, Reader.Unread;
    ReadBitsMeaning(r, 1);
    var b := ReadBits(r, 1).value.0;
    assert b < 2 by {
      assert Pow2(1) == 2;
    }
    assert BitsOf(b, 1) == [Low(b, 1) == 1];
  }

  /** Reading a control code takes exactly the bits of that code. */
  lemma {:induction false} ReadControlMeaning(r: Reader, k: nat)
    requires r.Valid() && k <= 6 && ReadControl(r, k).Ok?
    ensures var (bucket, next) := ReadControl(r, k).value;
      r.Unread() == Encoder.Ones(bucket - k) + [false] + next.Unread()
    decreases 6 - k
  {
    hide Reader.Unread, BitsOf, Low, ReadBits, ReadControl, Encoder.Ones;
    ReadControlFirst(r, k);
    ReadControlStep(r, k);
    OneBit(r);
    var control := ReadBits(r, 1).value;
    if Low(control.0, 1) == 1 {
      ReadControlMeaning(control.1, k + 1);
      OnesCons(ReadControl(r, k).value.0 - k);
    } else {
      OnesCons(0);
    }
  }

  /** A control code that reads back has a first bit, read before the sixth one bit. */
  lemma ReadControlFirst(r: Reader, k: nat)
    requires r.Valid() && k <= 6 && ReadControl(r, k).Ok?
    ensures k < 6 && ReadBits(r, 1).Ok?
  {
  }

  lemma OnesCons(n: nat)
    ensures n > 0 ==> Encoder.Ones(n) == [true] + Encoder.Ones(n - 1)
    ensures n == 0 ==> Encoder.Ones(n) == []
  {
  }

  /** Where a control code was written, reading one takes it and returns its bucket. */
  lemma {:induction false} ReadControlAfterWrite(r: Reader, bucket: nat, k: nat, tail: seq<bool>)
    requires r.Valid() && k <= bucket < 6
    requires r.Unread() == Encoder.Ones(bucket - k) + [false] + tail
    ensures ReadControl(r, k).Ok?
    ensures ReadControl(r, k).value.0 == bucket && ReadControl(r, k).value.1.Unread() == tail
    decreases 6 - k
  {
    hide Reader.Unread, BitsOf, Low, ReadBits, ReadControl, Encoder.Ones;
    var bit := if k < bucket then 1 else 0;
    var rest := if k < bucket then Encoder.Ones(bucket - k - 1) + [false] + tail else tail;
    OnesCons(bucket - k);
    assert r.Unread() == [bit == 1] + rest;
    assert r.Unread() == BitsOf(bit, 1) + rest by {
      SingleBit(bit);
    }
    ReadBitsAfterWrite(r, bit, 1, rest);
    ReadControlStep(r, k);
    var control := ReadBits(r, 1).value;
    SingleBit(bit);
    if k < bucket {
      ReadControlAfterWrite(control.1, bucket, k + 1, tail);
    }
  }

  /** A bit value below 2 is its own one-bit list, and its own low bit. */
  lemma SingleBit(b: nat)
    requires b < 2
    ensures b < Pow2(1) && BitsOf(b, 1) == [b == 1] && Low(b, 1) == b
  {
  }

  /**
   Reads the code of one delta of delta: a control code, then, unless its
   bucket has width 0, a sign bit and a magnitude of the bucket's width.
   */
  function ReadDelta(r: Reader): (res: Result<(int, Reader)>)
    requires r.Valid()
    ensures res.Ok? ==> res.value.1.Valid() && res.value.1.buf == r.buf
  {
    var control :- ReadControl(r, 0);
    var width := Widths[control.0];
    if width == 0 then Ok((0, control.1))
    else
      var sign :- ReadBits(control.1, 1);
      var magnitude :- Read64(sign.1, width);
      Ok((if sign.0 != 0 then -(magnitude.0 as int) else magnitude.0 as int, magnitude.1))
  }

  /** Where the code of a delta of delta was written, `ReadDelta` returns it and leaves what follows. */
  lemma ReadDeltaAfterWrite(r: Reader, dd: int, tail: seq<bool>)
    requires r.Valid() && IsInt64(dd) && dd != INT64_MIN
    requires r.Unread() == Encoder.ValueImage(dd) + tail
    ensures ReadDelta(r).Ok? && ReadDelta(r).value.0 == dd && ReadDelta(r).value.1.Unread() == tail
  {
    hide Or, Shl, Shr, Low, Pow2, BitsOf, Flatten, U8, ReadBits, Read64, ReadControl, Reader.Unread, WindowBits;
    var k := Classify(dd);
    var width := Widths[k];
    ClassifyFits(dd);
    var body := if width == 0 then [] else [dd < 0] + WindowBits(Abs(dd), width, 0);
    assert r.Unread() == Encoder.Ones(k) + [false] + (body + tail);
    ReadControlAfterWrite(r, k, 0, body + tail);
    var control := ReadControl(r, 0).value;
    if width != 0 {
      var sign := if dd < 0 then 1 else 0;
      SingleBit(sign);
      ReadBitsAfterWrite(control.1, sign, 1, WindowBits(Abs(dd), width, 0) + tail);
      var signed := ReadBits(control.1, 1).value;
      assert width <= 64;
      Read64AfterWrite(signed.1, Abs(dd), width, tail);
    }
  }

  /** The decoder's main loop: values at positions i and onwards, appended to `acc`. */
  function DecodeLoop(r: Reader, count: nat, i: nat, last: u64, delta: u64, acc: seq<u64>): (res: Result<seq<u64>>)
    requires r.Valid() && i <= count
    ensures res.Ok? ==> |res.value| == |acc| + (count - i)
    decreases count - i
  {
    if i >= count then Ok(acc)
    else
      var dd :- ReadDelta(r);
      var delta' := Wrap(delta as int + dd.0);
      var value := Wrap(last as int + delta' as int);
      DecodeLoop(dd.1, count, i + 1, value, delta', acc + [value])
  }

  /** The loop only appends: what was gathered before it is still at the front of its result. */
  lemma {:induction false} DecodeLoopKeeps(r: Reader, count: nat, i: nat, last: u64, delta: u64, acc: seq<u64>)
    requires r.Valid() && i <= count
    ensures var res := DecodeLoop(r, count, i, last, delta, acc);
      res.Ok? ==> res.value[..|acc|] == acc
    decreases count - i
  {
    hide ReadDelta, Wrap, ReadControl, ReadBits, Read64;
    if i < count && ReadDelta(r).Ok? {
      var (dd, next) := ReadDelta(r).value;
      var delta' := Wrap(delta as int + dd);
      var value := Wrap(last as int + delta' as int);
      DecodeLoopStep(r, count, i, last, delta, acc);
      DecodeLoopKeeps(next, count, i + 1, value, delta', acc + [value]);
      var res := DecodeLoop(next, count, i + 1, value, delta', acc + [value]);
      if res.Ok? {
        assert res.value[..|acc|] == res.value[..|acc| + 1][..|acc|];
      }
    }
  }

  /** One step of `DecodeLoop` where a delta of delta reads back. */
  lemma DecodeLoopStep(r: Reader, count: nat, i: nat, last: u64, delta: u64, acc: seq<u64>)
    requires r.Valid() && i < count && ReadDelta(r).Ok?
    ensures var (dd, next) := ReadDelta(r).value;
      var delta' := Wrap(delta as int + dd);
      var value := Wrap(last as int + delta' as int);
      DecodeLoop(r, count, i, last, delta, acc) == DecodeLoop(next, count, i + 1, value, delta', acc + [value])
  {
    hide ReadDelta, Wrap, ReadControl, ReadBits, Read64;
  }

  /** `DecodeLoop` returns what it has gathered once all values are in. */
  lemma DecodeLoopDone(r: Reader, count: nat, last: u64, delta: u64, acc: seq<u64>)
    requires r.Valid()
    ensures DecodeLoop(r, count, count, last, delta, acc) == Ok(acc)
  {
  }

  /**
   Where the codes of the deltas of delta of v from position i on were
   written, the loop started from v[i - 1] and the delta v[i - 1] - v[i - 2]
   completes v[..i] to v.
   */
  lemma {:induction false} DecodeLoopAfterEncode(r: Reader, v: seq<u64>, i: nat, tail: seq<bool>)
    requires r.Valid() && 2 <= i <= |v| && Encoder.NoMinDelta(v)
    requires r.Unread() == Encoder.PayloadImage(v, i) + tail
    ensures DecodeLoop(r, |v|, i, v[i - 1], Wrap(v[i - 1] as int - v[i - 2] as int), v[..i]) == Ok(v)
    decreases |v| - i
  {
    hide DecodeLoop, ReadDelta, Wrap, Reader.Unread, Encoder.PayloadImage, Encoder.ValueImage, DeltaOfDelta;
    if i == |v| {
      DecodeLoopDone(r, |v|, v[i - 1], Wrap(v[i - 1] as int - v[i - 2] as int), v[..i]);
      assert v[..i] == v;
    } else {
      var dd := DeltaOfDelta(v, i);
      var rest := Encoder.PayloadImage(v, i + 1) + tail;
      PayloadImageCons(v, i);
      assert r.Unread() == Encoder.ValueImage(dd) + rest;
      ReadDeltaAfterWrite(r, dd, rest);
      DeltaOfDeltaInverts(v, i);
      DecodeLoopStep(r, |v|, i, v[i - 1], Wrap(v[i - 1] as int - v[i - 2] as int), v[..i]);
      assert v[..i] + [v[i]] == v[..i + 1];
      DecodeLoopAfterEncode(ReadDelta(r).value.1, v, i + 1, tail);
    }
  }

  /** The payload image from position i is the code at i followed by the image from i + 1. */
  lemma PayloadImageCons(v: seq<u64>, i: nat)
    requires 2 <= i < |v|
    ensures Encoder.PayloadImage(v, i) == Encoder.ValueImage(DeltaOfDelta(v, i)) + Encoder.PayloadImage(v, i + 1)
  {
  }

  /** The first 8-byte word at `offset`, as the `uint64_t` it encodes. */
  function Word(input: seq<byte>, offset: nat): (x: u64)
    requires offset + 8 <= |input|
    ensures LE(x, 8) == input[offset..offset + 8]
  {
    var bytes := input[offset..offset + 8];
    Powers();
    LEOfFromLE(bytes);
    FromLE(bytes)
  }

  /**
   Decodes a buffer: `FormatError` for a foreign header, `OutOfBounds` for a
   buffer too short for what it announces, `BadControl` for a control code
   of six one bits, `TooFewValues` for a count below 2.
   */
  function Decode(input: seq<byte>): (res: Result<seq<u64>>)
    ensures |input| > 0 && Header.Parse(input[0]).Err? ==> res == Err(FormatError)
    ensures res.Ok? ==> |input| > 0 && Header.Parse(input[0]).Ok? && |input| >= 1 + Header.Parse(input[0]).value + 16
    ensures res.Ok? ==> var c := Header.Parse(input[0]).value;
      |res.value| == FromLE(input[1..1 + c]) >= 2
  {
    hide DecodeBody;
    if |input| == 0 then Err(OutOfBounds)
    else match Header.Parse(input[0])
      case Err(_) => Err(FormatError)
      case Ok(c) =>
        if |input| < 1 + c + 16 then Err(OutOfBounds)
        else DecodeBody(input, c)
  }

  /**
   Decodes what follows a header announcing a `c`-byte count: `TooFewValues`
   for a count below 2, otherwise the first word, the first word plus the
   first delta, and what the main loop reads from the payload.
   */
  function DecodeBody(input: seq<byte>, c: nat): (res: Result<seq<u64>>)
    requires |input| >= 1 + c + 16
    ensures FromLE(input[1..1 + c]) < 2 ==> res == Err(TooFewValues)
    ensures res.Ok? ==> |res.value| == FromLE(input[1..1 + c]) >= 2
    ensures res.Ok? ==> res.value[0] == Word(input, 1 + c)
    ensures res.Ok? ==> res.value[1] == Wrap(res.value[0] as int + Word(input, 9 + c) as int)
  {
    hide DecodeLoop, Word, FromLE, Wrap, NewReader, LE, Flatten, Reader.Unread, ReadDelta;
    var count := FromLE(input[1..1 + c]);
    if count < 2 then Err(TooFewValues)
    else
      var first := Word(input, 1 + c);
      var delta := Word(input, 9 + c);
      var second := Wrap(first as int + delta as int);
      LoopStartsWith(NewReader(input[17 + c..]), count, first, delta);
      DecodeLoop(NewReader(input[17 + c..]), count, 2, second, delta, [first, second])
  }

  /**
   A decoded series opens with the first word after the count and with that
   word plus the second word, modulo 2^64.
   */
  lemma DecodeOpens(input: seq<byte>)
    requires Decode(input).Ok?
    ensures var c := Header.Parse(input[0]).value;
      && Decode(input).value[0] == Word(input, 1 + c)
      && Decode(input).value[1] == Wrap(Word(input, 1 + c) as int + Word(input, 9 + c) as int)
  {
    hide Word, Wrap, FromLE, DecodeBody;
  }

  /** Started from the first word and the first delta, the loop's result opens with the first two values. */
  lemma LoopStartsWith(r: Reader, count: nat, first: u64, delta: u64)
    requires r.Valid() && 2 <= count
    ensures var second := Wrap(first as int + delta as int);
      var res := DecodeLoop(r, count, 2, second, delta, [first, second]);
      res.Ok? ==> res.value[0] == first && res.value[1] == second
  {
    hide DecodeLoop;
    var second := Wrap(first as int + delta as int);
    DecodeLoopKeeps(r, count, 2, second, delta, [first, second]);
    var res := DecodeLoop(r, count, 2, second, delta, [first, second]);
    if res.Ok? {
      assert res.value[0] == res.value[..2][0];
      assert res.value[1] == res.value[..2][1];
    }
  }

  /** A buffer whose first byte is none of the three headers the encoder writes is refused as malformed. */
  lemma ForeignHeader(input: seq<byte>)
    requires |input| > 0 && input[0] != 0x11 && input[0] != 0x21 && input[0] != 0x31
    ensures Decode(input) == Err(FormatError)
  {
    hide Decode;
    if Header.Parse(input[0]).Ok? {
      Header.ParseFields(input[0]);
      assert false;
    }
  }

  /** A buffer whose header, count and two words are well formed decodes through the main loop. */
  lemma DecodeFrame(input: seq<byte>, c: nat, count: nat, first: u64, delta: u64)
    requires 1 <= c <= 3 && |input| >= 17 + c && Header.Parse(input[0]) == Ok(c)
    requires count == FromLE(input[1..1 + c]) && count >= 2
    requires first == Word(input, 1 + c) && delta == Word(input, 9 + c)
    ensures var second := Wrap(first as int + delta as int);
      Decode(input) == DecodeLoop(NewReader(input[17 + c..]), count, 2, second, delta, [first, second])
  {
    hide Header.Parse, FromLE, Word, Wrap, DecodeLoop, NewReader, Reader.Valid, Reader.Unread, LE, Flatten;
  }
}
