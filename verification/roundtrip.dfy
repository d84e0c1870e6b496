/**
 The codec's central promise: decoding what the encoder produced gives back
 the values it was given.
 */
module RoundTrip {
  import opened Bits
  import opened Results
  import opened BitStream
  import opened LittleEndian
  import opened DoubleDelta
  import Header
  import Encoder
  import Decoder

  /**
   The fields of an encoded buffer read back as what went into them: the
   header's count width, the count, the first value, the first delta and the
   payload.
   */
  lemma EncodedFields(v: seq<u64>)
    requires 2 <= |v| <= Header.MaxCount
    ensures var out := Encoder.Encode(v).value;
      var c := Header.CountWidth(|v|);
      && |out| >= 17 + c
      && Header.Parse(out[0]) == Ok(c)
      && FromLE(out[1..1 + c]) == |v|
      && Decoder.Word(out, 1 + c) == v[0]
      && Decoder.Word(out, 9 + c) == Wrap(v[1] as int - v[0] as int)
      && out[17 + c..] == Encoder.Payload(v)
  {
    var c := Header.CountWidth(|v|);
    var d1 := Wrap(v[1] as int - v[0] as int);
    hide Header.Parse, Header.Make, Header.CountWidth, LE, FromLE, Wrap, Encoder.Payload, Encoder.Encode, Decoder.Word;
    EncodeShape(v);
    var out := Encoder.Encode(v).value;
    Slices(Header.Make(c), LE(|v|, c), LE(v[0], 8), LE(d1, 8), Encoder.Payload(v));
    Header.ParseMake(c);
    FromLEOfLE(|v|, c);
    WordOfLE(out, 1 + c, v[0]);
    WordOfLE(out, 9 + c, d1);
  }

  /** What `Encode` puts together, for a series it accepts. */
  lemma EncodeShape(v: seq<u64>)
    requires 2 <= |v| <= Header.MaxCount
    ensures var c := Header.CountWidth(|v|);
      Encoder.Encode(v) == Ok([Header.Make(c)] + LE(|v|, c) + LE(v[0], 8) + LE(Wrap(v[1] as int - v[0] as int), 8) + Encoder.Payload(v))
  {
  }

  /** The parts of a header byte followed by four byte strings, by position. */
  lemma Slices(h: byte, a: seq<byte>, b: seq<byte>, d: seq<byte>, p: seq<byte>)
    requires |b| == 8 && |d| == 8
    ensures var s := [h] + a + b + d + p;
      && |s| == 17 + |a| + |p|
      && s[0] == h
      && s[1..1 + |a|] == a
      && s[1 + |a|..9 + |a|] == b
      && s[9 + |a|..17 + |a|] == d
      && s[17 + |a|..] == p
  {
  }

  /** An 8-byte little-endian word reads back as the value it was written from. */
  lemma WordOfLE(s: seq<byte>, offset: nat, x: u64)
    requires offset + 8 <= |s| && s[offset..offset + 8] == LE(x, 8)
    ensures Decoder.Word(s, offset) == x
  {
    Powers();
    FromLEOfLE(x, 8);
  }

  /**
   Every series of 2 to 0xFFFFFF values encodes, and decodes back to
   itself, unless some delta of delta is INT64_MIN.
   */
  lemma RoundTrip(v: seq<u64>)
    requires 2 <= |v| <= Header.MaxCount && Encoder.NoMinDelta(v)
    ensures Encoder.Encode(v).Ok?
    ensures Decoder.Decode(Encoder.Encode(v).value) == Ok(v)
  {
    hide Header.Parse, Header.CountWidth, LE, FromLE, Wrap, Encoder.Payload, Encoder.Encode;
    hide Decoder.DecodeLoop, Decoder.Decode, Decoder.Word, NewReader, Reader.Unread, Reader.Valid, Flatten, Header.Make;
    var c := Header.CountWidth(|v|);
    var d1 := Wrap(v[1] as int - v[0] as int);
    var out := Encoder.Encode(v).value;
    EncodedFields(v);
    Decoder.DecodeFrame(out, c, |v|, v[0], d1);
    DeltaUndo(v[0] as int, v[1]);
    PayloadDecodes(v);
    var second := Wrap(v[0] as int + d1 as int);
    assert second == v[1];
    assert [v[0], second] == v[..2];
    assert NewReader(out[17 + c..]) == NewReader(Encoder.Payload(v));
    assert Decoder.Decode(out) == Decoder.DecodeLoop(NewReader(Encoder.Payload(v)), |v|, 2, v[1], d1, v[..2]);
  }

  /** The payload, read from its first bit, decodes the values from position 2 on. */
  lemma PayloadDecodes(v: seq<u64>)
    requires 2 <= |v| && Encoder.NoMinDelta(v)
    ensures Decoder.DecodeLoop(NewReader(Encoder.Payload(v)), |v|, 2, v[1], Wrap(v[1] as int - v[0] as int), v[..2]) == Ok(v)
  {
    hide Wrap, Encoder.Payload, Encoder.PayloadImage, Decoder.DecodeLoop, Flatten, NewReader, Zeros, Reader.Unread;
    var payload := Encoder.Payload(v);
    var bits := Encoder.PayloadImage(v, 2);
    var flat := Flatten(payload);
    assert bits <= flat by {
      Encoder.PayloadLayout(v);
    }
    var tail := flat[|bits|..];
    assert flat == bits + tail;
    LoopFromStart(v, NewReader(payload), tail);
  }

  /** Where the payload image starts, the main loop decodes the values from position 2 on. */
  lemma LoopFromStart(v: seq<u64>, r: Reader, tail: seq<bool>)
    requires 2 <= |v| && Encoder.NoMinDelta(v)
    requires r.Valid() && r.Unread() == Encoder.PayloadImage(v, 2) + tail
    ensures Decoder.DecodeLoop(r, |v|, 2, v[1], Wrap(v[1] as int - v[0] as int), v[..2]) == Ok(v)
  {
    hide Wrap, Encoder.PayloadImage, Decoder.DecodeLoop, Reader.Unread;
    Decoder.DecodeLoopAfterEncode(r, v, 2, tail);
  }
}
