/**
 The bit cursor of src/encode.c (`BitStream`): it writes and reads a byte
 buffer at bit granularity, most significant bit first within each byte,
 through one staging byte and a count of the bits still free (or still
 unread) in it.

 The C struct serves both directions; reading never touches the staging
 byte, so the model has one datatype per direction. The writer's buffer is a
 freshly built sequence (no capacity), and the reader fails with
 `OutOfBounds` where the C code would read past the end of its buffer. Bit
 counts are `uint8_t` in C; they stay within [0, 8] (within [0, 64] for the
 64-bit calls), so their arithmetic never wraps and they are naturals here.
 */
module BitStream {
  import opened Bits
  import opened Results

  // ---------------------------------------------------------------------
  // Writing

  /** Writing side: flushed bytes, staging byte, free low-order bits of the staging byte. */
  datatype Writer = Writer(out: seq<byte>, bits: byte, remaining: nat) {

    /** The free low-order bits of the staging byte are zero; `remaining` may be 0 just before a flush. */
    predicate Staged() {
      remaining <= 8 && Low(bits, remaining) == 0
    }

    /** The state between two calls: `remaining` in (0, 8]. */
    predicate Valid() {
      Staged() && remaining > 0
    }

    /** Every bit written so far: the flushed bytes, then the used high bits of the staging byte. */
    function Written(): seq<bool>
      requires remaining <= 8
    {
      Flatten(out) + BitsOf(Shr(bits, remaining), 8 - remaining)
    }
  }

  /** `bitstream_create` for writing: nothing written, staging byte empty. */
  function NewWriter(): (w: Writer)
    ensures w.Valid() && w.Written() == [] && w.remaining == 8
  {
    Writer([], 0, 8)
  }

  /** A staged byte is its used high bits followed by `rem` zero bits. */
  lemma StagedImage(bits: byte, rem: nat)
    requires rem <= 8 && Low(bits, rem) == 0
    ensures ByteBits(bits) == BitsOf(Shr(bits, rem), 8 - rem) + Zeros(rem)
  {
    Decompose(bits, rem);
    BitsOfConcat(Shr(bits, rem), 0, 8 - rem, rem);
    BitsOfZero(rem);
  }

  /**
   `bitstream_flush`: a no-op when the staging byte is empty; otherwise the
   staging byte goes out and the staging state is reset. Of a staged writer
   it puts out exactly the bits written so far, padded with zero bits to a
   whole byte, and leaves nothing pending.
   */
  function Flush(w: Writer): (r: Writer)
    ensures w.remaining == 8 ==> r == w
    ensures w.remaining < 8 ==> r == Writer(w.out + [w.bits], 0, 8)
    ensures w.Staged() ==> r.Valid() && r.remaining == 8 && r.Written() == Flatten(r.out)
    ensures w.Staged() && w.remaining < 8 ==>
      Flatten(r.out) == w.Written() + Zeros(w.remaining) && |r.out| == |w.out| + 1
  {
    hide Or, Shl, Shr, Low, Pow2, BitsOf, Flatten, U8;
    LowZero(8);
    if w.remaining == 8 then w
    else
      var r := Writer(w.out + [w.bits], 0, 8);
      assert w.Staged() ==> Flatten(r.out) == w.Written() + Zeros(w.remaining) by {
        if w.Staged() {
          FlattenSnoc(w.out, w.bits);
          StagedImage(w.bits, w.remaining);
        }
      }
      r
  }

  /** Flushing is idempotent, and of a writer with nothing pending it changes nothing. */
  lemma FlushIdempotent(w: Writer)
    requires w.Staged()
    ensures Flush(Flush(w)) == Flush(w)
    ensures w.Written() == Flatten(w.out) ==> Flush(w) == w
  {
    if w.remaining < 8 {
      assert |w.Written()| > |Flatten(w.out)|;
    }
  }

  /** The path of write_bit_n that fits leaves a staged byte with `rem - n` free bits. */
  lemma FitsStaged(bits: byte, rem: nat, x: byte, n: nat)
    requires n <= rem <= 8 && Low(bits, rem) == 0
    ensures Or(bits, Shl(Low(x, n), rem - n)) < 256
    ensures Low(Or(bits, Shl(Low(x, n), rem - n)), rem - n) == 0
  {
    hide Or, Shl, Shr, Low, Pow2, BitsOf, Flatten, U8;
    var r, z, hi := rem - n, Low(x, n), Shr(bits, rem);
    FitsValue(bits, rem, x, n);
    FitsBound(hi, z, 8 - rem, n, r);
    Powers();
    ShlLow(Shl(hi, n) + z, r);
  }

  /** The or of write_bit_n's path that fits is a concatenation: the pending bits, then the n new ones. */
  lemma FitsValue(bits: byte, rem: nat, x: byte, n: nat)
    requires n <= rem <= 8 && Low(bits, rem) == 0
    ensures Or(bits, Shl(Low(x, n), rem - n)) == Shl(Shl(Shr(bits, rem), n) + Low(x, n), rem - n)
    ensures Shr(bits, rem) < Pow2(8 - rem)
  {
    hide Or, Shl, Shr, Low, Pow2;
    StagedSplit(bits, rem);
    FitsSum(Shr(bits, rem), Low(x, n), n, rem - n);
  }

  /** After the path of write_bit_n that fits, the pending bits are the old ones followed by the n new ones. */
  lemma FitsImage(bits: byte, rem: nat, x: byte, n: nat)
    requires n <= rem <= 8 && Low(bits, rem) == 0
    ensures var s := Or(bits, Shl(Low(x, n), rem - n));
      BitsOf(Shr(s, rem - n), 8 - (rem - n)) == BitsOf(Shr(bits, rem), 8 - rem) + BitsOf(x, n)
  {
    hide Or, Shl, Shr, Low, Pow2, BitsOf, Flatten, U8;
    var r, z, hi := rem - n, Low(x, n), Shr(bits, rem);
    FitsValue(bits, rem, x, n);
    ShrShl(Shl(hi, n) + z, 0, r);
    BitsOfConcat(hi, z, 8 - rem, n);
    BitsOfLow(x, n);
  }

  lemma StagedSplit(bits: byte, rem: nat)
    requires rem <= 8 && Low(bits, rem) == 0
    ensures bits == Shl(Shr(bits, rem), rem) && Shr(bits, rem) < Pow2(8 - rem)
  {
    Decompose(bits, rem);
    ShrBound(bits, 8 - rem, rem);
  }

  lemma FitsSum(hi: nat, z: nat, n: nat, r: nat)
    requires z < Pow2(n)
    ensures Or(Shl(hi, n + r), Shl(z, r)) == Shl(Shl(hi, n) + z, r)
  {
    ShlShl(hi, n, r);
    LowShl(z, r, n);
    LowSmall(z, n);
    ShlLow(hi, n + r);
    OrAdd(Shl(hi, n + r), Shl(z, r), n + r);
    ShlAdd(Shl(hi, n), z, r);
  }

  lemma FitsBound(hi: nat, z: nat, k: nat, n: nat, r: nat)
    requires hi < Pow2(k) && z < Pow2(n)
    ensures Shl(Shl(hi, n) + z, r) < Pow2(k + n + r)
  {
    ConcatBound(hi, z, k, n);
    ConcatBound(Shl(hi, n) + z, 0, k + n, r);
  }

  /** In the split path of write_bit_n the high part of x completes the staging byte. */
  lemma SplitHead(bits: byte, rem: nat, x: byte, n: nat)
    requires 0 < rem < n <= 8 && Low(bits, rem) == 0 && x < Pow2(n)
    ensures Or(bits, Shr(x, n - rem)) < 256
    ensures ByteBits(Or(bits, Shr(x, n - rem))) == BitsOf(Shr(bits, rem), 8 - rem) + BitsOf(Shr(x, n - rem), rem)
  {
    var part := n - rem;
    var hi, b1 := Shr(bits, rem), Shr(x, part);
    StagedSplit(bits, rem);
    ShrBound(x, rem, part);
    OrAdd(bits, b1, rem);
    ConcatBound(hi, b1, 8 - rem, rem);
    BitsOfConcat(hi, b1, 8 - rem, rem);
  }

  /** The or of the split path of write_bit_n stays a byte, whatever x holds above its n low bits. */
  lemma SplitByte(bits: byte, x: byte, part: nat)
    ensures Or(bits, Shr(x, part)) < 256
  {
    Powers();
    Pow2Mono(8, 8 + part);
    ShrBound(x, 8, part);
    OrBound(bits, Shr(x, part), 8);
  }

  /** The low `part` bits of x, moved to the top of a byte, leave a staged byte whose pending bits are exactly them. */
  lemma SplitTail(x: byte, part: nat)
    requires 0 < part <= 8
    ensures var b2 := U8(Shl(x, 8 - part));
      Low(b2, 8 - part) == 0 && BitsOf(Shr(b2, 8 - part), part) == BitsOf(x, part)
  {
    LowShl(x, 8 - part, part);
    ShlLow(Low(x, part), 8 - part);
    ShrShl(Low(x, part), 0, 8 - part);
    BitsOfLow(x, part);
  }

  /**
   `bitstream_write_bit_n`: writes the n low-order bits of x (n in [0, 8])
   MSB first. When n exceeds the free bits, the high part completes and
   flushes the staging byte and the low part starts the next one. Only the
   path that fits masks x; WriteBitsAppends states what is appended when x
   has no bit above the n low ones.
   */
  function WriteBits(w: Writer, x: byte, n: nat): (r: Writer)
    requires w.Valid() && n <= 8
    ensures r.Valid()
    ensures |w.out| <= |r.out| <= |w.out| + 1
  {
    hide Or, Shl, Shr, Low, Pow2, BitsOf, Flatten, U8;
    if w.remaining >= n then
      var remaining := w.remaining - n;
      FitsStaged(w.bits, w.remaining, x, n);
      var staged := Writer(w.out, Or(w.bits, Shl(Low(x, n), remaining)), remaining);
      if remaining == 0 then Flush(staged) else staged
    else
      var part := n - w.remaining;
      SplitByte(w.bits, x, part);
      var flushed := Flush(Writer(w.out, Or(w.bits, Shr(x, part)), w.remaining));
      SplitTail(x, part);
      Writer(flushed.out, U8(Shl(x, 8 - part)), flushed.remaining - part)
  }

  /** A write of a value that fits in n bits appends exactly its n-bit image. */
  lemma WriteBitsAppends(w: Writer, x: byte, n: nat)
    requires w.Valid() && n <= 8 && x < Pow2(n)
    ensures WriteBits(w, x, n).Written() == w.Written() + BitsOf(x, n)
  {
    hide Or, Shl, Shr, Low, Pow2, BitsOf, Flatten, U8, WriteBits, Writer.Written;
    if w.remaining >= n {
      FitsAppends(w, x, n);
    } else {
      SplitAppends(w, x, n);
    }
  }

  /** The path of write_bit_n where the n bits fit in the staging byte. */
  lemma FitsAppends(w: Writer, x: byte, n: nat)
    requires w.Valid() && n <= w.remaining && x < Pow2(n)
    ensures WriteBits(w, x, n).Written() == w.Written() + BitsOf(x, n)
  {
    hide Or, Shl, Shr, Low, Pow2, BitsOf, Flatten, U8;
    FitsStaged(w.bits, w.remaining, x, n);
    FitsImage(w.bits, w.remaining, x, n);
  }

  /** The path of write_bit_n where the n bits straddle the staging byte and the next one. */
  lemma SplitAppends(w: Writer, x: byte, n: nat)
    requires w.Valid() && w.remaining < n <= 8 && x < Pow2(n)
    ensures WriteBits(w, x, n).Written() == w.Written() + BitsOf(x, n)
  {
    hide Or, Shl, Shr, Low, Pow2, BitsOf, Flatten, U8;
    var part := n - w.remaining;
    SplitHead(w.bits, w.remaining, x, n);
    SplitTail(x, part);
    BitsOfSplit(x, w.remaining, part);
    FlattenSnoc(w.out, Or(w.bits, Shr(x, part)));
  }

  // ---------------------------------------------------------------------
  // Reading

  /** Reading side: the source bytes, the current byte, and its bits not yet read. */
  datatype Reader = Reader(buf: seq<byte>, offset: nat, remaining: nat) {

    /** `remaining` in [1, 8]; the cursor is on a byte of the buffer or just past its end. */
    predicate Valid() {
      1 <= remaining <= 8 && (offset < |buf| || (offset == |buf| && remaining == 8))
    }

    /** The bits not read yet: the low `remaining` bits of the current byte, then the later bytes. */
    function Unread(): seq<bool>
      requires Valid()
    {
      if offset == |buf| then [] else BitsOf(buf[offset], remaining) + Flatten(buf[offset + 1..])
    }
  }

  /** The number of bits left: the rest of the current byte and 8 for each later byte. */
  lemma UnreadLength(r: Reader)
    requires r.Valid()
    ensures |r.Unread()| == if r.offset == |r.buf| then 0 else r.remaining + 8 * (|r.buf| - r.offset - 1)
  {
  }

  /** `bitstream_create` for reading: positioned on the first bit of `buf`. */
  function NewReader(buf: seq<byte>): (r: Reader)
    ensures r.Valid() && r.Unread() == Flatten(buf)
  {
    AtByte(buf, 0);
    assert buf[0..] == buf;
    Reader(buf, 0, 8)
  }

  /** Moving to the start of byte i leaves the bytes from i on unread. */
  lemma AtByte(buf: seq<byte>, i: nat)
    requires i <= |buf|
    ensures Reader(buf, i, 8).Valid() && Reader(buf, i, 8).Unread() == Flatten(buf[i..])
  {
    if i < |buf| {
      FlattenCons(buf, i);
    }
  }

  /** A read that stays within the current byte takes its n highest unread bits. */
  lemma ReadFitsImage(b: byte, rem: nat, n: nat)
    requires n <= rem
    ensures BitsOf(b, rem) == BitsOf(Low(Shr(b, rem - n), n), n) + BitsOf(b, rem - n)
  {
    BitsOfSplit(b, n, rem - n);
    BitsOfLow(Shr(b, rem - n), n);
  }

  /** In a read that crosses a byte boundary the shift, the truncation to a byte and the or are a concatenation. */
  lemma ReadSplitValue(b0: byte, b1: byte, rem: nat, n: nat)
    requires 1 <= rem < n <= 8
    ensures var part := n - rem;
      var hi := Low(b0, rem);
      var lo := Low(Shr(b1, 8 - part), part);
      && U8(Shl(hi, part)) == Shl(hi, part)
      && Or(U8(Shl(hi, part)), lo) == Shl(hi, part) + lo
      && Shl(hi, part) + lo < Pow2(n)
  {
    var part := n - rem;
    var hi := Low(b0, rem);
    var lo := Low(Shr(b1, 8 - part), part);
    ConcatBound(hi, 0, rem, part);
    Pow2Mono(n, 8);
    Powers();
    LowSmall(Shl(hi, part), 8);
    ShlLow(hi, part);
    OrAdd(Shl(hi, part), lo, part);
    ConcatBound(hi, lo, rem, part);
  }

  /** A read that crosses a byte boundary takes the rest of the current byte, then the head of the next one. */
  lemma ReadSplitImage(b0: byte, b1: byte, rem: nat, n: nat)
    requires 1 <= rem < n <= 8
    ensures var part := n - rem;
      BitsOf(b0, rem) + ByteBits(b1)
      == BitsOf(Shl(Low(b0, rem), part) + Low(Shr(b1, 8 - part), part), n) + BitsOf(b1, 8 - part)
  {
    var part := n - rem;
    var hi, lo := Low(b0, rem), Low(Shr(b1, 8 - part), part);
    BitsOfConcat(hi, lo, rem, part);
    BitsOfLow(b0, rem);
    BitsOfLow(Shr(b1, 8 - part), part);
    BitsOfSplit(b1, part, 8 - part);
  }

  /**
   `bitstream_read_bit_n`: reads n bits (n in [0, 8]) MSB first, across a
   byte boundary when the current byte holds fewer than n unread bits. A
   read of 0 bits returns 0 and leaves the cursor where it is. Fails with
   `OutOfBounds` exactly when fewer than n bits are left.
   */
  function ReadBits(r: Reader, n: nat): (res: Result<(byte, Reader)>)
    requires r.Valid() && n <= 8
    ensures res.Ok? <==> n <= |r.Unread()|
    ensures res.Ok? ==> res.value.0 < Pow2(n) && res.value.1.Valid() && res.value.1.buf == r.buf
    ensures n == 0 ==> res == Ok((0, r))
  {
    hide Pow2, Reader.Unread;
    UnreadLength(r);
    if n == 0 then Ok((0, r))
    else if r.remaining >= n then
      if r.offset == |r.buf| then Err(OutOfBounds) else Ok(ReadFits(r, n))
    else if r.offset + 1 >= |r.buf| then Err(OutOfBounds)
    else Ok(ReadSplit(r, n))
  }

  /** The path of read_bit_n that stays within the current byte: its n highest unread bits. */
  function ReadFits(r: Reader, n: nat): (res: (byte, Reader))
    requires r.Valid() && 1 <= n <= r.remaining && r.offset < |r.buf|
    ensures res.0 < Pow2(n) && res.1.Valid() && res.1.buf == r.buf
  {
    hide Or, Shl, Shr, Low, Pow2, BitsOf, Flatten, U8, Reader.Unread;
    var remaining := r.remaining - n;
    var v := Low(Shr(r.buf[r.offset], remaining), n);
    Pow2Mono(n, 8);
    Powers();
    if remaining == 0 then (v, Reader(r.buf, r.offset + 1, 8))
    else (v, Reader(r.buf, r.offset, remaining))
  }

  /**
   The path of read_bit_n that crosses a byte boundary: the rest of the
   current byte, shifted up and truncated to a byte, or-ed with the top
   `part` bits of the next one.
   */
  function ReadSplit(r: Reader, n: nat): (res: (byte, Reader))
    requires r.Valid() && r.remaining < n <= 8 && r.offset + 1 < |r.buf|
    ensures res.0 < Pow2(n) && res.1.Valid() && res.1.buf == r.buf
  {
    hide Or, Shl, Shr, Low, Pow2, BitsOf, Flatten, U8, Reader.Unread;
    var part := n - r.remaining;
    var b0, b1 := r.buf[r.offset], r.buf[r.offset + 1];
    var hi := U8(Shl(Low(b0, r.remaining), part));
    var lo := Low(Shr(b1, 8 - part), part);
    ReadSplitValue(b0, b1, r.remaining, n);
    Pow2Mono(n, 8);
    Powers();
    (Or(hi, lo), Reader(r.buf, r.offset + 1, 8 - part))
  }

  /** The path of read_bit_n that stays within the current byte. */
  lemma ReadFitsMeaning(r: Reader, n: nat)
    requires r.Valid() && 1 <= n <= r.remaining && r.offset < |r.buf|
    ensures var rem := r.remaining - n;
      var next := if rem == 0 then Reader(r.buf, r.offset + 1, 8) else Reader(r.buf, r.offset, rem);
      && next.Valid()
      && r.Unread() == BitsOf(Low(Shr(r.buf[r.offset], rem), n), n) + next.Unread()
  {
    hide Or, Shl, Shr, Low, Pow2, BitsOf, Flatten, U8;
    var b, rem := r.buf[r.offset], r.remaining - n;
    var rest := Flatten(r.buf[r.offset + 1..]);
    ReadFitsImage(b, r.remaining, n);
    if rem == 0 {
      AtByte(r.buf, r.offset + 1);
      assert |BitsOf(b, 0)| == 0;
    }
    calc {
      r.Unread();
      BitsOf(b, r.remaining) + rest;
      (BitsOf(Low(Shr(b, rem), n), n) + BitsOf(b, rem)) + rest;
      BitsOf(Low(Shr(b, rem), n), n) + (BitsOf(b, rem) + rest);
    }
  }

  /** The path of read_bit_n that crosses into the next byte. */
  lemma ReadSplitMeaning(r: Reader, n: nat)
    requires r.Valid() && r.remaining < n <= 8 && r.offset + 1 < |r.buf|
    ensures var part := n - r.remaining;
      var v := Shl(Low(r.buf[r.offset], r.remaining), part) + Low(Shr(r.buf[r.offset + 1], 8 - part), part);
      r.Unread() == BitsOf(v, n) + Reader(r.buf, r.offset + 1, 8 - part).Unread()
  {
    hide Or, Shl, Shr, Low, Pow2, BitsOf, Flatten, U8;
    var part := n - r.remaining;
    var b0, b1, rest := r.buf[r.offset], r.buf[r.offset + 1], Flatten(r.buf[r.offset + 2..]);
    var v := Shl(Low(b0, r.remaining), part) + Low(Shr(b1, 8 - part), part);
    ReadSplitImage(b0, b1, r.remaining, n);
    FlattenCons(r.buf, r.offset + 1);
    calc {
      r.Unread();
      BitsOf(b0, r.remaining) + (ByteBits(b1) + rest);
      (BitsOf(b0, r.remaining) + ByteBits(b1)) + rest;
      (BitsOf(v, n) + BitsOf(b1, 8 - part)) + rest;
      BitsOf(v, n) + (BitsOf(b1, 8 - part) + rest);
    }
  }

  /** What a successful read returns: the n-bit value whose image is the next n unread bits. */
  lemma ReadBitsMeaning(r: Reader, n: nat)
    requires r.Valid() && n <= 8 && ReadBits(r, n).Ok?
    ensures r.Unread() == BitsOf(ReadBits(r, n).value.0, n) + ReadBits(r, n).value.1.Unread()
  {
    hide Or, Shl, Shr, Low, Pow2, BitsOf, Flatten, U8, Reader.Unread;
    if n == 0 {
      assert |BitsOf(0, 0)| == 0;
    } else if r.remaining >= n {
      ReadFitsMeaning(r, n);
    } else {
      ReadSplitValue(r.buf[r.offset], r.buf[r.offset + 1], r.remaining, n);
      ReadSplitMeaning(r, n);
    }
  }

  /** Two bit lists that agree after equally long prefixes are removed agree on the prefixes and on the rest. */
  lemma AppendCancel(a: seq<bool>, b: seq<bool>, c: seq<bool>, d: seq<bool>)
    requires |a| == |c| && a + b == c + d
    ensures a == c && b == d
  {
    assert a == (a + b)[..|a|] && c == (c + d)[..|a|];
    assert b == (a + b)[|a|..] && d == (c + d)[|a|..];
  }

  /** Reading n bits where a value of at most n bits was written returns that value and the bits after it. */
  lemma ReadBitsAfterWrite(r: Reader, x: nat, n: nat, tail: seq<bool>)
    requires r.Valid() && n <= 8 && x < Pow2(n)
    requires r.Unread() == BitsOf(x, n) + tail
    ensures ReadBits(r, n).Ok?
    ensures ReadBits(r, n).value.0 == x
    ensures ReadBits(r, n).value.1.Unread() == tail
  {
    hide Or, Shl, Shr, Low, Pow2, BitsOf, Flatten, U8;
    ReadBitsMeaning(r, n);
    var (v, next) := ReadBits(r, n).value;
    AppendCancel(BitsOf(v, n), next.Unread(), BitsOf(x, n), tail);
    BitsOfInjective(v, x, n);
  }
}
