/**
 `bitstream_write_64_n` and `bitstream_read_64_n` of src/encode.c: an n-bit
 value goes through the bit cursor as byte-wide windows, least significant
 window first, each window MSB first. Window i covers bits [8i, 8i + 8) of
 the value and holds `min(n - 8i, 8)` of them; the loop stops at the first
 window that starts above n, so a window of 0 bits occurs when n is a
 multiple of 8 below 64.
 */
module BitStream64 {
  import opened Bits
  import opened Results
  import opened BitStream

  /** The loop stops at window 8 or at the first window starting above n. */
  predicate Done(n: nat, i: nat) {
    i >= 8 || n < 8 * i
  }

  /** The width of window i of an n-bit transfer: `part > 8 ? 8 : part`. */
  function WindowWidth(n: nat, i: nat): (m: nat)
    requires 8 * i <= n
    ensures m <= 8 && 8 * i + m == Min(n, 8 * i + 8)
  {
    if n - 8 * i > 8 then 8 else n - 8 * i
  }

  /** How many bits windows i and above carry in total. */
  function WindowsCount(n: nat, i: nat): nat
  {
    if n < 8 * i then 0 else Min(n, 64) - Min(8 * i, 64)
  }

  /** The bits that windows i and above put on the stream for the value x. */
  function WindowBits(x: nat, n: nat, i: nat): (s: seq<bool>)
    requires i <= 8
    ensures |s| == WindowsCount(n, i)
    decreases 8 - i
  {
    if Done(n, i) then []
    else BitsOf(Shr(x, 8 * i), WindowWidth(n, i)) + WindowBits(x, n, i + 1)
  }

  /** The loop of `bitstream_write_64_n` from window i on. */
  function WriteWindows(w: Writer, x: nat, n: nat, i: nat): (r: Writer)
    requires w.Valid() && i <= 8
    ensures r.Valid()
    decreases 8 - i
  {
    if Done(n, i) then w
    else WriteWindows(WriteBits(w, U8(Shr(x, 8 * i)), WindowWidth(n, i)), x, n, i + 1)
  }

  /** `bitstream_write_64_n`. */
  function Write64(w: Writer, x: nat, n: nat): (r: Writer)
    requires w.Valid()
    ensures r.Valid()
  {
    WriteWindows(w, x, n, 0)
  }

  /** The byte handed to write_bit_n for window i holds just that window's bits, when x fits in n bits. */
  lemma WindowByte(x: nat, n: nat, i: nat)
    requires 8 * i <= n && x < Pow2(n)
    ensures var m := WindowWidth(n, i);
      && U8(Shr(x, 8 * i)) < Pow2(m)
      && BitsOf(U8(Shr(x, 8 * i)), m) == BitsOf(Shr(x, 8 * i), m)
  {
    var m := WindowWidth(n, i);
    if m == 8 {
      BitsOfLow(Shr(x, 8 * i), 8);
    } else {
      ShrBound(x, m, 8 * i);
      Pow2Mono(m, 8);
      Powers();
      LowSmall(Shr(x, 8 * i), 8);
    }
  }

  /** Writing window i appends its bits. */
  lemma WriteWindowStep(w: Writer, x: nat, n: nat, i: nat)
    requires w.Valid() && i <= 8 && !Done(n, i) && x < Pow2(n)
    ensures var m := WindowWidth(n, i);
      WriteBits(w, U8(Shr(x, 8 * i)), m).Written() == w.Written() + BitsOf(Shr(x, 8 * i), m)
  {
    hide Or, Shl, Shr, Low, Pow2, BitsOf, Flatten, U8, WriteBits;
    WindowByte(x, n, i);
    WriteBitsAppends(w, U8(Shr(x, 8 * i)), WindowWidth(n, i));
  }

  /** Writing windows i and above of a value that fits in n bits appends their bits. */
  lemma {:induction false} WriteWindowsAppends(w: Writer, x: nat, n: nat, i: nat)
    requires w.Valid() && i <= 8 && x < Pow2(n)
    ensures WriteWindows(w, x, n, i).Written() == w.Written() + WindowBits(x, n, i)
    decreases 8 - i
  {
    hide Or, Shl, Shr, Low, Pow2, BitsOf, Flatten, U8, WriteBits, WriteWindows, WindowBits, Writer.Written;
    WindowsUnfold(w, x, n, i);
    if !Done(n, i) {
      var m := WindowWidth(n, i);
      var w' := WriteBits(w, U8(Shr(x, 8 * i)), m);
      WriteWindowStep(w, x, n, i);
      WriteWindowsAppends(w', x, n, i + 1);
    }
  }

  /** One turn of the loop of `bitstream_write_64_n`, and of the bits it puts out. */
  lemma WindowsUnfold(w: Writer, x: nat, n: nat, i: nat)
    requires w.Valid() && i <= 8
    ensures Done(n, i) ==> WriteWindows(w, x, n, i) == w && WindowBits(x, n, i) == []
    ensures !Done(n, i) ==>
      var m := WindowWidth(n, i);
      && WriteWindows(w, x, n, i) == WriteWindows(WriteBits(w, U8(Shr(x, 8 * i)), m), x, n, i + 1)
      && WindowBits(x, n, i) == BitsOf(Shr(x, 8 * i), m) + WindowBits(x, n, i + 1)
  {
    hide Or, Shl, Shr, Low, Pow2, BitsOf, Flatten, U8, WriteBits;
  }

  /** A 64-bit write of a value that fits in n bits appends the bits of its windows. */
  lemma Write64Appends(w: Writer, x: nat, n: nat)
    requires w.Valid() && x < Pow2(n)
    ensures Write64(w, x, n).Written() == w.Written() + WindowBits(x, n, 0)
  {
    WriteWindowsAppends(w, x, n, 0);
  }

  /**
   The loop of `bitstream_read_64_n` from window i on, with `acc` the value
   assembled from the windows below i. Fails exactly when fewer bits are
   left than the remaining windows carry.
   */
  function ReadWindows(r: Reader, n: nat, i: nat, acc: nat): (res: Result<(nat, Reader)>)
    requires r.Valid() && i <= 8
    ensures res.Ok? <==> WindowsCount(n, i) <= |r.Unread()|
    ensures res.Ok? ==> && res.value.1.Valid() && res.value.1.buf == r.buf
                        && |res.value.1.Unread()| == |r.Unread()| - WindowsCount(n, i)
    decreases 8 - i
  {
    hide Or, Shl, Shr, Low, Pow2, BitsOf, Flatten, U8, ReadBits;
    if Done(n, i) then Ok((acc, r))
    else
      var m := WindowWidth(n, i);
      var read :- ReadBits(r, m);
      ReadBitsMeaning(r, m);
      ReadWindows(read.1, n, i + 1, Or(acc, Shl(read.0, 8 * i)))
  }

  /** `bitstream_read_64_n`: windows from 0, starting from 0. */
  function Read64(r: Reader, n: nat): (res: Result<(nat, Reader)>)
    requires r.Valid()
    ensures res.Ok? <==> Min(n, 64) <= |r.Unread()|
    ensures res.Ok? ==> && res.value.1.Valid() && res.value.1.buf == r.buf
                        && |res.value.1.Unread()| == |r.Unread()| - Min(n, 64)
  {
    ReadWindows(r, n, 0, 0)
  }

  /** Reading window i where it was written returns its bits and leaves the windows above it. */
  lemma ReadWindowStep(r: Reader, x: nat, n: nat, i: nat, tail: seq<bool>)
    requires r.Valid() && i <= 8 && !Done(n, i)
    requires r.Unread() == WindowBits(x, n, i) + tail
    ensures var m := WindowWidth(n, i);
      && ReadBits(r, m).Ok?
      && ReadBits(r, m).value.0 == Low(Shr(x, 8 * i), m)
      && ReadBits(r, m).value.1.Unread() == WindowBits(x, n, i + 1) + tail
  {
    hide Or, Shl, Shr, Low, Pow2, BitsOf, Flatten, U8, ReadBits;
    var m := WindowWidth(n, i);
    var y := Low(Shr(x, 8 * i), m);
    BitsOfLow(Shr(x, 8 * i), m);
    assert r.Unread() == BitsOf(y, m) + (WindowBits(x, n, i + 1) + tail);
    ReadBitsAfterWrite(r, y, m, WindowBits(x, n, i + 1) + tail);
  }

  /** Windows i and above of a value x that fits in n bits read back as x, when the windows below i are in `acc`. */
  lemma {:induction false} ReadWindowsAfterWrite(r: Reader, x: nat, n: nat, i: nat, tail: seq<bool>)
    requires r.Valid() && i <= 8 && n <= 64 && x < Pow2(n)
    requires r.Unread() == WindowBits(x, n, i) + tail
    ensures var res := ReadWindows(r, n, i, Low(x, Min(n, 8 * i)));
      res.Ok? && res.value.0 == x && res.value.1.Unread() == tail
    decreases 8 - i
  {
    hide Or, Shl, Shr, Low, Pow2, BitsOf, Flatten, U8, ReadBits, WindowBits, ReadWindows, Reader.Unread;
    if Done(n, i) {
      assert |WindowBits(x, n, i)| == 0;
      LowSmall(x, n);
      ReadWindowsDone(r, n, i, Low(x, Min(n, 8 * i)));
    } else {
      var m := WindowWidth(n, i);
      ReadWindowStep(r, x, n, i, tail);
      var (v, next) := ReadBits(r, m).value;
      var acc := Low(x, Min(n, 8 * i));
      assert acc == Low(x, 8 * i);
      var acc' := Or(acc, Shl(v, 8 * i));
      assert acc' == Low(x, Min(n, 8 * (i + 1))) by {
        AccumulateWindow(x, i, m);
        assert 8 * i + m == Min(n, 8 * (i + 1));
      }
      ReadWindowsStep(r, n, i, acc);
      ReadWindowsAfterWrite(next, x, n, i + 1, tail);
    }
  }

  /** The loop of `bitstream_read_64_n` ends with what it has assembled. */
  lemma ReadWindowsDone(r: Reader, n: nat, i: nat, acc: nat)
    requires r.Valid() && i <= 8 && Done(n, i)
    ensures ReadWindows(r, n, i, acc) == Ok((acc, r))
  {
  }

  /** One turn of the loop of `bitstream_read_64_n` whose window reads back. */
  lemma ReadWindowsStep(r: Reader, n: nat, i: nat, acc: nat)
    requires r.Valid() && i <= 8 && !Done(n, i) && ReadBits(r, WindowWidth(n, i)).Ok?
    ensures var (v, next) := ReadBits(r, WindowWidth(n, i)).value;
      ReadWindows(r, n, i, acc) == ReadWindows(next, n, i + 1, Or(acc, Shl(v, 8 * i)))
  {
    hide Or, Shl, Shr, Low, Pow2, BitsOf, Flatten, U8, ReadBits, Reader.Unread;
  }

  /** Or-ing window i into the low 8i bits of x gives its low 8i + m bits. */
  lemma AccumulateWindow(x: nat, i: nat, m: nat)
    ensures Or(Low(x, 8 * i), Shl(Low(Shr(x, 8 * i), m), 8 * i)) == Low(x, 8 * i + m)
  {
    hide Or, Shl, Shr, Low, Pow2, BitsOf;
    var hi := Low(Shr(x, 8 * i), m);
    ShlLow(hi, 8 * i);
    OrComm(Low(x, 8 * i), Shl(hi, 8 * i));
    OrAdd(Shl(hi, 8 * i), Low(x, 8 * i), 8 * i);
    LowConcat(x, 8 * i, m);
  }

  /** A 64-bit read where a value of at most n bits (n <= 64) was written returns that value. */
  lemma Read64AfterWrite(r: Reader, x: nat, n: nat, tail: seq<bool>)
    requires r.Valid() && n <= 64 && x < Pow2(n)
    requires r.Unread() == WindowBits(x, n, 0) + tail
    ensures Read64(r, n).Ok? && Read64(r, n).value.0 == x && Read64(r, n).value.1.Unread() == tail
  {
    ReadWindowsAfterWrite(r, x, n, 0, tail);
    assert Low(x, Min(n, 0)) == 0;
  }
}
