/**
 Bit-level vocabulary shared by the cursor and the codec. Unsigned C values
 are non-negative integers; the shift, mask and or operators of C are
 defined one bit position at a time, so every proof about them is an
 induction over the bit count with only halving and doubling in each step.
 `BitsOf` gives the abstract meaning of the low bits of a value as a list of
 bits, most significant first.
 */
module Bits {

  /** An `uint8_t`. */
  type byte = x: int | 0 <= x < 256

  function Min(a: int, b: int): (m: int)
    ensures m <= a && m <= b && (m == a || m == b)
  {
    if a < b then a else b
  }

  /** 2 to the power n. */
  function Pow2(n: nat): (p: nat)
    ensures p >= 1
  {
    if n == 0 then 1 else 2 * Pow2(n - 1)
  }

  /** `x >> k` on an unsigned value. */
  function Shr(x: nat, k: nat): nat
  {
    if k == 0 then x else Shr(x / 2, k - 1)
  }

  /** `x << k` on an unsigned value, before any truncation to the width of the destination. */
  function Shl(x: nat, k: nat): nat
  {
    if k == 0 then x else 2 * Shl(x, k - 1)
  }

  /** `x & ((1 << k) - 1)`: the k low-order bits of x. */
  function Low(x: nat, k: nat): (r: nat)
    ensures r < Pow2(k)
  {
    if k == 0 then 0 else 2 * Low(x / 2, k - 1) + x % 2
  }

  /** `a | b`. */
  function Or(a: nat, b: nat): nat
    decreases a + b
  {
    if a == 0 && b == 0 then 0
    else 2 * Or(a / 2, b / 2) + (if a % 2 == 1 || b % 2 == 1 then 1 else 0)
  }

  /** `a & b`. */
  function And(a: nat, b: nat): nat
    decreases a + b
  {
    if a == 0 || b == 0 then 0
    else 2 * And(a / 2, b / 2) + (if a % 2 == 1 && b % 2 == 1 then 1 else 0)
  }

  /** Conversion to `uint8_t`: the 8 low-order bits. */
  function U8(x: nat): byte
  {
    Low(x, 8)
  }

  /** The n low-order bits of x, most significant first. */
  function BitsOf(x: nat, n: nat): (s: seq<bool>)
    ensures |s| == n
  {
    if n == 0 then [] else BitsOf(x / 2, n - 1) + [x % 2 == 1]
  }

  /** All eight bits of a byte, most significant first. */
  function ByteBits(b: byte): (s: seq<bool>)
    ensures |s| == 8
  {
    BitsOf(b, 8)
  }

  /** The bits of a byte buffer, byte after byte, each byte MSB first. */
  function Flatten(bytes: seq<byte>): (s: seq<bool>)
    ensures |s| == 8 * |bytes|
  {
    if bytes == [] then [] else ByteBits(bytes[0]) + Flatten(bytes[1..])
  }

  function Zeros(n: nat): (s: seq<bool>)
    ensures |s| == n
    ensures forall i :: 0 <= i < n ==> !s[i]
  {
    seq(n, _ => false)
  }

  // Arithmetic of the bit operators.

  lemma {:induction false} Pow2Mono(a: nat, b: nat)
    requires a <= b
    ensures Pow2(a) <= Pow2(b)
    decreases b
  {
    if a < b {
      Pow2Mono(a, b - 1);
    }
  }

  /** The powers of two the codec's widths and masks use. */
  lemma Powers()
    ensures Pow2(0) == 1 && Pow2(1) == 2 && Pow2(2) == 4 && Pow2(3) == 8 && Pow2(4) == 16
    ensures Pow2(5) == 32 && Pow2(6) == 64 && Pow2(7) == 128 && Pow2(8) == 256
    ensures Pow2(11) == 0x800 && Pow2(16) == 0x1_0000 && Pow2(24) == 0x100_0000
    ensures Pow2(31) == 0x8000_0000 && Pow2(32) == 0x1_0000_0000
    ensures Pow2(63) == 0x8000_0000_0000_0000 && Pow2(64) == 0x1_0000_0000_0000_0000
  {
    hide Pow2;
    SmallPowers();
    Pow2Add(8, 3);
    Pow2Add(8, 8);
    Pow2Add(16, 8);
    Pow2Add(16, 15);
    Pow2Add(16, 16);
    Pow2Add(32, 31);
    Pow2Add(32, 32);
  }

  lemma SmallPowers()
    ensures Pow2(0) == 1 && Pow2(1) == 2 && Pow2(2) == 4 && Pow2(3) == 8 && Pow2(4) == 16
    ensures Pow2(5) == 32 && Pow2(6) == 64 && Pow2(7) == 128 && Pow2(8) == 256
    ensures Pow2(15) == 0x8000
  {
  }

  /** Shifting right by a and then by b is shifting right by a + b. */
  lemma {:induction false} ShrShr(x: nat, a: nat, b: nat)
    ensures Shr(Shr(x, a), b) == Shr(x, a + b)
    decreases a
  {
    if a > 0 {
      ShrShr(x / 2, a - 1, b);
    }
  }

  /** Shifting left by a and then by b is shifting left by a + b. */
  lemma {:induction false} ShlShl(x: nat, a: nat, b: nat)
    ensures Shl(Shl(x, a), b) == Shl(x, a + b)
    decreases b
  {
    if b > 0 {
      ShlShl(x, a, b - 1);
    }
  }

  /** A left shift distributes over a sum. */
  lemma {:induction false} ShlAdd(x: nat, y: nat, k: nat)
    ensures Shl(x + y, k) == Shl(x, k) + Shl(y, k)
  {
    if k > 0 {
      ShlAdd(x, y, k - 1);
    }
  }

  /** A left shift by k clears the k low-order bits. */
  lemma {:induction false} ShlLow(x: nat, k: nat)
    ensures Low(Shl(x, k), k) == 0
  {
    if k > 0 {
      assert Shl(x, k) / 2 == Shl(x, k - 1);
      ShlLow(x, k - 1);
    }
  }

  /** Shifting a value with k clear low-order bits right by k and back loses nothing. */
  lemma {:induction false} ShrShl(x: nat, z: nat, k: nat)
    requires z < Pow2(k)
    ensures Shr(Shl(x, k) + z, k) == x
  {
    if k > 0 {
      assert (Shl(x, k) + z) / 2 == Shl(x, k - 1) + z / 2;
      ShrShl(x, z / 2, k - 1);
    }
  }

  /** Every value is its high part shifted back into place plus its low part. */
  lemma {:induction false} Decompose(x: nat, k: nat)
    ensures x == Shl(Shr(x, k), k) + Low(x, k)
  {
    if k > 0 {
      Decompose(x / 2, k - 1);
    }
  }

  lemma {:induction false} LowZero(k: nat)
    ensures Low(0, k) == 0
  {
    if k > 0 {
      LowZero(k - 1);
    }
  }

  /** The low bits of a value that already fits are the value. */
  lemma {:induction false} LowSmall(x: nat, k: nat)
    requires x < Pow2(k)
    ensures Low(x, k) == x
  {
    if k > 0 {
      LowSmall(x / 2, k - 1);
    }
  }

  /** Shifting right by m drops m of the bits a value fits in. */
  lemma {:induction false} ShrBound(x: nat, k: nat, m: nat)
    requires x < Pow2(k + m)
    ensures Shr(x, m) < Pow2(k)
    decreases m
  {
    if m > 0 {
      ShrBound(x / 2, k, m - 1);
    }
  }

  /** A k-bit value shifted left by n, with an n-bit value below it, fits in k + n bits. */
  lemma {:induction false} ConcatBound(hi: nat, z: nat, k: nat, n: nat)
    requires hi < Pow2(k) && z < Pow2(n)
    ensures Shl(hi, n) + z < Pow2(k + n)
  {
    if n > 0 {
      ConcatBound(hi, z / 2, k, n - 1);
    }
  }

  /** The low bits of a shifted value are the shifted low bits. */
  lemma {:induction false} LowShl(x: nat, k: nat, m: nat)
    ensures Low(Shl(x, k), k + m) == Shl(Low(x, m), k)
  {
    if k > 0 {
      assert Shl(x, k) / 2 == Shl(x, k - 1) && Shl(x, k) % 2 == 0;
      LowShl(x, k - 1, m);
    }
  }

  /** The k low bits of a value, then its next m bits shifted into place, are its k + m low bits. */
  lemma {:induction false} LowConcat(x: nat, k: nat, m: nat)
    ensures Low(x, k) + Shl(Low(Shr(x, k), m), k) == Low(x, k + m)
  {
    if k > 0 {
      LowConcat(x / 2, k - 1, m);
    }
  }

  lemma {:induction false} OrComm(a: nat, b: nat)
    ensures Or(a, b) == Or(b, a)
    decreases a + b
  {
    if a != 0 || b != 0 {
      OrComm(a / 2, b / 2);
    }
  }

  /** An or of two k-bit values is a k-bit value. */
  lemma {:induction false} OrBound(a: nat, b: nat, k: nat)
    requires a < Pow2(k) && b < Pow2(k)
    ensures Or(a, b) < Pow2(k)
  {
    if k > 0 && (a != 0 || b != 0) {
      OrBound(a / 2, b / 2, k - 1);
    }
  }

  /** Or with zero is the identity. */
  lemma {:induction false} OrZero(a: nat)
    ensures Or(a, 0) == a
    decreases a
  {
    if a != 0 {
      OrZero(a / 2);
    }
  }

  /** An or of a value with k clear low-order bits and a k-bit value is their sum. */
  lemma {:induction false} OrAdd(a: nat, b: nat, k: nat)
    requires Low(a, k) == 0 && b < Pow2(k)
    ensures Or(a, b) == a + b
  {
    if k == 0 {
      OrZero(a);
    } else if a != 0 || b != 0 {
      OrAdd(a / 2, b / 2, k - 1);
    }
  }

  /** 2^(a+b) is 2^a times 2^b. */
  lemma {:induction false} Pow2Add(a: nat, b: nat)
    ensures Pow2(a + b) == Pow2(a) * Pow2(b)
  {
    if b > 0 {
      Pow2Add(a, b - 1);
      assert Pow2(a + b) == 2 * Pow2(a + b - 1);
    }
  }

  /** Masking with k one bits keeps the k low-order bits. */
  lemma {:induction false} AndOnes(x: nat, k: nat)
    ensures And(x, Pow2(k) - 1) == Low(x, k)
  {
    if k == 0 {
    } else if x == 0 {
      LowZero(k);
    } else {
      assert (Pow2(k) - 1) / 2 == Pow2(k - 1) - 1 && (Pow2(k) - 1) % 2 == 1;
      AndOnes(x / 2, k - 1);
    }
  }

  /** Masking with a shifted mask is masking the shifted-down value, shifted back. */
  lemma {:induction false} AndShl(x: nat, m: nat, j: nat)
    ensures And(x, Shl(m, j)) == Shl(And(Shr(x, j), m), j)
  {
    if j > 0 {
      AndShl(x / 2, m, j - 1);
      assert Shr(x, j) == Shr(x / 2, j - 1);
      if x != 0 && Shl(m, j) != 0 {
        assert Shl(m, j) / 2 == Shl(m, j - 1) && Shl(m, j) % 2 == 0;
      }
    }
  }

  /** Masking works field by field: the high parts and the k-bit low parts are masked separately. */
  lemma {:induction false} AndConcat(a: nat, b: nat, m: nat, n: nat, k: nat)
    requires b < Pow2(k) && n < Pow2(k)
    ensures And(Shl(a, k) + b, Shl(m, k) + n) == Shl(And(a, m), k) + And(b, n)
  {
    hide And, Shl, Pow2;
    UnfoldShift(a, k);
    UnfoldShift(m, k);
    UnfoldAnd(b, n);
    if k == 0 {
      UnfoldAnd(a, m);
      UnfoldShift(And(a, m), k);
    } else {
      AndConcat(a, b / 2, m, n / 2, k - 1);
      var x := Shl(a, k) + b;
      var y := Shl(m, k) + n;
      UnfoldAnd(x, y);
      UnfoldShift(And(a, m), k);
      ShlZeroOf(a, k - 1);
      ShlZeroOf(m, k - 1);
      ShlZeroOf(And(a, m), k - 1);
      UnfoldAnd(0, m);
      UnfoldAnd(a, 0);
      UnfoldAnd(b / 2, n / 2);
      assert x / 2 == Shl(a, k - 1) + b / 2 && x % 2 == b % 2;
      assert y / 2 == Shl(m, k - 1) + n / 2 && y % 2 == n % 2;
    }
  }

  /** One step of the definitions of `<<` and 2^k. */
  lemma UnfoldShift(x: nat, k: nat)
    ensures k == 0 ==> Shl(x, k) == x && Pow2(k) == 1
    ensures k > 0 ==> Shl(x, k) == 2 * Shl(x, k - 1) && Pow2(k) == 2 * Pow2(k - 1)
  {
  }

  /** One step of the definition of `&`. */
  lemma UnfoldAnd(a: nat, b: nat)
    ensures And(a, b) == if a == 0 || b == 0 then 0 else 2 * And(a / 2, b / 2) + (if a % 2 == 1 && b % 2 == 1 then 1 else 0)
  {
  }

  lemma {:induction false} ShlZeroOf(a: nat, k: nat)
    ensures Shl(a, k) == 0 <==> a == 0
  {
    if k > 0 {
      ShlZeroOf(a, k - 1);
    }
  }

  /** A contiguous mask of k bits starting at bit j selects that bit field of x, in place. */
  lemma BitField(x: nat, k: nat, j: nat)
    ensures And(x, Shl(Pow2(k) - 1, j)) == Shl(Low(Shr(x, j), k), j)
  {
    hide And, Shl, Shr, Low, Pow2;
    AndShl(x, Pow2(k) - 1, j);
    AndOnes(Shr(x, j), k);
  }

  // The bit-list meaning of a value.

  /** The (k+m)-bit image of x is the k-bit image of x >> m followed by the m-bit image of x. */
  lemma {:induction false} BitsOfSplit(x: nat, k: nat, m: nat)
    ensures BitsOf(x, k + m) == BitsOf(Shr(x, m), k) + BitsOf(x, m)
  {
    if m > 0 {
      BitsOfSplit(x / 2, k, m - 1);
    }
  }

  /** The n-bit image of x only depends on the n low-order bits of x. */
  lemma {:induction false} BitsOfLow(x: nat, n: nat)
    ensures BitsOf(Low(x, n), n) == BitsOf(x, n)
  {
    if n > 0 {
      BitsOfLow(x / 2, n - 1);
    }
  }

  /** Adding a value with n clear low-order bits leaves the n-bit image unchanged. */
  lemma {:induction false} BitsOfAddHigh(a: nat, z: nat, n: nat)
    requires Low(a, n) == 0
    ensures BitsOf(a + z, n) == BitsOf(z, n)
  {
    if n > 0 {
      assert (a + z) / 2 == a / 2 + z / 2;
      BitsOfAddHigh(a / 2, z / 2, n - 1);
    }
  }

  lemma {:induction false} BitsOfZero(n: nat)
    ensures BitsOf(0, n) == Zeros(n)
  {
    if n > 0 {
      BitsOfZero(n - 1);
    }
  }

  /** The image of hi placed above an n-bit value z is the image of hi followed by that of z. */
  lemma BitsOfConcat(hi: nat, z: nat, k: nat, n: nat)
    requires z < Pow2(n)
    ensures BitsOf(Shl(hi, n) + z, k + n) == BitsOf(hi, k) + BitsOf(z, n)
  {
    BitsOfSplit(Shl(hi, n) + z, k, n);
    ShrShl(hi, z, n);
    ShlLow(hi, n);
    BitsOfAddHigh(Shl(hi, n), z, n);
  }

  /** A left shift by n multiplies by 2^n. */
  lemma {:induction false} ShlPow2(x: nat, n: nat)
    ensures Shl(x, n) == x * Pow2(n)
  {
    if n > 0 {
      ShlPow2(x, n - 1);
    }
  }

  /** Two images side by side are the image of one number: hi above the n bits of z. */
  lemma BitsOfGlue(hi: nat, k: nat, z: nat, n: nat)
    requires z < Pow2(n)
    ensures BitsOf(hi, k) + BitsOf(z, n) == BitsOf(hi * Pow2(n) + z, k + n)
  {
    ShlPow2(hi, n);
    BitsOfConcat(hi, z, k, n);
  }

  /** Two values of at most n bits with the same n-bit image are equal. */
  lemma {:induction false} BitsOfInjective(x: nat, y: nat, n: nat)
    requires x < Pow2(n) && y < Pow2(n)
    requires BitsOf(x, n) == BitsOf(y, n)
    ensures x == y
  {
    if n > 0 {
      assert BitsOf(x / 2, n - 1) == BitsOf(x, n)[..n - 1];
      assert BitsOf(y / 2, n - 1) == BitsOf(y, n)[..n - 1];
      assert BitsOf(x, n)[n - 1] == (x % 2 == 1);
      assert BitsOf(y, n)[n - 1] == (y % 2 == 1);
      BitsOfInjective(x / 2, y / 2, n - 1);
    }
  }

  // Byte buffers.

  lemma {:induction false} FlattenAppend(a: seq<byte>, b: seq<byte>)
    ensures Flatten(a + b) == Flatten(a) + Flatten(b)
    decreases |a|
  {
    if a == [] {
      assert a + b == b;
    } else {
      assert (a + b)[1..] == a[1..] + b;
      FlattenAppend(a[1..], b);
    }
  }

  /** The bits of a buffer from position i on: byte i, then the rest. */
  lemma FlattenCons(bytes: seq<byte>, i: nat)
    requires i < |bytes|
    ensures Flatten(bytes[i..]) == ByteBits(bytes[i]) + Flatten(bytes[i + 1..])
  {
    assert bytes[i..][0] == bytes[i];
    assert bytes[i..][1..] == bytes[i + 1..];
  }

  /** Appending one byte appends its eight bits. */
  lemma FlattenSnoc(out: seq<byte>, b: byte)
    ensures Flatten(out + [b]) == Flatten(out) + ByteBits(b)
  {
    FlattenAppend(out, [b]);
    assert Flatten([b]) == ByteBits(b) + Flatten([]);
  }

  /** Two buffers with the same bits are the same buffer. */
  lemma {:induction false} FlattenInjective(a: seq<byte>, b: seq<byte>)
    requires Flatten(a) == Flatten(b)
    ensures a == b
    decreases |a|
  {
    hide BitsOf, Pow2;
    if a != [] {
      assert Flatten(a) == ByteBits(a[0]) + Flatten(a[1..]);
      assert Flatten(b) == ByteBits(b[0]) + Flatten(b[1..]);
      assert ByteBits(a[0]) == Flatten(a)[..8] && ByteBits(b[0]) == Flatten(b)[..8];
      assert Flatten(a[1..]) == Flatten(a)[8..] && Flatten(b[1..]) == Flatten(b)[8..];
      Powers();
      BitsOfInjective(a[0], b[0], 8);
      FlattenInjective(a[1..], b[1..]);
      assert a == [a[0]] + a[1..] && b == [b[0]] + b[1..];
    }
  }
}
