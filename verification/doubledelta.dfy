/**
 The arithmetic of the integer codec: `uint64_t` values, the wrap-around of
 unsigned arithmetic and of conversions to `int64_t`, the delta of delta of
 three consecutive values, and the six buckets a delta of delta is coded in.
 */
module DoubleDelta {
  import opened Bits

  const TWO64: nat := 0x1_0000_0000_0000_0000
  const TWO63: nat := 0x8000_0000_0000_0000

  /** A `uint64_t`. */
  type u64 = x: int | 0 <= x < 0x1_0000_0000_0000_0000

  const INT32_MIN: int := -0x8000_0000
  const INT32_MAX: int := 0x7FFF_FFFF
  const INT64_MIN: int := -0x8000_0000_0000_0000

  /** Whether x is representable as an `int64_t`. */
  predicate IsInt64(x: int) {
    INT64_MIN <= x < TWO63
  }

  /**
   Reduction modulo 2^64: the value of unsigned 64-bit arithmetic, and the
   bit pattern of a conversion between `int64_t` and `uint64_t`.
   */
  function Wrap(x: int): (r: u64)
    ensures (x - r) % TWO64 == 0
  {
    x % TWO64
  }

  /** The `int64_t` whose bit pattern is u (two's complement). */
  function Signed(u: u64): (s: int)
    ensures IsInt64(s) && Wrap(s) == u
  {
    if u < TWO63 then u else u - TWO64
  }

  function Abs(x: int): (a: nat)
    ensures a == x || a == -x
  {
    if x < 0 then -x else x
  }

  /**
   The `int64_t` delta of delta at position i: `v[i] - 2*v[i-1] + v[i-2]`
   evaluated in `uint64_t` and converted.
   */
  function DeltaOfDelta(v: seq<u64>, i: nat): (dd: int)
    requires 2 <= i < |v|
    ensures IsInt64(dd)
    ensures Wrap(dd) == Wrap(v[i] as int - 2 * v[i - 1] as int + v[i - 2] as int)
  {
    Signed(Wrap(v[i] as int - 2 * v[i - 1] as int + v[i - 2] as int))
  }

  /** Two integers wrap to the same value exactly when they agree modulo 2^64. */
  lemma WrapCongruent(x: int, y: int)
    ensures Wrap(x) == Wrap(y) <==> (x - y) % TWO64 == 0
  {
    if (x - y) % TWO64 == 0 {
      var q := (x - y) / TWO64;
      assert x == y + TWO64 * q;
      WrapShift(y, q);
    }
    if Wrap(x) == Wrap(y) {
      var q := x / TWO64 - y / TWO64;
      assert x - y == TWO64 * q;
      WrapShift(0, q);
    }
  }

  lemma WrapShift(y: int, q: int)
    ensures Wrap(y + TWO64 * q) == Wrap(y)
  {
    var r := Wrap(y);
    var p := y / TWO64;
    assert y == TWO64 * p + r;
    assert y + TWO64 * q == TWO64 * (p + q) + r;
  }

  /** Adding the same amount to two congruent integers keeps them congruent. */
  lemma WrapBoth(x: int, y: int, z: int)
    requires Wrap(x) == Wrap(y)
    ensures Wrap(x + z) == Wrap(y + z)
  {
    WrapAdd(z, x);
    WrapAdd(z, y);
  }

  /** A `uint64_t` value wraps to itself. */
  lemma WrapSmall(x: u64)
    ensures Wrap(x) == x
  {
  }

  /** Wrapping an operand first does not change a wrapped sum. */
  lemma WrapAdd(x: int, y: int)
    ensures Wrap(x + Wrap(y)) == Wrap(x + y)
  {
    WrapCongruent(x + Wrap(y), x + y);
  }

  /**
   Adding the delta of delta at i to the delta before it gives the delta at
   i, and adding that to the value before gives back the value at i, all in
   wrap-around arithmetic.
   */
  lemma DeltaOfDeltaInverts(v: seq<u64>, i: nat)
    requires 2 <= i < |v|
    ensures Wrap(Wrap(v[i - 1] as int - v[i - 2] as int) + DeltaOfDelta(v, i)) == Wrap(v[i] as int - v[i - 1] as int)
    ensures Wrap(v[i - 1] as int + Wrap(v[i] as int - v[i - 1] as int)) == v[i]
  {
    hide Wrap, DeltaOfDelta, Signed;
    var a, b, c := v[i - 2] as int, v[i - 1] as int, v[i] as int;
    DeltaStep(a, b, c, DeltaOfDelta(v, i));
    DeltaUndo(b, v[i]);
  }

  /** A delta of delta congruent to c - 2b + a takes the delta b - a to the delta c - b. */
  lemma DeltaStep(a: int, b: int, c: int, dd: int)
    requires Wrap(dd) == Wrap(c - 2 * b + a)
    ensures Wrap(Wrap(b - a) + dd) == Wrap(c - b)
  {
    hide Wrap;
    WrapBoth(dd, c - 2 * b + a, b - a);
    assert c - 2 * b + a + (b - a) == c - b;
    WrapAdd(dd, b - a);
    assert Wrap(b - a) + dd == dd + Wrap(b - a);
  }

  /** Adding the wrapped delta c - b to b gives back c. */
  lemma DeltaUndo(b: int, c: u64)
    ensures Wrap(b + Wrap(c as int - b)) == c
  {
    hide Wrap;
    WrapAdd(b, c as int - b);
    assert b + (c as int - b) == c as int;
    WrapSmall(c);
  }

  // The buckets a delta of delta is coded in.

  /** The control codes of the six buckets, 0b0 to 0b111110: k one bits followed by a zero. */
  const Controls: seq<byte> := [0x00, 0x02, 0x06, 0x0E, 0x1E, 0x3E]

  /** The magnitude width of each bucket; the decoder indexes the same table by the number of one bits. */
  const Widths: seq<nat> := [0, 6, 8, 11, 31, 63]

  /** The range of the delta of delta each bucket is meant for, as the encoder tests it. */
  predicate InBucket(dd: int, k: nat)
  {
    if k == 0 then dd == 0
    else if k == 1 then -63 < dd < 64
    else if k == 2 then -255 < dd < 256
    else if k == 3 then -2047 < dd < 2048
    else if k == 4 then INT32_MIN < dd < INT32_MAX
    else true
  }

  /** The bucket the encoder chooses: the first whose range holds dd. */
  function Classify(dd: int): (k: nat)
    ensures k < 6 && InBucket(dd, k)
    ensures forall j :: 0 <= j < k ==> !InBucket(dd, j)
  {
    if dd == 0 then 0
    else if -63 < dd && dd < 64 then 1
    else if -255 < dd && dd < 256 then 2
    else if -2047 < dd && dd < 2048 then 3
    else if INT32_MIN < dd && dd < INT32_MAX then 4
    else 5
  }

  /**
   The magnitude of every `int64_t` but INT64_MIN fits the width of its
   bucket, and only zero is coded without a magnitude.
   */
  lemma ClassifyFits(dd: int)
    requires IsInt64(dd) && dd != INT64_MIN
    ensures Abs(dd) < Pow2(Widths[Classify(dd)])
    ensures Widths[Classify(dd)] == 0 <==> dd == 0
  {
    hide Pow2;
    Powers();
  }
}
