/**
 The byte images the codec copies with `memcpy` on a little-endian machine:
 the count field (the low one to three bytes of a `uint32_t`) and the two
 64-bit words of the preamble.
 */
module LittleEndian {
  import opened Bits

  /** The k low-order bytes of x, least significant first. */
  function LE(x: nat, k: nat): (s: seq<byte>)
    ensures |s| == k
  {
    if k == 0 then [] else [x % 256] + LE(x / 256, k - 1)
  }

  /** The unsigned integer whose little-endian image is `bytes`. */
  function FromLE(bytes: seq<byte>): (x: nat)
    ensures x < Pow2(8 * |bytes|)
  {
    hide Pow2;
    if bytes == [] then Powers(); 0
    else
      var rest := FromLE(bytes[1..]);
      Pow2Add(8, 8 * (|bytes| - 1));
      Powers();
      ByteBound(bytes[0] as nat, rest, Pow2(8 * (|bytes| - 1)));
      bytes[0] + 256 * rest
  }

  /** Reading back the k bytes written for x gives x, when x fits in k bytes. */
  lemma {:induction false} FromLEOfLE(x: nat, k: nat)
    requires x < Pow2(8 * k)
    ensures FromLE(LE(x, k)) == x
  {
    hide Pow2, FromLE, LE;
    if k == 0 {
      Powers();
      NoBytes(x);
    } else {
      Pow2Add(8, 8 * (k - 1));
      Powers();
      LEStep(x, k);
      FromLEOfLE(x / 256, k - 1);
      FromLEStep(LE(x, k));
      DivMod(x % 256, x / 256);
    }
  }

  /** Writing back the value read from k bytes reproduces those bytes. */
  lemma {:induction false} LEOfFromLE(bytes: seq<byte>)
    ensures LE(FromLE(bytes), |bytes|) == bytes
  {
    hide Pow2, FromLE, LE;
    if bytes != [] {
      LEOfFromLE(bytes[1..]);
      FromLEStep(bytes);
      DivMod(bytes[0] as nat, FromLE(bytes[1..]));
      LEStep(FromLE(bytes), |bytes|);
      assert bytes == [bytes[0]] + bytes[1..];
    }
  }

  /** Zero bytes hold only 0. */
  lemma NoBytes(x: nat)
    ensures FromLE([]) == 0 && LE(x, 0) == []
  {
  }

  /** A byte plus 256 times a number below p is below 256 p. */
  lemma ByteBound(b: nat, r: nat, p: nat)
    requires b < 256 && r < p
    ensures b + 256 * r < 256 * p
  {
  }

  /** One step of `LE`. */
  lemma LEStep(x: nat, k: nat)
    requires k > 0
    ensures LE(x, k) == [x % 256] + LE(x / 256, k - 1)
  {
  }

  /** One step of `FromLE`. */
  lemma FromLEStep(bytes: seq<byte>)
    requires bytes != []
    ensures FromLE(bytes) == bytes[0] as nat + 256 * FromLE(bytes[1..])
  {
  }

  /** A byte and a multiple of 256 come apart again under `%` and `/`. */
  lemma DivMod(b: nat, q: nat)
    requires b < 256
    ensures (b + 256 * q) % 256 == b && (b + 256 * q) / 256 == q
  {
  }
}
