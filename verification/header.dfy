/**
 The one-byte header that opens every encoded buffer: two version bits,
 two bits giving the width of the count field, and four bits naming the
 payload type. Only version 0 with the 8-byte integer payload is modelled.
 */
module Header {
  import opened Bits
  import opened Results

  const VersionMask: byte := 0xC0
  const SizeMask: byte := 0x30
  const PayloadMask: byte := 0x0F

  const Version: byte := 0x00
  const Size1: byte := 0x10
  const Size2: byte := 0x20
  const Size3: byte := 0x30
  const IntPayload: byte := 0x01

  /** The largest count a three-byte count field can carry. */
  const MaxCount: nat := 0xFFFFFF

  /** The width in bytes of the count field the encoder chooses for `count` values. */
  function CountWidth(count: nat): (c: nat)
    requires count <= MaxCount
    ensures 1 <= c <= 3
    ensures count < Pow2(8 * c)
    ensures c == 1 || Pow2(8 * (c - 1)) <= count
  {
    Powers();
    if count > 0xFFFF then 3 else if count > 0xFF then 2 else 1
  }

  /** The size bits announcing a count field of c bytes. */
  function SizeFlag(c: nat): byte
    requires 1 <= c <= 3
  {
    if c == 3 then Size3 else if c == 2 then Size2 else Size1
  }

  /** The header the encoder writes when the count field is c bytes wide. */
  function Make(c: nat): (h: byte)
    requires 1 <= c <= 3
    ensures h == 16 * c + 1
  {
    hide Or;
    OrComm(Version, IntPayload);
    OrZero(IntPayload);
    OrComm(IntPayload, SizeFlag(c));
    assert Low(SizeFlag(c), 4) == 0 && Pow2(4) == 16 by {
      assert Low(0x10, 4) == 0 && Low(0x20, 4) == 0 && Low(0x30, 4) == 0;
    }
    OrAdd(SizeFlag(c), IntPayload, 4);
    Or(Or(Version, IntPayload), SizeFlag(c))
  }

  /** The decoder's header checks: the width of the count field, or why the header is refused. */
  function Parse(h: byte): Result<nat>
  {
    if And(h, VersionMask) != Version then Err(FormatError)
    else if And(h, PayloadMask) != IntPayload then Err(FormatError)
    else
      var size := And(h, SizeMask);
      if size == Size1 then Ok(1)
      else if size == Size2 then Ok(2)
      else if size == Size3 then Ok(3)
      else Err(FormatError)
  }

  /** The decoder accepts exactly the three headers the encoder writes, each with its own width. */
  lemma ParseExact(h: byte, c: nat)
    ensures Parse(h) == Ok(c) <==> 1 <= c <= 3 && h == Make(c)
  {
    if 1 <= c <= 3 && h == Make(c) {
      ParseMake(c);
    }
    if Parse(h) == Ok(c) {
      ParseFields(h);
    }
  }

  /** The header the encoder writes passes the decoder's checks with the same width. */
  lemma ParseMake(c: nat)
    requires 1 <= c <= 3
    ensures Parse(Make(c)) == Ok(c)
  {
    hide Or;
    var h := Make(c);
    hide And;
    MaskedHeader(c);
  }

  /** The three masks applied to the header written for a count field of c bytes. */
  lemma MaskedHeader(c: nat)
    requires 1 <= c <= 3
    ensures And(16 * c + 1, VersionMask) == 0
    ensures And(16 * c + 1, PayloadMask) == 1
    ensures And(16 * c + 1, SizeMask) == 16 * c
  {
    hide And, Shl, Shr, Pow2, Low;
    MaskFields();
    ShiftFacts(c);
    ShiftFacts(0);
    ShiftFacts(3);
    ShiftFacts(12);
    AndConcat(c, 1, 12, 0, 4);
    AndConcat(c, 1, 0, 15, 4);
    AndConcat(c, 1, 3, 0, 4);
    AndConcat(0, c, 3, 0, 2);
    UnfoldAnd(0, 3);
    UnfoldAnd(c, 0);
    UnfoldAnd(1, 0);
    AndOnes(c, 2);
    LowSmall(c, 2);
    AndOnes(1, 4);
    LowSmall(1, 4);
  }

  /** The three masks as bit fields. */
  lemma MaskFields()
    ensures VersionMask == Shl(Pow2(2) - 1, 6)
    ensures SizeMask == Shl(Pow2(2) - 1, 4)
    ensures PayloadMask == Shl(Pow2(4) - 1, 0)
    ensures Pow2(2) == 4 && Pow2(4) == 16 && Shr(0, 6) == 0 && Shl(0, 2) == 0 && Shl(3, 2) == 12
  {
  }

  /** Shifting by zero changes nothing; `x << 4` is 16 x. */
  lemma ShiftFacts(x: nat)
    ensures Shl(x, 0) == x && Shr(x, 0) == x && Shl(x, 4) == 16 * x
  {
    assert Shl(x, 4) == 2 * Shl(x, 3) == 4 * Shl(x, 2) == 8 * Shl(x, 1);
  }

  /** An accepted header is version 0, integer payload, and a nonzero size field. */
  lemma ParseFields(h: byte)
    requires Parse(h).Ok?
    ensures 1 <= Parse(h).value <= 3 && h == Make(Parse(h).value)
  {
    var c := Parse(h).value;
    var size := And(h, SizeMask);
    assert size == 16 * c;
    hide And, Shl, Shr, Low, Pow2, Or;
    MaskFields();
    ShiftFacts(c);
    ShiftFacts(h);
    ShiftFacts(Low(h, 4));
    BitField(h, 2, 6);
    BitField(h, 2, 4);
    BitField(h, 4, 0);
    var top := Shr(h, 6);
    var mid := Low(Shr(h, 4), 2);
    ShrShl(Low(top, 2), 0, 6);
    ShrShl(mid, 0, 4);
    ShrShl(c, 0, 4);
    assert mid == c;
    Powers();
    ShrBound(h, 2, 6);
    LowSmall(top, 2);
    assert top == 0;
    Decompose(h, 4);
    Decompose(Shr(h, 4), 2);
    ShrShr(h, 4, 2);
    assert Shr(h, 4) == c;
    assert h == 16 * c + 1;
  }
}
