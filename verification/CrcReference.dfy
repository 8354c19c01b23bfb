/** The bitwise register against the arithmetic the firmware writes, and against a published value. */
module CrcReference {
  import opened Bytes
  import opened Bits
  import opened Crc16

  predicate HighIs(b: Bits8, w: bv16) {
    && b.b7 == (w & 0x8000 != 0) && b.b6 == (w & 0x4000 != 0)
    && b.b5 == (w & 0x2000 != 0) && b.b4 == (w & 0x1000 != 0)
    && b.b3 == (w & 0x0800 != 0) && b.b2 == (w & 0x0400 != 0)
    && b.b1 == (w & 0x0200 != 0) && b.b0 == (w & 0x0100 != 0)
  }

  predicate LowIs(b: Bits8, w: bv16) {
    && b.b7 == (w & 0x0080 != 0) && b.b6 == (w & 0x0040 != 0)
    && b.b5 == (w & 0x0020 != 0) && b.b4 == (w & 0x0010 != 0)
    && b.b3 == (w & 0x0008 != 0) && b.b2 == (w & 0x0004 != 0)
    && b.b1 == (w & 0x0002 != 0) && b.b0 == (w & 0x0001 != 0)
  }

  /** The register holds the number `w`. */
  predicate Reads(c: Bits16, w: bv16) {
    HighIs(c.hi, w) && LowIs(c.lo, w)
  }

  /** One round is the shift, and the exclusive-or with the polynomial when the top bit was set. */
  lemma RoundDivides(c: Bits16, w: bv16)
    requires Reads(c, w)
    ensures Reads(Round(c), if w & 0x8000 != 0 then (w << 1) ^ 0x1021 else w << 1)
  {
  }

  /** The register starts with every bit set, and a byte comes in at the top of it. */
  lemma StartAndInput(d: byte)
    ensures Reads(START, 0xFFFF)
    ensures ByteOf(High(d).hi) == d && ByteOf(High(d).lo) == 0
  {
    ByteOfBitsOf(d);
  }

  const DIGIT_HIGH := Bits8(true, true, false, false, false, true, true, true)
  const DIGIT_LOW := Bits8(true, false, false, false, false, false, true, false)

  lemma DigitSteps()
    ensures Step(START, 0x31) == Bits16(DIGIT_HIGH, DIGIT_LOW)
  {
    var c0 := Xor(START, High(0x31));
    assert BitsOf(0x31) == Bits8(false, false, true, true, false, false, false, true);
    assert c0 == Bits16(Bits8(true, true, false, false, true, true, true, false), ONES);
    var c1 := Round(c0);
    assert Rounds(c0, 1) == c1;
    var c2 := Round(c1);
    assert Rounds(c0, 2) == c2;
    var c3 := Round(c2);
    assert Rounds(c0, 3) == c3;
    var c4 := Round(c3);
    assert Rounds(c0, 4) == c4;
    var c5 := Round(c4);
    assert Rounds(c0, 5) == c5;
    var c6 := Round(c5);
    assert Rounds(c0, 6) == c6;
    var c7 := Round(c6);
    assert Rounds(c0, 7) == c7;
    var c8 := Round(c7);
    assert Rounds(c0, 8) == c8;
  }

  lemma DigitBytes()
    ensures ByteOf(DIGIT_LOW) == 0x82 && ByteOf(DIGIT_HIGH) == 0xC7
  {
    hide ByteOf;
    ByteOfBitsOf(0x82);
    ByteOfBitsOf(0xC7);
    assert BitsOf(0xC7) == DIGIT_HIGH && BitsOf(0x82) == DIGIT_LOW;
  }

  lemma FoldOne(c: Bits16, d: byte)
    ensures Fold(c, [d]) == Step(c, d)
  {
    hide Step;
    assert [d][..0] == [];
  }

  /** A worked value: the CRC of the one digit "1" is 0xC782, stored low byte first. */
  lemma CheckValue()
    ensures CrcBytes([0x31]) == [0x82, 0xC7]
  {
    hide Step, Fold, ByteOf, BitsOf;
    DigitSteps();
    DigitBytes();
    FoldOne(START, 0x31);
  }
}
