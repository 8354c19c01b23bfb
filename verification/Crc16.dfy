/** CRC-16/CCITT as both record formats use it, and why a small alteration cannot slip by.

    The 16-bit register is kept bit by bit, because what matters about it is which bits move where. */
module Crc16 {
  import opened Bytes
  import opened Bits

  /** A `uint16_t` as its two halves. */
  datatype Bits16 = Bits16(hi: Bits8, lo: Bits8)

  function Xor(a: Bits16, b: Bits16): Bits16 {
    Bits16(Xor8(a.hi, b.hi), Xor8(a.lo, b.lo))
  }

  /** One bit of the division: shift left and, if the bit shifted out was set, fold in the
      polynomial 0x1021, whose set bits are 12, 5 and 0. */
  function Round(c: Bits16): Bits16 {
    var top := c.hi.b7;
    Bits16(Bits8(c.hi.b6, c.hi.b5, c.hi.b4, c.hi.b3 != top, c.hi.b2, c.hi.b1, c.hi.b0, c.lo.b7),
           Bits8(c.lo.b6, c.lo.b5, c.lo.b4 != top, c.lo.b3, c.lo.b2, c.lo.b1, c.lo.b0, top))
  }

  function Rounds(c: Bits16, n: nat): Bits16 {
    if n == 0 then c else Round(Rounds(c, n - 1))
  }

  /** `(uint16_t)d << 8`, the byte lined up with the top of the register. */
  function High(d: byte): Bits16 {
    Bits16(BitsOf(d), ZEROS)
  }

  /** One byte of input. */
  function Step(c: Bits16, d: byte): Bits16 {
    Rounds(Xor(c, High(d)), 8)
  }

  function Fold(c: Bits16, d: seq<byte>): Bits16 {
    if d == [] then c else Step(Fold(c, d[..|d| - 1]), d[|d| - 1])
  }

  const START := Bits16(ONES, ONES)

  /** The two bytes a record stores for its CRC, low then high. */
  function CrcBytes(d: seq<byte>): (p: seq<byte>)
    ensures |p| == 2
  {
    var c := Fold(START, d);
    [ByteOf(c.lo), ByteOf(c.hi)]
  }

  /** `crc16`: the outer loop over bytes and the inner loop over bits. */
  method Compute(d: array<byte>, n: nat) returns (crc: Bits16)
    requires n <= d.Length
    ensures [ByteOf(crc.lo), ByteOf(crc.hi)] == CrcBytes(d[..n])
  {
    crc := START;
    for i := 0 to n
      invariant crc == Fold(START, d[..i])
    {
      crc := Absorb(crc, d[i]);
      assert d[..i + 1][..i] == d[..i];
    }
  }

  method Absorb(before: Bits16, d: byte) returns (crc: Bits16)
    ensures crc == Step(before, d)
  {
    crc := Xor(before, High(d));
    for b := 0 to 8
      invariant crc == Rounds(Xor(before, High(d)), b)
    {
      crc := Round(crc);
    }
  }

  // ---- each step is a bijection of the 16-bit state ----

  lemma RoundInjective(a: Bits16, b: Bits16)
    requires Round(a) == Round(b)
    ensures a == b
  {
  }

  lemma {:induction false} RoundsInjective(a: Bits16, b: Bits16, n: nat)
    requires Rounds(a, n) == Rounds(b, n)
    ensures a == b
  {
    if n == 0 {
    } else {
      RoundInjective(Rounds(a, n - 1), Rounds(b, n - 1));
      RoundsInjective(a, b, n - 1);
    }
  }

  lemma XorCancels(a: Bits16, b: Bits16, m: Bits16)
    requires Xor(a, m) == Xor(b, m)
    ensures a == b
  {
  }

  lemma StepInjective(a: Bits16, b: Bits16, d: byte)
    requires Step(a, d) == Step(b, d)
    ensures a == b
  {
    RoundsInjective(Xor(a, High(d)), Xor(b, High(d)), 8);
    XorCancels(a, b, High(d));
  }

  lemma {:induction false} FoldInjective(a: Bits16, b: Bits16, d: seq<byte>)
    requires Fold(a, d) == Fold(b, d)
    ensures a == b
  {
    if d == [] {
    } else {
      var front := d[..|d| - 1];
      StepInjective(Fold(a, front), Fold(b, front), d[|d| - 1]);
      FoldInjective(a, b, front);
    }
  }

  lemma {:induction false} FoldConcat(c: Bits16, a: seq<byte>, b: seq<byte>)
    ensures Fold(c, a + b) == Fold(Fold(c, a), b)
  {
    if b == [] {
      assert a + b == a;
    } else {
      var front := b[..|b| - 1];
      assert (a + b)[..|a + b| - 1] == a + front;
      FoldConcat(c, a, front);
    }
  }

  // ---- two bytes together feed all sixteen bits, so they act as one bijection ----

  lemma RoundLinear(a: Bits16, b: Bits16)
    ensures Round(Xor(a, b)) == Xor(Round(a), Round(b))
  {
  }

  lemma {:induction false} RoundsLinear(a: Bits16, b: Bits16, n: nat)
    ensures Rounds(Xor(a, b), n) == Xor(Rounds(a, n), Rounds(b, n))
  {
    if n == 0 {
    } else {
      RoundsLinear(a, b, n - 1);
      RoundLinear(Rounds(a, n - 1), Rounds(b, n - 1));
    }
  }

  lemma {:induction false} RoundsAdd(c: Bits16, m: nat, n: nat)
    ensures Rounds(Rounds(c, m), n) == Rounds(c, m + n)
  {
    if n == 0 {
    } else {
      RoundsAdd(c, m, n - 1);
    }
  }

  function Low(d: byte): Bits16 {
    Bits16(ZEROS, BitsOf(d))
  }

  lemma TwoRounds(c: Bits16, n: nat)
    ensures Rounds(c, n + 2) == Round(Round(Rounds(c, n)))
    ensures Rounds(c, 0) == c
  {
  }

  /** With its top two bits clear, a register just moves up by two. */
  lemma TopClearTwice(c: Bits16) returns (r: Bits16)
    requires !c.hi.b7 && !c.hi.b6
    ensures r == Round(Round(c))
    ensures r == Bits16(Bits8(c.hi.b5, c.hi.b4, c.hi.b3, c.hi.b2, c.hi.b1, c.hi.b0, c.lo.b7, c.lo.b6),
                        Bits8(c.lo.b5, c.lo.b4, c.lo.b3, c.lo.b2, c.lo.b1, c.lo.b0, false, false))
  {
    r := Round(Round(c));
  }

  /** A low byte reaches the top of the register before any bit of it is shifted out. */
  lemma LowByteShifts(d: byte)
    ensures Rounds(Low(d), 8) == High(d)
  {
    hide BitsOf, Rounds, Round;
    var r0 := Low(d);
    TwoRounds(r0, 0);
    TwoRounds(r0, 2);
    TwoRounds(r0, 4);
    TwoRounds(r0, 6);
    var r2 := TopClearTwice(r0);
    var r4 := TopClearTwice(r2);
    var r6 := TopClearTwice(r4);
    var r8 := TopClearTwice(r6);
  }

  lemma XorAssoc(a: Bits16, b: Bits16, c: Bits16)
    ensures Xor(Xor(a, b), c) == Xor(a, Xor(b, c))
    ensures Xor(a, b) == Xor(b, a)
  {
  }

  /** Two bytes of input are sixteen rounds over their 16-bit word. */
  lemma TwoSteps(c: Bits16, d: byte, e: byte)
    ensures Step(Step(c, d), e) == Rounds(Xor(c, Bits16(BitsOf(d), BitsOf(e))), 16)
  {
    hide Rounds, Round, BitsOf;
    var x := Xor(c, High(d));
    RoundsLinear(x, Low(e), 8);
    LowByteShifts(e);
    RoundsAdd(Xor(x, Low(e)), 8, 8);
    assert Xor(x, Low(e)) == Xor(c, Bits16(BitsOf(d), BitsOf(e)));
  }

  lemma TwoStepsInjective(c: Bits16, d: byte, e: byte, f: byte, g: byte)
    requires Step(Step(c, d), e) == Step(Step(c, f), g)
    ensures d == f && e == g
  {
    hide Rounds, Round, BitsOf, Step, Xor;
    var u, v := Bits16(BitsOf(d), BitsOf(e)), Bits16(BitsOf(f), BitsOf(g));
    TwoSteps(c, d, e);
    TwoSteps(c, f, g);
    RoundsInjective(Xor(c, u), Xor(c, v), 16);
    XorAssoc(c, u, c);
    XorAssoc(c, v, c);
    XorCancels(u, v, c);
    ByteOfBitsOf(d);
    ByteOfBitsOf(e);
    ByteOfBitsOf(f);
    ByteOfBitsOf(g);
  }

  /** `a` and `b` have one length and agree outside positions `k` and `k + 1`. */
  ghost predicate AgreeOutsidePair(a: seq<byte>, b: seq<byte>, k: nat) {
    && |a| == |b|
    && k + 2 <= |a|
    && a[..k] == b[..k]
    && a[k + 2..] == b[k + 2..]
  }

  lemma FoldOne(c: Bits16, x: byte)
    ensures Fold(c, [x]) == Step(c, x)
  {
    assert [x][..0] == [];
  }

  lemma FoldPair(c: Bits16, d: seq<byte>, k: nat)
    requires k + 2 <= |d|
    ensures Fold(c, d) == Fold(Step(Step(Fold(c, d[..k]), d[k]), d[k + 1]), d[k + 2..])
  {
    hide *;
    assert d == d[..k] + [d[k]] + [d[k + 1]] + d[k + 2..];
    FoldConcat(c, d[..k] + [d[k]] + [d[k + 1]], d[k + 2..]);
    FoldConcat(c, d[..k] + [d[k]], [d[k + 1]]);
    FoldConcat(c, d[..k], [d[k]]);
    FoldOne(Fold(c, d[..k]), d[k]);
    FoldOne(Step(Fold(c, d[..k]), d[k]), d[k + 1]);
  }

  /** A CRC that did not move leaves the two bytes unmoved. */
  lemma SameCrcSamePair(a: seq<byte>, b: seq<byte>, k: nat)
    requires AgreeOutsidePair(a, b, k)
    requires CrcBytes(a) == CrcBytes(b)
    ensures a[k] == b[k] && a[k + 1] == b[k + 1]
  {
    hide Step, Fold, ByteOf;
    var c := Fold(START, a[..k]);
    ByteOfInjective(Fold(START, a).lo, Fold(START, b).lo);
    ByteOfInjective(Fold(START, a).hi, Fold(START, b).hi);
    FoldPair(START, a, k);
    FoldPair(START, b, k);
    FoldInjective(Step(Step(c, a[k]), a[k + 1]), Step(Step(c, b[k]), b[k + 1]), a[k + 2..]);
    TwoStepsInjective(c, a[k], a[k + 1], b[k], b[k + 1]);
  }

  /** Any change confined to one byte, or to two neighbouring bytes, changes the CRC. */
  lemma CrcDetectsPair(a: seq<byte>, b: seq<byte>, k: nat)
    requires AgreeOutsidePair(a, b, k)
    requires a != b
    ensures CrcBytes(a) != CrcBytes(b)
  {
    hide CrcBytes;
    assert a == a[..k] + [a[k], a[k + 1]] + a[k + 2..];
    assert b == b[..k] + [b[k], b[k + 1]] + b[k + 2..];
    if CrcBytes(a) == CrcBytes(b) {
      SameCrcSamePair(a, b, k);
      assert false;
    }
  }

  /** Such an alteration inside the first `n` bytes changes their CRC and leaves the rest alone. */
  lemma CrcDetectsPairInPrefix(a: seq<byte>, b: seq<byte>, k: nat, n: nat)
    requires AgreeOutsidePair(a, b, k) && a != b
    requires k + 2 <= n <= |a|
    ensures a[n..] == b[n..]
    ensures CrcBytes(a[..n]) != CrcBytes(b[..n])
  {
    hide CrcBytes;
    assert forall i :: k + 2 <= i < |a| ==> a[i] == a[k + 2..][i - k - 2] && b[i] == b[k + 2..][i - k - 2];
    assert a[..n][..k] == a[..k] && b[..n][..k] == b[..k];
    assert a[..n][k + 2..] == b[..n][k + 2..];
    assert a == a[..n] + a[n..] && b == b[..n] + b[n..];
    CrcDetectsPair(a[..n], b[..n], k);
  }
}
