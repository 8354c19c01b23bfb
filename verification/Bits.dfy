/** A byte as its eight bits, for the places where the firmware works on bits. */
module Bits {
  import opened Bytes

  /** Eight bits, highest first. */
  datatype Bits8 = Bits8(b7: bool, b6: bool, b5: bool, b4: bool, b3: bool, b2: bool, b1: bool, b0: bool)

  const ZEROS := Bits8(false, false, false, false, false, false, false, false)
  const ONES := Bits8(true, true, true, true, true, true, true, true)

  function Half(n: nat): nat {
    n / 2
  }

  predicate Odd(n: nat) {
    n % 2 == 1
  }

  /** The bits of a byte, peeled off from the bottom. */
  function BitsOf(v: byte): Bits8 {
    var d1 := Half(v);
    var d2 := Half(d1);
    var d3 := Half(d2);
    var d4 := Half(d3);
    var d5 := Half(d4);
    var d6 := Half(d5);
    var d7 := Half(d6);
    Bits8(Odd(d7), Odd(d6), Odd(d5), Odd(d4), Odd(d3), Odd(d2), Odd(d1), Odd(v))
  }

  /** One more binary digit below `p`. */
  function Push(bit: bool, p: nat): (n: nat)
    ensures forall bound: nat :: p < bound ==> n < 2 * bound
  {
    2 * p + if bit then 1 else 0
  }

  function ByteOf(b: Bits8): byte {
    var p4: nat := Push(b.b4, Push(b.b5, Push(b.b6, Push(b.b7, 0))));
    assert p4 < 16 by {
      assert Push(b.b7, 0) < 2 * 1;
      assert Push(b.b6, Push(b.b7, 0)) < 2 * 2;
      assert Push(b.b5, Push(b.b6, Push(b.b7, 0))) < 2 * 4;
      assert p4 < 2 * 8;
    }
    var p0: nat := Push(b.b0, Push(b.b1, Push(b.b2, Push(b.b3, p4))));
    assert p0 < 256 by {
      assert Push(b.b3, p4) < 2 * 16;
      assert Push(b.b2, Push(b.b3, p4)) < 2 * 32;
      assert Push(b.b1, Push(b.b2, Push(b.b3, p4))) < 2 * 64;
      assert p0 < 2 * 128;
    }
    p0
  }

  lemma PushBack(d: nat)
    ensures d == Push(Odd(d), Half(d))
  {
  }

  lemma PushInjective(a: bool, p: nat, b: bool, q: nat)
    requires Push(a, p) == Push(b, q)
    ensures a == b && p == q
  {
  }

  lemma HalfBound(n: nat, bound: nat)
    requires n < 2 * bound
    ensures Half(n) < bound
  {
  }

  lemma ByteOfBitsOf(v: byte)
    ensures ByteOf(BitsOf(v)) == v
  {
    hide Half, Odd, Push;
    var d1 := Half(v);
    var d2 := Half(d1);
    var d3 := Half(d2);
    var d4 := Half(d3);
    var d5 := Half(d4);
    var d6 := Half(d5);
    var d7 := Half(d6);
    PushBack(v);
    PushBack(d1);
    PushBack(d2);
    PushBack(d3);
    PushBack(d4);
    PushBack(d5);
    PushBack(d6);
    PushBack(d7);
    HalfBound(v, 128);
    HalfBound(d1, 64);
    HalfBound(d2, 32);
    HalfBound(d3, 16);
    HalfBound(d4, 8);
    HalfBound(d5, 4);
    HalfBound(d6, 2);
    HalfBound(d7, 1);
  }

  lemma ByteOfInjective(a: Bits8, b: Bits8)
    requires ByteOf(a) == ByteOf(b)
    ensures a == b
  {
    hide Push;
    var p7, q7 := Push(a.b7, 0), Push(b.b7, 0);
    var p6, q6 := Push(a.b6, p7), Push(b.b6, q7);
    var p5, q5 := Push(a.b5, p6), Push(b.b5, q6);
    var p4, q4 := Push(a.b4, p5), Push(b.b4, q5);
    var p3, q3 := Push(a.b3, p4), Push(b.b3, q4);
    var p2, q2 := Push(a.b2, p3), Push(b.b2, q3);
    var p1, q1 := Push(a.b1, p2), Push(b.b1, q2);
    PushInjective(a.b0, p1, b.b0, q1);
    PushInjective(a.b1, p2, b.b1, q2);
    PushInjective(a.b2, p3, b.b2, q3);
    PushInjective(a.b3, p4, b.b3, q4);
    PushInjective(a.b4, p5, b.b4, q5);
    PushInjective(a.b5, p6, b.b5, q6);
    PushInjective(a.b6, p7, b.b6, q7);
    PushInjective(a.b7, 0, b.b7, 0);
  }

  function Xor8(a: Bits8, b: Bits8): Bits8 {
    Bits8(a.b7 != b.b7, a.b6 != b.b6, a.b5 != b.b5, a.b4 != b.b4,
          a.b3 != b.b3, a.b2 != b.b2, a.b1 != b.b1, a.b0 != b.b0)
  }

  function Or8(a: Bits8, b: Bits8): Bits8 {
    Bits8(a.b7 || b.b7, a.b6 || b.b6, a.b5 || b.b5, a.b4 || b.b4,
          a.b3 || b.b3, a.b2 || b.b2, a.b1 || b.b1, a.b0 || b.b0)
  }

  /** Two bytes differ in some bit unless they are equal. */
  lemma XorZero(a: byte, b: byte)
    ensures Xor8(BitsOf(a), BitsOf(b)) == ZEROS <==> a == b
  {
    hide BitsOf;
    ByteOfBitsOf(a);
    ByteOfBitsOf(b);
  }
}
