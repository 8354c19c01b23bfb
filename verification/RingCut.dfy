/** What a save cut by a power failure leaves in its page: the new record's bytes in front, the old
    page behind.  Here the CRC earns its place in the crash safety of the ring. */
module RingCut {
  import opened Bytes
  import opened PersistRing
  import Bits
  import Crc16

  /** The page after a write of `r` over `was` that got as far as byte `c`. */
  function CutPage(r: Record, was: seq<byte>, c: nat): (p: seq<byte>)
    requires |was| == SLOT_SIZE && c <= SLOT_SIZE
    ensures |p| == SLOT_SIZE
  {
    Image(r)[..c] + was[c..]
  }

  /** The register after the bytes a cut page has from the new record. */
  function Register(b: seq<byte>, c: nat): Crc16.Bits16
    requires c <= |b|
  {
    Crc16.Fold(Crc16.START, b[..c])
  }

  lemma SameBytesSameRegister(a: Crc16.Bits16, b: Crc16.Bits16)
    ensures [Bits.ByteOf(a.lo), Bits.ByteOf(a.hi)] == [Bits.ByteOf(b.lo), Bits.ByteOf(b.hi)] <==> a == b
  {
    var x, y := [Bits.ByteOf(a.lo), Bits.ByteOf(a.hi)], [Bits.ByteOf(b.lo), Bits.ByteOf(b.hi)];
    if x == y {
      assert x[0] == y[0] && x[1] == y[1];
      Bits.ByteOfInjective(a.lo, b.lo);
      Bits.ByteOfInjective(a.hi, b.hi);
    }
  }

  /** A page is valid when its magic and version are right and its CRC is that of its body. */
  lemma ValidExactly(b: seq<byte>)
    requires |b| == SLOT_SIZE
    ensures Decode(b).Some? <==>
            b[0..4] == Put32(MAGIC) && b[8] == VERSION && Crc16.CrcBytes(b[..CRC_AT]) == b[CRC_AT..REC_LEN]
  {
    hide Crc16.CrcBytes;
    GetPut32(MAGIC);
    PutGet32(b[0..4]);
  }

  /** Over a valid old record, a write cut inside the covered bytes leaves a valid page exactly when
      the CRC register had come to the same value over the new bytes as over the old ones. */
  lemma CutInBodyExactly(r: Record, was: seq<byte>, c: nat)
    requires |was| == SLOT_SIZE && Decode(was).Some? && c <= CRC_AT
    ensures Decode(CutPage(r, was, c)).Some? <==> Register(Image(r), c) == Register(was, c)
  {
    hide Crc16.Fold, Decode, Image, Bits.ByteOf, Put32;
    var p, full := CutPage(r, was, c), Image(r);
    DecodeImage(r);
    ValidExactly(full);
    ValidExactly(was);
    ValidExactly(p);
    CutHeader(full, was, c);
    assert p[CRC_AT..REC_LEN] == was[CRC_AT..REC_LEN];
    assert p[..CRC_AT] == full[..c] + was[c..CRC_AT] && was[..CRC_AT] == was[..c] + was[c..CRC_AT];
    Crc16.FoldConcat(Crc16.START, full[..c], was[c..CRC_AT]);
    Crc16.FoldConcat(Crc16.START, was[..c], was[c..CRC_AT]);
    SameBytesSameRegister(Crc16.Fold(Crc16.START, p[..CRC_AT]), Crc16.Fold(Crc16.START, was[..CRC_AT]));
    if Decode(p).Some? {
      Crc16.FoldInjective(Register(full, c), Register(was, c), was[c..CRC_AT]);
    }
  }

  lemma CutHeader(a: seq<byte>, b: seq<byte>, c: nat)
    requires |a| == |b| == SLOT_SIZE && c <= SLOT_SIZE
    requires a[0..4] == b[0..4] && a[8] == b[8]
    ensures var p := a[..c] + b[c..]; p[0..4] == b[0..4] && p[8] == b[8]
  {
    var p := a[..c] + b[c..];
    forall i | 0 <= i < 4
      ensures p[i] == b[i]
    {
      assert a[i] == a[0..4][i] && b[i] == b[0..4][i];
    }
  }

  /** A write cut between the two CRC bytes leaves a valid page exactly when the old page happens to
      hold the second one; a write cut after them leaves the new record. */
  lemma CutAfterBody(r: Record, was: seq<byte>, c: nat)
    requires |was| == SLOT_SIZE && CRC_AT < c <= SLOT_SIZE
    ensures c == CRC_AT + 1 ==> (Decode(CutPage(r, was, c)).Some? <==> was[CRC_AT + 1] == Image(r)[CRC_AT + 1])
    ensures c >= REC_LEN ==> Decode(CutPage(r, was, c)) == Some(r)
  {
    hide Crc16.CrcBytes, Decode, Image, Put32;
    var p, full := CutPage(r, was, c), Image(r);
    DecodeImage(r);
    ValidExactly(full);
    ValidExactly(p);
    assert p[..CRC_AT] == full[..CRC_AT] && p[0..4] == full[0..4];
    if c >= REC_LEN {
      assert p[..REC_LEN] == full[..REC_LEN];
      DecodeExact(p, r);
    } else {
      assert p[CRC_AT..REC_LEN] == [full[CRC_AT], was[CRC_AT + 1]];
      assert full[CRC_AT..REC_LEN] == [full[CRC_AT], full[CRC_AT + 1]];
    }
  }

  /** So a cut is always rejected when what it had written so far differs from the old page only
      within two neighbouring bytes. */
  lemma SmallCutIsRejected(r: Record, was: seq<byte>, c: nat, k: nat)
    requires |was| == SLOT_SIZE && Decode(was).Some? && k + 2 <= c <= CRC_AT
    requires Crc16.AgreeOutsidePair(Image(r)[..c], was[..c], k) && Image(r)[..c] != was[..c]
    ensures Decode(CutPage(r, was, c)) == None
  {
    hide Crc16.Fold, Decode, Image, Bits.ByteOf;
    CutInBodyExactly(r, was, c);
    Crc16.CrcDetectsPair(Image(r)[..c], was[..c], k);
    SameBytesSameRegister(Register(Image(r), c), Register(was, c));
  }

  /** In particular when only the number has moved on, and not past its low two bytes: a save that
      repeats the state it overwrites is safe wherever it is cut. */
  lemma RepeatedStateCutIsSafe(s: RingState, prev: u32, seqNo: u32, rest: seq<byte>, c: nat)
    requires |rest| == SLOT_SIZE - REC_LEN && prev != seqNo && prev / 0x1_0000 == seqNo / 0x1_0000
    requires c <= CRC_AT
    ensures var was := Image(Record(s, prev))[..REC_LEN] + rest;
            var p := CutPage(Record(s, seqNo), was, c);
            p == was || Decode(p) == None
  {
    hide Crc16.CrcBytes, Decode, Crc16.Fold;
    var was := Image(Record(s, prev))[..REC_LEN] + rest;
    var a, b := Image(Record(s, seqNo)), Image(Record(s, prev));
    DecodeExact(was, Record(s, prev));
    HighBytesAgree(prev, seqNo);
    BodiesAgree(s, prev, seqNo);
    assert forall i :: 0 <= i < CRC_AT ==> was[i] == b[i];
    var p := CutPage(Record(s, seqNo), was, c);
    if a[..c] == was[..c] {
      assert p == was[..c] + was[c..] == was;
    } else if c >= 6 {
      assert a[..c][..4] == was[..c][..4];
      assert a[..c][6..] == was[..c][6..];
      SmallCutIsRejected(Record(s, seqNo), was, c, 4);
    } else {
      assert c == 5;
      assert a[..c][..3] == was[..c][..3];
      assert a[..c][5..] == was[..c][5..];
      SmallCutIsRejected(Record(s, seqNo), was, c, 3);
    }
  }

  lemma HighBytesAgree(a: u32, b: u32)
    requires a / 0x1_0000 == b / 0x1_0000
    ensures Put32(a)[2] == Put32(b)[2] && Put32(a)[3] == Put32(b)[3]
  {
    var x: int, y: int := a, b;
    assert x / 0x100 / 0x100 == x / 0x1_0000 && y / 0x100 / 0x100 == y / 0x1_0000;
  }

  lemma BodiesAgree(s: RingState, prev: u32, seqNo: u32)
    requires Put32(prev)[2] == Put32(seqNo)[2] && Put32(prev)[3] == Put32(seqNo)[3]
    ensures forall i :: 0 <= i < CRC_AT && i != 4 && i != 5 ==>
              Image(Record(s, prev))[i] == Image(Record(s, seqNo))[i]
  {
    hide Put32, Crc16.CrcBytes;
  }
}
