/** Guest codes on the chip: the 64-byte record and the choice between a slot's two halves. */
module PersistCodes {
  import opened Bytes
  import opened AccessCore
  import Bits
  import Crc16

  const REC_SIZE := 64
  const MAGIC: u32 := 0x45444F43
  const VERSION: byte := 1
  const CRC_AT := 60
  const F_OCCUPIED: byte := 1

  type IdField = b: seq<byte> | |b| == 9 witness Run(0, 9)

  /** `pc_code_t`, its id kept as the raw nine-byte field. */
  datatype Code = Code(occupied: bool, id: IdField, hash: Hash, validFrom: u32, validUntil: u32)

  datatype Record = Record(code: Code, generation: u32)

  const NO_ID: IdField := Run(0, 9)
  const NO_CODE := Code(false, NO_ID, ZERO_HASH, 0, 0)

  /** What a record actually stores: a free slot carries nothing of the code it held. */
  function Erased(c: Code): Code {
    if c.occupied then c else NO_CODE
  }

  /** The id field with its last byte forced to NUL. */
  function Terminated(c: Code): Code {
    c.(id := c.id[..8] + [0])
  }

  function FieldsOf(c: Code): (b: seq<byte>)
    ensures |b| == 50
  {
    c.id + [0] + c.hash + Put32(c.validFrom) + Put32(c.validUntil)
  }

  /** The CRC-covered bytes of a record. */
  function Body(r: Record): (b: seq<byte>)
    ensures |b| == CRC_AT
  {
    Put32(MAGIC) + Put32(r.generation) + [VERSION, if r.code.occupied then F_OCCUPIED else 0] + FieldsOf(Erased(r.code))
  }

  /** The 64-byte record `pc_encode` writes. */
  function Image(r: Record): (b: seq<byte>)
    ensures |b| == REC_SIZE
  {
    Body(r) + Crc16.CrcBytes(Body(r)) + Run(0xFF, 2)
  }

  method Encode(out: array<byte>, c: Code, generation: u32)
    requires out.Length == REC_SIZE
    modifies out
    ensures out[..] == Image(Record(c, generation))
  {
    hide Put32, Crc16.CrcBytes, Bits.ByteOf;
    Fill(out, 0xFF);
    StoreWord(out, 0, MAGIC);
    StoreWord(out, 4, generation);
    StoreBytes(out, 8, [VERSION, if c.occupied then F_OCCUPIED else 0]);
    if c.occupied {
      StoreBytes(out, 10, c.id + [0]);
      StoreBytes(out, 20, c.hash);
    } else {
      StoreBytes(out, 10, NO_ID + [0]);
      StoreBytes(out, 20, ZERO_HASH);
    }
    StoreWord(out, 52, if c.occupied then c.validFrom else 0);
    StoreWord(out, 56, if c.occupied then c.validUntil else 0);
    assert out[..CRC_AT] == Body(Record(c, generation));
    var crc := Crc16.Compute(out, CRC_AT);
    StoreBytes(out, CRC_AT, [Bits.ByteOf(crc.lo), Bits.ByteOf(crc.hi)]);
    assert out[62..] == Run(0xFF, 2);
    assert out[..] == out[..62] + out[62..];
  }

  function Decode(b: seq<byte>): Option<Record>
    requires |b| == REC_SIZE
  {
    if Get32(b[0..4]) != MAGIC || b[8] != VERSION then None
    else if Crc16.CrcBytes(b[..CRC_AT]) != b[CRC_AT..62] then None
    else
      var stored := Code(true, b[10..19], b[20..52], Get32(b[52..56]), Get32(b[56..60]));
      var code := if b[9] % 2 == 1 then Terminated(stored) else NO_CODE;
      Some(Record(code, Get32(b[4..8])))
  }

  lemma BodyFields(r: Record)
    ensures var b, c := Body(r), Erased(r.code);
            && b[0..4] == Put32(MAGIC) && b[4..8] == Put32(r.generation)
            && b[8] == VERSION && b[9] == (if r.code.occupied then F_OCCUPIED else 0)
            && b[10..19] == c.id && b[20..52] == c.hash
            && b[52..56] == Put32(c.validFrom) && b[56..60] == Put32(c.validUntil)
  {
    hide Put32;
  }

  /** What is encoded is what is decoded, up to the forced NUL and the erased fields. */
  lemma DecodeImage(r: Record)
    ensures Decode(Image(r)) == Some(Record(Terminated(Erased(r.code)), r.generation))
  {
    hide Put32, Get32, Crc16.CrcBytes, Body;
    var b, c := Image(r), Erased(r.code);
    BodyFields(r);
    assert b[..CRC_AT] == Body(r);
    assert b[CRC_AT..62] == Crc16.CrcBytes(Body(r));
    assert forall i, j :: 0 <= i <= j <= CRC_AT ==> b[i..j] == b[..CRC_AT][i..j];
    assert b[8] == b[..CRC_AT][8] && b[9] == b[..CRC_AT][9];
    GetPut32(MAGIC);
    GetPut32(r.generation);
    GetPut32(c.validFrom);
    GetPut32(c.validUntil);
    assert Terminated(NO_CODE) == NO_CODE;
  }

  /** Altering a valid record within one byte, or two adjacent bytes, of the covered region
      always makes it invalid. */
  lemma DecodeRejectsPair(good: seq<byte>, bad: seq<byte>, k: nat)
    requires |good| == REC_SIZE && Decode(good).Some?
    requires k + 2 <= CRC_AT
    requires Crc16.AgreeOutsidePair(good, bad, k) && good != bad
    ensures Decode(bad) == None
  {
    hide Crc16.CrcBytes, Get32;
    Crc16.CrcDetectsPairInPrefix(good, bad, k, CRC_AT);
    assert good[CRC_AT..62] == good[CRC_AT..][..2];
    assert bad[CRC_AT..62] == bad[CRC_AT..][..2];
  }

  // ---- the two halves of a slot ----

  type Pair = b: seq<byte> | |b| == 128 witness Run(0xFF, 128)

  function HalfAt(p: Pair, half: nat): (b: seq<byte>)
    requires half < 2
    ensures |b| == REC_SIZE
  {
    if half == 0 then p[..64] else p[64..]
  }

  /** The pair with one half replaced. */
  function WithHalf(p: Pair, half: nat, b: seq<byte>): (q: Pair)
    requires half < 2 && |b| == REC_SIZE
    ensures HalfAt(q, half) == b && HalfAt(q, 1 - half) == HalfAt(p, 1 - half)
  {
    if half == 0 then b + p[64..] else p[..64] + b
  }

  /** The newer of two decoded halves; the second one when neither is ahead. */
  function Newer(a: Option<Record>, b: Option<Record>): Option<Record> {
    if a.None? && b.None? then None
    else if a.Some? && (b.None? || Ahead(a.value.generation, b.value.generation)) then a
    else b
  }

  function Successor(g: u32): u32 {
    (g + 1) % WORD
  }

  /** The half to overwrite, and the generation to write there. */
  function HalfToWrite(a: Option<Record>, b: Option<Record>): (r: (nat, u32))
    ensures r.0 < 2
  {
    if a.None? && b.None? then (0, 1)
    else if b.None? then (1, Successor(a.value.generation))
    else if a.None? then (0, Successor(b.value.generation))
    else if Ahead(a.value.generation, b.value.generation) then (1, Successor(a.value.generation))
    else (0, Successor(b.value.generation))
  }

  /** `pc_slot_read`. */
  function SlotRead(p: Pair): Option<Record> {
    Newer(Decode(HalfAt(p, 0)), Decode(HalfAt(p, 1)))
  }

  /** `pc_slot_write_half`. */
  function WriteHalf(p: Pair): (r: (nat, u32))
    ensures r.0 < 2
  {
    HalfToWrite(Decode(HalfAt(p, 0)), Decode(HalfAt(p, 1)))
  }

  /** A load finds nothing exactly when neither half decodes; otherwise it returns a half that the
      other one is not ahead of, the second if neither is ahead.  The first save of all goes to the
      first half as generation 1. */
  lemma SlotReadExactly(p: Pair)
    ensures var a, b, r := Decode(HalfAt(p, 0)), Decode(HalfAt(p, 1)), SlotRead(p);
            && (r == None <==> a == None && b == None)
            && (r == None ==> WriteHalf(p) == (0, 1))
            && (r.Some? ==>
                  || (r == a && (b == None || Ahead(a.value.generation, b.value.generation)))
                  || (r == b && (a == None || !Ahead(a.value.generation, b.value.generation))))
  {
    hide Decode;
  }

  /** The half chosen for writing is never the one a load returns: whatever ends up in it, as
      long as it does not decode, the load is unchanged.  So a save cut anywhere costs nothing. */
  lemma TornHalfKeepsRecord(p: Pair, torn: seq<byte>)
    requires |torn| == REC_SIZE && Decode(torn) == None
    ensures SlotRead(WithHalf(p, WriteHalf(p).0, torn)) == SlotRead(p)
  {
    hide Decode;
  }

  /** A record of generation `g`, found in the half just written, is read instead of the kept one. */
  predicate Overtakes(half: nat, g: u32, kept: u32) {
    if half == 0 then Ahead(g, kept) else !Ahead(kept, g)
  }

  /** What a cut save leaves is harmless exactly when it does not decode, or decodes to the very
      record already there, or to one that does not overtake it: only the CRC stands in between. */
  lemma TornHalfExactly(p: Pair, torn: seq<byte>)
    requires |torn| == REC_SIZE
    ensures var half, left, kept := WriteHalf(p).0, Decode(torn), SlotRead(p);
            SlotRead(WithHalf(p, half, torn)) == kept <==>
            || left == None || left == kept
            || (kept.Some? && !Overtakes(half, left.value.generation, kept.value.generation))
  {
    hide Decode;
  }

  lemma WriteHalfIsNotRead(p: Pair)
    requires SlotRead(p).Some?
    ensures Decode(HalfAt(p, 1 - WriteHalf(p).0)) == SlotRead(p)
  {
    hide Decode;
  }

  /** A completed save is what the next load returns, for every pair of generations, and the
      record it replaces is still there in the other half. */
  lemma CompletedSaveIsRead(p: Pair, c: Code)
    ensures var (half, gen) := WriteHalf(p);
            var q := WithHalf(p, half, Image(Record(c, gen)));
            && SlotRead(q) == Some(Record(Terminated(Erased(c)), gen))
            && Decode(HalfAt(q, 1 - half)) == SlotRead(p)
  {
    hide Decode, Image;
    var (half, gen) := WriteHalf(p);
    DecodeImage(Record(c, gen));
    var a, b := Decode(HalfAt(p, 0)), Decode(HalfAt(p, 1));
    if a.Some? && b.Some? {
      SuccessorAhead(a.value.generation);
      SuccessorAhead(b.value.generation);
    } else if a.Some? {
      SuccessorAhead(a.value.generation);
    } else if b.Some? {
      SuccessorAhead(b.value.generation);
    }
  }

  lemma SuccessorAhead(g: u32)
    ensures Ahead(Successor(g), g) && !Ahead(g, Successor(g))
  {
  }

  /** Two completed saves of an emptied slot leave neither half holding a code. */
  lemma TwoErasesClearBoth(p: Pair, c: Code, d: Code)
    requires !c.occupied && !d.occupied
    ensures var (h, g) := WriteHalf(p);
            var q := WithHalf(p, h, Image(Record(c, g)));
            var (i, k) := WriteHalf(q);
            var r := WithHalf(q, i, Image(Record(d, k)));
            forall half :: 0 <= half < 2 ==>
                Decode(HalfAt(r, half)).Some? && Decode(HalfAt(r, half)).value.code == NO_CODE
  {
    hide Decode, Image, WriteHalf, SlotRead;
    var (h, g) := WriteHalf(p);
    var q := WithHalf(p, h, Image(Record(c, g)));
    var (i, k) := WriteHalf(q);
    CompletedSaveIsRead(p, c);
    CompletedSaveIsRead(q, d);
    DecodeImage(Record(d, k));
    assert Terminated(NO_CODE) == NO_CODE;
  }

  // ---- between the record and the table ----

  /** The id field of a slot whose id is `id`: the text, padded with NULs. */
  function IdBytes(id: IdText): (b: IdField) {
    seq(9, i requires 0 <= i < 9 => if i < |id| then id[i] as int else 0)
  }

  /** The C string held in a buffer, from `i` on. */
  function TextFrom(b: seq<byte>, i: nat): (s: CString)
    requires i <= |b|
    ensures |s| <= |b| - i
    decreases |b| - i
  {
    if i == |b| || b[i] == 0 then "" else [b[i] as char] + TextFrom(b, i + 1)
  }

  lemma {:induction false} TextOfIdBytes(id: IdText, i: nat)
    requires i <= |id|
    ensures TextFrom(IdBytes(id)[..8], i) == id[i..]
    decreases |id| - i
  {
    if i == |id| {
    } else {
      TextOfIdBytes(id, i + 1);
    }
  }

  /** The table slot a stored code turns back into: never a transient one. */
  function Restored(c: Code): Slot {
    Slot(true, false, TextFrom(c.id[..8], 0), c.hash, c.validFrom, c.validUntil)
  }

  /** `pc_apply`: a decoded record goes back to the index it came from, as a stored code. */
  function Applied(t: Table, slot: nat, c: Code): Table
    requires slot < 5
  {
    if !c.occupied then t
    else t[slot := Restored(c)]
  }

  method Apply(ctx: AccessContext, slot: int, c: Code) returns (ok: bool)
    modifies ctx
    ensures ok <==> 0 <= slot < 5 && c.occupied
    ensures ctx.Value() == old(ctx.Value()).(slots := if ok then Applied(old(ctx.slots), slot, c) else old(ctx.slots))
  {
    if slot < 0 || slot >= 5 || !c.occupied {
      return false;
    }
    ctx.slots := ctx.slots[slot := Slot(true, false, TextFrom(c.id[..8], 0), c.hash, c.validFrom, c.validUntil)];
    ok := true;
  }
}
