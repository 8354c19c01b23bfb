/** The wear-levelled ring that holds the attempt counter: record format, scan, cursor. */
module PersistRing {
  import opened Bytes
  import Bits
  import Crc16

  const SLOT_SIZE := 32
  const SLOTS := 64
  const MAGIC: u32 := 0x47415445
  const VERSION: byte := 1
  const CRC_AT := 18
  const REC_LEN := 20

  datatype RingState = RingState(attempts: byte, lockoutUntil: u32, bootCount: u32)

  /** A decoded record. */
  datatype Record = Record(state: RingState, seqNo: u32)

  /** The newest valid record: its slot, -1 when there is none, and its sequence number. */
  datatype Cursor = Cursor(slot: int, seqNo: u32)

  const NO_RECORD := Cursor(-1, 0)

  /** The CRC-covered bytes of a record. */
  function Body(r: Record): (b: seq<byte>)
    ensures |b| == CRC_AT
  {
    Put32(MAGIC) + Put32(r.seqNo) + [VERSION, r.state.attempts] + Put32(r.state.lockoutUntil) + Put32(r.state.bootCount)
  }

  /** The 32-byte slot image of a record. */
  function Image(r: Record): (b: seq<byte>)
    ensures |b| == SLOT_SIZE
  {
    Body(r) + Crc16.CrcBytes(Body(r)) + Run(0xFF, SLOT_SIZE - REC_LEN)
  }

  /** Field extraction and the three checks of `pr_decode`. */
  function Decode(b: seq<byte>): Option<Record>
    requires |b| == SLOT_SIZE
  {
    if Get32(b[0..4]) != MAGIC || b[8] != VERSION then None
    else if Crc16.CrcBytes(b[..CRC_AT]) != b[CRC_AT..REC_LEN] then None
    else Some(Record(RingState(b[9], Get32(b[10..14]), Get32(b[14..18])), Get32(b[4..8])))
  }

  /** Fills a slot buffer, as `pr_encode` does. */
  method Encode(out: array<byte>, s: RingState, seqNo: u32)
    requires out.Length == SLOT_SIZE
    modifies out
    ensures out[..] == Image(Record(s, seqNo))
  {
    hide Put32, Crc16.CrcBytes, Bits.ByteOf;
    Fill(out, 0xFF);
    StoreWord(out, 0, MAGIC);
    StoreWord(out, 4, seqNo);
    StoreBytes(out, 8, [VERSION, s.attempts]);
    StoreWord(out, 10, s.lockoutUntil);
    StoreWord(out, 14, s.bootCount);
    assert out[..CRC_AT] == Body(Record(s, seqNo));
    var crc := Crc16.Compute(out, CRC_AT);
    StoreBytes(out, CRC_AT, [Bits.ByteOf(crc.lo), Bits.ByteOf(crc.hi)]);
    assert out[REC_LEN..] == Run(0xFF, SLOT_SIZE - REC_LEN);
    assert out[..] == out[..REC_LEN] + out[REC_LEN..];
  }

  lemma BodyFields(r: Record)
    ensures var b := Body(r);
            && b[0..4] == Put32(MAGIC) && b[4..8] == Put32(r.seqNo)
            && b[8] == VERSION && b[9] == r.state.attempts
            && b[10..14] == Put32(r.state.lockoutUntil) && b[14..18] == Put32(r.state.bootCount)
  {
  }

  /** Decoding is exact: a slot decodes to `r` when, and only when, its first twenty bytes are
      the ones encoding `r` writes. */
  lemma DecodeExact(b: seq<byte>, r: Record)
    requires |b| == SLOT_SIZE
    ensures Decode(b) == Some(r) <==> b[..REC_LEN] == Image(r)[..REC_LEN]
  {
    hide Crc16.CrcBytes, Put32, Get32;
    BodyFields(r);
    GetPut32(MAGIC);
    GetPut32(r.seqNo);
    GetPut32(r.state.lockoutUntil);
    GetPut32(r.state.bootCount);
    var front := b[..CRC_AT];
    assert b[..REC_LEN] == front + b[CRC_AT..REC_LEN];
    assert Image(r)[..REC_LEN] == Body(r) + Crc16.CrcBytes(Body(r));
    assert front[0..4] == b[0..4] && front[4..8] == b[4..8] && front[10..14] == b[10..14] && front[14..18] == b[14..18];
    if Decode(b) == Some(r) {
      PutGet32(b[0..4]);
      PutGet32(b[4..8]);
      PutGet32(b[10..14]);
      PutGet32(b[14..18]);
      assert front == b[0..4] + b[4..8] + [b[8], b[9]] + b[10..14] + b[14..18];
    }
    if b[..REC_LEN] == Image(r)[..REC_LEN] {
      assert front == b[..REC_LEN][..CRC_AT] == Body(r);
      assert b[CRC_AT..REC_LEN] == b[..REC_LEN][CRC_AT..] == Crc16.CrcBytes(Body(r));
    }
  }

  lemma DecodeImage(r: Record)
    ensures Decode(Image(r)) == Some(r)
  {
    DecodeExact(Image(r), r);
  }

  /** Altering a valid record within one byte, or two adjacent bytes, of the covered region
      always makes it invalid. */
  lemma DecodeRejectsPair(good: seq<byte>, bad: seq<byte>, k: nat)
    requires |good| == SLOT_SIZE && Decode(good).Some?
    requires k + 2 <= CRC_AT
    requires Crc16.AgreeOutsidePair(good, bad, k) && good != bad
    ensures Decode(bad) == None
  {
    hide Crc16.CrcBytes, Get32;
    Crc16.CrcDetectsPairInPrefix(good, bad, k, CRC_AT);
    assert good[CRC_AT..REC_LEN] == good[CRC_AT..][..2];
    assert bad[CRC_AT..REC_LEN] == bad[CRC_AT..][..2];
  }

  // ---- the scan ----

  /** The image holds at least `n` whole slots. */
  predicate Holds(image: seq<byte>, n: nat) {
    32 * n <= |image|
  }

  function Page(image: seq<byte>, i: nat): (p: seq<byte>)
    requires Holds(image, i + 1)
    ensures |p| == SLOT_SIZE
  {
    image[32 * i..32 * i + 32]
  }

  function DecodeAt(image: seq<byte>, i: nat): Option<Record>
    requires Holds(image, i + 1)
  {
    Decode(Page(image, i))
  }

  /** `cur` and `found` are what a scan of the first `n` slots must report: nothing when no
      slot is valid, otherwise the first slot that carries the highest sequence number. */
  ghost predicate IsLatest(image: seq<byte>, n: nat, found: Option<RingState>, cur: Cursor)
    requires Holds(image, n)
  {
    if cur.slot < 0 then
      && cur == NO_RECORD && found == None
      && forall i :: 0 <= i < n ==> DecodeAt(image, i) == None
    else
      && cur.slot < n && found.Some?
      && DecodeAt(image, cur.slot) == Some(Record(found.value, cur.seqNo))
      && (forall i :: 0 <= i < n && DecodeAt(image, i).Some? ==> DecodeAt(image, i).value.seqNo <= cur.seqNo)
      && (forall i :: 0 <= i < cur.slot && DecodeAt(image, i).Some? ==> DecodeAt(image, i).value.seqNo < cur.seqNo)
  }

  /** The better of what the scan holds and slot `i`: a valid slot wins when it is strictly newer. */
  function Better(best: (Option<RingState>, Cursor), i: nat, d: Option<Record>): (Option<RingState>, Cursor) {
    if d.Some? && (best.1.slot < 0 || d.value.seqNo > best.1.seqNo)
    then (Some(d.value.state), Cursor(i, d.value.seqNo))
    else best
  }

  /** The outcome of scanning the first `n` slots. */
  function Scan(image: seq<byte>, n: nat): (Option<RingState>, Cursor)
    requires Holds(image, n)
  {
    if n == 0 then (None, NO_RECORD) else Better(Scan(image, n - 1), n - 1, DecodeAt(image, n - 1))
  }

  lemma LatestStep(image: seq<byte>, i: nat, best: (Option<RingState>, Cursor))
    requires Holds(image, i + 1) && IsLatest(image, i, best.0, best.1)
    ensures var next := Better(best, i, DecodeAt(image, i));
            IsLatest(image, i + 1, next.0, next.1)
  {
    hide DecodeAt;
  }

  lemma NothingScanned(image: seq<byte>)
    ensures IsLatest(image, 0, None, NO_RECORD)
  {
  }

  /** The scan reports the first slot carrying the highest sequence number. */
  lemma {:induction false} ScanIsLatest(image: seq<byte>, n: nat)
    requires Holds(image, n)
    ensures IsLatest(image, n, Scan(image, n).0, Scan(image, n).1)
  {
    hide IsLatest, DecodeAt, Better, Decode;
    if n == 0 {
      NothingScanned(image);
    } else {
      ScanIsLatest(image, n - 1);
      LatestStep(image, n - 1, Scan(image, n - 1));
    }
  }

  /** And nothing else can be reported: the description has one solution. */
  lemma LatestUnique(image: seq<byte>, n: nat, found: Option<RingState>, cur: Cursor)
    requires Holds(image, n) && IsLatest(image, n, found, cur)
    ensures Scan(image, n) == (found, cur)
  {
    hide DecodeAt, Scan, Decode;
    ScanIsLatest(image, n);
    var (f, c) := Scan(image, n);
    if 0 <= c.slot && 0 <= cur.slot {
      assert DecodeAt(image, c.slot).Some? && DecodeAt(image, cur.slot).Some?;
    }
  }

  /** The scan loop of `pr_find_latest`. */
  method FindLatest(image: seq<byte>, slots: nat) returns (found: Option<RingState>, cur: Cursor)
    requires Holds(image, slots)
    ensures (found, cur) == Scan(image, slots)
  {
    hide DecodeAt, Decode;
    cur, found := NO_RECORD, None;
    for i := 0 to slots
      invariant (found, cur) == Scan(image, i)
    {
      var d := DecodeAt(image, i);
      if d.Some? && (cur.slot < 0 || d.value.seqNo > cur.seqNo) {
        cur, found := Cursor(i, d.value.seqNo), Some(d.value.state);
      }
    }
  }

  /** Where the next save goes. */
  function NextSlot(cur: Cursor, slots: nat): nat
    requires slots > 0
  {
    if cur.slot < 0 then 0 else (cur.slot + 1) % slots
  }

  /** `pr_advance`: move to that slot, one sequence number on (and wrap as a `uint32_t` does). */
  function Advance(cur: Cursor, slots: nat): Cursor
    requires slots > 0
  {
    Cursor(NextSlot(cur, slots), (cur.seqNo + 1) % WORD)
  }
}
