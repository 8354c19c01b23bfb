/** The EEPROM behind both formats: what is read and written, in which order, and what a cut leaves. */
module PersistStore {
  import opened Bytes
  import opened AccessCore
  import Ring = PersistRing
  import Codes = PersistCodes

  type Chip = b: seq<byte> | |b| == 4096 witness Run(0xFF, 4096)

  const BLANK_CHIP: Chip := Run(0xFF, 4096)

  /** How one page write ended.  Only `Acked` is reported as success; after any other outcome
      the page may hold the new bytes, the old ones, or something torn. */
  datatype PageWrite = Acked | Landed | Untouched | Torn(left: seq<byte>)

  predicate Fits(w: PageWrite, n: nat) {
    w.Torn? ==> |w.left| == n
  }

  function Overwrite(chip: Chip, at: nat, data: seq<byte>): (c: Chip)
    requires at + |data| <= 4096
    ensures c[at..at + |data|] == data
    ensures forall k :: 0 <= k < 4096 && !(at <= k < at + |data|) ==> c[k] == chip[k]
  {
    chip[..at] + data + chip[at + |data|..]
  }

  function AfterWrite(chip: Chip, at: nat, data: seq<byte>, w: PageWrite): (c: Chip)
    requires at + |data| <= 4096 && Fits(w, |data|)
    ensures forall k :: 0 <= k < 4096 && !(at <= k < at + |data|) ==> c[k] == chip[k]
  {
    match w
    case Acked => Overwrite(chip, at, data)
    case Landed => Overwrite(chip, at, data)
    case Untouched => chip
    case Torn(left) => Overwrite(chip, at, left)
  }

  /** The chip and the driver's statics: the ring cursor and what the boot scan found. */
  datatype Store = Store(chip: Chip, cursor: Ring.Cursor, found: Option<Ring.RingState>)

  /** The cursor is on the ring, or at "none". */
  predicate InRing(st: Store) {
    -1 <= st.cursor.slot < Ring.SLOTS
  }

  /** `persist_init` after a reset.  A failed read leaves the statics as they start out. */
  function Booted(chip: Chip, readOk: bool): (st: Store)
    ensures InRing(st)
  {
    if readOk then
      Ring.ScanIsLatest(chip[..2048], Ring.SLOTS);
      var (found, cur) := Ring.Scan(chip[..2048], Ring.SLOTS);
      Store(chip, cur, found)
    else Store(chip, Ring.NO_RECORD, None)
  }

  /** `persist_save`: the next slot, one sequence number on; the cursor follows only an acknowledged write. */
  function RingSaved(st: Store, s: Ring.RingState, w: PageWrite): Store
    requires InRing(st) && Fits(w, Ring.SLOT_SIZE)
  {
    var next := Ring.Advance(st.cursor, Ring.SLOTS);
    var image := Ring.Image(Ring.Record(s, next.seqNo));
    st.(chip := AfterWrite(st.chip, 32 * next.slot, image, w),
        cursor := if w.Acked? then next else st.cursor)
  }

  // ---- code slots ----

  function PairBase(slot: nat): nat {
    0x800 + 128 * slot
  }

  function PairAt(chip: Chip, slot: nat): Codes.Pair
    requires slot < 5
  {
    chip[PairBase(slot)..PairBase(slot) + 128]
  }

  /** The record a RAM slot turns into.  The windows are cast to 32 bits. */
  function CodeOf(s: Slot): Codes.Code {
    if s.occupied then Codes.Code(true, Codes.IdBytes(s.id), s.hash, s.validFrom % WORD, s.validUntil % WORD)
    else Codes.NO_CODE
  }

  /** A 64-byte record as its two page writes; the second is tried only if the first succeeds. */
  function RecordWritten(chip: Chip, at: nat, rec: seq<byte>, w1: PageWrite, w2: PageWrite): (Chip, bool)
    requires at + 64 <= 4096 && |rec| == 64 && Fits(w1, 32) && Fits(w2, 32)
  {
    var first := AfterWrite(chip, at, rec[..32], w1);
    if !w1.Acked? then (first, false) else (AfterWrite(first, at + 32, rec[32..], w2), w2.Acked?)
  }

  /** `persist_codes_save` for a slot in range: the chip afterwards and whether it reported success. */
  function CodeSaved(chip: Chip, s: Slot, slot: nat, readOk: bool, w1: PageWrite, w2: PageWrite): (Chip, bool)
    requires slot < 5 && Fits(w1, 32) && Fits(w2, 32)
  {
    if s.occupied && s.transient then (chip, true)
    else if !readOk then (chip, false)
    else
      var (half, gen) := Codes.WriteHalf(PairAt(chip, slot));
      RecordWritten(chip, PairBase(slot) + 64 * half, Codes.Image(Codes.Record(CodeOf(s), gen)), w1, w2)
  }

  /** What the chip gives back for one slot: the code its newer valid half holds, if any. */
  function StoredCode(chip: Chip, slot: nat): Option<Codes.Code>
    requires slot < 5
  {
    var r := Codes.SlotRead(PairAt(chip, slot));
    if r.Some? && r.value.code.occupied then Some(r.value.code) else None
  }

  /** What a slot becomes when the chip's code for index `i` is loaded over it. */
  function LoadedSlot(chip: Chip, was: Slot, i: nat, readOk: bool): Slot
    requires i < 5
  {
    if readOk && StoredCode(chip, i).Some? then Codes.Restored(StoredCode(chip, i).value) else was
  }

  /** The table after `persist_codes_load`. */
  function CodesLoaded(chip: Chip, t: Table, readable: seq<bool>): Table
    requires |readable| == 5
  {
    [LoadedSlot(chip, t[0], 0, readable[0]), LoadedSlot(chip, t[1], 1, readable[1]),
     LoadedSlot(chip, t[2], 2, readable[2]),
     LoadedSlot(chip, t[3], 3, readable[3]), LoadedSlot(chip, t[4], 4, readable[4])]
  }

  /** How many of the first `n` slots a load restores. */
  function LoadCount(chip: Chip, readable: seq<bool>, n: nat): nat
    requires n <= |readable| == 5
  {
    if n == 0 then 0
    else LoadCount(chip, readable, n - 1) + if readable[n - 1] && StoredCode(chip, n - 1).Some? then 1 else 0
  }

  class Eeprom {
    var chip: Chip
    var cursor: Ring.Cursor
    var found: Option<Ring.RingState>

    ghost predicate Valid()
      reads this
    {
      InRing(Value())
    }

    function Value(): Store
      reads this
    {
      Store(chip, cursor, found)
    }

    /** The driver's statics at power-on, over a chip that kept its bytes. */
    constructor (kept: Chip)
      ensures Valid() && Value() == Store(kept, Ring.NO_RECORD, None)
    {
      chip := kept;
      cursor := Ring.NO_RECORD;
      found := None;
      new;
      assert cursor == Ring.Cursor(-1, 0);
    }

    /** `persist_init`: read the ring in 256-byte chunks, then scan it. */
    method Init(readable: seq<bool>) returns (ok: bool)
      requires |readable| == 8
      requires cursor == Ring.NO_RECORD && found == None
      modifies this
      ensures Valid()
      ensures ok <==> forall i :: 0 <= i < 8 ==> readable[i]
      ensures Value() == Booted(old(chip), ok) && chip == old(chip)
    {
      hide Ring.DecodeAt, Ring.Decode, Ring.Scan;
      var image: seq<byte> := [];
      for i := 0 to 8
        invariant image == chip[..256 * i]
        invariant forall k :: 0 <= k < i ==> readable[k]
        invariant Value() == old(Value())
      {
        if !readable[i] {
          return false;
        }
        assert chip[..256 * i + 256] == chip[..256 * i] + chip[256 * i..256 * i + 256];
        image := image + chip[256 * i..256 * i + 256];
      }
      assert image == chip[..2048];
      Ring.ScanIsLatest(image, Ring.SLOTS);
      found, cursor := Ring.FindLatest(image, Ring.SLOTS);
      ok := true;
    }

    method Load() returns (have: bool, s: Ring.RingState)
      ensures if have then found == Some(s) else found == None
    {
      s := Ring.RingState(0, 0, 0);
      have := found.Some?;
      if found.Some? {
        s := found.value;
      }
    }

    /** One page on the wire. */
    method RawWrite(at: nat, data: seq<byte>, w: PageWrite) returns (ok: bool)
      requires at + |data| <= 4096 && Fits(w, |data|)
      modifies this`chip
      ensures chip == AfterWrite(old(chip), at, data, w)
      ensures ok <==> w.Acked?
    {
      match w {
        case Acked => chip := Overwrite(chip, at, data);
        case Landed => chip := Overwrite(chip, at, data);
        case Untouched =>
        case Torn(left) => chip := Overwrite(chip, at, left);
      }
      ok := w.Acked?;
    }

    method Save(s: Ring.RingState, w: PageWrite) returns (ok: bool)
      requires Valid() && Fits(w, Ring.SLOT_SIZE)
      modifies this
      ensures Valid() && Value() == RingSaved(old(Value()), s, w)
      ensures ok <==> w.Acked?
    {
      var next := Ring.Advance(cursor, Ring.SLOTS);
      var rec := new byte[Ring.SLOT_SIZE];
      Ring.Encode(rec, s, next.seqNo);
      ok := RawWrite(32 * next.slot, rec[..], w);
      if ok {
        cursor := next;
      }
    }

    /** `persist_codes_load`: each readable, occupied record back to its own index. */
    method CodesLoad(ctx: AccessContext, readable: seq<bool>) returns (loaded: nat)
      requires |readable| == 5
      modifies ctx
      ensures ctx.Value() == old(ctx.Value()).(slots := CodesLoaded(chip, old(ctx.slots), readable))
      ensures loaded == LoadCount(chip, readable, 5)
    {
      hide StoredCode, Codes.Restored, Codes.SlotRead, PairAt;
      loaded := 0;
      ghost var was := ctx.slots;
      for i := 0 to 5
        invariant ctx.Value() == old(ctx.Value()).(slots := ctx.slots)
        invariant forall k :: 0 <= k < i ==> ctx.slots[k] == LoadedSlot(chip, was[k], k, readable[k])
        invariant forall k :: i <= k < 5 ==> ctx.slots[k] == was[k]
        invariant loaded == LoadCount(chip, readable, i)
      {
        var applied := false;
        if readable[i] {
          applied := LoadOne(ctx, i);
        }
        if applied {
          loaded := loaded + 1;
        }
      }
    }

    /** One turn of the load loop, its read having succeeded. */
    method LoadOne(ctx: AccessContext, i: nat) returns (applied: bool)
      requires i < 5
      modifies ctx
      ensures applied <==> StoredCode(chip, i).Some?
      ensures var loaded := LoadedSlot(chip, old(ctx.slots[i]), i, true);
              ctx.Value() == old(ctx.Value()).(slots := old(ctx.slots)[i := loaded])
    {
      hide Codes.SlotRead;
      applied := false;
      var r := Codes.SlotRead(PairAt(chip, i));
      if r.Some? && r.value.code.occupied {
        applied := Codes.Apply(ctx, i, r.value.code);
      }
    }

    /** `persist_codes_save`. */
    method CodesSave(ctx: AccessContext, slot: int, readOk: bool, w1: PageWrite, w2: PageWrite) returns (ok: bool)
      requires Valid() && Fits(w1, 32) && Fits(w2, 32)
      modifies this
      ensures Valid()
      ensures !(0 <= slot < 5) ==> !ok && Value() == old(Value())
      ensures 0 <= slot < 5 ==>
        && (chip, ok) == CodeSaved(old(chip), ctx.slots[slot], slot, readOk, w1, w2)
        && Value() == old(Value()).(chip := chip)
    {
      hide Codes.Image, Codes.WriteHalf, PairAt, CodeOf, AfterWrite;
      if slot < 0 || slot >= 5 {
        return false;
      }
      var s := ctx.slots[slot];
      if s.occupied && s.transient {
        return true;
      }
      if !readOk {
        return false;
      }
      var (half, gen) := Codes.WriteHalf(PairAt(chip, slot));
      var rec := new byte[Codes.REC_SIZE];
      Codes.Encode(rec, CodeOf(s), gen);
      var at := PairBase(slot) + 64 * half;
      assert rec[..32] == rec[..][..32] && rec[32..] == rec[..][32..];
      ok := RawWrite(at, rec[..32], w1);
      if ok {
        ok := RawWrite(at + 32, rec[32..], w2);
      }
    }
  }
}
