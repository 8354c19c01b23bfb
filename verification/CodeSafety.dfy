/** Saving and loading guest codes are inverses, a cut save costs nothing, and neither touches
    anything else on the chip. */
module CodeSafety {
  import opened Bytes
  import opened AccessCore
  import opened PersistStore
  import Ring = PersistRing
  import Codes = PersistCodes

  /** The windows the 32-bit record can carry. */
  predicate FitsRecord(s: Slot) {
    s.occupied ==> 0 <= s.validFrom < WORD && 0 <= s.validUntil < WORD
  }

  /** What a slot is after a save and a reload: the same code, stored rather than transient. */
  function AsStored(s: Slot): Slot {
    s.(transient := false)
  }

  lemma CodeOfIsTerminated(s: Slot)
    ensures Codes.Terminated(Codes.Erased(CodeOf(s))) == CodeOf(s)
  {
    assert Codes.IdBytes(s.id)[..8] + [0] == Codes.IdBytes(s.id);
    assert Codes.Terminated(Codes.NO_CODE) == Codes.NO_CODE;
  }

  lemma RestoredCodeOf(s: Slot)
    requires s.occupied
    ensures Codes.Restored(CodeOf(s)) == AsStored(s) <==> FitsRecord(s)
  {
    Codes.TextOfIdBytes(s.id, 0);
    assert s.id[0..] == s.id;
  }

  lemma RecordWrittenBytes(chip: Chip, at: nat, rec: seq<byte>, w1: PageWrite, w2: PageWrite)
    requires at + 64 <= 4096 && |rec| == 64 && Fits(w1, 32) && Fits(w2, 32)
    ensures var after := RecordWritten(chip, at, rec, w1, w2).0;
            && (forall k :: 0 <= k < 4096 && !(at <= k < at + 64) ==> after[k] == chip[k])
            && (w1.Acked? && w2.Acked? ==> after[at..at + 64] == rec)
  {
    var after := RecordWritten(chip, at, rec, w1, w2).0;
    if w1.Acked? && w2.Acked? {
      var first := AfterWrite(chip, at, rec[..32], w1);
      assert first[at..at + 32] == rec[..32] && after[at + 32..at + 64] == rec[32..];
      assert after[at..at + 32] == first[at..at + 32];
      assert after[at..at + 64] == after[at..at + 32] + after[at + 32..at + 64];
    }
  }

  lemma HalfOfChip(chip: Chip, slot: nat, half: nat)
    requires slot < 5 && half < 2
    ensures Codes.HalfAt(PairAt(chip, slot), half) == chip[PairBase(slot) + 64 * half..PairBase(slot) + 64 * half + 64]
  {
  }

  /** What a save does to the two halves of its slot: one is kept, the other gets the record if
      both pages are acknowledged. */
  lemma PairAfterSave(chip: Chip, s: Slot, slot: nat, w1: PageWrite, w2: PageWrite)
    requires slot < 5 && Fits(w1, 32) && Fits(w2, 32)
    requires !(s.occupied && s.transient)
    ensures var p := PairAt(chip, slot);
            var q := PairAt(CodeSaved(chip, s, slot, true, w1, w2).0, slot);
            var half := Codes.WriteHalf(p).0;
            && q == Codes.WithHalf(p, half, Codes.HalfAt(q, half))
            && (w1.Acked? && w2.Acked? ==>
                  Codes.HalfAt(q, half) == Codes.Image(Codes.Record(CodeOf(s), Codes.WriteHalf(p).1)))
  {
    hide Codes.Image, Codes.WriteHalf, RecordWritten, CodeOf;
    var p := PairAt(chip, slot);
    var (half, gen) := Codes.WriteHalf(p);
    var rec := Codes.Image(Codes.Record(CodeOf(s), gen));
    var at := PairBase(slot) + 64 * half;
    RecordWrittenBytes(chip, at, rec, w1, w2);
    var after := RecordWritten(chip, at, rec, w1, w2).0;
    HalfOfChip(after, slot, half);
    HalfOfChip(after, slot, 1 - half);
    HalfOfChip(chip, slot, 1 - half);
    var q := PairAt(after, slot);
    assert Codes.HalfAt(q, 1 - half) == Codes.HalfAt(p, 1 - half);
    assert q == q[..64] + q[64..];
  }

  /** A completed save is what the chip then holds for that slot, for every earlier image and
      generation, wrap included. */
  lemma SavedCodeIsStored(chip: Chip, s: Slot, slot: nat)
    requires slot < 5 && !(s.occupied && s.transient)
    ensures StoredCode(CodeSaved(chip, s, slot, true, Acked, Acked).0, slot) ==
            if s.occupied then Some(CodeOf(s)) else None
  {
    hide Codes.Image, Codes.WriteHalf, Codes.SlotRead, CodeSaved, PairAt;
    PairAfterSave(chip, s, slot, Acked, Acked);
    Codes.CompletedSaveIsRead(PairAt(chip, slot), CodeOf(s));
    CodeOfIsTerminated(s);
  }

  /** Saving RAM slot `i` and loading it back restores it in slot `i`, as a stored code, exactly
      when its window fits the record's 32-bit times.  An emptied slot loads nothing. */
  lemma SaveThenLoad(chip: Chip, t: Table, ram: Table, slot: nat, readable: seq<bool>)
    requires slot < 5 && |readable| == 5 && readable[slot]
    requires !(t[slot].occupied && t[slot].transient)
    ensures var after := CodeSaved(chip, t[slot], slot, true, Acked, Acked).0;
            var loaded := CodesLoaded(after, ram, readable)[slot];
            if t[slot].occupied then loaded == AsStored(t[slot]) <==> FitsRecord(t[slot]) else loaded == ram[slot]
  {
    hide StoredCode, CodeSaved, Codes.Restored, CodeOf;
    SavedCodeIsStored(chip, t[slot], slot);
    if t[slot].occupied {
      RestoredCodeOf(t[slot]);
    }
  }

  /** A save touches its own slot's 128 bytes and nothing else: every other code slot and the
      whole ring load as before, whatever the two page writes did. */
  lemma SaveFrame(chip: Chip, s: Slot, slot: nat, readOk: bool, w1: PageWrite, w2: PageWrite, other: nat)
    requires slot < 5 && other < 5 && other != slot && Fits(w1, 32) && Fits(w2, 32)
    ensures var after := CodeSaved(chip, s, slot, readOk, w1, w2).0;
            && StoredCode(after, other) == StoredCode(chip, other)
            && Booted(after, true) == Booted(chip, true).(chip := after)
  {
    hide Codes.Image, Codes.WriteHalf, Codes.SlotRead, Ring.Scan, RecordWritten;
    var after := CodeSaved(chip, s, slot, readOk, w1, w2).0;
    var (half, gen) := Codes.WriteHalf(PairAt(chip, slot));
    RecordWrittenBytes(chip, PairBase(slot) + 64 * half, Codes.Image(Codes.Record(CodeOf(s), gen)), w1, w2);
    assert forall k :: 0 <= k < 4096 && !(PairBase(slot) <= k < PairBase(slot) + 128) ==> after[k] == chip[k];
    assert PairAt(after, other) == PairAt(chip, other);
    assert after[..2048] == chip[..2048];
  }

  /** A save reports success exactly for a transient code, which it does not write, and when the slot
      could be read and both pages were acknowledged; then the chip holds the code.  A first page that
      is not acknowledged leaves the second as it was, and an unreadable slot is not touched at all. */
  lemma SaveSucceedsExactly(chip: Chip, s: Slot, slot: nat, readOk: bool, w1: PageWrite, w2: PageWrite)
    requires slot < 5 && Fits(w1, 32) && Fits(w2, 32)
    ensures var (after, ok) := CodeSaved(chip, s, slot, readOk, w1, w2);
            var second := PairBase(slot) + 64 * Codes.WriteHalf(PairAt(chip, slot)).0 + 32;
            var writes := !(s.occupied && s.transient) && readOk;
            && (ok <==> (s.occupied && s.transient) || (readOk && w1.Acked? && w2.Acked?))
            && (ok && writes ==> StoredCode(after, slot) == if s.occupied then Some(CodeOf(s)) else None)
            && (!writes ==> after == chip)
            && (!w1.Acked? ==> after[second..second + 32] == chip[second..second + 32])
  {
    hide StoredCode, Codes.Image, Codes.WriteHalf, PairAt, CodeOf;
    if !(s.occupied && s.transient) {
      SavedCodeIsStored(chip, s, slot);
    }
  }

  /** A load changes exactly the slots whose read succeeds and finds a code. */
  lemma LoadChangesExactly(chip: Chip, t: Table, readable: seq<bool>, i: nat)
    requires |readable| == 5 && i < 5
    ensures CodesLoaded(chip, t, readable)[i] ==
            if readable[i] && StoredCode(chip, i).Some? then Codes.Restored(StoredCode(chip, i).value) else t[i]
  {
    hide StoredCode, Codes.Restored;
  }

  /** And reports how many those are. */
  lemma {:induction false} LoadCountIsSize(chip: Chip, readable: seq<bool>, n: nat)
    requires |readable| == 5 && n <= 5
    ensures LoadCount(chip, readable, n) == |set i | 0 <= i < n && readable[i] && StoredCode(chip, i).Some?|
  {
    hide StoredCode;
    var found := set i | 0 <= i < n && readable[i] && StoredCode(chip, i).Some?;
    if n == 0 {
      assert found == {};
    } else {
      LoadCountIsSize(chip, readable, n - 1);
      var fewer := set i | 0 <= i < n - 1 && readable[i] && StoredCode(chip, i).Some?;
      assert found == if readable[n - 1] && StoredCode(chip, n - 1).Some? then fewer + {n - 1} else fewer;
    }
  }

  /** A transient code never reaches the chip. */
  lemma TransientWritesNothing(chip: Chip, s: Slot, slot: nat, readOk: bool, w1: PageWrite, w2: PageWrite)
    requires slot < 5 && Fits(w1, 32) && Fits(w2, 32) && s.occupied && s.transient
    ensures CodeSaved(chip, s, slot, readOk, w1, w2) == (chip, true)
  {
  }

  /** Wherever a save is cut, if the half it was writing does not decode the slot still loads
      what it loaded before. */
  lemma CutSaveKeepsCode(chip: Chip, s: Slot, slot: nat, w1: PageWrite, w2: PageWrite)
    requires slot < 5 && Fits(w1, 32) && Fits(w2, 32) && !(s.occupied && s.transient)
    requires var q := PairAt(CodeSaved(chip, s, slot, true, w1, w2).0, slot);
             Codes.Decode(Codes.HalfAt(q, Codes.WriteHalf(PairAt(chip, slot)).0)) == None
    ensures StoredCode(CodeSaved(chip, s, slot, true, w1, w2).0, slot) == StoredCode(chip, slot)
  {
    hide Codes.Image, Codes.WriteHalf, Codes.SlotRead, Codes.Decode, CodeSaved, PairAt;
    PairAfterSave(chip, s, slot, w1, w2);
    var p, q := PairAt(chip, slot), PairAt(CodeSaved(chip, s, slot, true, w1, w2).0, slot);
    Codes.TornHalfKeepsRecord(p, Codes.HalfAt(q, Codes.WriteHalf(p).0));
  }

  /** The same for anything the half may hold: the newer record of the slot is unchanged exactly
      when that half does not decode, decodes to the very same record, or does not overtake it. */
  lemma CutSaveExactly(chip: Chip, s: Slot, slot: nat, w1: PageWrite, w2: PageWrite)
    requires slot < 5 && Fits(w1, 32) && Fits(w2, 32) && !(s.occupied && s.transient)
    ensures var p, q := PairAt(chip, slot), PairAt(CodeSaved(chip, s, slot, true, w1, w2).0, slot);
            var half, kept := Codes.WriteHalf(p).0, Codes.SlotRead(p);
            var left := Codes.Decode(Codes.HalfAt(q, half));
            Codes.SlotRead(q) == kept <==>
            left == None || left == kept
            || (kept.Some? && !Codes.Overtakes(half, left.value.generation, kept.value.generation))
  {
    hide Codes.Image, Codes.WriteHalf, Codes.SlotRead, Codes.Decode, CodeSaved, PairAt;
    PairAfterSave(chip, s, slot, w1, w2);
    var p, q := PairAt(chip, slot), PairAt(CodeSaved(chip, s, slot, true, w1, w2).0, slot);
    Codes.TornHalfExactly(p, Codes.HalfAt(q, Codes.WriteHalf(p).0));
  }

  /** In particular, a save whose first write changes nothing, over whatever older record the half
      holds, changes nothing of what the slot loads. */
  lemma UntouchedSaveKeepsCode(chip: Chip, s: Slot, slot: nat, w2: PageWrite)
    requires slot < 5 && Fits(w2, 32)
    ensures StoredCode(CodeSaved(chip, s, slot, true, Untouched, w2).0, slot) == StoredCode(chip, slot)
  {
    hide Codes.Image, Codes.WriteHalf, Codes.SlotRead, PairAt;
  }

  /** Two completed saves of an emptied slot leave no trace of the code in either half. */
  lemma TwoSavesErase(chip: Chip, slot: nat, s: Slot)
    requires slot < 5 && !s.occupied
    ensures var once := CodeSaved(chip, s, slot, true, Acked, Acked).0;
            var twice := CodeSaved(once, s, slot, true, Acked, Acked).0;
            forall half :: 0 <= half < 2 ==>
              var r := Codes.Decode(Codes.HalfAt(PairAt(twice, slot), half));
              r.Some? && r.value.code == Codes.NO_CODE
  {
    hide Codes.Image, Codes.WriteHalf, Codes.Decode, CodeSaved, PairAt;
    var once := CodeSaved(chip, s, slot, true, Acked, Acked).0;
    PairAfterSave(chip, s, slot, Acked, Acked);
    PairAfterSave(once, s, slot, Acked, Acked);
    Codes.TwoErasesClearBoth(PairAt(chip, slot), CodeOf(s), CodeOf(s));
  }
}
