/** Installing a delivered code set: ordering by generation, validation, and replacement. */
module SyncLogic {
  import opened Bytes
  import opened AccessCore
  import Text

  const MAX_ENTRIES := 8
  const PERIOD_MS := 900_000
  const STALE_MS := 3_600_000

  type u64 = x: int | 0 <= x < 0x1_0000_0000_0000_0000

  datatype Entry = Entry(id: CString, hash: Hash, validFrom: int, validUntil: int)

  datatype CodeSet = CodeSet(generation: u64, entries: seq<Entry>)

  datatype Outcome = Applied | Unchanged | Stale | BadEntry | Overflowed

  /** `sync_ctx_t`. */
  datatype Sync = Sync(generation: u64, lastOkMs: u32, everSynced: bool, nextDueMs: u32)

  /** Exactly eight lowercase hex characters. */
  predicate IsBackendId(id: string) {
    |id| == 8 && forall i :: 0 <= i < 8 ==> Text.IsHexDigit(id[i])
  }

  method IdIsBackend(id: CString) returns (yes: bool)
    ensures yes <==> IsBackendId(id)
  {
    if |id| != ID_LEN - 1 {
      return false;
    }
    for i := 0 to |id|
      invariant forall k :: 0 <= k < i ==> Text.IsHexDigit(id[k])
    {
      if !Text.IsHexDigit(id[i]) {
        return false;
      }
    }
    yes := true;
  }

  /** `ac_id_is_dev`, a second scan written for the console: it answers yes for exactly the ids that
      delivery refuses, so the two sets of ids cannot overlap. */
  method IdIsDev(id: CString) returns (dev: bool)
    ensures dev <==> !IsBackendId(id)
  {
    if id == "" {
      return true;
    }
    var n := 0;
    while n < |id|
      invariant n <= |id|
      invariant forall k :: 0 <= k < n ==> Text.IsHexDigit(id[k])
    {
      if !Text.IsHexDigit(id[n]) {
        return true;
      }
      n := n + 1;
    }
    dev := n != 8;
  }

  predicate Valid(e: Entry) {
    IsBackendId(e.id) && e.validFrom <= e.validUntil
  }

  predicate IsGuest(s: Slot) {
    s.occupied && !s.transient
  }

  /** A guest slot as `sync_apply` clears it: flag, id and hash go, the rest stays behind. */
  function ClearedSlot(s: Slot): Slot {
    if IsGuest(s) then s.(occupied := false, hash := ZERO_HASH, id := "") else s
  }

  function ClearedGuests(t: Table, n: nat): (r: Table)
    requires n <= 5
    ensures forall k :: 0 <= k < 5 ==> r[k] == if k < n then ClearedSlot(t[k]) else t[k]
  {
    if n == 0 then t
    else
      var r := ClearedGuests(t, n - 1);
      r[n - 1 := ClearedSlot(r[n - 1])]
  }

  /** The table after upserting entries in order, and whether any was refused. */
  function Filled(t: Table, entries: seq<Entry>): (Table, bool) {
    if entries == [] then (t, false)
    else
      var (r, over) := Filled(t, entries[..|entries| - 1]);
      var e := entries[|entries| - 1];
      var (u, idx) := Upserted(r, e.id, e.hash, e.validFrom, e.validUntil, false);
      (u, over || idx < 0)
  }

  /** At boot: the generation comes from flash, nothing has synced and a poll is due now. */
  function Started(stored: u64, now: u32): Sync {
    Sync(stored, 0, false, now)
  }

  function Scheduled(s: Sync, now: u32): Sync {
    s.(nextDueMs := (now + PERIOD_MS) % WORD)
  }

  function Noted(s: Sync, now: u32): Sync {
    Scheduled(s.(lastOkMs := now, everSynced := true), now)
  }

  function Installed(s: Sync, t: Table, codes: CodeSet, now: u32): (Sync, Table, Outcome) {
    if |codes.entries| > MAX_ENTRIES then (s, t, BadEntry)
    else if codes.generation == s.generation && s.everSynced then (Noted(s, now), t, Unchanged)
    else if codes.generation < s.generation then (s, t, Stale)
    else if exists k :: 0 <= k < |codes.entries| && !Valid(codes.entries[k]) then (s, t, BadEntry)
    else
      var (r, over) := Filled(ClearedGuests(t, 5), codes.entries);
      (Noted(s, now).(generation := codes.generation), r, if over then Overflowed else Applied)
  }

  class SyncContext {
    var generation: u64
    var lastOkMs: u32
    var everSynced: bool
    var nextDueMs: u32

    function Value(): Sync
      reads this
    {
      Sync(generation, lastOkMs, everSynced, nextDueMs)
    }

    /** `sync_init`. */
    constructor (stored: u64, now: u32)
      ensures Value() == Started(stored, now)
    {
      generation, lastOkMs, everSynced, nextDueMs := stored, 0, false, now;
    }

    method ScheduleNext(now: u32)
      modifies this
      ensures Value() == Scheduled(old(Value()), now)
    {
      nextDueMs := (now + PERIOD_MS) % WORD;
    }

    method NoteUnchanged(now: u32)
      modifies this
      ensures Value() == Noted(old(Value()), now)
    {
      lastOkMs := now;
      everSynced := true;
      ScheduleNext(now);
    }

    /** `sync_apply`. */
    method Apply(table: AccessContext, codes: CodeSet, now: u32) returns (out: Outcome)
      modifies this, table
      ensures (Value(), table.slots, out) == Installed(old(Value()), old(table.slots), codes, now)
      ensures table.Value() == old(table.Value()).(slots := table.slots)
    {
      hide Filled, ClearedGuests, Valid;
      if |codes.entries| > MAX_ENTRIES {
        return BadEntry;
      }
      if codes.generation == generation && everSynced {
        NoteUnchanged(now);
        return Unchanged;
      }
      if codes.generation < generation {
        return Stale;
      }
      var trusted := AllValid(codes.entries);
      if !trusted {
        return BadEntry;
      }
      Clear(table);
      var over := Fill(table, codes.entries);
      generation := codes.generation;
      lastOkMs := now;
      everSynced := true;
      ScheduleNext(now);
      out := if over then Overflowed else Applied;
    }

    /** The validation loop of `sync_apply`: everything is checked before the table is touched. */
    static method AllValid(entries: seq<Entry>) returns (ok: bool)
      ensures ok <==> forall k :: 0 <= k < |entries| ==> Valid(entries[k])
    {
      for i := 0 to |entries|
        invariant forall k :: 0 <= k < i ==> Valid(entries[k])
      {
        var backend := IdIsBackend(entries[i].id);
        if !backend {
          return false;
        }
        if entries[i].validUntil < entries[i].validFrom {
          return false;
        }
      }
      ok := true;
    }

    /** The clearing loop of `sync_apply`. */
    static method Clear(table: AccessContext)
      modifies table
      ensures table.Value() == old(table.Value()).(slots := ClearedGuests(old(table.slots), 5))
    {
      for i := 0 to 5
        invariant table.Value() == old(table.Value()).(slots := ClearedGuests(old(table.slots), i))
      {
        if table.slots[i].occupied && !table.slots[i].transient {
          table.slots := table.slots[i := table.slots[i].(occupied := false, hash := ZERO_HASH, id := "")];
        }
      }
    }

    /** The upsert loop of `sync_apply`. */
    static method Fill(table: AccessContext, entries: seq<Entry>) returns (over: bool)
      modifies table
      ensures (table.slots, over) == Filled(old(table.slots), entries)
      ensures table.Value() == old(table.Value()).(slots := table.slots)
    {
      over := false;
      for i := 0 to |entries|
        invariant (table.slots, over) == Filled(old(table.slots), entries[..i])
        invariant table.Value() == old(table.Value()).(slots := table.slots)
      {
        var e := entries[i];
        assert entries[..i + 1][..i] == entries[..i];
        var idx := table.UpsertGuest(e.id, e.hash, e.validFrom, e.validUntil);
        if idx < 0 {
          over := true;
        }
      }
      assert entries[..|entries|] == entries;
    }
  }
}
