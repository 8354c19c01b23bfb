/** What installing a code set means: the guests afterwards are the set, whatever was there before. */
module SyncInstall {
  import opened Bytes
  import opened AccessCore
  import opened SyncLogic

  predicate IsTransient(s: Slot) {
    s.occupied && s.transient
  }

  // ---- history-free ----

  /** The same slots are occupied, with the same content.  What free slots still hold does not matter. */
  ghost predicate SameOccupied(t: Table, u: Table) {
    forall i :: 0 <= i < 5 ==> t[i].occupied == u[i].occupied && (t[i].occupied ==> t[i] == u[i])
  }

  ghost predicate SameTransients(t: Table, u: Table) {
    forall i :: 0 <= i < 5 ==> IsTransient(t[i]) == IsTransient(u[i]) && (IsTransient(t[i]) ==> t[i] == u[i])
  }

  lemma UpsertSameOccupied(t: Table, u: Table, e: Entry)
    requires SameOccupied(t, u)
    ensures var (t', i) := Upserted(t, e.id, e.hash, e.validFrom, e.validUntil, false);
            var (u', j) := Upserted(u, e.id, e.hash, e.validFrom, e.validUntil, false);
            SameOccupied(t', u') && i == j
  {
    assert FindById(t, e.id) == FindById(u, e.id);
    assert FreeFrom(t, 0) == FreeFrom(u, 0);
  }

  lemma {:induction false} FillSameOccupied(t: Table, u: Table, entries: seq<Entry>)
    requires SameOccupied(t, u)
    ensures SameOccupied(Filled(t, entries).0, Filled(u, entries).0)
    ensures Filled(t, entries).1 == Filled(u, entries).1
  {
    hide SameOccupied, Upserted;
    if entries == [] {
    } else {
      var front := entries[..|entries| - 1];
      FillSameOccupied(t, u, front);
      UpsertSameOccupied(Filled(t, front).0, Filled(u, front).0, entries[|entries| - 1]);
    }
  }

  /** Two tables that agree on the transient slots accept or refuse a set alike, and hold the same
      codes in the same slots once it is installed. */
  lemma InstallIsHistoryFree(s: Sync, t: Table, u: Table, codes: CodeSet, now: u32)
    requires SameTransients(t, u)
    ensures var (p, t', a) := Installed(s, t, codes, now);
            var (q, u', b) := Installed(s, u, codes, now);
            p == q && a == b && (a == Applied || a == Overflowed ==> SameOccupied(t', u'))
  {
    hide Filled;
    assert SameOccupied(ClearedGuests(t, 5), ClearedGuests(u, 5));
    FillSameOccupied(ClearedGuests(t, 5), ClearedGuests(u, 5), codes.entries);
  }

  // ---- the guests are the set ----

  /** No dev id looks like a backend id, so delivery cannot collide with a dev session. */
  ghost predicate TransientsApart(t: Table) {
    forall i :: 0 <= i < 5 && IsTransient(t[i]) ==> !IsBackendId(t[i].id)
  }

  /** The last entry for an id, or -1: later entries replace earlier ones. */
  function LastFor(entries: seq<Entry>, id: CString): (k: int)
    ensures -1 <= k < |entries|
    ensures 0 <= k ==> entries[k].id == id
    ensures forall j :: k < j < |entries| ==> entries[j].id != id
  {
    if entries == [] then -1
    else if entries[|entries| - 1].id == id then |entries| - 1
    else LastFor(entries[..|entries| - 1], id)
  }

  ghost predicate AllValid(entries: seq<Entry>) {
    forall k :: 0 <= k < |entries| ==> Valid(entries[k])
  }

  /** Each guest slot carries the last entry for its id, no two carry one id, and the transient
      slots are those of `base`. */
  ghost predicate HoldsOnly(t: Table, base: Table, entries: seq<Entry>) {
    && SameTransients(t, base)
    && (forall i :: 0 <= i < 5 && IsGuest(t[i]) ==> CarriesEntry(t[i], entries))
    && (forall i, j :: 0 <= i < j < 5 && IsGuest(t[i]) && IsGuest(t[j]) ==> t[i].id != t[j].id)
  }

  predicate CarriesEntry(s: Slot, entries: seq<Entry>) {
    var k := LastFor(entries, s.id);
    0 <= k && s.hash == entries[k].hash && s.validFrom == entries[k].validFrom && s.validUntil == entries[k].validUntil
  }

  ghost predicate IsHeld(t: Table, id: CString) {
    exists i :: 0 <= i < 5 && IsGuest(t[i]) && t[i].id == id
  }

  /** The guests are exactly the set. */
  ghost predicate GuestsAre(t: Table, base: Table, entries: seq<Entry>) {
    && HoldsOnly(t, base, entries)
    && forall k :: 0 <= k < |entries| ==> IsHeld(t, entries[k].id)
  }

  lemma FillStep(t: Table, base: Table, front: seq<Entry>, e: Entry)
    requires TransientsApart(base) && Valid(e)
    requires HoldsOnly(t, base, front)
    requires Upserted(t, e.id, e.hash, e.validFrom, e.validUntil, false).1 >= 0
    ensures var u := Upserted(t, e.id, e.hash, e.validFrom, e.validUntil, false).0;
            HoldsOnly(u, base, front + [e]) && IsHeld(u, e.id) && forall id: CString :: IsHeld(t, id) ==> IsHeld(u, id)
  {
    var (u, idx) := Upserted(t, e.id, e.hash, e.validFrom, e.validUntil, false);
    var entries := front + [e];
    assert entries[..|front|] == front;
    assert !IsTransient(t[idx]);
    assert u[idx] == Slot(true, false, e.id, e.hash, e.validFrom, e.validUntil);
    forall i | 0 <= i < 5 && IsGuest(u[i])
      ensures CarriesEntry(u[i], entries)
      ensures i != idx ==> u[i].id != e.id
    {
      if i != idx {
        assert u[i] == t[i] && CarriesEntry(t[i], front);
      }
    }
    forall id: CString | IsHeld(t, id)
      ensures IsHeld(u, id)
    {
      var i :| 0 <= i < 5 && IsGuest(t[i]) && t[i].id == id;
      assert IsGuest(u[i]) && u[i].id == id;
    }
  }

  lemma {:induction false} FillGives(base: Table, entries: seq<Entry>)
    requires TransientsApart(base) && AllValid(entries)
    requires !Filled(ClearedGuests(base, 5), entries).1
    ensures GuestsAre(Filled(ClearedGuests(base, 5), entries).0, base, entries)
  {
    hide HoldsOnly, Upserted, ClearedGuests, IsHeld;
    var start := ClearedGuests(base, 5);
    if entries == [] {
      NothingHeld(base);
    } else {
      var front, e := entries[..|entries| - 1], entries[|entries| - 1];
      FillGives(base, front);
      assert front + [e] == entries;
      FillStep(Filled(start, front).0, base, front, e);
    }
  }

  lemma NothingHeld(base: Table)
    ensures HoldsOnly(ClearedGuests(base, 5), base, [])
  {
  }

  /** After `Applied`, the guest codes are exactly the set's, the last entry winning for a repeated
      id, and the transient slots are untouched. */
  lemma AppliedMeansExactlyTheSet(s: Sync, t: Table, codes: CodeSet, now: u32)
    requires TransientsApart(t)
    requires Installed(s, t, codes, now).2 == Applied
    ensures GuestsAre(Installed(s, t, codes, now).1, t, codes.entries)
    ensures Installed(s, t, codes, now).0.generation == codes.generation
  {
    hide Filled, GuestsAre, ClearedGuests;
    FillGives(t, codes.entries);
  }

  /** A fill only touches the slots it occupies. */
  lemma {:induction false} FillOccupies(t: Table, entries: seq<Entry>, i: nat)
    requires i < 5
    ensures Filled(t, entries).0[i].occupied || Filled(t, entries).0[i] == t[i]
  {
    hide FindFrom, FreeFrom;
    if entries == [] {
    } else {
      FillOccupies(t, entries[..|entries| - 1], i);
    }
  }

  /** A guest slot that a new set leaves free keeps neither the id nor the hash it held. */
  lemma InstallLeavesNoTrace(s: Sync, t: Table, codes: CodeSet, now: u32, i: nat)
    requires i < 5 && IsGuest(t[i])
    requires Installed(s, t, codes, now).2 == Applied || Installed(s, t, codes, now).2 == Overflowed
    ensures var r := Installed(s, t, codes, now).1; r[i].occupied || (r[i].id == "" && r[i].hash == ZERO_HASH)
  {
    hide Filled, ClearedGuests;
    FillOccupies(ClearedGuests(t, 5), codes.entries, i);
  }

  // ---- when a set fits ----

  function One(b: bool): nat {
    if b then 1 else 0
  }

  function Occupied(t: Table): nat {
    One(t[0].occupied) + One(t[1].occupied) + One(t[2].occupied) + One(t[3].occupied) + One(t[4].occupied)
  }

  function Transients(t: Table): nat {
    One(IsTransient(t[0])) + One(IsTransient(t[1])) + One(IsTransient(t[2]))
    + One(IsTransient(t[3])) + One(IsTransient(t[4]))
  }

  function Ids(entries: seq<Entry>): set<CString> {
    set k | 0 <= k < |entries| :: entries[k].id
  }

  ghost predicate NoEmptyWindow(entries: seq<Entry>) {
    forall k :: 0 <= k < |entries| ==> entries[k].validFrom < entries[k].validUntil
  }

  lemma UpsertCounts(t: Table, e: Entry)
    ensures var (u, idx) := Upserted(t, e.id, e.hash, e.validFrom, e.validUntil, false);
            && (0 <= idx ==> Occupied(u) == Occupied(t) + if FindById(t, e.id) < 0 then 1 else 0)
            && (idx < 0 <==> e.id == "" || e.validUntil <= e.validFrom || (FindById(t, e.id) < 0 && Occupied(t) == 5))
  {
    if FindById(t, e.id) < 0 && FreeFrom(t, 0) < 0 {
      assert t[0].occupied && t[1].occupied && t[2].occupied && t[3].occupied && t[4].occupied;
    }
  }

  lemma FoundExactlyWhenHeld(t: Table, base: Table, entries: seq<Entry>, id: CString)
    requires TransientsApart(base) && IsBackendId(id) && GuestsAre(t, base, entries)
    ensures 0 <= FindById(t, id) <==> id in Ids(entries)
  {
    if id in Ids(entries) {
      var k :| 0 <= k < |entries| && entries[k].id == id;
      assert IsHeld(t, id);
    }
    var f := FindById(t, id);
    if 0 <= f {
      assert !IsTransient(t[f]);
      assert CarriesEntry(t[f], entries);
    }
  }

  lemma IdsStep(front: seq<Entry>, e: Entry)
    ensures Ids(front + [e]) == Ids(front) + {e.id}
    ensures |Ids(front + [e])| == |Ids(front)| + if e.id in Ids(front) then 0 else 1
  {
    var all := front + [e];
    assert all[|front|] == e;
    assert forall k :: 0 <= k < |front| ==> all[k] == front[k];
    assert Ids(all) == Ids(front) + {e.id};
    if e.id in Ids(front) {
      assert Ids(all) == Ids(front);
    }
  }

  /** A validated set fits exactly when no window has zero length and its distinct ids, together
      with the transient codes, are at most five. */
  lemma {:induction false} FillFitsExactly(base: Table, entries: seq<Entry>)
    requires TransientsApart(base) && AllValid(entries)
    ensures var (t, over) := Filled(ClearedGuests(base, 5), entries);
            && (!over <==> NoEmptyWindow(entries) && Transients(base) + |Ids(entries)| <= 5)
            && (!over ==> Occupied(t) == Transients(base) + |Ids(entries)|)
  {
    hide GuestsAre, Upserted, ClearedGuests, Occupied, Transients, Ids, TransientsApart;
    var start := ClearedGuests(base, 5);
    if entries == [] {
      ClearedCount(base);
      NoIds();
    } else {
      var front, e := entries[..|entries| - 1], entries[|entries| - 1];
      FillFitsExactly(base, front);
      assert front + [e] == entries;
      IdsStep(front, e);
      var (t, over) := Filled(start, front);
      UpsertCounts(t, e);
      if !over {
        FillGives(base, front);
        FoundExactlyWhenHeld(t, base, front, e.id);
        OccupiedAtMostFive(t);
      }
    }
  }

  lemma NoIds()
    ensures |Ids([])| == 0
  {
    assert Ids([]) == {};
  }

  lemma ClearedCount(base: Table)
    ensures Occupied(ClearedGuests(base, 5)) == Transients(base) <= 5
  {
  }

  lemma OccupiedAtMostFive(t: Table)
    ensures Occupied(t) <= 5
  {
  }

  /** A set that would be installed: new enough, not too long, every entry valid. */
  ghost predicate Acceptable(s: Sync, codes: CodeSet) {
    && (codes.generation > s.generation || (codes.generation == s.generation && !s.everSynced))
    && |codes.entries| <= MAX_ENTRIES && AllValid(codes.entries)
  }

  /** The answer to an acceptable set depends only on whether it fits, and a zero-length window,
      which passes validation, counts as not fitting. */
  lemma AppliedExactlyWhen(s: Sync, t: Table, codes: CodeSet, now: u32)
    requires TransientsApart(t)
    ensures var out := Installed(s, t, codes, now).2;
            var fits := NoEmptyWindow(codes.entries) && Transients(t) + |Ids(codes.entries)| <= 5;
            && (out == Applied <==> Acceptable(s, codes) && fits)
            && (out == Overflowed <==> Acceptable(s, codes) && !fits)
  {
    hide Filled, ClearedGuests, NoEmptyWindow, Transients, Ids, TransientsApart;
    if AllValid(codes.entries) {
      FillFitsExactly(t, codes.entries);
    }
  }

  /** And the other three answers, by what is wrong first: too long, already held, too old, a bad entry. */
  lemma RefusedExactlyWhen(s: Sync, t: Table, codes: CodeSet, now: u32)
    ensures var out := Installed(s, t, codes, now).2;
            var long, seen := |codes.entries| > 8, codes.generation == s.generation && s.everSynced;
            && (out == Unchanged <==> !long && seen)
            && (out == Stale <==> !long && codes.generation < s.generation)
            && (out == BadEntry <==> long || (!seen && codes.generation >= s.generation && !AllValid(codes.entries)))
  {
    hide Filled, ClearedGuests, Valid;
  }

  // ---- what is left of a set that does not fit ----

  /** The entries that find room, in order: those with a window whose id is already in or for which
      there is still a slot. */
  ghost function Fitting(base: Table, entries: seq<Entry>): seq<Entry> {
    if entries == [] then []
    else
      var kept := Fitting(base, entries[..|entries| - 1]);
      var e := entries[|entries| - 1];
      if e.validFrom < e.validUntil && (e.id in Ids(kept) || Transients(base) + |Ids(kept)| < 5)
      then kept + [e] else kept
  }

  lemma {:induction false} FittingIsFilled(base: Table, entries: seq<Entry>)
    requires TransientsApart(base) && AllValid(entries)
    ensures var kept := Fitting(base, entries);
            && AllValid(kept) && !Filled(ClearedGuests(base, 5), kept).1
            && Filled(ClearedGuests(base, 5), entries).0 == Filled(ClearedGuests(base, 5), kept).0
  {
    hide GuestsAre, Upserted, ClearedGuests, Occupied, Transients, Ids, TransientsApart, Valid;
    if entries == [] {
    } else {
      var front, e := entries[..|entries| - 1], entries[|entries| - 1];
      FittingIsFilled(base, front);
      var kept := Fitting(base, front);
      var t := Filled(ClearedGuests(base, 5), kept).0;
      UpsertCounts(t, e);
      FillGives(base, kept);
      FillFitsExactly(base, kept);
      assert IsBackendId(e.id) && e.id != "" by {
        assert Valid(e);
        ValidId(e);
      }
      FoundExactlyWhenHeld(t, base, kept, e.id);
      OccupiedAtMostFive(t);
      assert (kept + [e])[..|kept|] == kept;
      RefusedUpsertIsNothing(t, e);
    }
  }

  lemma ValidId(e: Entry)
    requires Valid(e)
    ensures IsBackendId(e.id) && e.id != ""
  {
  }

  lemma RefusedUpsertIsNothing(t: Table, e: Entry)
    ensures var (u, idx) := Upserted(t, e.id, e.hash, e.validFrom, e.validUntil, false); idx < 0 ==> u == t
  {
  }

  /** An installed set that overflows is not cut off at the first refusal: afterwards the guest codes
      are exactly the entries that found room, the last one winning for a repeated id. */
  lemma OverflowedKeepsWhatFits(s: Sync, t: Table, codes: CodeSet, now: u32)
    requires TransientsApart(t)
    requires Installed(s, t, codes, now).2 == Applied || Installed(s, t, codes, now).2 == Overflowed
    ensures GuestsAre(Installed(s, t, codes, now).1, t, Fitting(t, codes.entries))
    ensures Installed(s, t, codes, now).0.generation == codes.generation
  {
    hide Filled, GuestsAre, ClearedGuests, Fitting;
    FittingIsFilled(t, codes.entries);
    FillGives(t, Fitting(t, codes.entries));
  }

  /** One code with an empty window, sent to an empty table, is reported as too much for it. */
  lemma EmptyWindowOverflows(h: Hash, now: u32)
    ensures Installed(Sync(0, 0, false, 0), EMPTY_TABLE, CodeSet(1, [Entry("0000000a", h, 5, 5)]), now).2 == Overflowed
  {
    var e := Entry("0000000a", h, 5, 5);
    assert [e][..0] == [];
    assert Filled(ClearedGuests(EMPTY_TABLE, 5), [e]).1;
  }

  // ---- refusals, and runs ----

  /** A refused or unchanged set alters no slot, and only a strictly newer generation, or the held
      one when nothing has synced since boot, can alter any. */
  lemma RefusedAltersNothing(s: Sync, t: Table, codes: CodeSet, now: u32)
    ensures var (p, u, out) := Installed(s, t, codes, now);
            && (out != Applied && out != Overflowed ==> u == t && p.generation == s.generation)
            && (out == Stale || out == BadEntry ==> p == s)
            && (u != t ==> codes.generation > s.generation || (codes.generation == s.generation && !s.everSynced))
  {
    hide Filled, ClearedGuests;
  }

  /** What happens to a device's sync state: sets arrive, polls fail, and resets reload the stored generation. */
  datatype Event = Deliver(codes: CodeSet, now: u32) | PollFailed(now: u32) | Reset(t: Table, now: u32)

  /** The sync state, the table, and the generation kept in flash, which follows each installed set. */
  datatype Device = Device(sync: Sync, table: Table, stored: u64)

  function Step(d: Device, e: Event): Device {
    match e
    case Deliver(codes, now) =>
      var (p, u, out) := Installed(d.sync, d.table, codes, now);
      Device(p, u, if out == Applied || out == Overflowed then p.generation else d.stored)
    case PollFailed(now) => d.(sync := Scheduled(d.sync, now))
    case Reset(t, now) => Device(Started(d.stored, now), t, d.stored)
  }

  function Run(d: Device, events: seq<Event>): Device {
    if events == [] then d else Step(Run(d, events[..|events| - 1]), events[|events| - 1])
  }

  /** The held generation never goes down, resets included. */
  lemma {:induction false} GenerationNeverDecreases(d: Device, events: seq<Event>)
    requires d.stored == d.sync.generation
    ensures var r := Run(d, events); d.sync.generation <= r.sync.generation && r.stored == r.sync.generation
  {
    hide Filled, ClearedGuests;
    if events == [] {
    } else {
      GenerationNeverDecreases(d, events[..|events| - 1]);
    }
  }

  /** So a captured set from before is refused for good: once a newer one is in, nothing that
      follows lets the older one touch the table. */
  lemma OldSetStaysOut(d: Device, events: seq<Event>, captured: CodeSet, now: u32)
    requires d.stored == d.sync.generation && captured.generation < d.sync.generation
    ensures var r := Run(d, events); Step(r, Deliver(captured, now)).table == r.table
  {
    GenerationNeverDecreases(d, events);
    RefusedAltersNothing(Run(d, events).sync, Run(d, events).table, captured, now);
  }
}
