/** What the table and the decision guarantee over any run. */
module AccessTable {
  import opened Bytes
  import opened AccessCore
  import opened SyncLogic

  /** Occupied ids are present and distinct, and no transient window is longer than the ceiling. */
  ghost predicate TableOk(t: Table) {
    && (forall i :: 0 <= i < 5 && t[i].occupied ==> t[i].id != "")
    && (forall i :: 0 <= i < 5 && t[i].occupied && t[i].transient ==>
       t[i].validUntil - t[i].validFrom <= TRANSIENT_MAX_S)
    && Distinct(t)
  }

  ghost predicate Distinct(t: Table) {
    forall i, j :: 0 <= i < j < 5 && t[i].occupied && t[j].occupied ==> t[i].id != t[j].id
  }

  datatype Op =
    | Upsert(id: CString, hash: Hash, validFrom: int, validUntil: int)
    | UpsertTransient(id: CString, hash: Hash, validFrom: int, validUntil: int)
    | Revoke(id: CString)
    | RevokeTransient
    | Purge(now: int)
    | Install(codes: CodeSet)

  /** Ids of at most eight characters, as every id in use is. */
  predicate ShortIds(op: Op) {
    match op
    case Upsert(id, _, _, _) => |id| <= 8
    case UpsertTransient(id, _, _, _) => |id| <= 8
    case _ => true
  }

  /** The table after one operation.  Installing stands for the part of `sync_apply` that follows validation. */
  function Do(t: Table, op: Op): Table {
    match op
    case Upsert(id, h, from, until) => Upserted(t, id, h, from, until, false).0
    case UpsertTransient(id, h, from, until) => Upserted(t, id, h, from, ClampedUntil(from, until), true).0
    case Revoke(id) => Revoked(t, id).0
    case RevokeTransient => ClearedWhere(t, TransientMarks(t), 5)
    case Purge(now) => ClearedWhere(t, ExpiredMarks(t, now), 5)
    case Install(codes) => Installed(Sync(0, 0, false, 0), t, codes, 0).1
  }

  function DoAll(t: Table, ops: seq<Op>): Table {
    if ops == [] then t else Do(DoAll(t, ops[..|ops| - 1]), ops[|ops| - 1])
  }

  lemma UpsertKeepsOk(t: Table, id: CString, h: Hash, from: int, until: int, transient: bool)
    requires TableOk(t) && |id| <= 8
    requires transient ==> until - from <= TRANSIENT_MAX_S
    ensures TableOk(Upserted(t, id, h, from, until, transient).0)
  {
  }

  /** An over-long id is stored cut to eight characters but looked up uncut.  An upsert keeps the
      ids distinct exactly when the id fits, or nothing is stored, or the cut id is not taken. */
  lemma UpsertKeepsDistinct(t: Table, id: CString, h: Hash, from: int, until: int, transient: bool)
    requires Distinct(t)
    ensures Distinct(Upserted(t, id, h, from, until, transient).0) <==>
            |id| <= 8 || until <= from || Target(t, id) < 0 || FindById(t, id[..8]) < 0
  {
    var (u, idx) := Upserted(t, id, h, from, until, transient);
    if |id| > 8 && 0 <= idx {
      var k := FindById(t, id[..8]);
      assert !t[idx].occupied;
      if 0 <= k {
        assert u[k].id == u[idx].id;
      }
    }
  }

  lemma {:induction false} FillKeepsOk(t: Table, entries: seq<Entry>)
    requires TableOk(t) && forall k :: 0 <= k < |entries| ==> |entries[k].id| <= 8
    ensures TableOk(Filled(t, entries).0)
  {
    if entries == [] {
    } else {
      var front, e := entries[..|entries| - 1], entries[|entries| - 1];
      FillKeepsOk(t, front);
      UpsertKeepsOk(Filled(t, front).0, e.id, e.hash, e.validFrom, e.validUntil, false);
    }
  }

  lemma ClearingKeepsOk(t: Table, gone: seq<bool>)
    requires TableOk(t) && |gone| == 5
    ensures TableOk(ClearedWhere(t, gone, 5))
  {
    hide ClearedWhere;
  }

  lemma ClearedGuestsOk(t: Table)
    requires TableOk(t)
    ensures TableOk(ClearedGuests(t, 5))
  {
    hide ClearedGuests;
  }

  lemma InstallKeepsOk(t: Table, codes: CodeSet)
    requires TableOk(t)
    ensures TableOk(Installed(Sync(0, 0, false, 0), t, codes, 0).1)
  {
    hide TableOk, ClearedGuests, Filled;
    if forall k :: 0 <= k < |codes.entries| ==> Valid(codes.entries[k]) {
      ClearedGuestsOk(t);
      FillKeepsOk(ClearedGuests(t, 5), codes.entries);
    }
  }

  lemma DoKeepsOk(t: Table, op: Op)
    requires TableOk(t) && ShortIds(op)
    ensures TableOk(Do(t, op))
  {
    hide ClearedWhere, Installed;
    match op {
      case Upsert(id, h, from, until) => UpsertKeepsOk(t, id, h, from, until, false);
      case UpsertTransient(id, h, from, until) => UpsertKeepsOk(t, id, h, from, ClampedUntil(from, until), true);
      case Revoke(id) =>
      case RevokeTransient => ClearingKeepsOk(t, TransientMarks(t));
      case Purge(now) => ClearingKeepsOk(t, ExpiredMarks(t, now));
      case Install(codes) => InstallKeepsOk(t, codes);
    }
  }

  /** The table invariant holds along every run from an empty table. */
  lemma {:induction false} RunKeepsOk(ops: seq<Op>)
    requires forall k :: 0 <= k < |ops| ==> ShortIds(ops[k])
    ensures TableOk(DoAll(EMPTY_TABLE, ops))
  {
    if ops == [] {
    } else {
      RunKeepsOk(ops[..|ops| - 1]);
      DoKeepsOk(DoAll(EMPTY_TABLE, ops[..|ops| - 1]), ops[|ops| - 1]);
    }
  }

  /** So a revoke really removes the code: no slot with that id is left. */
  lemma RevokeLeavesNone(ops: seq<Op>, id: CString)
    requires forall k :: 0 <= k < |ops| ==> ShortIds(ops[k])
    ensures var t := DoAll(EMPTY_TABLE, ops + [Revoke(id)]);
            forall i :: 0 <= i < 5 && t[i].occupied ==> t[i].id != id
  {
    RunKeepsOk(ops);
    assert (ops + [Revoke(id)])[..|ops|] == ops;
  }

  /** A revoke finds the code just pushed under an id exactly when the id fits: an over-long one is
      stored cut, and no revoke by the id it was pushed under ever finds it. */
  lemma RevokeFindsExactly(t: Table, id: CString, h: Hash, from: int, until: int, transient: bool)
    requires Upserted(t, id, h, from, until, transient).1 >= 0
    ensures Revoked(Upserted(t, id, h, from, until, transient).0, id).1 <==> |id| <= 8
  {
    hide FreeFrom;
    var (u, i) := Upserted(t, id, h, from, until, transient);
    assert u[i].occupied && u[i].id == Truncated(id);
  }

  /** And what it does not find stays in force: the table is as it was. */
  lemma MissedRevokeChangesNothing(t: Table, id: CString)
    ensures Revoked(t, id).1 <==> exists i :: 0 <= i < 5 && t[i].occupied && t[i].id == id
    ensures !Revoked(t, id).1 ==> Revoked(t, id).0 == t
  {
  }

  /** A revoke leaves no code with the id exactly when no two slots hold it. */
  lemma RevokeLeavesNoneExactly(t: Table, id: CString)
    ensures (forall i :: 0 <= i < 5 && Revoked(t, id).0[i].occupied ==> Revoked(t, id).0[i].id != id) <==>
            !exists i, j :: 0 <= i < j < 5 && t[i].occupied && t[j].occupied && t[i].id == id && t[j].id == id
  {
    var f, r := FindById(t, id), Revoked(t, id).0;
    if 0 <= f {
      assert forall k :: 0 <= k < 5 && k != f ==> r[k] == t[k];
    }
    if i, j :| 0 <= i < j < 5 && t[i].occupied && t[j].occupied && t[i].id == id && t[j].id == id {
      assert f <= i && r[j] == t[j];
    }
  }

  /** With an over-long id pushed twice, a revoke of what is stored leaves the second copy behind. */
  lemma LongIdSurvivesRevoke(h: Hash)
    ensures var long: CString := "123456789";
            var t := DoAll(EMPTY_TABLE, [Upsert(long, h, 0, 1), Upsert(long, h, 0, 1), Revoke("12345678")]);
            t[1].occupied && t[1].id == "12345678"
  {
    var long: CString := "123456789";
    var a, c := Upsert(long, h, 0, 1), Revoke("12345678");
    var ops := [a, a, c];
    assert ops[..2] == [a, a] && [a, a][..1] == [a] && [a][..0] == [];
    assert long[..8] == "12345678";
    var s := Slot(true, false, "12345678", h, 0, 1);
    var one := EMPTY_TABLE[0 := s];
    assert DoAll(EMPTY_TABLE, [a]) == Do(EMPTY_TABLE, a) == one;
    assert DoAll(EMPTY_TABLE, [a, a]) == Do(one, a) == one[1 := s];
    assert DoAll(EMPTY_TABLE, ops) == Do(one[1 := s], c);
  }

  /** Pushing a stored code again is a no-op, answered with the same slot, exactly when the id fits:
      an over-long one takes a second slot, or is refused once the table is full. */
  lemma RepushIsIdempotent(t: Table, id: CString, h: Hash, from: int, until: int, transient: bool)
    requires Upserted(t, id, h, from, until, transient).1 >= 0
    ensures var (u, i) := Upserted(t, id, h, from, until, transient);
            Upserted(u, id, h, from, until, transient) == (u, i) <==> |id| <= 8
  {
    hide FindFrom, FreeFrom;
    var (u, i) := Upserted(t, id, h, from, until, transient);
    assert u == t[i := u[i]] && u[i].id == Truncated(id);
    if |id| <= 8 {
      assert FindById(u, id) == i;
      assert u[i := Slot(true, transient, id, h, from, until)] == u;
    } else {
      assert FindById(u, id) < 0 && FindById(t, id) < 0;
    }
  }

  /** Ending a session removes every dev code and no guest code, and doing it again changes nothing. */
  lemma RevokeTransientExactly(t: Table)
    ensures var r := Do(t, RevokeTransient);
            && (forall i :: 0 <= i < 5 ==> r[i] == if t[i].occupied && t[i].transient then EMPTY else t[i])
            && Do(r, RevokeTransient) == r
  {
    hide ClearedWhere;
    var r := Do(t, RevokeTransient);
    forall i | 0 <= i < 5
      ensures Do(r, RevokeTransient)[i] == r[i]
    {
    }
  }

  /** A purge empties exactly the slots whose window closed before now and leaves the others as they are. */
  lemma PurgeExactly(t: Table, now: int)
    ensures var r := Do(t, Purge(now));
            && (forall i :: 0 <= i < 5 ==> r[i] == if t[i].occupied && t[i].validUntil < now then EMPTY else t[i])
            && forall i :: 0 <= i < 5 && r[i].occupied ==> now <= r[i].validUntil
  {
    hide ClearedWhere;
  }

  // ---- the decision ----

  /** Slot `m` is the highest occupied one holding this hash. */
  ghost predicate IsLastMatch(t: Table, h: Hash, m: nat) {
    && m < 5 && t[m].occupied && t[m].hash == h
    && forall k :: m < k < 5 && t[k].occupied ==> t[k].hash != h
  }

  /** No lockout stands in the way.  The second half is about clocks before 1970 only: there the
      cleared deadline 0 itself lies in the future. */
  predicate NoLockout(a: Access, now: int) {
    !LockedOut(a, now) && 0 <= now
  }

  /** The door opens exactly when the clock is trusted, no lockout is in force, and the last slot
      holding the hash has `now` in its window. */
  lemma GrantExactly(a: Access, h: Hash, now: int)
    ensures Evaluated(a, h, now).1 == Granted <==>
            && a.clockTrusted && NoLockout(a, now)
            && exists m: nat :: IsLastMatch(a.slots, h, m) && a.slots[m].validFrom <= now <= a.slots[m].validUntil
  {
    var m := LastMatch(a.slots, h, 5);
    if 0 <= m {
      assert IsLastMatch(a.slots, h, m);
    }
  }

  /** A code inside its window is turned away by a copy of its hash further up the table whose own
      window has not opened: only the last match counts. */
  lemma EarlierMatchIsShadowed(h: Hash)
    ensures var open, early := Slot(true, false, "0000000a", h, 0, 10), Slot(true, false, "0000000b", h, 20, 30);
            Evaluated(Access([open, early, EMPTY, EMPTY, EMPTY], true, 0, 0, 5, 60), h, 5).1 == NotYet
  {
    var open, early := Slot(true, false, "0000000a", h, 0, 10), Slot(true, false, "0000000b", h, 20, 30);
    var t: Table := [open, early, EMPTY, EMPTY, EMPTY];
    assert t[1] == early && !t[2].occupied && !t[3].occupied && !t[4].occupied;
    assert LastMatch(t, h, 5) == 1;
  }

  /** A grant names the slot that matched and clears the counter and the deadline. */
  lemma GrantClears(a: Access, h: Hash, now: int)
    requires Evaluated(a, h, now).1 == Granted
    ensures var (b, _, m) := Evaluated(a, h, now);
            && 0 <= m && IsLastMatch(a.slots, h, m)
            && b == a.(failedAttempts := 0, lockoutUntil := 0)
  {
  }

  /** A genuine code outside its window is told apart from an unknown one, and costs no attempt. */
  lemma OutsideWindowExactly(a: Access, h: Hash, now: int)
    ensures Evaluated(a, h, now).1 == NotYet <==>
            && a.clockTrusted && NoLockout(a, now)
            && exists m: nat :: IsLastMatch(a.slots, h, m) && now < a.slots[m].validFrom
    ensures Evaluated(a, h, now).1 == Expired <==>
            && a.clockTrusted && NoLockout(a, now)
            && exists m: nat :: IsLastMatch(a.slots, h, m) && a.slots[m].validFrom <= now && a.slots[m].validUntil < now
    ensures Evaluated(a, h, now).1 in {NotYet, Expired, Lockout, NoClock} ==>
            Evaluated(a, h, now).0.failedAttempts <= a.failedAttempts
  {
    var m := LastMatch(a.slots, h, 5);
    if 0 <= m {
      assert IsLastMatch(a.slots, h, m);
    }
  }

  /** An attempt is charged exactly for a hash no occupied slot holds, on a trusted clock, outside a lockout. */
  lemma UnknownExactly(a: Access, h: Hash, now: int)
    ensures Evaluated(a, h, now).1 == Unknown <==>
            && a.clockTrusted && NoLockout(a, now)
            && forall k :: 0 <= k < 5 && a.slots[k].occupied ==> a.slots[k].hash != h
  {
  }

  /** The other two answers: the clock is not trusted, or a lockout stands in the way. */
  lemma RefusedExactly(a: Access, h: Hash, now: int)
    ensures Evaluated(a, h, now).1 == NoClock <==> !a.clockTrusted
    ensures Evaluated(a, h, now).1 == Lockout <==> a.clockTrusted && !NoLockout(a, now)
  {
    hide LastMatch;
  }

  /** What each answer leaves behind.  A wrong code adds one to the count, up to 255, and a count at
      the maximum sets the deadline; anything else but a grant at most clears a lockout that is over. */
  lemma CostExactly(a: Access, h: Hash, now: int)
    ensures var (b, v, m) := Evaluated(a, h, now);
            var count := if a.lockoutUntil == 0 then a.failedAttempts else 0;
            var charged := if count < 255 then count + 1 else 255;
            && (v == NoClock || (v == Lockout && a.lockoutUntil > now) ==> b == a)
            && (v == NotYet || v == Expired || (v == Lockout && a.lockoutUntil <= now) ==>
                  b == a.(failedAttempts := count, lockoutUntil := 0))
            && (v == Unknown ==>
                  b == a.(failedAttempts := charged,
                          lockoutUntil := if 0 < a.maxFailedAttempts <= charged then now + a.lockoutSeconds else 0))
            && (v != Granted ==> m == -1)
  {
    hide LastMatch;
  }

  /** A wrong code locks out exactly when it brings the count to the maximum; the lockout then
      answers every code until exactly `lockoutSeconds` later, and lifts with a clean counter. */
  lemma LockoutLastsExactly(a: Access, h: Hash, now: int, g: Hash, later: int)
    requires Evaluated(a, h, now).1 == Unknown && a.maxFailedAttempts > 0 && a.lockoutSeconds > 0 && now <= later
    ensures var b := Evaluated(a, h, now).0;
            && (LockedOut(b, now) <==> Ticked(a, now).failedAttempts + 1 >= a.maxFailedAttempts)
            && (LockedOut(b, now) ==>
                  ((Evaluated(b, g, later).1 == Lockout <==> later < now + a.lockoutSeconds)
                   && (later >= now + a.lockoutSeconds ==>
                      Ticked(b, later) == b.(failedAttempts := 0, lockoutUntil := 0))))
  {
    hide LastMatch;
    assert now >= 0 by {
      UnknownExactly(a, h, now);
    }
  }
}
