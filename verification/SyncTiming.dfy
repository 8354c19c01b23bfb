/** When a poll is due and when the last one counts as stale, in real time. */
module SyncTiming {
  import opened Bytes
  import opened Clock32
  import opened AccessCore
  import opened SyncLogic

  /** `(int32_t)(now - next_due) >= 0`. */
  predicate Due(s: Sync, now: u32) {
    (now - s.nextDueMs) % WORD < HALF_WORD
  }

  /** `sync_is_stale`. */
  predicate IsStale(s: Sync, now: u32) {
    !s.everSynced || (now - s.lastOkMs) % WORD > STALE_MS
  }

  /** After a poll, answered or not, the next one reads as due exactly for the half turn of the
      clock that starts a period later, and for every second half turn after that. */
  lemma DueExactly(s: Sync, t: nat, u: nat, answered: bool)
    ensures Due(if answered then Noted(s, Clock(t)) else Scheduled(s, Clock(t)), Clock(u)) <==>
            (u - t - PERIOD_MS) % WORD < HALF_WORD
  {
    LaterIsClock(t, PERIOD_MS);
    Difference(t + PERIOD_MS, u);
  }

  /** So, for that first half turn: exactly when a period has passed. */
  lemma DueInTime(s: Sync, t: nat, u: nat, answered: bool)
    requires t <= u < t + PERIOD_MS + HALF_WORD
    ensures Due(if answered then Noted(s, Clock(t)) else Scheduled(s, Clock(t)), Clock(u)) <==> u - t >= PERIOD_MS
  {
    DueExactly(s, t, u, answered);
    var x := u - t - PERIOD_MS;
    if x < 0 {
      ModShift(x, 1);
    }
  }

  /** A poll not made by then reads as not due again. */
  lemma OverdueForgotten(s: Sync, t: nat, answered: bool)
    ensures !Due(if answered then Noted(s, Clock(t)) else Scheduled(s, Clock(t)), Clock(t + PERIOD_MS + HALF_WORD))
  {
    DueExactly(s, t, t + PERIOD_MS + HALF_WORD, answered);
  }

  /** A sync is flagged as stale exactly when the time since it, less whole turns of the clock,
      exceeds an hour; so a sync that old is flagged, until the clock comes round. */
  lemma StaleExactly(s: Sync, t: nat, u: nat)
    requires t <= u
    ensures IsStale(Noted(s, Clock(t)), Clock(u)) <==> (u - t) % WORD > STALE_MS
    ensures u < t + WORD ==> (IsStale(Noted(s, Clock(t)), Clock(u)) <==> u - t > STALE_MS)
  {
    Difference(t, u);
    Residue(u - t);
  }

  /** Forty-nine days without an answer look like a fresh one for an hour. */
  lemma StaleForgets(s: Sync, t: nat)
    ensures !IsStale(Noted(s, Clock(t)), Clock(t + WORD))
  {
    StaleExactly(s, t, t + WORD);
  }

  // ---- through an install ----

  /** An answer that counts as a sync: the set was installed, or is the one already held. */
  predicate IsAnswer(out: Outcome) {
    out == Applied || out == Overflowed || out == Unchanged
  }

  /** After such an answer the next poll is due exactly from fifteen minutes later, for half a turn of
      the clock, and the sync counts as fresh exactly for an hour, for a whole turn. */
  lemma AnswerIsNoted(s: Sync, t: Table, codes: CodeSet, at: nat, u: nat)
    requires IsAnswer(Installed(s, t, codes, Clock(at)).2) && at <= u
    ensures var p := Installed(s, t, codes, Clock(at)).0;
            && p.everSynced && p.generation == codes.generation
            && (u < at + 900_000 + HALF_WORD ==> (Due(p, Clock(u)) <==> u - at >= 900_000))
            && (u < at + WORD ==> (IsStale(p, Clock(u)) <==> u - at > 3_600_000))
  {
    hide Filled, ClearedGuests, Valid;
    var p := Installed(s, t, codes, Clock(at)).0;
    var n := Noted(s, Clock(at));
    assert p.lastOkMs == n.lastOkMs && p.nextDueMs == n.nextDueMs && p.everSynced == n.everSynced;
    StaleExactly(s, at, u);
    if u < at + PERIOD_MS + HALF_WORD {
      DueInTime(s, at, u, true);
    }
  }

  /** A set that was installed, delivered again at any time, is answered as unchanged and leaves the
      table as it is; only the time of the answer is new. */
  lemma AgainIsUnchanged(s: Sync, t: Table, codes: CodeSet, at: nat, again: nat)
    requires IsAnswer(Installed(s, t, codes, Clock(at)).2)
    ensures var (p, u, _) := Installed(s, t, codes, Clock(at));
            var (q, v, out) := Installed(p, u, codes, Clock(again));
            && out == Unchanged && v == u && q.generation == p.generation && q.everSynced
            && q.lastOkMs == Clock(again)
  {
    hide Filled, ClearedGuests, Valid;
  }

  /** A device that has just started has a poll due at once, for half a turn of the clock, and counts
      as stale until it is answered. */
  lemma StartIsDue(stored: u64, t: nat, u: nat)
    requires t <= u < t + HALF_WORD
    ensures var s := Started(stored, Clock(t)); s.generation == stored && Due(s, Clock(u)) && IsStale(s, Clock(u))
  {
    Difference(t, u);
    Residue(u - t);
  }
}
