/** When entries are abandoned and notices disappear, in real time. */
module UiTiming {
  import opened Bytes
  import opened Clock32
  import opened AccessCore
  import opened Ui

  /** An entry is abandoned, at no cost to the counter, exactly by a tick that does not read its
      deadline, ten seconds after the last key, as still to come. */
  lemma EntryAbandonedExactly(u: State, a: Access, t: nat, r: nat, epoch: int, later: int)
    requires u.clockTrusted && !LockedOut(a, epoch) && !LockedOut(a, later)
    requires Keyed(u, a, Now(Clock(t), epoch)).1 == NoAction
    ensures var v := Keyed(u, a, Now(Clock(t), epoch)).0;
            ScreenTicked(v, a, Now(Clock(r), later)) ==
            if ReadsAhead(t, ENTRY_TIMEOUT_MS, r) then (v, NoAction) else (Idle(v), ClearBuffer)
  {
    ReachedAlways(t, ENTRY_TIMEOUT_MS, r);
  }

  /** So, up to half a turn of the clock later: exactly when ten seconds have passed. */
  lemma EntryAbandonedInTime(u: State, a: Access, t: nat, r: nat, epoch: int, later: int)
    requires u.clockTrusted && !LockedOut(a, epoch) && !LockedOut(a, later)
    requires Keyed(u, a, Now(Clock(t), epoch)).1 == NoAction
    requires t <= r <= t + 10_000 + HALF_WORD
    ensures var v := Keyed(u, a, Now(Clock(t), epoch)).0;
            ScreenTicked(v, a, Now(Clock(r), later)) ==
            if r - t >= 10_000 then (Idle(v), ClearBuffer) else (v, NoAction)
  {
    EntryAbandonedExactly(u, a, t, r, epoch, later);
    ReadsAheadInTime(t, ENTRY_TIMEOUT_MS, r);
  }

  /** A first tick half a turn and a millisecond after the deadline leaves the entry open. */
  lemma LateTickKeepsEntry(u: State, a: Access, t: nat, epoch: int, later: int)
    requires u.clockTrusted && !LockedOut(a, epoch) && !LockedOut(a, later)
    requires Keyed(u, a, Now(Clock(t), epoch)).1 == NoAction
    ensures var v := Keyed(u, a, Now(Clock(t), epoch)).0;
            ScreenTicked(v, a, Now(Clock(t + ENTRY_TIMEOUT_MS + HALF_WORD + 1), later)) == (v, NoAction)
  {
    ReadsAheadAgain(t, ENTRY_TIMEOUT_MS);
    EntryAbandonedExactly(u, a, t, t + ENTRY_TIMEOUT_MS + HALF_WORD + 1, epoch, later);
  }

  /** How long the notice for a verdict stays up. */
  function NoticeMs(v: Verdict): nat {
    if v == Granted then 3000 else if v == Unknown || v == Lockout then 2000 else 3000
  }

  /** A notice is taken down exactly by a tick that does not read its deadline as still to come,
      provided the deadline did not happen to wrap to zero, which the machine reads as "none". */
  lemma NoticeEndsExactly(u: State, a: Access, v: Verdict, t: nat, r: nat, epoch: int, later: int)
    requires !LockedOut(a, epoch) && !LockedOut(a, later)
    ensures var w := Resulted(u, a, v, Now(Clock(t), epoch));
            var x := ScreenTicked(w, a, Now(Clock(r), later)).0;
            && w.screen != Dark && w.entryLen == 0
            && (x.screen == Dark <==> (t + NoticeMs(v)) % WORD != 0 && !ReadsAhead(t, NoticeMs(v), r))
            && (x.screen != Dark ==> x == w)
  {
    ReachedAlways(t, NoticeMs(v), r);
    LaterIsClock(t, NoticeMs(v));
  }

  /** So, up to half a turn of the clock later: exactly when its time is up, a deadline of zero apart. */
  lemma NoticeEndsInTime(u: State, a: Access, v: Verdict, t: nat, r: nat, epoch: int, later: int)
    requires !LockedOut(a, epoch) && !LockedOut(a, later)
    requires t <= r <= t + NoticeMs(v) + HALF_WORD
    ensures var w := Resulted(u, a, v, Now(Clock(t), epoch));
            ScreenTicked(w, a, Now(Clock(r), later)).0.screen == Dark <==>
            r - t >= NoticeMs(v) && (t + NoticeMs(v)) % WORD != 0
  {
    NoticeEndsExactly(u, a, v, t, r, epoch, later);
    ReadsAheadInTime(t, NoticeMs(v), r);
  }

  /** The two notices that stay up after their time: one whose deadline wraps to zero, at every tick,
      and any other at a tick half a turn and a millisecond after its deadline. */
  lemma NoticeStaysUp(u: State, a: Access, v: Verdict, t: nat, r: nat, epoch: int, later: int)
    requires !LockedOut(a, epoch) && !LockedOut(a, later)
    requires (t + NoticeMs(v)) % WORD == 0 || r == t + NoticeMs(v) + HALF_WORD + 1
    ensures var w := Resulted(u, a, v, Now(Clock(t), epoch));
            ScreenTicked(w, a, Now(Clock(r), later)).0 == w && w.screen != Dark
  {
    ReadsAheadAgain(t, NoticeMs(v));
    NoticeEndsExactly(u, a, v, t, r, epoch, later);
  }

  /** Without a trusted clock a key shows the notice that says so for three seconds, lockout or not,
      with the same two exceptions as any other notice, and starts no entry. */
  lemma NoClockNoticeEndsExactly(u: State, a: Access, t: nat, r: nat, epoch: int, later: int)
    requires !u.clockTrusted
    ensures var (w, act) := Keyed(u, a, Now(Clock(t), epoch));
            var (x, next) := ScreenTicked(w, a, Now(Clock(r), later));
            && act == NoAction && w.screen == ShowNoClock && w.entryLen == 0 && !w.clockTrusted
            && (x.screen == Dark <==> (t + 3000) % WORD != 0 && !ReadsAhead(t, 3000, r))
            && (x.screen != Dark ==> x == w) && next == NoAction
  {
    ReachedAlways(t, 3000, r);
    LaterIsClock(t, 3000);
  }

  /** In a lockout on a trusted clock a tick keeps whatever is on the screen and forgets how many keys
      were typed; keys change nothing. */
  lemma LockoutFreezesScreen(u: State, a: Access, now: Now)
    requires u.clockTrusted && LockedOut(a, now.epoch)
    ensures ScreenTicked(u, a, now) == (State(u.screen, 0, u.entryDeadlineMs, u.screenUntilMs, true), NoAction)
    ensures Keyed(u, a, now) == (u, NoAction)
  {
  }

  /** Each verdict has its own notice; only an unknown code and a lockout share one, and in a lockout
      they darken the screen instead. */
  lemma NoticeTellsVerdict(u: State, a: Access, v: Verdict, now: Now)
    ensures var s := Resulted(u, a, v, now).screen;
            && (s == ShowGranted <==> v == Granted)
            && (s == ShowNotYet <==> v == NotYet)
            && (s == ShowExpired <==> v == Expired)
            && (s == ShowNoClock <==> v == NoClock)
            && (s == ShowDenied <==> (v == Unknown || v == Lockout) && !LockedOut(a, now.epoch))
            && (s == Dark <==> (v == Unknown || v == Lockout) && LockedOut(a, now.epoch))
  {
  }
}
