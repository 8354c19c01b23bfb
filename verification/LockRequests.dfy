/** Exactly when a request starts a pulse, in real time and over whole runs. */
module LockRequests {
  import opened Bytes
  import opened Clock32
  import opened LockLogic
  import opened LockDuty

  /** The clock reads a pulse that started at `s` as over. */
  predicate PulseOver(s: nat, p: nat, t: nat) {
    (t - s) % WORD >= p
  }

  /** The clock reads the cooldown after that pulse as over: its deadline is behind, and less than
      half a turn behind. */
  predicate CooldownOver(s: nat, p: nat, t: nat) {
    (t - s - p - COOLDOWN_MS) % WORD <= HALF_WORD
  }

  lemma NegatedResidue(x: int)
    ensures (-x) % WORD == if x % WORD == 0 then 0 else WORD - x % WORD
  {
    var q, r := x / WORD, x % WORD;
    assert x == WORD * q + r;
    ModShift(-r, -q);
  }

  /** What one tick does to a machine that tracks the pulse started at `s`. */
  lemma TickExactly(st: Lock, s: nat, before: nat, now: nat)
    requires Tracks(st, s, before) && before <= now
    ensures var u := Ticked(st, Clock(now)).phase;
            && (u == Pulsing <==> st.phase == Pulsing && !PulseOver(s, st.pulseMs, now))
            && (u == Idle <==> st.phase == Idle || (st.phase == Cooldown && CooldownOver(s, st.pulseMs, now)))
  {
    var d := s + st.pulseMs + COOLDOWN_MS;
    Difference(s, now);
    LaterIsClock(s, st.pulseMs + COOLDOWN_MS);
    Difference(now, d);
    NegatedResidue(now - d);
  }

  /** A cooldown never reads as over early, and reads as over for half a turn of the clock. */
  lemma CooldownIsReal(s: nat, p: nat, t: nat)
    requires s <= t && p <= 1000
    ensures CooldownOver(s, p, t) ==> t >= s + p + COOLDOWN_MS
    ensures s + p + COOLDOWN_MS <= t <= s + p + COOLDOWN_MS + HALF_WORD ==> CooldownOver(s, p, t)
  {
    var x := t - s - p - COOLDOWN_MS;
    if x < 0 {
      ModShift(x, 1);
    } else {
      Residue(x);
    }
  }

  // ---- one request ----

  /** A request is accepted exactly by an idle machine, or by one in cooldown whose deadline reads
      as past. */
  lemma RequestExactly(st: Lock, s: nat, before: nat, now: nat)
    requires Tracks(st, s, before) && before <= now
    ensures Requested(st, Clock(now)).1 <==>
            st.phase == Idle || (st.phase == Cooldown && CooldownOver(s, st.pulseMs, now))
  {
    TickExactly(st, s, before, now);
  }

  /** The documented meaning of a refusal, "a pulse is running or its cooldown has not elapsed",
      holds exactly when the cooldown really has not elapsed, or the machine has left the pulse and
      its clock can still tell the deadline is past. */
  lemma RefusalMeansExactly(st: Lock, s: nat, before: nat, now: nat)
    requires Tracks(st, s, before) && before <= now && st.pulseMs <= 1000
    ensures var over := now >= s + st.pulseMs + COOLDOWN_MS;
            (Requested(st, Clock(now)).1 <==> over) <==>
            !over || st.phase == Idle || (st.phase == Cooldown && CooldownOver(s, st.pulseMs, now))
  {
    RequestExactly(st, s, before, now);
    CooldownIsReal(s, st.pulseMs, now);
  }

  /** For half a turn of the clock after the deadline, that is: the pulse must have been ticked out. */
  lemma RequestInTime(st: Lock, s: nat, before: nat, now: nat)
    requires Tracks(st, s, before) && before <= now && st.pulseMs <= 1000
    requires now <= s + st.pulseMs + COOLDOWN_MS + HALF_WORD
    ensures Requested(st, Clock(now)).1 <==> st.phase != Pulsing && now >= s + st.pulseMs + COOLDOWN_MS
  {
    RequestExactly(st, s, before, now);
    CooldownIsReal(s, st.pulseMs, now);
  }

  // ---- whole runs ----

  /** Some call after the last accepted one found the pulse over. */
  ghost predicate SawPulseOver(calls: seq<Call>, k: nat, p: nat)
    requires k < |calls|
  {
    exists i :: k < i < |calls| && PulseOver(calls[k].at, p, calls[i].at)
  }

  /** And some call after that one found the cooldown over. */
  ghost predicate SawCooldownOver(calls: seq<Call>, k: nat, p: nat)
    requires k < |calls|
  {
    exists i, j :: k < i < j < |calls| && PulseOver(calls[k].at, p, calls[i].at)
        && CooldownOver(calls[k].at, p, calls[j].at)
  }

  /** The phase is decided by what the calls since the last accepted request have seen. */
  lemma {:induction false} PhaseExactly(pulse: u32, calls: seq<Call>)
    requires InOrder(calls) && 0 <= LastAccepted(pulse, calls)
    ensures var st, k, p := After(pulse, calls), LastAccepted(pulse, calls), PulseLength(pulse);
            && (st.phase == Pulsing <==> !SawPulseOver(calls, k, p))
            && (st.phase == Idle <==> SawCooldownOver(calls, k, p))
  {
    hide PulseLength, PulseOver, CooldownOver, Accepted, Called, LastAccepted;
    var last, p := |calls| - 1, PulseLength(pulse);
    var front, c := calls[..last], calls[last];
    LastAcceptedStep(pulse, calls);
    var k := LastAccepted(pulse, calls);
    if k == last {
      AcceptedPulses(pulse, calls);
    } else {
      PhaseExactly(pulse, front);
      RunTracks(pulse, front);
      PulseKept(pulse, front);
      var st := After(pulse, front);
      TickExactly(st, calls[k].at, LastTime(front), c.at);
      NotAcceptedTicks(pulse, calls);
      SawOneMorePulse(calls, k, p);
      SawOneMoreCooldown(calls, k, p);
    }
  }

  lemma AcceptedPulses(pulse: u32, calls: seq<Call>)
    requires calls != [] && Accepted(pulse, calls, |calls| - 1)
    ensures After(pulse, calls).phase == Pulsing
  {
  }

  lemma NotAcceptedTicks(pulse: u32, calls: seq<Call>)
    requires calls != [] && !Accepted(pulse, calls, |calls| - 1)
    ensures var last := |calls| - 1;
            After(pulse, calls).phase == Ticked(After(pulse, calls[..last]), Clock(calls[last].at)).phase
  {
    var last := |calls| - 1;
    CalledPhase(After(pulse, calls[..last]), calls[last]);
  }

  /** Adding a call adds one chance to find the pulse over. */
  lemma SawOneMorePulse(calls: seq<Call>, k: nat, p: nat)
    requires k < |calls| - 1
    ensures var last := |calls| - 1;
            SawPulseOver(calls, k, p) <==>
            SawPulseOver(calls[..last], k, p) || PulseOver(calls[k].at, p, calls[last].at)
  {
    hide PulseOver;
    var last := |calls| - 1;
    var front := calls[..last];
    assert forall i :: 0 <= i < last ==> front[i] == calls[i];
    if SawPulseOver(front, k, p) {
      var i :| k < i < last && PulseOver(front[k].at, p, front[i].at);
      assert PulseOver(calls[k].at, p, calls[i].at);
    }
    if SawPulseOver(calls, k, p) {
      var i :| k < i < |calls| && PulseOver(calls[k].at, p, calls[i].at);
      assert i < last ==> PulseOver(front[k].at, p, front[i].at);
    }
  }

  /** And, once that has been seen, one to find the cooldown over. */
  lemma SawOneMoreCooldown(calls: seq<Call>, k: nat, p: nat)
    requires k < |calls| - 1
    ensures var last := |calls| - 1;
            var front := calls[..last];
            SawCooldownOver(calls, k, p) <==>
            SawCooldownOver(front, k, p) || (SawPulseOver(front, k, p) && CooldownOver(calls[k].at, p, calls[last].at))
  {
    hide PulseOver, CooldownOver;
    var last := |calls| - 1;
    var front := calls[..last];
    assert forall i :: 0 <= i < last ==> front[i] == calls[i];
    var s := calls[k].at;
    if SawCooldownOver(front, k, p) {
      var i, j :| k < i < j < last && PulseOver(s, p, front[i].at) && CooldownOver(s, p, front[j].at);
      assert PulseOver(s, p, calls[i].at) && CooldownOver(s, p, calls[j].at);
    }
    if SawPulseOver(front, k, p) && CooldownOver(s, p, calls[last].at) {
      var i :| k < i < last && PulseOver(s, p, front[i].at);
      assert PulseOver(s, p, calls[i].at);
    }
    if SawCooldownOver(calls, k, p) {
      var i, j :| k < i < j < |calls| && PulseOver(s, p, calls[i].at) && CooldownOver(s, p, calls[j].at);
      assert PulseOver(s, p, front[i].at);
      if j < last {
        assert CooldownOver(s, p, front[j].at);
      }
    }
  }

  /** The exact theorem, for every run and every time.  A request is accepted if and only if nothing
      was accepted before, or some call since found that pulse over and a later one, or the request
      itself, finds its cooldown over. */
  lemma AcceptedExactly(pulse: u32, calls: seq<Call>, t: nat)
    requires InOrder(calls) && LastTime(calls) <= t
    ensures var k, p := LastAccepted(pulse, calls), PulseLength(pulse);
            Requested(After(pulse, calls), Clock(t)).1 <==>
            k < 0 || SawCooldownOver(calls, k, p) || (SawPulseOver(calls, k, p) && CooldownOver(calls[k].at, p, t))
  {
    hide PulseOver, CooldownOver, LastAccepted, After, PulseLength, SawPulseOver, SawCooldownOver;
    RunTracks(pulse, calls);
    PulseKept(pulse, calls);
    var st, k := After(pulse, calls), LastAccepted(pulse, calls);
    if 0 <= k {
      PhaseExactly(pulse, calls);
      RequestExactly(st, calls[k].at, LastTime(calls), t);
    }
  }

  /** For half a turn of the clock after the cooldown: a request is accepted if and only if nothing
      was accepted before, or the last pulse started at least a pulse and a cooldown ago and some
      call since came after that pulse ended. */
  lemma AcceptedInTime(pulse: u32, calls: seq<Call>, t: nat)
    requires InOrder(calls) && LastTime(calls) <= t
    requires var k := LastAccepted(pulse, calls);
             0 <= k ==> t <= calls[k].at + PulseLength(pulse) + COOLDOWN_MS + HALF_WORD
    ensures var k, p := LastAccepted(pulse, calls), PulseLength(pulse);
            Requested(After(pulse, calls), Clock(t)).1 <==>
            || k < 0
            || (t >= calls[k].at + p + COOLDOWN_MS
                && exists i :: k < i < |calls| && calls[i].at >= calls[k].at + p)
  {
    hide LastAccepted, After, PulseLength, PulseOver, CooldownOver;
    AcceptedExactly(pulse, calls, t);
    PulseKept(pulse, calls);
    var k, p := LastAccepted(pulse, calls), PulseLength(pulse);
    if 0 <= k {
      var s := calls[k].at;
      CooldownIsReal(s, p, t);
      forall i | k < i < |calls|
        ensures PulseOver(s, p, calls[i].at) <==> calls[i].at >= s + p
        ensures CooldownOver(s, p, calls[i].at) ==> t >= s + p + COOLDOWN_MS
      {
        OverInTime(s, p, calls[i].at);
        CooldownIsReal(s, p, calls[i].at);
      }
    }
  }

  lemma OverInTime(s: nat, p: nat, t: nat)
    requires s <= t < s + WORD
    ensures PulseOver(s, p, t) <==> t >= s + p
  {
    Residue(t - s);
  }

  // ---- the two ways a late request is refused ----

  /** Any machine still in its pulse refuses: one tick only gets it as far as cooldown. */
  lemma StalledPulseRefusesFirst(st: Lock, now: u32)
    requires st.phase == Pulsing
    ensures !Requested(st, now).1
  {
  }

  /** So, after a pulse that nobody ticked, the first request is refused however late it comes. */
  lemma UntickedPulseRefuses(pulse: u32, t: nat)
    ensures !Requested(After(pulse, [Request(0)]), Clock(t)).1
  {
    assert [Request(0)][..0] == [];
    assert After(pulse, [Request(0)]) == Called(Fresh(pulse), Request(0));
  }

  /** A pulse ticked out in time, then silence for half a turn of the clock: the old deadline reads
      as still to come, and the request is refused; a millisecond earlier it is accepted. */
  lemma OldDeadlineRefuses(pulse: u32)
    ensures var p := PulseLength(pulse);
            var calls := [Request(0), Tick(p)];
            && !Requested(After(pulse, calls), Clock(p + COOLDOWN_MS + HALF_WORD + 1)).1
            && Requested(After(pulse, calls), Clock(p + COOLDOWN_MS + HALF_WORD)).1
  {
    var p := PulseLength(pulse);
    var calls := [Request(0), Tick(p)];
    assert calls[..0] == [] && calls[..1] == [Request(0)] && [Request(0)][..0] == [];
    assert After(pulse, [Request(0)]) == Called(Fresh(pulse), Request(0));
    assert After(pulse, calls) == Called(After(pulse, [Request(0)]), Tick(p));
    var st := After(pulse, calls);
    assert st.phase == Cooldown && Tracks(st, 0, p);
    RequestExactly(st, 0, p, p + COOLDOWN_MS + HALF_WORD);
    RequestExactly(st, 0, p, p + COOLDOWN_MS + HALF_WORD + 1);
  }
}
