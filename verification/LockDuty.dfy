/** How long the machine's output can read on, in real time, when the clock it sees wraps every 2^32 ms.
    What the pin does between driver calls is the subject of `LockDriver`. */
module LockDuty {
  import opened Bytes
  import opened Clock32
  import opened LockLogic

  /** A call to the driver, stamped with the real time in milliseconds since boot. */
  datatype Call = Request(at: nat) | Tick(at: nat)

  function Called(st: Lock, c: Call): Lock {
    match c
    case Request(t) => Requested(st, Clock(t)).0
    case Tick(t) => Ticked(st, Clock(t))
  }

  function After(pulse: u32, calls: seq<Call>): Lock {
    if calls == [] then Fresh(pulse) else Called(After(pulse, calls[..|calls| - 1]), calls[|calls| - 1])
  }

  ghost predicate InOrder(calls: seq<Call>) {
    forall i, j :: 0 <= i < j < |calls| ==> calls[i].at <= calls[j].at
  }

  /** Call `i` is a request that starts a pulse. */
  predicate Accepted(pulse: u32, calls: seq<Call>, i: nat)
    requires i < |calls|
  {
    calls[i].Request? && Requested(After(pulse, calls[..i]), Clock(calls[i].at)).1
  }

  /** The latest accepted request, -1 when there is none. */
  function LastAccepted(pulse: u32, calls: seq<Call>): (k: int)
    ensures -1 <= k < |calls|
    ensures 0 <= k ==> Accepted(pulse, calls, k)
    ensures forall i :: k < i < |calls| ==> !Accepted(pulse, calls, i)
  {
    if calls == [] then -1
    else
      var front := calls[..|calls| - 1];
      if Accepted(pulse, calls, |calls| - 1) then |calls| - 1
      else
        var k := LastAccepted(pulse, front);
        assert forall i :: 0 <= i < |front| ==> calls[..i] == front[..i];
        assert forall i :: 0 <= i < |front| ==> (Accepted(pulse, calls, i) <==> Accepted(pulse, front, i));
        k
  }

  /** What the machine's state says about real time `now`, the last pulse having started at `s`. */
  ghost predicate Tracks(st: Lock, s: nat, now: nat) {
    && s <= now
    && st.pulseStartedMs == Clock(s)
    && (st.phase == Cooldown ==> st.cooldownUntilMs == Later(Clock(s), st.pulseMs + COOLDOWN_MS))
    && (st.phase == Idle ==> now >= s + st.pulseMs + COOLDOWN_MS)
  }

  lemma PulseKept(pulse: u32, calls: seq<Call>)
    ensures After(pulse, calls).pulseMs == PulseLength(pulse) && 0 < PulseLength(pulse) <= 1000
  {
  }

  lemma TickTracks(st: Lock, s: nat, before: nat, now: nat)
    requires Tracks(st, s, before) && before <= now && st.pulseMs <= 1000
    ensures Tracks(Ticked(st, Clock(now)), s, now)
  {
    var u := Ticked(st, Clock(now));
    if st.phase == Cooldown && u.phase == Idle {
      NotReachedEarly(s, st.pulseMs + COOLDOWN_MS, now);
    }
  }

  function LastTime(calls: seq<Call>): nat {
    if calls == [] then 0 else calls[|calls| - 1].at
  }

  /** The machine tracks the last accepted request; before the first one it is idle. */
  lemma {:induction false} RunTracks(pulse: u32, calls: seq<Call>)
    requires InOrder(calls)
    ensures var st, k := After(pulse, calls), LastAccepted(pulse, calls);
            if k < 0 then st.phase == Idle else Tracks(st, calls[k].at, LastTime(calls))
  {
    if calls == [] {
    } else {
      var front, c := calls[..|calls| - 1], calls[|calls| - 1];
      RunTracks(pulse, front);
      PulseKept(pulse, front);
      var st, k := After(pulse, front), LastAccepted(pulse, front);
      assert calls[..|front|] == front;
      if 0 <= k {
        TickTracks(st, front[k].at, LastTime(front), c.at);
      }
    }
  }

  lemma {:induction false} AcceptedInPrefix(pulse: u32, calls: seq<Call>, n: nat, i: nat)
    requires i < n <= |calls|
    ensures Accepted(pulse, calls, i) <==> Accepted(pulse, calls[..n], i)
  {
    assert calls[..n][..i] == calls[..i];
  }

  /** Two accepted requests are at least a pulse and a cooldown apart, whatever stalls or wraps
      happen in between. */
  lemma AcceptedApart(pulse: u32, calls: seq<Call>, i: nat, j: nat)
    requires InOrder(calls) && i < j < |calls|
    requires Accepted(pulse, calls, i) && Accepted(pulse, calls, j)
    ensures calls[j].at >= calls[i].at + PulseLength(pulse) + COOLDOWN_MS
  {
    var front := calls[..j];
    RunTracks(pulse, front);
    PulseKept(pulse, front);
    AcceptedInPrefix(pulse, calls, j, i);
    var k := LastAccepted(pulse, front);
    assert i <= k;
    var st := After(pulse, front);
    TickTracks(st, front[k].at, LastTime(front), calls[j].at);
  }

  // ---- reading the output ----

  /** A read of the output at real time `t`, taken when the first `n` calls have been made, says on. */
  ghost predicate ReadsOn(pulse: u32, calls: seq<Call>, n: nat, t: nat)
    requires n <= |calls|
  {
    Output(After(pulse, calls[..n]), Clock(t))
  }

  /** Such a read is possible: the calls made are not later than `t`, the next one is not earlier. */
  ghost predicate CanRead(calls: seq<Call>, n: nat, t: nat) {
    && n <= |calls|
    && (n > 0 ==> calls[n - 1].at <= t)
    && (n < |calls| ==> t <= calls[n].at)
  }

  ghost predicate OnAt(pulse: u32, calls: seq<Call>, n: nat, t: nat) {
    CanRead(calls, n, t) && ReadsOn(pulse, calls, n, t)
  }

  /** The output reads on at `t`: some read possible at `t` says so. */
  ghost predicate OutputOn(pulse: u32, calls: seq<Call>, t: nat) {
    exists n :: 0 <= n <= |calls| && OnAt(pulse, calls, n, t)
  }

  /** How far the clock thinks it is into the pulse that started at `s`. */
  function Into(s: nat, t: nat): nat {
    (t - s) % WORD
  }

  /** Whatever stalls there were, an output that reads on is less than a pulse into the last accepted
      one, as far as 32 bits can tell. */
  lemma OnSince(pulse: u32, calls: seq<Call>, n: nat, t: nat)
    requires InOrder(calls) && OnAt(pulse, calls, n, t)
    ensures var k := LastAccepted(pulse, calls[..n]);
            && 0 <= k < n && Accepted(pulse, calls, k) && After(pulse, calls[..n]).phase == Pulsing
            && calls[k].at <= t && Into(calls[k].at, t) < PulseLength(pulse)
  {
    hide LastAccepted, Accepted, After, PulseLength;
    var made := calls[..n];
    RunTracks(pulse, made);
    PulseKept(pulse, made);
    var k := LastAccepted(pulse, made);
    Difference(made[k].at, t);
    AcceptedInPrefix(pulse, calls, n, k);
  }

  // ---- the duty bound ----

  /** When the cooldown of the pulse the output is in at `t` runs out, at the earliest. */
  function CoolAgain(s: nat, p: nat, t: nat): int {
    t - Into(s, t) + p + COOLDOWN_MS
  }

  /** A machine whose output read on at `t` is not back to idle before its cooldown, counted from that very
      reading, has passed. */
  lemma NotIdleBefore(st: Lock, s: nat, before: nat, now: nat, t: nat)
    requires Tracks(st, s, before) && before <= now && s <= t <= now && st.pulseMs <= 1000
    requires Into(s, t) < st.pulseMs
    requires st.phase == Idle ==> now >= CoolAgain(s, st.pulseMs, t)
    ensures Ticked(st, Clock(now)).phase == Idle ==> now >= CoolAgain(s, st.pulseMs, t)
  {
    var d := s + st.pulseMs + COOLDOWN_MS;
    if st.phase == Cooldown && now < CoolAgain(s, st.pulseMs, t) {
      LaterIsClock(s, st.pulseMs + COOLDOWN_MS);
      Difference(now, d);
      var turns := (t - s) / WORD;
      assert t - s == WORD * turns + Into(s, t);
      ModShift(d - now, turns);
      assert 0 < d - now + WORD * turns < HALF_WORD;
    }
  }

  /** So, whatever calls follow, the next pulse starts no earlier than that. */
  lemma {:induction false} NextStartIsLate(pulse: u32, calls: seq<Call>, n: nat, t: nat)
    requires InOrder(calls) && OnAt(pulse, calls, n, t)
    ensures var k, j := LastAccepted(pulse, calls[..n]), LastAccepted(pulse, calls);
            && 0 <= k < n
            && var cool := CoolAgain(calls[k].at, PulseLength(pulse), t);
               if j == k then After(pulse, calls).phase == Idle ==> LastTime(calls) >= cool
               else k < j && calls[j].at >= cool
    decreases |calls|
  {
    hide PulseLength, Ticked, Into, LastAccepted, Called;
    OnSince(pulse, calls, n, t);
    if n == |calls| {
      assert calls[..n] == calls;
    } else {
      var last := |calls| - 1;
      var front, c := calls[..last], calls[last];
      assert front[..n] == calls[..n];
      NextStartIsLate(pulse, front, n, t);
      var k, j := LastAccepted(pulse, calls[..n]), LastAccepted(pulse, front);
      if j == k {
        RunTracks(pulse, front);
        PulseKept(pulse, front);
        var st := After(pulse, front);
        assert t <= c.at;
        NotIdleBefore(st, calls[k].at, LastTime(front), c.at, t);
        CalledPhase(st, c);
        LastAcceptedStep(pulse, calls);
      } else {
        LastAcceptedStep(pulse, calls);
      }
    }
  }

  /** A call first ticks; only a request of an idle machine then changes the phase. */
  lemma CalledPhase(st: Lock, c: Call)
    ensures var u, idle := Called(st, c), Ticked(st, Clock(c.at)).phase == Idle;
            && (c.Request? && Requested(st, Clock(c.at)).1 <==> c.Request? && idle)
            && (!(c.Request? && idle) ==> u.phase == Ticked(st, Clock(c.at)).phase)
  {
  }

  lemma LastAcceptedStep(pulse: u32, calls: seq<Call>)
    requires calls != []
    ensures var last := |calls| - 1;
            LastAccepted(pulse, calls) ==
            if Accepted(pulse, calls, last) then last else LastAccepted(pulse, calls[..last])
  {
    hide Accepted;
  }

  /** The milliseconds of a window at which the output reads on. */
  ghost function OnTimes(pulse: u32, calls: seq<Call>, from: nat, length: nat): set<nat> {
    set t: nat | from <= t < from + length && OutputOn(pulse, calls, t)
  }

  /** The number of calls made at a read at `t` that says on. */
  ghost function ReadAt(pulse: u32, calls: seq<Call>, t: nat): (n: nat)
    requires OutputOn(pulse, calls, t)
    ensures OnAt(pulse, calls, n, t)
  {
    var n: nat :| 0 <= n <= |calls| && OnAt(pulse, calls, n, t);
    n
  }

  /** How far into its pulse the output is at `t`, as the clock sees it. */
  ghost function Offset(pulse: u32, calls: seq<Call>, t: nat): (d: nat)
    requires InOrder(calls) && OutputOn(pulse, calls, t)
    ensures d < PulseLength(pulse)
  {
    var n := ReadAt(pulse, calls, t);
    OnSince(pulse, calls, n, t);
    Into(calls[LastAccepted(pulse, calls[..n])].at, t)
  }

  /** Two instants of one window cannot be equally far into their pulses. */
  lemma OffsetsDiffer(pulse: u32, calls: seq<Call>, t: nat, u: nat)
    requires InOrder(calls) && OutputOn(pulse, calls, t) && OutputOn(pulse, calls, u)
    requires t < u < t + PulseLength(pulse) + COOLDOWN_MS
    ensures Offset(pulse, calls, t) != Offset(pulse, calls, u)
  {
    hide Accepted, OutputOn, PulseLength, Output, LastAccepted, After;
    var n, m := ReadAt(pulse, calls, t), ReadAt(pulse, calls, u);
    OnSince(pulse, calls, n, t);
    OnSince(pulse, calls, m, u);
    assert n <= m;
    var made := calls[..m];
    assert made[..n] == calls[..n];
    assert OnAt(pulse, made, n, t);
    NextStartIsLate(pulse, made, n, t);
    var i, j := LastAccepted(pulse, calls[..n]), LastAccepted(pulse, made);
    PulseKept(pulse, made);
    if i == j {
      SameStartDiffers(calls[i].at, t, u);
    }
  }

  lemma SameStartDiffers(s: nat, t: nat, u: nat)
    requires s <= t < u < t + 4000
    ensures Into(s, t) != Into(s, u)
  {
    var p, q := (t - s) / WORD, (u - s) / WORD;
    assert t - s == WORD * p + Into(s, t) && u - s == WORD * q + Into(s, u);
    assert u - t == WORD * (q - p) + Into(s, u) - Into(s, t);
  }

  /** A set whose members map to distinct numbers below `bound` has at most `bound` members. */
  lemma {:induction false} PigeonHole(s: set<nat>, f: map<nat, nat>, bound: nat)
    requires s <= f.Keys
    requires forall t :: t in s ==> f[t] < bound
    requires forall t, u :: t in s && u in s && t != u ==> f[t] != f[u]
    ensures |s| <= bound
    decreases bound
  {
    if bound == 0 {
    } else if t :| t in s && f[t] == bound - 1 {
      PigeonHole(s - {t}, f, bound - 1);
    } else {
      PigeonHole(s, f, bound - 1);
    }
  }

  /** The duty bound of the output: in every window as long as a pulse and its cooldown it reads on
      for at most one pulse length, at most a second, however long the driver stalls. */
  lemma OutputDutyBound(pulse: u32, calls: seq<Call>, from: nat)
    requires InOrder(calls)
    ensures |OnTimes(pulse, calls, from, PulseLength(pulse) + COOLDOWN_MS)| <= PulseLength(pulse) <= 1000
  {
    var on := OnTimes(pulse, calls, from, PulseLength(pulse) + COOLDOWN_MS);
    var f := map t | t in on :: Offset(pulse, calls, t);
    forall t, u | t in on && u in on && t != u
      ensures f[t] != f[u]
    {
      if t < u {
        OffsetsDiffer(pulse, calls, t, u);
      } else {
        OffsetsDiffer(pulse, calls, u, t);
      }
    }
    PigeonHole(on, f, PulseLength(pulse));
  }

  // ---- stalls ----

  /** No driver call is later than `gap` ms after the one before it. */
  ghost predicate GapsWithin(calls: seq<Call>, gap: nat) {
    forall i :: 0 < i < |calls| ==> calls[i].at <= calls[i - 1].at + gap
  }

  /** A read at `t` after `n` calls, none of which, nor the read, came more than `gap` after the
      driver call before it. */
  ghost predicate WithinStall(calls: seq<Call>, n: nat, t: nat, gap: nat) {
    n <= |calls| && GapsWithin(calls[..n], gap) && (n > 0 ==> t <= calls[n - 1].at + gap)
  }

  /** While it is still pulsing after a call, less than a pulse has really gone by. */
  lemma {:induction false} PulsingIsRecent(pulse: u32, calls: seq<Call>, gap: nat)
    requires InOrder(calls) && GapsWithin(calls, gap) && gap <= WORD - PulseLength(pulse)
    requires After(pulse, calls).phase == Pulsing
    ensures var k := LastAccepted(pulse, calls);
            0 <= k && LastTime(calls) < calls[k].at + PulseLength(pulse)
    decreases |calls|, 1
  {
    hide PulseLength, Accepted, GapsWithin;
    RunTracks(pulse, calls);
    PulseKept(pulse, calls);
    var k := LastAccepted(pulse, calls);
    if k < |calls| - 1 {
      StillPulsing(pulse, calls, gap);
    }
  }

  lemma PulsingGoesOn(st: Lock, c: Call)
    requires Called(st, c).phase == Pulsing
    requires !(c.Request? && Requested(st, Clock(c.at)).1)
    ensures st.phase == Pulsing && !Elapsed(Clock(c.at), st.pulseStartedMs, st.pulseMs)
  {
  }

  lemma LastAcceptedEarlier(pulse: u32, calls: seq<Call>)
    requires calls != [] && LastAccepted(pulse, calls) < |calls| - 1
    ensures LastAccepted(pulse, calls[..|calls| - 1]) == LastAccepted(pulse, calls)
    ensures !Accepted(pulse, calls, |calls| - 1)
  {
    hide Accepted;
  }

  /** A call that found the pulse running and left it running came before its end. */
  lemma {:induction false} StillPulsing(pulse: u32, calls: seq<Call>, gap: nat)
    requires InOrder(calls) && GapsWithin(calls, gap) && gap <= WORD - PulseLength(pulse) && calls != []
    requires After(pulse, calls).phase == Pulsing && 0 <= LastAccepted(pulse, calls) < |calls| - 1
    ensures LastTime(calls) < calls[LastAccepted(pulse, calls)].at + PulseLength(pulse)
    decreases |calls|, 0
  {
    hide PulseLength, LastAccepted, Called, Requested;
    var front, c := calls[..|calls| - 1], calls[|calls| - 1];
    LastAcceptedEarlier(pulse, calls);
    PulsingGoesOn(After(pulse, front), c);
    PulsingIsRecent(pulse, front, gap);
    RunTracks(pulse, front);
    PulseKept(pulse, front);
    var k := LastAccepted(pulse, front);
    Difference(front[k].at, c.at);
    Residue(c.at - front[k].at);
  }

  ghost predicate StartOf(pulse: u32, calls: seq<Call>, t: nat, k: nat) {
    && k < |calls| && Accepted(pulse, calls, k)
    && calls[k].at <= t < calls[k].at + PulseLength(pulse)
  }

  /** With stalls of at most 2^32 ms less a pulse, an output that reads on belongs to a pulse that really
      started less than a pulse length ago. */
  lemma OutputHasStart(pulse: u32, calls: seq<Call>, n: nat, t: nat, gap: nat)
    requires InOrder(calls) && OnAt(pulse, calls, n, t) && WithinStall(calls, n, t, gap)
    requires gap <= WORD - PulseLength(pulse)
    ensures var k := LastAccepted(pulse, calls[..n]); 0 <= k && StartOf(pulse, calls, t, k)
  {
    hide Output, LastAccepted, After, GapsWithin, Accepted, PulseLength;
    OnSince(pulse, calls, n, t);
    PulsingIsRecent(pulse, calls[..n], gap);
    var k := LastAccepted(pulse, calls[..n]);
    Residue(t - calls[k].at);
  }

  /** Every pulse ends for good: in no run with stalls up to `gap` does the output read on beyond one
      pulse length from a start. */
  ghost predicate PulsesEnd(pulse: u32, gap: nat) {
    forall calls, n: nat, t: nat :: InOrder(calls) && OnAt(pulse, calls, n, t) && WithinStall(calls, n, t, gap) ==>
      exists k :: 0 <= k < n && StartOf(pulse, calls, t, k)
  }

  /** A pulse ticked one millisecond before its end reads as on again when the clock comes round. */
  lemma PulseComesBack(pulse: u32) returns (calls: seq<Call>)
    ensures var p := PulseLength(pulse);
            && calls == [Request(0), Tick(p - 1)]
            && InOrder(calls) && OnAt(pulse, calls, 2, WORD)
            && WithinStall(calls, 2, WORD, WORD - p + 1)
            && !exists k :: 0 <= k < 2 && StartOf(pulse, calls, WORD, k)
  {
    var p := PulseLength(pulse);
    calls := [Request(0), Tick(p - 1)];
    assert calls[..0] == [] && calls[..1] == [Request(0)] && calls[..2] == calls;
    assert After(pulse, [Request(0)]) == Called(Fresh(pulse), Request(0));
    assert After(pulse, calls) == Called(After(pulse, [Request(0)]), Tick(p - 1));
    assert Clock(WORD) == 0 && Clock(p - 1) == p - 1;
    assert After(pulse, calls).phase == Pulsing;
  }

  /** The exact tolerance: pulses end for good if and only if no stall is longer than 2^32 ms less
      one pulse length. */
  lemma PulsesEndExactly(pulse: u32, gap: nat)
    ensures PulsesEnd(pulse, gap) <==> gap <= WORD - PulseLength(pulse)
  {
    hide OnAt, StartOf, PulseLength;
    if gap <= WORD - PulseLength(pulse) {
      forall calls, n: nat, t: nat | InOrder(calls) && OnAt(pulse, calls, n, t) && WithinStall(calls, n, t, gap)
        ensures exists k :: 0 <= k < n && StartOf(pulse, calls, t, k)
      {
        OnSince(pulse, calls, n, t);
        OutputHasStart(pulse, calls, n, t, gap);
      }
    } else {
      var calls := PulseComesBack(pulse);
      assert WithinStall(calls, 2, WORD, gap);
    }
  }

  // ---- the diagnostic counters ----

  /** How many of the calls are accepted requests. */
  function AcceptedCount(pulse: u32, calls: seq<Call>): nat {
    if calls == [] then 0
    else AcceptedCount(pulse, calls[..|calls| - 1]) + if Accepted(pulse, calls, |calls| - 1) then 1 else 0
  }

  function RequestCount(calls: seq<Call>): nat {
    if calls == [] then 0 else RequestCount(calls[..|calls| - 1]) + if calls[|calls| - 1].Request? then 1 else 0
  }

  lemma CountStep(n: nat)
    ensures (n % WORD + 1) % WORD == (n + 1) % WORD
  {
  }

  lemma CalledCounts(st: Lock, c: Call)
    ensures var u, ok := Called(st, c), c.Request? && Requested(st, Clock(c.at)).1;
            && u.pulsesTotal == (if ok then (st.pulsesTotal + 1) % WORD else st.pulsesTotal)
            && u.requestsRefused == (if c.Request? && !ok then (st.requestsRefused + 1) % WORD else st.requestsRefused)
  {
  }

  /** Every request is counted once, as a pulse or as a refusal, modulo the counters' 32 bits. */
  lemma {:induction false} CountersCount(pulse: u32, calls: seq<Call>)
    ensures var st := After(pulse, calls);
            && AcceptedCount(pulse, calls) <= RequestCount(calls)
            && st.pulsesTotal == AcceptedCount(pulse, calls) % WORD
            && st.requestsRefused == (RequestCount(calls) - AcceptedCount(pulse, calls)) % WORD
  {
    hide Called, Requested;
    if calls == [] {
    } else {
      var front := calls[..|calls| - 1];
      CountersCount(pulse, front);
      CalledCounts(After(pulse, front), calls[|calls| - 1]);
      CountStep(AcceptedCount(pulse, front));
      CountStep(RequestCount(front) - AcceptedCount(pulse, front));
    }
  }
}
