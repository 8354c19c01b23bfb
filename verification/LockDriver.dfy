/** The pin: written by each driver call, and holding its level until the next.  "High" is the level
    that energises the coil, whichever way the board is wired. */
module LockDriver {
  import opened Bytes
  import opened Clock32
  import opened LockLogic
  import opened LockDuty

  /** The driver's statics: the machine, and the level last written to the pin. */
  datatype Driver = Driver(logic: Lock, pin: bool)

  function Started(pulse: u32): Driver {
    Driver(Fresh(pulse), false)
  }

  /** `lock_driver_open` and `lock_driver_tick` at a real time: run the machine, then write its output. */
  function Driven(d: Driver, c: Call): Driver {
    var st := Called(d.logic, c);
    Driver(st, Output(st, Clock(c.at)))
  }

  function DrivenBy(pulse: u32, calls: seq<Call>): Driver {
    if calls == [] then Started(pulse) else Driven(DrivenBy(pulse, calls[..|calls| - 1]), calls[|calls| - 1])
  }

  class LockPin {
    const logic: LockMachine
    var pin: bool

    function Value(): Driver
      reads this, logic
    {
      Driver(logic.Value(), pin)
    }

    /** `lock_driver_init`. */
    constructor (pulse: u32)
      ensures Value() == Started(pulse)
      ensures fresh(logic)
    {
      logic := new LockMachine(pulse);
      pin := false;
    }

    method Open(at: nat) returns (accepted: bool)
      modifies this, logic
      ensures Value() == Driven(old(Value()), Request(at))
      ensures accepted == Requested(old(logic.Value()), Clock(at)).1
    {
      var now := Clock(at);
      accepted := logic.Request(now);
      pin := logic.OutputNow(now);
    }

    method Tick(at: nat)
      modifies this, logic
      ensures Value() == Driven(old(Value()), LockDuty.Tick(at))
    {
      var now := Clock(at);
      logic.Tick(now);
      pin := logic.OutputNow(now);
    }
  }

  // ---- the level between calls ----

  /** The level the `n`-th call wrote. */
  ghost predicate PinHigh(pulse: u32, calls: seq<Call>, n: nat) {
    0 < n <= |calls| && Output(After(pulse, calls[..n]), Clock(calls[n - 1].at))
  }

  /** The machine inside the driver is the one whose runs are studied, and the pin is what its
      last call wrote. */
  lemma {:induction false} DriverRuns(pulse: u32, calls: seq<Call>)
    ensures DrivenBy(pulse, calls).logic == After(pulse, calls)
    ensures DrivenBy(pulse, calls).pin <==> PinHigh(pulse, calls, |calls|)
  {
    hide Output, Called;
    if calls == [] {
    } else {
      DriverRuns(pulse, calls[..|calls| - 1]);
      assert calls[..|calls|] == calls;
    }
  }

  /** The pin is high at `t`: the calls made by then left it so. */
  ghost predicate HighAt(pulse: u32, calls: seq<Call>, n: nat, t: nat) {
    CanRead(calls, n, t) && PinHigh(pulse, calls, n)
  }

  /** A call leaves the pin as the output reads at that very moment. */
  lemma HighWasOn(pulse: u32, calls: seq<Call>, n: nat, t: nat)
    requires InOrder(calls) && HighAt(pulse, calls, n, t)
    ensures 0 < n <= |calls| && OnAt(pulse, calls, n, calls[n - 1].at) && calls[n - 1].at <= t
  {
  }

  // ---- a stalled driver ----

  /** The coil is protected only while something drives the machine: after an accepted request and
      no further call the pin stays high for ever. */
  lemma StalledPinStaysHigh(pulse: u32, t: nat)
    ensures HighAt(pulse, [Request(0)], 1, t)
  {
    var calls := [Request(0)];
    assert calls[..1] == calls && calls[..0] == [];
    assert After(pulse, calls) == Called(Fresh(pulse), Request(0));
  }

  /** Call `k` started a pulse no more than `span` milliseconds before `t`. */
  ghost predicate StartedWithin(pulse: u32, calls: seq<Call>, t: nat, k: nat, span: nat) {
    k < |calls| && Accepted(pulse, calls, k) && calls[k].at <= t < calls[k].at + span
  }

  /** With stalls of at most `gap`, a high pin belongs to a pulse that started less than a pulse
      length and one stall ago. */
  lemma PinHasStart(pulse: u32, calls: seq<Call>, n: nat, t: nat, gap: nat)
    requires InOrder(calls) && HighAt(pulse, calls, n, t) && WithinStall(calls, n, t, gap)
    requires gap <= WORD - PulseLength(pulse)
    ensures var k := LastAccepted(pulse, calls[..n]);
            0 <= k < n && StartedWithin(pulse, calls, t, k, PulseLength(pulse) + gap)
  {
    hide Output, LastAccepted, After, GapsWithin, Accepted, PulseLength;
    HighWasOn(pulse, calls, n, t);
    OnSince(pulse, calls, n, calls[n - 1].at);
    OutputHasStart(pulse, calls, n, calls[n - 1].at, gap);
  }

  /** With stalls up to `gap`, the pin is released less than `span` after each pulse starts. */
  ghost predicate PinReleasedWithin(pulse: u32, gap: nat, span: nat) {
    forall calls, n: nat, t: nat ::
      InOrder(calls) && HighAt(pulse, calls, n, t) && WithinStall(calls, n, t, gap) ==>
        exists k :: 0 <= k < n && StartedWithin(pulse, calls, t, k, span)
  }

  /** A request, then a tick every millisecond. */
  function Busy(n: nat): (calls: seq<Call>)
    ensures |calls| == n + 1
  {
    seq(n + 1, i requires 0 <= i <= n => if i == 0 then Request(0) else LockDuty.Tick(i))
  }

  lemma {:induction false} BusyPulse(pulse: u32, n: nat)
    requires n < PulseLength(pulse)
    ensures var st := After(pulse, Busy(n)); st.phase == Pulsing && st.pulseStartedMs == 0
  {
    PulseKept(pulse, Busy(n));
    if n == 0 {
      assert Busy(0) == [Request(0)] && Busy(0)[..0] == [];
    } else {
      assert Busy(n)[..n] == Busy(n - 1);
      BusyPulse(pulse, n - 1);
      PulseKept(pulse, Busy(n - 1));
    }
  }

  /** However often it is ticked, a driver that stalls in the last millisecond of a pulse leaves the
      pin high for the whole stall. */
  lemma BusyPinStaysHigh(pulse: u32, gap: nat)
    requires gap > 0
    ensures var p := PulseLength(pulse);
            var calls := Busy(p - 1);
            && InOrder(calls) && HighAt(pulse, calls, p, p - 1 + gap) && WithinStall(calls, p, p - 1 + gap, gap)
            && forall k :: 0 < k < p ==> !Accepted(pulse, calls, k)
  {
    hide PulseLength;
    var p := PulseLength(pulse);
    PulseKept(pulse, []);
    var calls := Busy(p - 1);
    BusyPulse(pulse, p - 1);
    PulseKept(pulse, calls);
    assert calls[..p] == calls;
  }

  /** The exact bound on the pin: with stalls up to `gap` it is released within `span` of the start
      of its pulse if and only if `span` is at least a pulse length and one stall. */
  lemma PinReleasedExactly(pulse: u32, gap: nat, span: nat)
    requires 0 < gap <= WORD - PulseLength(pulse)
    ensures PinReleasedWithin(pulse, gap, span) <==> span >= PulseLength(pulse) + gap
  {
    hide HighAt, PulseLength, LastAccepted, Busy, WithinStall, InOrder, Accepted;
    var p := PulseLength(pulse);
    if span >= p + gap {
      forall calls, n: nat, t: nat | InOrder(calls) && HighAt(pulse, calls, n, t) && WithinStall(calls, n, t, gap)
        ensures exists k :: 0 <= k < n && StartedWithin(pulse, calls, t, k, span)
      {
        HighWasOn(pulse, calls, n, t);
        PinHasStart(pulse, calls, n, t, gap);
        assert StartedWithin(pulse, calls, t, LastAccepted(pulse, calls[..n]), span);
      }
    } else {
      PulseKept(pulse, []);
      BusyPinStaysHigh(pulse, gap);
      BusyStarts(p);
      assert HighAt(pulse, Busy(p - 1), p, p - 1 + gap);
    }
  }

  lemma BusyStarts(p: nat)
    requires p > 0
    ensures Busy(p - 1)[0].at == 0
  {
  }

  // ---- the duty of the pin ----

  /** The milliseconds of a window in which the pin is high. */
  ghost predicate PinIsHigh(pulse: u32, calls: seq<Call>, t: nat, gap: nat) {
    exists n :: 0 <= n <= |calls| && HighAt(pulse, calls, n, t) && WithinStall(calls, n, t, gap)
  }

  ghost function HighTimes(pulse: u32, calls: seq<Call>, from: nat, length: nat, gap: nat): set<nat> {
    set t: nat | from <= t < from + length && PinIsHigh(pulse, calls, t, gap)
  }

  /** How long after the start of its pulse. */
  ghost function SinceStart(pulse: u32, calls: seq<Call>, t: nat, gap: nat): (d: nat)
    requires InOrder(calls) && PinIsHigh(pulse, calls, t, gap) && gap <= WORD - PulseLength(pulse)
    ensures d < PulseLength(pulse) + gap
    ensures exists k :: 0 <= k < |calls| && Accepted(pulse, calls, k) && d == t - calls[k].at
  {
    var n: nat :| 0 <= n <= |calls| && HighAt(pulse, calls, n, t) && WithinStall(calls, n, t, gap);
    PinHasStart(pulse, calls, n, t, gap);
    t - calls[LastAccepted(pulse, calls[..n])].at
  }

  lemma SinceStartDiffers(pulse: u32, calls: seq<Call>, t: nat, u: nat, gap: nat)
    requires InOrder(calls) && gap <= WORD - PulseLength(pulse)
    requires PinIsHigh(pulse, calls, t, gap) && PinIsHigh(pulse, calls, u, gap)
    requires t < u < t + PulseLength(pulse) + COOLDOWN_MS
    ensures SinceStart(pulse, calls, t, gap) != SinceStart(pulse, calls, u, gap)
  {
    hide Accepted, PinIsHigh, PulseLength, SinceStart;
    var d, e := SinceStart(pulse, calls, t, gap), SinceStart(pulse, calls, u, gap);
    var i :| 0 <= i < |calls| && Accepted(pulse, calls, i) && d == t - calls[i].at;
    var j :| 0 <= j < |calls| && Accepted(pulse, calls, j) && e == u - calls[j].at;
    if d == e {
      assert i < j;
      AcceptedApart(pulse, calls, i, j);
      assert false;
    }
  }

  /** The duty bound of the pin: with stalls of at most `gap`, in every window as long as a pulse and
      its cooldown the pin is high for at most one pulse length and one stall. */
  lemma PinDutyBound(pulse: u32, calls: seq<Call>, from: nat, gap: nat)
    requires InOrder(calls) && gap <= WORD - PulseLength(pulse)
    ensures |HighTimes(pulse, calls, from, PulseLength(pulse) + COOLDOWN_MS, gap)| <= PulseLength(pulse) + gap
  {
    hide PinIsHigh, SinceStart, PulseLength;
    var high := HighTimes(pulse, calls, from, PulseLength(pulse) + COOLDOWN_MS, gap);
    var f := map t | t in high :: SinceStart(pulse, calls, t, gap);
    forall t, u | t in high && u in high && t != u
      ensures f[t] != f[u]
    {
      if t < u {
        SinceStartDiffers(pulse, calls, t, u, gap);
      } else {
        SinceStartDiffers(pulse, calls, u, t, gap);
      }
    }
    PigeonHole(high, f, PulseLength(pulse) + gap);
  }
}
