/** The solenoid's pulse and cooldown machine, on a wrapping 32-bit millisecond clock. */
module LockLogic {
  import opened Bytes
  import opened Clock32

  const DEFAULT_PULSE_MS: u32 := 800
  const MAX_PULSE_MS: u32 := 1000
  const COOLDOWN_MS := 3000

  datatype Phase = Idle | Pulsing | Cooldown

  /** `lock_logic_t`. */
  datatype Lock = Lock(
    phase: Phase,
    pulseMs: u32,
    pulseStartedMs: u32,
    cooldownUntilMs: u32,
    pulsesTotal: u32,
    requestsRefused: u32)

  function PulseLength(pulseMs: u32): u32 {
    if pulseMs == 0 then DEFAULT_PULSE_MS else if pulseMs > MAX_PULSE_MS then MAX_PULSE_MS else pulseMs
  }

  function Fresh(pulseMs: u32): Lock {
    Lock(Idle, PulseLength(pulseMs), 0, 0, 0, 0)
  }

  /** Whatever is configured, a pulse lasts between one and 1000 ms: as asked, 800 if nothing was. */
  lemma PulseIsBounded(asked: u32)
    ensures var p := Fresh(asked).pulseMs;
            && 1 <= p <= 1000 && p <= (if asked == 0 then 800 else asked)
            && (p < asked ==> p == 1000) && (asked == 0 ==> p == 800) && Fresh(asked).phase == Idle
  {
  }

  function Ticked(st: Lock, now: u32): Lock {
    match st.phase
    case Pulsing =>
      if Elapsed(now, st.pulseStartedMs, st.pulseMs)
      then st.(phase := Cooldown, cooldownUntilMs := Later(st.pulseStartedMs, st.pulseMs + COOLDOWN_MS))
      else st
    case Cooldown => if Reached(st.cooldownUntilMs, now) then st.(phase := Idle) else st
    case Idle => st
  }

  /** A request: the machine afterwards, and whether the pulse was started. */
  function Requested(st: Lock, now: u32): (Lock, bool) {
    var t := Ticked(st, now);
    if t.phase != Idle then (t.(requestsRefused := (t.requestsRefused + 1) % WORD), false)
    else (t.(phase := Pulsing, pulseStartedMs := now, pulsesTotal := (t.pulsesTotal + 1) % WORD), true)
  }

  /** What the output should be right now. */
  predicate Output(st: Lock, now: u32) {
    st.phase == Pulsing && !Elapsed(now, st.pulseStartedMs, st.pulseMs)
  }

  class LockMachine {
    var phase: Phase
    var pulseMs: u32
    var pulseStartedMs: u32
    var cooldownUntilMs: u32
    var pulsesTotal: u32
    var requestsRefused: u32

    function Value(): Lock
      reads this
    {
      Lock(phase, pulseMs, pulseStartedMs, cooldownUntilMs, pulsesTotal, requestsRefused)
    }

    constructor (pulse: u32)
      ensures Value() == Fresh(pulse)
    {
      var length := pulse;
      if length == 0 {
        length := DEFAULT_PULSE_MS;
      }
      if length > MAX_PULSE_MS {
        length := MAX_PULSE_MS;
      }
      phase := Idle;
      pulseMs := length;
      pulseStartedMs, cooldownUntilMs, pulsesTotal, requestsRefused := 0, 0, 0, 0;
    }

    method Tick(now: u32)
      modifies this
      ensures Value() == Ticked(old(Value()), now)
    {
      match phase {
        case Pulsing =>
          if Elapsed(now, pulseStartedMs, pulseMs) {
            phase := Cooldown;
            cooldownUntilMs := Later(pulseStartedMs, pulseMs + COOLDOWN_MS);
          }
        case Cooldown =>
          if Reached(cooldownUntilMs, now) {
            phase := Idle;
          }
        case Idle =>
      }
    }

    method Request(now: u32) returns (started: bool)
      modifies this
      ensures (Value(), started) == Requested(old(Value()), now)
    {
      Tick(now);
      if phase != Idle {
        requestsRefused := (requestsRefused + 1) % WORD;
        return false;
      }
      phase := Pulsing;
      pulseStartedMs := now;
      pulsesTotal := (pulsesTotal + 1) % WORD;
      started := true;
    }

    method OutputNow(now: u32) returns (on: bool)
      ensures on <==> Output(Value(), now)
    {
      on := phase == Pulsing && !Elapsed(now, pulseStartedMs, pulseMs);
    }
  }
}
