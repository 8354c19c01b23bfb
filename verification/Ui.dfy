/** The guest-facing state machine: which screen, how many keys, until when. */
module Ui {
  import opened Bytes
  import opened Clock32
  import opened AccessCore

  const ENTRY_TIMEOUT_MS := 10_000
  const GRANTED_MS := 3000
  const DENIED_MS := 2000
  const INFO_MS := 3000

  /** The two clocks: a wrapping millisecond count, and the wall clock in seconds. */
  datatype Now = Now(ms: u32, epoch: int)

  datatype Screen = Dark | Entry | ShowGranted | ShowDenied | ShowNotYet | ShowExpired | ShowNoClock

  datatype Action = NoAction | Submit | ClearBuffer

  /** `ui_ctx_t`. */
  datatype State = State(screen: Screen, entryLen: byte, entryDeadlineMs: u32, screenUntilMs: u32, clockTrusted: bool)

  const START := State(Dark, 0, 0, 0, false)

  function Idle(u: State): State {
    u.(screen := Dark, entryLen := 0, entryDeadlineMs := 0, screenUntilMs := 0)
  }

  function TrustSet(u: State, trusted: bool): State {
    if trusted then u.(clockTrusted := true) else Idle(u.(clockTrusted := false))
  }

  function Showing(u: State, s: Screen, now: Now, d: nat): State {
    u.(screen := s, screenUntilMs := Later(now.ms, d))
  }

  function Keyed(u: State, a: Access, now: Now): (State, Action) {
    if !u.clockTrusted then (Showing(u.(entryLen := 0), ShowNoClock, now, INFO_MS), NoAction)
    else if LockedOut(a, now.epoch) then (u, NoAction)
    else
      var e := if u.screen == Entry then u else u.(entryLen := 0, screen := Entry);
      var len: byte := (e.entryLen + 1) % 0x100;
      (e.(entryLen := len, entryDeadlineMs := Later(now.ms, ENTRY_TIMEOUT_MS)),
       if len >= CODE_LEN then Submit else NoAction)
  }

  function LongPressed(u: State, a: Access, now: Now): (State, Action) {
    if u.clockTrusted && LockedOut(a, now.epoch) then (u, NoAction) else (Idle(u), ClearBuffer)
  }

  function Resulted(u: State, a: Access, v: Verdict, now: Now): State {
    var e := u.(entryLen := 0);
    match v
    case Granted => Showing(e, ShowGranted, now, GRANTED_MS)
    case NotYet => Showing(e, ShowNotYet, now, INFO_MS)
    case Expired => Showing(e, ShowExpired, now, INFO_MS)
    case NoClock => Showing(e, ShowNoClock, now, INFO_MS)
    case _ => if LockedOut(a, now.epoch) then Idle(e) else Showing(e, ShowDenied, now, DENIED_MS)
  }

  function ScreenTicked(u: State, a: Access, now: Now): (State, Action) {
    if u.clockTrusted && LockedOut(a, now.epoch) then (u.(entryLen := 0), NoAction)
    else if u.screen == Entry then
      if Reached(u.entryDeadlineMs, now.ms) then (Idle(u), ClearBuffer) else (u, NoAction)
    else if u.screenUntilMs != 0 && Reached(u.screenUntilMs, now.ms) then (Idle(u), NoAction)
    else (u, NoAction)
  }

  class UiContext {
    var screen: Screen
    var entryLen: byte
    var entryDeadlineMs: u32
    var screenUntilMs: u32
    var clockTrusted: bool

    function Value(): State
      reads this
    {
      State(screen, entryLen, entryDeadlineMs, screenUntilMs, clockTrusted)
    }

    constructor ()
      ensures Value() == START
    {
      screen, entryLen, entryDeadlineMs, screenUntilMs, clockTrusted := Dark, 0, 0, 0, false;
    }

    method GoIdle()
      modifies this
      ensures Value() == Idle(old(Value()))
    {
      screen, entryLen, entryDeadlineMs, screenUntilMs := Dark, 0, 0, 0;
    }

    method SetClockTrusted(trusted: bool)
      modifies this
      ensures Value() == TrustSet(old(Value()), trusted)
    {
      clockTrusted := trusted;
      if !trusted {
        GoIdle();
      }
    }

    method OnKey(ac: AccessContext, now: Now) returns (act: Action)
      modifies this
      ensures (Value(), act) == Keyed(old(Value()), ac.Value(), now)
    {
      if !clockTrusted {
        entryLen := 0;
        screen := ShowNoClock;
        screenUntilMs := Later(now.ms, INFO_MS);
        return NoAction;
      }
      if ac.IsLockedOut(now.epoch) {
        return NoAction;
      }
      if screen != Entry {
        entryLen := 0;
        screen := Entry;
      }
      entryLen := (entryLen + 1) % 0x100;
      entryDeadlineMs := Later(now.ms, ENTRY_TIMEOUT_MS);
      act := if entryLen >= CODE_LEN then Submit else NoAction;
    }

    method OnLongPress(ac: AccessContext, now: Now) returns (act: Action)
      modifies this
      ensures (Value(), act) == LongPressed(old(Value()), ac.Value(), now)
    {
      if clockTrusted && ac.IsLockedOut(now.epoch) {
        return NoAction;
      }
      GoIdle();
      act := ClearBuffer;
    }

    method OnResult(ac: AccessContext, v: Verdict, now: Now)
      modifies this
      ensures Value() == Resulted(old(Value()), ac.Value(), v, now)
    {
      entryLen := 0;
      match v {
        case Granted =>
          screen := ShowGranted;
          screenUntilMs := Later(now.ms, GRANTED_MS);
        case NotYet =>
          screen := ShowNotYet;
          screenUntilMs := Later(now.ms, INFO_MS);
        case Expired =>
          screen := ShowExpired;
          screenUntilMs := Later(now.ms, INFO_MS);
        case NoClock =>
          screen := ShowNoClock;
          screenUntilMs := Later(now.ms, INFO_MS);
        case _ =>
          if ac.IsLockedOut(now.epoch) {
            GoIdle();
          } else {
            screen := ShowDenied;
            screenUntilMs := Later(now.ms, DENIED_MS);
          }
      }
    }

    method Tick(ac: AccessContext, now: Now) returns (act: Action)
      modifies this
      ensures (Value(), act) == ScreenTicked(old(Value()), ac.Value(), now)
    {
      act := NoAction;
      if clockTrusted && ac.IsLockedOut(now.epoch) {
        entryLen := 0;
        return;
      }
      if screen == Entry {
        if Reached(entryDeadlineMs, now.ms) {
          GoIdle();
          act := ClearBuffer;
        }
        return;
      }
      if screenUntilMs != 0 && Reached(screenUntilMs, now.ms) {
        GoIdle();
      }
    }
  }
}
