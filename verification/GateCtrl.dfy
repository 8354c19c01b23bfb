/** From key press to verdict: the typed buffer, the hash, the decision, what to persist. */
module GateCtrl {
  import opened Bytes
  import opened AccessCore
  import Ui

  const NUL: char := '\0'

  /** The typed buffer: nine characters and a terminator. */
  type Buffer = b: seq<char> | |b| == 10 witness seq(10, _ => '\0')

  function Zeros(n: nat): (z: string)
    ensures |z| == n && forall i :: 0 <= i < n ==> z[i] == NUL
  {
    seq(n, _ => NUL)
  }

  const WIPED: Buffer := Zeros(10)

  /** The C string a buffer holds. */
  function CStr(b: string): string {
    if b == "" || b[0] == NUL then "" else [b[0]] + CStr(b[1..])
  }

  /** The salted hash, any deterministic function of the typed string. */
  type Hasher = string -> Hash

  datatype Gate = Gate(ac: Access, ui: Ui.State, buf: Buffer)

  /** What the caller is told, and every string handed to the hash function on the way. */
  datatype Out = Out(
    submitted: bool,
    verdict: Verdict,
    openLock: bool,
    persist: bool,
    matchedId: IdText,
    hashed: seq<string>)

  const NOTHING := Out(false, Granted, false, false, "", [])

  predicate AttemptsChanged(a: Access, b: Access) {
    a.failedAttempts != b.failedAttempts || a.lockoutUntil != b.lockoutUntil
  }

  function Submitted(g: Gate, now: Ui.Now, hash: Hasher): (Gate, Out) {
    var typed := CStr(g.buf[9 := NUL]);
    var (ac, v, m) := Evaluated(g.ac, hash(typed), now.epoch);
    (Gate(ac, Ui.Resulted(g.ui, ac, v, now), WIPED),
     Out(true, v, v == Granted, AttemptsChanged(ac, g.ac), if 0 <= m < 5 then ac.slots[m].id else "", [typed]))
  }

  function Keyed(g: Gate, key: char, now: Ui.Now, hash: Hasher): (Gate, Out) {
    var (ui, act) := Ui.Keyed(g.ui, g.ac, now);
    var n := ui.entryLen;
    if n == 0 then (g.(ui := ui), NOTHING)
    else
      var clean: Buffer := if n == 1 then WIPED else g.buf;
      var typed: Buffer := if n <= CODE_LEN then clean[n - 1 := key] else clean;
      var h := Gate(g.ac, ui, typed);
      if act == Ui.Submit then Submitted(h, now, hash) else (h, NOTHING)
  }

  function LongPressed(g: Gate, now: Ui.Now): Gate {
    var (ui, act) := Ui.LongPressed(g.ui, g.ac, now);
    Gate(g.ac, ui, if act == Ui.ClearBuffer then WIPED else g.buf)
  }

  function GateTicked(g: Gate, now: Ui.Now): (Gate, Out) {
    var ac := if g.ui.clockTrusted then AccessCore.Ticked(g.ac, now.epoch) else g.ac;
    var (ui, act) := Ui.ScreenTicked(g.ui, ac, now);
    (Gate(ac, ui, if act == Ui.ClearBuffer then WIPED else g.buf),
     NOTHING.(persist := AttemptsChanged(ac, g.ac)))
  }

  class GateController {
    const ac: AccessContext
    const ui: Ui.UiContext
    const buf: array<char>
    const hash: Hasher

    ghost predicate Valid()
      reads this, buf
    {
      buf.Length == 10
    }

    function Value(): Gate
      requires Valid()
      reads this, ac, ui, buf
    {
      Gate(ac.Value(), ui.Value(), buf[..])
    }

    constructor (access: AccessContext, screen: Ui.UiContext, h: Hasher)
      ensures Valid() && fresh(buf) && ac == access && ui == screen && hash == h
      ensures Value() == Gate(access.Value(), screen.Value(), WIPED)
    {
      ac, ui, hash := access, screen, h;
      buf := new char[10](_ => NUL);
      new;
      assert buf[..] == WIPED;
    }

    method Wipe()
      requires Valid()
      modifies buf
      ensures buf[..] == WIPED
    {
      var n := 10;
      while n > 0
        invariant 0 <= n <= 10
        invariant forall i :: 0 <= i < 10 - n ==> buf[i] == NUL
      {
        buf[10 - n] := NUL;
        n := n - 1;
      }
    }

    method Submit(now: Ui.Now) returns (out: Out)
      requires Valid()
      modifies ac, ui, buf
      ensures Valid() && (Value(), out) == Submitted(old(Value()), now, hash)
    {
      ghost var was := ac.Value();
      var f0, l0 := ac.failedAttempts, ac.lockoutUntil;
      buf[9] := NUL;
      var typed := CStr(buf[..]);
      var h := hash(typed);
      Wipe();
      var v, m := ac.Evaluate(h, now.epoch);
      ui.OnResult(ac, v, now);
      var changed := ac.failedAttempts != f0 || ac.lockoutUntil != l0;
      out := Out(true, v, v == Granted, changed, if 0 <= m < 5 then ac.slots[m].id else "", [typed]);
    }

    method OnKey(key: char, now: Ui.Now) returns (out: Out)
      requires Valid()
      modifies ac, ui, buf
      ensures Valid() && (Value(), out) == Keyed(old(Value()), key, now, hash)
    {
      hide Ui.Keyed, Submitted;
      out := NOTHING;
      var act := ui.OnKey(ac, now);
      var n := ui.entryLen;
      if n == 0 {
        return;
      }
      if n == 1 {
        Wipe();
      }
      if n <= CODE_LEN {
        buf[n - 1] := key;
      }
      if act == Ui.Submit {
        out := Submit(now);
      }
    }

    method OnLongPress(now: Ui.Now)
      requires Valid()
      modifies ui, buf
      ensures Valid() && Value() == LongPressed(old(Value()), now)
    {
      hide Ui.LongPressed;
      var act := ui.OnLongPress(ac, now);
      if act == Ui.ClearBuffer {
        Wipe();
      }
    }

    method Tick(now: Ui.Now) returns (out: Out)
      requires Valid()
      modifies ac, ui, buf
      ensures Valid() && (Value(), out) == GateTicked(old(Value()), now)
    {
      hide Ui.ScreenTicked, AccessCore.Ticked;
      var f0, l0 := ac.failedAttempts, ac.lockoutUntil;
      if ui.clockTrusted {
        ac.Tick(now.epoch);
      }
      var act := ui.Tick(ac, now);
      if act == Ui.ClearBuffer {
        Wipe();
      }
      out := NOTHING.(persist := ac.failedAttempts != f0 || ac.lockoutUntil != l0);
    }
  }
}
