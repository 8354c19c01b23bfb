/** The wiring: what is persisted after each event, and what a boot restores. */
module App {
  import opened Bytes
  import opened AccessCore
  import opened GateCtrl
  import opened PersistStore
  import Ring = PersistRing
  import Ui

  /** Everything `app_main` keeps, and the chip. */
  datatype Device = Device(gate: Gate, store: Store, bootCount: u32)

  /** The record `persist_attempts` writes.  The deadline is cast to 32 bits. */
  function AttemptRecord(a: Access, bootCount: u32): Ring.RingState {
    Ring.RingState(a.failedAttempts, a.lockoutUntil % WORD, bootCount)
  }

  function Persisted(d: Device, w: PageWrite): Device
    requires InRing(d.store) && Fits(w, Ring.SLOT_SIZE)
  {
    d.(store := RingSaved(d.store, AttemptRecord(d.gate.ac, d.bootCount), w))
  }

  /** `handle`: the counter is saved when the event changed it. */
  function Handled(d: Device, out: Out, w: PageWrite): Device
    requires InRing(d.store) && Fits(w, Ring.SLOT_SIZE)
  {
    if out.persist then Persisted(d, w) else d
  }

  /** What a good ring read restores into a fresh context. */
  function Restored(a: Access, found: Option<Ring.RingState>): (Access, u32) {
    match found
    case None => (a, 1)
    case Some(p) => (a.(failedAttempts := p.attempts, lockoutUntil := p.lockoutUntil), (p.bootCount + 1) % WORD)
  }

  /** A boot: `ac_init`, `boot_clock`, `boot_persist`, `ui_init`, the trust flag, `gate_init`. */
  function BootedDevice(chip: Chip, maxFailed: byte, lockSeconds: int, clockOk: bool,
                        readOk: bool, w: PageWrite, readable: seq<bool>): Device
    requires Fits(w, Ring.SLOT_SIZE) && |readable| == 5
  {
    var a := Access(EMPTY_TABLE, false, 0, 0, maxFailed, lockSeconds);
    var ui := Ui.TrustSet(Ui.START, clockOk);
    if !readOk then Device(Gate(a.(clockTrusted := clockOk), ui, WIPED), Booted(chip, false), 1)
    else
      var (b, boots) := Restored(a, Booted(chip, true).found);
      var c := b.(slots := CodesLoaded(chip, b.slots, readable), clockTrusted := clockOk);
      Persisted(Device(Gate(c, ui, WIPED), Booted(chip, true), boots), w)
  }

  class Application {
    const access: AccessContext
    const ui: Ui.UiContext
    const gate: GateController
    const store: Eeprom
    var bootCount: u32

    ghost predicate Valid()
      reads this, access, ui, gate, gate.buf, store
    {
      && gate.ac == access && gate.ui == ui
      && gate.Valid() && store.Valid()
    }

    function Value(): Device
      requires Valid()
      reads this, access, ui, gate, gate.ac, gate.ui, gate.buf, store
    {
      Device(gate.Value(), store.Value(), bootCount)
    }

    method PersistAttempts(w: PageWrite)
      requires Valid() && Fits(w, Ring.SLOT_SIZE)
      modifies store
      ensures Valid() && Value() == Persisted(old(Value()), w)
    {
      hide RingSaved;
      var p := Ring.RingState(access.failedAttempts, access.lockoutUntil % WORD, bootCount);
      var ok := store.Save(p, w);
    }

    method Handle(out: Out, w: PageWrite)
      requires Valid() && Fits(w, Ring.SLOT_SIZE)
      modifies store
      ensures Valid() && Value() == Handled(old(Value()), out, w)
    {
      hide RingSaved;
      if out.persist {
        PersistAttempts(w);
      }
    }

    /** `boot_persist`: restore the counter and the codes, then record the boot. */
    static method BootPersist(a: AccessContext, e: Eeprom, ring: seq<bool>, w: PageWrite, readable: seq<bool>)
      returns (boots: u32)
      requires |ring| == 8 && |readable| == 5 && Fits(w, Ring.SLOT_SIZE)
      requires e.cursor == Ring.NO_RECORD && e.found == None
      modifies a, e
      ensures e.Valid()
      ensures !(forall i :: 0 <= i < 8 ==> ring[i]) ==>
        boots == 1 && a.Value() == old(a.Value()) && e.Value() == Booted(old(e.chip), false)
      ensures (forall i :: 0 <= i < 8 ==> ring[i]) ==>
        var (b, n) := Restored(old(a.Value()), Booted(old(e.chip), true).found);
        && boots == n
        && a.Value() == b.(slots := CodesLoaded(old(e.chip), b.slots, readable))
        && e.Value() == RingSaved(Booted(old(e.chip), true), AttemptRecord(b, n), w)
    {
      hide RingSaved, Booted, CodesLoaded, LoadCount, Ring.Advance;
      boots := 1;
      var ok := e.Init(ring);
      if !ok {
        return;
      }
      var have, p := e.Load();
      if have {
        a.RestoreAttempts(p.attempts, p.lockoutUntil);
        boots := (p.bootCount + 1) % WORD;
      }
      var loaded := e.CodesLoad(a, readable);
      var saved := e.Save(Ring.RingState(a.failedAttempts, a.lockoutUntil % WORD, boots), w);
    }

    /** Power-on over a chip that kept its bytes. */
    constructor (chip: Chip, maxFailed: byte, lockSeconds: int, clockOk: bool, ring: seq<bool>, w: PageWrite,
                 readable: seq<bool>, hash: Hasher)
      requires |ring| == 8 && |readable| == 5 && Fits(w, Ring.SLOT_SIZE)
      ensures Valid()
      ensures var readOk := forall i :: 0 <= i < 8 ==> ring[i];
              Value() == BootedDevice(chip, maxFailed, lockSeconds, clockOk, readOk, w, readable)
    {
      hide RingSaved, Booted, CodesLoaded;
      var a := new AccessContext(maxFailed, lockSeconds);
      var e := new Eeprom(chip);
      var boots := BootPersist(a, e, ring, w, readable);
      var u := new Ui.UiContext();
      a.clockTrusted := clockOk;
      u.SetClockTrusted(clockOk);
      var g := new GateController(a, u, hash);
      access, ui, gate, store, bootCount := a, u, g, e, boots;
    }
  }
}
