/** How many wrong codes can be tried, power cycles and lost saves included. */
module GuessBound {
  import opened Bytes
  import opened AccessCore
  import opened GateCtrl
  import opened PersistStore
  import opened App
  import opened RingSafety
  import Ring = PersistRing
  import Ui

  /** The attempt policy: at least one failure allowed, and a lockout that lasts. */
  datatype Policy = Policy(maxFailed: byte, lockSeconds: int)

  predicate Sound(p: Policy) {
    p.maxFailed > 0 && p.lockSeconds > 0
  }

  /** What can happen.  Where a save of the attempt counter may follow, `write` says how it ends. */
  datatype Happening =
    | Key(key: char, now: Ui.Now, write: PageWrite)
    | LongPress(now: Ui.Now)
    | Tick(now: Ui.Now, write: PageWrite)
    | TableChange(slots: Table)
    | ChipCodes(after: Chip)
    | Trust(trusted: bool)
    | PowerCycle(clockOk: bool, readable: seq<bool>, write: PageWrite)

  /** A run: the device, what has happened to its ring, the wrong codes, the grants and the saves
      not acknowledged, counted, and the time span a trusted clock has shown. */
  datatype Run = Run(dev: Device, log: seq<Event>, unknowns: nat, grants: nat, lost: nat, start: int, now: int)

  /** The save that persists this device's counter. */
  function SaveOf(d: Device, w: PageWrite): Event {
    Save(AttemptRecord(d.gate.ac, d.bootCount), w)
  }

  /** The log after one more save, if one was made. */
  function Logged(log: seq<Event>, d: Device, persist: bool, w: PageWrite): seq<Event> {
    if persist then log + [SaveOf(d, w)] else log
  }

  function LostBy(persist: bool, w: PageWrite): nat {
    if persist && !w.Acked? then 1 else 0
  }

  /** A torn page does not decode. */
  predicate FairWrite(w: PageWrite) {
    Fits(w, Ring.SLOT_SIZE) && (w.Torn? ==> Ring.Decode(w.left) == None)
  }

  /** The time after an event: what the clock shows, if it is trusted. */
  function Seen(r: Run, now: Ui.Now): int {
    if r.dev.gate.ac.clockTrusted then now.epoch else r.now
  }

  /** A trusted clock goes forward, and changes to the stored codes leave the ring alone. */
  ghost predicate Possible(r: Run, h: Happening) {
    match h
    case Key(_, now, w) => r.now <= Seen(r, now) && FairWrite(w)
    case LongPress(now) => r.now <= Seen(r, now)
    case Tick(now, w) => r.now <= Seen(r, now) && FairWrite(w)
    case TableChange(_) => true
    case ChipCodes(after) => RingImage(after) == RingImage(r.dev.store.chip)
    case Trust(_) => true
    case PowerCycle(_, readable, w) => |readable| == 5 && FairWrite(w)
  }

  /** A lockout started now would have a deadline that fits the record. */
  predicate Punctual(p: Policy, h: Happening) {
    h.Key? ==> h.now.epoch + p.lockSeconds < WORD
  }

  /** A power cycle over this chip, the ring being readable and the clock trusted or not. */
  ghost function Cycled(chip: Chip, p: Policy, clockOk: bool, readable: seq<bool>, w: PageWrite): (d: Device)
    requires |readable| == 5 && Fits(w, Ring.SLOT_SIZE)
    ensures InRing(d.store)
  {
    BootedDevice(chip, p.maxFailed, p.lockSeconds, clockOk, true, w, readable)
  }

  /** `gate_app_set_clock_trusted`: both flags follow. */
  function Trusting(g: Gate, trusted: bool): Gate {
    g.(ac := g.ac.(clockTrusted := trusted), ui := Ui.TrustSet(g.ui, trusted))
  }

  /** One happening, fully handled. */
  ghost function Step(r: Run, p: Policy, h: Happening, hash: Hasher): (s: Run)
    requires InRing(r.dev.store) && Possible(r, h)
    ensures InRing(s.dev.store)
  {
    var d := r.dev;
    match h
    case Key(key, now, w) =>
      var (g, out) := Keyed(d.gate, key, now, hash);
      var e := d.(gate := g);
      r.(dev := Handled(e, out, w), log := Logged(r.log, e, out.persist, w), now := Seen(r, now),
         unknowns := r.unknowns + (if out.submitted && out.verdict == Unknown then 1 else 0),
         grants := r.grants + (if out.submitted && out.verdict == Granted then 1 else 0),
         lost := r.lost + LostBy(out.persist, w))
    case LongPress(now) => r.(dev := d.(gate := LongPressed(d.gate, now)), now := Seen(r, now))
    case Tick(now, w) =>
      var (g, out) := GateTicked(d.gate, now);
      var e := d.(gate := g);
      r.(dev := Handled(e, out, w), log := Logged(r.log, e, out.persist, w), now := Seen(r, now),
         lost := r.lost + LostBy(out.persist, w))
    case TableChange(slots) => r.(dev := d.(gate := d.gate.(ac := d.gate.ac.(slots := slots))))
    case ChipCodes(after) => r.(dev := d.(store := d.store.(chip := after)), log := r.log + [CodeRegion(after)])
    case Trust(trusted) => r.(dev := d.(gate := Trusting(d.gate, trusted)))
    case PowerCycle(clockOk, readable, w) =>
      var e := Cycled(d.store.chip, p, clockOk, readable, w);
      r.(dev := e, log := Logged(r.log + [Reboot], e, true, w), lost := r.lost + LostBy(true, w))
  }

  /** A device out of the box: first boot, blank chip. */
  ghost function FirstBoot(p: Policy, epoch: int, clockOk: bool, readable: seq<bool>, w: PageWrite): (r: Run)
    requires |readable| == 5 && Fits(w, Ring.SLOT_SIZE)
    ensures InRing(r.dev.store)
  {
    var d := Cycled(BLANK_CHIP, p, clockOk, readable, w);
    Run(d, Logged([Reboot], d, true, w), 0, 0, LostBy(true, w), epoch, epoch)
  }

  ghost predicate PossibleRun(r: Run, p: Policy, hs: seq<Happening>, hash: Hasher)
    requires InRing(r.dev.store)
    decreases |hs|, 0
  {
    hs != [] ==>
      && PossibleRun(r, p, hs[..|hs| - 1], hash)
      && Possible(After(r, p, hs[..|hs| - 1], hash), hs[|hs| - 1])
  }

  ghost function After(r: Run, p: Policy, hs: seq<Happening>, hash: Hasher): (s: Run)
    requires InRing(r.dev.store) && PossibleRun(r, p, hs, hash)
    ensures InRing(s.dev.store)
    decreases |hs|, 1
  {
    if hs == [] then r else Step(After(r, p, hs[..|hs| - 1], hash), p, hs[|hs| - 1], hash)
  }

  // ---- the device's ring is the one whose runs are studied ----

  ghost predicate Follows(st: Store, log: seq<Event>) {
    LegalRun(log) && st == RingSafety.Run(log)
  }

  /** One more event of the ring. */
  lemma LogStep(log: seq<Event>, e: Event)
    requires LegalRun(log) && Legal(RingSafety.Run(log), e)
    ensures var more := log + [e];
            && Follows(RingSafety.Step(RingSafety.Run(log), e), more)
            && JournalOf(more) == JournalStep(JournalOf(log), |Saves(log)|, e)
            && Saves(more) == if e.Save? then Saves(log) + [e] else Saves(log)
  {
    hide RingSafety.Step, Legal, JournalStep;
    var more := log + [e];
    assert more[..|more| - 1] == log;
  }

  /** What a boot restores: the count and deadline of the journal's latest whole record, or zeros. */
  function LoadedState(log: seq<Event>): Ring.RingState {
    var k := LoadedIndex(JournalOf(log));
    if 0 <= k < |Saves(log)| then Saves(log)[k].state else Ring.RingState(0, 0, 0)
  }

  lemma CycleRestores(log: seq<Event>, p: Policy, clockOk: bool, readable: seq<bool>, w: PageWrite)
    requires LegalRun(log) && |Saves(log)| < WORD && |readable| == 5 && FairWrite(w)
    ensures var e, s := Cycled(RingSafety.Run(log).chip, p, clockOk, readable, w), LoadedState(log);
            var booted := log + [Reboot];
            && e.gate.ac.failedAttempts == s.attempts && e.gate.ac.lockoutUntil == s.lockoutUntil
            && e.gate.ac.clockTrusted == e.gate.ui.clockTrusted == clockOk
            && e.gate.ac.maxFailedAttempts == p.maxFailed && e.gate.ac.lockoutSeconds == p.lockSeconds
            && e.bootCount == (s.bootCount + 1) % WORD
            && LegalRun(booted) && Legal(RingSafety.Run(booted), SaveOf(e, w))
            && e.store == RingSafety.Step(RingSafety.Run(booted), SaveOf(e, w))
  {
    hide PagesOf, Refines, Booted, RingSaved, CodesLoaded, LegalRun, RingSafety.Run, JournalOf, Saves, JournalStep;
    LogStep(log, Reboot);
    BootLoads(log);
    var st := Booted(RingSafety.Run(log).chip, true);
    var blank := Access(EMPTY_TABLE, false, 0, 0, p.maxFailed, p.lockSeconds);
    var (b, boots) := Restored(blank, st.found);
  }

  // ---- the counting argument ----

  /** After `k` lockouts: every finished batch is at most `maxFailed` wrong codes, and each lockout
      has cost its full length.  `charged` is the number of wrong codes less the saves lost. */
  ghost predicate Counted(failed: int, until: int, p: Policy, charged: int, start: int, now: int, k: nat) {
    var m, l := p.maxFailed, p.lockSeconds;
    if until == 0 then
      && 0 <= failed < m
      && charged <= m * k + failed
      && start + k * l <= now
    else
      && 0 < until <= now + l
      && charged <= m * k
      && start + k * l <= until
  }

  /** Some number of lockouts accounts for this count and deadline. */
  ghost predicate Fair(failed: int, until: int, p: Policy, charged: int, start: int, now: int) {
    exists k: nat :: Counted(failed, until, p, charged, start, now, k)
  }

  lemma MulStep(m: int, k: int)
    ensures m * (k + 1) == m * k + m
  {
  }

  lemma FairLater(failed: int, until: int, p: Policy, charged: int, start: int, now: int, fewer: int, later: int)
    requires Fair(failed, until, p, charged, start, now) && fewer <= charged && now <= later
    ensures Fair(failed, until, p, fewer, start, later)
  {
    var k: nat :| Counted(failed, until, p, charged, start, now, k);
    assert Counted(failed, until, p, fewer, start, later, k);
  }

  lemma NothingCharged(p: Policy, charged: int, start: int, now: int)
    requires Sound(p) && charged <= 0 && start <= now
    ensures Fair(0, 0, p, charged, start, now)
  {
    assert Counted(0, 0, p, charged, start, now, 0);
  }

  ghost predicate FairAccess(a: Access, p: Policy, charged: int, start: int, now: int) {
    Fair(a.failedAttempts, a.lockoutUntil, p, charged, start, now)
  }

  lemma LiftStaysFair(a: Access, p: Policy, charged: int, start: int, now: int, later: int)
    requires Sound(p) && FairAccess(a, p, charged, start, now) && now <= later
    ensures FairAccess(AccessCore.Ticked(a, later), p, charged, start, later)
  {
    var k: nat :| Counted(a.failedAttempts, a.lockoutUntil, p, charged, start, now, k);
    var t := AccessCore.Ticked(a, later);
    assert Counted(t.failedAttempts, t.lockoutUntil, p, charged, start, later, k);
  }

  /** An evaluation charges one wrong code at most, and one that does changes the counter or the deadline. */
  lemma EvaluateStaysFair(a: Access, p: Policy, h: Hash, charged: int, start: int, now: int, later: int)
    requires Sound(p) && FairAccess(a, p, charged, start, now) && 0 <= now <= later
    requires a.clockTrusted && a.maxFailedAttempts == p.maxFailed && a.lockoutSeconds == p.lockSeconds
    ensures var (b, v, _) := Evaluated(a, h, later);
            && (v != Granted ==> FairAccess(b, p, charged + (if v == Unknown then 1 else 0), start, later))
            && (v == Unknown ==> b.failedAttempts != a.failedAttempts || b.lockoutUntil != a.lockoutUntil)
  {
    hide LastMatch;
    var k: nat :| Counted(a.failedAttempts, a.lockoutUntil, p, charged, start, now, k);
    var t := AccessCore.Ticked(a, later);
    assert Counted(t.failedAttempts, t.lockoutUntil, p, charged, start, later, k);
    var (b, v, _) := Evaluated(a, h, later);
    if v == Unknown && b.lockoutUntil != 0 {
      MulStep(p.maxFailed, k);
      MulStep(p.lockSeconds, k);
      assert Counted(b.failedAttempts, b.lockoutUntil, p, charged + 1, start, later, k + 1);
    } else if v != Granted {
      assert Counted(b.failedAttempts, b.lockoutUntil, p, charged + if v == Unknown then 1 else 0, start, later, k);
    }
  }

  /** What the chip would restore is fair too: the current record, and the unreported one if there is one. */
  ghost predicate FairAt(saves: seq<Event>, k: int, p: Policy, charged: int, start: int, now: int) {
    if k < 0 then Fair(0, 0, p, charged, start, now)
    else
      && k < |saves| && saves[k].Save?
      && Fair(saves[k].state.attempts, saves[k].state.lockoutUntil, p, charged, start, now)
  }

  ghost predicate FairJournal(j: Journal, saves: seq<Event>, p: Policy, charged: int, start: int, now: int) {
    && FairAt(saves, j.current, p, charged, start, now)
    && (0 <= j.pending ==> FairAt(saves, j.pending, p, charged, start, now))
  }

  lemma FairAtLater(saves: seq<Event>, k: int, p: Policy, charged: int, start: int, now: int,
                    more: seq<Event>, fewer: int, later: int)
    requires FairAt(saves, k, p, charged, start, now) && saves <= more && fewer <= charged && now <= later
    ensures FairAt(more, k, p, fewer, start, later)
  {
    hide Fair;
    if k < 0 {
      FairLater(0, 0, p, charged, start, now, fewer, later);
    } else {
      FairLater(saves[k].state.attempts, saves[k].state.lockoutUntil, p, charged, start, now, fewer, later);
    }
  }

  lemma FairJournalLater(j: Journal, saves: seq<Event>, p: Policy, charged: int, start: int, now: int,
                         more: seq<Event>, fewer: int, later: int)
    requires FairJournal(j, saves, p, charged, start, now) && saves <= more && fewer <= charged && now <= later
    ensures FairJournal(j, more, p, fewer, start, later)
  {
    hide FairAt;
    FairAtLater(saves, j.current, p, charged, start, now, more, fewer, later);
    if 0 <= j.pending {
      FairAtLater(saves, j.pending, p, charged, start, now, more, fewer, later);
    }
  }

  /** A save keeps the journal fair: an acknowledged one replaces what could be restored, and any
      other has paid for the wrong code that led to it. */
  lemma SaveStaysFair(j: Journal, saves: seq<Event>, p: Policy, charged: int, start: int, now: int,
                      s: Ring.RingState, w: PageWrite, paid: int, later: int)
    requires FairJournal(j, saves, p, charged, start, now) && now <= later
    requires Fair(s.attempts, s.lockoutUntil, p, paid, start, later) && (!w.Acked? ==> paid <= charged)
    ensures FairJournal(JournalStep(j, |saves|, Save(s, w)), saves + [Save(s, w)], p, paid, start, later)
  {
    hide Fair;
    var more := saves + [Save(s, w)];
    assert more[|saves|] == Save(s, w);
    if !w.Acked? {
      FairJournalLater(j, saves, p, charged, start, now, more, paid, later);
    }
  }

  /** The last save of all is the newest whole record, and it is what is in memory. */
  ghost predicate Mirrored(r: Run) {
    var saves := Saves(r.log);
    && saves != []
    && JournalOf(r.log) == Journal(|saves| - 1, -1)
    && saves[|saves| - 1] == SaveOf(r.dev, Acked)
  }

  ghost predicate Settings(g: Gate, p: Policy) {
    && g.ac.clockTrusted == g.ui.clockTrusted
    && g.ac.maxFailedAttempts == p.maxFailed && g.ac.lockoutSeconds == p.lockSeconds
  }

  ghost predicate Inv(r: Run, p: Policy) {
    var charged := r.unknowns - r.lost;
    && Follows(r.dev.store, r.log)
    && Settings(r.dev.gate, p)
    && 0 <= r.start <= r.now
    && 0 <= r.dev.gate.ac.lockoutUntil < WORD
    && (r.grants == 0 ==>
          && FairAccess(r.dev.gate.ac, p, charged, r.start, r.now)
          && FairJournal(JournalOf(r.log), Saves(r.log), p, charged, r.start, r.now))
    && (r.lost == 0 ==> Mirrored(r))
  }

  /** A key either leaves the counter alone or ends in a verdict on it. */
  lemma KeyedAccess(g: Gate, key: char, now: Ui.Now, hash: Hasher)
    ensures var (n, out) := Keyed(g, key, now, hash);
            && (!out.submitted ==> n.ac == g.ac && !out.persist)
            && (out.submitted ==>
                  (|out.hashed| == 1
                   && n.ac == Evaluated(g.ac, hash(out.hashed[0]), now.epoch).0
                   && out.verdict == Evaluated(g.ac, hash(out.hashed[0]), now.epoch).1))
            && out.persist == (n.ac.failedAttempts != g.ac.failedAttempts || n.ac.lockoutUntil != g.ac.lockoutUntil)
            && n.ui.clockTrusted == g.ui.clockTrusted
  {
    hide Evaluated, CStr;
  }

  lemma EvaluatedFrame(a: Access, h: Hash, now: int)
    ensures var b := Evaluated(a, h, now).0;
            && b.clockTrusted == a.clockTrusted && b.maxFailedAttempts == a.maxFailedAttempts
            && b.lockoutSeconds == a.lockoutSeconds
            && (!a.clockTrusted ==> Evaluated(a, h, now) == (a, NoClock, -1))
            && (0 <= now && 0 <= a.lockoutUntil < WORD && a.lockoutSeconds > 0 && now + a.lockoutSeconds < WORD ==>
                  0 <= b.lockoutUntil < WORD)
  {
    hide LastMatch;
  }

  /** What a handled event does to the ring, its log and what they hold. */
  lemma HandledFollows(r: Run, e: Device, out: Out, w: PageWrite)
    requires Follows(r.dev.store, r.log) && e.store == r.dev.store && e.bootCount == r.dev.bootCount && FairWrite(w)
    ensures var d, log := Handled(e, out, w), Logged(r.log, e, out.persist, w);
            && Follows(d.store, log) && d.gate == e.gate && d.bootCount == e.bootCount
            && (if out.persist then
                  && Saves(log) == Saves(r.log) + [SaveOf(e, w)]
                  && JournalOf(log) == JournalStep(JournalOf(r.log), |Saves(r.log)|, SaveOf(e, w))
                else log == r.log)
  {
    hide RingSaved, LegalRun, RingSafety.Run, Saves, JournalOf, JournalStep;
    if out.persist {
      LogStep(r.log, SaveOf(e, w));
    }
  }

  /** The next run after an event that may have changed the counter. */
  lemma HandledKeepsInv(r: Run, p: Policy, e: Device, out: Out, w: PageWrite, s: Run)
    requires Sound(p) && Inv(r, p) && FairWrite(w)
    requires e.store == r.dev.store && e.bootCount == r.dev.bootCount
    requires Settings(e.gate, p) && 0 <= e.gate.ac.lockoutUntil < WORD
    requires out.persist == AttemptsChanged(e.gate.ac, r.dev.gate.ac)
    requires s.dev == Handled(e, out, w) && s.log == Logged(r.log, e, out.persist, w)
    requires s.lost == r.lost + LostBy(out.persist, w) && s.start == r.start && r.now <= s.now
    requires r.grants <= s.grants
    requires s.grants == 0 ==>
               && r.unknowns <= s.unknowns <= r.unknowns + (if out.persist then 1 else 0)
               && FairAccess(e.gate.ac, p, s.unknowns - r.lost, s.start, s.now)
    ensures Inv(s, p)
  {
    hide RingSaved, FairJournal, Fair, Follows, Saves, JournalOf;
    HandledFollows(r, e, out, w);
    var j, saves := JournalOf(r.log), Saves(r.log);
    if s.grants == 0 {
      var a, paid := e.gate.ac, s.unknowns - s.lost;
      FairLater(a.failedAttempts, a.lockoutUntil, p, s.unknowns - r.lost, s.start, s.now, paid, s.now);
      if out.persist {
        SaveStaysFair(j, saves, p, r.unknowns - r.lost, r.start, r.now, AttemptRecord(a, e.bootCount), w, paid, s.now);
      } else {
        FairJournalLater(j, saves, p, r.unknowns - r.lost, r.start, r.now, saves, paid, s.now);
      }
    }
  }

  lemma KeyStep(r: Run, p: Policy, key: char, now: Ui.Now, w: PageWrite, hash: Hasher)
    requires Sound(p) && Inv(r, p) && InRing(r.dev.store)
    requires Possible(r, Key(key, now, w)) && Punctual(p, Key(key, now, w))
    ensures Inv(Step(r, p, Key(key, now, w), hash), p)
  {
    hide RingSaved, Evaluated, Keyed, Fair, FairJournal, Follows, Mirrored;
    KeyedAccess(r.dev.gate, key, now, hash);
    var (g, out) := Keyed(r.dev.gate, key, now, hash);
    var a, charged := r.dev.gate.ac, r.unknowns - r.lost;
    var s := Step(r, p, Key(key, now, w), hash);
    if out.submitted {
      EvaluatedFrame(a, hash(out.hashed[0]), now.epoch);
    }
    if r.grants == 0 {
      if out.submitted && a.clockTrusted {
        EvaluateStaysFair(a, p, hash(out.hashed[0]), charged, r.start, r.now, now.epoch);
      } else {
        FairLater(a.failedAttempts, a.lockoutUntil, p, charged, r.start, r.now, charged, s.now);
      }
    }
    HandledKeepsInv(r, p, r.dev.(gate := g), out, w, s);
  }

  lemma TickedFrame(g: Gate, now: Ui.Now)
    ensures var (n, out) := GateTicked(g, now);
            && n.ac == (if g.ui.clockTrusted then AccessCore.Ticked(g.ac, now.epoch) else g.ac)
            && n.ui.clockTrusted == g.ui.clockTrusted
            && out.persist == AttemptsChanged(n.ac, g.ac)
  {
  }

  lemma TickStep(r: Run, p: Policy, now: Ui.Now, w: PageWrite, hash: Hasher)
    requires Sound(p) && Inv(r, p) && InRing(r.dev.store) && Possible(r, Tick(now, w))
    ensures Inv(Step(r, p, Tick(now, w), hash), p)
  {
    hide RingSaved, GateTicked, Fair, FairJournal, Follows, Mirrored;
    TickedFrame(r.dev.gate, now);
    var (g, out) := GateTicked(r.dev.gate, now);
    if r.grants == 0 && g.ui.clockTrusted {
      LiftStaysFair(r.dev.gate.ac, p, r.unknowns - r.lost, r.start, r.now, now.epoch);
    }
    HandledKeepsInv(r, p, r.dev.(gate := g), out, w, Step(r, p, Tick(now, w), hash));
  }

  /** A boot, over any log: what it restores is fair, and so is what it then saves. */
  lemma BootKeepsInv(log: seq<Event>, p: Policy, clockOk: bool, readable: seq<bool>, w: PageWrite,
                     charged: int, start: int, now: int, s: Run)
    requires Sound(p) && LegalRun(log) && |Saves(log)| < WORD && |readable| == 5 && FairWrite(w) && 0 <= start <= now
    requires s.dev == Cycled(RingSafety.Run(log).chip, p, clockOk, readable, w)
    requires s.log == Logged(log + [Reboot], s.dev, true, w) && s.start == start && now <= s.now
    requires s.unknowns - s.lost == charged - LostBy(true, w)
    requires s.grants == 0 ==> FairJournal(JournalOf(log), Saves(log), p, charged, start, now)
    requires s.lost == 0 ==> w.Acked?
    ensures Inv(s, p)
  {
    hide Fair, RingSafety.Run, LegalRun, Cycled, RingSafety.Step, JournalOf, Saves;
    CycleRestores(log, p, clockOk, readable, w);
    var booted, e := log + [Reboot], s.dev;
    LogStep(log, Reboot);
    LogStep(booted, SaveOf(e, w));
    if s.grants == 0 {
      var j := JournalOf(log);
      var paid := s.unknowns - s.lost;
      FairLoaded(log, p, charged, start, now);
      var a := e.gate.ac;
      FairLater(a.failedAttempts, a.lockoutUntil, p, charged, start, now, paid, s.now);
      SaveStaysFair(JournalOf(booted), Saves(booted), p, charged, start, now,
                    AttemptRecord(a, e.bootCount), w, paid, s.now);
    }
  }

  lemma FairLoaded(log: seq<Event>, p: Policy, charged: int, start: int, now: int)
    requires FairJournal(JournalOf(log), Saves(log), p, charged, start, now)
    ensures Fair(LoadedState(log).attempts, LoadedState(log).lockoutUntil, p, charged, start, now)
    ensures FairJournal(JournalStep(JournalOf(log), |Saves(log)|, Reboot), Saves(log), p, charged, start, now)
  {
    hide Fair, JournalOf, Saves;
  }

  lemma QuietStep(r: Run, p: Policy, h: Happening, hash: Hasher)
    requires Sound(p) && Inv(r, p) && InRing(r.dev.store) && Possible(r, h)
    requires h.LongPress? || h.TableChange? || h.ChipCodes? || h.Trust?
    ensures Inv(Step(r, p, h, hash), p)
  {
    hide Fair, FairJournal, RingSafety.Run, LegalRun, Saves, JournalOf;
    var s := Step(r, p, h, hash);
    var a, charged := r.dev.gate.ac, r.unknowns - r.lost;
    if h.ChipCodes? {
      LogStep(r.log, CodeRegion(h.after));
    }
    if r.grants == 0 {
      FairLater(a.failedAttempts, a.lockoutUntil, p, charged, r.start, r.now, charged, s.now);
      FairJournalLater(JournalOf(r.log), Saves(r.log), p, charged, r.start, r.now, Saves(r.log), charged, s.now);
    }
  }

  lemma CycleStep(r: Run, p: Policy, clockOk: bool, readable: seq<bool>, w: PageWrite, hash: Hasher)
    requires Sound(p) && Inv(r, p) && InRing(r.dev.store) && Possible(r, PowerCycle(clockOk, readable, w))
    requires |Saves(r.log)| < WORD
    ensures Inv(Step(r, p, PowerCycle(clockOk, readable, w), hash), p)
  {
    hide Cycled, FairJournal, Fair, Mirrored, Saves, JournalOf, RingSafety.Run, LegalRun;
    BootKeepsInv(r.log, p, clockOk, readable, w, r.unknowns - r.lost, r.start, r.now,
                 Step(r, p, PowerCycle(clockOk, readable, w), hash));
  }

  lemma FirstBootInv(p: Policy, epoch: nat, clockOk: bool, readable: seq<bool>, w: PageWrite)
    requires Sound(p) && |readable| == 5 && FairWrite(w)
    ensures Inv(FirstBoot(p, epoch, clockOk, readable, w), p)
  {
    hide Cycled, Inv, Fair;
    NothingCharged(p, 0, epoch, epoch);
    assert RingSafety.Run([]).chip == BLANK_CHIP;
    assert [] + [Reboot] == [Reboot];
    BootKeepsInv([], p, clockOk, readable, w, 0, epoch, epoch, FirstBoot(p, epoch, clockOk, readable, w));
  }

  /** Saves are only ever added, and lost ones only ever counted. */
  lemma StepGrows(r: Run, p: Policy, h: Happening, hash: Hasher)
    requires InRing(r.dev.store) && Possible(r, h)
    ensures var s := Step(r, p, h, hash);
            |Saves(r.log)| <= |Saves(s.log)| <= |Saves(r.log)| + 1 && r.lost <= s.lost
  {
    hide Keyed, GateTicked, Handled, Cycled;
    if h.PowerCycle? {
      SavesOf(r.log, Reboot);
      SavesOf(r.log + [Reboot], SaveOf(Cycled(r.dev.store.chip, p, h.clockOk, h.readable, h.write), h.write));
    } else if h.Key? {
      SavesOf(r.log, SaveOf(r.dev.(gate := Keyed(r.dev.gate, h.key, h.now, hash).0), h.write));
    } else if h.Tick? {
      SavesOf(r.log, SaveOf(r.dev.(gate := GateTicked(r.dev.gate, h.now).0), h.write));
    } else if h.ChipCodes? {
      SavesOf(r.log, CodeRegion(h.after));
    }
  }

  lemma SavesOf(log: seq<Event>, e: Event)
    ensures Saves(log + [e]) == if e.Save? then Saves(log) + [e] else Saves(log)
  {
    assert (log + [e])[..|log|] == log;
  }

  lemma OneStep(r: Run, p: Policy, h: Happening, hash: Hasher)
    requires Sound(p) && Inv(r, p) && InRing(r.dev.store) && Possible(r, h) && Punctual(p, h)
    requires |Saves(r.log)| < WORD
    ensures Inv(Step(r, p, h, hash), p)
  {
    hide Inv, Step;
    match h {
      case Key(key, now, w) => KeyStep(r, p, key, now, w, hash);
      case LongPress(_) => QuietStep(r, p, h, hash);
      case Tick(now, w) => TickStep(r, p, now, w, hash);
      case TableChange(_) => QuietStep(r, p, h, hash);
      case ChipCodes(_) => QuietStep(r, p, h, hash);
      case Trust(_) => QuietStep(r, p, h, hash);
      case PowerCycle(clockOk, readable, w) => CycleStep(r, p, clockOk, readable, w, hash);
    }
  }

  ghost predicate AllPunctual(p: Policy, hs: seq<Happening>) {
    forall k :: 0 <= k < |hs| ==> Punctual(p, hs[k])
  }

  lemma {:induction false} RunKeepsInv(p: Policy, r0: Run, hs: seq<Happening>, hash: Hasher)
    requires Sound(p) && InRing(r0.dev.store) && Inv(r0, p)
    requires PossibleRun(r0, p, hs, hash) && AllPunctual(p, hs)
    requires |Saves(After(r0, p, hs, hash).log)| < WORD
    ensures Inv(After(r0, p, hs, hash), p)
  {
    hide Inv, Possible, Step, Saves;
    if hs == [] {
    } else {
      var front, h := hs[..|hs| - 1], hs[|hs| - 1];
      var r := After(r0, p, front, hash);
      StepGrows(r, p, h, hash);
      RunKeepsInv(p, r0, front, hash);
      OneStep(r, p, h, hash);
    }
  }

  lemma LockoutsFit(l: int, span: int, k: nat)
    requires l > 0 && span >= 0 && k * l <= span
    ensures k <= span / l
  {
    var q := span / l;
    assert span < (q + 1) * l;
    MulOrder(l, k, q + 1);
  }

  lemma MulOrder(l: int, a: int, b: int)
    requires l > 0 && a * l < b * l
    ensures a < b
  {
  }

  lemma MulGrows(m: int, a: int, b: int)
    requires 0 <= m && a <= b
    ensures m * a <= m * b
  {
  }

  lemma CountIsBounded(failed: int, until: int, p: Policy, charged: int, start: int, now: int, k: nat)
    requires Sound(p) && Counted(failed, until, p, charged, start, now, k) && start <= now
    ensures charged <= p.maxFailed * ((now - start) / p.lockSeconds + 1)
  {
    var m, l, q := p.maxFailed, p.lockSeconds, (now - start) / p.lockSeconds;
    if until == 0 {
      LockoutsFit(l, now - start, k);
      MulStep(m, k);
      MulGrows(m, k + 1, q + 1);
    } else if k > 0 {
      MulStep(l, k - 1);
      LockoutsFit(l, now - start, k - 1);
      MulGrows(m, k, q + 1);
    } else {
      MulGrows(m, 0, q + 1);
    }
  }

  /** Guessing is bounded across power cycles, whether or not the clock is trusted at any of them or
      in between.  From a fresh device, over any run without a grant, at most `maxFailed` wrong codes
      are evaluated in each started lockout period, and one more for each save that was not
      acknowledged. */
  lemma GuessesAreBounded(p: Policy, epoch: nat, clockOk: bool, readable: seq<bool>, w: PageWrite,
                          hs: seq<Happening>, hash: Hasher)
    requires Sound(p) && |readable| == 5 && FairWrite(w)
    requires PossibleRun(FirstBoot(p, epoch, clockOk, readable, w), p, hs, hash) && AllPunctual(p, hs)
    requires var r := After(FirstBoot(p, epoch, clockOk, readable, w), p, hs, hash);
             |Saves(r.log)| < WORD && r.grants == 0
    ensures var r := After(FirstBoot(p, epoch, clockOk, readable, w), p, hs, hash);
            r.unknowns <= p.maxFailed * ((r.now - r.start) / p.lockSeconds + 1) + r.lost
  {
    hide FirstBoot, Mirrored, Counted, After, PossibleRun, Saves, FairJournal, Follows;
    FirstBootInv(p, epoch, clockOk, readable, w);
    RunKeepsInv(p, FirstBoot(p, epoch, clockOk, readable, w), hs, hash);
    var r := After(FirstBoot(p, epoch, clockOk, readable, w), p, hs, hash);
    var a, charged := r.dev.gate.ac, r.unknowns - r.lost;
    var k: nat :| Counted(a.failedAttempts, a.lockoutUntil, p, charged, r.start, r.now, k);
    CountIsBounded(a.failedAttempts, a.lockoutUntil, p, charged, r.start, r.now, k);
  }

  lemma CycleOfMirrored(r: Run, p: Policy, clockOk: bool, readable: seq<bool>, w: PageWrite)
    requires Inv(r, p) && |Saves(r.log)| < WORD && r.lost == 0 && |readable| == 5 && FairWrite(w)
    ensures var d, e := r.dev, Cycled(r.dev.store.chip, p, clockOk, readable, w);
            && e.gate.ac.failedAttempts == d.gate.ac.failedAttempts && e.gate.ac.lockoutUntil == d.gate.ac.lockoutUntil
            && e.bootCount == (d.bootCount + 1) % WORD
  {
    hide Cycled, FairJournal, Fair, Saves, JournalOf, RingSafety.Run, LegalRun, RingSafety.Step, Legal;
    CycleRestores(r.log, p, clockOk, readable, w);
  }

  /** And while no save has been lost, the chip would at every moment restore exactly the counter and
      the deadline in force, and count the boot. */
  lemma PowerCycleForgetsNothing(p: Policy, epoch: nat, clockOk: bool, readable: seq<bool>, w: PageWrite,
                                 hs: seq<Happening>, hash: Hasher, trusted: bool, again: seq<bool>, next: PageWrite)
    requires Sound(p) && |readable| == 5 && |again| == 5 && FairWrite(w) && FairWrite(next)
    requires PossibleRun(FirstBoot(p, epoch, clockOk, readable, w), p, hs, hash) && AllPunctual(p, hs)
    requires var r := After(FirstBoot(p, epoch, clockOk, readable, w), p, hs, hash);
             |Saves(r.log)| < WORD && r.lost == 0
    ensures var d := After(FirstBoot(p, epoch, clockOk, readable, w), p, hs, hash).dev;
            var e := Cycled(d.store.chip, p, trusted, again, next);
            && e.gate.ac.failedAttempts == d.gate.ac.failedAttempts && e.gate.ac.lockoutUntil == d.gate.ac.lockoutUntil
            && e.bootCount == (d.bootCount + 1) % WORD
  {
    hide FirstBoot, After, Cycled, PossibleRun, Inv, Saves;
    FirstBootInv(p, epoch, clockOk, readable, w);
    RunKeepsInv(p, FirstBoot(p, epoch, clockOk, readable, w), hs, hash);
    CycleOfMirrored(After(FirstBoot(p, epoch, clockOk, readable, w), p, hs, hash), p, trusted, again, next);
  }

  // ---- boots are counted ----

  function Cycles(hs: seq<Happening>): nat {
    if hs == [] then 0 else Cycles(hs[..|hs| - 1]) + if hs[|hs| - 1].PowerCycle? then 1 else 0
  }

  lemma CycleCounts(r: Run, p: Policy, h: Happening, hash: Hasher)
    requires Sound(p) && Inv(r, p) && InRing(r.dev.store) && Possible(r, h)
    requires |Saves(r.log)| < WORD && r.lost == 0
    ensures Step(r, p, h, hash).dev.bootCount == if h.PowerCycle? then (r.dev.bootCount + 1) % WORD else r.dev.bootCount
  {
    hide Cycled, Keyed, GateTicked, RingSaved, Inv, Saves;
    if h.PowerCycle? {
      CycleOfMirrored(r, p, h.clockOk, h.readable, h.write);
    }
  }

  /** While no save is lost, the boot count is one for the first boot and one more for each power
      cycle, modulo 2^32. */
  lemma {:induction false} BootsAreCounted(p: Policy, epoch: nat, clockOk: bool, readable: seq<bool>, w: PageWrite,
                                           hs: seq<Happening>, hash: Hasher)
    requires Sound(p) && |readable| == 5 && FairWrite(w)
    requires PossibleRun(FirstBoot(p, epoch, clockOk, readable, w), p, hs, hash) && AllPunctual(p, hs)
    requires var r := After(FirstBoot(p, epoch, clockOk, readable, w), p, hs, hash);
             |Saves(r.log)| < WORD && r.lost == 0
    ensures After(FirstBoot(p, epoch, clockOk, readable, w), p, hs, hash).dev.bootCount == (1 + Cycles(hs)) % WORD
  {
    hide Inv, Step, Possible, Cycled, Saves;
    var r0 := FirstBoot(p, epoch, clockOk, readable, w);
    if hs == [] {
      FirstCount(p, epoch, clockOk, readable, w);
    } else {
      var front, h := hs[..|hs| - 1], hs[|hs| - 1];
      var r := After(r0, p, front, hash);
      StepGrows(r, p, h, hash);
      BootsAreCounted(p, epoch, clockOk, readable, w, front, hash);
      FirstBootInv(p, epoch, clockOk, readable, w);
      RunKeepsInv(p, r0, front, hash);
      CycleCounts(r, p, h, hash);
    }
  }

  lemma FirstCount(p: Policy, epoch: nat, clockOk: bool, readable: seq<bool>, w: PageWrite)
    requires |readable| == 5 && FairWrite(w)
    ensures FirstBoot(p, epoch, clockOk, readable, w).dev.bootCount == 1
  {
    hide Cycled, LegalRun, RingSafety.Run, LoadedState, RingSafety.Step, Legal, Saves;
    EmptyLog();
    CycleRestores([], p, clockOk, readable, w);
  }

  lemma EmptyLog()
    ensures LegalRun([]) && RingSafety.Run([]).chip == BLANK_CHIP && |Saves([])| == 0
    ensures LoadedState([]) == Ring.RingState(0, 0, 0)
  {
  }
}
