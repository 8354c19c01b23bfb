/** Where the guessing bound ends: what its conditions are for, and that it is tight. */
module GuessEdges {
  import opened Bytes
  import opened AccessCore
  import opened GateCtrl
  import opened PersistStore
  import opened App
  import opened GuessBound
  import Log = RingSafety
  import Ring = PersistRing
  import Ui

  // ---- the deadline is saved in 32 bits ----

  /** After an acknowledged save, that record is what a boot restores. */
  lemma AckedIsLoaded(log: seq<Log.Event>, s: Ring.RingState)
    requires Log.LegalRun(log)
    ensures LoadedState(log + [Log.Save(s, Acked)]) == s
  {
    hide Log.LegalRun, Log.Run, Log.Step, Log.JournalOf, Log.Saves;
    LogStep(log, Log.Save(s, Acked));
  }

  /** An untouched page changes nothing about it. */
  lemma UntouchedIsNotLoaded(log: seq<Log.Event>, s: Ring.RingState)
    requires Log.LegalRun(log)
    ensures LoadedState(log + [Log.Save(s, Untouched)]) == LoadedState(log)
  {
    hide Log.LegalRun, Log.Run, Log.Step, Log.JournalOf, Log.Saves;
    LogStep(log, Log.Save(s, Untouched));
    Log.JournalIsSafe(log);
  }

  /** What a power cycle restores right after a save: the same count, and the deadline modulo 2^32.
      So the deadline survives exactly when it is a 32-bit number. */
  lemma DeadlineSurvivesExactly(d: Device, log: seq<Log.Event>, p: Policy, clockOk: bool,
                                readable: seq<bool>, w: PageWrite)
    requires Follows(d.store, log) && |readable| == 5 && |Log.Saves(log)| + 1 < WORD && FairWrite(w)
    ensures var a, b := d.gate.ac, Cycled(Persisted(d, Acked).store.chip, p, clockOk, readable, w).gate.ac;
            && b.failedAttempts == a.failedAttempts
            && b.lockoutUntil == a.lockoutUntil % WORD
            && (b.lockoutUntil == a.lockoutUntil <==> 0 <= a.lockoutUntil < WORD)
  {
    hide Log.LegalRun, Log.Run, Cycled, LoadedState, RingSaved, Log.Saves, Log.JournalOf;
    var s := AttemptRecord(d.gate.ac, d.bootCount);
    LogStep(log, Log.Save(s, Acked));
    AckedIsLoaded(log, s);
    CycleRestores(log + [Log.Save(s, Acked)], p, clockOk, readable, w);
  }

  /** Beyond that it is forgotten: a lockout in force whose deadline is 2^32 or later, and not more
      than 2^32 seconds away, is over after a power cycle. */
  lemma LateLockoutForgotten(d: Device, log: seq<Log.Event>, p: Policy, clockOk: bool,
                             readable: seq<bool>, w: PageWrite, now: nat)
    requires Follows(d.store, log) && |readable| == 5 && |Log.Saves(log)| + 1 < WORD && FairWrite(w)
    requires now < d.gate.ac.lockoutUntil <= now + WORD && WORD <= d.gate.ac.lockoutUntil
    ensures LockedOut(d.gate.ac, now)
    ensures !LockedOut(Cycled(Persisted(d, Acked).store.chip, p, clockOk, readable, w).gate.ac, now)
  {
    hide Persisted, Cycled, Follows, Log.Saves;
    DeadlineSurvivesExactly(d, log, p, clockOk, readable, w);
    var u := d.gate.ac.lockoutUntil;
    assert u % WORD <= u - WORD;
  }

  // ---- a device with an empty table, nothing typed and no lockout ----

  ghost predicate Idle(r: Run, p: Policy) {
    var g := r.dev.gate;
    && Follows(r.dev.store, r.log) && Settings(g, p) && g.ac.clockTrusted && 0 <= r.now
    && g.ui.entryLen == 0 && g.ui.screen != Ui.Entry
    && g.ac.slots == EMPTY_TABLE && g.ac.lockoutUntil == 0
  }

  /** The same device with `n` keys typed. */
  ghost predicate Typing(r: Run, base: Run, n: nat) {
    var u := r.dev.gate.ui;
    && r == base.(dev := base.dev.(gate := base.dev.gate.(ui := u, buf := r.dev.gate.buf)))
    && u.clockTrusted && u.entryLen == n && (n > 0 <==> u.screen == Ui.Entry)
  }

  function OneKey(now: int, w: PageWrite): Happening {
    Key('1', Ui.Now(0, now), w)
  }

  lemma KeyTypes(r: Run, p: Policy, base: Run, n: nat, w: PageWrite, hash: Hasher)
    requires Idle(base, p) && Typing(r, base, n) && n < 8 && FairWrite(w) && InRing(r.dev.store)
    ensures Possible(r, OneKey(base.now, w)) && Typing(Step(r, p, OneKey(base.now, w), hash), base, n + 1)
  {
    hide Follows, Evaluated;
  }

  /** The ninth key is evaluated, unknown, and saved. */
  lemma NinthKeyFails(r: Run, p: Policy, base: Run, w: PageWrite, hash: Hasher)
    requires Sound(p) && Idle(base, p) && Typing(r, base, 8) && FairWrite(w) && InRing(r.dev.store)
    ensures var s := Step(r, p, OneKey(base.now, w), hash);
            && Possible(r, OneKey(base.now, w))
            && s.dev.gate.ac == FailureRegistered(base.dev.gate.ac, base.now)
            && s.dev.gate.ui.entryLen == 0 && s.dev.gate.ui.screen != Ui.Entry && s.dev.gate.ui.clockTrusted
            && s.log == base.log + [SaveOf(s.dev, w)]
            && s.unknowns == base.unknowns + 1 && s.grants == base.grants && s.lost == base.lost + LostBy(true, w)
            && s.now == base.now && s.start == base.start
            && s.dev.store == RingSaved(base.dev.store, AttemptRecord(s.dev.gate.ac, s.dev.bootCount), w)
  {
    hide RingSaved, CStr, Follows;
    var (g, out) := Keyed(r.dev.gate, '1', Ui.Now(0, base.now), hash);
    KeyedAccess(r.dev.gate, '1', Ui.Now(0, base.now), hash);
    assert out.submitted;
    EmptyIsUnknown(r.dev.gate.ac, hash(out.hashed[0]), base.now);
  }

  lemma EmptyIsUnknown(a: Access, h: Hash, now: int)
    requires a.clockTrusted && a.slots == EMPTY_TABLE && a.lockoutUntil == 0 && now >= 0
    ensures Evaluated(a, h, now) == (FailureRegistered(a, now), Unknown, -1)
  {
    assert LastMatch(a.slots, h, 5) < 0;
  }

  // ---- putting runs together ----

  lemma Extend(r0: Run, p: Policy, hs: seq<Happening>, h: Happening, hash: Hasher)
    requires InRing(r0.dev.store) && PossibleRun(r0, p, hs, hash) && Possible(After(r0, p, hs, hash), h)
    ensures PossibleRun(r0, p, hs + [h], hash)
    ensures After(r0, p, hs + [h], hash) == Step(After(r0, p, hs, hash), p, h, hash)
  {
    hide Step, Possible;
    assert (hs + [h])[..|hs|] == hs;
  }

  lemma {:induction false} TypeKeys(r0: Run, p: Policy, hs: seq<Happening>, n: nat, w: PageWrite, hash: Hasher)
    returns (more: seq<Happening>)
    requires InRing(r0.dev.store) && PossibleRun(r0, p, hs, hash) && Idle(After(r0, p, hs, hash), p)
    requires n <= 8 && FairWrite(w)
    ensures PossibleRun(r0, p, more, hash) && Typing(After(r0, p, more, hash), After(r0, p, hs, hash), n)
  {
    hide Step, Possible, After, PossibleRun, Follows;
    var base := After(r0, p, hs, hash);
    if n == 0 {
      more := hs;
    } else {
      var front := TypeKeys(r0, p, hs, n - 1, w, hash);
      KeyTypes(After(r0, p, front, hash), p, base, n - 1, w, hash);
      Extend(r0, p, front, OneKey(base.now, w), hash);
      more := front + [OneKey(base.now, w)];
    }
  }

  /** What nine keys typed at a device with no code do to it. */
  ghost predicate OneMoreWrong(s: Run, base: Run, p: Policy, w: PageWrite) {
    && Follows(s.dev.store, s.log) && Settings(s.dev.gate, p) && s.dev.gate.ac.clockTrusted
    && s.dev.gate.ac == FailureRegistered(base.dev.gate.ac, base.now)
    && s.dev.gate.ui.entryLen == 0 && s.dev.gate.ui.screen != Ui.Entry
    && s.log == base.log + [SaveOf(s.dev, w)] && |Log.Saves(s.log)| == |Log.Saves(base.log)| + 1
    && s.unknowns == base.unknowns + 1 && s.grants == base.grants && s.lost == base.lost + LostBy(true, w)
    && s.now == base.now && s.start == base.start
  }

  lemma NineKeys(r0: Run, p: Policy, hs: seq<Happening>, w: PageWrite, hash: Hasher) returns (more: seq<Happening>)
    requires Sound(p) && InRing(r0.dev.store) && PossibleRun(r0, p, hs, hash) && Idle(After(r0, p, hs, hash), p)
    requires FairWrite(w)
    ensures PossibleRun(r0, p, more, hash)
    ensures OneMoreWrong(After(r0, p, more, hash), After(r0, p, hs, hash), p, w)
  {
    hide Step, Possible, After, PossibleRun, Log.LegalRun, Log.Run, RingSaved, Log.Saves;
    var base := After(r0, p, hs, hash);
    var eight := TypeKeys(r0, p, hs, 8, w, hash);
    NinthKeyFails(After(r0, p, eight, hash), p, base, w, hash);
    Extend(r0, p, eight, OneKey(base.now, w), hash);
    more := eight + [OneKey(base.now, w)];
    LogStep(base.log, SaveOf(After(r0, p, more, hash).dev, w));
  }

  const NO_CODES := [false, false, false, false, false]

  /** A power cycle that restores no deadline leaves an idle device again. */
  lemma CycleIsIdle(r: Run, p: Policy, hash: Hasher)
    requires Follows(r.dev.store, r.log) && |Log.Saves(r.log)| < WORD && InRing(r.dev.store) && 0 <= r.now
    requires LoadedState(r.log).lockoutUntil == 0
    ensures var h := PowerCycle(true, NO_CODES, Acked);
            && Possible(r, h)
            && var s := Step(r, p, h, hash);
               && Idle(s, p) && s.dev.gate.ac.failedAttempts == LoadedState(r.log).attempts
               && LoadedState(s.log).lockoutUntil == 0 && LoadedState(s.log).attempts == LoadedState(r.log).attempts
               && |Log.Saves(s.log)| == |Log.Saves(r.log)| + 1
               && s == r.(dev := s.dev, log := s.log)
  {
    hide Log.LegalRun, Log.Run, Log.Step, Log.JournalOf, Log.Saves, LoadedState, Cycled;
    var e := Cycled(r.dev.store.chip, p, true, NO_CODES, Acked);
    CycleRestores(r.log, p, true, NO_CODES, Acked);
    CycledIsEmpty(r.dev.store.chip, p);
    var booted := r.log + [Log.Reboot];
    LogStep(r.log, Log.Reboot);
    LogStep(booted, SaveOf(e, Acked));
    AckedIsLoaded(booted, AttemptRecord(e.gate.ac, e.bootCount));
  }

  lemma CycledIsEmpty(chip: Chip, p: Policy)
    ensures var g := Cycled(chip, p, true, NO_CODES, Acked).gate;
            g.ac.slots == EMPTY_TABLE && g.ui.entryLen == 0 && g.ui.screen != Ui.Entry
  {
    hide Booted, RingSaved, StoredCode;
  }

  /** Nine keys and a power cycle, when the save is lost or its deadline is exactly 2^32. */
  lemma GuessAndCycle(r0: Run, p: Policy, hs: seq<Happening>, w: PageWrite, hash: Hasher)
    returns (more: seq<Happening>)
    requires Sound(p) && InRing(r0.dev.store) && PossibleRun(r0, p, hs, hash)
    requires var r := After(r0, p, hs, hash);
             && Idle(r, p) && LoadedState(r.log).lockoutUntil == 0 && |Log.Saves(r.log)| + 2 < WORD
             && (w == Untouched || (w == Acked && r.now + p.lockSeconds == WORD))
    ensures PossibleRun(r0, p, more, hash)
    ensures var r, s := After(r0, p, hs, hash), After(r0, p, more, hash);
            && Idle(s, p) && LoadedState(s.log).lockoutUntil == 0 && |Log.Saves(s.log)| == |Log.Saves(r.log)| + 2
            && s.unknowns == r.unknowns + 1 && s.grants == r.grants && s.lost == r.lost + LostBy(true, w)
            && s.now == r.now && s.start == r.start
            && (w == Untouched ==>
                  s.dev.gate.ac.failedAttempts == LoadedState(s.log).attempts == LoadedState(r.log).attempts)
  {
    hide Step, Possible, After, PossibleRun, Log.LegalRun, Log.Run, LoadedState, Log.Saves;
    var base := After(r0, p, hs, hash);
    var nine := NineKeys(r0, p, hs, w, hash);
    var s := After(r0, p, nine, hash);
    var record := AttemptRecord(s.dev.gate.ac, s.dev.bootCount);
    if w == Untouched {
      UntouchedIsNotLoaded(base.log, record);
    } else {
      AckedIsLoaded(base.log, record);
    }
    CycleIsIdle(s, p, hash);
    Extend(r0, p, nine, PowerCycle(true, NO_CODES, Acked), hash);
    more := nine + [PowerCycle(true, NO_CODES, Acked)];
  }

  ghost predicate Ready(r: Run, p: Policy, n: nat) {
    && Idle(r, p) && LoadedState(r.log).lockoutUntil == 0 && |Log.Saves(r.log)| == 2 * n + 1
    && r.unknowns == n && r.grants == 0 && r.now == r.start
  }

  lemma FirstBootIsReady(p: Policy, epoch: nat)
    ensures Ready(FirstBoot(p, epoch, true, NO_CODES, Acked), p, 0)
    ensures LoadedState(FirstBoot(p, epoch, true, NO_CODES, Acked).log).attempts == 0
    ensures FirstBoot(p, epoch, true, NO_CODES, Acked).dev.gate.ac.failedAttempts == 0
  {
    hide Log.LegalRun, Log.Run, Log.Step, Log.JournalOf, Log.Saves, LoadedState, Cycled;
    var e := Cycled(BLANK_CHIP, p, true, NO_CODES, Acked);
    EmptyLog();
    CycleRestores([], p, true, NO_CODES, Acked);
    CycledIsEmpty(BLANK_CHIP, p);
    assert [] + [Log.Reboot] == [Log.Reboot];
    LogStep([], Log.Reboot);
    LogStep([Log.Reboot], SaveOf(e, Acked));
    AckedIsLoaded([Log.Reboot], AttemptRecord(e.gate.ac, e.bootCount));
  }

  // ---- what the conditions of the bound are for ----

  /** In the second where a lockout's deadline would be exactly 2^32 there is no bound at all: with
      every save acknowledged, any number of wrong codes can be tried in no time. */
  lemma {:induction false} NoBoundAtTheDeadline(p: Policy, n: nat, hash: Hasher) returns (hs: seq<Happening>)
    requires Sound(p) && p.lockSeconds <= WORD && 2 * n + 2 < WORD
    ensures var r0 := FirstBoot(p, WORD - p.lockSeconds, true, NO_CODES, Acked);
            && PossibleRun(r0, p, hs, hash)
            && Ready(After(r0, p, hs, hash), p, n) && After(r0, p, hs, hash).lost == 0
            && After(r0, p, hs, hash).start == WORD - p.lockSeconds
  {
    hide Step, Possible, Cycled, LoadedState, Log.Saves, Idle;
    var r0 := FirstBoot(p, WORD - p.lockSeconds, true, NO_CODES, Acked);
    if n == 0 {
      FirstBootIsReady(p, WORD - p.lockSeconds);
      hs := [];
    } else {
      var front := NoBoundAtTheDeadline(p, n - 1, hash);
      hs := GuessAndCycle(r0, p, front, Acked, hash);
    }
  }

  /** Each save lost can buy one more guess. */
  lemma {:induction false} LostSavesBuyGuesses(p: Policy, epoch: nat, n: nat, hash: Hasher)
    returns (hs: seq<Happening>)
    requires Sound(p) && 2 * n + 2 < WORD
    ensures var r0 := FirstBoot(p, epoch, true, NO_CODES, Acked);
            && PossibleRun(r0, p, hs, hash)
            && var r := After(r0, p, hs, hash);
               && Ready(r, p, n) && r.lost == n && r.start == epoch
               && r.dev.gate.ac.failedAttempts == 0 && LoadedState(r.log).attempts == 0
  {
    hide Step, Possible, Cycled, LoadedState, Log.Saves, Idle;
    var r0 := FirstBoot(p, epoch, true, NO_CODES, Acked);
    if n == 0 {
      FirstBootIsReady(p, epoch);
      hs := [];
    } else {
      var front := LostSavesBuyGuesses(p, epoch, n - 1, hash);
      hs := GuessAndCycle(r0, p, front, Untouched, hash);
    }
  }

  /** Wrong codes up to the maximum, every save acknowledged. */
  lemma {:induction false} GuessOn(r0: Run, p: Policy, hs: seq<Happening>, k: nat, hash: Hasher)
    returns (more: seq<Happening>)
    requires Sound(p) && InRing(r0.dev.store) && PossibleRun(r0, p, hs, hash)
    requires Idle(After(r0, p, hs, hash), p) && After(r0, p, hs, hash).dev.gate.ac.failedAttempts == 0
    requires k < p.maxFailed
    ensures PossibleRun(r0, p, more, hash)
    ensures var r, s := After(r0, p, hs, hash), After(r0, p, more, hash);
            && Idle(s, p) && s.dev.gate.ac.failedAttempts == k
            && s.unknowns == r.unknowns + k && s.grants == r.grants && s.lost == r.lost
            && s.now == r.now && s.start == r.start
  {
    hide Step, Possible, After, PossibleRun, Follows, Log.Saves;
    if k == 0 {
      more := hs;
    } else {
      var front := GuessOn(r0, p, hs, k - 1, hash);
      more := NineKeys(r0, p, front, Acked, hash);
    }
  }

  /** The bound is attained, for every policy and every number of lost saves. */
  lemma BoundIsTight(p: Policy, epoch: nat, n: nat, hash: Hasher) returns (hs: seq<Happening>)
    requires Sound(p) && 2 * n + 2 < WORD
    ensures var r0 := FirstBoot(p, epoch, true, NO_CODES, Acked);
            && PossibleRun(r0, p, hs, hash)
            && var r := After(r0, p, hs, hash);
               r.grants == 0 && r.lost == n
               && r.unknowns == p.maxFailed * ((r.now - r.start) / p.lockSeconds + 1) + r.lost
  {
    hide Step, Possible, After, PossibleRun, Follows, Log.Saves, LoadedState, FirstBoot;
    var r0 := FirstBoot(p, epoch, true, NO_CODES, Acked);
    var front := LostSavesBuyGuesses(p, epoch, n, hash);
    var almost := GuessOn(r0, p, front, p.maxFailed - 1, hash);
    hs := NineKeys(r0, p, almost, Acked, hash);
    var r := After(r0, p, hs, hash);
    assert r.now - r.start == 0 && r.unknowns == n + p.maxFailed;
  }
}
