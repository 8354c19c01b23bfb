/** What a long press throws away, and what a boot without a trusted clock refuses, over every run. */
module GateRuns {
  import opened AccessCore
  import opened GateCtrl
  import opened EntryBuffer
  import App
  import Chips = PersistStore
  import Ring = PersistRing
  import Ui

  // ---- the long press ----

  /** A long press leaves the screen dark and nothing typed behind, except in a lockout on a trusted
      clock, where it does nothing.  Either way it costs no attempt and hashes nothing. */
  lemma LongPressClears(r: Run, now: Ui.Now, hash: Hasher)
    ensures var s := Step(r, LongPress(now), hash);
            && s.gate.ac == r.gate.ac && s.accepted == r.accepted && s.hashed == r.hashed
            && if r.gate.ui.clockTrusted && r.gate.ac.lockoutUntil > now.epoch then s.gate == r.gate
               else s.gate.ui == Ui.State(Ui.Dark, 0, 0, 0, r.gate.ui.clockTrusted)
                    && forall i :: 0 <= i < 10 ==> s.gate.buf[i] == NUL
  {
    hide Zeros;
  }

  lemma {:induction false} AfterSplit(r: Run, x: seq<Event>, y: seq<Event>, hash: Hasher)
    ensures After(r, x + y, hash) == After(After(r, x, hash), y, hash)
    ensures OrderlyRun(r, x + y, hash) ==> OrderlyRun(r, x, hash) && OrderlyRun(After(r, x, hash), y, hash)
  {
    hide Step, Orderly;
    if y == [] {
      assert x + y == x;
    } else {
      var front := y[..|y| - 1];
      AfterSplit(r, x, front, hash);
      assert (x + y)[..|x + y| - 1] == x + front;
    }
  }

  /** Of what was accepted since a moment with no entry open, the entry can hold no more than that. */
  lemma {:induction false} NothingCarriesOver(r: Run, events: seq<Event>, hash: Hasher)
    requires Inv(r) && r.gate.ui.entryLen == 0 && OrderlyRun(r, events, hash)
    ensures var s := After(r, events, hash);
            Inv(s) && s.gate.ui.entryLen <= |s.accepted| - |r.accepted|
  {
    hide Step, Inv, Orderly;
    if events == [] {
    } else {
      var front, e := events[..|events| - 1], events[|events| - 1];
      NothingCarriesOver(r, front, hash);
      EntryGrowsByAccepting(After(r, front, hash), e, hash);
    }
  }

  lemma EntryGrowsByAccepting(r: Run, e: Event, hash: Hasher)
    requires Inv(r) && Orderly(r, e)
    ensures var s := Step(r, e, hash);
            && Inv(s) && |r.accepted| <= |s.accepted|
            && (s.gate.ui.entryLen == 0
                || s.gate.ui.entryLen - r.gate.ui.entryLen == |s.accepted| - |r.accepted|)
  {
    hide Evaluated, CStr, Zeros, Inv;
    if e.Key? {
      KeyKeepsInv(r, e.key, e.now, hash);
      KeyGrows(r, e.key, e.now, hash);
    } else {
      QuietKeepsInv(r, e, hash);
    }
  }

  lemma KeyGrows(r: Run, key: char, now: Ui.Now, hash: Hasher)
    requires Inv(r) && Orderly(r, Key(key, now))
    ensures var s := Step(r, Key(key, now), hash);
            s.gate.ui.entryLen == 0 || s.gate.ui.entryLen - r.gate.ui.entryLen == |s.accepted| - |r.accepted|
  {
    hide Evaluated, CStr, Zeros;
    if Accepts(r.gate, now) {
      KeyExtends(r, key, now);
    }
  }

  /** After a long press outside a lockout, a string is hashed only if nine keys have been accepted
      since, and is the last nine of those: no key typed before it ever reaches the hash function. */
  lemma HashedAfterLongPress(a: Access, epoch: nat, before: seq<Event>, now: Ui.Now, after: seq<Event>, e: Event,
                             hash: Hasher)
    requires OrderlyRun(Begin(a, epoch), before + [LongPress(now)] + after + [e], hash)
    requires var g := After(Begin(a, epoch), before, hash).gate; !(g.ui.clockTrusted && LockedOut(g.ac, now.epoch))
    ensures var p := After(Begin(a, epoch), before + [LongPress(now)], hash);
            var r := After(Begin(a, epoch), before + [LongPress(now)] + after, hash);
            var s := After(Begin(a, epoch), before + [LongPress(now)] + after + [e], hash);
            || s.hashed == r.hashed
            || (|s.accepted| - |p.accepted| >= 9 && s.hashed == r.hashed + [s.accepted[|s.accepted| - 9..]])
  {
    hide Step, Inv, Orderly, OrderlyRun;
    var b := Begin(a, epoch);
    var first := before + [LongPress(now)];
    var all := first + after;
    AfterSplit(b, all, [e], hash);
    AfterSplit(b, first, after, hash);
    AfterSplit(b, before, [LongPress(now)], hash);
    RunKeepsInv(a, epoch, first, hash);
    OneStep(After(b, before, hash), LongPress(now), hash);
    LongPressClears(After(b, before, hash), now, hash);
    NothingCarriesOver(After(b, first, hash), after, hash);
    var r := After(b, all, hash);
    OneStep(r, e, hash);
    if e.Key? {
      KeyKeepsInv(r, e.key, e.now, hash);
      HashingTakesNine(r, e.key, e.now, hash);
    } else {
      QuietKeepsInv(r, e, hash);
    }
  }

  lemma OneStep(r: Run, e: Event, hash: Hasher)
    ensures After(r, [e], hash) == Step(r, e, hash)
    ensures OrderlyRun(r, [e], hash) ==> Orderly(r, e)
  {
    hide Step, Orderly;
    assert [e][..0] == [];
  }

  lemma HashingTakesNine(r: Run, key: char, now: Ui.Now, hash: Hasher)
    requires Inv(r) && Orderly(r, Key(key, now))
    ensures var s := Step(r, Key(key, now), hash);
            s.hashed == r.hashed || (r.gate.ui.entryLen == 8 && |s.accepted| == |r.accepted| + 1)
  {
    hide Evaluated, CStr, Zeros;
    NinthKeySubmits(r, key, now, hash);
    assert r.hashed + [] == r.hashed;
  }

  // ---- what the screen tells ----

  /** The ninth key shows the notice of its verdict, or goes dark when it starts a lockout. */
  lemma NinthKeyShowsVerdict(r: Run, key: char, now: Ui.Now, hash: Hasher)
    requires Inv(r) && Orderly(r, Key(key, now)) && Accepts(r.gate, now) && r.gate.ui.entryLen == 8
    ensures var (g, out) := Keyed(r.gate, key, now, hash);
            && g.ui.clockTrusted && g.ui.entryLen == 0
            && (g.ui.screen == Ui.ShowGranted <==> out.verdict == Granted)
            && (g.ui.screen == Ui.ShowNotYet <==> out.verdict == NotYet)
            && (g.ui.screen == Ui.ShowExpired <==> out.verdict == Expired)
            && (g.ui.screen == Ui.ShowNoClock <==> out.verdict == NoClock)
            && (g.ui.screen == Ui.ShowDenied <==>
                  (out.verdict == Unknown || out.verdict == Lockout) && !LockedOut(g.ac, now.epoch))
  {
    hide Evaluated, CStr;
    KeyExtends(r, key, now);
  }

  /** A tick lifts a lockout, and asks for that to be saved, exactly when the clock is trusted and
      the deadline has passed; it charges nothing. */
  lemma TickLiftsExactly(g: Gate, now: Ui.Now)
    ensures var (h, out) := GateTicked(g, now);
            var lifts := g.ui.clockTrusted && g.ac.lockoutUntil != 0 && g.ac.lockoutUntil <= now.epoch;
            && h.ac == (if lifts then g.ac.(failedAttempts := 0, lockoutUntil := 0) else g.ac)
            && out == Out(false, Granted, false, lifts, "", [])
  {
  }

  /** Losing the clock's trust darkens the screen; the typed keys stay in the buffer. */
  lemma TrustLost(r: Run, hash: Hasher)
    ensures var s := Step(r, Trust(false), hash);
            && s.gate.ui == Ui.State(Ui.Dark, 0, 0, 0, false) && !s.gate.ac.clockTrusted
            && s.gate.buf == r.gate.buf && s.gate.ac == r.gate.ac.(clockTrusted := false)
  {
  }

  // ---- an untrusted clock ----

  predicate Untrusted(g: Gate) {
    !g.ac.clockTrusted && !g.ui.clockTrusted
  }

  /** Neither the clock is declared good nor the device restarted. */
  predicate StaysUntrusted(e: Event) {
    e != Trust(true) && !e.Reboot?
  }

  /** Without trust no event opens the door, submits, hashes or asks for a save, and the counter and
      the deadline stay; a key shows the notice for it. */
  lemma UntrustedStep(r: Run, e: Event, hash: Hasher)
    requires Untrusted(r.gate) && StaysUntrusted(e)
    ensures var s := Step(r, e, hash);
            && Untrusted(s.gate) && s.hashed == r.hashed && s.accepted == r.accepted
            && s.gate.ac.failedAttempts == r.gate.ac.failedAttempts
            && s.gate.ac.lockoutUntil == r.gate.ac.lockoutUntil
            && OutputOf(r, e, hash) == NOTHING
            && (e.Key? ==> s.gate.ui.screen == Ui.ShowNoClock && s.gate.buf == r.gate.buf)
  {
    assert r.hashed + [] == r.hashed;
  }

  /** What `boot` hands to the event loop, for every chip, policy and outcome of the reads. */
  lemma BootedExactly(chip: Chips.Chip, maxFailed: nat, lockSeconds: int, clockOk: bool, readOk: bool,
                      w: Chips.PageWrite, readable: seq<bool>)
    requires maxFailed < 256 && Chips.Fits(w, Ring.SLOT_SIZE) && |readable| == 5
    ensures var d := App.BootedDevice(chip, maxFailed, lockSeconds, clockOk, readOk, w, readable);
            var found := Chips.Booted(chip, true).found;
            && d.gate.ac.clockTrusted == clockOk && d.gate.ui == Ui.State(Ui.Dark, 0, 0, 0, clockOk)
            && (forall i :: 0 <= i < 10 ==> d.gate.buf[i] == NUL)
            && d.gate.ac.maxFailedAttempts == maxFailed && d.gate.ac.lockoutSeconds == lockSeconds
            && (if readOk && found.Some?
                then d.gate.ac.failedAttempts == found.value.attempts
                     && d.gate.ac.lockoutUntil == found.value.lockoutUntil
                else d.gate.ac.failedAttempts == 0 && d.gate.ac.lockoutUntil == 0 && d.bootCount == 1)
            && (!readOk ==> d.store.chip == chip && forall i :: 0 <= i < 5 ==> !d.gate.ac.slots[i].occupied)
  {
    hide Chips.RingSaved, Chips.CodesLoaded, Zeros;
  }

  /** The run a boot starts. */
  function FromBoot(d: App.Device, epoch: int): Run {
    Run(d.gate, "", [], epoch)
  }

  /** It is one of the runs studied in `EntryBuffer`, the first event being the boot's verdict on the clock. */
  lemma BootBegins(chip: Chips.Chip, maxFailed: nat, lockSeconds: int, clockOk: bool, readOk: bool,
                   w: Chips.PageWrite, readable: seq<bool>, epoch: nat, events: seq<Event>, hash: Hasher)
    requires maxFailed < 256 && Chips.Fits(w, Ring.SLOT_SIZE) && |readable| == 5
    ensures var d := App.BootedDevice(chip, maxFailed, lockSeconds, clockOk, readOk, w, readable);
            After(FromBoot(d, epoch), events, hash) == After(Begin(d.gate.ac, epoch), [Trust(clockOk)] + events, hash)
  {
    hide App.BootedDevice, Zeros;
    BootedExactly(chip, maxFailed, lockSeconds, clockOk, readOk, w, readable);
    var d := App.BootedDevice(chip, maxFailed, lockSeconds, clockOk, readOk, w, readable);
    AfterSplit(Begin(d.gate.ac, epoch), [Trust(clockOk)], events, hash);
    OneStep(Begin(d.gate.ac, epoch), Trust(clockOk), hash);
    assert d.gate.buf == WIPED;
    assert Step(Begin(d.gate.ac, epoch), Trust(clockOk), hash) == FromBoot(d, epoch);
  }

  /** After a boot whose clock is not trusted, whatever the chip held and however it read, no event
      of any run opens the door, hashes anything or changes the counter or the deadline, until the
      clock is declared good. */
  lemma {:induction false} UntrustedBootRefuses(chip: Chips.Chip, maxFailed: nat, lockSeconds: int, readOk: bool,
                                                w: Chips.PageWrite, readable: seq<bool>, epoch: int,
                                                events: seq<Event>, hash: Hasher)
    requires maxFailed < 256 && Chips.Fits(w, Ring.SLOT_SIZE) && |readable| == 5
    requires forall k :: 0 <= k < |events| ==> StaysUntrusted(events[k])
    ensures var d := App.BootedDevice(chip, maxFailed, lockSeconds, false, readOk, w, readable);
            var r := After(FromBoot(d, epoch), events, hash);
            && Untrusted(r.gate) && r.hashed == [] && r.accepted == ""
            && r.gate.ac.failedAttempts == d.gate.ac.failedAttempts
            && r.gate.ac.lockoutUntil == d.gate.ac.lockoutUntil
            && forall k :: 0 <= k < |events| ==>
                 OutputOf(After(FromBoot(d, epoch), events[..k], hash), events[k], hash) == NOTHING
  {
    hide Step, OutputOf, App.BootedDevice;
    var d := App.BootedDevice(chip, maxFailed, lockSeconds, false, readOk, w, readable);
    if events == [] {
      BootedExactly(chip, maxFailed, lockSeconds, false, readOk, w, readable);
    } else {
      var n := |events| - 1;
      UntrustedBootRefuses(chip, maxFailed, lockSeconds, readOk, w, readable, epoch, events[..n], hash);
      UntrustedStep(After(FromBoot(d, epoch), events[..n], hash), events[n], hash);
      assert forall k :: 0 <= k < n ==> events[..n][..k] == events[..k];
    }
  }
}
