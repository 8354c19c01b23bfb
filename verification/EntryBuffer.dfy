/** What is in the typed buffer, over every run, and when the door opens. */
module EntryBuffer {
  import opened Bytes
  import opened AccessCore
  import opened GateCtrl
  import Decision = AccessTable
  import Ui

  datatype Event =
    | Key(key: char, now: Ui.Now)
    | LongPress(now: Ui.Now)
    | Tick(now: Ui.Now)
    | Trust(trusted: bool)
    | TableChange(slots: Table)
    | Reboot(restored: Access)

  /** A run so far: the gate, every accepted key, every hashed string, and the epoch read last. */
  datatype Run = Run(gate: Gate, accepted: string, hashed: seq<string>, epoch: int)

  /** A key is accepted when the clock is trusted and no lockout is in force. */
  predicate Accepts(g: Gate, now: Ui.Now) {
    g.ui.clockTrusted && !LockedOut(g.ac, now.epoch)
  }

  function Step(r: Run, e: Event, hash: Hasher): Run {
    match e
    case Key(key, now) =>
      var (g, out) := Keyed(r.gate, key, now, hash);
      Run(g, if Accepts(r.gate, now) then r.accepted + [key] else r.accepted, r.hashed + out.hashed, now.epoch)
    case LongPress(now) => r.(gate := LongPressed(r.gate, now), epoch := now.epoch)
    case Tick(now) => r.(gate := GateTicked(r.gate, now).0, epoch := now.epoch)
    case Trust(trusted) =>
      r.(gate := r.gate.(ac := r.gate.ac.(clockTrusted := trusted), ui := Ui.TrustSet(r.gate.ui, trusted)))
    case TableChange(slots) => r.(gate := r.gate.(ac := r.gate.ac.(slots := slots)))
    case Reboot(restored) => r.(gate := Gate(restored, Ui.START, WIPED))
  }

  function After(r: Run, events: seq<Event>, hash: Hasher): Run {
    if events == [] then r else Step(After(r, events[..|events| - 1], hash), events[|events| - 1], hash)
  }

  /** A boot, at some time after 1970. */
  function Begin(a: Access, epoch: nat): Run {
    Run(Gate(a, Ui.START, WIPED), "", [], epoch)
  }

  /** Keys are characters and the wall clock reads 1970 or later. */
  predicate Plausible(e: Event) {
    match e
    case Key(key, now) => key != NUL && 0 <= now.epoch
    case LongPress(now) => 0 <= now.epoch
    case Tick(now) => 0 <= now.epoch
    case _ => true
  }

  /** No entry is open, or the wall clock has not stepped back into a lockout. */
  predicate NoLockoutMidEntry(g: Gate, now: Ui.Now) {
    g.ui.entryLen == 0 || !LockedOut(g.ac, now.epoch)
  }

  /** And an open entry is disturbed neither by such a step back nor by losing the clock's trust. */
  predicate Orderly(r: Run, e: Event) {
    && Plausible(e)
    && match e
       case Key(_, now) => NoLockoutMidEntry(r.gate, now)
       case LongPress(now) => NoLockoutMidEntry(r.gate, now)
       case Tick(now) => NoLockoutMidEntry(r.gate, now)
       case Trust(trusted) => trusted || r.gate.ui.entryLen == 0
       case _ => true
  }

  predicate OrderlyRun(r: Run, events: seq<Event>, hash: Hasher) {
    events != [] ==>
      && OrderlyRun(r, events[..|events| - 1], hash)
      && Orderly(After(r, events[..|events| - 1], hash), events[|events| - 1])
  }

  /** The keys of the current entry. */
  function CurrentEntry(r: Run): string
    requires r.gate.ui.entryLen <= |r.accepted|
  {
    r.accepted[|r.accepted| - r.gate.ui.entryLen..]
  }

  /** The entry buffer invariant. */
  ghost predicate Inv(r: Run) {
    var u := r.gate.ui;
    && 0 <= r.epoch
    && u.entryLen <= 8 && u.entryLen <= |r.accepted|
    && (u.entryLen > 0 <==> u.screen == Ui.Entry)
    && (u.entryLen > 0 ==> u.clockTrusted && !LockedOut(r.gate.ac, r.epoch))
    && r.gate.buf == CurrentEntry(r) + Zeros(10 - u.entryLen)
    && (forall i :: 0 <= i < |r.accepted| ==> r.accepted[i] != NUL)
  }

  lemma {:induction false} CStrOfText(s: string, n: nat)
    requires forall i :: 0 <= i < |s| ==> s[i] != NUL
    ensures n > 0 ==> CStr(s + Zeros(n)) == s
  {
    if n == 0 {
    } else {
      if s == "" {
        assert (s + Zeros(n))[0] == NUL;
      } else {
        CStrOfText(s[1..], n);
        assert (s + Zeros(n))[1..] == s[1..] + Zeros(n);
      }
    }
  }

  /** An accepted key goes to the end of the entry. */
  lemma KeyExtends(r: Run, key: char, now: Ui.Now)
    requires Inv(r) && key != NUL && Accepts(r.gate, now)
    ensures var (ui, act) := Ui.Keyed(r.gate.ui, r.gate.ac, now);
            && ui.entryLen == r.gate.ui.entryLen + 1
            && (act == Ui.Submit <==> ui.entryLen == 9)
            && var clean: Buffer := if ui.entryLen == 1 then WIPED else r.gate.buf;
               clean[ui.entryLen - 1 := key] == CurrentEntry(r) + [key] + Zeros(9 - r.gate.ui.entryLen)
  {
    var n := r.gate.ui.entryLen;
    assert CurrentEntry(r) + [key] + Zeros(9 - n) == (CurrentEntry(r) + Zeros(10 - n))[n := key];
    if n == 0 {
      assert CurrentEntry(r) == "";
      assert WIPED == CurrentEntry(r) + Zeros(10);
    }
  }

  lemma KeyKeepsInv(r: Run, key: char, now: Ui.Now, hash: Hasher)
    requires Inv(r) && Orderly(r, Key(key, now))
    ensures var s := Step(r, Key(key, now), hash);
            && Inv(s)
            && (s.hashed == r.hashed || (|s.accepted| >= 9 && s.hashed == r.hashed + [s.accepted[|s.accepted| - 9..]]))
  {
    hide Evaluated, CStr, Zeros, LockedOut;
    var s := Step(r, Key(key, now), hash);
    if !Accepts(r.gate, now) {
      RefusedKeepsInv(r, key, now, hash);
    } else {
      KeyExtends(r, key, now);
      var entry := CurrentEntry(r) + [key];
      assert entry == s.accepted[|s.accepted| - |entry|..];
      if |entry| == 9 {
        NinthKeySubmits(r, key, now, hash);
        EmptyEntry(s);
      }
    }
  }

  lemma RefusedKeepsInv(r: Run, key: char, now: Ui.Now, hash: Hasher)
    requires Inv(r) && Orderly(r, Key(key, now)) && !Accepts(r.gate, now)
    ensures Inv(Step(r, Key(key, now), hash)) && Step(r, Key(key, now), hash).hashed == r.hashed
  {
    hide Evaluated, Zeros;
    var s := Step(r, Key(key, now), hash);
    assert r.gate.ui.entryLen == 0 && CurrentEntry(r) == "";
    EmptyZeros(r.gate.buf);
    EmptyEntry(s);
    assert s.hashed == r.hashed + [] == r.hashed;
  }

  /** With no entry open and the buffer wiped, the invariant holds. */
  lemma EmptyEntry(r: Run)
    requires 0 <= r.epoch && r.gate.ui.entryLen == 0 && r.gate.ui.screen != Ui.Entry && r.gate.buf == WIPED
    requires forall i :: 0 <= i < |r.accepted| ==> r.accepted[i] != NUL
    ensures Inv(r)
  {
    hide LockedOut;
    assert CurrentEntry(r) == "";
    assert "" + Zeros(10) == WIPED;
  }

  lemma QuietKeepsInv(r: Run, e: Event, hash: Hasher)
    requires Inv(r) && Orderly(r, e) && !e.Key?
    ensures Inv(Step(r, e, hash)) && Step(r, e, hash).hashed == r.hashed
  {
    hide Zeros;
    var s := Step(r, e, hash);
    assert s.accepted == r.accepted;
    if r.gate.ui.entryLen == 0 {
      assert CurrentEntry(r) == "";
      EmptyZeros(r.gate.buf);
    }
    if s.gate.ui.entryLen == 0 {
      EmptyEntry(s);
    } else {
      assert s.gate.ui == r.gate.ui && CurrentEntry(s) == CurrentEntry(r);
    }
  }

  lemma EmptyZeros(b: string)
    requires b == "" + Zeros(10)
    ensures b == WIPED
  {
  }

  lemma {:induction false} RunKeepsInv(a: Access, epoch: nat, events: seq<Event>, hash: Hasher)
    requires OrderlyRun(Begin(a, epoch), events, hash)
    ensures Inv(After(Begin(a, epoch), events, hash))
  {
    hide Step, Inv, Orderly;
    if events == [] {
      BeginInv(a, epoch);
    } else {
      var front, e := events[..|events| - 1], events[|events| - 1];
      RunKeepsInv(a, epoch, front, hash);
      var r := After(Begin(a, epoch), front, hash);
      if e.Key? {
        KeyKeepsInv(r, e.key, e.now, hash);
      } else {
        QuietKeepsInv(r, e, hash);
      }
    }
  }

  lemma BeginInv(a: Access, epoch: nat)
    ensures Inv(Begin(a, epoch))
  {
    hide Inv, LockedOut, Zeros;
    EmptyEntry(Begin(a, epoch));
  }

  /** In every orderly run the buffer is exactly the keys of the current entry followed by zeros,
      and a lockout in force leaves nothing typed behind. */
  lemma BufferIsTheEntry(a: Access, epoch: nat, events: seq<Event>, hash: Hasher)
    requires OrderlyRun(Begin(a, epoch), events, hash)
    ensures var r := After(Begin(a, epoch), events, hash);
            && r.gate.ui.entryLen <= 8 && r.gate.ui.entryLen <= |r.accepted|
            && r.gate.buf == CurrentEntry(r) + Zeros(10 - r.gate.ui.entryLen)
            && (LockedOut(r.gate.ac, r.epoch) ==> r.gate.ui.entryLen == 0 && r.gate.buf == WIPED)
  {
    hide Zeros, After, OrderlyRun, LockedOut;
    RunKeepsInv(a, epoch, events, hash);
    var r := After(Begin(a, epoch), events, hash);
    if r.gate.ui.entryLen == 0 {
      assert CurrentEntry(r) == "";
      EmptyZeros(r.gate.buf);
    }
  }

  /** And every string that reaches the hash function is exactly the last nine accepted keys. */
  lemma HashedIsLastNineKeys(a: Access, epoch: nat, events: seq<Event>, e: Event, hash: Hasher)
    requires OrderlyRun(Begin(a, epoch), events + [e], hash)
    ensures var r, s := After(Begin(a, epoch), events, hash), After(Begin(a, epoch), events + [e], hash);
            s.hashed == r.hashed || (|s.accepted| >= 9 && s.hashed == r.hashed + [s.accepted[|s.accepted| - 9..]])
  {
    hide Step, Inv, Orderly;
    assert (events + [e])[..|events|] == events;
    RunKeepsInv(a, epoch, events, hash);
    var r := After(Begin(a, epoch), events, hash);
    if e.Key? {
      KeyKeepsInv(r, e.key, e.now, hash);
    } else {
      QuietKeepsInv(r, e, hash);
    }
  }

  // ---- when the door opens ----

  /** What the caller is told after an event. */
  function OutputOf(r: Run, e: Event, hash: Hasher): Out {
    match e
    case Key(key, now) => Keyed(r.gate, key, now, hash).1
    case Tick(now) => GateTicked(r.gate, now).1
    case _ => NOTHING
  }

  /** A key completes an entry exactly when it is accepted as the ninth; what is then evaluated is
      the hash of the nine keys, and nothing of them is left in the buffer. */
  lemma NinthKeySubmits(r: Run, key: char, now: Ui.Now, hash: Hasher)
    requires Inv(r) && Orderly(r, Key(key, now))
    ensures var (g, out) := Keyed(r.gate, key, now, hash);
            var typed := CurrentEntry(r) + [key];
            && (out.submitted <==> Accepts(r.gate, now) && |typed| == 9)
            && (!out.submitted ==> out == NOTHING)
            && (out.submitted ==>
                  (out.hashed == [typed] && g.buf == WIPED && out.openLock == (out.verdict == Granted)
                   && g.ac == Evaluated(r.gate.ac, hash(typed), now.epoch).0
                   && out.verdict == Evaluated(r.gate.ac, hash(typed), now.epoch).1
                   && out.matchedId == MatchedId(r.gate.ac, hash(typed), now.epoch)))
  {
    hide Evaluated, CStr;
    if Accepts(r.gate, now) {
      KeyExtends(r, key, now);
      var entry := CurrentEntry(r) + [key];
      if r.gate.ui.entryLen == 8 {
        assert (entry + Zeros(1))[9 := NUL] == entry + Zeros(1);
        assert forall i :: 0 <= i < 9 ==> entry[i] != NUL;
        CStrOfText(entry, 1);
      }
    }
  }

  /** The id of the slot an evaluation grants, or nothing. */
  function MatchedId(a: Access, h: Hash, now: int): IdText {
    var (b, _, m) := Evaluated(a, h, now);
    if 0 <= m < 5 then b.slots[m].id else ""
  }

  /** Slot `m` is the highest one holding the code, and its window contains `now`. */
  ghost predicate Opens(a: Access, h: Hash, now: int, m: nat) {
    Decision.IsLastMatch(a.slots, h, m) && a.slots[m].validFrom <= now <= a.slots[m].validUntil
  }

  lemma OpensExactly(r: Run, e: Event, hash: Hasher)
    requires Inv(r) && Orderly(r, e)
    ensures var out := OutputOf(r, e, hash);
            && r.gate.ui.entryLen <= |r.accepted|
            && (out.openLock <==>
                  (e.Key? && Accepts(r.gate, e.now) && r.gate.ui.entryLen == 8 && r.gate.ac.clockTrusted
                   && exists m: nat :: Opens(r.gate.ac, hash(CurrentEntry(r) + [e.key]), e.now.epoch, m)))
            && (out.openLock ==>
                  exists m: nat :: Opens(r.gate.ac, hash(CurrentEntry(r) + [e.key]), e.now.epoch, m)
                                   && out.matchedId == r.gate.ac.slots[m].id)
  {
    if e.Key? {
      NinthKeySubmits(r, e.key, e.now, hash);
      if Accepts(r.gate, e.now) {
        GrantNames(r.gate.ac, hash(CurrentEntry(r) + [e.key]), e.now.epoch);
      }
    }
  }

  /** A grant outside a lockout, and whose it is. */
  lemma GrantNames(a: Access, h: Hash, now: int)
    requires 0 <= now && !LockedOut(a, now)
    ensures Evaluated(a, h, now).1 == Granted <==> a.clockTrusted && exists m: nat :: Opens(a, h, now, m)
    ensures Evaluated(a, h, now).1 == Granted ==>
            exists m: nat :: Opens(a, h, now, m) && MatchedId(a, h, now) == a.slots[m].id
  {
    Decision.GrantExactly(a, h, now);
    if Evaluated(a, h, now).1 == Granted {
      Decision.GrantClears(a, h, now);
      var m: nat := Evaluated(a, h, now).2;
      assert Opens(a, h, now, m);
    }
  }

  /** The door opens for an event exactly when the event is the ninth accepted key of an entry, the
      clock is trusted by the table too, and the highest slot holding the hash of those nine keys
      has the time in its window; the caller is told that slot's id. */
  lemma DoorOpensExactly(a: Access, epoch: nat, events: seq<Event>, e: Event, hash: Hasher)
    requires OrderlyRun(Begin(a, epoch), events + [e], hash)
    ensures var r := After(Begin(a, epoch), events, hash);
            var out := OutputOf(r, e, hash);
            && r.gate.ui.entryLen <= |r.accepted|
            && (out.openLock <==>
                  (e.Key? && Accepts(r.gate, e.now) && r.gate.ui.entryLen == 8 && r.gate.ac.clockTrusted
                   && exists m: nat :: Opens(r.gate.ac, hash(CurrentEntry(r) + [e.key]), e.now.epoch, m)))
            && (out.openLock ==>
                  exists m: nat :: Opens(r.gate.ac, hash(CurrentEntry(r) + [e.key]), e.now.epoch, m)
                                   && out.matchedId == r.gate.ac.slots[m].id)
  {
    assert (events + [e])[..|events|] == events;
    RunKeepsInv(a, epoch, events, hash);
    OpensExactly(After(Begin(a, epoch), events, hash), e, hash);
  }

  // ---- why the run has to be orderly ----

  /** The wall clock does not step back, and trust is not withdrawn while an entry is open. */
  predicate Forward(r: Run, e: Event) {
    && Plausible(e)
    && match e
       case Key(_, now) => r.epoch <= now.epoch
       case LongPress(now) => r.epoch <= now.epoch
       case Tick(now) => r.epoch <= now.epoch
       case Trust(trusted) => trusted || r.gate.ui.entryLen == 0
       case _ => true
  }

  predicate ForwardRun(r: Run, events: seq<Event>, hash: Hasher) {
    events != [] ==>
      && ForwardRun(r, events[..|events| - 1], hash)
      && Forward(After(r, events[..|events| - 1], hash), events[|events| - 1])
  }

  lemma ForwardIsOrderly(r: Run, e: Event)
    requires Inv(r) && Forward(r, e)
    ensures Orderly(r, e)
  {
  }

  /** Such runs are orderly, so everything above holds of them. */
  lemma {:induction false} ForwardRunIsOrderly(a: Access, epoch: nat, events: seq<Event>, hash: Hasher)
    requires ForwardRun(Begin(a, epoch), events, hash)
    ensures OrderlyRun(Begin(a, epoch), events, hash)
  {
    hide Step, Inv, Orderly, Forward;
    if events == [] {
    } else {
      var front, e := events[..|events| - 1], events[|events| - 1];
      ForwardRunIsOrderly(a, epoch, front, hash);
      RunKeepsInv(a, epoch, front, hash);
      ForwardIsOrderly(After(Begin(a, epoch), front, hash), e);
    }
  }

  /** The invariant survives an event exactly when the event is orderly. */
  lemma InvSurvivesExactly(r: Run, e: Event, hash: Hasher)
    requires Inv(r) && Plausible(e)
    ensures Inv(Step(r, e, hash)) <==> Orderly(r, e)
  {
    hide Evaluated, Zeros;
    if Orderly(r, e) {
      if e.Key? {
        KeyKeepsInv(r, e.key, e.now, hash);
      } else {
        QuietKeepsInv(r, e, hash);
      }
    } else if e.Trust? {
      TrustWithdrawnMidEntry(r, hash);
    } else {
      StepBackBreaks(r, e, hash);
    }
  }

  /** A key or a long press leaves an entry open in a lockout; a tick forgets its length and leaves
      its screen. */
  lemma StepBackBreaks(r: Run, e: Event, hash: Hasher)
    requires Inv(r) && (e.Key? || e.LongPress? || e.Tick?) && !NoLockoutMidEntry(r.gate, e.now)
    ensures var s := Step(r, e, hash);
            && s.gate.ui.screen == Ui.Entry && LockedOut(s.gate.ac, s.epoch)
            && s.gate.ui.entryLen == (if e.Tick? then 0 else r.gate.ui.entryLen)
            && !Inv(s)
  {
    hide Evaluated, Zeros;
  }

  /** Over a whole run: the invariant holds after every event exactly when the run is orderly. */
  lemma {:induction false} RunInvExactly(a: Access, epoch: nat, events: seq<Event>, hash: Hasher)
    requires forall k :: 0 <= k < |events| ==> Plausible(events[k])
    ensures OrderlyRun(Begin(a, epoch), events, hash) <==>
            forall n :: 0 <= n <= |events| ==> Inv(After(Begin(a, epoch), events[..n], hash))
  {
    hide Step, Inv, Orderly, Plausible;
    var r0 := Begin(a, epoch);
    if events == [] {
      BeginInv(a, epoch);
    } else {
      var last := |events| - 1;
      var front := events[..last];
      RunInvExactly(a, epoch, front, hash);
      assert forall n :: 0 <= n <= last ==> events[..n] == front[..n];
      assert events[..|events|] == events && front[..last] == front;
      if Inv(After(r0, front, hash)) {
        InvSurvivesExactly(After(r0, front, hash), events[last], hash);
      }
    }
  }

  /** A tick after such a step back strands the typed keys: the length is gone, they are not. */
  lemma StepBackStrandsKeys(r: Run, now: Ui.Now, hash: Hasher)
    requires Inv(r) && !NoLockoutMidEntry(r.gate, now)
    ensures var s := Step(r, Tick(now), hash);
            && s.gate.ui.entryLen == 0 && s.gate.ui.screen == Ui.Entry
            && s.gate.buf == r.gate.buf && s.gate.buf[0] == CurrentEntry(r)[0] != NUL
  {
    hide Zeros;
    assert r.gate.buf[0] == CurrentEntry(r)[0];
  }

  /** Withdrawing trust empties the entry but not the buffer: the invariant survives it exactly
      when no entry is open. */
  lemma TrustWithdrawnMidEntry(r: Run, hash: Hasher)
    requires Inv(r)
    ensures Inv(Step(r, Trust(false), hash)) <==> r.gate.ui.entryLen == 0
  {
    var n := r.gate.ui.entryLen;
    var s := Step(r, Trust(false), hash);
    assert CurrentEntry(s) == "";
    if n > 0 {
      assert r.gate.buf[0] == CurrentEntry(r)[0] != NUL;
      assert (CurrentEntry(s) + Zeros(10))[0] == NUL;
    } else {
      assert WIPED == CurrentEntry(s) + Zeros(10) == CurrentEntry(r) + Zeros(10);
    }
  }

  /** If the wall clock steps back into an old lockout mid-entry, a key that is refused still
      overwrites the last one typed. */
  lemma StepBackOverwrites(r: Run, key: char, now: Ui.Now, hash: Hasher)
    requires Inv(r) && r.gate.ui.entryLen > 0 && LockedOut(r.gate.ac, now.epoch)
    ensures var s, n := Step(r, Key(key, now), hash), r.gate.ui.entryLen;
            && s.accepted == r.accepted && s.gate.ui == r.gate.ui
            && s.gate.buf == (if n == 1 then WIPED else r.gate.buf)[n - 1 := key]
            && (s.gate.buf == r.gate.buf <==> key == r.accepted[|r.accepted| - 1])
  {
    var n := r.gate.ui.entryLen;
    var s := Step(r, Key(key, now), hash);
    assert r.gate.buf[n - 1] == CurrentEntry(r)[n - 1] == r.accepted[|r.accepted| - 1];
    assert s.gate.buf[n - 1] == key;
    if n == 1 {
      assert forall i :: 1 <= i < 10 ==> r.gate.buf[i] == NUL;
    }
    if key == r.accepted[|r.accepted| - 1] {
      assert s.gate.buf == r.gate.buf;
    }
  }
}
