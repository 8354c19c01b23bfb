/** What the key events say about the scans, over every scan sequence. */
module KeypadTrace {
  import opened Bytes
  import opened Clock32
  import opened KeypadLogic

  /** A scan of the matrix, stamped with the real time in milliseconds since boot. */
  datatype Scan = Scan(raw: Bitmap, at: nat)

  function After(scans: seq<Scan>): Keypad {
    if scans == [] then RELEASED
    else
      var last := scans[|scans| - 1];
      Updated(After(scans[..|scans| - 1]), last.raw, Clock(last.at)).0
  }

  /** The events scan `i` produces. */
  function EventsAt(scans: seq<Scan>, i: nat): seq<Event>
    requires i < |scans|
  {
    Updated(After(scans[..i]), scans[i].raw, Clock(scans[i].at)).1
  }

  ghost predicate InOrder(scans: seq<Scan>) {
    forall i, j :: 0 <= i < j < |scans| ==> scans[i].at <= scans[j].at
  }

  /** Every scan from `j` on reads exactly `bits`. */
  ghost predicate ReadsOnly(scans: seq<Scan>, j: nat, bits: Bitmap) {
    forall m :: j <= m < |scans| ==> scans[m].raw == bits
  }

  /** A pending candidate other than "nothing" is backed by an unbroken run of scans. */
  ghost predicate CandidateBacked(scans: seq<Scan>, st: Keypad) {
    st.pending && st.candidate != {} ==>
      exists j :: 0 <= j < |scans| && st.candidateSinceMs == Clock(scans[j].at) && ReadsOnly(scans, j, st.candidate)
  }

  /** Scan `p` produced the press of `k` and nothing has been produced since. */
  ghost predicate LastIsPress(scans: seq<Scan>, p: nat, k: nat) {
    && k < 16 && p < |scans|
    && EventsAt(scans, p) == [Press(KeyChar(k))]
    && forall m :: p < m < |scans| ==> EventsAt(scans, m) == []
  }

  /** A held key whose long press has not fired yet is the last thing reported. */
  ghost predicate HeldBacked(scans: seq<Scan>, st: Keypad) {
    0 <= st.held && !st.longFired ==>
      exists p :: 0 <= p < |scans| && LastIsPress(scans, p, st.held) && st.pressStartedMs == Clock(scans[p].at)
  }

  ghost predicate Shape(st: Keypad) {
    && |st.stable| <= 1
    && (st.pending ==> |st.candidate| <= 1 && st.candidate != st.stable)
    && -1 <= st.held < 16
    && (0 <= st.held <==> st.stable != {})
    && (0 <= st.held ==> st.stable == {st.held as nat})
  }

  lemma AtMostOne(s: set<nat>, k: nat)
    requires |s| <= 1 && k in s
    ensures s == {k}
  {
    assert |s - {k}| == |s| - 1;
    assert s - {k} == {};
  }

  lemma AcceptedShape(st: Keypad, now: u32)
    requires Shape(st) && st.pending
    ensures Shape(Accepted(st, now).0)
    ensures Accepted(st, now).1 != [] ==>
              (st.candidate != {} && Accepted(st, now).0.held >= 0 &&
               Accepted(st, now).1 == [Press(KeyChar(Accepted(st, now).0.held))] &&
               Accepted(st, now).0.pressStartedMs == now && !Accepted(st, now).0.longFired)
    ensures Accepted(st, now).1 == [] ==> Accepted(st, now).0.held < 0
  {
    var down: Bitmap := st.candidate - st.stable;
    var idx := LowestFrom(down, 0);
    if st.candidate != {} {
      var k :| k in st.candidate;
      AtMostOne(st.candidate, k);
      if st.stable != {} {
        assert st.stable == {st.held as nat};
      }
      assert k in down;
      assert down == {k} && idx == k;
    }
  }

  lemma UpdatedShape(st: Keypad, raw: Bitmap, now: u32)
    requires Shape(st)
    ensures Shape(Updated(st, raw, now).0)
  {
    var g := GhostChecked(st, raw);
    var seen: Bitmap := if g.ghostBlocked then {} else raw;
    if seen != g.stable && g.pending && seen == g.candidate && Elapsed(now, g.candidateSinceMs, DEBOUNCE_MS) {
      AcceptedShape(g, now);
    }
  }

  /** The accepted bitmap never has more than one bit. */
  lemma {:induction false} AcceptedAtMostOneKey(scans: seq<Scan>)
    ensures Shape(After(scans)) && |After(scans).stable| <= 1
  {
    hide Updated;
    if scans == [] {
    } else {
      AcceptedAtMostOneKey(scans[..|scans| - 1]);
      var last := scans[|scans| - 1];
      UpdatedShape(After(scans[..|scans| - 1]), last.raw, Clock(last.at));
    }
  }

  /** One scan keeps a non-empty candidate backed. */
  lemma CandidateStep(front: seq<Scan>, s: Scan, st: Keypad)
    requires CandidateBacked(front, st)
    ensures CandidateBacked(front + [s], Updated(st, s.raw, Clock(s.at)).0)
  {
    var all := front + [s];
    var u := Updated(st, s.raw, Clock(s.at)).0;
    if u.pending && u.candidate != {} {
      if st.pending && u.candidate == st.candidate && u.candidateSinceMs == st.candidateSinceMs
          && s.raw == st.candidate {
        var j :| 0 <= j < |front| && st.candidateSinceMs == Clock(front[j].at) && ReadsOnly(front, j, st.candidate);
        assert all[j] == front[j];
        assert ReadsOnly(all, j, u.candidate);
      } else {
        assert all[|front|] == s;
        assert ReadsOnly(all, |front|, u.candidate);
      }
    }
  }

  lemma {:induction false} RunCandidateBacked(scans: seq<Scan>)
    ensures CandidateBacked(scans, After(scans))
  {
    hide Updated, CandidateBacked;
    if scans == [] {
      NothingPending();
    } else {
      var front, s := scans[..|scans| - 1], scans[|scans| - 1];
      RunCandidateBacked(front);
      CandidateStep(front, s, After(front));
      assert front + [s] == scans;
    }
  }

  lemma NothingPending()
    ensures CandidateBacked([], RELEASED)
  {
  }

  /** What a press says about the state it came from. */
  lemma PressComesFrom(st: Keypad, raw: Bitmap, now: u32, c: char)
    requires Shape(st) && Press(c) in Updated(st, raw, now).1
    ensures exists k: nat :: k < 16 && c == KeyChar(k) && st.pending && st.candidate == {k} && raw == {k}
                      && Elapsed(now, st.candidateSinceMs, DEBOUNCE_MS)
  {
    var g := GhostChecked(st, raw);
    var seen: Bitmap := if g.ghostBlocked then {} else raw;
    var (d, e) := Debounced(g, seen, now);
    assert Press(c) in e;
    AcceptedShape(g, now);
    var k := LowestFrom(g.candidate - g.stable, 0);
    AtMostOne(g.candidate, k);
    assert c == KeyChar(k) && raw == {k as nat};
  }

  /** Every press is backed by an unbroken suffix of scans that read only that key and span at
      least the debounce time. */
  lemma PressIsBacked(scans: seq<Scan>, i: nat, c: char)
    requires InOrder(scans) && i < |scans| && Press(c) in EventsAt(scans, i)
    ensures exists k: nat, j :: k < 16 && c == KeyChar(k) && 0 <= j <= i
                      && (forall m :: j <= m <= i ==> scans[m].raw == {k})
                      && scans[i].at - scans[j].at >= 15
  {
    hide Updated, Elapsed;
    var front := scans[..i];
    var st := After(front);
    AcceptedAtMostOneKey(front);
    RunCandidateBacked(front);
    PressComesFrom(st, scans[i].raw, Clock(scans[i].at), c);
    var k: nat :| k < 16 && c == KeyChar(k) && st.pending && st.candidate == {k} && scans[i].raw == {k}
      && Elapsed(Clock(scans[i].at), st.candidateSinceMs, DEBOUNCE_MS);
    var j :| 0 <= j < |front| && st.candidateSinceMs == Clock(front[j].at) && ReadsOnly(front, j, st.candidate);
    ElapsedIsReal(scans[j].at, scans[i].at, DEBOUNCE_MS);
    forall m | j <= m <= i
      ensures scans[m].raw == {k}
    {
      if m < i {
        assert front[m] == scans[m];
      }
    }
  }

  // ---- the long press ----

  /** Debouncing reports nothing, or exactly the press it just accepted. */
  lemma DebouncedAre(st: Keypad, raw: Bitmap, now: u32)
    requires Shape(st)
    ensures var (d, e) := Debounced(st, raw, now);
            || (e == [] && d.held < 0)
            || (e == [] && d.held == st.held && d.longFired == st.longFired && d.pressStartedMs == st.pressStartedMs)
            || (0 <= d.held < 16 && e == [Press(KeyChar(d.held))] && !d.longFired && d.pressStartedMs == now)
  {
    hide Accepted, Elapsed;
    if raw != st.stable && st.pending && raw == st.candidate && Elapsed(now, st.candidateSinceMs, DEBOUNCE_MS) {
      AcceptedShape(st, now);
    }
  }

  /** The three things one scan can report. */
  lemma EventsAre(st: Keypad, raw: Bitmap, now: u32)
    requires Shape(st)
    ensures var (u, e) := Updated(st, raw, now);
            || (e == [] && u.held < 0)
            || (e == [] && u.held == st.held && u.longFired == st.longFired && u.pressStartedMs == st.pressStartedMs)
            || (0 <= u.held && e == [Press(KeyChar(u.held))] && !u.longFired && u.pressStartedMs == now)
            || (0 <= st.held && !st.longFired && u.longFired && e == [LongPress(KeyChar(st.held))]
                && Elapsed(now, st.pressStartedMs, LONGPRESS_MS))
  {
    hide Debounced;
    var g := GhostChecked(st, raw);
    var seen: Bitmap := if g.ghostBlocked then {} else raw;
    DebouncedAre(g, seen, now);
    JustNow(now);
    hide Elapsed, Shape;
    var (d, e) := Debounced(g, seen, now);
    var (l, f) := LongChecked(d, now);
    assert e + [] == e && [] + f == f;
  }

  lemma JustNow(now: u32)
    ensures !Elapsed(now, now, LONGPRESS_MS)
  {
  }

  lemma EventsAtPrefix(scans: seq<Scan>, n: nat, i: nat)
    requires i < n <= |scans|
    ensures EventsAt(scans[..n], i) == EventsAt(scans, i)
  {
    assert scans[..n][..i] == scans[..i];
  }

  lemma {:induction false} RunHeldBacked(scans: seq<Scan>)
    ensures HeldBacked(scans, After(scans))
  {
    hide Updated, EventsAt, LastIsPress, Shape;
    if scans == [] {
    } else {
      var front, s := scans[..|scans| - 1], scans[|scans| - 1];
      RunHeldBacked(front);
      AcceptedAtMostOneKey(front);
      HeldStep(scans);
    }
  }

  lemma PressStillLast(scans: seq<Scan>, p: nat, k: nat)
    requires scans != [] && LastIsPress(scans[..|scans| - 1], p, k)
    requires EventsAt(scans, |scans| - 1) == []
    ensures LastIsPress(scans, p, k)
  {
    hide Updated, EventsAt;
    var n := |scans| - 1;
    forall m | p <= m < n
      ensures EventsAt(scans, m) == EventsAt(scans[..n], m)
    {
      EventsAtPrefix(scans, n, m);
    }
  }

  lemma HeldStep(scans: seq<Scan>)
    requires scans != []
    requires Shape(After(scans[..|scans| - 1])) && HeldBacked(scans[..|scans| - 1], After(scans[..|scans| - 1]))
    ensures HeldBacked(scans, After(scans))
  {
    hide Updated, LastIsPress, Shape, Elapsed;
    var n := |scans| - 1;
    var front, s := scans[..n], scans[n];
    var st, u := After(front), After(scans);
    EventsAre(st, s.raw, Clock(s.at));
    if 0 <= u.held && !u.longFired {
      if EventsAt(scans, n) == [] {
        var p :| 0 <= p < |front| && LastIsPress(front, p, st.held) && st.pressStartedMs == Clock(front[p].at);
        PressStillLast(scans, p, st.held);
      } else {
        UpdatedShape(st, s.raw, Clock(s.at));
        JustPressed(scans, u.held);
      }
    }
  }

  lemma JustPressed(scans: seq<Scan>, k: int)
    requires scans != [] && 0 <= k && Shape(After(scans)) && After(scans).held == k
    requires EventsAt(scans, |scans| - 1) == [Press(KeyChar(k))]
    ensures LastIsPress(scans, |scans| - 1, k)
  {
    hide Updated;
  }

  /** Every long press follows a press of the same key with nothing reported in between, at least
      the long-press time later, and is reported alone. */
  lemma LongPressFollowsPress(scans: seq<Scan>, i: nat, c: char)
    requires InOrder(scans) && i < |scans| && LongPress(c) in EventsAt(scans, i)
    ensures EventsAt(scans, i) == [LongPress(c)]
    ensures exists p :: 0 <= p < i && EventsAt(scans, p) == [Press(c)]
                  && (forall m :: p < m < i ==> EventsAt(scans, m) == [])
                  && scans[i].at - scans[p].at >= 1500
  {
    hide Updated, Elapsed;
    var front := scans[..i];
    var st := After(front);
    AcceptedAtMostOneKey(front);
    RunHeldBacked(front);
    EventsAre(st, scans[i].raw, Clock(scans[i].at));
    assert EventsAt(scans, i) == [LongPress(KeyChar(st.held))];
    var p :| 0 <= p < |front| && LastIsPress(front, p, st.held) && st.pressStartedMs == Clock(front[p].at);
    forall m | p <= m < i
      ensures EventsAt(scans, m) == EventsAt(front, m)
    {
      EventsAtPrefix(scans, i, m);
    }
    ElapsedIsReal(scans[p].at, scans[i].at, LONGPRESS_MS);
  }

  // ---- and a clean press is not missed ----

  /** Nothing is held, and `k` has been waiting since the clock read `since`. */
  ghost predicate Waiting(st: Keypad, k: nat, since: u32) {
    && k < 16 && st.stable == {} && !st.ghostBlocked && st.held < 0
    && st.pending && st.candidate == {k} && st.candidateSinceMs == since
  }

  ghost predicate Free(st: Keypad) {
    st.stable == {} && !st.pending && !st.ghostBlocked && st.held < 0
  }

  lemma StartsWaiting(st: Keypad, k: nat, now: u32)
    requires Free(st) && k < 16
    ensures Waiting(Updated(st, {k}, now).0, k, now)
  {
  }

  lemma KeepsWaiting(st: Keypad, k: nat, since: u32, now: u32)
    requires Waiting(st, k, since)
    ensures if Elapsed(now, since, DEBOUNCE_MS) then Updated(st, {k}, now).1 == [Press(KeyChar(k))]
            else Waiting(Updated(st, {k}, now).0, k, since)
  {
    var bits: Bitmap := {k};
    assert |bits| == 1;
    if Elapsed(now, since, DEBOUNCE_MS) {
      assert st.candidate - st.stable == bits;
      assert LowestFrom(bits, 0) in bits;
      assert !Elapsed(now, now, LONGPRESS_MS);
    }
  }

  lemma {:induction false} CleanRun(scans: seq<Scan>, n: nat, k: nat)
    requires InOrder(scans) && k < 16 && n < |scans|
    requires ReadsOnly(scans, n, {k}) && Free(After(scans[..n]))
    requires scans[|scans| - 1].at - scans[n].at < DEBOUNCE_MS
    ensures Waiting(After(scans), k, Clock(scans[n].at))
    decreases |scans|
  {
    hide Updated, Waiting, Free, Elapsed;
    var last := |scans| - 1;
    var front := scans[..last];
    if n < last {
      assert front[..n] == scans[..n];
      CleanRun(front, n, k);
      ElapsedExactly(scans[n].at, scans[last].at, DEBOUNCE_MS);
      KeepsWaiting(After(front), k, Clock(scans[n].at), Clock(scans[last].at));
    } else {
      StartsWaiting(After(front), k, Clock(scans[n].at));
    }
  }

  /** From a released keypad, scans that read only `k` report its press at the first scan that is
      the debounce time or more after the first of them, and no later. */
  lemma CleanPressIsReported(scans: seq<Scan>, n: nat, i: nat, k: nat)
    requires InOrder(scans) && k < 16 && n < i < |scans|
    requires forall m :: n <= m <= i ==> scans[m].raw == {k}
    requires Free(After(scans[..n]))
    requires scans[i - 1].at - scans[n].at < DEBOUNCE_MS <= scans[i].at - scans[n].at < WORD
    ensures EventsAt(scans, i) == [Press(KeyChar(k))]
  {
    hide Updated, Waiting, Free, Elapsed, After;
    var front := scans[..i];
    assert front[..n] == scans[..n];
    CleanRun(front, n, k);
    ElapsedExactly(scans[n].at, scans[i].at, DEBOUNCE_MS);
    KeepsWaiting(After(front), k, Clock(scans[n].at), Clock(scans[i].at));
  }

  // ---- several keys at once ----

  /** Two keys in one scan block interpretation for as long as no scan reads empty. */
  lemma {:induction false} StaysBlocked(scans: seq<Scan>, g: nat)
    requires g < |scans| && |scans[g].raw| > 1
    requires forall m :: g <= m < |scans| ==> scans[m].raw != {}
    ensures After(scans).ghostBlocked
    decreases |scans|
  {
    hide Debounced, LongChecked;
    var last := |scans| - 1;
    UpdatedBlocked(After(scans[..last]), scans[last].raw, Clock(scans[last].at));
    if g == last {
    } else {
      StaysBlocked(scans[..last], g);
    }
  }

  lemma UpdatedBlocked(st: Keypad, raw: Bitmap, now: u32)
    ensures Updated(st, raw, now).0.ghostBlocked <==> |raw| > 1 || (st.ghostBlocked && raw != {})
  {
  }

  /** So once a scan has read more than one key, no press is reported until everything is let go. */
  lemma GhostBlocksPresses(scans: seq<Scan>, g: nat, i: nat, c: char)
    requires g <= i < |scans| && |scans[g].raw| > 1
    requires forall m :: g <= m <= i ==> scans[m].raw != {}
    ensures Press(c) !in EventsAt(scans, i)
  {
    hide Updated, Elapsed;
    var st := After(scans[..i]);
    AcceptedAtMostOneKey(scans[..i]);
    if Press(c) in EventsAt(scans, i) {
      PressComesFrom(st, scans[i].raw, Clock(scans[i].at), c);
      if g < i {
        StaysBlocked(scans[..i], g);
        BlockedReportsNoPress(st, scans[i].raw, Clock(scans[i].at), c);
      }
    }
  }

  lemma BlockedReportsNoPress(st: Keypad, raw: Bitmap, now: u32, c: char)
    requires Shape(st) && st.ghostBlocked && raw != {}
    ensures Press(c) !in Updated(st, raw, now).1
  {
    hide Elapsed;
  }
}
